/**
 * The reporting API of report.go: each query method becomes a function over
 * the modelled tables, its SQL WHERE clause a predicate on one row and its
 * `count(*)`/`coalesce(sum(amount), 0)` an aggregate over the selected rows.
 * A query that the store fails is an input; Go's nil result is `None`.
 *
 * `currency` is modelled with Go's truncating `/` and `%`, so a negative
 * amount prints with a minus sign on both parts.
 */
module Report {
  import opened Wrappers
  import opened DataModel
  import opened AssignerSpec

  /** The period bounds are instants; BETWEEN includes both ends. */
  datatype ReportingApi = ReportingApi(periodStart: int, periodEnd: int, accountGroupId: string)

  datatype TxnSummary = TxnSummary(count: int, sum: int)

  /** What is left of the deposits once the withdrawals are taken out. */
  function Remaining(deposits: int, withdrawals: int): (r: int)
    ensures r + withdrawals == deposits
    ensures r == 0 <==> deposits == withdrawals
  {
    deposits - withdrawals
  }

  // ---------------------------------------------------------------------------
  // The txns queries
  // ---------------------------------------------------------------------------

  /** The WHERE clauses of the four txns queries, apart from the period. */
  datatype Where =
    | OfTxnType(txnType: string)                        // TxnTypeSummary
    | OfGroupType(txnGroupType: string)                 // TxnGroupTypeSummary
    | InGroupOfType(txnGroupId: int, txnType: string)    // TxnGroupSummary, expenses
    | InGroupNotOfType(txnGroupId: int, txnType: string) // TxnGroupSummary, deposits

  predicate InPeriod(api: ReportingApi, t: Txn) {
    api.periodStart <= t.occurredAt <= api.periodEnd
  }

  predicate Selects(api: ReportingApi, w: Where, t: Txn) {
    && InPeriod(api, t)
    && match w
       case OfTxnType(ty) => t.accountGroupId == api.accountGroupId && t.txnType == ty
       case OfGroupType(gt) => t.accountGroupId == api.accountGroupId && t.txnGroupType == gt
       case InGroupOfType(gid, ty) => t.txnGroupId == gid && t.txnType == ty
       case InGroupNotOfType(gid, ty) => t.txnGroupId == gid && t.txnType != ty
  }

  /** The rows a query selects, in table order. */
  function Select(api: ReportingApi, w: Where, txns: seq<Txn>): (r: seq<Txn>)
    ensures |r| <= |txns|
    ensures forall k :: 0 <= k < |r| ==> Selects(api, w, r[k])
  {
    if txns == [] then []
    else if Selects(api, w, txns[0]) then [txns[0]] + Select(api, w, txns[1..])
    else Select(api, w, txns[1..])
  }

  /** A query sees each row its clause selects as often as the table holds it, and no other row. */
  lemma {:induction false} SelectKeepsMultiplicity(api: ReportingApi, w: Where, txns: seq<Txn>, t: Txn)
    ensures multiset(Select(api, w, txns))[t] == if Selects(api, w, t) then multiset(txns)[t] else 0
  {
    if txns != [] {
      assert txns == [txns[0]] + txns[1..];
      SelectKeepsMultiplicity(api, w, txns[1..], t);
    }
  }

  /** coalesce(sum(amount), 0): the total of the amounts, between |rows| times each int64 extreme. */
  function Sum(rows: seq<Txn>): (r: int)
    ensures INT64_MIN * |rows| <= r <= INT64_MAX * |rows|
  {
    if rows == [] then 0 else rows[0].amount + Sum(rows[1..])
  }

  /** Whether a value fits the 64-bit Go `int` it is scanned into. */
  predicate FitsInt(x: int) {
    INT64_MIN <= x <= INT64_MAX
  }

  /**
   * count(*) and coalesce(sum(amount), 0) as the store computes them: the sum
   * of bigints is exact (numeric), so it is never wrapped.
   */
  function Aggregate(api: ReportingApi, w: Where, txns: seq<Txn>): (r: TxnSummary)
    ensures 0 <= r.count <= |txns|
  {
    var rows := Select(api, w, txns);
    TxnSummary(|rows|, Sum(rows))
  }

  /**
   * One query's summary, or nil when the store fails the query or when its
   * sum does not fit the `int` field of TxnSummary (the scan then fails).
   */
  function Query(api: ReportingApi, w: Where, txns: seq<Txn>, fails: bool): (r: Option<TxnSummary>)
    ensures r.None? <==> fails || !FitsInt(Aggregate(api, w, txns).sum)
    ensures r.Some? ==> 0 <= r.value.count <= |txns| && FitsInt(r.value.sum)
  {
    var a := Aggregate(api, w, txns);
    if fails || !FitsInt(a.sum) then None else Some(a)
  }

  /** Count and sum of this account group's transactions of one txn_type in the period. */
  function TxnTypeSummary(api: ReportingApi, txns: seq<Txn>, txnType: string, fails: bool): (r: Option<TxnSummary>)
    ensures r.None? <==> fails || !FitsInt(Aggregate(api, OfTxnType(txnType), txns).sum)
    ensures r.Some? ==> 0 <= r.value.count <= |txns|
  {
    Query(api, OfTxnType(txnType), txns, fails)
  }

  /** Count and sum of this account group's transactions of one txn_group_type in the period. */
  function TxnGroupTypeSummary(api: ReportingApi, txns: seq<Txn>, txnGroupType: string, fails: bool): (r: Option<TxnSummary>)
    ensures r.None? <==> fails || !FitsInt(Aggregate(api, OfGroupType(txnGroupType), txns).sum)
    ensures r.Some? ==> 0 <= r.value.count <= |txns|
  {
    Query(api, OfGroupType(txnGroupType), txns, fails)
  }

  /**
   * The group's transactions of type `txnType` in the period, less those of
   * any other type (refunds and the like), in count and in sum. Either query
   * failing, or having a sum beyond `int`, makes the whole summary nil.
   */
  function TxnGroupSummary(api: ReportingApi, txns: seq<Txn>, txnGroupId: int, txnType: string,
                           expensesFail: bool, depositsFail: bool): (r: Option<TxnSummary>)
    ensures r.None? <==> || expensesFail || !FitsInt(Aggregate(api, InGroupOfType(txnGroupId, txnType), txns).sum)
                         || depositsFail || !FitsInt(Aggregate(api, InGroupNotOfType(txnGroupId, txnType), txns).sum)
    ensures r.Some? ==> -|txns| <= r.value.count <= |txns|
  {
    match Query(api, InGroupOfType(txnGroupId, txnType), txns, expensesFail)
    case None => None
    case Some(expenses) =>
      match Query(api, InGroupNotOfType(txnGroupId, txnType), txns, depositsFail)
      case None => None
      case Some(deposits) =>
        assert expenses.count + deposits.count <= |txns| by {
          SelectPartition(api, txnGroupId, txnType, txns);
        }
        Some(TxnSummary(expenses.count - deposits.count, expenses.sum - deposits.sum))
  }

  /** Every in-period row of the group is an expense row or a deposit row, never both. */
  lemma {:induction false} SelectPartition(api: ReportingApi, txnGroupId: int, txnType: string, txns: seq<Txn>)
    ensures |Select(api, InGroupOfType(txnGroupId, txnType), txns)|
          + |Select(api, InGroupNotOfType(txnGroupId, txnType), txns)| <= |txns|
  {
    if txns != [] {
      SelectPartition(api, txnGroupId, txnType, txns[1..]);
    }
  }

  // ---------------------------------------------------------------------------
  // What the aggregates mean
  // ---------------------------------------------------------------------------

  lemma {:induction false} SumAppend(a: seq<Txn>, b: seq<Txn>)
    ensures Sum(a + b) == Sum(a) + Sum(b)
  {
    if a == [] {
      assert a + b == b;
    } else {
      assert (a + b)[1..] == a[1..] + b;
      SumAppend(a[1..], b);
    }
  }

  lemma {:induction false} SelectAppend(api: ReportingApi, w: Where, a: seq<Txn>, b: seq<Txn>)
    ensures Select(api, w, a + b) == Select(api, w, a) + Select(api, w, b)
  {
    if a == [] {
      assert a + b == b;
    } else {
      assert (a + b)[0] == a[0];
      assert (a + b)[1..] == a[1..] + b;
      SelectAppend(api, w, a[1..], b);
    }
  }

  /**
   * The aggregate of every query is determined row by row: no rows give
   * (0, 0) (the coalesce), one row counts with its amount exactly when the
   * WHERE clause holds for it, and the summary of two tables together is the
   * sum of their summaries.
   */
  lemma AggregateIsAdditive(api: ReportingApi, w: Where, a: seq<Txn>, b: seq<Txn>, t: Txn)
    ensures Aggregate(api, w, []) == TxnSummary(0, 0)
    ensures Aggregate(api, w, [t]) == if Selects(api, w, t) then TxnSummary(1, t.amount) else TxnSummary(0, 0)
    ensures var qa := Aggregate(api, w, a);
            var qb := Aggregate(api, w, b);
            Aggregate(api, w, a + b) == TxnSummary(qa.count + qb.count, qa.sum + qb.sum)
  {
    SelectAppend(api, w, a, b);
    SumAppend(Select(api, w, a), Select(api, w, b));
    assert [t][1..] == [];
  }

  /**
   * Two selected rows of the largest amount already sum beyond `int`: the
   * query reports nil although the store did not fail it.
   */
  lemma SumBeyondIntIsNil(api: ReportingApi, w: Where, t: Txn)
    requires t.amount == INT64_MAX && Selects(api, w, t)
    ensures Aggregate(api, w, [t, t]) == TxnSummary(2, 2 * INT64_MAX)
    ensures Query(api, w, [t, t], false) == None
  {
    assert [t, t][1..] == [t];
    assert [t][1..] == [];
    assert Select(api, w, [t]) == [t];
    assert Select(api, w, [t, t]) == [t, t];
    assert Sum([t]) == t.amount;
  }

  /** The positions of the rows a WHERE clause selects. */
  function MatchingPositions(api: ReportingApi, w: Where, txns: seq<Txn>): set<int> {
    set i | 0 <= i < |txns| && Selects(api, w, txns[i])
  }

  /** count(*) is the number of positions in the table whose row the clause selects. */
  lemma CountIsMatchingRows(api: ReportingApi, w: Where, txns: seq<Txn>)
    ensures Aggregate(api, w, txns).count == |MatchingPositions(api, w, txns)|
  {
    SelectedCount(api, w, txns);
  }

  lemma {:induction false} SelectedCount(api: ReportingApi, w: Where, txns: seq<Txn>)
    ensures |Select(api, w, txns)| == |MatchingPositions(api, w, txns)|
  {
    if txns != [] {
      var n := |txns| - 1;
      var init, t := txns[..n], txns[n];
      assert txns == init + [t];
      SelectedCount(api, w, init);
      SelectAppend(api, w, init, [t]);
      assert [t][1..] == [];
      PositionsSnoc(api, w, init, t);
    }
  }

  /** Appending a row adds its position exactly when the clause selects it. */
  lemma PositionsSnoc(api: ReportingApi, w: Where, init: seq<Txn>, t: Txn)
    ensures |MatchingPositions(api, w, init + [t])|
         == |MatchingPositions(api, w, init)| + if Selects(api, w, t) then 1 else 0
  {
    var s := init + [t];
    var n := |init|;
    var before := MatchingPositions(api, w, init);
    var last: set<int> := if Selects(api, w, t) then {n} else {};
    forall i | i in MatchingPositions(api, w, s) ensures i in before + last {
      if i < n {
        assert s[i] == init[i];
      }
    }
    forall i | i in before ensures i in MatchingPositions(api, w, s) {
      assert s[i] == init[i];
    }
    assert MatchingPositions(api, w, s) == before + last;
    assert before !! last;
  }

  /**
   * The reference meaning of TxnGroupSummary: each in-period row of the
   * group counts +1 and adds its amount when it has type `txnType`, and
   * counts -1 and takes its amount away otherwise.
   */
  function SignedTotal(api: ReportingApi, txns: seq<Txn>, txnGroupId: int, txnType: string): TxnSummary {
    if txns == [] then TxnSummary(0, 0)
    else
      var rest := SignedTotal(api, txns[1..], txnGroupId, txnType);
      var t := txns[0];
      if t.txnGroupId != txnGroupId || !InPeriod(api, t) then rest
      else if t.txnType == txnType then TxnSummary(rest.count + 1, rest.sum + t.amount)
      else TxnSummary(rest.count - 1, rest.sum - t.amount)
  }

  /** The signed total is the expense aggregate less the deposit aggregate. */
  lemma {:induction false} SignedTotalIsDifference(api: ReportingApi, txns: seq<Txn>, txnGroupId: int, txnType: string)
    ensures var e := Aggregate(api, InGroupOfType(txnGroupId, txnType), txns);
            var d := Aggregate(api, InGroupNotOfType(txnGroupId, txnType), txns);
            SignedTotal(api, txns, txnGroupId, txnType) == TxnSummary(e.count - d.count, e.sum - d.sum)
  {
    if txns != [] {
      SignedTotalIsDifference(api, txns[1..], txnGroupId, txnType);
    }
  }

  /** Whenever both sums fit `int`, the group summary is the signed total; otherwise it is nil. */
  lemma TxnGroupSummaryIsSignedTotal(api: ReportingApi, txns: seq<Txn>, txnGroupId: int, txnType: string)
    ensures var e := Aggregate(api, InGroupOfType(txnGroupId, txnType), txns);
            var d := Aggregate(api, InGroupNotOfType(txnGroupId, txnType), txns);
            TxnGroupSummary(api, txns, txnGroupId, txnType, false, false)
              == if FitsInt(e.sum) && FitsInt(d.sum) then Some(SignedTotal(api, txns, txnGroupId, txnType)) else None
  {
    SignedTotalIsDifference(api, txns, txnGroupId, txnType);
  }

  /** A group with no transaction of another type in the period summarises as the plain expense query. */
  lemma TxnGroupSummaryWithoutRefunds(api: ReportingApi, txns: seq<Txn>, txnGroupId: int, txnType: string)
    requires forall i :: 0 <= i < |txns| ==> !Selects(api, InGroupNotOfType(txnGroupId, txnType), txns[i])
    ensures TxnGroupSummary(api, txns, txnGroupId, txnType, false, false)
         == Query(api, InGroupOfType(txnGroupId, txnType), txns, false)
  {
    NothingSelected(api, InGroupNotOfType(txnGroupId, txnType), txns);
  }

  lemma {:induction false} NothingSelected(api: ReportingApi, w: Where, txns: seq<Txn>)
    requires forall i :: 0 <= i < |txns| ==> !Selects(api, w, txns[i])
    ensures Select(api, w, txns) == []
  {
    if txns != [] {
      assert !Selects(api, w, txns[0]);
      NothingSelected(api, w, txns[1..]);
    }
  }

  // ---------------------------------------------------------------------------
  // The txn_groups listing
  // ---------------------------------------------------------------------------

  predicate Listed(api: ReportingApi, groupType: string, g: TxnGroup) {
    g.groupType == groupType && g.accountGroupId == api.accountGroupId
  }

  /**
   * The groups of one type in this account group (the system scope when the
   * account group is ""), in table order, or nil when the store fails.
   */
  function TxnGroups(api: ReportingApi, groups: seq<TxnGroup>, groupType: string, fails: bool): (r: Option<seq<TxnGroup>>)
    ensures r.None? <==> fails
    ensures r.Some? ==> forall g :: g in r.value <==> g in groups && Listed(api, groupType, g)
  {
    if fails then None else Some(ListGroups(api, groups, groupType))
  }

  function ListGroups(api: ReportingApi, groups: seq<TxnGroup>, groupType: string): (r: seq<TxnGroup>)
    ensures forall g :: g in r <==> g in groups && Listed(api, groupType, g)
  {
    if groups == [] then []
    else if Listed(api, groupType, groups[0]) then [groups[0]] + ListGroups(api, groups[1..], groupType)
    else ListGroups(api, groups[1..], groupType)
  }

  predicate DistinctLabels(groups: seq<TxnGroup>) {
    forall i, j :: 0 <= i < j < |groups| ==> groups[i].fingerprint != groups[j].fingerprint
  }

  /**
   * Over a table that keeps the uniqueness constraint, the listing holds each
   * label at most once: the report shows one line per merchant.
   */
  lemma {:induction false} TxnGroupsDistinctLabels(api: ReportingApi, groups: seq<TxnGroup>, groupType: string)
    requires KeysUnique(groups)
    ensures DistinctLabels(ListGroups(api, groups, groupType))
  {
    if groups != [] {
      var rest := groups[1..];
      assert KeysUnique(rest) by {
        forall a, b | 0 <= a < b < |rest| ensures KeyOf(rest[a]) != KeyOf(rest[b]) {
          assert rest[a] == groups[a + 1] && rest[b] == groups[b + 1];
        }
      }
      TxnGroupsDistinctLabels(api, rest, groupType);
      var tail := ListGroups(api, rest, groupType);
      if Listed(api, groupType, groups[0]) {
        var r := [groups[0]] + tail;
        assert ListGroups(api, groups, groupType) == r;
        forall i, j | 0 <= i < j < |r| ensures r[i].fingerprint != r[j].fingerprint {
          if i == 0 {
            assert r[j] == tail[j - 1] && r[j] in rest;
            var k :| 0 <= k < |rest| && rest[k] == r[j];
            assert groups[k + 1] == r[j];
            assert KeyOf(groups[0]) != KeyOf(groups[k + 1]);
          } else {
            assert r[i] == tail[i - 1] && r[j] == tail[j - 1];
          }
        }
      }
    }
  }

  // ---------------------------------------------------------------------------
  // currency: "$%d.%02d" of amount / 100 and amount % 100, Go semantics
  // ---------------------------------------------------------------------------

  /** Go's amount / 100: the quotient truncated toward zero. */
  function Dollars(amount: int): (d: int)
    ensures amount >= 0 ==> 0 <= amount - d * 100 < 100
    ensures amount < 0 ==> -100 < amount - d * 100 <= 0
  {
    if amount >= 0 then amount / 100 else -((-amount) / 100)
  }

  /** Go's amount % 100: the remainder takes the sign of the amount. */
  function Cents(amount: int): (c: int)
    ensures Dollars(amount) * 100 + c == amount
    ensures amount >= 0 ==> 0 <= c < 100
    ensures amount < 0 ==> -100 < c <= 0
  {
    if amount >= 0 then amount % 100 else -((-amount) % 100)
  }

  /** Truncated division is the one split of an amount whose remainder is smaller than 100 and never opposes its sign. */
  lemma TruncationUnique(amount: int, d: int, c: int)
    requires d * 100 + c == amount
    requires amount >= 0 ==> 0 <= c < 100
    requires amount < 0 ==> -100 < c <= 0
    ensures d == Dollars(amount) && c == Cents(amount)
  {
    var d0 := Dollars(amount);
    assert (d - d0) * 100 == Cents(amount) - c;
  }

  predicate IsDigit(c: char) {
    '0' <= c <= '9'
  }

  predicate AllDigits(s: string) {
    forall i :: 0 <= i < |s| ==> IsDigit(s[i])
  }

  function DigitChar(d: nat): (c: char)
    requires d < 10
    ensures IsDigit(c)
  {
    (d + '0' as int) as char
  }

  /** Decimal digits of `n`, without leading zeros. */
  function Decimal(n: nat): (s: string)
    ensures |s| >= 1 && AllDigits(s)
    ensures s[0] == '0' ==> n == 0
    decreases n
  {
    if n < 10 then [DigitChar(n)] else Decimal(n / 10) + [DigitChar(n % 10)]
  }

  /** fmt's %d. */
  function FormatInt(i: int): (s: string)
    ensures |s| >= 1 && '.' !in s
    ensures s[0] == '-' <==> i < 0
  {
    if i < 0 then "-" + Decimal(-i) else Decimal(i)
  }

  /** fmt's %02d: %d padded with zeros to width two; a sign counts towards the width. */
  function Pad2(i: int): (s: string)
    ensures |s| >= 2 && '.' !in s
  {
    var s := FormatInt(i);
    if |s| < 2 then "0" + s else s
  }

  function Currency(amount: int): (s: string)
    ensures |s| >= 5 && s[0] == '$'
  {
    "$" + FormatInt(Dollars(amount)) + "." + Pad2(Cents(amount))
  }

  /** A non-negative amount prints as "$", the dollars, ".", and exactly two digits of cents. */
  lemma CurrencyOfNonNegative(amount: int)
    requires amount >= 0
    ensures var cents := Pad2(amount % 100);
            && Currency(amount) == "$" + Decimal(amount / 100) + "." + cents
            && |cents| == 2 && AllDigits(cents)
            && cents == (if amount % 100 < 10 then "0" else "") + Decimal(amount % 100)
  {
    var c := amount % 100;
    if c >= 10 {
      assert Decimal(c) == Decimal(c / 10) + [DigitChar(c % 10)];
    }
  }

  /**
   * When an amount below zero is not a whole number of dollars, the minus
   * sign is printed twice: once on the dollars, once on the cents.
   */
  lemma CurrencyOfNegative(amount: int)
    requires amount < 0 && Cents(amount) != 0
    ensures Currency(amount) == "$" + FormatInt(Dollars(amount)) + ".-" + Decimal(-Cents(amount))
    ensures amount <= -100 ==> Currency(amount)[1] == '-'
  {
    assert Pad2(Cents(amount)) == "-" + Decimal(-Cents(amount));
    if amount <= -100 {
      assert Dollars(amount) < 0;
    }
  }

  /** The amount -4599 prints as "$-45.-99". */
  lemma CurrencyExample(amount: int)
    requires amount == -4599
    ensures Currency(amount) == "$-45.-99"
  {
    assert Dollars(amount) == -45 && Cents(amount) == -99;
    DecimalExample(45, "45");
    DecimalExample(99, "99");
  }

  lemma DecimalExample(n: nat, s: string)
    requires (n == 45 && s == "45") || (n == 99 && s == "99")
    ensures Decimal(n) == s
  {
    assert Decimal(n) == Decimal(n / 10) + [DigitChar(n % 10)];
  }

  // ---------------------------------------------------------------------------
  // Reading an amount back
  // ---------------------------------------------------------------------------

  function DigitValue(c: char): (d: nat)
    requires IsDigit(c)
    ensures d < 10 && DigitChar(d) == c
  {
    c as int - '0' as int
  }

  function ParseDecimal(s: string): nat
    requires AllDigits(s)
  {
    if s == [] then 0 else ParseDecimal(s[..|s| - 1]) * 10 + DigitValue(s[|s| - 1])
  }

  /** An optionally signed run of decimal digits; leading zeros are allowed. */
  function ParseInt(s: string): Option<int> {
    if |s| > 1 && s[0] == '-' && AllDigits(s[1..]) then Some(0 - ParseDecimal(s[1..]) as int)
    else if |s| > 0 && AllDigits(s) then Some(ParseDecimal(s))
    else None
  }

  function IndexOfDot(s: string): (k: nat)
    ensures k <= |s| && '.' !in s[..k] && (k < |s| ==> s[k] == '.')
  {
    if s == [] then 0
    else if s[0] == '.' then 0
    else
      var k := IndexOfDot(s[1..]);
      assert s[..k + 1] == [s[0]] + s[1..][..k];
      k + 1
  }

  /** Reads "$<int>.<int>" as dollars * 100 + cents, the inverse of Currency. */
  function ParseCurrency(s: string): Option<int> {
    if |s| == 0 || s[0] != '$' then None
    else
      var body := s[1..];
      var k := IndexOfDot(body);
      if k == |body| then None
      else match (ParseInt(body[..k]), ParseInt(body[k + 1..]))
        case (Some(d), Some(c)) => Some(d * 100 + c)
        case _ => None
  }

  lemma {:induction false} ParseDecimalOfDecimal(n: nat)
    ensures ParseDecimal(Decimal(n)) == n
    decreases n
  {
    if n >= 10 {
      var s := Decimal(n);
      assert s[..|s| - 1] == Decimal(n / 10);
      ParseDecimalOfDecimal(n / 10);
    }
  }

  lemma ParseIntOfFormatInt(i: int)
    ensures ParseInt(FormatInt(i)) == Some(i)
  {
    if i < 0 {
      var digits := Decimal(-i);
      assert FormatInt(i) == "-" + digits;
      assert ("-" + digits)[1..] == digits;
      ParseDecimalOfDecimal(-i);
    } else {
      ParseDecimalOfDecimal(i);
    }
  }

  lemma ParseIntOfPad2(i: int)
    ensures ParseInt(Pad2(i)) == Some(i)
  {
    ParseIntOfFormatInt(i);
    var s := FormatInt(i);
    if |s| < 2 {
      var p := "0" + s;
      assert p[..1] == "0" && "0"[..0] == [];
      assert ParseDecimal(p[..1]) == 0;
      assert ParseDecimal(p) == DigitValue(s[0]);
      ParseDecimalOfDecimal(i);
    }
  }

  lemma {:induction false} IndexOfDotSplit(x: string, y: string)
    requires '.' !in x
    ensures IndexOfDot(x + "." + y) == |x|
  {
    var s := x + "." + y;
    if x != [] {
      assert s[0] == x[0];
      assert s[1..] == x[1..] + "." + y;
      IndexOfDotSplit(x[1..], y);
    }
  }

  /** "$" + dollars + "." + cents reads back as dollars * 100 + cents when the dollars hold no '.'. */
  lemma ParseCurrencyOfParts(ds: string, cs: string, d: int, c: int)
    requires '.' !in ds && ParseInt(ds) == Some(d) && ParseInt(cs) == Some(c)
    ensures ParseCurrency("$" + ds + "." + cs) == Some(d * 100 + c)
  {
    var s := "$" + ds + "." + cs;
    var body := s[1..];
    assert body == ds + "." + cs;
    IndexOfDotSplit(ds, cs);
    assert body[..|ds|] == ds;
    assert body[|ds| + 1..] == cs;
  }

  /** Currency loses nothing: the printed string reads back as the amount. */
  lemma CurrencyRoundTrip(amount: int)
    ensures ParseCurrency(Currency(amount)) == Some(amount)
  {
    var d, c := Dollars(amount), Cents(amount);
    var ds, cs := FormatInt(d), Pad2(c);
    ParseIntOfFormatInt(d);
    ParseIntOfPad2(c);
    ParseCurrencyOfParts(ds, cs, d, c);
    assert Currency(amount) == "$" + ds + "." + cs;
  }

  /** Two different amounts never print the same. */
  lemma CurrencyInjective(a: int, b: int)
    requires Currency(a) == Currency(b)
    ensures a == b
  {
    CurrencyRoundTrip(a);
    CurrencyRoundTrip(b);
  }

  // ---------------------------------------------------------------------------
  // currency as evidently intended: one sign, cents always two digits
  // ---------------------------------------------------------------------------

  /** Dollars and cents of a non-negative amount: digits, '.', two digits. */
  function Magnitude(n: nat): (s: string)
    ensures |s| >= 4 && IsDigit(s[0])
  {
    Decimal(n / 100) + "." + Pad2(n % 100)
  }

  /** The sign printed once, before the dollars of the magnitude. */
  function CurrencyCorrected(amount: int): (s: string)
    ensures |s| >= 5 && s[0] == '$'
  {
    if amount < 0 then "$-" + Magnitude(-amount) else "$" + Magnitude(amount)
  }

  /** Where the source is right the correction changes nothing. */
  lemma CorrectedAgreesOnNonNegative(amount: int)
    requires amount >= 0
    ensures CurrencyCorrected(amount) == Currency(amount)
  {
    assert Dollars(amount) == amount / 100 && Cents(amount) == amount % 100;
  }

  /**
   * A negative amount prints as its magnitude with one '-' after the '$', and
   * its cents are two digits: -4599 gives "$-45.99".
   */
  lemma CorrectedNegative(amount: int)
    requires amount < 0
    ensures CurrencyCorrected(amount) == "$-" + CurrencyCorrected(-amount)[1..]
    ensures var magnitude := -amount;
            CurrencyCorrected(amount) == "$-" + Decimal(magnitude / 100) + "." + Pad2(magnitude % 100)
            && |Pad2(magnitude % 100)| == 2 && AllDigits(Pad2(magnitude % 100))
  {
    var m := Magnitude(-amount);
    assert ("$" + m)[1..] == m;
    CurrencyOfNonNegative(-amount);
  }

  /** The magnitude's digits determine it. */
  lemma MagnitudeInjective(a: nat, b: nat)
    requires Magnitude(a) == Magnitude(b)
    ensures a == b
  {
    CorrectedAgreesOnNonNegative(a);
    CorrectedAgreesOnNonNegative(b);
    CurrencyInjective(a, b);
  }

  /** Two different amounts never print the same in the corrected format either. */
  lemma CorrectedInjective(a: int, b: int)
    requires CurrencyCorrected(a) == CurrencyCorrected(b)
    ensures a == b
  {
    SignShows(a);
    SignShows(b);
    var s := CurrencyCorrected(a);
    if a < 0 {
      assert s[2..] == Magnitude(-a) && s[2..] == Magnitude(-b);
      MagnitudeInjective(-a, -b);
    } else {
      assert s[1..] == Magnitude(a) && s[1..] == Magnitude(b);
      MagnitudeInjective(a, b);
    }
  }

  /** The second character is '-' exactly for a negative amount. */
  lemma SignShows(amount: int)
    ensures CurrencyCorrected(amount)[1] == '-' <==> amount < 0
  {
  }

  /** The amount the source prints as "$-45.-99" prints as "$-45.99" once corrected. */
  lemma CorrectedExample(amount: int)
    requires amount == -4599
    ensures CurrencyCorrected(amount) == "$-45.99"
  {
    assert -amount / 100 == 45 && -amount % 100 == 99;
    DecimalExample(45, "45");
    DecimalExample(99, "99");
  }
}
