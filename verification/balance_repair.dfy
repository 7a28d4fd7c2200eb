/** The balance repair applied to a ledger read from a statement image: it
    makes the running balance column agree with the debit and credit
    columns, starting from the opening balance, by choosing one of four
    repairs according to what is wrong. */
module BalanceRepair {
  import opened Wrappers
  import opened Utils

  /** One statement row. A missing balance cell is `None`. */
  datatype Entry = Entry(debit: real, credit: real, balance: Option<real>)

  /** The tolerance of the floating-point comparisons. */
  const Epsilon: real := 0.000000001

  /** The bank whose statements list credits and debits in swapped columns. */
  const SwappedColumnsBank: string := "Emirates NBD"

  function SumDebit(rows: seq<Entry>): real {
    if rows == [] then 0.0 else SumDebit(rows[..|rows| - 1]) + rows[|rows| - 1].debit
  }

  function SumCredit(rows: seq<Entry>): real {
    if rows == [] then 0.0 else SumCredit(rows[..|rows| - 1]) + rows[|rows| - 1].credit
  }

  /** The net movement of `rows`: credits minus debits. */
  function Net(rows: seq<Entry>): real {
    SumCredit(rows) - SumDebit(rows)
  }

  /** The balance before row `i`: the opening balance for the first row,
      otherwise the previous row's balance. */
  function Before(opening: real, rows: seq<Entry>, i: nat): real
    requires i < |rows|
  {
    if i == 0 then opening else rows[i - 1].balance.GetOr(0.0)
  }

  /** Every row's balance is present and equals the balance before it plus
      its credit minus its debit. */
  ghost predicate Consistent(opening: real, rows: seq<Entry>) {
    forall i :: 0 <= i < |rows| ==>
      rows[i].balance == Some(Before(opening, rows, i) + rows[i].credit - rows[i].debit)
  }

  /** In a consistent ledger each balance is the opening balance plus the
      net movement of the rows up to and including it. */
  lemma {:induction false} ConsistentClosedForm(opening: real, rows: seq<Entry>, i: nat)
    requires Consistent(opening, rows) && i < |rows|
    ensures rows[i].balance == Some(opening + Net(rows[..i + 1]))
  {
    var pre := rows[..i + 1];
    assert pre[..i] == rows[..i] && pre[i] == rows[i];
    assert Net(pre) == Net(rows[..i]) + rows[i].credit - rows[i].debit;
    assert rows[i].balance == Some(Before(opening, rows, i) + rows[i].credit - rows[i].debit);
    if i > 0 {
      ConsistentClosedForm(opening, rows, i - 1);
    }
  }

  /** A row whose balance follows from the last one extends a consistent ledger. */
  lemma ConsistentAppend(opening: real, rows: seq<Entry>, e: Entry)
    requires Consistent(opening, rows)
    requires e.balance == Some((if rows == [] then opening else rows[|rows| - 1].balance.GetOr(0.0)) + e.credit - e.debit)
    ensures Consistent(opening, rows + [e])
  {
    var t := rows + [e];
    forall i | 0 <= i < |t|
      ensures t[i].balance == Some(Before(opening, t, i) + t[i].credit - t[i].debit)
    {
      if i < |rows| {
        assert t[i] == rows[i] && Before(opening, t, i) == Before(opening, rows, i);
      }
    }
  }

  /** `p` occurs in `s` starting at position `k`. */
  ghost predicate InfixAt(s: string, p: string, k: nat) {
    k + |p| <= |s| && s[k..k + |p|] == p
  }

  /** `s` contains `p` as a contiguous piece (Python's `p in s`). */
  function HasInfix(s: string, p: string): bool
    decreases |s|
  {
    if |p| > |s| then false
    else s[..|p|] == p || HasInfix(s[1..], p)
  }

  /** The containment test finds `p` exactly when it occurs at some position. */
  lemma {:induction false} HasInfixIff(s: string, p: string)
    ensures HasInfix(s, p) <==> exists k: nat :: InfixAt(s, p, k)
    decreases |s|
  {
    if |p| > |s| {
      forall k: nat ensures !InfixAt(s, p, k) {}
    } else if s[..|p|] == p {
      assert InfixAt(s, p, 0);
    } else {
      HasInfixIff(s[1..], p);
      if HasInfix(s[1..], p) {
        var k: nat :| InfixAt(s[1..], p, k);
        assert s[k + 1..k + 1 + |p|] == s[1..][k..k + |p|];
        assert InfixAt(s, p, k + 1);
      }
      forall k: nat | InfixAt(s, p, k) ensures HasInfix(s[1..], p) {
        assert k != 0;
        assert s[k..k + |p|] == s[1..][k - 1..k - 1 + |p|];
        assert InfixAt(s[1..], p, k - 1);
      }
    }
  }

  /** `_fix_missing_balances`: keep the amounts and recompute every balance
      from the opening balance. The first row must exist. */
  method FixMissingBalances(rows: seq<Entry>, opening: real) returns (out: seq<Entry>)
    requires |rows| > 0
    ensures |out| == |rows|
    ensures forall i :: 0 <= i < |rows| ==> out[i].debit == rows[i].debit && out[i].credit == rows[i].credit
    ensures Consistent(opening, out)
  {
    out := [rows[0].(balance := Some(opening + rows[0].credit - rows[0].debit))];
    var i := 1;
    while i < |rows|
      invariant 1 <= i <= |rows| && |out| == i
      invariant forall k :: 0 <= k < i ==> out[k].debit == rows[k].debit && out[k].credit == rows[k].credit
      invariant Consistent(opening, out)
    {
      var prev := out[i - 1].balance.GetOr(0.0);
      var e := rows[i].(balance := Some(prev + rows[i].credit - rows[i].debit));
      ConsistentAppend(opening, out, e);
      out := out + [e];
      i := i + 1;
    }
  }

  /** The debit and credit that move a balance from `prev` to `bal`: a
      fall is a debit, anything else a credit. */
  function Movement(prev: real, bal: real): (r: (real, real))
    ensures r.0 >= 0.0 && r.1 >= 0.0 && (r.0 == 0.0 || r.1 == 0.0)
    ensures prev + r.1 - r.0 == bal
    ensures r.0 > 0.0 <==> prev > bal
  {
    var diff := prev - bal;
    if diff > 0.0 then (diff, 0.0) else (0.0, Abs(diff))
  }

  /** `o` keeps the balance of `r` and has non-negative amounts of which at
      most one is nonzero. */
  predicate Rewritten(r: Entry, o: Entry) {
    o.balance == r.balance && o.debit >= 0.0 && o.credit >= 0.0 && (o.debit == 0.0 || o.credit == 0.0)
  }

  /** `_recalculate_transactions`: keep the balances and rewrite each row's
      debit and credit as the movement from the balance before it. */
  method RecalculateTransactions(rows: seq<Entry>, opening: real) returns (out: seq<Entry>)
    requires |rows| > 0 && forall i :: 0 <= i < |rows| ==> rows[i].balance.Some?
    ensures |out| == |rows|
    ensures forall i :: 0 <= i < |rows| ==> out[i].balance == rows[i].balance
    ensures forall i :: 0 <= i < |rows| ==>
      out[i].debit >= 0.0 && out[i].credit >= 0.0 && (out[i].debit == 0.0 || out[i].credit == 0.0)
    ensures Consistent(opening, out)
  {
    var mv := Movement(opening, rows[0].balance.value);
    out := [rows[0].(debit := mv.0, credit := mv.1)];
    var i := 1;
    while i < |rows|
      invariant 1 <= i <= |rows| && |out| == i
      invariant forall k :: 0 <= k < i ==> Rewritten(rows[k], out[k])
      invariant Consistent(opening, out)
    {
      var mv := Movement(rows[i - 1].balance.value, rows[i].balance.value);
      var e := rows[i].(debit := mv.0, credit := mv.1);
      ConsistentAppend(opening, out, e);
      assert Rewritten(rows[i], e);
      out := out + [e];
      i := i + 1;
    }
  }

  /** `_fix_shifted_balances`: for the bank with swapped columns, swap debit
      and credit back; then move every balance up one row and recompute the
      last from the balance now above it. Two rows at least are needed. */
  function FixShiftedBalances(rows: seq<Entry>, name: string): (out: seq<Entry>)
    requires |rows| >= 2 && forall i :: 0 <= i < |rows| ==> rows[i].balance.Some?
    ensures |out| == |rows|
    ensures forall i :: 0 <= i < |rows| ==>
      if HasInfix(name, SwappedColumnsBank)
      then out[i].debit == rows[i].credit && out[i].credit == rows[i].debit
      else out[i].debit == rows[i].debit && out[i].credit == rows[i].credit
    ensures forall i :: 0 <= i < |rows| - 1 ==> out[i].balance == rows[i + 1].balance
    ensures var n := |rows|;
      out[n - 1].balance == Some(rows[n - 1].balance.value + out[n - 1].credit - out[n - 1].debit)
  {
    var swap := HasInfix(name, SwappedColumnsBank);
    var n := |rows|;
    seq(n, i requires 0 <= i < n =>
      var d := if swap then rows[i].credit else rows[i].debit;
      var c := if swap then rows[i].debit else rows[i].credit;
      // after the shift, the second-to-last balance is the old last one
      var b := if i < n - 1 then rows[i + 1].balance else Some(rows[n - 1].balance.value + c - d);
      Entry(d, c, b))
  }

  /** The rows with debit and credit swapped back when the ledger comes from
      the bank with swapped columns. */
  function Unswapped(rows: seq<Entry>, name: string): (r: seq<Entry>)
    ensures |r| == |rows|
    ensures forall i :: 0 <= i < |rows| ==> r[i].balance == rows[i].balance
    ensures forall i :: 0 <= i < |rows| ==>
      if HasInfix(name, SwappedColumnsBank)
      then r[i].debit == rows[i].credit && r[i].credit == rows[i].debit
      else r[i].debit == rows[i].debit && r[i].credit == rows[i].credit
  {
    if HasInfix(name, SwappedColumnsBank)
    then seq(|rows|, i requires 0 <= i < |rows| => rows[i].(debit := rows[i].credit, credit := rows[i].debit))
    else rows
  }

  /** Row `i` shows the balance after the row above it. */
  ghost predicate StepAt(rows: seq<Entry>, i: nat) {
    && 0 < i < |rows|
    && rows[i].balance.Some? && rows[i - 1].balance.Some?
    && rows[i].balance.value == rows[i - 1].balance.value + rows[i - 1].credit - rows[i - 1].debit
  }

  /** The balances sit one row too low: the first row shows the opening
      balance, and each later row shows the balance after the row above it. */
  ghost predicate OffsetByOne(opening: real, rows: seq<Entry>) {
    && |rows| > 0
    && rows[0].balance == Some(opening)
    && forall i :: 0 < i < |rows| ==> StepAt(rows, i)
  }

  /** One row of the shifted ledger follows from the row above it. */
  lemma ShiftStep(opening: real, out: seq<Entry>, u: seq<Entry>, i: nat)
    requires |out| == |u| >= 2 && i < |u|
    requires out[i].debit == u[i].debit && out[i].credit == u[i].credit
    requires i < |u| - 1 ==> out[i].balance == u[i + 1].balance && StepAt(u, i + 1)
    requires i == |u| - 1 ==> u[i].balance.Some? && out[i].balance == Some(u[i].balance.value + out[i].credit - out[i].debit)
    requires i == 0 ==> u[0].balance == Some(opening)
    requires i > 0 ==> out[i - 1].balance == u[i].balance
    ensures out[i].balance == Some(Before(opening, out, i) + out[i].credit - out[i].debit)
  {
  }

  /** Moving the balances of an offset-by-one ledger `u` up one row, and
      recomputing the last from the balance now above it, gives a consistent
      ledger `out`. */
  lemma ShiftConsistent(opening: real, out: seq<Entry>, u: seq<Entry>)
    requires |out| == |u| >= 2 && OffsetByOne(opening, u)
    requires forall i :: 0 <= i < |u| ==> out[i].debit == u[i].debit && out[i].credit == u[i].credit
    requires forall i :: 0 <= i < |u| - 1 ==> out[i].balance == u[i + 1].balance
    requires var n := |u|;
      u[n - 1].balance.Some? && out[n - 1].balance == Some(u[n - 1].balance.value + out[n - 1].credit - out[n - 1].debit)
    ensures Consistent(opening, out)
  {
    forall i | 0 <= i < |out|
      ensures out[i].balance == Some(Before(opening, out, i) + out[i].credit - out[i].debit)
    {
      ShiftStep(opening, out, u, i);
    }
  }

  /** On a ledger whose balances sit one row too low (once its columns are
      swapped back), the shift repair yields a consistent ledger. */
  lemma ShiftRepairsOffset(opening: real, rows: seq<Entry>, name: string)
    requires |rows| >= 2 && forall i :: 0 <= i < |rows| ==> rows[i].balance.Some?
    requires OffsetByOne(opening, Unswapped(rows, name))
    ensures Consistent(opening, FixShiftedBalances(rows, name))
  {
    var out := FixShiftedBalances(rows, name);
    var u := Unswapped(rows, name);
    ShiftConsistent(opening, out, u);
  }

  /** The four repairs, and the two inputs on which the repair fails: a
      ledger without rows, and a one-row ledger sent to the shift repair. */
  datatype Repair = FillMissing | AlreadyBalanced | ShiftBalances | Recalculate
  datatype RepairError = EmptyLedger | TooFewRowsToShift

  predicate AnyMissing(rows: seq<Entry>) {
    exists i :: 0 <= i < |rows| && rows[i].balance.None?
  }

  /** Some row has both a debit and a credit, the sign of a shifted column. */
  predicate AnyTwoSided(rows: seq<Entry>) {
    exists i :: 0 <= i < |rows| && rows[i].credit != 0.0 && rows[i].debit != 0.0
  }

  /** Which repair `validate_and_fix` chooses, tried in order: a missing
      balance; a final balance that already agrees with the opening balance
      and the amounts; a first balance equal to the opening balance next to a
      row with both amounts; otherwise recalculation of the amounts. */
  function Choose(opening: real, rows: seq<Entry>): (r: Result<Repair, RepairError>)
    ensures AnyMissing(rows) <==> r == Success(FillMissing)
    ensures !AnyMissing(rows) && rows == [] <==> r == Failure(EmptyLedger)
    ensures r == Success(AlreadyBalanced) ==>
      !AnyMissing(rows) && |rows| > 0 && Near(opening + Net(rows), rows[|rows| - 1].balance.value, Epsilon)
    ensures r == Success(ShiftBalances) || r == Failure(TooFewRowsToShift) ==>
      && !AnyMissing(rows) && |rows| > 0
      && !Near(opening + Net(rows), rows[|rows| - 1].balance.value, Epsilon)
      && Near(opening, rows[0].balance.value, Epsilon) && AnyTwoSided(rows)
    ensures r == Failure(TooFewRowsToShift) <==> (r == Success(ShiftBalances) || r == Failure(TooFewRowsToShift)) && |rows| < 2
    ensures r == Success(Recalculate) ==>
      && !AnyMissing(rows) && |rows| > 0
      && !Near(opening + Net(rows), rows[|rows| - 1].balance.value, Epsilon)
      && !(Near(opening, rows[0].balance.value, Epsilon) && AnyTwoSided(rows))
  {
    if AnyMissing(rows) then Success(FillMissing)
    else if rows == [] then Failure(EmptyLedger)
    else if Near(opening + SumCredit(rows) - SumDebit(rows), rows[|rows| - 1].balance.value, Epsilon) then Success(AlreadyBalanced)
    else if Near(opening, rows[0].balance.value, Epsilon) && AnyTwoSided(rows) then
      (if |rows| < 2 then Failure(TooFewRowsToShift) else Success(ShiftBalances))
    else Success(Recalculate)
  }

  /** A consistent ledger is left as it is: its final balance is the opening
      balance plus the net movement. */
  lemma ConsistentIsBalanced(opening: real, rows: seq<Entry>)
    requires Consistent(opening, rows) && |rows| > 0
    ensures Choose(opening, rows) == Success(AlreadyBalanced)
  {
    var n := |rows|;
    ConsistentClosedForm(opening, rows, n - 1);
    assert rows[..n] == rows;
    assert !AnyMissing(rows);
  }

  /** `validate_and_fix`: the chosen repair applied to a copy of the rows. */
  method ValidateAndFix(name: string, opening: real, rows: seq<Entry>) returns (r: Result<seq<Entry>, RepairError>)
    ensures Choose(opening, rows).Failure? <==> r.Failure?
    ensures r.Failure? ==> r.error == Choose(opening, rows).error
    ensures r.Success? ==> |r.value| == |rows|
    ensures Choose(opening, rows) == Success(AlreadyBalanced) ==> r == Success(rows)
    ensures Choose(opening, rows) == Success(FillMissing) || Choose(opening, rows) == Success(Recalculate) ==>
      r.Success? && Consistent(opening, r.value) && Choose(opening, r.value) == Success(AlreadyBalanced)
    ensures Choose(opening, rows) == Success(ShiftBalances) ==>
      r == Success(FixShiftedBalances(rows, name))
  {
    var choice := Choose(opening, rows);
    match choice
    case Failure(e) =>
      r := Failure(e);
    case Success(FillMissing) =>
      var out := FixMissingBalances(rows, opening);
      ConsistentIsBalanced(opening, out);
      r := Success(out);
    case Success(AlreadyBalanced) =>
      r := Success(rows);
    case Success(ShiftBalances) =>
      r := Success(FixShiftedBalances(rows, name));
    case Success(Recalculate) =>
      var out := RecalculateTransactions(rows, opening);
      ConsistentIsBalanced(opening, out);
      r := Success(out);
  }
}
