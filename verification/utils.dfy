/** The helpers of the reconciler: tolerant comparison of amounts, half-up
    rounding, match bookkeeping and the closing-balance split. */
module Utils {
  import opened Wrappers
  import opened Records

  function Abs(x: real): real {
    if x < 0.0 then -x else x
  }

  /** Two present amounts agree when they differ by strictly less than `tol`. */
  predicate Near(a: real, b: real, tol: real) {
    Abs(a - b) < tol
  }

  /** The number of whole days between two dates. */
  function DayGap(d1: int, d2: int): nat {
    if d1 >= d2 then d1 - d2 else d2 - d1
  }

  /** Tolerant equality of two possibly missing amounts: two missing values
      agree, a missing and a present value never do. */
  function CompareValues(a: Option<real>, b: Option<real>, tol: real): (r: bool)
    ensures a.None? && b.None? ==> r
    ensures a.None? != b.None? ==> !r
    ensures a.Some? && b.Some? ==> (r <==> -tol < a.value - b.value < tol)
  {
    if a.None? && b.None? then true
    else if a.None? || b.None? then false
    else Near(a.value, b.value, tol)
  }

  lemma CompareValuesSymmetric(a: Option<real>, b: Option<real>, tol: real)
    ensures CompareValues(a, b, tol) == CompareValues(b, a, tol)
  {
  }

  /** Rounds to the nearest integer, halves away from zero: the floor of
      `n + 0.5` for non-negative `n`, the ceiling of `n - 0.5` otherwise. */
  function RoundHalfUp(n: real): (r: int)
    ensures n >= 0.0 ==> r as real <= n + 0.5 < r as real + 1.0
    ensures n < 0.0 ==> r as real - 1.0 < n - 0.5 <= r as real
  {
    if n >= 0.0 then (n + 0.5).Floor else -((0.5 - n).Floor)
  }

  /** Rounding commutes with negation and never moves a value by more than a half. */
  lemma RoundHalfUpOdd(x: real)
    ensures RoundHalfUp(-x) == -RoundHalfUp(x)
    ensures -0.5 <= RoundHalfUp(x) as real - x <= 0.5
  {
    var p, q := RoundHalfUp(x), RoundHalfUp(-x);
    if x > 0.0 {
      assert -(p as real) - 1.0 < -x - 0.5 <= -(p as real);
      IntBetween(q, -p, -x - 0.5);
    } else if x < 0.0 {
      assert -(p as real) <= -x + 0.5 < -(p as real) + 1.0;
      IntBetweenHalfOpen(q, -p, -x + 0.5);
    }
  }

  /** Two integers with `z - 1 < y <= z` are equal. */
  lemma IntBetween(a: int, b: int, y: real)
    requires a as real - 1.0 < y <= a as real
    requires b as real - 1.0 < y <= b as real
    ensures a == b
  {
  }

  /** Two integers with `z <= y < z + 1` are equal. */
  lemma IntBetweenHalfOpen(a: int, b: int, y: real)
    requires a as real <= y < a as real + 1.0
    requires b as real <= y < b as real + 1.0
    ensures a == b
  {
  }

  /** Writes `remark` on row `i` of the first ledger and row `j` of the second,
      records the pair in the matched or the fuzzy lists according to the
      remark, and takes `i` and `j` out of their unmatched sets. */
  function MarkMatch(s1: Side, s2: Side, i: nat, j: nat, remark: Remark): (r: (Side, Side))
    requires i < |s1.remarks| && j < |s2.remarks|
    ensures r.0.rows == s1.rows && r.1.rows == s2.rows
    ensures |r.0.remarks| == |s1.remarks| && |r.1.remarks| == |s2.remarks|
    ensures r.0.remarks[i] == remark && r.1.remarks[j] == remark
    ensures forall k :: 0 <= k < |s1.remarks| && k != i ==> r.0.remarks[k] == s1.remarks[k]
    ensures forall k :: 0 <= k < |s2.remarks| && k != j ==> r.1.remarks[k] == s2.remarks[k]
    ensures r.0.unmatched == s1.unmatched - {i} && r.1.unmatched == s2.unmatched - {j}
    ensures remark == Matched ==>
      r.0.tally == s1.tally.(matched := s1.tally.matched + [i]) &&
      r.1.tally == s2.tally.(matched := s2.tally.matched + [j])
    ensures remark == MatchedCheckDate ==>
      r.0.tally == s1.tally.(fuzzy := s1.tally.fuzzy + [i]) &&
      r.1.tally == s2.tally.(fuzzy := s2.tally.fuzzy + [j])
    ensures remark != Matched && remark != MatchedCheckDate ==>
      r.0.tally == s1.tally && r.1.tally == s2.tally
  {
    var (t1, t2) :=
      if remark == Matched then
        (s1.tally.(matched := s1.tally.matched + [i]), s2.tally.(matched := s2.tally.matched + [j]))
      else if remark == MatchedCheckDate then
        (s1.tally.(fuzzy := s1.tally.fuzzy + [i]), s2.tally.(fuzzy := s2.tally.fuzzy + [j]))
      else (s1.tally, s2.tally);
    (Side(s1.rows, s1.remarks[i := remark], s1.unmatched - {i}, t1),
     Side(s2.rows, s2.remarks[j := remark], s2.unmatched - {j}, t2))
  }

  /** Marking a pair that is still unmatched on both sides relabels exactly that pair. */
  lemma MarkMatchRelabels(s1: Side, s2: Side, i: nat, j: nat, remark: Remark)
    requires Valid(s1) && Valid(s2) && i in s1.unmatched && j in s2.unmatched
    ensures Relabel(s1, MarkMatch(s1, s2, i, j, remark).0, {i}, remark)
    ensures Relabel(s2, MarkMatch(s1, s2, i, j, remark).1, {j}, remark)
  {
  }

  /** The closing figures of a ledger; `None` where the computation failed. */
  datatype Closing = Closing(debit: Option<real>, credit: Option<real>)

  /** The sum of one amount column with missing cells counted as 0. */
  function FilledDebit(rows: seq<RawRow>): real {
    if rows == [] then 0.0 else FilledDebit(rows[..|rows| - 1]) + rows[|rows| - 1].debit.GetOr(0.0)
  }

  function FilledCredit(rows: seq<RawRow>): real {
    if rows == [] then 0.0 else FilledCredit(rows[..|rows| - 1]) + rows[|rows| - 1].credit.GetOr(0.0)
  }

  /** `opening + Σcredit - Σdebit`, missing amounts counted as 0. */
  function NetBalance(rows: seq<RawRow>, opening: real): real {
    opening + FilledCredit(rows) - FilledDebit(rows)
  }

  /** Splits the net position of a ledger into a closing debit and a closing
      credit. A non-numeric opening balance (`None`) or a table without a
      `debit` or `credit` column yields no figures. */
  function CalculateClosingBalance(t: Table, opening: Option<real>): (r: Closing)
    ensures opening.None? ==> r == Closing(None, None)
    ensures !("debit" in t.columns && "credit" in t.columns) ==> r == Closing(None, None)
    ensures opening.Some? && "debit" in t.columns && "credit" in t.columns ==>
      && r.debit.Some? && r.credit.Some?
      && r.debit.value >= 0.0 && r.credit.value >= 0.0
      && (r.debit.value == 0.0 || r.credit.value == 0.0)
      && r.credit.value - r.debit.value == NetBalance(t.rows, opening.value)
      && (r.credit.value > 0.0 <==> NetBalance(t.rows, opening.value) > 0.0)
  {
    if opening.None? then Closing(None, None)
    else if !("debit" in t.columns && "credit" in t.columns) then Closing(None, None)
    else
      var net := opening.value + FilledCredit(t.rows) - FilledDebit(t.rows);
      if net > 0.0 then Closing(Some(0.0), Some(net))
      else Closing(Some(-net), Some(0.0))
  }
}
