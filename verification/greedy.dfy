/** The commit loop shared by the exact and the fuzzy matcher: candidates
    are collected first, then committed one by one, each only if both of its
    indices are still unmatched at that moment; and the stable sort by day
    gap that orders the fuzzy candidates. */
module Greedy {
  import opened Records
  import opened Utils

  /** A candidate pair: row `i` of the first ledger, row `j` of the second,
      and the day gap between their dates. */
  datatype Cand = Cand(i: nat, j: nat, gap: nat)

  /** `a` comes before `b` in (i, j) enumeration order. */
  predicate PairLess(a: Cand, b: Cand) {
    a.i < b.i || (a.i == b.i && a.j < b.j)
  }

  /** `a` comes before `b` by day gap, ties broken by enumeration order. */
  predicate Precedes(a: Cand, b: Cand) {
    a.gap < b.gap || (a.gap == b.gap && PairLess(a, b))
  }

  ghost predicate PairOrdered(s: seq<Cand>) {
    forall a, b :: 0 <= a < b < |s| ==> PairLess(s[a], s[b])
  }

  ghost predicate Ordered(s: seq<Cand>) {
    forall a, b :: 0 <= a < b < |s| ==> Precedes(s[a], s[b])
  }

  function Lefts(ps: seq<Cand>): set<nat> {
    set c | c in ps :: c.i
  }

  function Rights(ps: seq<Cand>): set<nat> {
    set c | c in ps :: c.j
  }

  /** The first-ledger indices of `ps`, in order. */
  function LeftRows(ps: seq<Cand>): seq<nat> {
    if ps == [] then [] else [ps[0].i] + LeftRows(ps[1..])
  }

  /** The second-ledger indices of `ps`, in order. */
  function RightRows(ps: seq<Cand>): seq<nat> {
    if ps == [] then [] else [ps[0].j] + RightRows(ps[1..])
  }

  /** No index of either ledger occurs in two pairs. */
  ghost predicate Disjoint(ps: seq<Cand>) {
    forall a, b :: 0 <= a < b < |ps| ==> ps[a].i != ps[b].i && ps[a].j != ps[b].j
  }

  ghost predicate InBounds(cands: seq<Cand>, s1: Side, s2: Side) {
    forall c :: c in cands ==> c.i < |s1.rows| && c.j < |s2.rows|
  }

  /** The two ledgers after a stage, and the pairs it committed in order. */
  datatype Committed = Committed(left: Side, right: Side, pairs: seq<Cand>)

  /** The tally of one ledger after `rows` were recorded under `remark`. */
  function Recorded(t: Tally, remark: Remark, rows: seq<nat>): Tally {
    if remark == Matched then t.(matched := t.matched + rows)
    else if remark == MatchedCheckDate then t.(fuzzy := t.fuzzy + rows)
    else t
  }

  lemma RecordedAppend(t: Tally, remark: Remark, a: seq<nat>, b: seq<nat>)
    ensures Recorded(Recorded(t, remark, a), remark, b) == Recorded(t, remark, a + b)
  {
    assert t.matched + a + b == t.matched + (a + b);
    assert t.fuzzy + a + b == t.fuzzy + (a + b);
  }

  /** Pairs that share no index list each row at most once, and list
      exactly the rows they use. */
  lemma {:induction false} PairRowsDistinct(ps: seq<Cand>)
    requires Disjoint(ps)
    ensures Distinct(LeftRows(ps)) && Members(LeftRows(ps)) == Lefts(ps)
    ensures Distinct(RightRows(ps)) && Members(RightRows(ps)) == Rights(ps)
    decreases |ps|
  {
    if ps != [] {
      var c, rest := ps[0], ps[1..];
      assert Disjoint(rest) by {
        forall a, b | 0 <= a < b < |rest| ensures rest[a].i != rest[b].i && rest[a].j != rest[b].j {
          assert rest[a] == ps[a + 1] && rest[b] == ps[b + 1];
        }
      }
      PairRowsDistinct(rest);
      assert ps == [c] + rest;
      assert Lefts(ps) == {c.i} + Lefts(rest);
      assert Rights(ps) == {c.j} + Rights(rest);
      assert c.i !in Lefts(rest) && c.j !in Rights(rest) by {
        forall d | d in rest ensures d.i != c.i && d.j != c.j {
          var m :| 0 <= m < |rest| && rest[m] == d;
          assert ps[m + 1] == d;
        }
      }
      DistinctAppend([c.i], LeftRows(rest));
      DistinctAppend([c.j], RightRows(rest));
    }
  }

  /** Walks the candidates in order and marks each one whose two indices
      are both still unmatched. */
  function Commit(s1: Side, s2: Side, cands: seq<Cand>, remark: Remark): (r: Committed)
    requires Valid(s1) && Valid(s2) && InBounds(cands, s1, s2)
    ensures Valid(r.left) && Valid(r.right)
    ensures forall c :: c in r.pairs ==> c in cands && c.i in s1.unmatched && c.j in s2.unmatched
    ensures Relabel(s1, r.left, Lefts(r.pairs), remark)
    ensures Relabel(s2, r.right, Rights(r.pairs), remark)
    decreases |cands|
  {
    if cands == [] then Committed(s1, s2, [])
    else
      var c := cands[0];
      if c.i in s1.unmatched && c.j in s2.unmatched then
        var (a, b) := MarkMatch(s1, s2, c.i, c.j, remark);
        MarkMatchRelabels(s1, s2, c.i, c.j, remark);
        var rest := Commit(a, b, cands[1..], remark);
        var pairs := [c] + rest.pairs;
        assert Lefts(pairs) == {c.i} + Lefts(rest.pairs);
        assert Rights(pairs) == {c.j} + Rights(rest.pairs);
        RelabelCompose(s1, a, rest.left, {c.i}, Lefts(rest.pairs), remark);
        RelabelCompose(s2, b, rest.right, {c.j}, Rights(rest.pairs), remark);
        Committed(rest.left, rest.right, pairs)
      else
        Commit(s1, s2, cands[1..], remark)
  }

  /** No index is committed twice: a committed index has left its set. */
  lemma CommitDisjoint(s1: Side, s2: Side, cands: seq<Cand>, remark: Remark)
    requires Valid(s1) && Valid(s2) && InBounds(cands, s1, s2)
    ensures Disjoint(Commit(s1, s2, cands, remark).pairs)
  {
    CommitIsGreedy(s1, s2, cands, remark);
    GreedyDisjoint(s1.unmatched, s2.unmatched, cands);
  }

  /** Greedy commit leaves no candidate with both indices still unmatched. */
  lemma {:induction false} CommitMaximal(s1: Side, s2: Side, cands: seq<Cand>, remark: Remark)
    requires Valid(s1) && Valid(s2) && InBounds(cands, s1, s2)
    ensures var r := Commit(s1, s2, cands, remark);
      forall c :: c in cands ==> c.i !in r.left.unmatched || c.j !in r.right.unmatched
    decreases |cands|
  {
    if cands != [] {
      var c := cands[0];
      if c.i in s1.unmatched && c.j in s2.unmatched {
        var (a, b) := MarkMatch(s1, s2, c.i, c.j, remark);
        CommitMaximal(a, b, cands[1..], remark);
      } else {
        CommitMaximal(s1, s2, cands[1..], remark);
      }
    }
  }

  /** Pairs are committed in the order the candidates are listed. */
  lemma CommitKeepsOrder(s1: Side, s2: Side, cands: seq<Cand>, remark: Remark)
    requires Valid(s1) && Valid(s2) && InBounds(cands, s1, s2)
    requires Ordered(cands)
    ensures Ordered(Commit(s1, s2, cands, remark).pairs)
  {
    CommitIsGreedy(s1, s2, cands, remark);
    GreedyKeepsOrder(s1.unmatched, s2.unmatched, cands);
  }

  /** No candidate is listed twice. */
  ghost predicate NoRepeats(s: seq<Cand>) {
    forall a, b :: 0 <= a < b < |s| ==> s[a] != s[b]
  }

  lemma AppendAssocCands(a: seq<Cand>, b: seq<Cand>, c: seq<Cand>)
    ensures a + b + c == a + (b + c)
  {
  }

  /** The pairs the greedy rule picks from `cands` when the free rows are
      `u1` and `u2`: a candidate is taken when both of its rows are still
      free, and then its rows are no longer free. */
  function GreedyPairs(u1: set<nat>, u2: set<nat>, cands: seq<Cand>): (r: seq<Cand>)
    ensures Lefts(r) <= u1 && Rights(r) <= u2
  {
    if cands == [] then []
    else
      var c := cands[0];
      if c.i in u1 && c.j in u2 then
        var rest := GreedyPairs(u1 - {c.i}, u2 - {c.j}, cands[1..]);
        assert Lefts([c] + rest) == {c.i} + Lefts(rest);
        assert Rights([c] + rest) == {c.j} + Rights(rest);
        [c] + rest
      else GreedyPairs(u1, u2, cands[1..])
  }

  /** `Commit` picks exactly the greedy pairs of the two unmatched sets. */
  lemma {:induction false} CommitIsGreedy(s1: Side, s2: Side, cands: seq<Cand>, remark: Remark)
    requires Valid(s1) && Valid(s2) && InBounds(cands, s1, s2)
    ensures Commit(s1, s2, cands, remark).pairs == GreedyPairs(s1.unmatched, s2.unmatched, cands)
    decreases |cands|
  {
    if cands != [] {
      var c := cands[0];
      if c.i in s1.unmatched && c.j in s2.unmatched {
        var (a, b) := MarkMatch(s1, s2, c.i, c.j, remark);
        CommitIsGreedy(a, b, cands[1..], remark);
      } else {
        CommitIsGreedy(s1, s2, cands[1..], remark);
      }
    }
  }

  /** Picking from `xs + ys` picks from `xs`, then from `ys` among the rows
      `xs` left free. */
  lemma {:induction false} GreedyAppend(u1: set<nat>, u2: set<nat>, xs: seq<Cand>, ys: seq<Cand>)
    ensures var p := GreedyPairs(u1, u2, xs);
      GreedyPairs(u1, u2, xs + ys) == p + GreedyPairs(u1 - Lefts(p), u2 - Rights(p), ys)
    decreases |xs|
  {
    if xs == [] {
      assert xs + ys == ys;
      var p := GreedyPairs(u1, u2, xs);
      assert p == [];
      assert Lefts(p) == {} && Rights(p) == {};
      assert u1 - Lefts(p) == u1 && u2 - Rights(p) == u2;
      assert p + GreedyPairs(u1, u2, ys) == GreedyPairs(u1, u2, ys);
    } else {
      var c := xs[0];
      assert (xs + ys)[0] == c && (xs + ys)[1..] == xs[1..] + ys;
      if c.i in u1 && c.j in u2 {
        var v1, v2 := u1 - {c.i}, u2 - {c.j};
        GreedyAppend(v1, v2, xs[1..], ys);
        var p := GreedyPairs(v1, v2, xs[1..]);
        assert Lefts([c] + p) == {c.i} + Lefts(p);
        assert Rights([c] + p) == {c.j} + Rights(p);
        assert v1 - Lefts(p) == u1 - Lefts([c] + p);
        assert v2 - Rights(p) == u2 - Rights([c] + p);
        AppendAssocCands([c], p, GreedyPairs(v1 - Lefts(p), v2 - Rights(p), ys));
      } else {
        GreedyAppend(u1, u2, xs[1..], ys);
      }
    }
  }

  /** Every greedy pick is one of the candidates. */
  lemma {:induction false} GreedyPicksCandidates(u1: set<nat>, u2: set<nat>, cands: seq<Cand>)
    ensures forall p :: p in GreedyPairs(u1, u2, cands) ==> p in cands
    decreases |cands|
  {
    if cands != [] {
      var c := cands[0];
      if c.i in u1 && c.j in u2 {
        GreedyPicksCandidates(u1 - {c.i}, u2 - {c.j}, cands[1..]);
      } else {
        GreedyPicksCandidates(u1, u2, cands[1..]);
      }
    }
  }

  /** The greedy rule takes each row at most once. */
  lemma {:induction false} GreedyDisjoint(u1: set<nat>, u2: set<nat>, cands: seq<Cand>)
    ensures Disjoint(GreedyPairs(u1, u2, cands))
    decreases |cands|
  {
    if cands != [] {
      var c := cands[0];
      if c.i in u1 && c.j in u2 {
        var rest := GreedyPairs(u1 - {c.i}, u2 - {c.j}, cands[1..]);
        GreedyDisjoint(u1 - {c.i}, u2 - {c.j}, cands[1..]);
        var t := [c] + rest;
        forall a, b | 0 <= a < b < |t| ensures t[a].i != t[b].i && t[a].j != t[b].j {
          assert t[b] == rest[b - 1] && rest[b - 1] in rest;
          if a > 0 {
            assert t[a] == rest[a - 1];
          }
        }
      } else {
        GreedyDisjoint(u1, u2, cands[1..]);
      }
    }
  }

  /** The greedy rule keeps the candidates' order. */
  lemma {:induction false} GreedyKeepsOrder(u1: set<nat>, u2: set<nat>, cands: seq<Cand>)
    requires Ordered(cands)
    ensures Ordered(GreedyPairs(u1, u2, cands))
    decreases |cands|
  {
    if cands != [] {
      var c := cands[0];
      assert Ordered(cands[1..]);
      if c.i in u1 && c.j in u2 {
        var rest := GreedyPairs(u1 - {c.i}, u2 - {c.j}, cands[1..]);
        GreedyKeepsOrder(u1 - {c.i}, u2 - {c.j}, cands[1..]);
        GreedyPicksCandidates(u1 - {c.i}, u2 - {c.j}, cands[1..]);
        forall y | y in rest ensures Precedes(c, y) {
          var k :| 0 <= k < |cands| - 1 && cands[1..][k] == y;
          assert cands[k + 1] == y;
        }
        var t := [c] + rest;
        forall a, b | 0 <= a < b < |t| ensures Precedes(t[a], t[b]) {
          assert t[b] == rest[b - 1] && rest[b - 1] in rest;
          if a > 0 {
            assert t[a] == rest[a - 1];
          }
        }
      } else {
        GreedyKeepsOrder(u1, u2, cands[1..]);
      }
    }
  }

  /** Candidate `k` finds both of its rows free when its turn comes: they
      were unmatched at the start, and no pair taken from the earlier
      candidates uses either of them. */
  ghost predicate FreeAtTurn(u1: set<nat>, u2: set<nat>, cands: seq<Cand>, k: nat)
    requires k < |cands|
  {
    var before := GreedyPairs(u1, u2, cands[..k]);
    && cands[k].i in u1 && cands[k].j in u2
    && cands[k].i !in Lefts(before) && cands[k].j !in Rights(before)
  }

  lemma GreedyAt(u1: set<nat>, u2: set<nat>, cands: seq<Cand>, k: nat)
    requires NoRepeats(cands) && k < |cands|
    ensures cands[k] in GreedyPairs(u1, u2, cands) <==> FreeAtTurn(u1, u2, cands, k)
  {
    var c := cands[k];
    var xs, ys := cands[..k], cands[k..];
    assert xs + ys == cands;
    GreedyAppend(u1, u2, xs, ys);
    var p := GreedyPairs(u1, u2, xs);
    var v1, v2 := u1 - Lefts(p), u2 - Rights(p);
    assert ys[0] == c && ys[1..] == cands[k + 1..];
    GreedyPicksCandidates(u1, u2, xs);
    assert c !in p by {
      forall q | q in p ensures q != c {
        var m :| 0 <= m < k && xs[m] == q;
      }
    }
    if !(c.i in v1 && c.j in v2) {
      var rest := GreedyPairs(v1, v2, ys[1..]);
      GreedyPicksCandidates(v1, v2, ys[1..]);
      assert c !in rest by {
        forall q | q in rest ensures q != c {
          var m :| 0 <= m < |ys| - 1 && ys[1..][m] == q;
          assert q == cands[k + 1 + m];
        }
      }
    }
  }

  /** The greedy rule: a candidate is committed exactly when both of its rows
      are still free at its turn, so the first candidate listed for a row wins. */
  lemma CommitGreedy(s1: Side, s2: Side, cands: seq<Cand>, remark: Remark)
    requires Valid(s1) && Valid(s2) && InBounds(cands, s1, s2) && NoRepeats(cands)
    ensures forall k: nat :: k < |cands| ==>
      (cands[k] in Commit(s1, s2, cands, remark).pairs <==> FreeAtTurn(s1.unmatched, s2.unmatched, cands, k))
  {
    CommitIsGreedy(s1, s2, cands, remark);
    forall k: nat | k < |cands|
      ensures cands[k] in GreedyPairs(s1.unmatched, s2.unmatched, cands) <==> FreeAtTurn(s1.unmatched, s2.unmatched, cands, k)
    {
      GreedyAt(s1.unmatched, s2.unmatched, cands, k);
    }
  }

  /** Each committed pair is appended to the row lists named by `remark`. */
  lemma RowsCons(c: Cand, ps: seq<Cand>)
    ensures LeftRows([c] + ps) == [c.i] + LeftRows(ps)
    ensures RightRows([c] + ps) == [c.j] + RightRows(ps)
  {
    assert ([c] + ps)[1..] == ps;
  }

  lemma {:induction false} CommitRecords(s1: Side, s2: Side, cands: seq<Cand>, remark: Remark)
    requires Valid(s1) && Valid(s2) && InBounds(cands, s1, s2)
    ensures var r := Commit(s1, s2, cands, remark);
      && r.left.tally == Recorded(s1.tally, remark, LeftRows(r.pairs))
      && r.right.tally == Recorded(s2.tally, remark, RightRows(r.pairs))
    decreases |cands|
  {
    if cands != [] {
      var c := cands[0];
      if c.i in s1.unmatched && c.j in s2.unmatched {
        var (a, b) := MarkMatch(s1, s2, c.i, c.j, remark);
        CommitRecords(a, b, cands[1..], remark);
        var rest := Commit(a, b, cands[1..], remark);
        assert a.tally == Recorded(s1.tally, remark, [c.i]);
        assert b.tally == Recorded(s2.tally, remark, [c.j]);
        RecordedAppend(s1.tally, remark, [c.i], LeftRows(rest.pairs));
        RecordedAppend(s2.tally, remark, [c.j], RightRows(rest.pairs));
        RowsCons(c, rest.pairs);
        assert Commit(s1, s2, cands, remark) == Committed(rest.left, rest.right, [c] + rest.pairs);
      } else {
        CommitRecords(s1, s2, cands[1..], remark);
      }
    }
  }

  /** Inserts `x` after every element whose gap is not larger than its own. */
  function InsertByGap(x: Cand, t: seq<Cand>): (r: seq<Cand>)
    ensures multiset(r) == multiset(t) + multiset{x}
  {
    if t == [] then [x]
    else if x.gap < t[0].gap then [x] + t
    else
      assert t == [t[0]] + t[1..];
      [t[0]] + InsertByGap(x, t[1..])
  }

  /** A stable sort of the candidates by day gap (`list.sort(key=gap)`). */
  function SortByGap(s: seq<Cand>): (r: seq<Cand>)
    ensures multiset(r) == multiset(s)
  {
    if s == [] then []
    else
      assert s == s[..|s| - 1] + [s[|s| - 1]];
      InsertByGap(s[|s| - 1], SortByGap(s[..|s| - 1]))
  }

  lemma {:induction false} InsertKeepsOrder(x: Cand, t: seq<Cand>)
    requires Ordered(t)
    requires forall y :: y in t ==> PairLess(y, x)
    ensures Ordered(InsertByGap(x, t))
    decreases |t|
  {
    if t != [] && x.gap >= t[0].gap {
      var tail := InsertByGap(x, t[1..]);
      InsertKeepsOrder(x, t[1..]);
      forall y | y in tail
        ensures Precedes(t[0], y)
      {
        assert y in multiset(tail);
        if y != x {
          assert y in t[1..];
        }
      }
    }
  }

  /** Sorting candidates that arrive in enumeration order orders them by gap
      and, among equal gaps, by enumeration order: the sort is stable. */
  lemma {:induction false} SortOrdersByGapThenPair(s: seq<Cand>)
    requires PairOrdered(s)
    ensures Ordered(SortByGap(s))
    decreases |s|
  {
    if s != [] {
      var init := s[..|s| - 1];
      SortOrdersByGapThenPair(init);
      forall y | y in SortByGap(init)
        ensures PairLess(y, s[|s| - 1])
      {
        assert y in multiset(SortByGap(init));
      }
      InsertKeepsOrder(s[|s| - 1], SortByGap(init));
    }
  }
}
