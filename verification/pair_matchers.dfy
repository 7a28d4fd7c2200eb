/** The exact and the fuzzy-date matcher. Both compare every unmatched row of
    the first ledger with every unmatched row of the second, collect the
    qualifying pairs, and commit them greedily; the fuzzy matcher first sorts
    its candidates by day gap. */
module PairMatchers {
  import opened Wrappers
  import opened Records
  import opened Utils
  import opened Greedy

  /** Debit against credit and credit against debit, or each side against
      the same side, all within `tol`. */
  predicate AmountsAgree(a: Txn, b: Txn, tol: real) {
    || (Near(a.debit, b.credit, tol) && Near(a.credit, b.debit, tol))
    || (Near(a.debit, b.debit, tol) && Near(a.credit, b.credit, tol))
  }

  datatype Kind = Exact | Fuzzy

  /** The day gap of `(a, b)` when the pair is a candidate of the stage:
      agreeing amounts, both dates present, and the same day (exact) or
      between 1 and `fuzzy_date_range` days apart (fuzzy). */
  function CandidateGap(kind: Kind, a: Txn, b: Txn, cfg: Config): Option<nat> {
    if !AmountsAgree(a, b, cfg.MatchTolerance()) || a.date.None? || b.date.None? then None
    else
      var g := DayGap(a.date.value, b.date.value);
      match kind
      case Exact => if g == 0 then Some(0) else None
      case Fuzzy => if 1 <= g <= cfg.FuzzyDateRange() then Some(g) else None
  }

  /** Both dates present and on the same day; a missing date never matches. */
  predicate SameDay(a: Txn, b: Txn) {
    a.date.Some? && b.date.Some? && a.date.value == b.date.value
  }

  /** Both dates present and between 1 and `range` days apart. */
  predicate NearbyDays(a: Txn, b: Txn, range: int) {
    a.date.Some? && b.date.Some? && 1 <= DayGap(a.date.value, b.date.value) <= range
  }

  /** What it takes to be a candidate of each stage. */
  lemma CandidateGapMeaning(kind: Kind, a: Txn, b: Txn, cfg: Config, g: nat)
    ensures kind == Exact ==> (CandidateGap(kind, a, b, cfg) == Some(g) <==>
      AmountsAgree(a, b, cfg.MatchTolerance()) && SameDay(a, b) && g == 0)
    ensures kind == Fuzzy ==> (CandidateGap(kind, a, b, cfg) == Some(g) <==>
      && AmountsAgree(a, b, cfg.MatchTolerance()) && NearbyDays(a, b, cfg.FuzzyDateRange())
      && g == DayGap(a.date.value, b.date.value))
  {
  }

  /** The candidates pairing row `i` with the rows `js`, in the order of `js`. */
  function RowCandidates(kind: Kind, rows1: seq<Txn>, rows2: seq<Txn>, i: nat, js: seq<nat>, cfg: Config): (r: seq<Cand>)
    requires i < |rows1| && forall k :: 0 <= k < |js| ==> js[k] < |rows2|
    ensures forall c :: c in r <==>
      c.i == i && c.j in js && CandidateGap(kind, rows1[i], rows2[c.j], cfg) == Some(c.gap)
    ensures Increasing(js) ==> RightsIncreasing(r)
  {
    if js == [] then []
    else
      var here := match CandidateGap(kind, rows1[i], rows2[js[0]], cfg)
        case Some(g) => [Cand(i, js[0], g)]
        case None => [];
      var rest := RowCandidates(kind, rows1, rows2, i, js[1..], cfg);
      assert forall c :: c in rest ==> c.j in js[1..];
      RightsIncreasingCons(here, rest, js);
      here + rest
  }

  /** Second-ledger rows strictly ascending along the candidates. */
  ghost predicate RightsIncreasing(r: seq<Cand>) {
    forall a, b :: 0 <= a < b < |r| ==> r[a].j < r[b].j
  }

  /** A candidate for the first row of an ascending list, followed by
      candidates for the later rows, keeps the rows ascending. */
  lemma RightsIncreasingCons(here: seq<Cand>, rest: seq<Cand>, js: seq<nat>)
    requires js != [] && |here| <= 1 && forall c :: c in here ==> c.j == js[0]
    requires forall c :: c in rest ==> c.j in js[1..]
    requires Increasing(js[1..]) ==> RightsIncreasing(rest)
    ensures Increasing(js) ==> RightsIncreasing(here + rest)
  {
    if Increasing(js) {
      assert Increasing(js[1..]);
      var t := here + rest;
      forall a, b | 0 <= a < b < |t| ensures t[a].j < t[b].j {
        if a < |here| {
          assert t[a] in here && t[b] == rest[b - |here|] && t[b] in rest;
        } else {
          assert t[a] == rest[a - |here|] && t[b] == rest[b - |here|];
        }
      }
    }
  }

  /** The candidates over `lefts` × `js`, `i`-major, as the nested loops collect them. */
  function AllCandidates(kind: Kind, rows1: seq<Txn>, rows2: seq<Txn>, lefts: seq<nat>, js: seq<nat>, cfg: Config): (r: seq<Cand>)
    requires forall k :: 0 <= k < |lefts| ==> lefts[k] < |rows1|
    requires forall k :: 0 <= k < |js| ==> js[k] < |rows2|
    ensures forall c :: c in r <==>
      c.i in lefts && c.j in js && CandidateGap(kind, rows1[c.i], rows2[c.j], cfg) == Some(c.gap)
  {
    if lefts == [] then []
    else
      var row := RowCandidates(kind, rows1, rows2, lefts[0], js, cfg);
      var rest := AllCandidates(kind, rows1, rows2, lefts[1..], js, cfg);
      row + rest
  }

  lemma {:induction false} AllCandidatesOrdered(kind: Kind, rows1: seq<Txn>, rows2: seq<Txn>, lefts: seq<nat>, js: seq<nat>, cfg: Config)
    requires forall k :: 0 <= k < |lefts| ==> lefts[k] < |rows1|
    requires forall k :: 0 <= k < |js| ==> js[k] < |rows2|
    requires Increasing(lefts) && Increasing(js)
    ensures PairOrdered(AllCandidates(kind, rows1, rows2, lefts, js, cfg))
    decreases |lefts|
  {
    if lefts != [] {
      var row := RowCandidates(kind, rows1, rows2, lefts[0], js, cfg);
      var rest := AllCandidates(kind, rows1, rows2, lefts[1..], js, cfg);
      AllCandidatesOrdered(kind, rows1, rows2, lefts[1..], js, cfg);
      var all := row + rest;
      forall a, b | 0 <= a < b < |all|
        ensures PairLess(all[a], all[b])
      {
        if b < |row| {
          assert all[a] == row[a] && all[b] == row[b];
          assert row[a] in row && row[b] in row;
        } else if a < |row| {
          assert all[a] == row[a] && row[a] in row;
          assert all[b] == rest[b - |row|] && rest[b - |row|] in rest;
          var k :| 1 <= k < |lefts| && lefts[k] == all[b].i;
        } else {
          assert all[a] == rest[a - |row|] && all[b] == rest[b - |row|];
        }
      }
    }
  }

  /** The candidates of a stage over the two unmatched sets. */
  function Candidates(kind: Kind, s1: Side, s2: Side, cfg: Config): (r: seq<Cand>)
    requires Valid(s1) && Valid(s2)
    ensures forall c :: c in r <==>
      && c.i in s1.unmatched && c.j in s2.unmatched
      && CandidateGap(kind, s1.rows[c.i], s2.rows[c.j], cfg) == Some(c.gap)
    ensures PairOrdered(r)
    ensures InBounds(r, s1, s2)
  {
    AllCandidatesOrdered(kind, s1.rows, s2.rows, Pending(s1), Pending(s2), cfg);
    AllCandidates(kind, s1.rows, s2.rows, Pending(s1), Pending(s2), cfg)
  }

  /** Greedy commit over the full candidate list of a stage leaves no
      candidate among the pairs of indices that are still unmatched. */
  lemma CommitLeavesNoCandidate(kind: Kind, s1: Side, s2: Side, cfg: Config, cands: seq<Cand>, remark: Remark)
    requires Valid(s1) && Valid(s2)
    requires forall c :: c in cands <==> c in Candidates(kind, s1, s2, cfg)
    ensures InBounds(cands, s1, s2)
    ensures var r := Commit(s1, s2, cands, remark);
      forall c: Cand :: c.i in r.left.unmatched && c.j in r.right.unmatched ==>
        CandidateGap(kind, s1.rows[c.i], s2.rows[c.j], cfg) != Some(c.gap)
  {
    var r := Commit(s1, s2, cands, remark);
    CommitMaximal(s1, s2, cands, remark);
    forall c: Cand | c.i in r.left.unmatched && c.j in r.right.unmatched
      ensures CandidateGap(kind, s1.rows[c.i], s2.rows[c.j], cfg) != Some(c.gap)
    {
      assert c !in cands;
    }
  }

  /** Exact candidates all have gap 0, so ordering by gap is enumeration order. */
  lemma ZeroGapOrder(s: seq<Cand>)
    requires forall c :: c in s ==> c.gap == 0
    ensures PairOrdered(s) <==> Ordered(s)
  {
    assert forall a :: 0 <= a < |s| ==> s[a] in s;
  }

  /** The exact matcher: same-day pairs with agreeing amounts, committed in
      `(i, j)` enumeration order and marked "Matched". */
  function FindExactMatches(s1: Side, s2: Side, cfg: Config): (r: Committed)
    requires Valid(s1) && Valid(s2)
    ensures !cfg.ExactEnabled() ==> r == Committed(s1, s2, [])
    ensures forall c :: c in r.pairs ==>
      && c.i in s1.unmatched && c.j in s2.unmatched
      && AmountsAgree(s1.rows[c.i], s2.rows[c.j], cfg.MatchTolerance())
      && SameDay(s1.rows[c.i], s2.rows[c.j])
    ensures Relabel(s1, r.left, Lefts(r.pairs), Matched)
    ensures Relabel(s2, r.right, Rights(r.pairs), Matched)
  {
    if !cfg.ExactEnabled() then Committed(s1, s2, [])
    else
      var cands := Candidates(Exact, s1, s2, cfg);
      var r := Commit(s1, s2, cands, Matched);
      assert forall c :: c in r.pairs ==>
        && c.i in s1.unmatched && c.j in s2.unmatched
        && AmountsAgree(s1.rows[c.i], s2.rows[c.j], cfg.MatchTolerance())
        && SameDay(s1.rows[c.i], s2.rows[c.j]) by {
        forall c | c in r.pairs
          ensures AmountsAgree(s1.rows[c.i], s2.rows[c.j], cfg.MatchTolerance())
          ensures SameDay(s1.rows[c.i], s2.rows[c.j])
        {
          CandidateGapMeaning(Exact, s1.rows[c.i], s2.rows[c.j], cfg, c.gap);
        }
      }
      r
  }

  /** Exact matches use every index at most once, come out in `(i, j)`
      enumeration order, and are appended to both matched lists. */
  lemma ExactMatchesDisjointInOrder(s1: Side, s2: Side, cfg: Config)
    requires Valid(s1) && Valid(s2)
    ensures var r := FindExactMatches(s1, s2, cfg);
      && Disjoint(r.pairs) && PairOrdered(r.pairs)
      && r.left.tally == s1.tally.(matched := s1.tally.matched + LeftRows(r.pairs))
      && r.right.tally == s2.tally.(matched := s2.tally.matched + RightRows(r.pairs))
  {
    if cfg.ExactEnabled() {
      var cands := Candidates(Exact, s1, s2, cfg);
      CommitDisjoint(s1, s2, cands, Matched);
      ZeroGapOrder(cands);
      CommitKeepsOrder(s1, s2, cands, Matched);
      CommitRecords(s1, s2, cands, Matched);
      ZeroGapOrder(FindExactMatches(s1, s2, cfg).pairs);
    }
  }

  /** The exact matcher keeps the first candidate found for a row: walking
      the candidates in `(i, j)` order, a pair is matched exactly when both
      of its rows are still free at its turn. */
  lemma ExactMatchesGreedy(s1: Side, s2: Side, cfg: Config)
    requires Valid(s1) && Valid(s2) && cfg.ExactEnabled()
    ensures var cands := Candidates(Exact, s1, s2, cfg);
      forall k: nat :: k < |cands| ==>
        (cands[k] in FindExactMatches(s1, s2, cfg).pairs <==> FreeAtTurn(s1.unmatched, s2.unmatched, cands, k))
  {
    var cands := Candidates(Exact, s1, s2, cfg);
    assert NoRepeats(cands);
    CommitGreedy(s1, s2, cands, Matched);
  }

  /** After the exact matcher no two leftover rows could still be matched exactly. */
  lemma ExactMatchesMaximal(s1: Side, s2: Side, cfg: Config)
    requires Valid(s1) && Valid(s2) && cfg.ExactEnabled()
    ensures var r := FindExactMatches(s1, s2, cfg);
      forall i: nat, j: nat :: i in r.left.unmatched && j in r.right.unmatched ==>
        !(AmountsAgree(s1.rows[i], s2.rows[j], cfg.MatchTolerance()) && SameDay(s1.rows[i], s2.rows[j]))
  {
    var cands := Candidates(Exact, s1, s2, cfg);
    var r := FindExactMatches(s1, s2, cfg);
    CommitLeavesNoCandidate(Exact, s1, s2, cfg, cands, Matched);
    forall i: nat, j: nat | i in r.left.unmatched && j in r.right.unmatched
      ensures !(AmountsAgree(s1.rows[i], s2.rows[j], cfg.MatchTolerance()) && SameDay(s1.rows[i], s2.rows[j]))
    {
      var c := Cand(i, j, 0);
      assert CandidateGap(Exact, s1.rows[c.i], s2.rows[c.j], cfg) != Some(c.gap);
      CandidateGapMeaning(Exact, s1.rows[i], s2.rows[j], cfg, 0);
    }
  }

  /** The fuzzy-date matcher: pairs with agreeing amounts whose dates are 1 to
      `fuzzy_date_range` days apart, sorted by day gap (stable), committed
      greedily and marked "Matched but check date". */
  function FindFuzzyMatches(s1: Side, s2: Side, cfg: Config): (r: Committed)
    requires Valid(s1) && Valid(s2)
    ensures !cfg.FuzzyEnabled() ==> r == Committed(s1, s2, [])
    ensures forall c :: c in r.pairs ==>
      && c.i in s1.unmatched && c.j in s2.unmatched
      && AmountsAgree(s1.rows[c.i], s2.rows[c.j], cfg.MatchTolerance())
      && NearbyDays(s1.rows[c.i], s2.rows[c.j], cfg.FuzzyDateRange())
      && c.gap == DayGap(s1.rows[c.i].date.value, s2.rows[c.j].date.value)
    ensures Relabel(s1, r.left, Lefts(r.pairs), MatchedCheckDate)
    ensures Relabel(s2, r.right, Rights(r.pairs), MatchedCheckDate)
  {
    if !cfg.FuzzyEnabled() then Committed(s1, s2, [])
    else
      var raw := Candidates(Fuzzy, s1, s2, cfg);
      var cands := SortByGap(raw);
      SortKeepsMembers(raw);
      var r := Commit(s1, s2, cands, MatchedCheckDate);
      assert forall c :: c in r.pairs ==>
        && c.i in s1.unmatched && c.j in s2.unmatched
        && AmountsAgree(s1.rows[c.i], s2.rows[c.j], cfg.MatchTolerance())
        && NearbyDays(s1.rows[c.i], s2.rows[c.j], cfg.FuzzyDateRange())
        && c.gap == DayGap(s1.rows[c.i].date.value, s2.rows[c.j].date.value) by {
        forall c | c in r.pairs
          ensures AmountsAgree(s1.rows[c.i], s2.rows[c.j], cfg.MatchTolerance())
          ensures NearbyDays(s1.rows[c.i], s2.rows[c.j], cfg.FuzzyDateRange())
          ensures c.gap == DayGap(s1.rows[c.i].date.value, s2.rows[c.j].date.value)
        {
          CandidateGapMeaning(Fuzzy, s1.rows[c.i], s2.rows[c.j], cfg, c.gap);
        }
      }
      r
  }

  lemma SortKeepsMembers(s: seq<Cand>)
    ensures forall c :: c in SortByGap(s) <==> c in s
  {
    forall c ensures c in SortByGap(s) <==> c in s {
      assert c in SortByGap(s) <==> c in multiset(SortByGap(s));
    }
  }

  /** Fuzzy matches use every index at most once, are committed closest
      dates first with ties in `(i, j)` enumeration order, and are appended
      to both fuzzy lists. */
  lemma FuzzyMatchesDisjointInOrder(s1: Side, s2: Side, cfg: Config)
    requires Valid(s1) && Valid(s2)
    ensures var r := FindFuzzyMatches(s1, s2, cfg);
      && Disjoint(r.pairs) && Ordered(r.pairs)
      && r.left.tally == s1.tally.(fuzzy := s1.tally.fuzzy + LeftRows(r.pairs))
      && r.right.tally == s2.tally.(fuzzy := s2.tally.fuzzy + RightRows(r.pairs))
  {
    if cfg.FuzzyEnabled() {
      var raw := Candidates(Fuzzy, s1, s2, cfg);
      var cands := SortByGap(raw);
      SortKeepsMembers(raw);
      SortOrdersByGapThenPair(raw);
      CommitDisjoint(s1, s2, cands, MatchedCheckDate);
      CommitKeepsOrder(s1, s2, cands, MatchedCheckDate);
      CommitRecords(s1, s2, cands, MatchedCheckDate);
    }
  }

  /** The fuzzy matcher keeps the first candidate in gap order for a row:
      walking the sorted candidates, a pair is matched exactly when both of
      its rows are still free at its turn. */
  lemma FuzzyMatchesGreedy(s1: Side, s2: Side, cfg: Config)
    requires Valid(s1) && Valid(s2) && cfg.FuzzyEnabled()
    ensures var cands := SortByGap(Candidates(Fuzzy, s1, s2, cfg));
      forall k: nat :: k < |cands| ==>
        (cands[k] in FindFuzzyMatches(s1, s2, cfg).pairs <==> FreeAtTurn(s1.unmatched, s2.unmatched, cands, k))
  {
    var raw := Candidates(Fuzzy, s1, s2, cfg);
    var cands := SortByGap(raw);
    SortKeepsMembers(raw);
    SortOrdersByGapThenPair(raw);
    assert NoRepeats(cands);
    CommitGreedy(s1, s2, cands, MatchedCheckDate);
  }

  /** After the fuzzy matcher no two leftover rows are a fuzzy candidate. */
  lemma FuzzyMatchesMaximal(s1: Side, s2: Side, cfg: Config)
    requires Valid(s1) && Valid(s2) && cfg.FuzzyEnabled()
    ensures var r := FindFuzzyMatches(s1, s2, cfg);
      forall i: nat, j: nat :: i in r.left.unmatched && j in r.right.unmatched ==>
        !(AmountsAgree(s1.rows[i], s2.rows[j], cfg.MatchTolerance()) &&
          NearbyDays(s1.rows[i], s2.rows[j], cfg.FuzzyDateRange()))
  {
    var raw := Candidates(Fuzzy, s1, s2, cfg);
    var cands := SortByGap(raw);
    SortKeepsMembers(raw);
    var r := FindFuzzyMatches(s1, s2, cfg);
    CommitLeavesNoCandidate(Fuzzy, s1, s2, cfg, cands, MatchedCheckDate);
    forall i: nat, j: nat | i in r.left.unmatched && j in r.right.unmatched
      ensures !(AmountsAgree(s1.rows[i], s2.rows[j], cfg.MatchTolerance()) &&
                NearbyDays(s1.rows[i], s2.rows[j], cfg.FuzzyDateRange()))
    {
      var a, b := s1.rows[i], s2.rows[j];
      var g := if a.date.Some? && b.date.Some? then DayGap(a.date.value, b.date.value) else 0;
      var c := Cand(i, j, g);
      assert CandidateGap(Fuzzy, s1.rows[c.i], s2.rows[c.j], cfg) != Some(c.gap);
      CandidateGapMeaning(Fuzzy, a, b, cfg, g);
    }
  }
}
