/** The returned-transaction matcher, run on one ledger at a time: a
    payment and its reversal on the same ledger, one a pure debit and the
    other a pure credit of the same amount, dated within a day of each
    other. Rows are visited in ascending order; each unpaired row takes the
    first later unpaired row that reverses it. */
module ReturnedMatcher {
  import opened Wrappers
  import opened Records
  import opened Utils

  /** Both dates present and at most one day apart. A missing date is not a
      timestamp and never equals anything, so it never matches. */
  predicate DatesClose(a: Txn, b: Txn) {
    a.date.Some? && b.date.Some? && DayGap(a.date.value, b.date.value) <= 1
  }

  /** `b` reverses `a`: one is a pure debit, the other a pure credit, and the
      two amounts agree within `tol`. */
  predicate Reverses(a: Txn, b: Txn, tol: real) {
    || (a.debit > 0.0 && a.credit == 0.0 && b.credit > 0.0 && b.debit == 0.0 && Near(a.debit, b.credit, tol))
    || (a.credit > 0.0 && a.debit == 0.0 && b.debit > 0.0 && b.credit == 0.0 && Near(a.credit, b.debit, tol))
  }

  /** Rows `a` (the earlier) and `b` form a returned transaction. */
  predicate Returned(a: Txn, b: Txn, tol: real) {
    DatesClose(a, b) && Reverses(a, b, tol)
  }

  /** Whether the pair test treats its two rows alike: it does, so the
      order in which the scan meets them does not matter. */
  lemma ReturnedSymmetric(a: Txn, b: Txn, tol: real)
    ensures Returned(a, b, tol) <==> Returned(b, a, tol)
  {
    assert Near(a.debit, b.credit, tol) <==> Near(b.credit, a.debit, tol);
    assert Near(a.credit, b.debit, tol) <==> Near(b.debit, a.credit, tol);
  }

  /** One returned transaction: the earlier row and the later one. */
  datatype RetPair = RetPair(i: nat, j: nat)

  /** The rows of `ps` in the order they are appended to the returned list. */
  function Flat(ps: seq<RetPair>): (r: seq<nat>)
    ensures |r| == 2 * |ps|
  {
    if ps == [] then [] else [ps[0].i, ps[0].j] + Flat(ps[1..])
  }

  /** Every row a pair of `ps` names. */
  function Used(ps: seq<RetPair>): set<nat> {
    (set p | p in ps :: p.i) + (set p | p in ps :: p.j)
  }

  /** The first position `q` or later of `idx` holding a row after `i`, not
      yet marked, that reverses row `i`. */
  function PartnerFrom(rows: seq<Txn>, idx: seq<nat>, i: nat, marked: set<nat>, tol: real, q: nat): (r: Option<nat>)
    requires i < |rows| && forall k :: 0 <= k < |idx| ==> idx[k] < |rows|
    ensures r.Some? ==> q <= r.value < |idx|
    ensures r.Some? ==> var j := idx[r.value];
      i < j && j !in marked && Returned(rows[i], rows[j], tol)
    ensures forall k :: q <= k < |idx| && (r.None? || k < r.value) ==>
      idx[k] <= i || idx[k] in marked || !Returned(rows[i], rows[idx[k]], tol)
    decreases |idx| - q
  {
    if q >= |idx| then None
    else if i < idx[q] && idx[q] !in marked && Returned(rows[i], rows[idx[q]], tol) then Some(q)
    else PartnerFrom(rows, idx, i, marked, tol, q + 1)
  }

  /** The outer loop from position `from` of the sorted snapshot `idx`, with
      the rows in `marked` already paired. */
  function Scan(rows: seq<Txn>, idx: seq<nat>, from: nat, marked: set<nat>, tol: real): (ps: seq<RetPair>)
    requires forall k :: 0 <= k < |idx| ==> idx[k] < |rows|
    decreases |idx| - from
  {
    if from >= |idx| then []
    else
      var i := idx[from];
      if i in marked then Scan(rows, idx, from + 1, marked, tol)
      else match PartnerFrom(rows, idx, i, marked, tol, 0)
        case None => Scan(rows, idx, from + 1, marked, tol)
        case Some(q) =>
          [RetPair(i, idx[q])] + Scan(rows, idx, from + 1, marked + {i, idx[q]}, tol)
  }

  /** The pair test a sound pair of the scan passed. */
  ghost predicate Sound(rows: seq<Txn>, idx: seq<nat>, marked: set<nat>, tol: real, p: RetPair) {
    && p.i < p.j < |rows|
    && p.i in idx && p.j in idx
    && p.i !in marked && p.j !in marked
    && Returned(rows[p.i], rows[p.j], tol)
  }

  /** Every pair joins two rows of the snapshot, earlier before later, that
      were not already paired and form a returned transaction. */
  lemma {:induction false} ScanSound(rows: seq<Txn>, idx: seq<nat>, from: nat, marked: set<nat>, tol: real)
    requires forall k :: 0 <= k < |idx| ==> idx[k] < |rows|
    ensures forall p :: p in Scan(rows, idx, from, marked, tol) ==> Sound(rows, idx, marked, tol, p)
    decreases |idx| - from
  {
    if from < |idx| {
      var i := idx[from];
      if i in marked {
        ScanSound(rows, idx, from + 1, marked, tol);
      } else {
        match PartnerFrom(rows, idx, i, marked, tol, 0)
        case None =>
          ScanSound(rows, idx, from + 1, marked, tol);
        case Some(q) =>
          ScanSound(rows, idx, from + 1, marked + {i, idx[q]}, tol);
      }
    }
  }

  lemma {:induction false} FlatMembers(ps: seq<RetPair>)
    ensures Members(Flat(ps)) == Used(ps)
  {
    if ps != [] {
      FlatMembers(ps[1..]);
      assert ps == [ps[0]] + ps[1..];
      assert Used(ps) == {ps[0].i, ps[0].j} + Used(ps[1..]);
    }
  }

  lemma UsedCons(p: RetPair, ps: seq<RetPair>)
    ensures Used([p] + ps) == {p.i, p.j} + Used(ps)
    ensures ([p] + ps)[1..] == ps
  {
    assert forall x :: x in [p] + ps <==> x == p || x in ps;
  }

  lemma DistinctCons(i: nat, j: nat, s: seq<nat>)
    requires Distinct(s) && i != j && i !in Members(s) && j !in Members(s)
    ensures Distinct([i, j] + s)
  {
    var t := [i, j] + s;
    forall a, b | 0 <= a < b < |t| ensures t[a] != t[b] {
      if b >= 2 {
        assert t[b] == s[b - 2] && s[b - 2] in Members(s);
        if a >= 2 {
          assert t[a] == s[a - 2];
        }
      }
    }
  }

  lemma {:induction false} ScanDistinct(rows: seq<Txn>, idx: seq<nat>, from: nat, marked: set<nat>, tol: real)
    requires forall k :: 0 <= k < |idx| ==> idx[k] < |rows|
    ensures var ps := Scan(rows, idx, from, marked, tol);
      Distinct(Flat(ps)) && Used(ps) !! marked
    decreases |idx| - from
  {
    if from < |idx| {
      var i := idx[from];
      if i in marked {
        ScanDistinct(rows, idx, from + 1, marked, tol);
      } else {
        match PartnerFrom(rows, idx, i, marked, tol, 0)
        case None =>
          ScanDistinct(rows, idx, from + 1, marked, tol);
        case Some(q) =>
          var m := marked + {i, idx[q]};
          var rest := Scan(rows, idx, from + 1, m, tol);
          var ps := [RetPair(i, idx[q])] + rest;
          ScanDistinct(rows, idx, from + 1, m, tol);
          FlatMembers(rest);
          DistinctCons(i, idx[q], Flat(rest));
          UsedCons(RetPair(i, idx[q]), rest);
      }
    }
  }

  /** No two rows left unpaired at the end form a returned transaction:
      when the earlier one's turn came the later one was unpaired too, and
      the search would have taken it or an earlier partner. */
  lemma {:induction false} ScanMaximal(rows: seq<Txn>, idx: seq<nat>, from: nat, marked: set<nat>, tol: real)
    requires forall k :: 0 <= k < |idx| ==> idx[k] < |rows|
    requires Increasing(idx)
    ensures var done := marked + Used(Scan(rows, idx, from, marked, tol));
      forall a, b :: from <= a < b < |idx| && idx[a] !in done && idx[b] !in done ==>
        !Returned(rows[idx[a]], rows[idx[b]], tol)
    decreases |idx| - from
  {
    if from < |idx| {
      var i := idx[from];
      if i in marked {
        ScanMaximal(rows, idx, from + 1, marked, tol);
      } else {
        match PartnerFrom(rows, idx, i, marked, tol, 0)
        case None =>
          ScanMaximal(rows, idx, from + 1, marked, tol);
        case Some(q) =>
          var m := marked + {i, idx[q]};
          var rest := Scan(rows, idx, from + 1, m, tol);
          ScanMaximal(rows, idx, from + 1, m, tol);
          UsedCons(RetPair(i, idx[q]), rest);
      }
    }
  }

  /** The rows the pairs of `ps` whose earlier row comes before row `i` use:
      the rows already marked when the scan reaches row `i`. */
  function UsedBefore(ps: seq<RetPair>, i: nat): set<nat> {
    (set p | p in ps && p.i < i :: p.i) + (set p | p in ps && p.i < i :: p.j)
  }

  /** Pair `p` is what the scan takes with `m` marked: neither row marked,
      and no unmarked row of `idx` strictly between them reverses `p.i`. */
  ghost predicate FirstAt(rows: seq<Txn>, idx: seq<nat>, m: set<nat>, tol: real, p: RetPair)
    requires forall k :: 0 <= k < |idx| ==> idx[k] < |rows|
  {
    && p.i < |rows| && p.i !in m && p.j !in m
    && forall k :: k in idx && p.i < k < p.j && k !in m ==> !Returned(rows[p.i], rows[k], tol)
  }

  /** The partner the search finds for row `i` is its first unmarked one. */
  lemma PartnerIsFirst(rows: seq<Txn>, idx: seq<nat>, i: nat, marked: set<nat>, tol: real, q: nat)
    requires i < |rows| && forall k :: 0 <= k < |idx| ==> idx[k] < |rows|
    requires Increasing(idx) && i !in marked
    requires PartnerFrom(rows, idx, i, marked, tol, 0) == Some(q)
    ensures FirstAt(rows, idx, marked, tol, RetPair(i, idx[q]))
  {
    forall k | k in idx && i < k < idx[q] && k !in marked
      ensures !Returned(rows[i], rows[k], tol)
    {
      var c :| 0 <= c < |idx| && idx[c] == k;
      assert c < q;
    }
  }

  /** Every pair of `ps` is what the scan takes with `marked` and the rows
      of the pairs before it marked. */
  ghost predicate FirstRule(rows: seq<Txn>, idx: seq<nat>, marked: set<nat>, tol: real, ps: seq<RetPair>)
    requires forall k :: 0 <= k < |idx| ==> idx[k] < |rows|
  {
    forall a :: 0 <= a < |ps| ==> FirstAt(rows, idx, marked + Used(ps[..a]), tol, ps[a])
  }

  /** The pairs after the first keep the rule with the first pair's rows
      marked as well, `m'` being that larger marked set. */
  lemma FirstAtStep(rows: seq<Txn>, idx: seq<nat>, marked: set<nat>, m': set<nat>, tol: real, p0: RetPair, rest: seq<RetPair>)
    requires forall k :: 0 <= k < |idx| ==> idx[k] < |rows|
    requires m' == marked + {p0.i, p0.j}
    requires FirstAt(rows, idx, marked, tol, p0)
    requires FirstRule(rows, idx, m', tol, rest)
    ensures FirstRule(rows, idx, marked, tol, [p0] + rest)
  {
    var ps := [p0] + rest;
    assert marked + Used(ps[..0]) == marked;
    forall a | 1 <= a < |ps|
      ensures FirstAt(rows, idx, marked + Used(ps[..a]), tol, ps[a])
    {
      MarkedShift(marked, m', p0, rest, a);
    }
  }

  /** The rows marked before position `a` of `[p0] + rest` are those marked
      before position `a - 1` of `rest`, with the rows of `p0` added. */
  lemma MarkedShift(marked: set<nat>, m': set<nat>, p0: RetPair, rest: seq<RetPair>, a: nat)
    requires m' == marked + {p0.i, p0.j} && 1 <= a <= |rest|
    ensures marked + Used(([p0] + rest)[..a]) == m' + Used(rest[..a - 1])
    ensures ([p0] + rest)[a] == rest[a - 1]
  {
    PrefixCons(p0, rest, a);
    UsedCons(p0, rest[..a - 1]);
  }

  lemma PrefixCons(p0: RetPair, rest: seq<RetPair>, a: nat)
    requires 1 <= a <= |rest|
    ensures ([p0] + rest)[..a] == [p0] + rest[..a - 1]
  {
  }

  /** Each pair of the scan is the first partner its earlier row finds, with
      the rows of the pairs before it marked. */
  lemma {:induction false} ScanFirstPartner(rows: seq<Txn>, idx: seq<nat>, from: nat, marked: set<nat>, tol: real)
    requires forall k :: 0 <= k < |idx| ==> idx[k] < |rows|
    requires Increasing(idx)
    ensures FirstRule(rows, idx, marked, tol, Scan(rows, idx, from, marked, tol))
    decreases |idx| - from
  {
    if from < |idx| {
      var i := idx[from];
      if i in marked {
        ScanFirstPartner(rows, idx, from + 1, marked, tol);
      } else {
        match PartnerFrom(rows, idx, i, marked, tol, 0)
        case None =>
          ScanFirstPartner(rows, idx, from + 1, marked, tol);
        case Some(q) =>
          var m' := marked + {i, idx[q]};
          var rest := Scan(rows, idx, from + 1, m', tol);
          ScanFirstPartner(rows, idx, from + 1, m', tol);
          PartnerIsFirst(rows, idx, i, marked, tol, q);
          FirstAtStep(rows, idx, marked, m', tol, RetPair(i, idx[q]), rest);
      }
    }
  }

  /** The rule read at the start of the scan, with nothing marked, over the
      rows `u` of the snapshot. */
  lemma FirstRuleAtStart(rows: seq<Txn>, idx: seq<nat>, u: set<nat>, tol: real, ps: seq<RetPair>)
    requires forall k :: 0 <= k < |idx| ==> idx[k] < |rows|
    requires forall k :: k in u ==> k in idx
    requires FirstRule(rows, idx, {}, tol, ps)
    ensures forall a :: 0 <= a < |ps| ==>
      && ps[a].i < |rows|
      && ps[a].i !in Used(ps[..a]) && ps[a].j !in Used(ps[..a])
      && forall k :: k in u && ps[a].i < k < ps[a].j && k !in Used(ps[..a]) ==>
           k < |rows| && !Returned(rows[ps[a].i], rows[k], tol)
  {
    forall a | 0 <= a < |ps|
      ensures ps[a].i < |rows| && ps[a].i !in Used(ps[..a]) && ps[a].j !in Used(ps[..a])
      ensures forall k :: k in u && ps[a].i < k < ps[a].j && k !in Used(ps[..a]) ==>
                k < |rows| && !Returned(rows[ps[a].i], rows[k], tol)
    {
      assert {} + Used(ps[..a]) == Used(ps[..a]);
      assert FirstAt(rows, idx, Used(ps[..a]), tol, ps[a]);
    }
  }

  /** In an increasing list an entry after position `from` lies above it. */
  lemma AfterFrom(idx: seq<nat>, from: nat, x: nat)
    requires Increasing(idx) && from < |idx| && x in idx[from + 1..]
    ensures idx[from] < x && x in idx[from..]
  {
    var c :| 0 <= c < |idx[from + 1..]| && idx[from + 1..][c] == x;
    assert idx[from + 1 + c] == x;
    assert idx[from..][c + 1] == x;
  }

  /** The pairs of `ps` come by ascending earlier row, each a row of the
      snapshot from position `from` on. */
  ghost predicate AscendingFrom(idx: seq<nat>, from: nat, ps: seq<RetPair>) {
    && (forall p :: p in ps ==> from < |idx| && p.i in idx[from..])
    && (forall a, b :: 0 <= a < b < |ps| ==> ps[a].i < ps[b].i)
  }

  /** Skipping position `from` keeps the pairs after it in order. */
  lemma AscendingSkip(idx: seq<nat>, from: nat, ps: seq<RetPair>)
    requires Increasing(idx) && from < |idx| && AscendingFrom(idx, from + 1, ps)
    ensures AscendingFrom(idx, from, ps)
  {
    forall p | p in ps ensures p.i in idx[from..] {
      AfterFrom(idx, from, p.i);
    }
  }

  /** A pair taken at position `from` goes before the pairs after it. */
  lemma AscendingCons(idx: seq<nat>, from: nat, p0: RetPair, rest: seq<RetPair>)
    requires Increasing(idx) && from < |idx| && p0.i == idx[from]
    requires AscendingFrom(idx, from + 1, rest)
    ensures AscendingFrom(idx, from, [p0] + rest)
  {
    var ps := [p0] + rest;
    forall p | p in rest ensures p0.i < p.i && p.i in idx[from..] {
      AfterFrom(idx, from, p.i);
    }
    assert idx[from..][0] == p0.i;
    forall a, b | 0 <= a < b < |ps| ensures ps[a].i < ps[b].i {
      assert ps[b] == rest[b - 1];
      if a > 0 {
        assert ps[a] == rest[a - 1];
      }
    }
  }

  /** The pairs come out by ascending earlier row, each a row of the
      snapshot from position `from` on. */
  lemma {:induction false} ScanOrdered(rows: seq<Txn>, idx: seq<nat>, from: nat, marked: set<nat>, tol: real)
    requires forall k :: 0 <= k < |idx| ==> idx[k] < |rows|
    requires Increasing(idx)
    ensures AscendingFrom(idx, from, Scan(rows, idx, from, marked, tol))
    decreases |idx| - from
  {
    if from < |idx| {
      var i := idx[from];
      if i in marked {
        ScanOrdered(rows, idx, from + 1, marked, tol);
        AscendingSkip(idx, from, Scan(rows, idx, from + 1, marked, tol));
      } else {
        match PartnerFrom(rows, idx, i, marked, tol, 0)
        case None =>
          ScanOrdered(rows, idx, from + 1, marked, tol);
          AscendingSkip(idx, from, Scan(rows, idx, from + 1, marked, tol));
        case Some(q) =>
          var m' := marked + {i, idx[q]};
          ScanOrdered(rows, idx, from + 1, m', tol);
          AscendingCons(idx, from, RetPair(i, idx[q]), Scan(rows, idx, from + 1, m', tol));
      }
    }
  }

  /** When the scan reaches a row the pairs so far have left unmarked, and
      that row is not paired, no unmarked later row of the snapshot
      reverses it. */
  ghost predicate UnpairedAtTurn(rows: seq<Txn>, idx: seq<nat>, from: nat, marked: set<nat>, tol: real, ps: seq<RetPair>)
    requires forall k :: 0 <= k < |idx| ==> idx[k] < |rows|
  {
    forall b, k ::
      (&& from <= b < |idx| && idx[b] !in marked && idx[b] !in Used(ps)
       && k in idx && idx[b] < k && k !in marked && k !in UsedBefore(ps, idx[b])) ==>
      !Returned(rows[idx[b]], rows[k], tol)
  }

  /** A pair taken at position `from` keeps the turn property of the pairs
      after it. */
  lemma UnpairedStep(rows: seq<Txn>, idx: seq<nat>, from: nat, marked: set<nat>, tol: real, p0: RetPair, rest: seq<RetPair>)
    requires forall k :: 0 <= k < |idx| ==> idx[k] < |rows|
    requires from < |idx| && p0.i == idx[from] && Increasing(idx)
    requires UnpairedAtTurn(rows, idx, from + 1, marked + {p0.i, p0.j}, tol, rest)
    ensures UnpairedAtTurn(rows, idx, from, marked, tol, [p0] + rest)
  {
    var ps := [p0] + rest;
    UsedCons(p0, rest);
    forall b, k | from <= b < |idx| && idx[b] !in marked && idx[b] !in Used(ps) &&
        k in idx && idx[b] < k && k !in marked && k !in UsedBefore(ps, idx[b])
      ensures !Returned(rows[idx[b]], rows[k], tol)
    {
      assert b != from;
      assert p0 in ps && p0.i < idx[b];
      assert UsedBefore(rest, idx[b]) <= UsedBefore(ps, idx[b]);
    }
  }

  /** A row with no partner found, or an already marked row, leaves the turn
      property of the rows after it in place. */
  lemma SkipStep(rows: seq<Txn>, idx: seq<nat>, from: nat, marked: set<nat>, tol: real, ps: seq<RetPair>)
    requires forall k :: 0 <= k < |idx| ==> idx[k] < |rows|
    requires from < |idx| && Increasing(idx)
    requires idx[from] in marked || PartnerFrom(rows, idx, idx[from], marked, tol, 0).None?
    requires UnpairedAtTurn(rows, idx, from + 1, marked, tol, ps)
    ensures UnpairedAtTurn(rows, idx, from, marked, tol, ps)
  {
    forall k | idx[from] !in marked && k in idx && idx[from] < k && k !in marked
      ensures !Returned(rows[idx[from]], rows[k], tol)
    {
      var c :| 0 <= c < |idx| && idx[c] == k;
    }
  }

  /** Every row of the scan left unpaired found no unmarked later partner
      when its turn came. */
  lemma {:induction false} ScanAtTurn(rows: seq<Txn>, idx: seq<nat>, from: nat, marked: set<nat>, tol: real)
    requires forall k :: 0 <= k < |idx| ==> idx[k] < |rows|
    requires Increasing(idx)
    ensures UnpairedAtTurn(rows, idx, from, marked, tol, Scan(rows, idx, from, marked, tol))
    decreases |idx| - from
  {
    if from < |idx| {
      var i := idx[from];
      if i in marked {
        ScanAtTurn(rows, idx, from + 1, marked, tol);
        SkipStep(rows, idx, from, marked, tol, Scan(rows, idx, from + 1, marked, tol));
      } else {
        match PartnerFrom(rows, idx, i, marked, tol, 0)
        case None =>
          ScanAtTurn(rows, idx, from + 1, marked, tol);
          SkipStep(rows, idx, from, marked, tol, Scan(rows, idx, from + 1, marked, tol));
        case Some(q) =>
          ScanAtTurn(rows, idx, from + 1, marked + {i, idx[q]}, tol);
          UnpairedStep(rows, idx, from, marked, tol, RetPair(i, idx[q]), Scan(rows, idx, from + 1, marked + {i, idx[q]}, tol));
      }
    }
  }

  /** The ledger after the stage, and the pairs it found. */
  datatype ReturnedRun = ReturnedRun(side: Side, pairs: seq<RetPair>)

  /** `find_returned_transactions` on one ledger: pair within the sorted
      snapshot of the unmatched rows, label both rows of each pair, append
      them to the returned list, and take them out of the unmatched set.
      The amounts are compared with the configured match tolerance. */
  function FindReturnedTransactions(s: Side, cfg: Config): (r: ReturnedRun)
    requires Valid(s)
    ensures Valid(r.side)
    ensures Relabel(s, r.side, Used(r.pairs), ReturnedTransaction)
    ensures r.side.tally == s.tally.(returned := s.tally.returned + Flat(r.pairs))
    ensures |r.side.tally.returned| == |s.tally.returned| + 2 * |r.pairs|
  {
    var idx := Pending(s);
    var ps := Scan(s.rows, idx, 0, {}, cfg.MatchTolerance());
    ScanSound(s.rows, idx, 0, {}, cfg.MatchTolerance());
    var side := Relabelled(s, Used(ps), ReturnedTransaction);
    ReturnedRun(side.(tally := s.tally.(returned := s.tally.returned + Flat(ps))), ps)
  }

  /** Every returned pair joins two rows unmatched before the stage, the
      earlier first, that form a returned transaction; no row is listed twice. */
  lemma ReturnedStageSound(s: Side, cfg: Config)
    requires Valid(s)
    ensures var r := FindReturnedTransactions(s, cfg);
      && (forall p :: p in r.pairs ==>
            && p.i < p.j < |s.rows| && p.i in s.unmatched && p.j in s.unmatched
            && Returned(s.rows[p.i], s.rows[p.j], cfg.MatchTolerance()))
      && Distinct(Flat(r.pairs))
  {
    ScanSound(s.rows, Pending(s), 0, {}, cfg.MatchTolerance());
    ScanDistinct(s.rows, Pending(s), 0, {}, cfg.MatchTolerance());
  }

  /** No two rows the stage leaves unmatched form a returned transaction. */
  lemma ReturnedMaximal(s: Side, cfg: Config)
    requires Valid(s)
    ensures var r := FindReturnedTransactions(s, cfg);
      forall a, b :: a in r.side.unmatched && b in r.side.unmatched && a < b ==>
        !Returned(s.rows[a], s.rows[b], cfg.MatchTolerance())
  {
    var r := FindReturnedTransactions(s, cfg);
    var idx := Pending(s);
    ScanMaximal(s.rows, idx, 0, {}, cfg.MatchTolerance());
    forall a, b | a in r.side.unmatched && b in r.side.unmatched && a < b
      ensures !Returned(s.rows[a], s.rows[b], cfg.MatchTolerance())
    {
      var ka, kb := PositionsOf(idx, a, b);
    }
  }

  /** The stage follows the first-partner rule: the pairs come out by
      ascending earlier row; when a pair's turn comes neither of its rows is
      marked by the pairs before it; and every unmatched row strictly between
      its two rows that reverses the earlier one was already marked. */
  lemma ReturnedFirstPartner(s: Side, cfg: Config)
    requires Valid(s)
    ensures var r := FindReturnedTransactions(s, cfg);
      && (forall a, b :: 0 <= a < b < |r.pairs| ==> r.pairs[a].i < r.pairs[b].i)
      && (forall a :: 0 <= a < |r.pairs| ==>
            && r.pairs[a].i < |s.rows|
            && r.pairs[a].i !in Used(r.pairs[..a]) && r.pairs[a].j !in Used(r.pairs[..a])
            && forall k :: k in s.unmatched && r.pairs[a].i < k < r.pairs[a].j && k !in Used(r.pairs[..a]) ==>
                 !Returned(s.rows[r.pairs[a].i], s.rows[k], cfg.MatchTolerance()))
  {
    var idx := Pending(s);
    var ps := Scan(s.rows, idx, 0, {}, cfg.MatchTolerance());
    assert FindReturnedTransactions(s, cfg).pairs == ps;
    ScanOrdered(s.rows, idx, 0, {}, cfg.MatchTolerance());
    ScanFirstPartner(s.rows, idx, 0, {}, cfg.MatchTolerance());
    FirstRuleAtStart(s.rows, idx, s.unmatched, cfg.MatchTolerance(), ps);
  }

  /** A row the stage leaves unpaired found no partner at its turn: no
      unmatched later row that the pairs of earlier rows had not used
      reverses it. This is stronger than `ReturnedMaximal`, and with
      `ReturnedFirstPartner` it fixes the pairs completely. */
  lemma ReturnedAtTurn(s: Side, cfg: Config)
    requires Valid(s)
    ensures var r := FindReturnedTransactions(s, cfg);
      forall i, k ::
        (&& i in s.unmatched && k in s.unmatched && i < k && i !in Used(r.pairs)
         && k !in UsedBefore(r.pairs, i)) ==> !Returned(s.rows[i], s.rows[k], cfg.MatchTolerance())
  {
    var idx := Pending(s);
    var ps := FindReturnedTransactions(s, cfg).pairs;
    ScanAtTurn(s.rows, idx, 0, {}, cfg.MatchTolerance());
    forall i, k | i in s.unmatched && k in s.unmatched && i < k && i !in Used(ps) && k !in UsedBefore(ps, i)
      ensures !Returned(s.rows[i], s.rows[k], cfg.MatchTolerance())
    {
      var b :| 0 <= b < |idx| && idx[b] == i;
    }
  }

  /** In an increasing list two members sit in the order of their values. */
  lemma PositionsOf(idx: seq<nat>, a: nat, b: nat) returns (ka: nat, kb: nat)
    requires Increasing(idx) && a in idx && b in idx && a < b
    ensures ka < kb < |idx| && idx[ka] == a && idx[kb] == b
  {
    ka :| 0 <= ka < |idx| && idx[ka] == a;
    kb :| 0 <= kb < |idx| && idx[kb] == b;
  }
}
