/** The rounding-error matcher: a debit on one ledger and a credit on the
    other (or the reverse) that differ by less than the rounding tolerance
    and round half-up to the same whole number. Every leftover row of the
    first ledger is tried against the rows of the second ledger still
    unmatched when its turn starts; a first-ledger row may pair several
    times, a second-ledger row only once. */
module RoundingMatcher {
  import opened Wrappers
  import opened Records
  import opened Utils

  /** Two positive amounts that are within `tol` and round to the same whole number. */
  predicate RoundingClose(x: real, y: real, tol: real) {
    x > 0.0 && y > 0.0 && Near(x, y, tol) && RoundHalfUp(x) == RoundHalfUp(y)
  }

  /** The date gate. A missing date never rejects a pair: the day difference
      with a missing date is not a number, and a comparison with it is false. */
  predicate DatesWithin(a: Txn, b: Txn, range: int) {
    a.date.None? || b.date.None? || DayGap(a.date.value, b.date.value) <= range
  }

  /** The amounts a pair is matched on: the debit of `a` against the credit
      of `b` if they qualify, else the credit of `a` against the debit of `b`. */
  function RoundingAmounts(a: Txn, b: Txn, cfg: Config): (r: Option<(real, real)>)
    ensures r.Some? ==> DatesWithin(a, b, cfg.RoundingDateRange())
    ensures r.Some? ==> RoundingClose(r.value.0, r.value.1, cfg.RoundingTolerance())
    ensures r.Some? ==> r.value == (a.debit, b.credit) || r.value == (a.credit, b.debit)
    ensures r.None? <==>
      (|| !DatesWithin(a, b, cfg.RoundingDateRange())
       || (!RoundingClose(a.debit, b.credit, cfg.RoundingTolerance()) &&
           !RoundingClose(a.credit, b.debit, cfg.RoundingTolerance())))
  {
    var tol := cfg.RoundingTolerance();
    if !DatesWithin(a, b, cfg.RoundingDateRange()) then None
    else if RoundingClose(a.debit, b.credit, tol) then Some((a.debit, b.credit))
    else if RoundingClose(a.credit, b.debit, tol) then Some((a.credit, b.debit))
    else None
  }

  /** One rounding match: the two rows and the two amounts compared. */
  datatype RPair = RPair(i: nat, j: nat, x: real, y: real)

  function Tag(p: RPair): Remark {
    RoundingError(p.x, p.y)
  }

  function LeftIndices(ps: seq<RPair>): set<nat> {
    set p | p in ps :: p.i
  }

  function RightIndices(ps: seq<RPair>): set<nat> {
    set p | p in ps :: p.j
  }

  /** The first-ledger rows of `ps`, in order, with repeats. */
  function LeftRows(ps: seq<RPair>): seq<nat> {
    if ps == [] then [] else [ps[0].i] + LeftRows(ps[1..])
  }

  /** The second-ledger rows of `ps`, in order. */
  function RightRows(ps: seq<RPair>): seq<nat> {
    if ps == [] then [] else [ps[0].j] + RightRows(ps[1..])
  }

  /** The row lists of `ps` list exactly the rows its matches use. */
  lemma {:induction false} RowsMembers(ps: seq<RPair>)
    ensures Members(LeftRows(ps)) == LeftIndices(ps)
    ensures Members(RightRows(ps)) == RightIndices(ps)
    decreases |ps|
  {
    if ps != [] {
      RowsMembers(ps[1..]);
      assert ps == [ps[0]] + ps[1..];
      assert LeftIndices(ps) == {ps[0].i} + LeftIndices(ps[1..]);
      assert RightIndices(ps) == {ps[0].j} + RightIndices(ps[1..]);
    }
  }

  /** `b` is `a` with the indices `removed` taken out of the unmatched set
      and no remark changed outside `removed`. */
  ghost predicate Overwrites(a: Side, b: Side, removed: set<nat>) {
    && b.rows == a.rows
    && |b.remarks| == |a.remarks|
    && b.unmatched == a.unmatched - removed
    && forall k :: 0 <= k < |a.remarks| && k !in removed ==> b.remarks[k] == a.remarks[k]
  }

  lemma OverwritesCompose(a: Side, b: Side, c: Side, r1: set<nat>, r2: set<nat>)
    requires Overwrites(a, b, r1) && Overwrites(b, c, r2)
    ensures Overwrites(a, c, r1 + r2)
  {
  }

  /** The two ledgers after the stage, and its matches in order. */
  datatype RoundingRun = RoundingRun(left: Side, right: Side, pairs: seq<RPair>)

  /** Records one match: both rows get the rounding remark, are appended to
      the rounding lists and leave their unmatched sets. */
  function MarkRounding(s1: Side, s2: Side, p: RPair): (r: (Side, Side))
    requires Valid(s1) && Valid(s2) && p.i < |s1.rows| && p.j < |s2.rows|
    ensures Valid(r.0) && Valid(r.1)
    ensures Overwrites(s1, r.0, {p.i}) && Overwrites(s2, r.1, {p.j})
    ensures r.0.remarks[p.i] == Tag(p) && r.1.remarks[p.j] == Tag(p)
    ensures r.0.tally == s1.tally.(rounding := s1.tally.rounding + [p.i])
    ensures r.1.tally == s2.tally.(rounding := s2.tally.rounding + [p.j])
  {
    (s1.(remarks := s1.remarks[p.i := Tag(p)], unmatched := s1.unmatched - {p.i},
         tally := s1.tally.(rounding := s1.tally.rounding + [p.i])),
     s2.(remarks := s2.remarks[p.j := Tag(p)], unmatched := s2.unmatched - {p.j},
         tally := s2.tally.(rounding := s2.tally.rounding + [p.j])))
  }

  /** The inner loop for row `i`: the second-ledger rows `js`, in order. */
  function RoundRow(s1: Side, s2: Side, i: nat, js: seq<nat>, cfg: Config): (r: RoundingRun)
    requires Valid(s1) && Valid(s2) && i < |s1.rows|
    requires forall k :: 0 <= k < |js| ==> js[k] < |s2.rows|
    ensures Valid(r.left) && Valid(r.right)
    ensures Overwrites(s1, r.left, LeftIndices(r.pairs))
    ensures Overwrites(s2, r.right, RightIndices(r.pairs))
    decreases |js|
  {
    if js == [] then RoundingRun(s1, s2, [])
    else
      match RoundingAmounts(s1.rows[i], s2.rows[js[0]], cfg)
      case None => RoundRow(s1, s2, i, js[1..], cfg)
      case Some((x, y)) =>
        var p := RPair(i, js[0], x, y);
        var (t1, t2) := MarkRounding(s1, s2, p);
        var r := RoundRow(t1, t2, i, js[1..], cfg);
        IndicesCons(p, r.pairs);
        OverwritesCompose(s1, t1, r.left, {i}, LeftIndices(r.pairs));
        OverwritesCompose(s2, t2, r.right, {js[0]}, RightIndices(r.pairs));
        RoundingRun(r.left, r.right, [p] + r.pairs)
  }

  lemma IndicesCons(p: RPair, ps: seq<RPair>)
    ensures LeftIndices([p] + ps) == {p.i} + LeftIndices(ps)
    ensures RightIndices([p] + ps) == {p.j} + RightIndices(ps)
    ensures LeftRows([p] + ps) == [p.i] + LeftRows(ps)
    ensures RightRows([p] + ps) == [p.j] + RightRows(ps)
  {
  }

  lemma IndicesAppend(ps: seq<RPair>, qs: seq<RPair>)
    ensures LeftIndices(ps + qs) == LeftIndices(ps) + LeftIndices(qs)
    ensures RightIndices(ps + qs) == RightIndices(ps) + RightIndices(qs)
  {
  }

  /** A match of the stage: in range, and the pair's amounts are the ones
      the two rows are matched on. */
  ghost predicate Sound(s1: Side, s2: Side, cfg: Config, p: RPair) {
    && p.i < |s1.rows| && p.j < |s2.rows|
    && RoundingAmounts(s1.rows[p.i], s2.rows[p.j], cfg) == Some((p.x, p.y))
  }

  /** Second-ledger rows strictly ascending along the matches. */
  ghost predicate RightsAscending(ps: seq<RPair>) {
    forall a, b :: 0 <= a < b < |ps| ==> ps[a].j < ps[b].j
  }

  lemma RightsAscendingCons(p: RPair, ps: seq<RPair>)
    requires RightsAscending(ps) && forall q :: q in ps ==> p.j < q.j
    ensures RightsAscending([p] + ps)
  {
    var t := [p] + ps;
    forall a, b | 0 <= a < b < |t| ensures t[a].j < t[b].j {
      assert t[b] == ps[b - 1] && ps[b - 1] in ps;
      if a > 0 {
        assert t[a] == ps[a - 1];
      }
    }
  }

  /** The inner loop pairs only row `i`, only with rows of `js` that were
      unmatched, in the order of `js`, each on its qualifying amounts. */
  lemma {:induction false} RoundRowSound(s1: Side, s2: Side, i: nat, js: seq<nat>, cfg: Config)
    requires Valid(s1) && Valid(s2) && i < |s1.rows|
    requires forall k :: 0 <= k < |js| ==> js[k] in s2.unmatched
    requires Increasing(js)
    ensures var r := RoundRow(s1, s2, i, js, cfg);
      && (forall p :: p in r.pairs ==> p.i == i && p.j in js && p.j in s2.unmatched && Sound(s1, s2, cfg, p))
      && RightsAscending(r.pairs)
    decreases |js|
  {
    if js != [] {
      match RoundingAmounts(s1.rows[i], s2.rows[js[0]], cfg)
      case None =>
        RoundRowSound(s1, s2, i, js[1..], cfg);
      case Some((x, y)) =>
        var p := RPair(i, js[0], x, y);
        var (t1, t2) := MarkRounding(s1, s2, p);
        var rest := RoundRow(t1, t2, i, js[1..], cfg).pairs;
        RoundRowSound(t1, t2, i, js[1..], cfg);
        HeadBelowTail(js);
        RightsAscendingCons(p, rest);
    }
  }

  lemma HeadBelowTail(js: seq<nat>)
    requires js != [] && Increasing(js)
    ensures forall y :: y in js[1..] ==> js[0] < y
  {
    forall y | y in js[1..] ensures js[0] < y {
      var k :| 0 <= k < |js| - 1 && js[1..][k] == y;
      assert js[k + 1] == y;
    }
  }

  /** The outer loop over the snapshot `order` of first-ledger rows; each
      row's inner loop sees the second-ledger rows unmatched at its start. */
  function RoundLoop(s1: Side, s2: Side, order: seq<nat>, cfg: Config): (r: RoundingRun)
    requires Valid(s1) && Valid(s2)
    requires forall k :: 0 <= k < |order| ==> order[k] < |s1.rows|
    ensures Valid(r.left) && Valid(r.right)
    ensures Overwrites(s1, r.left, LeftIndices(r.pairs))
    ensures Overwrites(s2, r.right, RightIndices(r.pairs))
    decreases |order|
  {
    if order == [] then RoundingRun(s1, s2, [])
    else
      var row := RoundRow(s1, s2, order[0], Pending(s2), cfg);
      var rest := RoundLoop(row.left, row.right, order[1..], cfg);
      IndicesAppend(row.pairs, rest.pairs);
      OverwritesCompose(s1, row.left, rest.left, LeftIndices(row.pairs), LeftIndices(rest.pairs));
      OverwritesCompose(s2, row.right, rest.right, RightIndices(row.pairs), RightIndices(rest.pairs));
      RoundingRun(rest.left, rest.right, row.pairs + rest.pairs)
  }

  /** No second-ledger row is used twice. */
  ghost predicate RightsDistinct(ps: seq<RPair>) {
    forall a, b :: 0 <= a < b < |ps| ==> ps[a].j != ps[b].j
  }

  /** Matches that use rows outside `u` followed by matches that use rows
      inside `u` use no second-ledger row twice. */
  lemma RightsDistinctAppend(ps: seq<RPair>, qs: seq<RPair>, u: set<nat>)
    requires RightsDistinct(ps) && RightsDistinct(qs)
    requires forall p :: p in ps ==> p.j !in u
    requires forall q :: q in qs ==> q.j in u
    ensures RightsDistinct(ps + qs)
  {
    var t := ps + qs;
    forall a, b | 0 <= a < b < |t| ensures t[a].j != t[b].j {
      if b < |ps| {
        assert t[a] == ps[a] && t[b] == ps[b];
      } else if a < |ps| {
        assert t[a] == ps[a] && ps[a] in ps;
        assert t[b] == qs[b - |ps|] && qs[b - |ps|] in qs;
      } else {
        assert t[a] == qs[a - |ps|] && t[b] == qs[b - |ps|];
      }
    }
  }

  /** Every match pairs a row of `order` with a row of the second ledger
      that was unmatched, on the amounts that qualify, and no second-ledger
      row is used twice. */
  lemma {:induction false} RoundLoopSound(s1: Side, s2: Side, order: seq<nat>, cfg: Config)
    requires Valid(s1) && Valid(s2)
    requires forall k :: 0 <= k < |order| ==> order[k] < |s1.rows|
    ensures var r := RoundLoop(s1, s2, order, cfg);
      && (forall p :: p in r.pairs ==> p.i in order && p.j in s2.unmatched && Sound(s1, s2, cfg, p))
      && RightsDistinct(r.pairs)
    decreases |order|
  {
    if order != [] {
      var row := RoundRow(s1, s2, order[0], Pending(s2), cfg);
      var rest := RoundLoop(row.left, row.right, order[1..], cfg);
      RoundRowSound(s1, s2, order[0], Pending(s2), cfg);
      RoundLoopSound(row.left, row.right, order[1..], cfg);
      SoundAppend(s1, s2, row.left, row.right, cfg, order, row.pairs, rest.pairs);
      assert forall p :: p in row.pairs ==> p.j !in row.right.unmatched;
      RightsDistinctAppend(row.pairs, rest.pairs, row.right.unmatched);
    }
  }

  /** The first row's sound matches followed by the later rows' sound
      matches, made on a ledger with fewer unmatched rows, are sound matches
      of the rows of `order`. */
  lemma SoundAppend(s1: Side, s2: Side, m1: Side, m2: Side, cfg: Config, order: seq<nat>,
                    ps: seq<RPair>, qs: seq<RPair>)
    requires order != [] && m1.rows == s1.rows && m2.rows == s2.rows && m2.unmatched <= s2.unmatched
    requires forall p :: p in ps ==> p.i == order[0] && p.j in s2.unmatched && Sound(s1, s2, cfg, p)
    requires forall q :: q in qs ==> q.i in order[1..] && q.j in m2.unmatched && Sound(m1, m2, cfg, q)
    ensures forall p :: p in ps + qs ==> p.i in order && p.j in s2.unmatched && Sound(s1, s2, cfg, p)
  {
    assert forall i :: i in order[1..] ==> i in order;
  }

  lemma {:induction false} RowsAppend(ps: seq<RPair>, qs: seq<RPair>)
    ensures LeftRows(ps + qs) == LeftRows(ps) + LeftRows(qs)
    ensures RightRows(ps + qs) == RightRows(ps) + RightRows(qs)
    decreases |ps|
  {
    if ps == [] {
      assert ps + qs == qs;
    } else {
      assert (ps + qs)[1..] == ps[1..] + qs;
      RowsAppend(ps[1..], qs);
      AppendAssoc([ps[0].i], LeftRows(ps[1..]), LeftRows(qs));
      AppendAssoc([ps[0].j], RightRows(ps[1..]), RightRows(qs));
    }
  }

  /** The inner loop appends the first-ledger row once per match, and each
      matched second-ledger row, to the rounding lists. */
  lemma {:induction false} RoundRowRecords(s1: Side, s2: Side, i: nat, js: seq<nat>, cfg: Config)
    requires Valid(s1) && Valid(s2) && i < |s1.rows|
    requires forall k :: 0 <= k < |js| ==> js[k] < |s2.rows|
    ensures var r := RoundRow(s1, s2, i, js, cfg);
      && r.left.tally == s1.tally.(rounding := s1.tally.rounding + LeftRows(r.pairs))
      && r.right.tally == s2.tally.(rounding := s2.tally.rounding + RightRows(r.pairs))
    decreases |js|
  {
    if js != [] {
      match RoundingAmounts(s1.rows[i], s2.rows[js[0]], cfg)
      case None =>
        RoundRowRecords(s1, s2, i, js[1..], cfg);
      case Some((x, y)) =>
        var p := RPair(i, js[0], x, y);
        var (t1, t2) := MarkRounding(s1, s2, p);
        var rest := RoundRow(t1, t2, i, js[1..], cfg).pairs;
        RoundRowRecords(t1, t2, i, js[1..], cfg);
        IndicesCons(p, rest);
        AppendAssoc(s1.tally.rounding, [i], LeftRows(rest));
        AppendAssoc(s2.tally.rounding, [js[0]], RightRows(rest));
    }
  }

  /** Both rounding lists grow by the matched rows, in match order. */
  lemma {:induction false} RoundLoopRecords(s1: Side, s2: Side, order: seq<nat>, cfg: Config)
    requires Valid(s1) && Valid(s2)
    requires forall k :: 0 <= k < |order| ==> order[k] < |s1.rows|
    ensures var r := RoundLoop(s1, s2, order, cfg);
      && r.left.tally == s1.tally.(rounding := s1.tally.rounding + LeftRows(r.pairs))
      && r.right.tally == s2.tally.(rounding := s2.tally.rounding + RightRows(r.pairs))
    decreases |order|
  {
    if order != [] {
      var row := RoundRow(s1, s2, order[0], Pending(s2), cfg);
      var rest := RoundLoop(row.left, row.right, order[1..], cfg);
      RoundRowRecords(s1, s2, order[0], Pending(s2), cfg);
      RoundLoopRecords(row.left, row.right, order[1..], cfg);
      RowsAppend(row.pairs, rest.pairs);
      AppendAssoc(s1.tally.rounding, LeftRows(row.pairs), LeftRows(rest.pairs));
      AppendAssoc(s2.tally.rounding, RightRows(row.pairs), RightRows(rest.pairs));
    }
  }

  /** Match `a` is the last one of its first-ledger row. */
  ghost predicate LastFor(ps: seq<RPair>, a: nat)
    requires a < |ps|
  {
    forall b :: a < b < |ps| ==> ps[b].i != ps[a].i
  }

  /** Every match that is the last of its first-ledger row left that row
      with its remark. */
  ghost predicate LastRemarks(ps: seq<RPair>, left: Side) {
    forall a :: 0 <= a < |ps| && LastFor(ps, a) ==>
      ps[a].i < |left.remarks| && left.remarks[ps[a].i] == Tag(ps[a])
  }

  /** In the inner loop each matched second-ledger row keeps the remark
      of its match. */
  lemma {:induction false} RoundRowRightRemarks(s1: Side, s2: Side, i: nat, js: seq<nat>, cfg: Config)
    requires Valid(s1) && Valid(s2) && i < |s1.rows|
    requires forall k :: 0 <= k < |js| ==> js[k] in s2.unmatched
    requires Increasing(js)
    ensures var r := RoundRow(s1, s2, i, js, cfg);
      forall p :: p in r.pairs ==> p.j < |r.right.remarks| && r.right.remarks[p.j] == Tag(p)
    decreases |js|
  {
    if js != [] {
      match RoundingAmounts(s1.rows[i], s2.rows[js[0]], cfg)
      case None =>
        RoundRowRightRemarks(s1, s2, i, js[1..], cfg);
      case Some((x, y)) =>
        var p := RPair(i, js[0], x, y);
        var (t1, t2) := MarkRounding(s1, s2, p);
        var rest := RoundRow(t1, t2, i, js[1..], cfg).pairs;
        HeadBelowTail(js);
        RoundRowRightRemarks(t1, t2, i, js[1..], cfg);
        RoundRowSound(t1, t2, i, js[1..], cfg);
        assert js[0] !in RightIndices(rest);
    }
  }

  /** In the inner loop row `i` ends with the remark of its last match. */
  lemma {:induction false} RoundRowLeftRemark(s1: Side, s2: Side, i: nat, js: seq<nat>, cfg: Config)
    requires Valid(s1) && Valid(s2) && i < |s1.rows|
    requires forall k :: 0 <= k < |js| ==> js[k] < |s2.rows|
    ensures var r := RoundRow(s1, s2, i, js, cfg);
      r.pairs != [] ==> r.left.remarks[i] == Tag(r.pairs[|r.pairs| - 1])
    decreases |js|
  {
    if js != [] {
      match RoundingAmounts(s1.rows[i], s2.rows[js[0]], cfg)
      case None =>
        RoundRowLeftRemark(s1, s2, i, js[1..], cfg);
      case Some((x, y)) =>
        var p := RPair(i, js[0], x, y);
        var (t1, t2) := MarkRounding(s1, s2, p);
        var rest := RoundRow(t1, t2, i, js[1..], cfg).pairs;
        RoundRowLeftRemark(t1, t2, i, js[1..], cfg);
        assert rest != [] ==> ([p] + rest)[|rest|] == rest[|rest| - 1];
    }
  }

  /** Each matched second-ledger row keeps the remark of its match. */
  lemma {:induction false} RoundLoopRightRemarks(s1: Side, s2: Side, order: seq<nat>, cfg: Config)
    requires Valid(s1) && Valid(s2)
    requires forall k :: 0 <= k < |order| ==> order[k] < |s1.rows|
    ensures var r := RoundLoop(s1, s2, order, cfg);
      forall p :: p in r.pairs ==> p.j < |r.right.remarks| && r.right.remarks[p.j] == Tag(p)
    decreases |order|
  {
    if order != [] {
      var row := RoundRow(s1, s2, order[0], Pending(s2), cfg);
      var rest := RoundLoop(row.left, row.right, order[1..], cfg);
      RoundRowRightRemarks(s1, s2, order[0], Pending(s2), cfg);
      RoundRowSound(s1, s2, order[0], Pending(s2), cfg);
      RoundLoopRightRemarks(row.left, row.right, order[1..], cfg);
      RoundLoopSound(row.left, row.right, order[1..], cfg);
      forall p | p in row.pairs ensures p.j !in RightIndices(rest.pairs) {
        assert p.j !in row.right.unmatched;
      }
    }
  }

  /** Each matched first-ledger row ends with the remark of its last match. */
  lemma {:induction false} RoundLoopLeftRemarks(s1: Side, s2: Side, order: seq<nat>, cfg: Config)
    requires Valid(s1) && Valid(s2)
    requires forall k :: 0 <= k < |order| ==> order[k] < |s1.rows|
    ensures var r := RoundLoop(s1, s2, order, cfg); LastRemarks(r.pairs, r.left)
    decreases |order|
  {
    if order != [] {
      var row := RoundRow(s1, s2, order[0], Pending(s2), cfg);
      var rest := RoundLoop(row.left, row.right, order[1..], cfg);
      var ps := row.pairs + rest.pairs;
      RoundRowLeftRemark(s1, s2, order[0], Pending(s2), cfg);
      RoundRowSound(s1, s2, order[0], Pending(s2), cfg);
      RoundLoopLeftRemarks(row.left, row.right, order[1..], cfg);
      LeftRemarksAppend(row.pairs, rest.pairs, order[0], row.left, rest.left);
    }
  }

  /** The last-match remarks of one row's matches followed by those of
      the later rows. */
  lemma LeftRemarksAppend(row: seq<RPair>, rest: seq<RPair>, i: nat, m: Side, n: Side)
    requires forall p :: p in row ==> p.i == i
    requires row != [] ==> i < |m.remarks| && m.remarks[i] == Tag(row[|row| - 1])
    requires Overwrites(m, n, LeftIndices(rest))
    requires LastRemarks(rest, n)
    ensures LastRemarks(row + rest, n)
  {
    forall a | 0 <= a < |row + rest| && LastFor(row + rest, a)
      ensures (row + rest)[a].i < |n.remarks| && n.remarks[(row + rest)[a].i] == Tag((row + rest)[a])
    {
      if a < |row| {
        LeftRemarkOfRow(row, rest, i, a, m, n);
      } else {
        LeftRemarkOfRest(row, rest, a, n);
      }
    }
  }

  /** The first row's last match keeps its remark through the later rows. */
  lemma LeftRemarkOfRow(row: seq<RPair>, rest: seq<RPair>, i: nat, a: nat, m: Side, n: Side)
    requires a < |row| && forall p :: p in row ==> p.i == i
    requires LastFor(row + rest, a)
    requires i < |m.remarks| && m.remarks[i] == Tag(row[|row| - 1])
    requires Overwrites(m, n, LeftIndices(rest))
    ensures (row + rest)[a].i < |n.remarks| && n.remarks[(row + rest)[a].i] == Tag((row + rest)[a])
  {
    RowLastMatch(row, rest, a, i);
    assert row[a] in row;
  }

  /** A later row's last match is last among the later rows too. */
  lemma LeftRemarkOfRest(row: seq<RPair>, rest: seq<RPair>, a: nat, n: Side)
    requires |row| <= a < |row| + |rest| && LastFor(row + rest, a)
    requires LastRemarks(rest, n)
    ensures (row + rest)[a].i < |n.remarks| && n.remarks[(row + rest)[a].i] == Tag((row + rest)[a])
  {
    LastForSuffix(row, rest, a);
  }

  /** A match of the later rows that is last in the whole list is last in
      the later rows' list. */
  lemma LastForSuffix(row: seq<RPair>, rest: seq<RPair>, a: nat)
    requires |row| <= a < |row| + |rest| && LastFor(row + rest, a)
    ensures (row + rest)[a] == rest[a - |row|] && LastFor(rest, a - |row|)
  {
    var ps := row + rest;
    assert forall b :: 0 <= b < |rest| ==> ps[b + |row|] == rest[b];
  }

  /** The last match of a row's inner loop that no later match repeats is
      the last match of the row, and the row has no later match at all. */
  lemma RowLastMatch(row: seq<RPair>, rest: seq<RPair>, a: nat, i: nat)
    requires a < |row| && forall p :: p in row ==> p.i == i
    requires LastFor(row + rest, a)
    ensures (row + rest)[a] == row[a] && a == |row| - 1 && i !in LeftIndices(rest)
  {
    var ps := row + rest;
    assert ps[a] == row[a] && row[a] in row;
    assert ps[|row| - 1] == row[|row| - 1] && row[|row| - 1] in row;
    forall q | q in rest ensures q.i != i {
      var b :| 0 <= b < |rest| && rest[b] == q;
      assert ps[|row| + b] == q;
    }
  }

  /** Matches that all belong to one row name that row, unless there are
      none. */
  lemma RowPairsIndex(ps: seq<RPair>, i: nat)
    requires forall p :: p in ps ==> p.i == i
    ensures ps != [] ==> i in LeftIndices(ps)
  {
    assert ps != [] ==> ps[0] in ps;
  }

  /** An inner loop without a match found no qualifying row in `js`. */
  lemma {:induction false} RoundRowNoMatch(s1: Side, s2: Side, i: nat, js: seq<nat>, cfg: Config)
    requires Valid(s1) && Valid(s2) && i < |s1.rows|
    requires forall k :: 0 <= k < |js| ==> js[k] < |s2.rows|
    requires RoundRow(s1, s2, i, js, cfg).pairs == []
    ensures forall k :: 0 <= k < |js| ==> RoundingAmounts(s1.rows[i], s2.rows[js[k]], cfg).None?
    decreases |js|
  {
    if js != [] {
      RoundRowNoMatch(s1, s2, i, js[1..], cfg);
      assert forall k :: 1 <= k < |js| ==> js[k] == js[1..][k - 1];
    }
  }

  /** First-ledger row `i` qualifies with none of the second-ledger rows `u2`. */
  ghost predicate NoPartner(s1: Side, s2: Side, cfg: Config, i: nat, u2: set<nat>) {
    i < |s1.rows| &&
    forall j :: j in u2 ==> j < |s2.rows| && RoundingAmounts(s1.rows[i], s2.rows[j], cfg).None?
  }

  /** A row whose inner loop over the pending rows found nothing has no
      partner among the unmatched rows, nor among any fewer. */
  lemma NoPartnerOfRow(s1: Side, s2: Side, cfg: Config, i: nat, u2: set<nat>)
    requires Valid(s1) && Valid(s2) && i < |s1.rows| && u2 <= s2.unmatched
    requires RoundRow(s1, s2, i, Pending(s2), cfg).pairs == []
    ensures NoPartner(s1, s2, cfg, i, u2)
  {
    var js := Pending(s2);
    RoundRowNoMatch(s1, s2, i, js, cfg);
    forall j | j in u2 ensures j < |s2.rows| && RoundingAmounts(s1.rows[i], s2.rows[j], cfg).None? {
      var q :| 0 <= q < |js| && js[q] == j;
    }
  }

  /** A visited first-ledger row that never matched has no qualifying
      partner among the second-ledger rows left unmatched. */
  lemma {:induction false} RoundLoopMaximal(s1: Side, s2: Side, order: seq<nat>, cfg: Config)
    requires Valid(s1) && Valid(s2)
    requires forall k :: 0 <= k < |order| ==> order[k] < |s1.rows|
    ensures var r := RoundLoop(s1, s2, order, cfg);
      forall k :: 0 <= k < |order| && order[k] !in LeftIndices(r.pairs) ==>
        NoPartner(s1, s2, cfg, order[k], r.right.unmatched)
    decreases |order|
  {
    if order != [] {
      var row := RoundRow(s1, s2, order[0], Pending(s2), cfg);
      var rest := RoundLoop(row.left, row.right, order[1..], cfg);
      RoundLoopMaximal(row.left, row.right, order[1..], cfg);
      if order[0] !in LeftIndices(row.pairs) {
        RoundRowSound(s1, s2, order[0], Pending(s2), cfg);
        RowPairsIndex(row.pairs, order[0]);
        NoPartnerOfRow(s1, s2, cfg, order[0], rest.right.unmatched);
      }
      MaximalStep(s1, s2, row.left, row.right, cfg, order, row.pairs, rest.pairs, rest.right.unmatched);
    }
  }

  /** The first row, if it never matched, and the later rows that never
      matched have no partner among the rows `u2` left at the end. */
  lemma MaximalStep(s1: Side, s2: Side, m1: Side, m2: Side, cfg: Config, order: seq<nat>,
                    ps: seq<RPair>, qs: seq<RPair>, u2: set<nat>)
    requires order != [] && m1.rows == s1.rows && m2.rows == s2.rows
    requires order[0] !in LeftIndices(ps) ==> NoPartner(s1, s2, cfg, order[0], u2)
    requires forall k :: 0 <= k < |order[1..]| && order[1..][k] !in LeftIndices(qs) ==>
      NoPartner(m1, m2, cfg, order[1..][k], u2)
    ensures forall k :: 0 <= k < |order| && order[k] !in LeftIndices(ps + qs) ==>
      NoPartner(s1, s2, cfg, order[k], u2)
  {
    IndicesAppend(ps, qs);
    forall k | 1 <= k < |order| && order[k] !in LeftIndices(ps + qs)
      ensures NoPartner(s1, s2, cfg, order[k], u2)
    {
      assert order[k] == order[1..][k - 1];
    }
  }

  /** The matching rule of the stage, stated without its loops: row `p.i`,
      one of the visited first-ledger rows `u1`, is matched with the
      unmatched second-ledger row `p.j` on their qualifying amounts exactly
      when no visited first-ledger row before `p.i` qualifies with `p.j`.
      So a first-ledger row takes every free row it qualifies with, and a
      second-ledger row goes to the first row that qualifies with it. */
  ghost predicate FirstClaim(s1: Side, s2: Side, cfg: Config, u1: set<nat>, p: RPair) {
    && p.i in u1 && p.j in s2.unmatched && Sound(s1, s2, cfg, p)
    && forall i :: i in u1 && i < p.i ==>
         i < |s1.rows| && RoundingAmounts(s1.rows[i], s2.rows[p.j], cfg).None?
  }

  /** Matches in the order of their (first-ledger row, second-ledger row). */
  ghost predicate PairOrder(ps: seq<RPair>) {
    forall a, b :: 0 <= a < b < |ps| ==>
      ps[a].i < ps[b].i || (ps[a].i == ps[b].i && ps[a].j < ps[b].j)
  }

  /** The inner loop matches row `i` with exactly the rows of `js` it
      qualifies with, on their qualifying amounts. */
  lemma {:induction false} RoundRowPicks(s1: Side, s2: Side, i: nat, js: seq<nat>, cfg: Config)
    requires Valid(s1) && Valid(s2) && i < |s1.rows|
    requires forall k :: 0 <= k < |js| ==> js[k] < |s2.rows|
    ensures var r := RoundRow(s1, s2, i, js, cfg);
      forall p :: p in r.pairs <==> p.i == i && p.j in js && Sound(s1, s2, cfg, p)
    decreases |js|
  {
    if js != [] {
      match RoundingAmounts(s1.rows[i], s2.rows[js[0]], cfg)
      case None =>
        RoundRowPicks(s1, s2, i, js[1..], cfg);
        assert forall j :: j in js <==> j == js[0] || j in js[1..];
      case Some((x, y)) =>
        var (t1, t2) := MarkRounding(s1, s2, RPair(i, js[0], x, y));
        RoundRowPicks(t1, t2, i, js[1..], cfg);
        assert forall j :: j in js <==> j == js[0] || j in js[1..];
    }
  }

  /** The second-ledger rows the inner loop takes are the rows of `js` that
      qualify with row `i`. */
  lemma RoundRowTakes(s1: Side, s2: Side, i: nat, js: seq<nat>, cfg: Config)
    requires Valid(s1) && Valid(s2) && i < |s1.rows|
    requires forall k :: 0 <= k < |js| ==> js[k] < |s2.rows|
    ensures var r := RoundRow(s1, s2, i, js, cfg);
      forall j :: j in RightIndices(r.pairs) <==>
        j in js && RoundingAmounts(s1.rows[i], s2.rows[j], cfg).Some?
  {
    var r := RoundRow(s1, s2, i, js, cfg);
    RoundRowPicks(s1, s2, i, js, cfg);
    forall j | j in js && RoundingAmounts(s1.rows[i], s2.rows[j], cfg).Some?
      ensures j in RightIndices(r.pairs)
    {
      var v := RoundingAmounts(s1.rows[i], s2.rows[j], cfg).value;
      assert RPair(i, j, v.0, v.1) in r.pairs;
    }
  }

  /** A match of the first visited row, as the rule states it. */
  lemma ClaimOfFirst(s1: Side, s2: Side, cfg: Config, order: seq<nat>, p: RPair)
    requires Valid(s1) && Valid(s2)
    requires order != [] && Increasing(order) && p.i == order[0]
    ensures FirstClaim(s1, s2, cfg, Members(order), p) <==> p.j in s2.unmatched && Sound(s1, s2, cfg, p)
  {
    HeadBelowTail(order);
    assert forall i :: i in order ==> i == order[0] || i in order[1..];
  }

  /** A match of a later visited row, as the rule states it: the first row
      did not qualify with its second-ledger row. */
  lemma ClaimOfLater(s1: Side, s2: Side, m1: Side, m2: Side, cfg: Config, order: seq<nat>, p: RPair)
    requires Valid(s1) && Valid(s2)
    requires order != [] && Increasing(order) && p.i != order[0]
    requires m1.rows == s1.rows && m2.rows == s2.rows
    requires forall k :: 0 <= k < |order| ==> order[k] < |s1.rows|
    requires forall j :: j in m2.unmatched <==>
      j in s2.unmatched && !(j < |s2.rows| && RoundingAmounts(s1.rows[order[0]], s2.rows[j], cfg).Some?)
    ensures FirstClaim(s1, s2, cfg, Members(order), p) <==> FirstClaim(m1, m2, cfg, Members(order[1..]), p)
  {
    HeadBelowTail(order);
    assert forall i :: i in order ==> i == order[0] || i in order[1..];
    assert forall i :: i in order[1..] ==> i in order;
  }

  /** The outer loop over an increasing list of first-ledger rows makes
      exactly the matches the rule allows. */
  lemma {:induction false} RoundLoopGreedy(s1: Side, s2: Side, order: seq<nat>, cfg: Config)
    requires Valid(s1) && Valid(s2) && Increasing(order)
    requires forall k :: 0 <= k < |order| ==> order[k] < |s1.rows|
    ensures var r := RoundLoop(s1, s2, order, cfg);
      forall p :: p in r.pairs <==> FirstClaim(s1, s2, cfg, Members(order), p)
    decreases |order|
  {
    if order != [] {
      var row := RoundRow(s1, s2, order[0], Pending(s2), cfg);
      var rest := RoundLoop(row.left, row.right, order[1..], cfg);
      RoundRowPicks(s1, s2, order[0], Pending(s2), cfg);
      RoundRowTakes(s1, s2, order[0], Pending(s2), cfg);
      assert Increasing(order[1..]);
      RoundLoopGreedy(row.left, row.right, order[1..], cfg);
      assert forall q :: q in rest.pairs ==> q.i in order[1..] by {
        forall q | q in rest.pairs ensures q.i in order[1..] {
          assert FirstClaim(row.left, row.right, cfg, Members(order[1..]), q);
        }
      }
      forall p ensures p in row.pairs + rest.pairs <==> FirstClaim(s1, s2, cfg, Members(order), p) {
        if p.i == order[0] {
          ClaimOfFirst(s1, s2, cfg, order, p);
          HeadBelowTail(order);
          assert p !in rest.pairs;
        } else {
          assert forall j :: j in row.right.unmatched <==>
            j in s2.unmatched && !(j < |s2.rows| && RoundingAmounts(s1.rows[order[0]], s2.rows[j], cfg).Some?);
          ClaimOfLater(s1, s2, row.left, row.right, cfg, order, p);
        }
      }
    }
  }

  /** Matches of one row in ascending second-ledger order followed by
      matches of later rows are in (i, j) order. */
  lemma PairOrderAppend(ps: seq<RPair>, qs: seq<RPair>, i: nat)
    requires RightsAscending(ps) && forall p :: p in ps ==> p.i == i
    requires PairOrder(qs) && forall q :: q in qs ==> i < q.i
    ensures PairOrder(ps + qs)
  {
    var t := ps + qs;
    forall a, b | 0 <= a < b < |t|
      ensures t[a].i < t[b].i || (t[a].i == t[b].i && t[a].j < t[b].j)
    {
      if b < |ps| {
        assert t[a] == ps[a] && t[b] == ps[b] && ps[a] in ps && ps[b] in ps;
      } else if a < |ps| {
        assert t[a] == ps[a] && ps[a] in ps;
        assert t[b] == qs[b - |ps|] && qs[b - |ps|] in qs;
      } else {
        assert t[a] == qs[a - |ps|] && t[b] == qs[b - |ps|];
      }
    }
  }

  /** The outer loop over an increasing list makes its matches in (i, j) order. */
  lemma {:induction false} RoundLoopOrdered(s1: Side, s2: Side, order: seq<nat>, cfg: Config)
    requires Valid(s1) && Valid(s2) && Increasing(order)
    requires forall k :: 0 <= k < |order| ==> order[k] < |s1.rows|
    ensures PairOrder(RoundLoop(s1, s2, order, cfg).pairs)
    decreases |order|
  {
    if order != [] {
      var row := RoundRow(s1, s2, order[0], Pending(s2), cfg);
      var rest := RoundLoop(row.left, row.right, order[1..], cfg);
      RoundRowSound(s1, s2, order[0], Pending(s2), cfg);
      assert Increasing(order[1..]);
      RoundLoopOrdered(row.left, row.right, order[1..], cfg);
      RoundLoopSound(row.left, row.right, order[1..], cfg);
      HeadBelowTail(order);
      PairOrderAppend(row.pairs, rest.pairs, order[0]);
    }
  }

  /** `find_rounding_errors`: the unmatched rows of the first ledger in
      ascending order, each against the rows of the second still unmatched. */
  function FindRoundingErrors(s1: Side, s2: Side, cfg: Config): (r: RoundingRun)
    requires Valid(s1) && Valid(s2)
    ensures !cfg.RoundingEnabled() ==> r == RoundingRun(s1, s2, [])
    ensures Valid(r.left) && Valid(r.right)
    ensures Overwrites(s1, r.left, LeftIndices(r.pairs))
    ensures Overwrites(s2, r.right, RightIndices(r.pairs))
  {
    if !cfg.RoundingEnabled() then RoundingRun(s1, s2, [])
    else RoundLoop(s1, s2, Pending(s1), cfg)
  }

  /** Every rounding match pairs a first-ledger row and a second-ledger row
      that were unmatched when the stage began, on their qualifying amounts,
      and no second-ledger row is matched twice. */
  lemma RoundingStageSound(s1: Side, s2: Side, cfg: Config)
    requires Valid(s1) && Valid(s2)
    ensures var r := FindRoundingErrors(s1, s2, cfg);
      && (forall p :: p in r.pairs ==> p.i in s1.unmatched && p.j in s2.unmatched && Sound(s1, s2, cfg, p))
      && RightsDistinct(r.pairs)
  {
    if cfg.RoundingEnabled() {
      RoundLoopSound(s1, s2, Pending(s1), cfg);
    }
  }

  /** Each matched second-ledger row carries the remark of its match, and
      each matched first-ledger row the remark of its last match. */
  lemma RoundingStageRemarks(s1: Side, s2: Side, cfg: Config)
    requires Valid(s1) && Valid(s2)
    ensures var r := FindRoundingErrors(s1, s2, cfg);
      && (forall p :: p in r.pairs ==> p.j < |r.right.remarks| && r.right.remarks[p.j] == Tag(p))
      && LastRemarks(r.pairs, r.left)
  {
    if cfg.RoundingEnabled() {
      RoundLoopRightRemarks(s1, s2, Pending(s1), cfg);
      RoundLoopLeftRemarks(s1, s2, Pending(s1), cfg);
    }
  }

  /** Both rounding lists grow by one entry per match. */
  lemma RoundingStageRecords(s1: Side, s2: Side, cfg: Config)
    requires Valid(s1) && Valid(s2)
    ensures var r := FindRoundingErrors(s1, s2, cfg);
      && r.left.tally == s1.tally.(rounding := s1.tally.rounding + LeftRows(r.pairs))
      && r.right.tally == s2.tally.(rounding := s2.tally.rounding + RightRows(r.pairs))
  {
    if cfg.RoundingEnabled() {
      RoundLoopRecords(s1, s2, Pending(s1), cfg);
    }
  }

  /** When the stage is on, no two rows it leaves unmatched qualify. */
  lemma RoundingMaximal(s1: Side, s2: Side, cfg: Config)
    requires Valid(s1) && Valid(s2) && cfg.RoundingEnabled()
    ensures var r := FindRoundingErrors(s1, s2, cfg);
      forall i, j :: i in r.left.unmatched && j in r.right.unmatched ==>
        i < |s1.rows| && j < |s2.rows| && RoundingAmounts(s1.rows[i], s2.rows[j], cfg).None?
  {
    var r := FindRoundingErrors(s1, s2, cfg);
    var order := Pending(s1);
    RoundLoopMaximal(s1, s2, order, cfg);
    forall i | i in r.left.unmatched ensures NoPartner(s1, s2, cfg, i, r.right.unmatched) {
      var k :| 0 <= k < |order| && order[k] == i;
    }
  }

  /** The stage makes exactly the matches the rule allows among the rows
      unmatched when it begins, in (i, j) order, and none when it is off.
      With the order, this fixes the list of matches. */
  lemma RoundingGreedy(s1: Side, s2: Side, cfg: Config)
    requires Valid(s1) && Valid(s2)
    ensures var r := FindRoundingErrors(s1, s2, cfg);
      && (forall p :: p in r.pairs <==> cfg.RoundingEnabled() && FirstClaim(s1, s2, cfg, s1.unmatched, p))
      && PairOrder(r.pairs)
  {
    if cfg.RoundingEnabled() {
      var order := Pending(s1);
      assert Members(order) == s1.unmatched;
      RoundLoopGreedy(s1, s2, order, cfg);
      RoundLoopOrdered(s1, s2, order, cfg);
    }
  }

  /** Every first-ledger row of the matches has a last match. */
  lemma {:induction false} LastExists(ps: seq<RPair>, i: nat)
    requires i in LeftIndices(ps)
    ensures exists a :: 0 <= a < |ps| && ps[a].i == i && LastFor(ps, a)
    decreases |ps|
  {
    var n := |ps| - 1;
    if ps[n].i == i {
      assert LastFor(ps, n);
    } else {
      var init := ps[..n];
      assert i in LeftIndices(init) by {
        var p :| p in ps && p.i == i;
        var k :| 0 <= k < |ps| && ps[k] == p;
        assert k < n && init[k] == p;
      }
      LastExists(init, i);
      var a :| 0 <= a < |init| && init[a].i == i && LastFor(init, a);
      assert ps[a] == init[a];
      assert forall b :: a < b < n ==> ps[b] == init[b];
      assert LastFor(ps, a);
    }
  }

  /** The stage is a matching stage in the sense of the pipeline: each row it
      takes out of an unmatched set carries a rounding remark, and nothing
      else changes. */
  lemma RoundingProgress(s1: Side, s2: Side, cfg: Config)
    requires Valid(s1) && Valid(s2)
    ensures var r := FindRoundingErrors(s1, s2, cfg);
      Progress(s1, r.left) && Progress(s2, r.right)
  {
    var r := FindRoundingErrors(s1, s2, cfg);
    RoundingStageSound(s1, s2, cfg);
    RoundingStageRemarks(s1, s2, cfg);
    forall k | k in LeftIndices(r.pairs) ensures k < |r.left.remarks| && Verdict(r.left.remarks[k]) {
      LastExists(r.pairs, k);
    }
    forall k | k in RightIndices(r.pairs) ensures k < |r.right.remarks| && Verdict(r.right.remarks[k]) {
      var p :| p in r.pairs && p.j == k;
    }
  }
}
