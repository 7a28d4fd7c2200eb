/** The split matcher: one source row whose amount is covered by several
    target rows on the opposite side, found by the bounded subset search. It
    runs once from the first ledger to the second and once the other way. */
module SplitMatcher {
  import opened Wrappers
  import opened Records
  import opened Utils
  import opened SubsetSearch

  /** An amount column of a row. */
  datatype Column = DebitColumn | CreditColumn

  function AmountIn(t: Txn, col: Column): real {
    match col
    case DebitColumn => t.debit
    case CreditColumn => t.credit
  }

  function Other(col: Column): Column {
    match col
    case DebitColumn => CreditColumn
    case CreditColumn => DebitColumn
  }

  /** What a source row must be split into, and the target column that must
      cover it: a pure debit needs target credits, a pure credit needs target
      debits, and any other row is not split. */
  function Requirement(t: Txn): (r: Option<(real, Column)>)
    ensures r.Some? <==> (t.debit > 0.0 && t.credit == 0.0) || (t.credit > 0.0 && t.debit == 0.0)
    ensures r.Some? ==> r.value.0 > 0.0
    ensures r.Some? ==> AmountIn(t, Other(r.value.1)) == r.value.0 && AmountIn(t, r.value.1) == 0.0
  {
    if t.debit > 0.0 && t.credit == 0.0 then Some((t.debit, CreditColumn))
    else if t.credit > 0.0 && t.debit == 0.0 then Some((t.credit, DebitColumn))
    else None
  }

  /** A target row can take part in a split drawn from column `col` of a
      source dated `d`: a positive amount in that column and a date at most
      `range` days away. */
  predicate Eligible(t: Txn, col: Column, d: int, range: int) {
    AmountIn(t, col) > 0.0 && t.date.Some? && DayGap(d, t.date.value) <= range
  }

  /** The eligible rows among `js`, in the order of `js`, each with its amount. */
  function SplitCandidates(rows: seq<Txn>, js: seq<nat>, col: Column, d: int, range: int): (r: seq<Amount>)
    requires forall k :: 0 <= k < |js| ==> js[k] < |rows|
    ensures forall k :: 0 <= k < |r| ==>
      && r[k].id in js && r[k].id < |rows|
      && Eligible(rows[r[k].id], col, d, range)
      && r[k].value == AmountIn(rows[r[k].id], col)
    ensures forall k :: 0 <= k < |js| && Eligible(rows[js[k]], col, d, range) ==> js[k] in IdsOf(r)
  {
    if js == [] then []
    else
      var rest := SplitCandidates(rows, js[1..], col, d, range);
      CandidatesStep(rows, js, col, d, range, rest);
      if Eligible(rows[js[0]], col, d, range) then [Amount(js[0], AmountIn(rows[js[0]], col))] + rest
      else rest
  }

  /** The candidates of `js` are those of its tail, preceded by its head
      when the head is eligible. */
  lemma CandidatesStep(rows: seq<Txn>, js: seq<nat>, col: Column, d: int, range: int, rest: seq<Amount>)
    requires js != [] && forall k :: 0 <= k < |js| ==> js[k] < |rows|
    requires forall k :: 0 <= k < |rest| ==>
      && rest[k].id in js[1..] && rest[k].id < |rows|
      && Eligible(rows[rest[k].id], col, d, range)
      && rest[k].value == AmountIn(rows[rest[k].id], col)
    requires forall k :: 1 <= k < |js| && Eligible(rows[js[k]], col, d, range) ==> js[k] in IdsOf(rest)
    ensures var r := if Eligible(rows[js[0]], col, d, range)
                     then [Amount(js[0], AmountIn(rows[js[0]], col))] + rest else rest;
      && (forall k :: 0 <= k < |r| ==>
            && r[k].id in js && r[k].id < |rows|
            && Eligible(rows[r[k].id], col, d, range)
            && r[k].value == AmountIn(rows[r[k].id], col))
      && (forall k :: 0 <= k < |js| && Eligible(rows[js[k]], col, d, range) ==> js[k] in IdsOf(r))
  {
    assert forall y :: y in js[1..] ==> y in js;
    if Eligible(rows[js[0]], col, d, range) {
      var a := Amount(js[0], AmountIn(rows[js[0]], col));
      assert IdsOf([a] + rest) == [js[0]] + IdsOf(rest);
    }
  }

  /** Candidates drawn from ascending rows come out by ascending row. */
  lemma {:induction false} SplitCandidatesIncreasing(rows: seq<Txn>, js: seq<nat>, col: Column, d: int, range: int)
    requires forall k :: 0 <= k < |js| ==> js[k] < |rows|
    requires Increasing(js)
    ensures Increasing(IdsOf(SplitCandidates(rows, js, col, d, range)))
    decreases |js|
  {
    if js != [] {
      var rest := SplitCandidates(rows, js[1..], col, d, range);
      SplitCandidatesIncreasing(rows, js[1..], col, d, range);
      if Eligible(rows[js[0]], col, d, range) {
        forall y | y in IdsOf(rest) ensures js[0] < y {
          var k :| 0 <= k < |rest| && IdsOf(rest)[k] == y;
          assert rest[k].id in js[1..];
        }
        IncreasingPrepend(js[0], IdsOf(rest));
      }
    }
  }

  /** The total in column `col` of the rows `js`. */
  function Total(rows: seq<Txn>, js: seq<nat>, col: Column): real
    requires forall k :: 0 <= k < |js| ==> js[k] < |rows|
  {
    if js == [] then 0.0 else AmountIn(rows[js[0]], col) + Total(rows, js[1..], col)
  }

  /** The total of the rows picked from candidates that carry their own
      amounts is the picked sum of the search. */
  lemma {:induction false} TotalOfPicked(rows: seq<Txn>, cs: seq<Amount>, sel: Selection, col: Column)
    requires |sel| == |cs|
    requires forall k :: 0 <= k < |cs| ==> cs[k].id < |rows| && cs[k].value == AmountIn(rows[cs[k].id], col)
    ensures forall k :: 0 <= k < |Picked(cs, sel)| ==> Picked(cs, sel)[k] < |rows|
    ensures Total(rows, Picked(cs, sel), col) == PickedSum(cs, sel)
    decreases |cs|
  {
    if sel != [] {
      TotalOfPicked(rows, cs[1..], sel[1..], col);
      var rest := Picked(cs[1..], sel[1..]);
      if sel[0] {
        assert ([cs[0].id] + rest)[1..] == rest;
      } else {
        assert [] + rest == rest;
      }
    }
  }

  /** One split: a source row and the target rows that cover it. */
  datatype Group = Group(source: nat, targets: seq<nat>)

  /** A sound split group: a one-sided, dated source row, and a non-empty
      list of distinct eligible target rows whose amounts in the required
      column sum to within the match tolerance of the source amount. */
  ghost predicate GroupOk(src: seq<Txn>, tgt: seq<Txn>, g: Group, cfg: Config) {
    && g.source < |src|
    && g.targets != []
    && Increasing(g.targets)
    && (forall k :: 0 <= k < |g.targets| ==> g.targets[k] < |tgt|)
    && Requirement(src[g.source]).Some?
    && src[g.source].date.Some?
    && var (req, col) := Requirement(src[g.source]).value;
       && (forall k :: 0 <= k < |g.targets| ==>
             Eligible(tgt[g.targets[k]], col, src[g.source].date.value, cfg.SplitMatchDateRange()))
       && Near(Total(tgt, g.targets, col), req, cfg.MatchTolerance())
  }

  /** The candidates of source row `i`: the eligible unmatched target rows,
      in ascending order. */
  function CandidatesFor(src: Side, tgt: Side, i: nat, cfg: Config): (r: seq<Amount>)
    requires Valid(src) && Valid(tgt) && i < |src.rows|
    requires Requirement(src.rows[i]).Some? && src.rows[i].date.Some?
    ensures forall k :: 0 <= k < |r| ==>
      && r[k].id in tgt.unmatched && r[k].id < |tgt.rows|
      && Eligible(tgt.rows[r[k].id], Requirement(src.rows[i]).value.1, src.rows[i].date.value, cfg.SplitMatchDateRange())
      && r[k].value == AmountIn(tgt.rows[r[k].id], Requirement(src.rows[i]).value.1)
  {
    SplitCandidates(tgt.rows, Pending(tgt), Requirement(src.rows[i]).value.1,
                    src.rows[i].date.value, cfg.SplitMatchDateRange())
  }

  /** The split found for source row `i`, if any. A row that is no longer
      unmatched, not one-sided or undated is skipped; otherwise the subset
      search runs over its candidates, and an empty answer is no split. */
  function TrySplit(src: Side, tgt: Side, i: nat, cfg: Config): (r: Option<Group>)
    requires Valid(src) && Valid(tgt) && i < |src.rows|
    ensures r.Some? ==>
      && r.value.source == i && i in src.unmatched && Increasing(r.value.targets)
      && forall k :: 0 <= k < |r.value.targets| ==> r.value.targets[k] in tgt.unmatched
  {
    if i !in src.unmatched || Requirement(src.rows[i]).None? || src.rows[i].date.None? then None
    else
      var cs := CandidatesFor(src, tgt, i, cfg);
      match SubsetSum(cs, Requirement(src.rows[i]).value.0, cfg.MatchTolerance())
      case None => None
      case Some(ids) =>
        if ids == [] then None
        else
          PickedCandidates(src, tgt, i, cfg);
          Some(Group(i, ids))
  }

  /** The non-empty answer of the search for source row `i` lists distinct
      unmatched target rows, eligible for the split, whose amounts in the
      required column sum to within the tolerance of the source amount. */
  lemma PickedCandidates(src: Side, tgt: Side, i: nat, cfg: Config)
    requires Valid(src) && Valid(tgt) && i < |src.rows|
    requires Requirement(src.rows[i]).Some? && src.rows[i].date.Some?
    ensures var (req, col) := Requirement(src.rows[i]).value;
      var r := SubsetSum(CandidatesFor(src, tgt, i, cfg), req, cfg.MatchTolerance());
      r.Some? && r.value != [] ==>
        && Increasing(r.value)
        && (forall k :: 0 <= k < |r.value| ==> r.value[k] in tgt.unmatched && r.value[k] < |tgt.rows|)
        && (forall k :: 0 <= k < |r.value| ==>
              Eligible(tgt.rows[r.value[k]], col, src.rows[i].date.value, cfg.SplitMatchDateRange()))
        && Near(Total(tgt.rows, r.value, col), req, cfg.MatchTolerance())
  {
    var (req, col) := Requirement(src.rows[i]).value;
    var cs := CandidatesFor(src, tgt, i, cfg);
    var r := SubsetSum(cs, req, cfg.MatchTolerance());
    if r.Some? && r.value != [] {
      SubsetSumSound(cs, req, cfg.MatchTolerance());
      var sel: Selection :| |sel| == |cs| && true in sel &&
        r.value == Picked(cs, sel) && Near(PickedSum(cs, sel), req, cfg.MatchTolerance());
      PickedTargets(src, tgt, i, cfg, sel);
    }
  }

  /** The rows picked from the candidates of source row `i` are distinct,
      unmatched and eligible, and their total is the picked sum. */
  lemma PickedTargets(src: Side, tgt: Side, i: nat, cfg: Config, sel: Selection)
    requires Valid(src) && Valid(tgt) && i < |src.rows|
    requires Requirement(src.rows[i]).Some? && src.rows[i].date.Some?
    requires |sel| == |CandidatesFor(src, tgt, i, cfg)|
    ensures var (req, col) := Requirement(src.rows[i]).value;
      var cs := CandidatesFor(src, tgt, i, cfg);
      var ids := Picked(cs, sel);
      && Increasing(ids)
      && (forall k :: 0 <= k < |ids| ==> ids[k] in tgt.unmatched && ids[k] < |tgt.rows|)
      && (forall k :: 0 <= k < |ids| ==>
            Eligible(tgt.rows[ids[k]], col, src.rows[i].date.value, cfg.SplitMatchDateRange()))
      && Total(tgt.rows, ids, col) == PickedSum(cs, sel)
  {
    var (req, col) := Requirement(src.rows[i]).value;
    var cs := CandidatesFor(src, tgt, i, cfg);
    var ids := Picked(cs, sel);
    SplitCandidatesIncreasing(tgt.rows, Pending(tgt), col, src.rows[i].date.value, cfg.SplitMatchDateRange());
    PickedFromCandidates(cs, sel);
    TotalOfPicked(tgt.rows, cs, sel, col);
    forall k | 0 <= k < |ids|
      ensures ids[k] in tgt.unmatched && ids[k] < |tgt.rows|
      ensures Eligible(tgt.rows[ids[k]], col, src.rows[i].date.value, cfg.SplitMatchDateRange())
    {
      assert ids[k] in IdsOf(cs);
      var q :| 0 <= q < |cs| && IdsOf(cs)[q] == ids[k];
    }
  }

  /** A split found for a row is a sound group. */
  lemma TrySplitSound(src: Side, tgt: Side, i: nat, cfg: Config)
    requires Valid(src) && Valid(tgt) && i < |src.rows|
    ensures var r := TrySplit(src, tgt, i, cfg);
      r.Some? ==> GroupOk(src.rows, tgt.rows, r.value, cfg)
  {
    if TrySplit(src, tgt, i, cfg).Some? {
      PickedCandidates(src, tgt, i, cfg);
    }
  }

  /** A source row that is unmatched, one-sided and dated, whose amount is not
      itself within the tolerance of zero, is split whenever one eligible
      unmatched target row alone covers it. */
  lemma TrySplitFindsSingle(src: Side, tgt: Side, i: nat, cfg: Config, j: nat)
    requires Valid(src) && Valid(tgt) && i < |src.rows|
    requires i in src.unmatched && Requirement(src.rows[i]).Some? && src.rows[i].date.Some?
    requires Requirement(src.rows[i]).value.0 >= cfg.MatchTolerance()
    requires j in tgt.unmatched
    requires Eligible(tgt.rows[j], Requirement(src.rows[i]).value.1, src.rows[i].date.value, cfg.SplitMatchDateRange())
    requires Near(AmountIn(tgt.rows[j], Requirement(src.rows[i]).value.1), Requirement(src.rows[i]).value.0, cfg.MatchTolerance())
    ensures TrySplit(src, tgt, i, cfg).Some?
  {
    var (req, col) := Requirement(src.rows[i]).value;
    var cs := CandidatesFor(src, tgt, i, cfg);
    var p := Pending(tgt);
    var q :| 0 <= q < |p| && p[q] == j;
    assert j in IdsOf(cs);
    var k :| 0 <= k < |cs| && IdsOf(cs)[k] == j;
    assert SingleFits(cs, k, req, cfg.MatchTolerance());
    SubsetSumNoneExactly(cs, req, cfg.MatchTolerance());
    SubsetSumSound(cs, req, cfg.MatchTolerance());
  }

  /** Writes "Split Transaction" on every row of `js`, appends them to the
      split list and takes them out of the unmatched set. */
  function MarkTargets(t: Side, js: seq<nat>): (r: Side)
    requires Valid(t) && Increasing(js)
    requires forall k :: 0 <= k < |js| ==> js[k] in t.unmatched
    ensures Valid(r)
    ensures Relabel(t, r, Members(js), SplitTransaction)
    ensures r.tally == t.tally.(split := t.tally.split + js)
    decreases |js|
  {
    if js == [] then t
    else
      var j := js[0];
      var t' := t.(remarks := t.remarks[j := SplitTransaction], unmatched := t.unmatched - {j},
                   tally := t.tally.(split := t.tally.split + [j]));
      assert forall k :: 1 <= k < |js| ==> js[0] < js[k];
      var r := MarkTargets(t', js[1..]);
      assert Members(js) == {j} + Members(js[1..]);
      assert js == [j] + js[1..];
      AppendAssoc(t.tally.split, [j], js[1..]);
      RelabelCompose(t, t', r, {j}, Members(js[1..]), SplitTransaction);
      r
  }

  /** Writes "Split Transaction" on the source row of `g`. */
  function MarkSource(s: Side, i: nat): (r: Side)
    requires Valid(s) && i in s.unmatched
    ensures Valid(r)
    ensures Relabel(s, r, {i}, SplitTransaction)
    ensures r.tally == s.tally.(split := s.tally.split + [i])
  {
    s.(remarks := s.remarks[i := SplitTransaction], unmatched := s.unmatched - {i},
       tally := s.tally.(split := s.tally.split + [i]))
  }

  /** The state after a split stage, with the groups in the order found. */
  datatype SplitRun = SplitRun(source: Side, target: Side, groups: seq<Group>)

  function Sources(gs: seq<Group>): set<nat> {
    set g | g in gs :: g.source
  }

  function Targets(gs: seq<Group>): set<nat> {
    set g, j | g in gs && j in g.targets :: j
  }

  /** The source rows in the order they were split. */
  function SourceRows(gs: seq<Group>): seq<nat> {
    if gs == [] then [] else [gs[0].source] + SourceRows(gs[1..])
  }

  /** The target rows in the order they were split. */
  function TargetRows(gs: seq<Group>): seq<nat> {
    if gs == [] then [] else gs[0].targets + TargetRows(gs[1..])
  }

  /** Visits the source rows of `order` one by one, splitting each that can be split. */
  function SplitLoop(src: Side, tgt: Side, order: seq<nat>, cfg: Config): (r: SplitRun)
    requires Valid(src) && Valid(tgt)
    requires forall k :: 0 <= k < |order| ==> order[k] < |src.rows|
    ensures Valid(r.source) && Valid(r.target)
    ensures Relabel(src, r.source, Sources(r.groups), SplitTransaction)
    decreases |order|
  {
    if order == [] then SplitRun(src, tgt, [])
    else
      match TrySplit(src, tgt, order[0], cfg)
      case None => SplitLoop(src, tgt, order[1..], cfg)
      case Some(g) =>
        var r := SplitLoop(MarkSource(src, g.source), MarkTargets(tgt, g.targets), order[1..], cfg);
        SourcesCons(g, r.groups);
        RelabelCompose(src, MarkSource(src, g.source), r.source, {g.source}, Sources(r.groups), SplitTransaction);
        SplitRun(r.source, r.target, [g] + r.groups)
  }

  lemma SourcesCons(g: Group, gs: seq<Group>)
    ensures Sources([g] + gs) == {g.source} + Sources(gs)
    ensures Targets([g] + gs) == Members(g.targets) + Targets(gs)
  {
  }

  /** The target side loses exactly the target rows of the groups found. */
  lemma {:induction false} SplitLoopRelabelsTargets(src: Side, tgt: Side, order: seq<nat>, cfg: Config)
    requires Valid(src) && Valid(tgt)
    requires forall k :: 0 <= k < |order| ==> order[k] < |src.rows|
    ensures var r := SplitLoop(src, tgt, order, cfg);
      Relabel(tgt, r.target, Targets(r.groups), SplitTransaction)
    decreases |order|
  {
    if order != [] {
      match TrySplit(src, tgt, order[0], cfg)
      case None =>
        SplitLoopRelabelsTargets(src, tgt, order[1..], cfg);
      case Some(g) =>
        var tgt' := MarkTargets(tgt, g.targets);
        var r := SplitLoop(MarkSource(src, g.source), tgt', order[1..], cfg);
        SplitLoopRelabelsTargets(MarkSource(src, g.source), tgt', order[1..], cfg);
        SourcesCons(g, r.groups);
        RelabelCompose(tgt, tgt', r.target, Members(g.targets), Targets(r.groups), SplitTransaction);
    }
  }

  /** Every group found is sound, its source row was unmatched and visited,
      and its target rows were unmatched when the stage began. */
  lemma {:induction false} SplitLoopGroupsOk(src: Side, tgt: Side, order: seq<nat>, cfg: Config)
    requires Valid(src) && Valid(tgt)
    requires forall k :: 0 <= k < |order| ==> order[k] < |src.rows|
    ensures forall g :: g in SplitLoop(src, tgt, order, cfg).groups ==>
      && GroupOk(src.rows, tgt.rows, g, cfg) && g.source in order
      && g.source in src.unmatched
      && forall k :: 0 <= k < |g.targets| ==> g.targets[k] in tgt.unmatched
    decreases |order|
  {
    if order != [] {
      match TrySplit(src, tgt, order[0], cfg)
      case None =>
        SplitLoopGroupsOk(src, tgt, order[1..], cfg);
      case Some(g) =>
        TrySplitSound(src, tgt, order[0], cfg);
        var src' := MarkSource(src, g.source);
        var tgt' := MarkTargets(tgt, g.targets);
        SplitLoopGroupsOk(src', tgt', order[1..], cfg);
        GroupsOkStep(src, src', tgt, tgt', g, SplitLoop(src', tgt', order[1..], cfg).groups, order, cfg);
    }
  }

  /** A group found from the ledgers `src` and `tgt` with its source in `order`. */
  ghost predicate FoundIn(src: Side, tgt: Side, order: seq<nat>, cfg: Config, g: Group) {
    && GroupOk(src.rows, tgt.rows, g, cfg) && g.source in order
    && g.source in src.unmatched
    && forall k :: 0 <= k < |g.targets| ==> g.targets[k] in tgt.unmatched
  }

  /** The groups found after the first split, from the ledgers marked by it,
      were found from the unmarked ledgers too. */
  lemma GroupsOkStep(src: Side, src': Side, tgt: Side, tgt': Side, g0: Group, rest: seq<Group>, order: seq<nat>, cfg: Config)
    requires order != [] && FoundIn(src, tgt, order[..1], cfg, g0)
    requires src'.rows == src.rows && src'.unmatched <= src.unmatched
    requires tgt'.rows == tgt.rows && tgt'.unmatched <= tgt.unmatched
    requires forall g :: g in rest ==> FoundIn(src', tgt', order[1..], cfg, g)
    ensures forall g :: g in [g0] + rest ==> FoundIn(src, tgt, order, cfg, g)
  {
    assert order == order[..1] + order[1..];
  }

  /** No target row belongs to two groups. */
  ghost predicate TargetsDisjoint(gs: seq<Group>) {
    forall a, b, x :: 0 <= a < b < |gs| && x in gs[a].targets ==> x !in gs[b].targets
  }

  /** Groups come out in visiting order of their source rows. */
  lemma {:induction false} SplitLoopInOrder(src: Side, tgt: Side, order: seq<nat>, cfg: Config)
    requires Valid(src) && Valid(tgt)
    requires forall k :: 0 <= k < |order| ==> order[k] < |src.rows|
    requires Increasing(order)
    ensures Increasing(SourceRows(SplitLoop(src, tgt, order, cfg).groups))
    decreases |order|
  {
    if order != [] {
      match TrySplit(src, tgt, order[0], cfg)
      case None =>
        SplitLoopInOrder(src, tgt, order[1..], cfg);
      case Some(g) =>
        var src', tgt' := MarkSource(src, g.source), MarkTargets(tgt, g.targets);
        var rest := SplitLoop(src', tgt', order[1..], cfg).groups;
        SplitLoopInOrder(src', tgt', order[1..], cfg);
        SplitLoopGroupsOk(src', tgt', order[1..], cfg);
        LaterSourcesAbove(order, rest);
        IncreasingPrepend(g.source, SourceRows(rest));
        assert SourceRows([g] + rest) == [g.source] + SourceRows(rest);
    }
  }

  /** Groups whose sources come from the rest of an increasing visiting
      order have sources above its first row. */
  lemma LaterSourcesAbove(order: seq<nat>, rest: seq<Group>)
    requires order != [] && Increasing(order)
    requires forall h :: h in rest ==> h.source in order[1..]
    ensures forall y :: y in SourceRows(rest) ==> order[0] < y
  {
    SourceRowsMembers(rest);
    forall y | y in SourceRows(rest) ensures order[0] < y {
      var h :| h in rest && h.source == y;
      var k :| 0 <= k < |order| - 1 && order[1..][k] == y;
      assert order[k + 1] == y;
    }
  }

  /** No target row is used by two groups. */
  lemma {:induction false} SplitLoopDisjoint(src: Side, tgt: Side, order: seq<nat>, cfg: Config)
    requires Valid(src) && Valid(tgt)
    requires forall k :: 0 <= k < |order| ==> order[k] < |src.rows|
    ensures TargetsDisjoint(SplitLoop(src, tgt, order, cfg).groups)
    decreases |order|
  {
    if order != [] {
      match TrySplit(src, tgt, order[0], cfg)
      case None =>
        SplitLoopDisjoint(src, tgt, order[1..], cfg);
      case Some(g) =>
        var src', tgt' := MarkSource(src, g.source), MarkTargets(tgt, g.targets);
        var rest := SplitLoop(src', tgt', order[1..], cfg).groups;
        SplitLoopDisjoint(src', tgt', order[1..], cfg);
        SplitLoopGroupsOk(src', tgt', order[1..], cfg);
        NoLaterGroupUses(g, rest, tgt');
    }
  }

  /** Prepending a group whose targets are outside the set every later
      target comes from keeps the targets disjoint. */
  lemma NoLaterGroupUses(g: Group, rest: seq<Group>, t: Side)
    requires TargetsDisjoint(rest)
    requires forall k :: 0 <= k < |g.targets| ==> g.targets[k] !in t.unmatched
    requires forall h :: h in rest ==> forall k :: 0 <= k < |h.targets| ==> h.targets[k] in t.unmatched
    ensures TargetsDisjoint([g] + rest)
  {
    var gs := [g] + rest;
    forall a, b, x | 0 <= a < b < |gs| && x in gs[a].targets ensures x !in gs[b].targets {
      if a == 0 {
        assert gs[b] == rest[b - 1] && rest[b - 1] in rest;
      } else {
        assert gs[a] == rest[a - 1] && gs[b] == rest[b - 1];
      }
    }
  }

  lemma {:induction false} SourceRowsMembers(gs: seq<Group>)
    ensures forall y :: y in SourceRows(gs) ==> exists h :: h in gs && h.source == y
    decreases |gs|
  {
    if gs != [] {
      SourceRowsMembers(gs[1..]);
      assert forall h :: h in gs[1..] ==> h in gs;
    }
  }

  /** Groups with distinct sources and disjoint, repeat-free targets list
      each row at most once, and list exactly the rows they use. */
  lemma {:induction false} SplitRowsDistinct(gs: seq<Group>)
    requires Distinct(SourceRows(gs)) && TargetsDisjoint(gs)
    requires forall g :: g in gs ==> Increasing(g.targets)
    ensures Members(SourceRows(gs)) == Sources(gs)
    ensures Distinct(TargetRows(gs)) && Members(TargetRows(gs)) == Targets(gs)
    decreases |gs|
  {
    if gs != [] {
      var g, rest := gs[0], gs[1..];
      assert gs == [g] + rest;
      var srcs := SourceRows(gs);
      assert srcs == [g.source] + SourceRows(rest);
      DistinctHead(srcs);
      assert srcs[1..] == SourceRows(rest);
      assert TargetsDisjoint(rest) by {
        forall a, b, x | 0 <= a < b < |rest| && x in rest[a].targets ensures x !in rest[b].targets {
          assert rest[a] == gs[a + 1] && rest[b] == gs[b + 1];
        }
      }
      assert forall h :: h in rest ==> h in gs;
      SplitRowsDistinct(rest);
      SourcesCons(g, rest);
      DistinctAppend([g.source], SourceRows(rest));
      assert Members(g.targets) !! Targets(rest) by {
        forall x | x in g.targets ensures x !in Targets(rest) {
          forall h | h in rest ensures x !in h.targets {
            var b :| 0 <= b < |rest| && rest[b] == h;
            assert gs[b + 1] == h;
          }
        }
      }
      assert Distinct(g.targets);
      DistinctAppend(g.targets, TargetRows(rest));
    }
  }

  /** The source rows are appended to the source split list and the target
      rows to the target split list, group by group. */
  lemma {:induction false} SplitLoopRecords(src: Side, tgt: Side, order: seq<nat>, cfg: Config)
    requires Valid(src) && Valid(tgt)
    requires forall k :: 0 <= k < |order| ==> order[k] < |src.rows|
    ensures var r := SplitLoop(src, tgt, order, cfg);
      && r.source.tally == src.tally.(split := src.tally.split + SourceRows(r.groups))
      && r.target.tally == tgt.tally.(split := tgt.tally.split + TargetRows(r.groups))
    decreases |order|
  {
    if order != [] {
      match TrySplit(src, tgt, order[0], cfg)
      case None =>
        SplitLoopRecords(src, tgt, order[1..], cfg);
      case Some(g) =>
        var src', tgt' := MarkSource(src, g.source), MarkTargets(tgt, g.targets);
        var rest := SplitLoop(src', tgt', order[1..], cfg).groups;
        SplitLoopRecords(src', tgt', order[1..], cfg);
        assert SourceRows([g] + rest) == [g.source] + SourceRows(rest);
        assert TargetRows([g] + rest) == g.targets + TargetRows(rest);
        AppendAssoc(src.tally.split, [g.source], SourceRows(rest));
        AppendAssoc(tgt.tally.split, g.targets, TargetRows(rest));
    }
  }

  /** `find_split_transactions` from `src` to `tgt`: every unmatched source
      row, in ascending order, against the target rows still unmatched at
      its turn. */
  function FindSplitTransactions(src: Side, tgt: Side, cfg: Config): (r: SplitRun)
    requires Valid(src) && Valid(tgt)
    ensures !cfg.SplitEnabled() ==> r == SplitRun(src, tgt, [])
    ensures Valid(r.source) && Valid(r.target)
    ensures Relabel(src, r.source, Sources(r.groups), SplitTransaction)
    ensures Relabel(tgt, r.target, Targets(r.groups), SplitTransaction)
  {
    if !cfg.SplitEnabled() then SplitRun(src, tgt, [])
    else
      SplitLoopRelabelsTargets(src, tgt, Pending(src), cfg);
      SplitLoop(src, tgt, Pending(src), cfg)
  }

  /** Every split found is sound: the source row was unmatched, one-sided and
      dated, and the target rows were unmatched, eligible, distinct, and
      cover the source amount within the match tolerance. */
  lemma SplitGroupsSound(src: Side, tgt: Side, cfg: Config)
    requires Valid(src) && Valid(tgt)
    ensures forall g :: g in FindSplitTransactions(src, tgt, cfg).groups ==>
      && GroupOk(src.rows, tgt.rows, g, cfg) && g.source in src.unmatched
      && forall k :: 0 <= k < |g.targets| ==> g.targets[k] in tgt.unmatched
  {
    if cfg.SplitEnabled() {
      SplitLoopGroupsOk(src, tgt, Pending(src), cfg);
    }
  }

  /** The groups of a split stage come out by ascending source row, use no
      target row twice, and are appended to the two split lists. */
  lemma SplitStageRecords(src: Side, tgt: Side, cfg: Config)
    requires Valid(src) && Valid(tgt)
    ensures var r := FindSplitTransactions(src, tgt, cfg);
      && Increasing(SourceRows(r.groups)) && TargetsDisjoint(r.groups)
      && r.source.tally == src.tally.(split := src.tally.split + SourceRows(r.groups))
      && r.target.tally == tgt.tally.(split := tgt.tally.split + TargetRows(r.groups))
  {
    if cfg.SplitEnabled() {
      SplitLoopInOrder(src, tgt, Pending(src), cfg);
      SplitLoopDisjoint(src, tgt, Pending(src), cfg);
      SplitLoopRecords(src, tgt, Pending(src), cfg);
    }
  }

  /** The target rows taken by the groups whose source row comes before row `i`. */
  function TakenBefore(gs: seq<Group>, i: nat): set<nat> {
    set g, j | g in gs && g.source < i && j in g.targets :: j
  }

  /** The target ledger as source row `i` finds it during the stage: the
      rows taken by the groups of earlier source rows are no longer unmatched. */
  function TurnOf(tgt: Side, gs: seq<Group>, i: nat): (r: Side)
    requires Valid(tgt)
    ensures Valid(r) && r.rows == tgt.rows
  {
    tgt.(unmatched := tgt.unmatched - TakenBefore(gs, i))
  }

  /** The search for a row reads only the rows, whether the row itself is
      still unmatched, and which target rows are. */
  lemma TrySplitFrame(s1: Side, s2: Side, t1: Side, t2: Side, i: nat, cfg: Config)
    requires Valid(s1) && Valid(s2) && Valid(t1) && Valid(t2) && i < |s1.rows|
    requires s1.rows == s2.rows && (i in s1.unmatched <==> i in s2.unmatched)
    requires t1.rows == t2.rows && t1.unmatched == t2.unmatched
    ensures TrySplit(s1, t1, i, cfg) == TrySplit(s2, t2, i, cfg)
  {
    assert Pending(t1) == Pending(t2);
  }

  /** Before any group of `gs` has its turn, row `x` sees the target ledger
      as the stage began. */
  lemma TurnFirst(src: Side, tgt: Side, gs: seq<Group>, x: nat, cfg: Config)
    requires Valid(src) && Valid(tgt) && x < |src.rows|
    requires forall h :: h in gs ==> x <= h.source
    ensures TrySplit(src, TurnOf(tgt, gs, x), x, cfg) == TrySplit(src, tgt, x, cfg)
  {
    assert TakenBefore(gs, x) == {};
    TrySplitFrame(src, src, TurnOf(tgt, gs, x), tgt, x, cfg);
  }

  /** After the split of an earlier row `g0.source`, a later row `x` sees
      the same target rows whether the marking is done on the ledgers or
      read off the group list. */
  lemma TurnAfter(src: Side, src': Side, tgt: Side, tgt': Side, g0: Group, rest: seq<Group>, x: nat, cfg: Config)
    requires Valid(src) && Valid(src') && Valid(tgt) && Valid(tgt') && x < |src.rows|
    requires src'.rows == src.rows && tgt'.rows == tgt.rows && g0.source < x
    requires src'.unmatched == src.unmatched - {g0.source}
    requires tgt'.unmatched == tgt.unmatched - Members(g0.targets)
    ensures TrySplit(src', TurnOf(tgt', rest, x), x, cfg) == TrySplit(src, TurnOf(tgt, [g0] + rest, x), x, cfg)
  {
    assert TakenBefore([g0] + rest, x) == Members(g0.targets) + TakenBefore(rest, x);
    TrySplitFrame(src', src, TurnOf(tgt', rest, x), TurnOf(tgt, [g0] + rest, x), x, cfg);
  }

  /** Every group of `gs` is what the search gives its source row against
      the target rows left by the groups of earlier source rows, and every
      row of `order` that is no source gets no split at its turn. */
  ghost predicate TurnsAgree(src: Side, tgt: Side, gs: seq<Group>, order: seq<nat>, cfg: Config)
    requires Valid(src) && Valid(tgt)
  {
    && (forall g :: g in gs ==>
          g.source < |src.rows| && TrySplit(src, TurnOf(tgt, gs, g.source), g.source, cfg) == Some(g))
    && (forall k :: 0 <= k < |order| && order[k] < |src.rows| && order[k] !in Sources(gs) ==>
          TrySplit(src, TurnOf(tgt, gs, order[k]), order[k], cfg).None?)
  }

  /** In an increasing list, every member of the tail lies above the head. */
  lemma HeadBelow(order: seq<nat>, gs: seq<Group>)
    requires order != [] && Increasing(order)
    requires forall h :: h in gs ==> h.source in order[1..]
    ensures forall h :: h in gs ==> order[0] < h.source
  {
    forall h | h in gs ensures order[0] < h.source {
      var m :| 0 <= m < |order[1..]| && order[1..][m] == h.source;
      assert order[m + 1] == h.source;
    }
  }

  /** The loop step that splits nothing keeps the agreement. */
  lemma TurnsSkip(src: Side, tgt: Side, gs: seq<Group>, order: seq<nat>, cfg: Config)
    requires Valid(src) && Valid(tgt)
    requires order != [] && forall k :: 0 <= k < |order| ==> order[k] < |src.rows|
    requires Increasing(order)
    requires TrySplit(src, tgt, order[0], cfg).None?
    requires forall h :: h in gs ==> h.source in order[1..]
    requires TurnsAgree(src, tgt, gs, order[1..], cfg)
    ensures TurnsAgree(src, tgt, gs, order, cfg)
  {
    HeadBelow(order, gs);
    TurnFirst(src, tgt, gs, order[0], cfg);
    forall k | 1 <= k < |order| && order[k] !in Sources(gs)
      ensures TrySplit(src, TurnOf(tgt, gs, order[k]), order[k], cfg).None?
    {
      assert order[k] == order[1..][k - 1];
    }
  }

  /** The loop step that splits its row `order[0]` into `g0` keeps the
      agreement, with the ledgers `src'` and `tgt'` marked after the split. */
  lemma TurnsTake(src: Side, src': Side, tgt: Side, tgt': Side, g0: Group, rest: seq<Group>, order: seq<nat>, cfg: Config)
    requires Valid(src) && Valid(src') && Valid(tgt) && Valid(tgt')
    requires order != [] && forall k :: 0 <= k < |order| ==> order[k] < |src.rows|
    requires Increasing(order)
    requires TrySplit(src, tgt, order[0], cfg) == Some(g0)
    requires src'.rows == src.rows && src'.unmatched == src.unmatched - {g0.source}
    requires tgt'.rows == tgt.rows && tgt'.unmatched == tgt.unmatched - Members(g0.targets)
    requires forall h :: h in rest ==> h.source in order[1..]
    requires TurnsAgree(src', tgt', rest, order[1..], cfg)
    ensures TurnsAgree(src, tgt, [g0] + rest, order, cfg)
  {
    var gs := [g0] + rest;
    HeadBelow(order, rest);
    SourcesCons(g0, rest);
    TurnFirst(src, tgt, gs, order[0], cfg);
    forall g | g in rest
      ensures TrySplit(src, TurnOf(tgt, gs, g.source), g.source, cfg) == Some(g)
    {
      TurnAfter(src, src', tgt, tgt', g0, rest, g.source, cfg);
    }
    forall k | 1 <= k < |order| && order[k] !in Sources(gs)
      ensures TrySplit(src, TurnOf(tgt, gs, order[k]), order[k], cfg).None?
    {
      assert order[k] == order[1..][k - 1];
      TurnAfter(src, src', tgt, tgt', g0, rest, order[k], cfg);
    }
  }

  /** The source row of every group is a visited row. */
  lemma SourcesVisited(src: Side, tgt: Side, order: seq<nat>, cfg: Config)
    requires Valid(src) && Valid(tgt)
    requires forall k :: 0 <= k < |order| ==> order[k] < |src.rows|
    ensures forall g :: g in SplitLoop(src, tgt, order, cfg).groups ==> g.source in order
  {
    SplitLoopGroupsOk(src, tgt, order, cfg);
  }

  /** The loop, stated without the loop: its groups agree with the search
      run at each visited row's turn. */
  lemma {:induction false} SplitLoopTurns(src: Side, tgt: Side, order: seq<nat>, cfg: Config)
    requires Valid(src) && Valid(tgt)
    requires forall k :: 0 <= k < |order| ==> order[k] < |src.rows|
    requires Increasing(order)
    ensures TurnsAgree(src, tgt, SplitLoop(src, tgt, order, cfg).groups, order, cfg)
    decreases |order|
  {
    if order != [] {
      match TrySplit(src, tgt, order[0], cfg)
      case None =>
        var rest := SplitLoop(src, tgt, order[1..], cfg).groups;
        SplitLoopTurns(src, tgt, order[1..], cfg);
        SourcesVisited(src, tgt, order[1..], cfg);
        TurnsSkip(src, tgt, rest, order, cfg);
      case Some(g0) =>
        var src' := MarkSource(src, g0.source);
        var tgt' := MarkTargets(tgt, g0.targets);
        var rest := SplitLoop(src', tgt', order[1..], cfg).groups;
        SplitLoopTurns(src', tgt', order[1..], cfg);
        SourcesVisited(src', tgt', order[1..], cfg);
        TurnsTake(src, src', tgt, tgt', g0, rest, order, cfg);
    }
  }

  /** The stage decided row by row: every group is the search's answer for
      its source row against the target rows the groups of earlier source
      rows left unmatched, and every other unmatched source row of an
      enabled stage found no split at its turn. With the ascending order of
      the sources this fixes the groups completely. */
  lemma SplitGreedy(src: Side, tgt: Side, cfg: Config)
    requires Valid(src) && Valid(tgt)
    ensures var r := FindSplitTransactions(src, tgt, cfg);
      && (forall g :: g in r.groups ==>
            g.source < |src.rows| && TrySplit(src, TurnOf(tgt, r.groups, g.source), g.source, cfg) == Some(g))
      && (cfg.SplitEnabled() ==> forall i :: i in src.unmatched && i !in Sources(r.groups) ==>
            TrySplit(src, TurnOf(tgt, r.groups, i), i, cfg).None?)
  {
    if cfg.SplitEnabled() {
      var order := Pending(src);
      SplitLoopTurns(src, tgt, order, cfg);
      forall i | i in src.unmatched && i !in Sources(SplitLoop(src, tgt, order, cfg).groups)
        ensures TrySplit(src, TurnOf(tgt, SplitLoop(src, tgt, order, cfg).groups, i), i, cfg).None?
      {
        var k :| 0 <= k < |order| && order[k] == i;
      }
    }
  }

  /** Source row `t` is one-sided and dated, and its amount is not itself
      within the tolerance of zero: the rows the subset search can cover. */
  predicate Coverable(t: Txn, cfg: Config) {
    Requirement(t).Some? && t.date.Some? && Requirement(t).value.0 >= cfg.MatchTolerance()
  }

  /** No unmatched eligible row of `tgt` covers the coverable row `t` on its own. */
  ghost predicate NoSingleCover(t: Txn, tgt: Side, cfg: Config)
    requires Valid(tgt) && Coverable(t, cfg)
  {
    var (req, col) := Requirement(t).value;
    forall j :: j in tgt.unmatched && Eligible(tgt.rows[j], col, t.date.value, cfg.SplitMatchDateRange()) ==>
      !Near(AmountIn(tgt.rows[j], col), req, cfg.MatchTolerance())
  }

  /** No two distinct unmatched eligible rows of `tgt` cover the coverable
      row `t` together. */
  ghost predicate NoPairCover(t: Txn, tgt: Side, cfg: Config)
    requires Valid(tgt) && Coverable(t, cfg)
  {
    var (req, col) := Requirement(t).value;
    forall j1, j2 ::
      (&& j1 in tgt.unmatched && j2 in tgt.unmatched && j1 != j2
       && Eligible(tgt.rows[j1], col, t.date.value, cfg.SplitMatchDateRange())
       && Eligible(tgt.rows[j2], col, t.date.value, cfg.SplitMatchDateRange())) ==>
      !Near(AmountIn(tgt.rows[j1], col) + AmountIn(tgt.rows[j2], col), req, cfg.MatchTolerance())
  }

  /** No unmatched eligible row of `tgt` covers row `t` on its own, and no
      two distinct ones cover it together. A row that is not one-sided, is
      undated, or whose amount is itself within the tolerance of zero is
      not constrained. */
  ghost predicate NoSmallCover(t: Txn, tgt: Side, cfg: Config)
    requires Valid(tgt)
  {
    Coverable(t, cfg) ==> NoSingleCover(t, tgt, cfg) && NoPairCover(t, tgt, cfg)
  }

  /** Where an unmatched target row sits among the candidates of row `i`. */
  lemma CandidateIndex(src: Side, tgt: Side, i: nat, cfg: Config, j: nat) returns (k: nat)
    requires Valid(src) && Valid(tgt) && i < |src.rows|
    requires Requirement(src.rows[i]).Some? && src.rows[i].date.Some?
    requires j in tgt.unmatched
    requires Eligible(tgt.rows[j], Requirement(src.rows[i]).value.1, src.rows[i].date.value, cfg.SplitMatchDateRange())
    ensures var cs := CandidatesFor(src, tgt, i, cfg);
      k < |cs| && cs[k].id == j && cs[k].value == AmountIn(tgt.rows[j], Requirement(src.rows[i]).value.1)
  {
    var cs := CandidatesFor(src, tgt, i, cfg);
    var p := Pending(tgt);
    var q :| 0 <= q < |p| && p[q] == j;
    assert j in IdsOf(cs);
    k :| 0 <= k < |cs| && IdsOf(cs)[k] == j;
  }

  /** Row `i` as in `TrySplitFindsSingle` is split whenever two distinct
      eligible unmatched target rows cover it together. */
  lemma TrySplitFindsPair(src: Side, tgt: Side, i: nat, cfg: Config, j1: nat, j2: nat)
    requires Valid(src) && Valid(tgt) && i < |src.rows|
    requires i in src.unmatched && Requirement(src.rows[i]).Some? && src.rows[i].date.Some?
    requires Requirement(src.rows[i]).value.0 >= cfg.MatchTolerance()
    requires j1 in tgt.unmatched && j2 in tgt.unmatched && j1 != j2
    requires Eligible(tgt.rows[j1], Requirement(src.rows[i]).value.1, src.rows[i].date.value, cfg.SplitMatchDateRange())
    requires Eligible(tgt.rows[j2], Requirement(src.rows[i]).value.1, src.rows[i].date.value, cfg.SplitMatchDateRange())
    requires Near(AmountIn(tgt.rows[j1], Requirement(src.rows[i]).value.1) + AmountIn(tgt.rows[j2], Requirement(src.rows[i]).value.1),
                  Requirement(src.rows[i]).value.0, cfg.MatchTolerance())
    ensures TrySplit(src, tgt, i, cfg).Some?
  {
    var (req, col) := Requirement(src.rows[i]).value;
    var cs := CandidatesFor(src, tgt, i, cfg);
    var k1 := CandidateIndex(src, tgt, i, cfg, j1);
    var k2 := CandidateIndex(src, tgt, i, cfg, j2);
    if k1 < k2 {
      assert PairFits(cs, k1, k2, req, cfg.MatchTolerance());
    } else {
      assert PairFits(cs, k2, k1, req, cfg.MatchTolerance());
    }
    SubsetSumNoneExactly(cs, req, cfg.MatchTolerance());
    SubsetSumSound(cs, req, cfg.MatchTolerance());
  }

  /** A row the search left unsplit against `tgt` is not covered by one
      eligible unmatched target row `j`. */
  lemma NotCoveredBySingle(src: Side, tgt: Side, i: nat, cfg: Config, j: nat)
    requires Valid(src) && Valid(tgt) && i < |src.rows| && i in src.unmatched
    requires TrySplit(src, tgt, i, cfg).None?
    requires Requirement(src.rows[i]).Some? && src.rows[i].date.Some?
    requires Requirement(src.rows[i]).value.0 >= cfg.MatchTolerance()
    requires j in tgt.unmatched
    requires Eligible(tgt.rows[j], Requirement(src.rows[i]).value.1, src.rows[i].date.value, cfg.SplitMatchDateRange())
    ensures !Near(AmountIn(tgt.rows[j], Requirement(src.rows[i]).value.1), Requirement(src.rows[i]).value.0, cfg.MatchTolerance())
  {
    if Near(AmountIn(tgt.rows[j], Requirement(src.rows[i]).value.1), Requirement(src.rows[i]).value.0, cfg.MatchTolerance()) {
      TrySplitFindsSingle(src, tgt, i, cfg, j);
    }
  }

  /** A row the search left unsplit against `tgt` is not covered by two
      distinct eligible unmatched target rows `j1` and `j2`. */
  lemma NotCoveredByPair(src: Side, tgt: Side, i: nat, cfg: Config, j1: nat, j2: nat)
    requires Valid(src) && Valid(tgt) && i < |src.rows| && i in src.unmatched
    requires TrySplit(src, tgt, i, cfg).None?
    requires Requirement(src.rows[i]).Some? && src.rows[i].date.Some?
    requires Requirement(src.rows[i]).value.0 >= cfg.MatchTolerance()
    requires j1 in tgt.unmatched && j2 in tgt.unmatched && j1 != j2
    requires Eligible(tgt.rows[j1], Requirement(src.rows[i]).value.1, src.rows[i].date.value, cfg.SplitMatchDateRange())
    requires Eligible(tgt.rows[j2], Requirement(src.rows[i]).value.1, src.rows[i].date.value, cfg.SplitMatchDateRange())
    ensures !Near(AmountIn(tgt.rows[j1], Requirement(src.rows[i]).value.1) + AmountIn(tgt.rows[j2], Requirement(src.rows[i]).value.1),
                  Requirement(src.rows[i]).value.0, cfg.MatchTolerance())
  {
    if Near(AmountIn(tgt.rows[j1], Requirement(src.rows[i]).value.1) + AmountIn(tgt.rows[j2], Requirement(src.rows[i]).value.1),
            Requirement(src.rows[i]).value.0, cfg.MatchTolerance()) {
      TrySplitFindsPair(src, tgt, i, cfg, j1, j2);
    }
  }

  /** A row the search left unsplit against `tgt` has no single cover among
      the rows of `tgt`, nor among any subset of them. */
  lemma NoneMeansNoSingleCover(src: Side, tgt: Side, i: nat, cfg: Config, u: Side)
    requires Valid(src) && Valid(tgt) && Valid(u) && i < |src.rows| && i in src.unmatched
    requires TrySplit(src, tgt, i, cfg).None? && Coverable(src.rows[i], cfg)
    requires u.rows == tgt.rows && u.unmatched <= tgt.unmatched
    ensures NoSingleCover(src.rows[i], u, cfg)
  {
    var t := src.rows[i];
    forall j | j in u.unmatched && Eligible(u.rows[j], Requirement(t).value.1, t.date.value, cfg.SplitMatchDateRange())
      ensures !Near(AmountIn(u.rows[j], Requirement(t).value.1), Requirement(t).value.0, cfg.MatchTolerance())
    {
      NotCoveredBySingle(src, tgt, i, cfg, j);
    }
  }

  /** A row the search left unsplit against `tgt` has no pair cover among
      the rows of `tgt`, nor among any subset of them. */
  lemma NoneMeansNoPairCover(src: Side, tgt: Side, i: nat, cfg: Config, u: Side)
    requires Valid(src) && Valid(tgt) && Valid(u) && i < |src.rows| && i in src.unmatched
    requires TrySplit(src, tgt, i, cfg).None? && Coverable(src.rows[i], cfg)
    requires u.rows == tgt.rows && u.unmatched <= tgt.unmatched
    ensures NoPairCover(src.rows[i], u, cfg)
  {
    var t := src.rows[i];
    forall j1, j2 | j1 in u.unmatched && j2 in u.unmatched && j1 != j2 &&
        Eligible(u.rows[j1], Requirement(t).value.1, t.date.value, cfg.SplitMatchDateRange()) &&
        Eligible(u.rows[j2], Requirement(t).value.1, t.date.value, cfg.SplitMatchDateRange())
      ensures !Near(AmountIn(u.rows[j1], Requirement(t).value.1) + AmountIn(u.rows[j2], Requirement(t).value.1),
                    Requirement(t).value.0, cfg.MatchTolerance())
    {
      NotCoveredByPair(src, tgt, i, cfg, j1, j2);
    }
  }

  /** A row the search left unsplit against `tgt` has no small cover among
      the rows of `tgt`, nor among any subset of them. */
  lemma NoneMeansNoSmallCover(src: Side, tgt: Side, i: nat, cfg: Config, u: Side)
    requires Valid(src) && Valid(tgt) && Valid(u) && i < |src.rows| && i in src.unmatched
    requires TrySplit(src, tgt, i, cfg).None?
    requires u.rows == tgt.rows && u.unmatched <= tgt.unmatched
    ensures NoSmallCover(src.rows[i], u, cfg)
  {
    if Coverable(src.rows[i], cfg) {
      NoneMeansNoSingleCover(src, tgt, i, cfg, u);
      NoneMeansNoPairCover(src, tgt, i, cfg, u);
    }
  }

  /** After an enabled stage, no source row left unmatched has a small cover
      among the target rows left unmatched: a single eligible row or two
      distinct ones that reach its amount would have been found at its turn,
      since the target rows left at the end were all free then. */
  lemma SplitMaximal(src: Side, tgt: Side, cfg: Config)
    requires Valid(src) && Valid(tgt)
    ensures var r := FindSplitTransactions(src, tgt, cfg);
      cfg.SplitEnabled() ==> forall i :: i in r.source.unmatched ==>
        i < |src.rows| && NoSmallCover(src.rows[i], r.target, cfg)
  {
    var r := FindSplitTransactions(src, tgt, cfg);
    if cfg.SplitEnabled() {
      SplitGreedy(src, tgt, cfg);
      forall i | i in r.source.unmatched
        ensures i < |src.rows| && NoSmallCover(src.rows[i], r.target, cfg)
      {
        var turn := TurnOf(tgt, r.groups, i);
        assert TakenBefore(r.groups, i) <= Targets(r.groups);
        NoneMeansNoSmallCover(src, turn, i, cfg, r.target);
      }
    }
  }
}
