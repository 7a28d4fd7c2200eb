/** How the row lists the report counts relate to the remarks: from the
    first stage to the labelling of the leftovers, every list names exactly
    the rows that carry its remark, and the matched, fuzzy, split and
    returned lists name each of those rows once. The rounding list may name
    a first-ledger row several times, one entry per match. */
module Accounting {
  import opened Records
  import Greedy
  import PairMatchers
  import SplitMatcher
  import RoundingMatcher
  import ReturnedMatcher
  import Reconciler

  /** The rows whose remark is `m`. */
  ghost function Labelled(s: Side, m: Remark): set<nat> {
    set k: nat | k < |s.remarks| && s.remarks[k] == m
  }

  /** The rows whose remark is a rounding remark, whatever its two amounts. */
  ghost function RoundingRows(s: Side): set<nat> {
    set k: nat | k < |s.remarks| && s.remarks[k].RoundingError?
  }

  /** Each row list names exactly the rows with its remark; all lists but the
      rounding one name each row once. */
  ghost predicate Accounted(s: Side) {
    && Members(s.tally.matched) == Labelled(s, Matched) && Distinct(s.tally.matched)
    && Members(s.tally.fuzzy) == Labelled(s, MatchedCheckDate) && Distinct(s.tally.fuzzy)
    && Members(s.tally.split) == Labelled(s, SplitTransaction) && Distinct(s.tally.split)
    && Members(s.tally.returned) == Labelled(s, ReturnedTransaction) && Distinct(s.tally.returned)
    && Members(s.tally.rounding) == RoundingRows(s)
  }

  /** `t` with `rows` appended to the list that remark `tag` names. */
  function File(t: Tally, tag: Remark, rows: seq<nat>): Tally {
    match tag
    case Matched => t.(matched := t.matched + rows)
    case MatchedCheckDate => t.(fuzzy := t.fuzzy + rows)
    case SplitTransaction => t.(split := t.split + rows)
    case ReturnedTransaction => t.(returned := t.returned + rows)
    case RoundingError(_, _) => t.(rounding := t.rounding + rows)
    case _ => t
  }

  /** A ledger before the first stage, every remark empty and every list
      empty, is accounted for. */
  lemma FreshAccounted(s: Side)
    requires forall k :: 0 <= k < |s.remarks| ==> s.remarks[k] == Blank
    requires s.tally == EmptyTally
    ensures Accounted(s)
  {
    assert Members([]) == {};
  }

  /** Relabelling unmatched rows, whose remarks are still empty, adds them to
      the rows of the new remark and leaves the rows of every other remark. */
  lemma RelabelLabelled(a: Side, b: Side, removed: set<nat>, tag: Remark, m: Remark)
    requires Synced(a) && Relabel(a, b, removed, tag) && m != Blank
    ensures Labelled(a, m) !! removed
    ensures Labelled(b, m) == if m == tag then Labelled(a, m) + removed else Labelled(a, m)
  {
  }

  lemma RelabelRoundingRows(a: Side, b: Side, removed: set<nat>, tag: Remark)
    requires Synced(a) && Relabel(a, b, removed, tag) && !tag.RoundingError?
    ensures RoundingRows(b) == RoundingRows(a)
  {
  }

  /** One list gaining the rows newly given its remark. */
  lemma ListGains(before: seq<nat>, la: set<nat>, lb: set<nat>, removed: set<nat>, added: seq<nat>)
    requires Members(before) == la && Distinct(before) && la !! removed && lb == la + removed
    requires Members(added) == removed && Distinct(added)
    ensures Members(before + added) == lb && Distinct(before + added)
  {
    DistinctAppend(before, added);
  }

  /** A stage that relabels unmatched rows with `tag` and files exactly
      those rows, once each, in the list of `tag` keeps the ledger accounted
      for. */
  lemma AccountedRelabel(a: Side, b: Side, removed: set<nat>, tag: Remark, added: seq<nat>)
    requires Synced(a) && Accounted(a) && Relabel(a, b, removed, tag)
    requires tag == Matched || tag == MatchedCheckDate || tag == SplitTransaction || tag == ReturnedTransaction
    requires Members(added) == removed && Distinct(added)
    requires b.tally == File(a.tally, tag, added)
    ensures Accounted(b)
  {
    RelabelLabelled(a, b, removed, tag, Matched);
    RelabelLabelled(a, b, removed, tag, MatchedCheckDate);
    RelabelLabelled(a, b, removed, tag, SplitTransaction);
    RelabelLabelled(a, b, removed, tag, ReturnedTransaction);
    RelabelRoundingRows(a, b, removed, tag);
    match tag
    case Matched =>
      ListGains(a.tally.matched, Labelled(a, tag), Labelled(b, tag), removed, added);
    case MatchedCheckDate =>
      ListGains(a.tally.fuzzy, Labelled(a, tag), Labelled(b, tag), removed, added);
    case SplitTransaction =>
      ListGains(a.tally.split, Labelled(a, tag), Labelled(b, tag), removed, added);
    case ReturnedTransaction =>
      ListGains(a.tally.returned, Labelled(a, tag), Labelled(b, tag), removed, added);
  }

  /** Rows taken out of the unmatched set with rounding remarks, and filed
      in the rounding list, keep the ledger accounted for. */
  lemma AccountedRounding(a: Side, b: Side, removed: set<nat>, added: seq<nat>)
    requires Synced(a) && Accounted(a) && RoundingMatcher.Overwrites(a, b, removed) && removed <= a.unmatched
    requires forall k :: k in removed ==> k < |b.remarks| && b.remarks[k].RoundingError?
    requires Members(added) == removed
    requires b.tally == a.tally.(rounding := a.tally.rounding + added)
    ensures Accounted(b)
  {
    assert Labelled(b, Matched) == Labelled(a, Matched);
    assert Labelled(b, MatchedCheckDate) == Labelled(a, MatchedCheckDate);
    assert Labelled(b, SplitTransaction) == Labelled(a, SplitTransaction);
    assert Labelled(b, ReturnedTransaction) == Labelled(a, ReturnedTransaction);
    assert RoundingRows(b) == RoundingRows(a) + removed;
    MembersAppend(a.tally.rounding, added);
  }

  /** Labelling the leftovers `Unmatched` changes no list and no filed row. */
  lemma AccountedFinalize(s: Side)
    requires Synced(s) && Accounted(s)
    ensures Accounted(Reconciler.Finalize(s))
  {
    var r := Reconciler.Finalize(s);
    assert Labelled(r, Matched) == Labelled(s, Matched);
    assert Labelled(r, MatchedCheckDate) == Labelled(s, MatchedCheckDate);
    assert Labelled(r, SplitTransaction) == Labelled(s, SplitTransaction);
    assert Labelled(r, ReturnedTransaction) == Labelled(s, ReturnedTransaction);
    assert RoundingRows(r) == RoundingRows(s);
  }

  /** Both ledgers in step and accounted for. */
  ghost predicate Tracked(s1: Side, s2: Side) {
    Synced(s1) && Synced(s2) && Accounted(s1) && Accounted(s2)
  }

  lemma ExactAccounted(s1: Side, s2: Side, cfg: Config)
    requires Tracked(s1, s2)
    ensures var r := PairMatchers.FindExactMatches(s1, s2, cfg); Tracked(r.left, r.right)
  {
    var r := PairMatchers.FindExactMatches(s1, s2, cfg);
    PairMatchers.ExactMatchesDisjointInOrder(s1, s2, cfg);
    Greedy.PairRowsDistinct(r.pairs);
    RelabelIsProgress(s1, r.left, Greedy.Lefts(r.pairs), Matched);
    RelabelIsProgress(s2, r.right, Greedy.Rights(r.pairs), Matched);
    ProgressKeepsSynced(s1, r.left);
    ProgressKeepsSynced(s2, r.right);
    AccountedRelabel(s1, r.left, Greedy.Lefts(r.pairs), Matched, Greedy.LeftRows(r.pairs));
    AccountedRelabel(s2, r.right, Greedy.Rights(r.pairs), Matched, Greedy.RightRows(r.pairs));
  }

  lemma FuzzyAccounted(s1: Side, s2: Side, cfg: Config)
    requires Tracked(s1, s2)
    ensures var r := PairMatchers.FindFuzzyMatches(s1, s2, cfg); Tracked(r.left, r.right)
  {
    var r := PairMatchers.FindFuzzyMatches(s1, s2, cfg);
    PairMatchers.FuzzyMatchesDisjointInOrder(s1, s2, cfg);
    Greedy.PairRowsDistinct(r.pairs);
    RelabelIsProgress(s1, r.left, Greedy.Lefts(r.pairs), MatchedCheckDate);
    RelabelIsProgress(s2, r.right, Greedy.Rights(r.pairs), MatchedCheckDate);
    ProgressKeepsSynced(s1, r.left);
    ProgressKeepsSynced(s2, r.right);
    AccountedRelabel(s1, r.left, Greedy.Lefts(r.pairs), MatchedCheckDate, Greedy.LeftRows(r.pairs));
    AccountedRelabel(s2, r.right, Greedy.Rights(r.pairs), MatchedCheckDate, Greedy.RightRows(r.pairs));
  }

  lemma SplitAccounted(src: Side, tgt: Side, cfg: Config)
    requires Tracked(src, tgt)
    ensures var r := SplitMatcher.FindSplitTransactions(src, tgt, cfg); Tracked(r.source, r.target)
  {
    var r := SplitMatcher.FindSplitTransactions(src, tgt, cfg);
    SplitMatcher.SplitStageRecords(src, tgt, cfg);
    SplitMatcher.SplitGroupsSound(src, tgt, cfg);
    assert Distinct(SplitMatcher.SourceRows(r.groups));
    SplitMatcher.SplitRowsDistinct(r.groups);
    RelabelIsProgress(src, r.source, SplitMatcher.Sources(r.groups), SplitTransaction);
    RelabelIsProgress(tgt, r.target, SplitMatcher.Targets(r.groups), SplitTransaction);
    ProgressKeepsSynced(src, r.source);
    ProgressKeepsSynced(tgt, r.target);
    AccountedRelabel(src, r.source, SplitMatcher.Sources(r.groups), SplitTransaction, SplitMatcher.SourceRows(r.groups));
    AccountedRelabel(tgt, r.target, SplitMatcher.Targets(r.groups), SplitTransaction, SplitMatcher.TargetRows(r.groups));
  }

  lemma RoundingAccounted(s1: Side, s2: Side, cfg: Config)
    requires Tracked(s1, s2)
    ensures var r := RoundingMatcher.FindRoundingErrors(s1, s2, cfg); Tracked(r.left, r.right)
  {
    var r := RoundingMatcher.FindRoundingErrors(s1, s2, cfg);
    RoundingMatcher.RoundingStageSound(s1, s2, cfg);
    RoundingMatcher.RoundingStageRemarks(s1, s2, cfg);
    RoundingMatcher.RoundingStageRecords(s1, s2, cfg);
    RoundingMatcher.RoundingProgress(s1, s2, cfg);
    RoundingMatcher.RowsMembers(r.pairs);
    ProgressKeepsSynced(s1, r.left);
    ProgressKeepsSynced(s2, r.right);
    forall k | k in RoundingMatcher.LeftIndices(r.pairs)
      ensures k < |r.left.remarks| && r.left.remarks[k].RoundingError?
    {
      RoundingMatcher.LastExists(r.pairs, k);
    }
    forall k | k in RoundingMatcher.RightIndices(r.pairs)
      ensures k < |r.right.remarks| && r.right.remarks[k].RoundingError?
    {
      var p :| p in r.pairs && p.j == k;
    }
    AccountedRounding(s1, r.left, RoundingMatcher.LeftIndices(r.pairs), RoundingMatcher.LeftRows(r.pairs));
    AccountedRounding(s2, r.right, RoundingMatcher.RightIndices(r.pairs), RoundingMatcher.RightRows(r.pairs));
  }

  lemma ReturnedAccounted(s: Side, cfg: Config)
    requires Synced(s) && Accounted(s)
    ensures var r := ReturnedMatcher.FindReturnedTransactions(s, cfg); Synced(r.side) && Accounted(r.side)
  {
    var r := ReturnedMatcher.FindReturnedTransactions(s, cfg);
    ReturnedMatcher.ReturnedStageSound(s, cfg);
    ReturnedMatcher.FlatMembers(r.pairs);
    RelabelIsProgress(s, r.side, ReturnedMatcher.Used(r.pairs), ReturnedTransaction);
    ProgressKeepsSynced(s, r.side);
    AccountedRelabel(s, r.side, ReturnedMatcher.Used(r.pairs), ReturnedTransaction, ReturnedMatcher.Flat(r.pairs));
  }

  /** Every stage, in the pipeline's order, keeps both ledgers accounted for. */
  lemma MatchAllAccounted(s1: Side, s2: Side, cfg: Config)
    requires Tracked(s1, s2)
    ensures var m := Reconciler.MatchAll(s1, s2, cfg); Tracked(m.left, m.right)
  {
    var e := PairMatchers.FindExactMatches(s1, s2, cfg);
    ExactAccounted(s1, s2, cfg);
    var f := PairMatchers.FindFuzzyMatches(e.left, e.right, cfg);
    FuzzyAccounted(e.left, e.right, cfg);
    var a := SplitMatcher.FindSplitTransactions(f.left, f.right, cfg);
    SplitAccounted(f.left, f.right, cfg);
    var b := SplitMatcher.FindSplitTransactions(a.target, a.source, cfg);
    SplitAccounted(a.target, a.source, cfg);
    var g := RoundingMatcher.FindRoundingErrors(b.target, b.source, cfg);
    RoundingAccounted(b.target, b.source, cfg);
    ReturnedAccounted(g.left, cfg);
    ReturnedAccounted(g.right, cfg);
  }

  /** After a whole run, on each ledger, the matched, fuzzy, split and
      returned lists name exactly the rows with that remark, each once, and
      the rounding list names exactly the rows with a rounding remark. */
  lemma RunTalliesMatchRemarks(s1: Side, s2: Side, cfg: Config)
    requires Tracked(s1, s2)
    ensures var o := Reconciler.Run(s1, s2, cfg); Accounted(o.left) && Accounted(o.right)
  {
    var m := Reconciler.MatchAll(s1, s2, cfg);
    MatchAllAccounted(s1, s2, cfg);
    AccountedFinalize(m.left);
    AccountedFinalize(m.right);
  }

  /** The report's counts are the numbers of rows carrying each remark: a
      returned transaction has two rows, and the rounding count counts
      matches, so it is at least the number of rows with a rounding remark. */
  ghost predicate CountsAgree(s: Side) {
    var c := Reconciler.ReportCounts(s);
    && c.matched == |Labelled(s, Matched)|
    && c.fuzzy == |Labelled(s, MatchedCheckDate)|
    && c.split == |Labelled(s, SplitTransaction)|
    && c.returned == |Labelled(s, ReturnedTransaction)| / 2
    && c.rounding >= |RoundingRows(s)|
  }

  lemma ReportCountsMatchRemarks(s: Side)
    requires Accounted(s)
    ensures CountsAgree(s)
  {
    DistinctCard(s.tally.matched);
    DistinctCard(s.tally.fuzzy);
    DistinctCard(s.tally.split);
    DistinctCard(s.tally.returned);
    MembersBound(s.tally.rounding);
  }

  /** A successful reconciliation ends with both ledgers accounted for, and
      so with report counts that are the numbers of rows carrying each remark. */
  lemma ReconcileTallies(t1: Table, t2: Table, cfg: Config)
    ensures var r := Reconciler.Reconcile(t1, t2, cfg);
      r.Success? ==>
        && Accounted(r.value.left) && Accounted(r.value.right)
        && CountsAgree(r.value.left) && CountsAgree(r.value.right)
  {
    if Reconciler.Reconcile(t1, t2, cfg).Success? {
      var s1, s2 := Reconciler.Prepare(t1), Reconciler.Prepare(t2);
      FreshAccounted(s1);
      FreshAccounted(s2);
      RunTalliesMatchRemarks(s1, s2, cfg);
      var o := Reconciler.Run(s1, s2, cfg);
      ReportCountsMatchRemarks(o.left);
      ReportCountsMatchRemarks(o.right);
    }
  }
}
