/** The reconciliation pipeline: check both sheets for the expected columns,
    normalise their rows, run the matching stages in their fixed order, label
    every row still unmatched. The closing and total checks are separate
    functions of the closing figures. The pipeline's own call of the
    closing-balance function omits the opening balance and raises before
    either check runs; it also unpacks the returned dict, which binds the
    dict's keys rather than its values. The checks here take the values. */
module Reconciler {
  import opened Wrappers
  import opened Records
  import opened Utils
  import opened Greedy
  import opened PairMatchers
  import opened SplitMatcher
  import opened RoundingMatcher
  import opened ReturnedMatcher

  /** The columns both sheets must have. */
  const ExpectedColumns: seq<string> := ["date", "description", "debit", "credit"]

  /** The columns of `want` that `columns` lacks, in the order of `want`. */
  function Missing(columns: seq<string>, want: seq<string>): (r: seq<string>)
    ensures forall c :: c in r <==> c in want && c !in columns
    ensures |r| <= |want|
  {
    if want == [] then []
    else (if want[0] in columns then [] else [want[0]]) + Missing(columns, want[1..])
  }

  /** Why a reconciliation stopped before matching: the ledger (1 or 2) and
      the expected columns its sheet lacks. */
  datatype Failure = MissingColumns(ledger: nat, columns: seq<string>)

  /** A row with its missing amounts filled with 0. */
  function Fill(w: RawRow): (t: Txn)
    ensures t.date == w.date && t.description == w.description
    ensures w.debit.Some? ==> t.debit == w.debit.value
    ensures w.debit.None? ==> t.debit == 0.0
    ensures w.credit.Some? ==> t.credit == w.credit.value
    ensures w.credit.None? ==> t.credit == 0.0
  {
    Txn(w.date, w.description, w.debit.GetOr(0.0), w.credit.GetOr(0.0))
  }

  /** The working state of a ledger before the first stage: filled rows,
      empty remarks, every row unmatched and every row list empty. */
  function Prepare(t: Table): (s: Side)
    ensures |s.rows| == |t.rows| && forall k :: 0 <= k < |t.rows| ==> s.rows[k] == Fill(t.rows[k])
    ensures forall k :: 0 <= k < |s.remarks| ==> s.remarks[k] == Blank
    ensures forall k: nat :: k in s.unmatched <==> k < |t.rows|
    ensures s.tally == EmptyTally
    ensures Synced(s)
  {
    Side(seq(|t.rows|, k requires 0 <= k < |t.rows| => Fill(t.rows[k])),
         seq(|t.rows|, k => Blank),
         Below(|t.rows|),
         EmptyTally)
  }

  /** Both ledgers after the matching stages, with the returned pairs each
      ledger's own returned stage found. */
  datatype Ledgers = Ledgers(left: Side, right: Side, returned1: seq<RetPair>, returned2: seq<RetPair>)

  /** The stages in their fixed order: exact, fuzzy, split with the first
      ledger as source, split with the second ledger as source, rounding,
      then returned transactions within each ledger. */
  function MatchAll(s1: Side, s2: Side, cfg: Config): (r: Ledgers)
    requires Valid(s1) && Valid(s2)
    ensures Valid(r.left) && Valid(r.right)
    ensures r.left.rows == s1.rows && r.right.rows == s2.rows
  {
    var e := FindExactMatches(s1, s2, cfg);
    RelabelIsProgress(s1, e.left, Lefts(e.pairs), Matched);
    RelabelIsProgress(s2, e.right, Rights(e.pairs), Matched);
    var f := FindFuzzyMatches(e.left, e.right, cfg);
    RelabelIsProgress(e.left, f.left, Lefts(f.pairs), MatchedCheckDate);
    RelabelIsProgress(e.right, f.right, Rights(f.pairs), MatchedCheckDate);
    var a := FindSplitTransactions(f.left, f.right, cfg);
    var b := FindSplitTransactions(a.target, a.source, cfg);
    var g := FindRoundingErrors(b.target, b.source, cfg);
    var r1 := FindReturnedTransactions(g.left, cfg);
    var r2 := FindReturnedTransactions(g.right, cfg);
    Ledgers(r1.side, r2.side, r1.pairs, r2.pairs)
  }

  /** Every stage only takes rows out of the unmatched sets, writes a
      verdict on each row it takes, and leaves every other remark alone. */
  lemma MatchAllProgress(s1: Side, s2: Side, cfg: Config)
    requires Valid(s1) && Valid(s2)
    ensures var r := MatchAll(s1, s2, cfg);
      Progress(s1, r.left) && Progress(s2, r.right)
  {
    var e := FindExactMatches(s1, s2, cfg);
    RelabelIsProgress(s1, e.left, Lefts(e.pairs), Matched);
    RelabelIsProgress(s2, e.right, Rights(e.pairs), Matched);
    var f := FindFuzzyMatches(e.left, e.right, cfg);
    RelabelIsProgress(e.left, f.left, Lefts(f.pairs), MatchedCheckDate);
    RelabelIsProgress(e.right, f.right, Rights(f.pairs), MatchedCheckDate);
    var a := FindSplitTransactions(f.left, f.right, cfg);
    RelabelIsProgress(f.left, a.source, Sources(a.groups), SplitTransaction);
    RelabelIsProgress(f.right, a.target, Targets(a.groups), SplitTransaction);
    var b := FindSplitTransactions(a.target, a.source, cfg);
    RelabelIsProgress(a.target, b.source, Sources(b.groups), SplitTransaction);
    RelabelIsProgress(a.source, b.target, Targets(b.groups), SplitTransaction);
    var g := FindRoundingErrors(b.target, b.source, cfg);
    RoundingProgress(b.target, b.source, cfg);
    var r1 := FindReturnedTransactions(g.left, cfg);
    var r2 := FindReturnedTransactions(g.right, cfg);
    RelabelIsProgress(g.left, r1.side, Used(r1.pairs), ReturnedTransaction);
    RelabelIsProgress(g.right, r2.side, Used(r2.pairs), ReturnedTransaction);
    ProgressChain(s1, e.left, f.left, a.source, b.target, g.left, r1.side);
    ProgressChain(s2, e.right, f.right, a.target, b.source, g.right, r2.side);
  }

  /** Six stages that each make progress make progress together. */
  lemma ProgressChain(x0: Side, x1: Side, x2: Side, x3: Side, x4: Side, x5: Side, x6: Side)
    requires Progress(x0, x1) && Progress(x1, x2) && Progress(x2, x3)
    requires Progress(x3, x4) && Progress(x4, x5) && Progress(x5, x6)
    ensures Progress(x0, x6)
  {
    ProgressTransitive(x0, x1, x2);
    ProgressTransitive(x0, x2, x3);
    ProgressTransitive(x0, x3, x4);
    ProgressTransitive(x0, x4, x5);
    ProgressTransitive(x0, x5, x6);
  }

  /** The loop after the last stage: every row still unmatched is labelled
      `Unmatched`; the set itself and every other remark stay as they are. */
  function Finalize(s: Side): (r: Side)
    requires Valid(s)
    ensures r.rows == s.rows && r.unmatched == s.unmatched && r.tally == s.tally
    ensures |r.remarks| == |s.remarks|
    ensures forall k :: 0 <= k < |s.remarks| && k in s.unmatched ==> r.remarks[k] == Unmatched
    ensures forall k :: 0 <= k < |s.remarks| && k !in s.unmatched ==> r.remarks[k] == s.remarks[k]
  {
    s.(remarks := seq(|s.remarks|, k requires 0 <= k < |s.remarks| =>
                        if k in s.unmatched then Unmatched else s.remarks[k]))
  }

  /** After labelling, every row has a non-empty remark, and a row reads
      `Unmatched` exactly when it is still in the unmatched set. */
  lemma FinalizeLabels(s: Side)
    requires Synced(s)
    ensures var r := Finalize(s);
      forall k :: 0 <= k < |r.remarks| ==>
        r.remarks[k] != Blank && (r.remarks[k] == Unmatched <==> k in s.unmatched)
  {
  }

  /** The outcome of a reconciliation: both ledgers' final states, and the
      pairs each ledger's returned stage found. */
  datatype Outcome = Outcome(left: Side, right: Side, returned1: seq<RetPair>, returned2: seq<RetPair>)

  /** The stages followed by the labelling of the leftovers. */
  function Run(s1: Side, s2: Side, cfg: Config): (o: Outcome)
    requires Valid(s1) && Valid(s2)
    ensures o.left.rows == s1.rows && o.right.rows == s2.rows
    ensures Valid(o.left) && Valid(o.right)
  {
    var m := MatchAll(s1, s2, cfg);
    Outcome(Finalize(m.left), Finalize(m.right), m.returned1, m.returned2)
  }

  /** `reconcile_statement` from the two read sheets to the labelled
      ledgers. A sheet without an expected column stops the run before any
      matching, the first ledger's sheet being checked first. A success is
      the in-memory state once every row is labelled; the source raises at
      the closing-balance call that follows, so it never returns a path. */
  function Reconcile(t1: Table, t2: Table, cfg: Config): (r: Result<Outcome, Failure>)
    ensures Missing(t1.columns, ExpectedColumns) != [] ==>
      r == Failure(MissingColumns(1, Missing(t1.columns, ExpectedColumns)))
    ensures Missing(t1.columns, ExpectedColumns) == [] && Missing(t2.columns, ExpectedColumns) != [] ==>
      r == Failure(MissingColumns(2, Missing(t2.columns, ExpectedColumns)))
    ensures r.Success? <==> forall c :: c in ExpectedColumns ==> c in t1.columns && c in t2.columns
    ensures r.Success? ==> r.value == Run(Prepare(t1), Prepare(t2), cfg)
  {
    var m1 := Missing(t1.columns, ExpectedColumns);
    var m2 := Missing(t2.columns, ExpectedColumns);
    if m1 != [] then assert m1[0] in m1; Failure(MissingColumns(1, m1))
    else if m2 != [] then assert m2[0] in m2; Failure(MissingColumns(2, m2))
    else Success(Run(Prepare(t1), Prepare(t2), cfg))
  }

  /** Every row of both ledgers ends with a non-empty remark, and reads
      `Unmatched` exactly when no stage matched it. */
  lemma RunLabelsEveryRow(s1: Side, s2: Side, cfg: Config)
    requires Synced(s1) && Synced(s2)
    ensures var o := Run(s1, s2, cfg);
      && (forall k :: 0 <= k < |o.left.remarks| ==>
            o.left.remarks[k] != Blank && (o.left.remarks[k] == Unmatched <==> k in o.left.unmatched))
      && (forall k :: 0 <= k < |o.right.remarks| ==>
            o.right.remarks[k] != Blank && (o.right.remarks[k] == Unmatched <==> k in o.right.unmatched))
  {
    var m := MatchAll(s1, s2, cfg);
    MatchAllProgress(s1, s2, cfg);
    ProgressKeepsSynced(s1, m.left);
    ProgressKeepsSynced(s2, m.right);
    FinalizeLabels(m.left);
    FinalizeLabels(m.right);
  }

  /** With both returned lists empty before the stages, each ledger's
      returned list ends as the rows of its returned pairs, two per pair. */
  lemma MatchAllReturnedRows(s1: Side, s2: Side, cfg: Config)
    requires Valid(s1) && Valid(s2)
    ensures var r := MatchAll(s1, s2, cfg);
      && r.left.tally.returned == s1.tally.returned + Flat(r.returned1)
      && r.right.tally.returned == s2.tally.returned + Flat(r.returned2)
  {
    var e := FindExactMatches(s1, s2, cfg);
    ExactMatchesDisjointInOrder(s1, s2, cfg);
    RelabelIsProgress(s1, e.left, Lefts(e.pairs), Matched);
    RelabelIsProgress(s2, e.right, Rights(e.pairs), Matched);
    var f := FindFuzzyMatches(e.left, e.right, cfg);
    FuzzyMatchesDisjointInOrder(e.left, e.right, cfg);
    RelabelIsProgress(e.left, f.left, Lefts(f.pairs), MatchedCheckDate);
    RelabelIsProgress(e.right, f.right, Rights(f.pairs), MatchedCheckDate);
    var a := FindSplitTransactions(f.left, f.right, cfg);
    SplitStageRecords(f.left, f.right, cfg);
    var b := FindSplitTransactions(a.target, a.source, cfg);
    SplitStageRecords(a.target, a.source, cfg);
    RoundingStageRecords(b.target, b.source, cfg);
  }

  /** The counts of the report's category table for one ledger. */
  datatype Counts = Counts(matched: nat, fuzzy: nat, split: nat, returned: nat, rounding: nat, unmatched: nat)

  /** The rows whose final remark is `Unmatched`, in index order. */
  function UnmatchedRows(s: Side): (r: seq<nat>)
    ensures forall k :: 0 <= k < |r| ==> r[k] < |s.remarks| && s.remarks[r[k]] == Unmatched
    ensures forall k :: 0 <= k < |s.remarks| && s.remarks[k] == Unmatched ==> k in r
    ensures Increasing(r)
  {
    Ascending(set k: nat | k < |s.remarks| && s.remarks[k] == Unmatched, 0, |s.remarks|)
  }

  /** The returned list holds both rows of each pair, so its length is halved. */
  function ReportCounts(s: Side): Counts {
    Counts(|s.tally.matched|, |s.tally.fuzzy|, |s.tally.split|, |s.tally.returned| / 2,
           |s.tally.rounding|, |UnmatchedRows(s)|)
  }

  lemma UnmatchedRowsCount(s: Side)
    requires Valid(s)
    requires forall k :: 0 <= k < |s.remarks| ==> (s.remarks[k] == Unmatched <==> k in s.unmatched)
    ensures |UnmatchedRows(s)| == |s.unmatched|
  {
    var r := UnmatchedRows(s);
    IncreasingCard(r);
    assert Members(r) == s.unmatched;
  }

  /** The report counts one returned transaction per pair the returned
      stage found. */
  lemma RunReturnedCount(s1: Side, s2: Side, cfg: Config)
    requires Valid(s1) && Valid(s2) && s1.tally.returned == [] && s2.tally.returned == []
    ensures var o := Run(s1, s2, cfg);
      ReportCounts(o.left).returned == |o.returned1| && ReportCounts(o.right).returned == |o.returned2|
  {
    MatchAllReturnedRows(s1, s2, cfg);
  }

  /** The report counts one unmatched row per row no stage matched. */
  lemma RunUnmatchedCount(s1: Side, s2: Side, cfg: Config)
    requires Synced(s1) && Synced(s2)
    ensures var o := Run(s1, s2, cfg);
      ReportCounts(o.left).unmatched == |o.left.unmatched| && ReportCounts(o.right).unmatched == |o.right.unmatched|
  {
    var o := Run(s1, s2, cfg);
    RunLabelsEveryRow(s1, s2, cfg);
    UnmatchedRowsCount(o.left);
    UnmatchedRowsCount(o.right);
  }

  /** A successful reconciliation labels every row, and its report counts
      agree with the pairs and leftovers it found. */
  lemma ReconcileLabelsAndCounts(t1: Table, t2: Table, cfg: Config)
    ensures var r := Reconcile(t1, t2, cfg);
      r.Success? ==>
        && (forall k :: 0 <= k < |r.value.left.remarks| ==>
              r.value.left.remarks[k] != Blank &&
              (r.value.left.remarks[k] == Unmatched <==> k in r.value.left.unmatched))
        && (forall k :: 0 <= k < |r.value.right.remarks| ==>
              r.value.right.remarks[k] != Blank &&
              (r.value.right.remarks[k] == Unmatched <==> k in r.value.right.unmatched))
        && ReportCounts(r.value.left).returned == |r.value.returned1|
        && ReportCounts(r.value.right).returned == |r.value.returned2|
        && ReportCounts(r.value.left).unmatched == |r.value.left.unmatched|
        && ReportCounts(r.value.right).unmatched == |r.value.right.unmatched|
  {
    if Reconcile(t1, t2, cfg).Success? {
      RunLabelsEveryRow(Prepare(t1), Prepare(t2), cfg);
      RunReturnedCount(Prepare(t1), Prepare(t2), cfg);
      RunUnmatchedCount(Prepare(t1), Prepare(t2), cfg);
    }
  }

  /** The closing check: the two ledgers record the same position from
      opposite sides, so the first ledger's closing debit must agree with
      the second's closing credit and the other way round. Missing figures
      agree only with missing figures. */
  function ClosingMatch(c1: Closing, c2: Closing, tol: real): bool {
    CompareValues(c1.debit, c2.credit, tol) && CompareValues(c1.credit, c2.debit, tol)
  }

  /** The closing check does not depend on which ledger comes first. */
  lemma ClosingMatchSymmetric(c1: Closing, c2: Closing, tol: real)
    ensures ClosingMatch(c1, c2, tol) == ClosingMatch(c2, c1, tol)
  {
    CompareValuesSymmetric(c1.debit, c2.credit, tol);
    CompareValuesSymmetric(c1.credit, c2.debit, tol);
  }

  /** On the figures of two closing splits, the closing check compares the
      net positions: opposite positions agree when they cancel within the
      tolerance, and positions on the same side agree only when both are
      within the tolerance of zero. */
  lemma ClosingMatchNets(t1: Table, o1: real, t2: Table, o2: real, tol: real)
    requires "debit" in t1.columns && "credit" in t1.columns
    requires "debit" in t2.columns && "credit" in t2.columns
    ensures var n1, n2 := NetBalance(t1.rows, o1), NetBalance(t2.rows, o2);
      var m := ClosingMatch(CalculateClosingBalance(t1, Some(o1)), CalculateClosingBalance(t2, Some(o2)), tol);
      && ((n1 > 0.0) != (n2 > 0.0) ==> (m <==> Near(n1, -n2, tol)))
      && (n1 > 0.0 && n2 > 0.0 ==> (m <==> n1 < tol && n2 < tol))
      && (n1 <= 0.0 && n2 <= 0.0 ==> (m <==> -n1 < tol && -n2 < tol))
  {
  }

  /** The sum of one amount column of normalised rows. */
  function SumDebit(rows: seq<Txn>): real {
    if rows == [] then 0.0 else SumDebit(rows[..|rows| - 1]) + rows[|rows| - 1].debit
  }

  function SumCredit(rows: seq<Txn>): real {
    if rows == [] then 0.0 else SumCredit(rows[..|rows| - 1]) + rows[|rows| - 1].credit
  }

  /** Filling missing amounts with 0 and then summing gives the column sums
      the closing split uses. */
  lemma {:induction false} PrepareSums(t: Table)
    ensures SumDebit(Prepare(t).rows) == FilledDebit(t.rows)
    ensures SumCredit(Prepare(t).rows) == FilledCredit(t.rows)
  {
    FilledSums(t.rows, Prepare(t).rows);
  }

  lemma {:induction false} FilledSums(ws: seq<RawRow>, ts: seq<Txn>)
    requires |ts| == |ws| && forall k :: 0 <= k < |ws| ==> ts[k] == Fill(ws[k])
    ensures SumDebit(ts) == FilledDebit(ws) && SumCredit(ts) == FilledCredit(ws)
    decreases |ws|
  {
    if ws != [] {
      FilledSums(ws[..|ws| - 1], ts[..|ts| - 1]);
    }
  }

  /** The total check. Each total is a column sum plus the closing figure
      on the same side, and the first ledger's totals are compared with the
      second's on the same side. A missing closing figure cannot be added
      to a sum, so no verdict results (`None`). */
  function TotalMatch(rows1: seq<Txn>, c1: Closing, rows2: seq<Txn>, c2: Closing, tol: real): (r: Option<bool>)
    ensures r.Some? <==> c1.debit.Some? && c1.credit.Some? && c2.debit.Some? && c2.credit.Some?
    ensures r == Some(true) <==>
      && r.Some?
      && Near(SumDebit(rows1) + c1.debit.value, SumDebit(rows2) + c2.debit.value, tol)
      && Near(SumCredit(rows1) + c1.credit.value, SumCredit(rows2) + c2.credit.value, tol)
  {
    if c1.debit.None? || c1.credit.None? || c2.debit.None? || c2.credit.None? then None
    else
      var debit1, credit1 := SumDebit(rows1) + c1.debit.value, SumCredit(rows1) + c1.credit.value;
      var debit2, credit2 := SumDebit(rows2) + c2.debit.value, SumCredit(rows2) + c2.credit.value;
      Some(CompareValues(Some(debit1), Some(debit2), tol) && CompareValues(Some(credit1), Some(credit2), tol))
  }

  /** The total check does not depend on which ledger comes first. */
  lemma TotalMatchSymmetric(rows1: seq<Txn>, c1: Closing, rows2: seq<Txn>, c2: Closing, tol: real)
    ensures TotalMatch(rows1, c1, rows2, c2, tol) == TotalMatch(rows2, c2, rows1, c1, tol)
  {
    if TotalMatch(rows1, c1, rows2, c2, tol).Some? {
      CompareValuesSymmetric(Some(SumDebit(rows1) + c1.debit.value), Some(SumDebit(rows2) + c2.debit.value), tol);
      CompareValuesSymmetric(Some(SumCredit(rows1) + c1.credit.value), Some(SumCredit(rows2) + c2.credit.value), tol);
    }
  }

  /** Two copies of one ledger with one opening balance always pass the
      total check, whatever the tolerance above zero. */
  lemma TotalMatchReflexive(t: Table, o: real, tol: real)
    requires "debit" in t.columns && "credit" in t.columns && tol > 0.0
    ensures var c := CalculateClosingBalance(t, Some(o));
      TotalMatch(Prepare(t).rows, c, Prepare(t).rows, c, tol) == Some(true)
  {
  }
}
