/** The data model of one reconciliation run: normalised ledger rows, the
    classification remark each row receives, the per-category row lists, the
    working state of one ledger and the matcher configuration. */
module Records {
  import opened Wrappers

  /** One normalised ledger row. `date` is a day number, `None` for NaT;
      missing amounts have already been filled with 0. */
  datatype Txn = Txn(date: Option<int>, description: string, debit: real, credit: real)

  /** One row as read from a sheet, before null amounts are filled. */
  datatype RawRow = RawRow(date: Option<int>, description: string, debit: Option<real>, credit: Option<real>)

  /** A sheet read into a table: its column headers and its rows. */
  datatype Table = Table(columns: seq<string>, rows: seq<RawRow>)

  /** The value written into the `Remarks` column. `Blank` is the empty string
      every row starts with; `RoundingError` carries the two compared amounts. */
  datatype Remark =
    | Blank
    | Matched
    | MatchedCheckDate
    | SplitTransaction
    | ReturnedTransaction
    | RoundingError(x: real, y: real)
    | Unmatched

  /** The row lists the stages append to (matched, fuzzy, split, returned and
      rounding rows), holding ledger indices in append order. */
  datatype Tally = Tally(matched: seq<nat>, fuzzy: seq<nat>, split: seq<nat>,
                         returned: seq<nat>, rounding: seq<nat>)

  const EmptyTally := Tally([], [], [], [], [])

  /** The working state of one ledger: its rows, their remarks, the set of
      indices still eligible for matching, and its row lists. */
  datatype Side = Side(rows: seq<Txn>, remarks: seq<Remark>, unmatched: set<nat>, tally: Tally)

  /** Every row has a remark and every unmatched index names a row. */
  ghost predicate Valid(s: Side) {
    && |s.remarks| == |s.rows|
    && forall k :: k in s.unmatched ==> k < |s.rows|
  }

  /** A remark a matching stage writes: neither the initial empty remark nor
      the `Unmatched` written after the last stage. */
  predicate Verdict(m: Remark) {
    m != Blank && m != Unmatched
  }

  /** Between stages a row is still unmatched exactly when its remark is
      still empty, and no row is labelled `Unmatched` yet. */
  ghost predicate Synced(s: Side) {
    && Valid(s)
    && forall k :: 0 <= k < |s.rows| ==>
         (k in s.unmatched <==> s.remarks[k] == Blank) && s.remarks[k] != Unmatched
  }

  /** What any matching stage may do to one ledger: keep its rows, only remove
      indices from the unmatched set, write a verdict on the rows it removes,
      and leave every other remark alone. */
  ghost predicate Progress(a: Side, b: Side) {
    && b.rows == a.rows
    && |b.remarks| == |a.remarks|
    && b.unmatched <= a.unmatched
    && (forall k :: 0 <= k < |a.remarks| && (k !in a.unmatched || k in b.unmatched) ==>
          b.remarks[k] == a.remarks[k])
    && (forall k :: 0 <= k < |a.remarks| && k in a.unmatched && k !in b.unmatched ==>
          Verdict(b.remarks[k]))
  }

  /** `b` is `a` with exactly the indices `removed` taken out of the unmatched
      set and given remark `tag`. */
  ghost predicate Relabel(a: Side, b: Side, removed: set<nat>, tag: Remark) {
    && b.rows == a.rows
    && |b.remarks| == |a.remarks|
    && removed <= a.unmatched
    && b.unmatched == a.unmatched - removed
    && forall k :: 0 <= k < |a.remarks| ==> b.remarks[k] == (if k in removed then tag else a.remarks[k])
  }

  /** `s` with the unmatched rows `removed` given remark `tag` and taken out
      of the unmatched set. */
  function Relabelled(s: Side, removed: set<nat>, tag: Remark): (r: Side)
    requires Valid(s) && removed <= s.unmatched
    ensures Valid(r) && Relabel(s, r, removed, tag) && r.tally == s.tally
  {
    var remarks := seq(|s.remarks|, k requires 0 <= k < |s.remarks| =>
      if k in removed then tag else s.remarks[k]);
    Side(s.rows, remarks, s.unmatched - removed, s.tally)
  }

  lemma RelabelIsProgress(a: Side, b: Side, removed: set<nat>, tag: Remark)
    requires Valid(a) && Relabel(a, b, removed, tag) && Verdict(tag)
    ensures Progress(a, b) && Valid(b)
  {
  }

  lemma RelabelCompose(a: Side, b: Side, c: Side, r1: set<nat>, r2: set<nat>, tag: Remark)
    requires Relabel(a, b, r1, tag) && Relabel(b, c, r2, tag)
    ensures Relabel(a, c, r1 + r2, tag)
  {
  }

  lemma ProgressTransitive(a: Side, b: Side, c: Side)
    requires Progress(a, b) && Progress(b, c)
    ensures Progress(a, c)
  {
  }

  /** A stage that makes progress keeps the unmatched set and the empty
      remarks in step. */
  lemma ProgressKeepsSynced(a: Side, b: Side)
    requires Synced(a) && Progress(a, b)
    ensures Synced(b)
  {
  }

  /** Strictly increasing indices: a list without repeats, in ascending order. */
  ghost predicate Increasing(s: seq<nat>) {
    forall a, b :: 0 <= a < b < |s| ==> s[a] < s[b]
  }

  /** The indices listed in `js`. */
  function Members(js: seq<nat>): set<nat> {
    set j | j in js
  }

  /** An increasing list has as many entries as members. */
  lemma {:induction false} IncreasingCard(s: seq<nat>)
    requires Increasing(s)
    ensures |Members(s)| == |s|
  {
    if s != [] {
      IncreasingCard(s[1..]);
      assert Members(s) == {s[0]} + Members(s[1..]);
      assert s[0] !in Members(s[1..]);
    }
  }

  /** No index is listed twice. */
  ghost predicate Distinct(s: seq<nat>) {
    forall a, b :: 0 <= a < b < |s| ==> s[a] != s[b]
  }

  /** Two lists without repeats and without a common index join into a list
      without repeats. */
  lemma DistinctAppend(s: seq<nat>, t: seq<nat>)
    requires Distinct(s) && Distinct(t) && Members(s) !! Members(t)
    ensures Distinct(s + t) && Members(s + t) == Members(s) + Members(t)
  {
    var u := s + t;
    forall a, b | 0 <= a < b < |u| ensures u[a] != u[b] {
      if a < |s| && b >= |s| {
        assert u[a] in Members(s) && u[b] == t[b - |s|] && t[b - |s|] in Members(t);
      } else if a >= |s| {
        assert u[a] == t[a - |s|] && u[b] == t[b - |s|];
      }
    }
  }

  lemma MembersAppend(s: seq<nat>, t: seq<nat>)
    ensures Members(s + t) == Members(s) + Members(t)
  {
    assert forall x :: x in s + t <==> x in s || x in t;
  }

  /** A list has at most as many members as entries. */
  lemma {:induction false} MembersBound(s: seq<nat>)
    ensures |Members(s)| <= |s|
  {
    if s != [] {
      MembersBound(s[1..]);
      assert s == [s[0]] + s[1..];
      MembersAppend([s[0]], s[1..]);
      assert Members([s[0]]) == {s[0]};
    }
  }

  /** The head of a list without repeats is not in its tail, and the tail
      has no repeats either. */
  lemma DistinctHead(s: seq<nat>)
    requires Distinct(s) && s != []
    ensures s[0] !in Members(s[1..]) && Distinct(s[1..])
  {
    forall m | 0 <= m < |s| - 1 ensures s[1..][m] != s[0] {
      assert s[1..][m] == s[m + 1];
    }
    forall a, b | 0 <= a < b < |s| - 1 ensures s[1..][a] != s[1..][b] {
      assert s[1..][a] == s[a + 1] && s[1..][b] == s[b + 1];
    }
  }

  /** A list without repeats has as many entries as members. */
  lemma {:induction false} DistinctCard(s: seq<nat>)
    requires Distinct(s)
    ensures |Members(s)| == |s|
  {
    if s != [] {
      DistinctHead(s);
      DistinctCard(s[1..]);
      assert Members(s) == {s[0]} + Members(s[1..]);
      assert s[0] !in Members(s[1..]);
    }
  }

  lemma AppendAssoc(a: seq<nat>, b: seq<nat>, c: seq<nat>)
    ensures a + b + c == a + (b + c)
  {
  }

  /** An index below every member of an increasing list extends it at the front. */
  lemma IncreasingPrepend(x: nat, s: seq<nat>)
    requires Increasing(s) && forall y :: y in s ==> x < y
    ensures Increasing([x] + s)
  {
    var t := [x] + s;
    forall a, b | 0 <= a < b < |t| ensures t[a] < t[b] {
      if a == 0 {
        assert t[b] == s[b - 1] && s[b - 1] in s;
      } else {
        assert t[a] == s[a - 1] && t[b] == s[b - 1];
      }
    }
  }

  /** The indices of a ledger of `n` rows. */
  function Below(n: nat): (r: set<nat>)
    ensures forall k: nat :: k in r <==> k < n
  {
    if n == 0 then {} else Below(n - 1) + {n - 1}
  }

  /** The members of `s` in `[lo, hi)`, in ascending order: the order in
      which the matchers visit an unmatched set. */
  function Ascending(s: set<nat>, lo: nat, hi: nat): (r: seq<nat>)
    ensures forall k :: 0 <= k < |r| ==> r[k] in s && lo <= r[k] < hi
    ensures forall x :: x in s && lo <= x < hi ==> x in r
    ensures forall a, b :: 0 <= a < b < |r| ==> r[a] < r[b]
    decreases hi - lo
  {
    if lo >= hi then []
    else (if lo in s then [lo] else []) + Ascending(s, lo + 1, hi)
  }

  /** The unmatched indices of a ledger in visiting order. */
  function Pending(s: Side): (r: seq<nat>)
    requires Valid(s)
    ensures forall k :: 0 <= k < |r| ==> r[k] in s.unmatched && r[k] < |s.rows|
    ensures forall x :: x in s.unmatched ==> x in r
    ensures forall a, b :: 0 <= a < b < |r| ==> r[a] < r[b]
  {
    Ascending(s.unmatched, 0, |s.rows|)
  }

  /** The recognised matcher options; an absent option takes its default,
      as `config.get(key, default)` does. */
  datatype Config = Config(
    matchTolerance: Option<real>,
    fuzzyDateRange: Option<int>,
    roundingTolerance: Option<real>,
    roundingDateRange: Option<int>,
    splitMatchDateRange: Option<int>,
    enableExactMatch: Option<bool>,
    enableFuzzyMatch: Option<bool>,
    enableSplitMatch: Option<bool>,
    enableRoundingMatch: Option<bool>)
  {
    function MatchTolerance(): real { matchTolerance.GetOr(0.01) }
    function FuzzyDateRange(): int { fuzzyDateRange.GetOr(7) }
    function RoundingTolerance(): real { roundingTolerance.GetOr(0.5) }
    function RoundingDateRange(): int { roundingDateRange.GetOr(2) }
    function SplitMatchDateRange(): int { splitMatchDateRange.GetOr(3) }
    predicate ExactEnabled() { enableExactMatch.GetOr(true) }
    predicate FuzzyEnabled() { enableFuzzyMatch.GetOr(true) }
    predicate SplitEnabled() { enableSplitMatch.GetOr(true) }
    predicate RoundingEnabled() { enableRoundingMatch.GetOr(true) }
  }

  /** A configuration with no option set: every option takes its default. */
  const Defaults := Config(None, None, None, None, None, None, None, None, None)
}
