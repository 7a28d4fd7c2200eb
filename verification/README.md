# Ledger reconciliation and balance repair, modelled in Dafny

The model covers two parts of a ledger tool.

**The reconciliation engine.** It compares two ledgers, one kept by each party, row by row. Every row gets a remark:

- `Matched`: same amounts on the same day.
- `Matched but check date`: same amounts, dates 1 to N days apart.
- `Split Transaction`: one row covered by a bounded subset of rows on the other side.
- `Rounding Error: x vs y`: amounts within a rounding tolerance that round to the same whole number.
- `Returned Transaction`: a debit and its reversal within the same ledger.
- `Unmatched`: whatever no stage claimed.

The engine also fills the row lists the report counts, and computes the closing-balance and total agreement checks.

**The balance repair.** It runs on a ledger extracted from a statement image. It makes the running-balance column agree with the debit and credit columns, picking one of four repairs.

How the source's values are represented:

- Amounts are exact `real`s. Dates are optional day numbers; `None` stands for NaT.
- A ledger is a `seq` of rows. The matchers' unmatched index sets are `set<nat>`.
- Every stage is a pure function from the two ledger states to new states plus the pairs it committed. Nothing is mutated in place.
- Python sets are visited in ascending index order (`Records.Ascending`). Only the returned matcher sorts explicitly.
- Configuration is an immutable record. Each absent option takes the default `config.get` would give.

Modules:

- `Wrappers`: `Option` and `Result`.
- `Records`: rows, remarks, row lists, ledger state, configuration, and the `Relabel`/`Progress` relations every stage satisfies.
- `Utils`: `compare_values`, `round_half_up`, `mark_match`, `calculate_closing_balance`.
- `Greedy`: the commit-if-still-unmatched loop and the stable sort by day gap, shared by the exact and fuzzy matchers.
- `PairMatchers`: the exact and fuzzy matchers.
- `SubsetSearch`: `subset_sum`.
- `SplitMatcher`: `find_split_transactions`.
- `RoundingMatcher`: `find_rounding_errors`.
- `ReturnedMatcher`: `find_returned_transactions`.
- `Reconciler`: the pure part of `reconcile_statement`, the report counts, and the closing and total checks.
- `Accounting`: how the row lists the report counts relate to the final remarks.
- `BalanceRepair`: `validate_and_fix` and its three repairs.

Where the code and its documentation disagree, the model follows the code:

- **Rounding date gate.** A row with a missing date is *not* skipped by the rounding matcher. `(NaT - ts).days` is NaN, and `abs(NaN) > range` is false, so such a pair reaches the amount test (api/reconciler/matchers.py:215).
- **Returned matcher dates.** After the coercion at api/reconciler/main_processor.py:138-139, every date is a Timestamp or NaT. `NaT == NaT` is false, so a row with a missing date never forms a returned transaction.
- **Rounding is not one-to-one.** A first-ledger row can be paired several times, and its remark is the last one written. The `break` at api/reconciler/matchers.py:234 leaves only the loop over the two amount pairs, and nothing re-checks whether row `i` is still unmatched. A second-ledger row is paired at most once, because the inner snapshot is re-taken for each outer row. `RoundingMatcher.RoundingGreedy` states the resulting rule.
- **Total check is same-sided.** The total check compares debit with debit and credit with credit (api/reconciler/main_processor.py:211-212). Only the closing check is mirrored.
- **Closing-balance call.** At api/reconciler/main_processor.py:201, `calculate_closing_balance` is called with one argument, but the definition at api/reconciler/utils.py:63 requires two (`df, opening_balance`). Every run that passes the column check therefore raises `TypeError` there. So `reconcile_statement` never reaches the closing check, the total check, the report or `wb.save`, and it never returns an output path. Its only caller catches the exception (pages/Reconcile_Ledgers.py:105, 122). A `Success` of `Reconciler.Reconcile` stands for the in-memory state just before that call: the labelled ledgers and row lists at api/reconciler/main_processor.py:189. A second defect sits behind the first. `calculate_closing_balance` returns a dict (api/reconciler/utils.py:69, 90, 94), and unpacking a dict into two names binds its keys. So even a call with both arguments would set `closing_debit1` to the string "closing_debit", and `compare_values` would then raise `ValueError` on `float("closing_debit")` (api/reconciler/utils.py:39). The closing-balance function is modelled as defined. `ClosingMatch` and `TotalMatch` model the two agreement checks on the dict's values, as they would run once both defects were corrected: the opening balance passed, and the two values read out of the dict.
- **Total check with missing figures.** A missing closing figure makes the source's addition raise, so `TotalMatch` gives no verdict (`None`).
- **Repair failures.** An empty ledger makes `validate_and_fix` fail at `iloc[-1]`, and a one-row ledger sent to the shift repair fails at `iloc[-2]`. Both are modelled as `Failure` results.

## Model

| member | source | states |
|---|---|---|
| Utils.CompareValues | api/reconciler/utils.py:34-39 | two missing values agree, exactly one missing never agrees, two present values agree iff they differ by strictly less than the tolerance |
| Utils.CompareValuesSymmetric | api/reconciler/utils.py:34-39 | the tolerant comparison gives the same answer with its arguments swapped |
| Utils.RoundHalfUp | api/reconciler/utils.py:56-61 | the result is the floor of n + 0.5 for n ≥ 0 and the ceiling of n − 0.5 otherwise (characterised by bracketing inequalities) |
| Utils.RoundHalfUpOdd | api/reconciler/utils.py:56-61 | rounding commutes with negation, and the rounded value is within one half of n |
| Utils.MarkMatch | api/reconciler/utils.py:41-54 | the remark lands on row i and row j only, exactly i and j leave their unmatched sets, the pair is appended to the matched lists iff the remark is Matched and to the fuzzy lists iff it is Matched but check date |
| Utils.MarkMatchRelabels | api/reconciler/utils.py:41-54 | marking a pair that is unmatched on both sides relabels exactly {i} and {j} |
| Utils.CalculateClosingBalance | api/reconciler/utils.py:63-97 | a non-numeric opening balance or a missing amount column gives no figures; otherwise both figures are non-negative, at most one is nonzero, credit − debit equals opening + Σcredit − Σdebit with missing amounts as 0, and the credit is the nonzero one iff that net is positive |
| Greedy.Commit | api/reconciler/matchers.py:56-62 | every committed pair is a listed candidate whose two rows were unmatched, and the two ledgers are relabelled on exactly the committed rows; which candidates are committed is stated by Greedy.CommitGreedy |
| Greedy.CommitDisjoint | api/reconciler/matchers.py:56-62 | no row of either ledger is committed in two pairs |
| Greedy.CommitMaximal | api/reconciler/matchers.py:56-62 | after the commit loop no listed candidate has both rows still unmatched |
| Greedy.CommitKeepsOrder | api/reconciler/matchers.py:104-110 | committed pairs keep the (gap, i, j) order of the candidate list |
| Greedy.CommitRecords | api/reconciler/utils.py:47-52 | each committed pair is appended, in commit order, to the row lists its remark names |
| Greedy.GreedyDisjoint | api/reconciler/matchers.py:56-62 | the greedy reference definition takes each row of either ledger at most once |
| Greedy.GreedyKeepsOrder | api/reconciler/matchers.py:56-62 | the greedy reference definition keeps the order of the candidate list |
| Greedy.CommitIsGreedy | api/reconciler/matchers.py:56-62 | the commit loop picks exactly the pairs of the greedy reference definition over the two unmatched sets: a candidate is taken when both its rows are still free, and its rows then stop being free |
| Greedy.GreedyAppend | api/reconciler/matchers.py:56-62 | picking from a list split in two is picking from the first part, then from the second among the rows the first part left free |
| Greedy.CommitGreedy | api/reconciler/matchers.py:56-62 | for a list without repeats, candidate k is committed iff both its rows were unmatched at the start and no pair committed from the candidates before k uses either row, so the first candidate listed for a row wins |
| Greedy.PairRowsDistinct | api/reconciler/utils.py:47-52 | the row lists of pairwise disjoint pairs name each row once and exactly the rows the pairs use |
| Greedy.SortByGap | api/reconciler/matchers.py:102 | sorting by day gap permutes the candidates |
| Greedy.SortOrdersByGapThenPair | api/reconciler/matchers.py:102 | the stable sort of candidates collected in (i, j) order leaves them ordered by gap, ties in (i, j) order |
| PairMatchers.CandidateGapMeaning | api/reconciler/matchers.py:29-54 | an exact candidate has agreeing amounts (cross or same side) and both dates present on one day; a fuzzy candidate has agreeing amounts and both dates present 1 to fuzzy_date_range days apart, with the gap as its key |
| PairMatchers.Candidates | api/reconciler/matchers.py:26-54 | a pair is a candidate iff both rows are unmatched and pass the stage's test, and candidates are listed in (i, j) order |
| PairMatchers.FindExactMatches | api/reconciler/matchers.py:18-64 | disabled, it changes nothing; enabled, every committed pair agrees in amount within match_tolerance and falls on one day, and exactly the committed rows are relabelled Matched; which candidates are committed is stated by PairMatchers.ExactMatchesGreedy |
| PairMatchers.ExactMatchesDisjointInOrder | api/reconciler/matchers.py:56-62 | exact pairs use each row at most once, come out in (i, j) order, and are appended to both matched lists |
| PairMatchers.ExactMatchesMaximal | api/reconciler/matchers.py:26-62 | no two rows left unmatched by an enabled exact stage agree in amount on one day |
| PairMatchers.ExactMatchesGreedy | api/reconciler/matchers.py:56-62 | enabled, the k-th exact candidate in (i, j) order is matched iff both its rows were unmatched and no earlier candidate matched either of them |
| PairMatchers.FindFuzzyMatches | api/reconciler/matchers.py:66-113 | disabled, it changes nothing; enabled, every committed pair agrees in amount and its dates are 1 to fuzzy_date_range days apart, and exactly the committed rows are relabelled Matched but check date; which candidates are committed is stated by PairMatchers.FuzzyMatchesGreedy |
| PairMatchers.FuzzyMatchesDisjointInOrder | api/reconciler/matchers.py:102-110 | fuzzy pairs use each row at most once, are committed in non-decreasing gap order with ties in (i, j) order, and are appended to both fuzzy lists |
| PairMatchers.FuzzyMatchesMaximal | api/reconciler/matchers.py:78-110 | no two rows left unmatched by an enabled fuzzy stage are a fuzzy candidate |
| PairMatchers.FuzzyMatchesGreedy | api/reconciler/matchers.py:102-110 | enabled, the k-th fuzzy candidate in sorted order is matched iff both its rows were unmatched and no earlier sorted candidate matched either of them |
| SubsetSearch.FirstSingle | api/reconciler/matchers.py:119-121 | the answer is the first position whose single amount is within the tolerance of the target, or none exists |
| SubsetSearch.FirstPair | api/reconciler/matchers.py:122-126 | the answer is the first pair a < b, in nested-loop order, whose sum is within the tolerance, or none exists |
| SubsetSearch.FirstMask | api/reconciler/matchers.py:128-137 | the answer is the least mask whose chosen amounts sum to within the tolerance, or none exists |
| SubsetSearch.SubsetSumSound | api/reconciler/matchers.py:116-138 | the empty answer comes exactly when the target is within the tolerance of zero; a non-empty answer is the candidate-ordered ids of a non-empty selection summing to within the tolerance |
| SubsetSearch.SubsetSumNoneExactly | api/reconciler/matchers.py:116-138 | there is no answer exactly when the target is not near zero, no single and no pair fits, and either there are more than ten candidates or no mask fits |
| SubsetSearch.SubsetSumPriority | api/reconciler/matchers.py:119-126 | a fitting single candidate wins (the first one); failing that, the first fitting pair wins |
| SubsetSearch.SubsetSumMaskPriority | api/reconciler/matchers.py:127-137 | with no fitting single or pair and at most ten candidates, the answer is the least fitting mask's selection |
| SubsetSearch.SubsetSum | api/reconciler/matchers.py:116-138 | the subset search itself; its contract is stated by SubsetSearch.SubsetSumSound, SubsetSearch.SubsetSumNoneExactly, SubsetSearch.SubsetSumPriority and SubsetSearch.SubsetSumMaskPriority |
| SplitMatcher.Requirement | api/reconciler/matchers.py:153-161 | a source row qualifies iff exactly one of debit or credit is positive and the other is zero; the requirement is that positive amount, drawn from the opposite target column |
| SplitMatcher.SplitCandidates | api/reconciler/matchers.py:167-178 | every candidate is a visited target row that is eligible (positive in the needed column, dated, within split_match_date_range days) and carries its amount in that column, and every eligible visited row is a candidate |
| SplitMatcher.TrySplit | api/reconciler/matchers.py:149-180 | a split is found only for a row still unmatched, and its target rows are unmatched and listed in ascending order |
| SplitMatcher.TrySplitSound | api/reconciler/matchers.py:149-181 | a split found is a sound group: distinct eligible target rows whose amounts sum to within match_tolerance of the requirement |
| SplitMatcher.TrySplitFindsSingle | api/reconciler/matchers.py:119-121 | an eligible unmatched target row whose amount fits a non-negligible requirement guarantees that a split is found |
| SplitMatcher.TrySplitFindsPair | api/reconciler/matchers.py:122-126 | two distinct eligible unmatched target rows whose amounts together fit a non-negligible requirement guarantee that a split is found |
| SplitMatcher.NoneMeansNoSmallCover | api/reconciler/matchers.py:116-126 | a row the search leaves unsplit against some target rows has, among any subset of those rows, no single eligible row and no two distinct eligible rows that reach its amount within the tolerance |
| SplitMatcher.MarkTargets | api/reconciler/matchers.py:184-187 | the chosen target rows are relabelled Split Transaction, leave the unmatched set, and are appended to the target split list in order |
| SplitMatcher.MarkSource | api/reconciler/matchers.py:182-188 | the source row is relabelled Split Transaction, leaves the unmatched set, and is appended to the source split list |
| SplitMatcher.FindSplitTransactions | api/reconciler/matchers.py:140-192 | disabled, it changes nothing; enabled, both ledgers are relabelled Split Transaction on exactly the source rows and the target rows of the groups found; which groups are found is stated by SplitMatcher.SplitGreedy and SplitMatcher.SplitMaximal |
| SplitMatcher.SplitGroupsSound | api/reconciler/matchers.py:149-189 | every group's source row was unmatched and one-sided, and its targets were unmatched, eligible and sum to within tolerance |
| SplitMatcher.SplitStageRecords | api/reconciler/matchers.py:182-187 | groups come out by ascending source row, no target row serves two groups, and the split lists grow by exactly the source rows and the target rows in order |
| SplitMatcher.SplitRowsDistinct | api/reconciler/matchers.py:182-187 | groups with distinct sources and disjoint, repeat-free targets give split lists that name each row once and exactly the source and target rows of the groups |
| SplitMatcher.TrySplitFrame | api/reconciler/matchers.py:150-181 | the search for a row depends only on the rows, on whether that row is still unmatched, and on which target rows are unmatched |
| SplitMatcher.SplitLoopTurns | api/reconciler/matchers.py:149-189 | each group of the loop is the search's answer for its source row against the target rows left unmatched by the groups of earlier source rows, and each other visited row gets no split at its turn |
| SplitMatcher.SplitGreedy | api/reconciler/matchers.py:149-189 | which rows are split: every group is exactly what the search returns for its source row against the target rows still unmatched at that row's turn, and every other unmatched source row of an enabled stage gets no split at its turn; with the ascending sources this fixes the groups |
| SplitMatcher.SplitMaximal | api/reconciler/matchers.py:149-189 | after an enabled stage, a one-sided, dated source row left unmatched whose amount is not within the tolerance of zero has no eligible leftover target row that covers it alone, and no two distinct eligible leftover rows that cover it together |
| RoundingMatcher.RoundingAmounts | api/reconciler/matchers.py:206-225 | a pair qualifies iff the date gate passes and debit1/credit2 or else credit1/debit2 are both positive, within rounding_tolerance and round to the same integer; the amounts reported are the first such pair |
| RoundingMatcher.MarkRounding | api/reconciler/matchers.py:226-233 | both rows get the rounding remark carrying x and y, leave their unmatched sets, and are appended to the rounding lists |
| RoundingMatcher.RoundingStageSound | api/reconciler/matchers.py:204-233 | every rounding match joins a row unmatched before the stage with a second-ledger row unmatched before the stage, passes the test, and no second-ledger row is used twice |
| RoundingMatcher.RoundingStageRemarks | api/reconciler/matchers.py:226-228 | each matched second-ledger row carries the remark of its match, and each matched first-ledger row carries the remark of its last match |
| RoundingMatcher.RoundingStageRecords | api/reconciler/matchers.py:229-230 | both rounding lists grow by the matched rows, one entry per match, in match order |
| RoundingMatcher.RoundingMaximal | api/reconciler/matchers.py:204-234 | when the stage is on, no two rows it leaves unmatched qualify |
| RoundingMatcher.RoundingGreedy | api/reconciler/matchers.py:204-234 | exactly which matches the stage makes: a match of first-ledger row i with second-ledger row j, on the amounts the test reports, is made iff the stage is on, both rows were unmatched when it began, and no unmatched first-ledger row before i qualifies with j. So a first-ledger row takes every free row it qualifies with, and a second-ledger row goes to the first row that qualifies with it. The matches come out in (i, j) order, which fixes the list |
| RoundingMatcher.RoundingProgress | api/reconciler/matchers.py:195-237 | the stage only removes rows from the unmatched sets and writes a verdict on every row it removes |
| RoundingMatcher.FindRoundingErrors | api/reconciler/matchers.py:195-237 | disabled, it changes nothing; enabled, each ledger loses from its unmatched set exactly the rows of the matches, and no remark outside those rows changes; which matches are made, and in what order, is stated by RoundingMatcher.RoundingGreedy; soundness, remarks, lists and maximality are stated by the RoundingMatcher.RoundingStage lemmas and RoundingMatcher.RoundingMaximal |
| RoundingMatcher.RowsMembers | api/reconciler/matchers.py:229-230 | the rounding lists name exactly the rows the matches use |
| ReturnedMatcher.ReturnedSymmetric | api/reconciler/main_processor.py:75-95 | the returned-pair test gives the same answer with the two rows swapped |
| ReturnedMatcher.PartnerFrom | api/reconciler/main_processor.py:70-92 | the partner found is the first later, unmarked row of the snapshot that forms a returned transaction with row i, or none exists |
| ReturnedMatcher.ScanDistinct | api/reconciler/main_processor.py:66-103 | no row is named by two returned pairs, and none that was marked before |
| ReturnedMatcher.ScanMaximal | api/reconciler/main_processor.py:67-103 | no two rows of the snapshot left unpaired form a returned transaction |
| ReturnedMatcher.FindReturnedTransactions | api/reconciler/main_processor.py:63-106 | exactly the rows of the pairs are relabelled Returned Transaction and leave the unmatched set, and the returned list grows by both rows of each pair, two entries per pair; which pairs are formed is stated by ReturnedMatcher.ReturnedFirstPartner and ReturnedMatcher.ReturnedAtTurn |
| ReturnedMatcher.ReturnedStageSound | api/reconciler/main_processor.py:63-103 | every pair joins an earlier and a later row unmatched before the stage, its dates are present and at most a day apart, one is a pure debit and the other a pure credit of agreeing amount |
| ReturnedMatcher.ReturnedMaximal | api/reconciler/main_processor.py:63-104 | no two rows the stage leaves unmatched form a returned transaction |
| ReturnedMatcher.PartnerIsFirst | api/reconciler/main_processor.py:70-103 | the partner the search finds for an unmarked row is not marked, and no unmarked snapshot row strictly between the two reverses the earlier one |
| ReturnedMatcher.ScanFirstPartner | api/reconciler/main_processor.py:65-103 | every pair of the scan is the first partner of its earlier row with the rows of the pairs before it marked |
| ReturnedMatcher.ScanOrdered | api/reconciler/main_processor.py:65-69 | the pairs come out by strictly ascending earlier row, each a row of the snapshot at or after the scan's position |
| ReturnedMatcher.ScanAtTurn | api/reconciler/main_processor.py:65-103 | a snapshot row left unpaired had no unmarked later partner when its turn came |
| ReturnedMatcher.ReturnedFirstPartner | api/reconciler/main_processor.py:65-103 | the first-partner rule for the stage: pairs come out by ascending earlier row; when a pair's turn comes neither row is used by an earlier pair; every unmatched row strictly between the two that reverses the earlier one is used by an earlier pair |
| ReturnedMatcher.ReturnedAtTurn | api/reconciler/main_processor.py:65-104 | an unmatched row the stage leaves unpaired is reversed by no later unmatched row that the pairs of earlier rows left unused |
| Records.Relabelled | api/reconciler/main_processor.py:85-90 | the given unmatched rows get the remark and leave the unmatched set, every other row and the row lists are kept |
| Records.ProgressKeepsSynced | api/reconciler/main_processor.py:145-157 | a stage that makes progress keeps "unmatched iff the remark is still empty" |
| Reconciler.Missing | api/reconciler/main_processor.py:126-127 | a column is reported missing iff it is expected and absent |
| Reconciler.Fill | api/reconciler/main_processor.py:140-143 | a missing debit or credit becomes 0, present amounts and the date are kept |
| Reconciler.Prepare | api/reconciler/main_processor.py:140-157 | every row is filled, every remark starts empty, every row is unmatched, and all row lists are empty |
| Reconciler.Reconcile | api/reconciler/main_processor.py:126-189 | a sheet lacking an expected column fails before any matching, the first ledger checked first; it succeeds iff both have all four columns, and then returns the staged and labelled ledgers |
| Reconciler.MatchAll | api/reconciler/main_processor.py:169-184 | the seven stages in order keep both ledgers' rows; what they do to remarks, unmatched sets and lists is stated by Reconciler.MatchAllProgress, Reconciler.MatchAllReturnedRows and Accounting.MatchAllAccounted |
| Reconciler.Run | api/reconciler/main_processor.py:169-189 | the stages followed by the labelling keep both ledgers' rows; the labels are stated by Reconciler.RunLabelsEveryRow and the lists by Accounting.RunTalliesMatchRemarks |
| Reconciler.MatchAllProgress | api/reconciler/main_processor.py:169-184 | through the seven stages in order, each ledger only loses unmatched rows, every row that leaves gets a verdict, and no other remark changes |
| Reconciler.Finalize | api/reconciler/main_processor.py:186-189 | rows still unmatched read Unmatched, every other remark is kept |
| Reconciler.FinalizeLabels | api/reconciler/main_processor.py:186-189 | after labelling every row has a non-empty remark, reading Unmatched iff still unmatched |
| Reconciler.RunLabelsEveryRow | api/reconciler/main_processor.py:169-189 | after the stages and the labelling every row of both ledgers has a non-empty remark, and reads Unmatched iff no stage matched it |
| Reconciler.MatchAllReturnedRows | api/reconciler/main_processor.py:169-184 | each ledger's returned list grows by exactly the two rows of each returned pair of that ledger |
| Reconciler.UnmatchedRows | api/reconciler/formatting.py:36-47 | the rows listed are exactly those whose remark is Unmatched, in ascending order |
| Reconciler.ReportCounts | api/reconciler/create_report.py:93-100 | the category counts; they are related to the pairs by Reconciler.RunReturnedCount and Reconciler.RunUnmatchedCount, and to the remarks by Accounting.ReportCountsMatchRemarks |
| Reconciler.RunReturnedCount | api/reconciler/create_report.py:97 | the halved returned-list length the report shows equals the number of returned pairs |
| Reconciler.RunUnmatchedCount | api/reconciler/create_report.py:99 | the report's unmatched count equals the number of rows no stage matched |
| Reconciler.ReconcileLabelsAndCounts | api/reconciler/create_report.py:93-100 | a successful reconciliation labels every row, and its report counts one returned transaction per pair and one unmatched row per leftover row |
| Reconciler.ClosingMatch | api/reconciler/main_processor.py:204-205 | the mirrored closing check; its meaning is stated by Reconciler.ClosingMatchSymmetric and Reconciler.ClosingMatchNets |
| Reconciler.ClosingMatchSymmetric | api/reconciler/main_processor.py:204-205 | the mirrored closing check does not depend on which ledger comes first |
| Reconciler.ClosingMatchNets | api/reconciler/main_processor.py:204-205 | on two closing splits, opposite net positions agree iff they cancel within the tolerance, and same-side positions agree only when both are within the tolerance of zero |
| Reconciler.PrepareSums | api/reconciler/main_processor.py:140-143 | summing the filled rows gives the column sums with missing amounts counted as 0 |
| Reconciler.TotalMatch | api/reconciler/main_processor.py:207-212 | with all closing figures present it holds iff debit totals agree and credit totals agree, each total being a column sum plus the closing figure on the same side; a missing figure gives no verdict |
| Reconciler.TotalMatchSymmetric | api/reconciler/main_processor.py:207-212 | the total check does not depend on which ledger comes first |
| Reconciler.TotalMatchReflexive | api/reconciler/main_processor.py:207-212 | a ledger compared with itself under one opening balance always passes the total check |
| Accounting.FreshAccounted | api/reconciler/main_processor.py:145-167 | before the first stage, with every remark empty and every list empty, each list names exactly the rows carrying its remark |
| Accounting.AccountedRelabel | api/reconciler/utils.py:41-54 | a stage that relabels unmatched rows and appends exactly those rows, once each, to the list of their remark keeps every list equal to the rows carrying its remark |
| Accounting.AccountedRounding | api/reconciler/matchers.py:226-230 | rows given rounding remarks and appended to the rounding list keep the rounding list equal to the rows with a rounding remark and change no other list |
| Accounting.AccountedFinalize | api/reconciler/main_processor.py:186-189 | labelling the leftovers Unmatched changes no list and none of the rows a list names |
| Accounting.ExactAccounted | api/reconciler/matchers.py:56-62 | the exact stage keeps both ledgers in step and accounted for |
| Accounting.FuzzyAccounted | api/reconciler/matchers.py:104-110 | the fuzzy stage keeps both ledgers in step and accounted for |
| Accounting.SplitAccounted | api/reconciler/matchers.py:182-187 | a split stage keeps both ledgers in step and accounted for |
| Accounting.RoundingAccounted | api/reconciler/matchers.py:226-230 | the rounding stage keeps both ledgers in step and accounted for |
| Accounting.ReturnedAccounted | api/reconciler/main_processor.py:85-90 | the returned stage keeps a ledger in step and accounted for |
| Accounting.MatchAllAccounted | api/reconciler/main_processor.py:169-184 | all seven stages in order keep both ledgers accounted for |
| Accounting.RunTalliesMatchRemarks | api/reconciler/main_processor.py:145-189 | after a whole run each ledger's matched, fuzzy, split and returned lists name exactly the rows with that remark, each once, and its rounding list names exactly the rows with a rounding remark |
| Accounting.ReportCountsMatchRemarks | api/reconciler/create_report.py:94-98 | on an accounted ledger the matched, fuzzy and split counts are the numbers of rows with those remarks, the returned count is half the number of returned rows, and the rounding count is at least the number of rows with a rounding remark |
| Accounting.ReconcileTallies | api/reconciler/create_report.py:93-100 | a successful reconciliation ends with both ledgers accounted for, so its report counts are the numbers of rows carrying each remark |
| BalanceRepair.HasInfixIff | api/ocr/utils/validate_and_fix.py:42 | the name test finds the bank's name exactly when it occurs as a contiguous piece of the ledger name |
| BalanceRepair.ConsistentClosedForm | api/ocr/utils/validate_and_fix.py:25-35 | in a consistent ledger each balance equals the opening balance plus the credits minus the debits of the rows up to it |
| BalanceRepair.FixMissingBalances | api/ocr/utils/validate_and_fix.py:25-35 | amounts and row count are kept, and every balance becomes the balance before it (the opening balance for the first row) plus its credit minus its debit |
| BalanceRepair.Movement | api/ocr/utils/validate_and_fix.py:58-74 | the amounts are non-negative with at most one nonzero, take the balance from prev to bal, and the debit is nonzero iff the balance fell |
| BalanceRepair.RecalculateTransactions | api/ocr/utils/validate_and_fix.py:53-76 | balances and row count are kept, every debit and credit is non-negative with at most one nonzero per row, and every row moves the balance before it to its own balance |
| BalanceRepair.FixShiftedBalances | api/ocr/utils/validate_and_fix.py:38-50 | debit and credit are swapped iff the name contains Emirates NBD; every balance but the last moves up one row; the last is the old last balance plus the row's (possibly swapped) credit minus debit |
| BalanceRepair.ShiftConsistent | api/ocr/utils/validate_and_fix.py:45-48 | moving each balance of an offset-by-one ledger up one row, keeping the amounts, and recomputing the last balance from the one now above it gives a ledger where every balance is the one before plus credit minus debit |
| BalanceRepair.ShiftRepairsOffset | api/ocr/utils/validate_and_fix.py:38-50 | on a ledger whose balances sit one row too low (first row showing the opening balance, each later row the balance after the row above), once the columns are swapped back, the shift repair yields a ledger where every balance is the one before plus credit minus debit |
| BalanceRepair.Choose | api/ocr/utils/validate_and_fix.py:8-22 | a missing balance selects the fill repair; else no rows fails; else a final balance within 1e-9 of opening + Σcredit − Σdebit is left alone; else a first balance within 1e-9 of the opening balance next to a two-sided row selects the shift repair, which fails below two rows; else recalculation |
| BalanceRepair.ConsistentIsBalanced | api/ocr/utils/validate_and_fix.py:12-14 | a non-empty consistent ledger is returned unchanged |
| BalanceRepair.ValidateAndFix | api/ocr/utils/validate_and_fix.py:3-22 | it fails exactly where the choice fails; it keeps the row count; an already balanced ledger comes back unchanged; the fill and recalculation repairs return a consistent ledger that a second run leaves unchanged; the shift repair returns the shifted ledger |

## Left out

- Workbook and sheet I/O is not modelled: reading the sheets, copying worksheets, writing remarks and colours into cells, report styling and saving. Configuration loading and logging are left out too. They are file plumbing or presentation; configuration is a parameter.
- The `data_start_row` offset is not modelled. The row lists hold ledger indices. The source adds a constant to each, which changes no count and no order.
- pandas date parsing and coercion (`pd.to_datetime`, string-date fallbacks, `process_date_cell`) is not modelled. Dates are already optional day numbers. Time of day is ignored, so "same calendar day" is equality of day numbers.
- IEEE-754 arithmetic is not modelled. Amounts are exact reals and the `1e-9` comparisons use an exact constant.
- The two-decimal text of the rounding remark is not modelled. The remark carries the two compared amounts instead.
- Python set iteration order is modelled as ascending index order. The source's real order is an implementation detail of CPython sets of small integers.
- The `returned_count` log line and the counts the matchers return are not modelled. The count is the length of the pair list each stage returns.
- OCR extraction, the language-model calls and the Streamlit pages are not modelled. They are foreign calls and user interface.
- BalanceRepair.Entry: debit and credit cells are always present. A NaN amount on the repair side is not modelled, because pandas arithmetic would spread NaN into balances, and that is float behaviour.
- Reconciler.Reconcile: stops at the state of api/reconciler/main_processor.py:189, the labelled ledgers and row lists. The source raises `TypeError` at line 201 (see above), so nothing after that line runs: no closing or total check, no report, no saved workbook and no returned path. The model does not model that exception, nor the `ValueError` that the dict unpacking at lines 201-202 would cause next (see above). The two checks after it are separate functions (`Reconciler.ClosingMatch`, `Reconciler.TotalMatch`). They take the dict's values as the closing figures, so they describe the checks only as they would run with both defects corrected.
- SplitMatcher.SplitMaximal: states only that no single row and no pair of rows covers a row left unsplit, not that no larger subset does. The search tries every subset only when a row has at most 10 candidates (api/reconciler/matchers.py:128). A row with more than 10 candidates at its turn may have 10 or fewer eligible rows left at the end, and a larger subset among those may fit. `SplitMatcher.SplitGreedy` states the exact rule at each row's turn.
- Reconciler.ClosingMatch, Reconciler.TotalMatch: take the closing figures as the values of the dict `calculate_closing_balance` returns. As written, api/reconciler/main_processor.py:201-202 unpacks the dict into its keys, so the checks at lines 204-212 would raise instead of comparing.
- ReturnedMatcher.FindReturnedTransactions: compares amounts with the configured match tolerance. The source compares them with `amount_tolerance`, which api/reconciler/utils.py:8-9 reads from its own configuration load at import time (api/reconciler/main_processor.py:84, 95). The two agree only because both modules load the same configuration; a separately loaded configuration is not modelled.
