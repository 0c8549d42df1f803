# IRTify core, modelled in Dafny

IRTify is a Streamlit application for analysing multiple-choice tests. Its core logic is modelled here:

- **Item response theory (IRT) proxies**, from `src/irt.py`. For each item:
  - difficulty is the share of examinees who match the answer key;
  - discrimination is the correlation between the item and the total score, read as 0 when it is NaN;
  - guessing is one over the number of distinct answers.
- **Differential item functioning (DIF)**, from `src/dif.py`. The examinees are split by a two-valued group column. The IRT proxies are estimated on each half against the same key. The three differences per item become a chi-square statistic, a p-value and a 5 % flag.
- **Total scores**, from `calculate_scores` in `src/new_project.py`.
- **Classical test theory (CTT) answer tables**, from `src/ctt.py`. These are the per-question option counts, with the keyed answer highlighted, and the colours of the single-item histogram.
- **The per-student topic mastery report**, from `src/student_report.py`.
- **The question–topic bipartite graph and the topic co-occurrence graph**, from `src/network.py`. A networkx graph is a class whose nodes, node attribute, edges and edge attribute are updated in place.
- **The answer-key lookups and the letter check of the explanation loop**, from `src/explanation.py`.

DataFrames are sequences of rows, or labelled sheets where labels matter. Python exceptions become `Result` errors. Foreign numeric routines are parameters:

- `np.corrcoef` is `Irt.Correlation`; its NaN rule is modelled exactly.
- `np.exp` is a function argument of `Irt.Sigmoid`.
- `scipy.stats.chi2.sf` is `Dif.SurvivalFunction`.
- The language-model call is `Explanation.Explainer`.

Python's `str.split(",")`, `str.strip()` and `sorted` on strings are modelled exactly (`Topics`, `Ctt.Less`).

Modules:
- `Wrappers`: `Option` and `Result`.
- `Sequences`: pandas `unique()` in order of first appearance, and occurrence counts.
- `Topics`: the reading of a `mapped_topics` cell.
- `Irt`, `Dif`, `Scoring`, `Ctt`, `StudentReport`, `Network` and `Explanation`: one module per source file.

## Model

| member | source | states |
|---|---|---|
| Sequences.Unique | src/dif.py:46 | every label of the column is listed exactly once, nothing else is listed, and the first row's label comes first |
| Sequences.UniqueKeepsFirstAppearanceOrder | src/dif.py:46-50 | the distinct labels come in order of first appearance, so `group1` first occurs before `group2` |
| Sequences.SecondUniqueIsFirstDifferent | src/dif.py:50 | `group2` is the first label that differs from the first row's label |
| Sequences.Count | src/ctt.py:67 | an occurrence count is at most the length, and it is zero exactly when the value is absent |
| Sequences.CountLast | src/ctt.py:67 | a count is the count of all but the last element, plus one if the last element is the value |
| Sequences.CountInDistinct | src/ctt.py:67 | in a list without repetitions each value occurs at most once |
| Sequences.UniqueCountsAddUp | src/ctt.py:67 | the counts of the distinct values add up to the length of the column |
| Topics.Split | src/network.py:18 | `split(",")` gives at least one piece, and no piece contains a comma |
| Topics.JoinSplit | src/network.py:18 | joining the pieces with the separator gives the string back |
| Topics.SplitJoin | src/network.py:33 | separator-free pieces, once joined, split back into the same pieces |
| Topics.SplitLength | src/network.py:73 | there is one more piece than the string has separators |
| Topics.LeadingSpacesRun | src/network.py:35 | the leading run of whitespace is counted in full and no further |
| Topics.TrailingSpacesRun | src/network.py:35 | the trailing run of whitespace is counted in full and no further |
| Topics.StripShape | src/network.py:35 | `strip()` returns the slice of the input between its whitespace runs, which starts and ends with a non-space |
| Topics.Strip | src/network.py:35 | no contract of its own: `Topics.StripShape`, `Topics.StripIdempotent` and `Topics.StripAllSpace` state what `strip()` returns |
| Topics.StripAll | src/network.py:35 | the list comprehension strips every piece, one stripped topic per piece, in order |
| Topics.StripIdempotent | src/network.py:74 | stripping twice is stripping once |
| Topics.StripAllSpace | src/student_report.py:27 | a piece of whitespace only strips to the empty topic |
| Topics.StripKeepsOut | src/network.py:35 | stripping adds no character, so a stripped piece stays comma-free |
| Topics.SplitTopicsShape | src/student_report.py:26-27 | a topic string names one topic per comma-separated piece, each comma-free, and `""` names the single empty topic |
| Topics.SplitTopics | src/student_report.py:26-27 | no contract of its own: `Topics.SplitTopicsShape` states the pieces it returns |
| Topics.CellTopics | src/network.py:17-19 | a list cell gives one topic per item, and a string cell one topic per comma-separated piece |
| Irt.CorrectCount | src/irt.py:12 | the count of rows that match the key on an item is at most the number of rows; it equals it exactly when every row matches, and is zero exactly when none does. `Irt.CorrectCountIsColumnSum` gives its value |
| Irt.CorrectCountIsColumnSum | src/irt.py:12-23 | the correct count of an item is the sum of its 0/1 column, the vector discrimination correlates |
| Irt.DifficultyIsColumnMean | src/irt.py:12-13 | difficulty is the mean of the item's 0/1 column |
| Irt.Difficulty | src/irt.py:8-15 | difficulty is the correct count divided by the number of rows. It lies in [0, 1]; it is 1 exactly when every row matches the key on the item, and 0 exactly when none does |
| Irt.MatchCount | src/irt.py:19 | the matches over the first n items are at most n; they equal n exactly when all match, and are 0 exactly when none match |
| Irt.Indicator | src/irt.py:19 | a 0/1 value, 1 exactly when the row matches the key on the item |
| Irt.Score | src/irt.py:19 | a total score lies in [0, len(key)] |
| Irt.ScoreIsSumOfIndicators | src/irt.py:19-23 | a total score is the sum of the examinee's 0/1 item indicators |
| Irt.DiscriminationUndefinedIsZero | src/irt.py:24-25 | discrimination is 0 with at most one examinee, with a constant item column, or with constant total scores |
| Irt.Discrimination | src/irt.py:17-26 | discrimination is the correlation of the item's 0/1 column with the total scores when neither vector is constant, and 0 when one is, so always 0 with at most one examinee |
| Irt.ItemIndicators | src/irt.py:23 | one 0/1 entry per row, 1 exactly when that row matches the key on the item |
| Irt.Scores | src/irt.py:19-20 | one total score per row, each in [0, len(key)] |
| Irt.CorrelationOrZero | src/irt.py:24-25 | the correlation when neither vector is constant, and 0 (NaN replaced) when one is |
| Irt.SingleItemScoresAreIndicators | src/irt.py:19-23 | with a one-item key, the item column is the score vector |
| Irt.DiscriminationBounded | src/irt.py:24-25 | discrimination is in [-1, 1] whenever the correlation routine's result is |
| Irt.OptionsCount | src/irt.py:32 | at least one distinct answer is seen, and exactly one when every row gives the same answer |
| Irt.Options | src/irt.py:32 | every row's answer to the item is among the distinct answers |
| Irt.OptionsAreAnswers | src/irt.py:32 | every distinct answer was given by some row |
| Irt.Guessing | src/irt.py:32-34 | guessing is one over the number of distinct answers. It lies in (0, 1], and it is 1 exactly when every row gave the same answer, right or wrong |
| Irt.ItemParams | src/irt.py:44-49 | metrics row i describes item i+1. Its difficulty is the correct count over the number of rows, its discrimination the item–total correlation with NaN read as 0, and its guessing one over the number of distinct answers. Difficulty is 1 exactly when every row matches the key, and guessing is 1 exactly when every row gave the first row's answer |
| Irt.EstimationFailure | src/irt.py:8-35 | the estimators succeed exactly when every row covers the key and there is a row or the key is empty; a non-empty key with no rows divides by zero |
| Irt.ItemParamsInRange | src/irt.py:44-49 | metrics row i describes item i+1, with difficulty in [0, 1] and guessing in (0, 1] |
| Irt.SigmoidAtDifficulty | src/irt.py:4-6 | at ability equal to the difficulty, the curve is halfway between the guessing floor and 1 |
| Irt.Sigmoid | src/irt.py:4-6 | with a guessing floor in [0, 1], the curve stays between the floor and 1, and a floor of 1 makes it flat at 1 |
| Irt.CalculateDifficulty | src/irt.py:8-15 | gives IndexError when a row is shorter than the key, and otherwise ZeroDivisionError for a non-empty key with no rows; else one difficulty per item, in key order |
| Irt.CalculateDiscrimination | src/irt.py:17-26 | gives IndexError exactly when a row is shorter than the key; else one discrimination per item, in key order |
| Irt.CalculateGuessing | src/irt.py:28-35 | fails like difficulty; else one guessing value per item, in key order |
| Irt.CalculateIrtMetrics | src/irt.py:37-51 | gives exactly len(key) rows, `Item` running 1..n, with row i's three parameters those of item i; the errors are those of the estimators |
| Dif.Partition | src/dif.py:51-52 | the partition is the rows at the group's positions, in row order: its j-th row is the row at the j-th such position |
| Dif.InGroup | src/dif.py:51-52 | pandas `==` on the group column: a NaN label matches no group, and a known label matches exactly its own value |
| Dif.GroupPositions | src/dif.py:51-52 | the boolean mask as positions: strictly increasing, each labelled with the group, and every position labelled with the group is listed |
| Dif.PositionsAreGroup | src/dif.py:51-52 | a position is listed exactly when its label matches the group |
| Dif.PartitionEmptyIff | src/dif.py:51-61 | a label present in the column has an empty partition exactly when it is NaN |
| Dif.PartitionSizes | src/dif.py:51-52 | with labels drawn from two different groups, each row with a known label is at a position of exactly one of the two partitions, a NaN-labelled row is in neither, and the sizes add up to the number of rows |
| Dif.PartitionCounts | src/dif.py:51-52 | the two partition sizes plus the NaN count add up to the number of rows |
| Dif.PartitionNonEmpty | src/dif.py:51-52 | a known label that occurs in the column has a non-empty partition |
| Dif.PartitionOfMissing | src/dif.py:51-52 | NaN equals no label, so the NaN partition is empty |
| Dif.EstimationFailsOnlyForMissingLabel | src/dif.py:46-61 | with two distinct labels, one of the partitions is empty exactly when one label is NaN |
| Dif.Compare | src/dif.py:77-99 | one item's row copies both groups' estimates, takes each difference as group 1 minus group 2, sets chi2 to their sum of squares (≥ 0, and 0 exactly when all three are 0) and the p-value to sf(chi2); DIF is flagged exactly when p < 0.05 |
| Dif.Square | src/dif.py:82 | a square is non-negative and is zero exactly at zero |
| Dif.SquareIsProduct | src/dif.py:82 | the square is `x * x` |
| Dif.Chi2 | src/dif.py:82 | the statistic is ≥ 0, and 0 exactly when every difference is 0 |
| Dif.CompareSwapped | src/dif.py:77-99 | swapping the groups negates each difference and keeps chi2, p-value and flag |
| Dif.CompareIdentical | src/dif.py:77-99 | identical estimates give zero differences and chi2 0, and no flag when sf(0) = 1 |
| Dif.DifRowsSwapped | src/dif.py:64-100 | swapping the groups' tables negates every row's differences and keeps its chi2 and flag |
| Dif.IdenticalGroupsShowNoDif | src/dif.py:64-100 | two groups with identical estimates show chi2 0, p-value 1 and no DIF on any item |
| Dif.CompareItems | src/dif.py:64-100 | the item loop gives one comparison row per item, with a 0-based `Item`, in key order |
| Dif.DifRows | src/dif.py:64-100 | one row per item, numbered from 0; row k compares the two tables' k-th entries, with chi2 ≥ 0 and DIF flagged exactly when p < 0.05 |
| Dif.CreateDifReport | src/dif.py:41-103 | fails on a missing group column and on a distinct-label count other than 2. With two labels, `Dif.Outcome` states the result: the groups are the labels in order of first appearance, both partitions are estimated against the same key, and the rows compare them item by item. An estimation error appears exactly when the key is non-empty and a partition is empty |
| Scoring.CountAgreeing | src/new_project.py:88 | the agreeing pairs are at most all pairs, and all pairs agree exactly when every pair matches |
| Scoring.Zip | src/new_project.py:88 | `zip` pairs the response and the key position by position, up to the shorter of the two |
| Scoring.MatchingAnswers | src/new_project.py:88 | a score is at most the length of the response and of the key |
| Scoring.MatchingAnswersBounds | src/new_project.py:88 | a score is at most the length of both the response and the key, and a row as long as the key scores full marks exactly when it equals the key |
| Scoring.MatchingAnswersSymmetric | src/new_project.py:88 | swapping response and key leaves the score unchanged |
| Scoring.MatchingAnswersIsIrtScore | src/new_project.py:88 | on rows as long as the key, the score is the IRT total score |
| Scoring.CalculateScores | src/new_project.py:66-93 | gives None for an empty frame and IndexError for a frame with only the dropped row. Otherwise each student row after the key row gets exactly one score, in order, labelled by its ID, and counted against the key without the ID column |
| Scoring.RowScore | src/new_project.py:87-89 | a student's score carries the row's ID and is less than the length of both the row and the key row, which include the ID cell |
| Scoring.ScoresBounded | src/new_project.py:87-89 | each score is at most the number of items, and it reaches that exactly when the row repeats the key |
| Ctt.LessIrreflexive | src/ctt.py:14 | Python's string order is irreflexive |
| Ctt.LessTransitive | src/ctt.py:14 | Python's string order is transitive |
| Ctt.LessTotal | src/ctt.py:14 | any two different strings are ordered |
| Ctt.Less | src/ctt.py:14 | no contract of its own: `Ctt.LessIrreflexive`, `Ctt.LessTransitive` and `Ctt.LessTotal` show it is a strict total order |
| Ctt.Insert | src/ctt.py:14 | insertion keeps a list strictly sorted and adds exactly the one value |
| Ctt.SortedDistinct | src/ctt.py:14 | `sorted(set(xs))` is strictly ascending and holds exactly the values of xs |
| Ctt.SortedListingIsUnique | src/ctt.py:14 | two strictly sorted lists with the same members are equal |
| Ctt.Answered | src/ctt.py:14 | the answers of a row leave out the NaN cells and nothing else: each answer occurs as often as in the row, and the length is the row's length less its NaN cells |
| Ctt.Stack | src/ctt.py:14 | `stack()` holds exactly the non-NaN answers of the rows |
| Ctt.Column | src/ctt.py:26 | `df[col]` has one cell per row, the row's cell in that column |
| Ctt.AllOptions | src/ctt.py:14 | `all_options` is strictly ascending and holds exactly the answers given in the rows after the first |
| Ctt.Chart | src/ctt.py:26-33 | there is one count per option, zero exactly when the column lacks it. The key is highlighted exactly when it is one of the options, at its own position, where the count is at least 1 |
| Ctt.KeyRowIsCounted | src/ctt.py:10-26 | a count includes the key row's own cell as well as the student answers |
| Ctt.CreateCttReport | src/ctt.py:8-49 | gives IndexError for a frame without rows. Otherwise it draws one chart per column over `all_options`, and the list it returns is empty |
| Ctt.Position | src/ctt.py:63 | a Python position is valid exactly in [-n, n), and a negative one counts from the end |
| Ctt.Histogram | src/ctt.py:51-79 | gives IndexError exactly for a frame without rows or an item index outside the row; otherwise each bar's height is the number of student rows (after row 0) whose cell holds that alternative, as `value_counts` at line 67 |
| Ctt.HistogramAlternatives | src/ctt.py:66-67 | each answer a student gave gets exactly one bar, of non-zero height, and no bar shows anything else |
| Ctt.StudentAnswers | src/ctt.py:66-67 | an answer is listed exactly when some student row after the first gave it to the question, as often as the rows gave it; the length is the student rows less the blank ones |
| Ctt.HistogramGreenBar | src/ctt.py:70 | a bar is green exactly when its alternative is the first-row key, so at most one bar is green, and there is one exactly when some student chose the key |
| Ctt.BarsShape | src/ctt.py:67 | the bars over a list of answers name each distinct answer exactly once, on a bar of non-zero height, and nothing else |
| Ctt.HistogramCountsAddUp | src/ctt.py:67 | the bars add up to the number of students who answered the question: the student rows less those whose cell is blank |
| StudentReport.Lookup | src/student_report.py:21 | a cell is found exactly when both its row label and its column label exist, and it is the cell at their row and column |
| StudentReport.ToDict | src/student_report.py:9 | the topic map's keys are the question numbers of the metrics rows |
| StudentReport.ToDictLastWins | src/student_report.py:9 | a repeated question number keeps the topics of its last row |
| StudentReport.UnmappedQuestionTopics | src/student_report.py:22 | a question without a mapping yields the single empty topic |
| StudentReport.QuestionTopicsCount | src/student_report.py:22-31 | a string mapping yields one topic per comma-separated piece |
| StudentReport.QuestionTopics | src/student_report.py:22-31 | the topics of a question fail, with `NotAString`, exactly when its mapped value is not a string; otherwise there is at least one topic |
| StudentReport.ReportUpTo | src/student_report.py:12-31 | each student row gets one record, in index order, carrying that student's label and mastery |
| StudentReport.MasteryUpTo | src/student_report.py:19-31 | a successful record lists only comma-free topics, in both lists. `StudentReport.MasteryRouting` states which topics go to each list |
| StudentReport.MasteryRouting | src/student_report.py:19-31 | a topic is mastered exactly when some scored question the student answered as keyed lists it, and needs study exactly when some scored question the student missed lists it |
| StudentReport.MasteryStep | src/student_report.py:20-31 | one question: the key column changes nothing; a scored question appends its topics, in order, to mastered when answered as keyed and to needs_study otherwise |
| StudentReport.MasteryStepOk | src/student_report.py:20-31 | one more question keeps the record successful exactly when it is the key column or has a key and a string topic value |
| StudentReport.Report | src/student_report.py:12-31 | a successful report has one record per student label, in index order, carrying that label |
| StudentReport.MasteryErrorSticks | src/student_report.py:19-31 | once a question raises, the student's record stays failed |
| StudentReport.ReportErrorSticks | src/student_report.py:12-31 | once a student raises, the report stays failed |
| StudentReport.MasteryOk | src/student_report.py:19-31 | a student's record fails exactly when a scored question has no key or has a non-string topic value |
| StudentReport.ReportOk | src/student_report.py:4-31 | the report fails exactly when there is a student and some scored question has no key or has a non-string topic value |
| StudentReport.ReportUpToOk | src/student_report.py:12-31 | the records of the first n students succeed exactly when the first student's does |
| StudentReport.MasteryLength | src/student_report.py:19-31 | len(mastered) + len(needs_study) is the number of topic pieces over the scored questions, duplicates included |
| StudentReport.MasteryExtremes | src/student_report.py:24-31 | needs_study is empty exactly when every scored answer matches its key, and mastered is empty exactly when none does |
| StudentReport.MasteryErrorFree | src/student_report.py:19-31 | a successful record succeeded on every shorter prefix of questions |
| StudentReport.AppendTopics | src/student_report.py:26-27 | the topic loop appends the stripped pieces of the split string, in order |
| StudentReport.StudentMastery | src/student_report.py:13-31 | the inner loop computes the student's record as specified by `MasteryUpTo` |
| StudentReport.GenerateStudentReport | src/student_report.py:4-31 | the outer loop computes the report as specified by `Report` |
| Network.TopicRows | src/network.py:28-35 | each metrics row gives exactly one topic row |
| Network.TopicRowsAt | src/network.py:29-35 | a topic row is its question number with the split and stripped topics of its cell |
| Network.ReadRow | src/network.py:29-35 | reading a row gives its question number and its stripped topics |
| Network.Graph.constructor | src/network.py:9 | a new graph is empty |
| Network.Graph.AddNodesFrom | src/network.py:24-25 | adds the nodes and sets their `bipartite` attribute, leaving the edges alone |
| Network.Graph.AddEdge | src/network.py:38 | adds both ends and the undirected edge; adding one that is there already changes nothing |
| Network.Graph.AddEdgeWithQuestion | src/network.py:82 | as AddEdge, and the edge's `question` attribute is replaced |
| Network.TopicsUpToFromRow | src/network.py:16-19 | every collected topic comes from some row |
| Network.TopicsUpTo | src/network.py:16-19 | no contract of its own: `Network.TopicsUpToFromRow` and `Network.TopicsUpToHasRow` state what it collects |
| Network.TopicsUpToHasRow | src/network.py:16-19 | every row's topics are collected |
| Network.CollectedTopicNodes | src/network.py:21 | the distinct collected topics are the topics of the rows |
| Network.CollectTopics | src/network.py:16-19 | the `topics.extend` loop collects every row's stripped topics, in row order |
| Network.SidesOfNodes | src/network.py:24-25 | questions get side 0 and topics side 1, since the two kinds never clash |
| Network.AddBipartiteNodes | src/network.py:12-25 | adds the question numbers on side 0 and the distinct topics on side 1, and no edge |
| Network.AddQuestionEdges | src/network.py:37-38 | adds an edge from the question to each of its topics and nothing else |
| Network.GenerateBipartiteGraph | src/network.py:7-40 | the nodes are the questions on side 0 and the distinct stripped topics on side 1. The edges are exactly those from each question to each of its topics, with no edge attribute |
| Network.BipartiteEdgesCrossSides | src/network.py:24-38 | every edge joins a side-0 question to a side-1 topic |
| Network.BipartiteEdgeIff | src/network.py:28-38 | a question is joined to a topic exactly when some row maps it to that topic |
| Network.BipartiteEdges | src/network.py:28-38 | no contract of its own: `Network.BipartiteEdgeIff` and `Network.BipartiteEdgesCrossSides` state which edges it holds |
| Network.RepeatedRowAddsNothing | src/network.py:21-38 | repeating a row adds no node and no edge |
| Network.FewTopicsNoEdges | src/network.py:76-77 | a question with 0 or 1 topics adds no edge |
| Network.RepeatedTopicSelfLoop | src/network.py:76-82 | a topic listed twice in one question gives a self-loop |
| Network.QuestionOfLastRow | src/network.py:67-82 | an edge's `question` is the last row, in row order, that produced the pair |
| Network.QuestionOfKeys | src/network.py:82 | the `question` attribute is defined on exactly the edges |
| Network.QuestionOf | src/network.py:82 | no contract of its own: `Network.QuestionOfKeys` and `Network.QuestionOfLastRow` state its keys and values |
| Network.TopicEdgesFromRow | src/network.py:76-82 | every topic-graph edge joins the topics at two positions i < j of one row |
| Network.PairInTopicEdges | src/network.py:76-82 | every such pair of positions is an edge |
| Network.PairEdges | src/network.py:76-82 | no contract of its own: `Network.TopicEdgesFromRow`, `Network.PairInTopicEdges` and `Network.FewTopicsNoEdges` state which pairs it holds |
| Network.TopicEdges | src/network.py:66-82 | no contract of its own: `Network.TopicEdgesFromRow` and `Network.PairInTopicEdges` state which edges it holds |
| Network.PairEndsAreNodes | src/network.py:76-82 | both topics of a pair are nodes |
| Network.TopicGraphNodes | src/network.py:76-82 | the nodes are exactly the topics at either end of some pair i < j of one row |
| Network.AddPairEdges | src/network.py:76-82 | the i < j loops add every pair of one row, tagged with its question, and leave the graph's nodes equal to the ends of its edges |
| Network.GenerateTopicGraph | src/network.py:62-84 | the edges are the pairs i < j of every row. The nodes are their ends, `question` names the last row producing each edge, and no node attribute is set |
| Explanation.CorrectAnswers | src/explanation.py:14-16 | the key is the whole row at position 1, and IndexError is raised exactly when the sheet has fewer than two rows |
| Explanation.CorrectAnswersSkipTitles | src/explanation.py:16 | the titles row is skipped and the key row returned |
| Explanation.AlternativeColumn | src/explanation.py:78 | the letters A to E name columns 2 to 6 in order, and no other string names a column |
| Explanation.AlternativesUpTo | src/explanation.py:83-97 | the only error is IndexError, and every key of the dictionary is the question number of one of the rows read |
| Explanation.AlternativesOk | src/explanation.py:83-97 | the lookup raises exactly when a row with a valid letter is too short for its column |
| Explanation.AlternativesKeys | src/explanation.py:83-97 | the dictionary's keys are exactly the question numbers whose key letter is in the table |
| Explanation.AlternativesLastWins | src/explanation.py:94-97 | an entry is the correct alternative's cell from the last row with that question number |
| Explanation.GetCorrectAlternativeText | src/explanation.py:76-99 | the row loop computes the dictionary as specified by `AlternativesUpTo` |
| Explanation.ErrorSticks | src/explanation.py:83-97 | once a row raises, the loop does not resume |
| Explanation.KeyAt | src/explanation.py:49 | `correct_answers[int(q) - 1]` succeeds exactly within Python's index range, and reads the q-th letter for 1 ≤ q ≤ len |
| Explanation.ExplanationColumn | src/explanation.py:49-53 | the check passes exactly when the upper-cased letter is A to D, and then gives that letter's column in the A–E table (2..5) |
| Explanation.UpperString | src/explanation.py:49 | `.upper()` keeps the length, upper-cases each character, and leaves no lower-case ASCII letter |
| Explanation.ExplainQuestion | src/explanation.py:49-59 | a question failing the letter check produces nothing; one passing it raises IndexError when the row lacks the column, and otherwise produces the explainer's answer for its statement and that column's alternative |
| Explanation.Truthy | src/explanation.py:66 | no contract of its own: `Explanation.ExplanationsSound` and `Explanation.ExplanationsComplete` show that only non-empty explanations are filed |
| Explanation.ExplanationColumnCaseBlind | src/explanation.py:49 | a lower-case key letter passes like its capital |
| Explanation.LetterTablesAgree | src/explanation.py:32-78 | the two tables agree on A to D; E has an alternative but is never explained; lower case is accepted only by the check |
| Explanation.QuestionZeroWraps | src/explanation.py:49 | question 0 reads the last key letter |
| Explanation.Processed | src/explanation.py:68-70 | at most the first twelve questions are processed, and all of them when there are no more |
| Explanation.StaleExplanationReused | src/explanation.py:49-67 | counterexample: a question that fails the letter check has the previous question's explanation filed under its statement |
| Explanation.FirstQuestionUnbound | src/explanation.py:66 | a first question that fails the check reads `explanation` unbound |
| Explanation.AsWrittenUpTo | src/explanation.py:40-70 | the loop as written files only non-empty explanations, each under the statement of a question read, and once a question is read `explanation` is bound |
| Explanation.CreateExplanationsAsWritten | src/explanation.py:30-72 | as written, an answer sheet without a key row raises IndexError first, an empty table then divides by zero, and the result files only non-empty explanations under statements of processed questions |
| Explanation.AsWrittenErrorSticks | src/explanation.py:40-70 | once a question raises, the loop as written stays failed |
| Explanation.AsWrittenAgreesWhenAllPass | src/explanation.py:51-67 | when every question passes the check, the loop as written and the corrected loop agree |
| Explanation.ExplanationsSound | src/explanation.py:40-70 | every filed explanation belongs to a question with that statement that passed the check and produced it |
| Explanation.ExplanationsComplete | src/explanation.py:40-70 | every question that passes the check with a non-empty explanation is filed, unless a later question has the same statement |
| Explanation.ExplanationsErrorSticks | src/explanation.py:40-70 | once a question raises, the corrected loop stays failed |
| Explanation.ExplanationsUpTo | src/explanation.py:40-70 | the corrected loop files only non-empty explanations, each under the statement of a question read |
| Explanation.CreateExplanations | src/explanation.py:30-72 | an answer sheet without a key row raises IndexError first, then an empty table divides by zero. Otherwise the corrected loop computes `ExplanationsUpTo` with the sheet's key row over the processed questions |

## Left out

- The Streamlit display, the progress bar, the subheaders and all plotting. `CreateCttReport` and `Histogram` return what is drawn.
- `np.corrcoef`, `np.exp` and `chi2.sf` are parameters, and the model computes on exact reals, not floats. Only the NaN rule of `np.corrcoef` is modelled: the correlation is NaN when a vector is constant.
- Irt.Sigmoid: `exp` is a parameter, required only to be non-negative where it is used, so the contract bounds the curve but does not state that it rises with ability.
- Dif.Square: computes `x ** 2` as |x|·|x|; `Dif.SquareIsProduct` shows it is `x * x`.
- The pandas work before the group check of `create_dif_report` is not modelled: reading the files, the left merge on the student identifier, and slicing off the key row. The model starts from the key, the response rows and the merged group column. A student missing from the info table has the label `Missing` (NaN).
- Dif.CreateDifReport: requires every response row to be as long as the key, since all rows come from one DataFrame.
- Scoring.CalculateScores and Ctt.CreateCttReport: require a rectangular frame, as a DataFrame is. Column labels are not modelled.
- Ctt.Histogram: orders the bars by first appearance, which is the order `value_counts(sort=False)` gives in current pandas.
- NaN answers in the CTT frame are modelled as `None` and dropped by `stack()`, and `value_counts` never counts them. Answers are strings; non-string answers are not modelled.
- Irt.CorrectCount: answer cells compare with reflexive equality, so NaN answers and keys are not modelled; in pandas a NaN key matches no answer, NaN included, while here equal cells always match. The same holds for Irt.Indicator and, through both, for Dif.CreateDifReport.
- Irt.Indicator: NaN answers and keys are not modelled; cells compare with reflexive equality.
- Irt.Options: NaN answers are not modelled; `set()` may keep distinct NaN objects apart, while here equal cells are one option.
- Scoring.CountAgreeing: NaN answers and keys are not modelled; cells compare with reflexive equality.
- Scoring.CalculateScores: drops only the first row. pandas `df.drop(df.index[0])` drops every row whose label equals the first row's label; the model treats the index labels as distinct.
- StudentReport.WellFormed: requires distinct row and column labels. pandas allows repeated labels, but `loc` then returns frames rather than cells, and the source does not handle that case.
- StudentReport.MasteryUpTo: NaN answers and keys are not modelled; `student_answer == correct_answer` is reflexive equality here.
- StudentReport.Lookup: the positional fallback of `series[key]` for an integer key on a non-integer index is not modelled, and row and column labels share one type.
- StudentReport.QuestionTopics: a list topic value raises AttributeError on `split`, modelled as the error `NotAString`. A NaN topic value, which raises the same way, is not modelled: `TopicCell` has only string and list cells.
- Network.TopicRows: a NaN `mapped_topics` cell, a float that cannot be iterated, is not modelled. Cells are strings or lists of strings.
- Network.Graph.Valid: states that edge ends are nodes and that attributes sit on existing nodes and edges. The shape of edges is stated by `Network.BipartiteEdgesCrossSides` and `Network.TopicEdgesFromRow` instead.
- networkx's insertion order of nodes and edges, and the order of `list(set(topics))`, are not modelled: nodes and edges are sets.
- Question numbers are modelled as integers and topics as strings, so the two kinds of node never coincide.
- Explanation.Upper: upper-cases ASCII letters only; Unicode case mapping is not modelled.
- Explanation.ExplanationColumn: key letters are strings; a NaN key cell, on which `.upper()` raises, is not modelled.
- The language-model call, its prompt and the API key handling are left out: `Explainer` is a parameter returning `None` where the call fails.
- `app.py`, `degree-distribution.py`, `create_full_network`, `create_network_report`, `semantic.py` and the file upload are outside the modelled core.

## Findings

| source | as written | input that shows it | evidently intended | confidence | as-written member | corrected member |
|---|---|---|---|---|---|---|
| src/explanation.py:49-67 | `explanation` is assigned only inside the letter check, and is read after it on every question. A question that fails the check files the previous question's explanation under its own statement; if the first question fails, the read is unbound. | Two questions keyed "A" and "E": question 2's statement gets question 1's explanation, while `ExplanationColumn(["A", "E"], 2)` gives no column. | Only questions that pass the check are explained and filed. | not executed | Explanation.StaleExplanationReused | Explanation.ExplanationsSound |
