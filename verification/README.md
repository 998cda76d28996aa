# SafeClick classifier core and lexical URL features, in Dafny

SafeClick classifies URLs as phishing or legitimate. This project models the part of it that
decides things without touching the network:

- the from-scratch classifiers of `safeclick/phishing/custom_models.py`:
  - `DecisionTreeClassifierFromScratch`: greedy recursive growth on the Gini gain, the
    `<= threshold` goes-left rule and a majority-label leaf;
  - `GradientBoostingClassifierFromScratch`: a starting score plus `learning_rate` per tree
    voting 1, through a sigmoid;
  - `RandomForestClassifierFromScratch`: the feature-count rule, per-tree column subsets and a
    plurality vote;
- the pure lexical helpers of `models.py`: `is_random_string`, `is_ip_address`,
  `count_sensitive_words`, `is_embedded_brand_name`, and the inline brand flag and dot-count
  features;
- the lexical features of `feature_extraction.py`: character counts, `extract_no_https_feature`,
  `calculate_url_length_rt`, PathLevel, QueryLength, IpAddress, NumSensitiveWords, RandomString
  and EmbeddedBrandName.

The model is functional:

- A tree is `Leaf(label) | Node(feature, threshold, left, right)`.
- A data set is a sequence of `real` rows with a label sequence.
- Gini impurity and information gain use exact reals.
- `Counter.most_common(1)` is modelled as "the first label, in first-seen order, of maximal count".
- Strings are ASCII `seq<char>`. Python's `in`, `str.count`, `str.split`, `str.lower` and
  `startswith` are defined once in the `Text` module, each with its own contract.

Modules:

| file | module | models |
|---|---|---|
| wrappers.dfy | Wrappers | `Option` and `Result` for Python's `None` and raised errors |
| counting.dfy | Counting | `Counter` counts, first-seen key order, `most_common(1)` |
| dataset.dfy | Dataset | rows, columns, index selection, `_split` |
| impurity.dfy | Impurity | `_gini`, `_information_gain`, the proof that the gain is never negative |
| split_search.dfy | SplitSearch | `np.unique` thresholds and `_find_best_split` |
| decision_tree.dfy | DecisionTree | `_build_tree`, `fit`, `_traverse_tree`, `predict` |
| boosting.dfy | Boosting | boosting `fit` targets, `predict_proba`, `predict` |
| forest.dfy | Forest | forest feature count, `fit` bookkeeping, `predict` vote |
| ascii.dfy | Text | ASCII classes, lower-casing, substring search, counting, splitting |
| host_features.dfy | HostFeatures | the `models.py` helpers |
| url_features.dfy | UrlFeatures | the `feature_extraction.py` lexical features |

Randomness is an input to the model:

- The forest's bootstrap rows and feature subsets are passed in as a sequence of `Draw`s.
  Preconditions require that the row indices are in range and that the feature indices are
  distinct and in range.
- `np.log` is replaced by a given starting score `init`.
- The logistic function is a parameter `sigma` that satisfies `IsSigmoid`: values strictly
  between 0 and 1, strictly increasing, and one half at 0. `RationalSigmoid` shows the
  requirement can be met.

Where the code behaves differently from its description, the model follows the code:

- The split search starts from a best gain of -1, so a zero-gain split is still taken.
- Every boosting tree is trained on the same targets. The `predictions` vector is only updated
  after all trees exist, and nothing reads it afterwards.
- With an integer `random_state` every round of the forest's `fit` gets the same draw:
  - `resample` is handed the seed itself on every round, so the bootstrap rows repeat;
  - `np.random.choice` draws from the global generator, which the forest seeds before the first
    round and each tree's own `fit` re-seeds with the same value, so the feature subset repeats;
  - every tree is therefore the same tree, and the forest votes like that one tree
    (`Forest.RepeatedDrawActsAsOneTree`).
  With `random_state=None` the draws differ. Because the draws are inputs, the model covers both.
- `is_ip_address` has no 0-255 range check. It also accepts any run of hex digits,
  so "cafe" counts as an IP address.
- The IpAddress feature of the feature extractor is a prefix match with no scheme skipped, so
  "http://1.2.3.4" gives 0.
- The "https"/"www" exemption of `is_embedded_brand_name` is case-sensitive, while its brand
  search is not.

## Model

| member | source | states |
|---|---|---|
| Dataset.Where | safeclick/phishing/custom_models.py:95-96 | the indices on one side of the threshold: in range, ascending, and `i` is listed exactly when `col[i] <= t` agrees with the side |
| Dataset.Split | safeclick/phishing/custom_models.py:94-97 | every index goes to exactly one side, left exactly when its value is at most the threshold; both sides ascending; the sizes add up to the column length |
| Dataset.SplitCounts | safeclick/phishing/custom_models.py:41-45 | every label's count in `y` is the sum of its counts in `y[left_idxs]` and `y[right_idxs]` |
| Counting.Count | safeclick/phishing/custom_models.py:50 | a count is at most the length and positive exactly for the present values |
| Counting.CountMultiplicity | safeclick/phishing/custom_models.py:50 | the count of `x` equals the multiplicity of `x` in the multiset of `s` |
| Counting.Distinct | safeclick/phishing/custom_models.py:89 | the distinct labels without repetition, exactly the values of `s` |
| Counting.DistinctSingleton | safeclick/phishing/custom_models.py:27-30 | exactly one distinct label iff every label equals the first |
| Counting.SumCountsDistinct | safeclick/phishing/custom_models.py:89-90 | the class counts add up to the number of labels |
| Counting.SquaredCountsPure | safeclick/phishing/custom_models.py:89-91 | the squared class counts lie between n and n², and reach n² exactly for a single class |
| Counting.FirstMax | safeclick/phishing/custom_models.py:50 | a key of maximal count such that every earlier key has a strictly smaller count |
| Counting.MostCommon | safeclick/phishing/custom_models.py:49-51 | `Counter(y).most_common(1)[0][0]`: a label of `y` with maximal count, seen no later than any label of equal count |
| Counting.PluralityUnique | safeclick/phishing/custom_models.py:49-51 | at most one label is both of maximal count and seen no later than every label of equal count, so the leaf label is determined |
| Counting.SumSquaredReorder | safeclick/phishing/custom_models.py:88-91 | the sum of squared class counts does not depend on the order in which the classes are listed |
| Counting.FirstSeenAmongTies | safeclick/phishing/custom_models.py:50 | first in first-seen key order among the maximal keys means first seen in the sequence |
| Impurity.Gini | safeclick/phishing/custom_models.py:87-91 | on non-empty labels the impurity lies in [0, 1) and is 0 exactly for a single class |
| Impurity.PureGini | safeclick/phishing/custom_models.py:87-91 | a constant label sequence has impurity 0 |
| Impurity.GiniIsOneMinusDot | safeclick/phishing/custom_models.py:87-91 | for any duplicate-free listing of the classes present, the impurity is `1 - dot(p, p)` with `p` the vector of `count / len(y)` over that listing |
| Impurity.InformationGain | safeclick/phishing/custom_models.py:69-85 | the gain is 0 when either side is empty and never negative |
| Impurity.GainNonNegative | safeclick/phishing/custom_models.py:78-85 | with both sides non-empty the weighted child impurity never exceeds the parent's |
| Impurity.GainAtMostParent | safeclick/phishing/custom_models.py:69-85 | the gain is at most the parent impurity, with equality for a proper split exactly when both sides are single-class |
| Impurity.SplitSquaresDistinct | safeclick/phishing/custom_models.py:80-82 | the integer form of the concavity of the impurity under a split |
| SplitSearch.Insert | safeclick/phishing/custom_models.py:58 | inserting into a strictly increasing sequence keeps it strictly increasing and adds exactly the new value |
| SplitSearch.Thresholds | safeclick/phishing/custom_models.py:58 | `np.unique(col)`: strictly increasing and holding exactly the column's values |
| SplitSearch.IncreasingUnique | safeclick/phishing/custom_models.py:58 | two strictly increasing sequences with the same values are equal, so the unique listing is determined |
| SplitSearch.FeatureCandidates | safeclick/phishing/custom_models.py:58-59 | one feature's candidates are exactly its column values, in ascending order |
| SplitSearch.Candidates | safeclick/phishing/custom_models.py:57-59 | the candidates of the first `f` features are exactly the feature/value pairs, in visiting order |
| SplitSearch.ScanFinds | safeclick/phishing/custom_models.py:59-65 | from a state meeting the search invariant, the scan ends on the first position of maximal value, or finds none only if nothing beats the start |
| SplitSearch.BestIndex | safeclick/phishing/custom_models.py:54-65 | from -1: no position iff every gain is at most -1, otherwise the first position of maximal gain |
| SplitSearch.PicksUnique | safeclick/phishing/custom_models.py:53-67 | at most one candidate has maximal gain and strictly beats every candidate visited before it |
| SplitSearch.PicksIsFound | safeclick/phishing/custom_models.py:53-67 | a candidate has that property exactly when `_find_best_split` returns it |
| SplitSearch.CandidateLeftNonEmpty | safeclick/phishing/custom_models.py:42-43 | a visited threshold is a value of its column, so the left side of its split is never empty and only the right side can be |
| SplitSearch.CandidatesExist | safeclick/phishing/custom_models.py:57-59 | a candidate exists exactly when there is a feature and a row |
| SplitSearch.FindBestSplit | safeclick/phishing/custom_models.py:53-67 | `None` exactly without features or rows; otherwise a candidate of maximal gain beating every candidate visited before it |
| SplitSearch.BestCandidate | safeclick/phishing/custom_models.py:53-67 | the position chosen among the gains gives a candidate that is maximal and strictly beats every earlier one in visiting order |
| DecisionTree.BuildTree | safeclick/phishing/custom_models.py:25-47 | a node exactly when no stopping condition holds, the search finds a split and that split sends rows both ways, and then it tests the split `_find_best_split` returns; otherwise the `most_common(1)` leaf; recursively so on each side (`Built`); it tests features below the width, has only training labels in its leaves and height at most `max_depth - depth` |
| DecisionTree.SplitOn | safeclick/phishing/custom_models.py:40-47 | a node over the given split `c` exactly when both sides of `c` are non-empty, otherwise the `most_common(1)` leaf, with the same node-by-node description |
| DecisionTree.BuiltUnique | safeclick/phishing/custom_models.py:25-51 | two trees meeting the node-by-node description of `_build_tree` are equal |
| DecisionTree.OnlyBuildTree | safeclick/phishing/custom_models.py:25-51 | any tree meeting that description is the tree `_build_tree` returns |
| DecisionTree.Fit | safeclick/phishing/custom_models.py:15-20 | fails exactly on empty labels; otherwise the tree `_build_tree` grows from depth 0, of height at most `max_depth`, whose leaf labels occur in `y` |
| DecisionTree.Traverse | safeclick/phishing/custom_models.py:99-109 | the label returned is one stored in a leaf of the tree |
| DecisionTree.Predict | safeclick/phishing/custom_models.py:22-23 | one label per row, in row order, each the traversal of that row |
| DecisionTree.PureLabels | safeclick/phishing/custom_models.py:27-31 | a single-label `y` grows exactly one leaf predicting that label |
| DecisionTree.PredictionIsLeafMajority | safeclick/phishing/custom_models.py:49-51 | for any row, the predicted label is the `most_common(1)` label, the first seen of maximal count, among the training rows sharing its leaf |
| DecisionTree.TrainingRowReachesOwnLeaf | safeclick/phishing/custom_models.py:41-45 | each training row is among the rows of the leaf it reaches |
| DecisionTree.BestSplitIsPure | safeclick/phishing/custom_models.py:53-85 | if some single test separates two or more classes, every best candidate separates them |
| DecisionTree.OneTestSeparates | safeclick/phishing/custom_models.py:25-47 | with such a test and depth to spare, the tree is one node with two leaves that classifies every training row correctly |
| DecisionTree.PureLeavesClassify | safeclick/phishing/custom_models.py:99-109 | a node with two leaves over a separating split returns each training row's own label |
| Boosting.RationalSigmoidIsSigmoid | safeclick/phishing/custom_models.py:156 | the sigmoid requirements can be met |
| Boosting.TargetsThreshold | safeclick/phishing/custom_models.py:138-143 | `(y - sigmoid(init)) > 0` is 1 exactly when the label is at least 1, and equals `y` on 0/1 labels |
| Boosting.Fit | safeclick/phishing/custom_models.py:126-145 | fails only with trees to grow and no labels; otherwise `n` identical trees, each the tree `_build_tree` grows with the given `max_depth` from depth 0 on the one target vector (node-by-node description `Built`, height at most `max_depth`), with the given start and rate |
| Boosting.Votes | safeclick/phishing/custom_models.py:154-155 | the number of trees voting 1 is at most the number of trees |
| Boosting.ScoreCountsVotes | safeclick/phishing/custom_models.py:153-155 | with 0/1 trees the raw score is the start plus `learning_rate` times the number of 1-votes |
| Boosting.IdenticalVotes | safeclick/phishing/custom_models.py:142-145 | copies of one tree vote all at once or not at all |
| Boosting.PredictProba | safeclick/phishing/custom_models.py:151-157 | `[1 - p, p]` with `p` the sigmoid of the raw score; the pair sums to 1 |
| Boosting.ArgMax | safeclick/phishing/custom_models.py:162 | 1 exactly when the positive probability is strictly larger, so a tie gives 0 |
| Boosting.PredictIsSignOfScore | safeclick/phishing/custom_models.py:151-162 | the prediction is 1 iff the raw score is positive and 0 iff it is at most 0 |
| Boosting.FittedScore | safeclick/phishing/custom_models.py:142-155 | for a fitted ensemble the score is the start plus `n * learning_rate` when the shared tree says 1, else the start |
| Boosting.SharedTreeScore | safeclick/phishing/custom_models.py:153-155 | copies of one 0/1 tree add `n * learning_rate` or nothing |
| Boosting.NoTreesConstant | safeclick/phishing/custom_models.py:151-162 | without trees every row gets the same class, 1 iff the start score is positive |
| Forest.FloorSqrt | safeclick/phishing/custom_models.py:189 | `int(np.sqrt(n))`: the largest `r` with `r² <= n` |
| Forest.FloorLog2 | safeclick/phishing/custom_models.py:191 | `int(np.log2(n))` for `n >= 1`: the `r` with `2^r <= n < 2^(r+1)` |
| Forest.FeatureCount | safeclick/phishing/custom_models.py:188-193 | floor square root, floor logarithm or all features; fails only for "log2" with no features; never more than the feature count |
| Forest.Pick | safeclick/phishing/custom_models.py:211 | `x[feature_indices]`: the chosen columns in the chosen order |
| Forest.Project | safeclick/phishing/custom_models.py:205 | `X_sample[:, feature_indices]`: one projected row per drawn row, of the subset's width |
| Forest.GrowOne | safeclick/phishing/custom_models.py:197-206 | fails exactly on no rows; otherwise the tree `_build_tree` grows with the given `max_depth` from depth 0 on the drawn rows and columns |
| Forest.GrowAll | safeclick/phishing/custom_models.py:195-206 | one tree and one feature subset appended per draw, in order, nothing earlier changed |
| Forest.Fit | safeclick/phishing/custom_models.py:182-206 | fails exactly for "log2" with no features or for draws with no rows; otherwise both lists grow by one entry per draw, never cleared, and each new tree is the one grown from its draw |
| Forest.FitKeepsWellFormed | safeclick/phishing/custom_models.py:195-206 | the two lists stay equal in length, and each tree only tests columns of its subset |
| Forest.FitGrowsEachDraw | safeclick/phishing/custom_models.py:197-206 | tree `i` of a fit is the tree `_build_tree` grows on draw `i`'s rows and columns, and its stored column list is draw `i`'s |
| Forest.RepeatedDrawSameTree | safeclick/phishing/custom_models.py:195-206 | two rounds given the same draw append the same tree and the same column list |
| Forest.RepeatedDrawCopies | safeclick/phishing/custom_models.py:195-206 | when every round grows from one draw, every tree equals the first |
| Forest.RepeatedDrawActsAsOneTree | safeclick/phishing/custom_models.py:183-214 | a forest fitted from scratch on one repeated draw predicts, for every row of the training width, what its first tree says on the drawn columns |
| Forest.Ballot | safeclick/phishing/custom_models.py:210-212 | tree `k`'s vote is its traversal of the row restricted to its stored columns |
| Forest.Predict | safeclick/phishing/custom_models.py:208-214 | fails exactly with no trees or no rows; otherwise one label per row with maximal vote count, voted no later than any label of equal count |
| Forest.SingleTreeVote | safeclick/phishing/custom_models.py:208-214 | a one-tree forest predicts what its tree says on the stored columns |
| Forest.UnanimousVote | safeclick/phishing/custom_models.py:208-214 | when every tree gives a row the same label, the forest predicts it |
| Text.LowerStr | safeclick/phishing/models.py:474 | position by position the ASCII lower-casing |
| Text.LowerIdempotent | safeclick/phishing/models.py:474 | lower-casing twice is lower-casing once, and leaves no capital |
| Text.Contains | safeclick/phishing/models.py:481 | `w in s` is true exactly when `w` occurs at some position |
| Text.OccursAcrossBreak | safeclick/phishing/models.py:481 | a word cannot straddle a break whose last character is not in the word |
| Text.CountWord | safeclick/phishing/feature_extraction.py:13 | `s.count(w)` is positive exactly when `w` occurs, and non-empty occurrences fit in `s` |
| Text.CountWordIsPositions | safeclick/phishing/feature_extraction.py:36 | for a non-empty word whose first character does not recur, `s.count(w)` is the number of positions where `w` starts |
| Text.CountWordChar | safeclick/phishing/feature_extraction.py:13 | counting a one-character word counts that character's multiplicity |
| Text.Fields | safeclick/phishing/models.py:467 | `split`: one more piece than separators; no piece holds a separator; the first piece is the text before the first separator and the last the text after the last one |
| Text.JoinFields | safeclick/phishing/models.py:467 | joining the pieces with the separator gives the text back |
| Text.FieldsJoin | safeclick/phishing/models.py:467 | splitting a join of separator-free pieces gives the pieces back |
| HostFeatures.IsRandomString | safeclick/phishing/models.py:462-463 | true exactly when ten consecutive characters are ASCII letters or digits |
| HostFeatures.RandomStringMonotone | safeclick/phishing/models.py:462-463 | appending characters never turns true into false |
| HostFeatures.IsIpAddress | safeclick/phishing/models.py:465-470 | an accepted host starts with a hex digit, so the empty host is rejected |
| HostFeatures.IpWithoutPort | safeclick/phishing/models.py:467-468 | without a colon: accepted exactly when the whole host, with `$` allowing a final newline, is a dotted quad or a hex run |
| HostFeatures.PortIgnored | safeclick/phishing/models.py:467 | anything after the first colon is ignored |
| HostFeatures.DottedQuadAccepted | safeclick/phishing/models.py:468 | any four 1-3 digit groups joined by dots are accepted, with no range check |
| HostFeatures.OutOfRangeQuadAccepted | safeclick/phishing/models.py:468 | "999.999.999.999" is accepted |
| HostFeatures.QuadWithPortAccepted | safeclick/phishing/models.py:465-468 | "1.2.3.4:8080" is accepted |
| HostFeatures.HexWordAccepted | safeclick/phishing/models.py:468 | any non-empty run of hex digits is accepted |
| HostFeatures.HexWordExample | safeclick/phishing/models.py:468 | "cafe" is accepted |
| HostFeatures.EmptyHostRejected | safeclick/phishing/models.py:465-470 | the empty host is rejected |
| HostFeatures.CountPresentIsCard | safeclick/phishing/models.py:474 | counting the words present, each once, is the size of the set of present words |
| HostFeatures.CountSensitiveWords | safeclick/phishing/models.py:472-474 | the number of distinct keywords, of the six, occurring in the lower-cased URL; at most 6 |
| HostFeatures.SensitiveWordsIgnoreCase | safeclick/phishing/models.py:474 | the count does not depend on letter case |
| HostFeatures.SensitiveWordsMonotone | safeclick/phishing/models.py:472-474 | surrounding the URL with more text never lowers the count |
| HostFeatures.IsEmbeddedBrandName | safeclick/phishing/models.py:476-485 | false whenever "https" and "www" both occur; otherwise true exactly when a brand occurs in the lower-cased URL |
| HostFeatures.CapitalUrlNeverExempt | safeclick/phishing/models.py:480-485 | a URL with no lower-case letter is judged on its brands alone |
| HostFeatures.CapitalPaypalFlagged | safeclick/phishing/models.py:476-485 | an all-capital URL naming PAYPAL is flagged, "HTTPS://WWW.PAYPAL.COM" included |
| HostFeatures.InlineBrandFlag | safeclick/phishing/models.py:47-54 | false for scheme "https" with "www" in the host; otherwise true exactly when a brand occurs in the lower-cased host |
| HostFeatures.InlineFlagMatchesUrlCheck | safeclick/phishing/models.py:50-54 | for an "https" URL the inline flag on the host equals `is_embedded_brand_name` on "https://" + host |
| HostFeatures.DotCount | safeclick/phishing/models.py:58 | the number of dots in the host |
| HostFeatures.SubdomainLevel | safeclick/phishing/models.py:59 | `max(dots - 1, 0)`: the number of dot-separated labels beyond the last two |
| UrlFeatures.CountCharacters | safeclick/phishing/feature_extraction.py:12-13 | for one character, the number of times it occurs; positive exactly when it occurs |
| UrlFeatures.CountsOf | safeclick/phishing/feature_extraction.py:16-26 | NumDots, NumDash, NumUnderscore, NumPercent, NumQueryComponents and NumAmpersand are each the character's multiplicity |
| UrlFeatures.NoHttps | safeclick/phishing/feature_extraction.py:64-69 | 0 or 1, and 0 exactly when the first eight characters lower-case to "https://" |
| UrlFeatures.NoHttpsIgnoresCase | safeclick/phishing/feature_extraction.py:69 | the flag does not depend on letter case |
| UrlFeatures.CapitalSchemeIsHttps | safeclick/phishing/feature_extraction.py:69 | "HTTPS://..." gives 0 |
| UrlFeatures.PlainHttpFlagged | safeclick/phishing/feature_extraction.py:69 | "http://..." gives 1 |
| UrlFeatures.ShortUrlFlagged | safeclick/phishing/feature_extraction.py:69 | a URL shorter than "https://" gives 1 |
| UrlFeatures.UrlLengthRt | safeclick/phishing/feature_extraction.py:251-255 | the reciprocal of length + 1: in (0, 1], times length + 1 is 1, and 1 only for the empty URL |
| UrlFeatures.UrlLengthRtDecreasing | safeclick/phishing/feature_extraction.py:251-255 | strictly decreasing in the length |
| UrlFeatures.PathLevel | safeclick/phishing/feature_extraction.py:18 | the number of slashes plus the number of backslashes |
| UrlFeatures.QueryLength | safeclick/phishing/feature_extraction.py:35 | 0 without "?"; otherwise the length of the text after the last "?" |
| UrlFeatures.IpAddressFeature | safeclick/phishing/feature_extraction.py:30 | 0 or 1, and 1 only for a URL starting with a digit |
| UrlFeatures.QuadPrefixFlagged | safeclick/phishing/feature_extraction.py:30 | any URL that begins with four 1-3 digit groups joined by dots gives 1, whatever follows |
| UrlFeatures.SchemeFirstNotFlagged | safeclick/phishing/feature_extraction.py:30 | a URL starting with "http://" gives 0, as the match is anchored at the start |
| UrlFeatures.TotalCount | safeclick/phishing/feature_extraction.py:36 | a sum of word counts is positive exactly when some word occurs |
| UrlFeatures.NumSensitiveWords | safeclick/phishing/feature_extraction.py:36 | the sum, over "secure", "login" and "account", of the number of positions where the word starts in the lower-cased URL; positive exactly when one of them occurs |
| UrlFeatures.SensitiveCountsAgree | safeclick/phishing/feature_extraction.py:36 | a URL with a counted word also has one of the six keywords of `count_sensitive_words` |
| UrlFeatures.CapitalFlag | safeclick/phishing/feature_extraction.py:29 | 0 or 1, and 1 exactly when some character is a capital letter |
| UrlFeatures.LoweredHasNoCapital | safeclick/phishing/feature_extraction.py:29 | a lower-cased URL is never flagged |
| UrlFeatures.BrandFlag | safeclick/phishing/feature_extraction.py:37 | 0 or 1, and 1 exactly when "paypal" or "google" occurs in the lower-cased URL |
| UrlFeatures.BrandFlagsAgree | safeclick/phishing/feature_extraction.py:37 | a flagged URL names a brand, and `is_embedded_brand_name` flags it unless the "https"/"www" exemption applies |

## Left out

- Randomness: `np.random.seed`, `resample` and `np.random.choice` are not modelled. The forest
  takes its bootstrap rows and feature subsets as `Draw` inputs.
- Concurrency: the joblib `Parallel` tree training is modelled as an ordered sequential map.
- Floating point: `np.log`, `np.exp`, `np.sqrt` and `np.log2` are not modelled in floating point.
  - The starting score is a given real and the sigmoid is a parameter satisfying `IsSigmoid`.
  - The square root and logarithm are the exact integer floors `FloorSqrt` and `FloorLog2`.
  - Gini impurity and gain are exact reals, so near-ties that float rounding would decide
    differently are not modelled.
  - The infinite starting score of a single-class `y` is outside the model.
- Boosting.Fit: the loop after training that adds each tree's predictions to `predictions` is
  left out. Nothing reads that vector afterwards.
- Boosting.Fit: `classes_` and the label type are not modelled. Labels are integers, with 0/1
  standing for False/True.
- DecisionTree.Fit: rows narrower than `n_features` are excluded by the `Rectangular`
  precondition. numpy would raise an `IndexError` for them.
- DecisionTree.Fit, Forest.Fit, Boosting.Fit: a label vector whose length differs from the
  number of rows is excluded by the `|X| == |y|` precondition. numpy would raise an
  `IndexError` in `y[left_idxs]`, or count the extra labels in the parent impurity only; neither
  is modelled.
- DecisionTree.Traverse, DecisionTree.Predict, Boosting.PredictProba, Forest.Ballot,
  Forest.Predict: a row narrower than a feature a tree tests, or than a stored column index, is
  excluded by the `FeaturesBelow`, `AllFeaturesBelow` and `WellFormed` preconditions. numpy would raise an `IndexError` at `x[feature]`
  or `X[:, feature_indices]`, and that error is not modelled.
- Forest.Fit: the model does not keep the partial lists that remain after an exception part
  way through a fit. A failure returns no forest at all.
- `score` and `accuracy_score` of the three classifiers are not modelled. They are library
  metrics.
- Network-bound features are not modelled: every function that calls `requests` or
  `BeautifulSoup`.
- Library-parsed features are not modelled: everything computed from `urlparse`, `parse_qs` or
  `tldextract`.
  - This covers SubdomainLevel, NumDashInHostname, DomainInPaths and HostnameLength of the
    feature extractor, and `calculate_subdomain_level_rt`.
  - The scheme and hostname that `models.py` gets from `urlparse` are inputs to
    `InlineBrandFlag`, `DotCount` and `SubdomainLevel`.
- The assembly of the full feature vectors in `models.py` and `feature_extraction.py` is not
  modelled beyond the pieces listed above. Neither are NumNumericChars and the `~` count, which
  are plain character counts.
- The pickle model loading, the Django views and URL routing are not modelled.
- Unicode is not modelled. Strings are ASCII: `\d` means `0-9` and `lower()` changes only `A-Z`.
- Text.CountWord: the exact count is stated, by `CountWordIsPositions`, only for words whose
  first character does not recur. For a word that can overlap itself, such as "aa", the
  left-to-right count is smaller than the number of start positions, and no simple reference
  count was worth the proof. The three counted words of NumSensitiveWords do not overlap
  themselves.
- HostFeatures.IsIpAddress: the function's own contract states only that an accepted host
  starts with a hex digit. The full characterisation is `IpWithoutPort` for hosts without a
  colon, and `PortIgnored` for the rest.
- UrlFeatures.IpAddressFeature: the function's own contract states only that a flagged URL
  starts with a digit. Sufficiency is `QuadPrefixFlagged` for any four dotted groups.
