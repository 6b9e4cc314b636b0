# CBR movie recommender — a Dafny model

`CBR.py` is a case-based-reasoning movie recommender. It has a catalog of
movies, each with a runtime, an original language, a release date and four
lists (genres, actors, directors, keywords). It also has one user's ratings,
'5' for liked and '1' for disliked. It predicts whether the user likes a
movie from the five most similar rated movies, and measures itself by
cross-validation over the rated titles.

This project models that core in Dafny:

- `movies.dfy` (`Movies`): the catalog record, and reading a year from a
  release date (the text before the first `-`, read as a decimal numeral).
- `scoring.dfy` (`Scoring`): the seven weighted partial scores and their
  sum, `similarity`. Lower means more similar.
- `normalisation.dfy` (`Normalisation`): `runtimeNormalisation` and
  `yearNormalisation`. Each is one scan over the catalog that keeps a
  running maximum seeded with 0 and a running minimum seeded with 99999.
- `neighbours.dfy` (`Neighbours`): `mostSimilarMovies`. It scores a movie
  against every candidate, sorts the positions by score and keeps the
  first k.
- `vote.dfy` (`Vote`): the majority vote of `main` and `checkSuccess`.
- `folds.dfy` (`Folds`): numpy's `array_split` into ten parts, and the loop
  of `main` that builds a part's base set by removing the part's titles
  from a copy of all titles.
- `cross_validation.dfy` (`CrossValidation`): the body of `main` after the
  two files are read. For each part, it predicts every title from the
  base set, counts the right decisions, turns them into a percentage and
  averages the ten percentages.
- `ratings.dfy` (`Ratings`): `readRatings` over the lines of the ratings
  file, including the per-line parse of quoted titles.
- `seqs.dfy` (`Seqs`): small sequence facts shared by the modules above.

Scores and percentages are exact `real`s. The order of the titles, which
the source shuffles, is a parameter. The methods that the source writes as
loops are Dafny methods with loop invariants. Each is proved against a
specification predicate or function, and the lemmas state the properties
of those specifications.

In these places the model keeps what `CBR.py` does:

- A zero runtime or year range is a division by zero in `similarity`.
  The model requires non-zero ranges.
- numpy's `argsort` does not promise any order among equal scores, so
  the model lets any order of equal scores stand.
- More neighbours than candidates makes `mostSimilarMovies` fail on
  `posMin[i]`. The model requires `k <= |baseSet|`.
- A movie whose lists repeat no item is at distance zero from itself
  (`SelfDistanceZero`). A list with a repeated item can give a movie a
  positive distance from itself (`RepeatedItemSelfScore`), because
  `len` counts the repeats and the set intersection does not.
- An empty part is a division by zero in `main`. The model requires at
  least ten rated titles, so no part is empty.

## Model

| member | source | states |
|---|---|---|
| Movies.BeforeDash | CBR.py:179 | the first piece of `split('-')` is a prefix of the date that holds no dash and ends at the first dash or at the end |
| Movies.NumeralRoundTrip | CBR.py:240 | reading the decimal numeral of any natural number gives that number back |
| Movies.YearOf | CBR.py:179-180 | the year of a release date is the value of the decimal numeral before its first dash; it is defined only when that text is a numeral |
| Movies.YearOfDate | CBR.py:179-180 | a date written as a year numeral, a dash and anything else is valid, and its year is that number |
| Scoring.RangeScore | CBR.py:168 | the runtime and year partial is non-negative for a positive range, at most 1 when the difference is within the range, and 0 exactly when the two values are equal |
| Scoring.LanguageScore | CBR.py:172-175 | the language partial is 0 exactly when the codes are equal and 1 exactly when they differ |
| Scoring.MissingFraction | CBR.py:187-188 | the list partial lies in [0, 1], and for a list without repeats it is the fraction of A's items missing from B |
| Scoring.UnsharedIsMissing | CBR.py:187-188 | for a list without repeats, `len(A) - len(set(A) & set(B))` equals the number of A's items that B lacks |
| Scoring.UnsharedCount | CBR.py:187-188 | the length of A's list minus the number of distinct items the two lists share |
| Scoring.UnsharedExtremes | CBR.py:187-188 | when the lists share nothing the count is every entry of A; when B holds all of A's items it is the number of A's repeated entries |
| Scoring.UnsharedBounds | CBR.py:187-188 | `len(A) - len(set(A) & set(B))` lies between 0 and `len(A)` |
| Scoring.ElementsCard | CBR.py:187 | a list has at least as many entries as distinct items, and exactly as many when none repeats |
| Scoring.Weighted | CBR.py:169 | a partial in [0, 1] times a non-negative weight lies between 0 and the weight |
| Scoring.ListScore | CBR.py:186-189 | an empty list of A contributes 0, and any list contributes between 0 and its non-negative weight |
| Scoring.Similarity | CBR.py:161-215 | with positive ranges and non-negative weights the total score is non-negative |
| Scoring.SimilarityBounded | CBR.py:22-26 | when the differences lie within the ranges, the total score lies between 0 and the sum of the weights |
| Scoring.SimilarityMonotone | CBR.py:161-215 | raising any weight never lowers the score of a pair |
| Scoring.ListScoreMonotone | CBR.py:186-189 | raising a list's weight never lowers its contribution |
| Scoring.SelfDistanceZero | CBR.py:161-215 | a movie whose lists repeat no item scores 0 against itself, whatever the weights |
| Scoring.SelfListScoreZero | CBR.py:186-189 | a list without repeats contributes 0 against itself |
| Scoring.RepeatedItemSelfScore | CBR.py:187-188 | with a repeated genre the list partial of a movie against itself is 0.5, not 0 |
| Scoring.AsymmetricScore | CBR.py:184-189 | only A's list is checked for emptiness: a movie with one genre scores 1 against an otherwise equal movie with none, and 0 the other way round |
| Normalisation.RuntimeNormalisation | CBR.py:219-230 | the result is the greatest runtime or 0, whichever is larger, minus the least runtime or 99999, whichever is smaller |
| Normalisation.YearNormalisation | CBR.py:234-246 | the same for the release years read from the dates |
| Normalisation.ScanStep | CBR.py:225-228 | one more value keeps the running maximum and minimum the greatest and least seen so far |
| Normalisation.ScanRangeUnique | CBR.py:219-246 | the scan's result is determined by the set of values |
| Normalisation.ScanRangeOfNothing | CBR.py:221-222 | over an empty catalog the result is 0 - 99999 |
| Normalisation.ScanRangeIsSpread | CBR.py:221-230 | for values between 0 and 99999 the result is the greatest value minus the least |
| Normalisation.ScanRangeCovers | CBR.py:168 | the difference of any two scanned values is at most the range, so a runtime or year partial is at most 1 |
| Normalisation.ScanRangeZero | CBR.py:230 | for values between 0 and 99999 the range is 0 exactly when all values are equal |
| Neighbours.ArgSort | CBR.py:151 | the result lists every position of the scores exactly once, by ascending score |
| Neighbours.PrefixIsKSmallest | CBR.py:151 | the first k positions of such an ordering are k distinct positions whose scores are the k smallest |
| Neighbours.ScoresStep | CBR.py:148-149 | scoring one more candidate appends its score to the scores of the candidates before it |
| Neighbours.ScoreAll | CBR.py:145-149 | the similarities are the scores of the movie against each candidate, in base-set order |
| Neighbours.MostSimilarMovies | CBR.py:141-157 | the result has k titles, all from the base set, and they are the titles at k positions with the smallest scores |
| Neighbours.NearestPrefix | CBR.py:151-155 | the titles at the first k positions of an ordering of the scores are nearest neighbours taken from the base set |
| Neighbours.PickedFromBase | CBR.py:152-155 | every picked title is a title of the base set |
| Vote.LikedCount | CBR.py:91-95 | the number of neighbours rated '5' is at most the number of neighbours |
| Vote.LikedCountAppend | CBR.py:93-95 | the count of liked titles adds up over concatenated lists |
| Vote.CeilHalf | CBR.py:96 | `ceil(n / 2)` is the least r with n <= 2r |
| Vote.ThresholdIsHalf | CBR.py:96 | `liked >= ceil(n / 2)` holds exactly when liked titles are at least half |
| Vote.Recommend | CBR.py:90-97 | the movie is recommended exactly when at least half of its neighbours are rated '5' |
| Vote.ThresholdExamples | CBR.py:96 | with four neighbours two liked suffice and one does not; with five, three suffice and two do not |
| Vote.CheckSuccess | CBR.py:249-255 | a '5' succeeds exactly when recommended, a '1' exactly when not, and any other rating never succeeds |
| Folds.PartSize | CBR.py:63 | the size of part i: n / parts, plus one for the first n mod parts parts; never more than one above n / parts, and at least 1 when n >= parts |
| Folds.PartStart | CBR.py:63 | where part i starts: the sizes of the parts before it added up, between i short parts and i long ones |
| Folds.ArraySplit | CBR.py:63-64 | the split has exactly the requested number of parts |
| Folds.ArraySplitPart | CBR.py:63 | part i is the slice of the titles from its start to the next part's start, of size n / parts plus one for the first n mod parts parts |
| Folds.ArraySplitConcat | CBR.py:63-64 | the parts, joined in order, give back the titles |
| Folds.PartSizesBalanced | CBR.py:63 | part sizes differ by at most one, the longer parts come first, and no part is empty when there are at least as many titles as parts |
| Folds.Without | CBR.py:78-81 | removing a set keeps the list no longer |
| Folds.WithoutMembers | CBR.py:78-81 | a title stays after the removals exactly when it was in the list and is not removed |
| Folds.RemoveFirst | CBR.py:81 | `list.remove(x)` drops the first occurrence of x and keeps the rest in order |
| Folds.RemoveFirstOfDistinct | CBR.py:81 | in a list without repeats, removing the first occurrence removes every occurrence |
| Folds.WithoutTwice | CBR.py:79-81 | removing one set and then another is removing their union |
| Folds.WithoutKeepsDistinct | CBR.py:78-81 | removals keep a list without repeats |
| Folds.BaseSet | CBR.py:77-81 | the base set is the titles, in order, without those that belong to the part and to the catalog |
| Folds.BaseSetOfPart | CBR.py:77-81 | for a part that is the slice [a, b) of titles all in the catalog, the base set is the titles with that slice cut out, and its length is the number of titles minus the slice's length |
| Ratings.SplitOn | CBR.py:121 | `split(sep)` gives at least one piece, no piece holds the separator, and there are two or more pieces exactly when the separator occurs |
| Ratings.SplitJoin | CBR.py:121 | splitting a join of pieces without the separator gives the pieces back |
| Ratings.JoinSplit | CBR.py:121 | joining the pieces of a split gives the text back |
| Ratings.TrimStart | CBR.py:125 | the result is a suffix of the text, everything dropped is whitespace, and the result does not start with whitespace |
| Ratings.Word | CBR.py:125 | the result is a whitespace-free prefix that ends at whitespace or at the end |
| Ratings.FirstToken | CBR.py:125-127 | `split()[0]` fails exactly when the text is all whitespace, and otherwise is a non-empty word without whitespace |
| Ratings.FirstTokenOfWord | CBR.py:125-127 | a word followed by nothing or by whitespace is its own first token |
| Ratings.FirstTokenSkipsSpace | CBR.py:125-127 | leading whitespace does not change the first token |
| Ratings.QuotedTitle | CBR.py:124 | a quoted title is the text after the quote in field 1, a comma, and the text before the first quote in field 2; it holds a comma and no quote |
| Ratings.QuotedTitleOf | CBR.py:124 | a title `first,second` written as `"first` and `second"` is read back as `first,second` |
| Ratings.ParseRatingLine | CBR.py:120-127 | a line is skipped exactly when it does not start with '2', and a rating read from it is a non-empty word |
| Ratings.ParseFields | CBR.py:121-127 | the fields never give a skipped line, and a rating read from them is a non-empty word |
| Ratings.ParseJoined | CBR.py:120-121 | a line made of comma-free fields, the first starting with '2', is parsed from exactly those fields |
| Ratings.PlainLineRoundTrip | CBR.py:120-127 | a written line for a title without comma or leading quote reads back as that title and rating |
| Ratings.QuotedLineRoundTrip | CBR.py:120-125 | a written line for a quoted title with one comma reads back as that title and rating |
| Ratings.TwoCommaTitleMisread | CBR.py:123-125 | a quoted title with two commas is read as its first two pieces, and the address field is taken as the rating |
| Ratings.UnclosedQuotedTitle | CBR.py:124 | when the second field has no closing quote, the title runs to the end of that field |
| Ratings.ParseAll | CBR.py:119-127 | every line gives one parse result |
| Ratings.Collect | CBR.py:116-127 | the dictionary filled line by line, a later line for a title overwriting an earlier one, or no result once a line fails; it has at most one entry per line |
| Ratings.ReadRatings | CBR.py:115-129 | the loop gives the ratings collected from the parsed lines in order, or no result once a line fails |
| Ratings.CollectFails | CBR.py:119-127 | the reading fails exactly when some line fails |
| Ratings.CollectKeys | CBR.py:115-129 | after a successful reading a title has a rating exactly when some line rates it |
| Ratings.CollectLastWins | CBR.py:125-127 | a title keeps the rating of the last line that rates it |
| Ratings.IgnoredLine | CBR.py:120 | a line not starting with '2' changes nothing |
| CrossValidation.Percentage | CBR.py:105 | the percentage lies in [0, 100] when successes do not exceed the size; it is 0 exactly with no successes and 100 exactly when all succeed |
| CrossValidation.SumBounds | CBR.py:106-111 | percentages in [0, 100] add up to between 0 and 100 per part |
| CrossValidation.SuccessCount | CBR.py:99-102 | the right decisions over a part's first titles never outnumber the decisions |
| CrossValidation.Decide | CBR.py:87-97 | the decision for title i is a majority vote over valid nearest neighbours, and it extends the valid votes for the titles before it |
| CrossValidation.EvaluatePart | CBR.py:83-102 | the count is at most the part's size, and it is the number of right decisions over the part for valid votes, one per title |
| CrossValidation.VoteStep | CBR.py:86-97 | a valid vote for the next title extends the valid votes |
| CrossValidation.SuccessCountStep | CBR.py:100-102 | one more decision adds one to the count exactly when it succeeds |
| CrossValidation.PercentagesStep | CBR.py:104-106 | the next part's percentage extends the valid percentages, and the running sum grows by it |
| CrossValidation.PartPercentage | CBR.py:77-105 | the percentage is the valid percentage of part p against its base set (the titles with the part cut out), and lies in [0, 100] |
| CrossValidation.AnyScanRange | CBR.py:67-68 | valid percentages for the ranges one scan returns are valid for the ranges any scan of the same catalog returns |
| CrossValidation.PercentagesBounded | CBR.py:105-106 | valid percentages each lie in [0, 100], and their sum in [0, 100 per part] |
| CrossValidation.PartPercentageBounds | CBR.py:105 | a part's valid percentage lies in [0, 100] |
| CrossValidation.AllPercentagesAt | CBR.py:75-106 | percentage i of a valid list is the valid percentage of part i |
| CrossValidation.PartSetup | CBR.py:63-81 | each part is non-empty and made of titles, and the base-set loop gives the titles with that part cut out, leaving at least five candidates |
| CrossValidation.CrossValidate | CBR.py:57-111 | ten percentages, each in [0, 100], the result their sum divided by ten and so in [0, 100], and each percentage is that of its part for the ranges the two scans return |

## Left out

- Reading the movie-features JSON file (`readInformation`) and opening the ratings file are I/O. The catalog is a parameter, and the ratings file is the sequence of its lines.
- `random.shuffle` is randomness. The order of the titles is a parameter of `CrossValidate`, and every contract holds for any order without repeats.
- The printing in `main`, and `numOfPart`, which only feeds the printing, are output only.
- Floating-point rounding: scores and percentages are exact reals.
- The sorting algorithm inside numpy's `argsort`: `ArgSort` is a stand-in proved to give some ordering by ascending score, and the model relies only on that. Which of several equal scores comes first is not modelled.
- The algorithm inside numpy's `array_split`: `ArraySplit` states its observable result, consecutive slices with numpy's size rule.
- The `ratings` parameter of `mostSimilarMovies`, which the function never uses, is dropped.
- The source's crash paths are preconditions of the member that would crash: a missing title (KeyError), a date whose year is not a numeral (ValueError), a zero range or an empty part (ZeroDivisionError), and more neighbours than candidates (IndexError). In `readRatings`, a line that fails gives no result (`None`) rather than a precondition.
- Movies.YearOf: only years written as plain ASCII digits are read. Python's `int` also accepts surrounding whitespace, a sign, underscores and other Unicode digits.
- A movie's runtime is an integer, which is what `int(...)` in `runtimeNormalisation` reads. A fractional runtime in the JSON is not modelled.
- Scoring.SimilarityBounded: the bound by the sum of the weights needs non-negative weights and differences within the ranges. The source's docstring states it without those conditions.
- Scoring.SelfDistanceZero: proved for lists without repeated items only. With a repeated item the self-distance can be positive (`RepeatedItemSelfScore`) or zero (when that list's weight is 0), and the model does not characterise when.
- CrossValidation.Decide, CrossValidation.EvaluatePart and CrossValidation.PartPercentage group lines that the source writes inline in `main`. `Decide` also takes the ghost list of decisions made so far.
- Unicode decoding of the ratings file: lines are already strings.
