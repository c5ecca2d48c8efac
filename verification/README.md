# vjp-ita core, modelled in Dafny

This project models the core of `vjp`, a toolkit for predicting the outcome of
Italian court appeals ("vjp"). It covers four parts of the package.

- **Balanced folds** (`vjp/folds.py`, `compute_folds`):
  - The integer program that splits documents into `num_folds` folds. Each
    document has a negative count (column 0) and a positive count (column 1).
  - The program's constraints: each document lies in exactly one fold, and
    `max_` is at least every fold's positive and negative total. Its
    objective is to minimise `max_`.
  - Rounding the solution to boolean masks, and the verbose per-fold tally.
  - Modules `FoldSpec` (`fold_spec.dfy`), `FoldSearch` (`fold_search.dfy`) and
    `Folds` (`folds.dfy`).
- **Text pipelines** (`vjp/text.py`): `text_pipeline`, `remove_punctuation`,
  `lemmatize` and the three module-level count pipelines. Module `Text`
  (`text.dfy`).
- **Lemma dictionary** (`load_lemmas` in `vjp/lemmatization/__init__.py` and in
  `vjp/lemmatization.py`), starting from the file's lines. The two versions
  differ in the name of their one parameter (`file` in the package, `filename`
  in the module, so a call by keyword works on only one of them) and in its
  default file:
  - the package resolves `lemmatization-it.txt` as a package resource
    (`vjp/lemmatization/__init__.py:4-11`);
  - the module opens that bare name relative to the working directory
    (`vjp/lemmatization.py:3-6`).

  Their parse-and-update bodies are the same, and that is what module
  `Lemmatization` (`lemmatization.dfy`) models.
- **Zero-shot prompt logic** (`vjp/zero_shot.py`):
  - `retry_prompt`, `is_response_rejected`, `calculate_best_threshold` and
    `write_prompt_for_sample`.
  - The tokenizer is a pair of `encode`/`decode` functions passed in.
  - Module `ZeroShot` (`zero_shot.dfy`).
- `wrappers.dfy` holds `Option` and `Result`.

## How the model is shaped

The model takes the source's form where the source changes state.

- Building the constraint list (`Folds.BuildConstraints`) is a method with
  loops.
- Building the model and calling the solver (`Folds.Optimize`), the verbose
  tally (`Folds.Tally`) and `compute_folds` itself (`Folds.ComputeFolds`) are
  methods.
- The `pipeline` closure of `text_pipeline` (`Text.RunPipeline`) is a loop.
- The dictionary build and in-place `update` (`Lemmatization.LoadLemmas`) is
  a method.
- The `prompt +=` assembly (`ZeroShot.WritePromptForSample`) is a method.

Each of these methods is either proved equal to a specification function,
with lemmas stating what that function promises, or characterised
completely by its own ensures.
- `Folds.BuildConstraints` ensures the constraint list position by position
  (`Folds.Built`) and states what the list means.
- `Folds.ComputeFolds` states partition and optimality relationally. It
  leaves open which optimum among ties is returned.

The pure parts are functions: punctuation removal, lemmatization, the argmin
search and the predicates on responses.

The MIP solver is replaced by an exact oracle, `FoldSearch.Solve`:
- it searches every assignment of documents to folds;
- on ties it keeps the assignment with the smaller fold numbers;
- it is proved to return an exact partition whose objective is no larger
  than that of any other exact partition.

### Where the model follows the code rather than its description

- **Objective.** The objective is the code's, not a deviation from a target
  ratio: `max_` bounds every fold total from above, and `max_` is minimised
  (`vjp/folds.py:53-55`). `max_` is an `INTEGER` variable, so its lower
  bound is 0, and the objective (`FoldSpec.MaxTotal`) is a `nat`.
- **`num_folds <= 0`.** No argument is checked. With no folds the code
  returns an empty tuple, and the model does the same (`Folds.FoldCount`).
- **Time budget.** The code sets none; `model.optimize()` is an exact call.
- **Columns.** Column 1 is the positive count and column 0 the negative
  count, as `vjp/folds.py:44-51` and `vjp/folds.py:67-70` read them. The
  docstring (`vjp/folds.py:12-14`) names the columns the other way round:
  "positive and negative labels". The model follows the code. The only
  effect is which list the verbose tally calls positive, because the
  objective treats both columns alike.

## Model

| member | source | states |
|---|---|---|
| FoldSpec.Members | vjp/folds.py:39-40 | the exclusivity sum for one document: how many of the fold masks hold it |
| FoldSpec.FoldTotal | vjp/folds.py:44-51 | the weighted sum for one fold and one column: that column's counts added over the documents the fold holds |
| FoldSpec.IsPartition | vjp/folds.py:37-40 | the exclusivity constraints: one row of the document count per fold, and every document held by exactly one fold |
| FoldSpec.Bounds | vjp/folds.py:53-54 | `max_ >= value` for every fold's positive and negative total |
| FoldSpec.MaxTotal | vjp/folds.py:35-55 | the objective value of a split: no fold's positive or negative total exceeds it, it is 0 or equal to one of those totals, and it is never negative (the `INTEGER` lower bound) |
| FoldSpec.MaxTotalIsLeast | vjp/folds.py:53-55 | every `max_` that satisfies the constraints is at least the objective value |
| FoldSpec.TotalsConserved | vjp/folds.py:37-51 | for an exact partition, the per-fold totals of a column add up to that column's total over all documents |
| FoldSearch.MasksArePartition | vjp/folds.py:33-40 | giving each document one fold number in range yields masks in which every document lies in exactly one fold |
| FoldSearch.PartitionIsMasks | vjp/folds.py:33-40 | every exact partition arises from exactly such an assignment, so the search covers all feasible masks |
| FoldSearch.Best | vjp/folds.py:57 | the search standing in for `model.optimize()`: a complete in-range assignment extending the prefix, the cheapest one with the smallest fold numbers on ties |
| FoldSearch.BestFrom | vjp/folds.py:57 | the same search with the next document's fold restricted to `f` or higher; the result extends the prefix and puts that document in such a fold |
| FoldSearch.BestIsOptimal | vjp/folds.py:55-57 | the search's assignment costs no more than any completion of the same prefix |
| FoldSearch.Solve | vjp/folds.py:55-57 | infeasible iff there are documents but no folds; otherwise an exact partition whose objective satisfies the constraints, is no larger than that of any feasible partition, and equals its max fold total |
| Folds.FoldCount | vjp/folds.py:26 | `len(range(num_folds))`: `num_folds`, or 0 when it is negative |
| Folds.ExclusiveTerms | vjp/folds.py:39-40 | the terms of one document's exclusivity `xsum`: coefficient 1 on that document's variable in every fold |
| Folds.TotalTerms | vjp/folds.py:44-51 | the terms of one fold's positive or negative `xsum`: each document's count on that document's variable in the fold |
| Folds.EvalExclusive | vjp/folds.py:39-40 | the exclusivity sum for a document counts the folds holding it |
| Folds.EvalTotal | vjp/folds.py:44-51 | the weighted sum for a fold equals that fold's total of the column |
| Folds.BuiltConstraintMeaning | vjp/folds.py:38-54 | each constraint in the list means: its document is in exactly one fold, or its fold's positive (resp. negative) total is at most `max_` |
| Folds.ConstraintsMeaning | vjp/folds.py:38-54 | a point satisfies every constraint iff its masks are an exact partition and `max_` bounds every fold total |
| Folds.BuildConstraints | vjp/folds.py:37-54 | the list has `n + 2k` entries in source order: entry `i` is document `i`'s exclusivity equality, entry `n + f` fold `f`'s positive bound and entry `n + k + f` its negative bound (`Folds.Built`); the list is satisfied exactly by exact partitions with a bounding `max_` |
| Folds.Optimize | vjp/folds.py:29-57 | the reported solution is the oracle's, and when it is optimal it satisfies a constraint list built as the loops build it |
| Folds.RoundToBool | vjp/folds.py:77 | `bool(round(v))` with Python's half-to-even rounding: true iff `v` lies outside `[-0.5, 0.5]` |
| Folds.RoundToBoolWithinTolerance | vjp/folds.py:77 | `bool(round(v))` recovers the intended 0/1 value from any solver value within 0.5 of it |
| Folds.Decode | vjp/folds.py:76-79 | the returned tuple: every variable value of every fold rounded to a boolean, one list per fold, keeping the shape |
| Folds.DecodeValues | vjp/folds.py:76-79 | rounding the 0/1 values of a solution returns its masks unchanged |
| Folds.NonZero | vjp/folds.py:65 | the tally's test on `.x`: a value counts as set iff it is non-zero; the result keeps the row's length |
| Folds.SetIndices | vjp/folds.py:60-66 | a fold's `output_folds` list: the positions whose value is non-zero, appended in increasing order |
| Folds.SetIndicesSpec | vjp/folds.py:63-66 | a fold's listed documents are in range, strictly increasing, and are exactly those whose value is non-zero |
| Folds.NonZeroOfValues | vjp/folds.py:65 | on exact 0/1 solver values the tally's non-zero test reads back the masks |
| Folds.Tally | vjp/folds.py:59-70 | for each fold, the document list plus the positive and negative totals of the documents whose value is non-zero |
| Folds.SolutionIsOptimal | vjp/folds.py:55-57 | with at least one fold the solver's split is an exact partition whose largest fold total is no larger than any other exact partition's |
| Folds.ComputeFolds | vjp/folds.py:7-79 | `max(num_folds, 0)` masks of length `n`. When `num_folds > 0` they form an exact partition whose objective is minimal among all exact partitions. A report is returned iff `verbose`, and its lists agree with the masks; the parameters default to `num_folds=5` and `verbose=False` as in the source |
| Folds.TwoFoldsComplement | vjp/folds.py:38-40 | with two folds, the second mask is the complement of the first |
| Folds.ExampleFoldTotal | vjp/folds.py:44-51 | the fold totals of the four-document example, written out |
| Folds.ExampleOptimum | vjp/folds.py:44-57 | in the example `[(1,0),(0,1),(1,0),(0,1)]` with two folds, an exact partition reaches objective 1 iff each fold has one document of each kind |
| Folds.ExampleOptimumReached | vjp/folds.py:44-57 | the split `[0,0,1,1]` reaches objective 1 in that example |
| Folds.ExampleSolvedMixed | vjp/folds.py:44-57 | on the four-document example with two folds, the solver's split holds one document of each kind in each fold |
| Text.Composed | vjp/text.py:19-26 | the callables applied to the text one after another, first callable first |
| Text.TextPipeline | vjp/text.py:19-26 | the callable `text_pipeline` returns: the text run through all callables in order |
| Text.RunPipeline | vjp/text.py:19-26 | the inner `pipeline` loop returns the composition of the callables applied in order |
| Text.PipelineConcat | vjp/text.py:19-26 | the empty pipeline is the identity, and running `fs + gs` runs `fs` then `gs` |
| Text.NestedPipelineFlattens | vjp/text.py:83-86 | a pipeline used as one callable of another acts as its callables spliced in |
| Text.RemovePunctuation | vjp/text.py:37-46 | each character of the text is kept when alphanumeric and replaced by `replace_with` otherwise, in order |
| Text.RemovePunctuationAppend | vjp/text.py:46 | removal works character by character: removing from `t + u` is removing from `t`, then from `u` |
| Text.PunctuationReplacedInPlace | vjp/text.py:37-46 | with a one-character replacement the length is kept; alphanumerics stay and every other character becomes the replacement |
| Text.DefaultPunctuationIdempotent | vjp/text.py:37-46 | with the default `' '` the output holds only alphanumerics and spaces, and a second pass changes nothing |
| Text.EmptyReplacementDeletes | vjp/text.py:46 | with `''` as replacement the output holds only alphanumerics, and at every position the alphanumeric character stays in place between the outputs for what precedes and what follows it, while any other character is deleted |
| Text.Words | vjp/text.py:66 | `str.split()`: the maximal runs of non-whitespace characters, in order |
| Text.JoinWords | vjp/text.py:69 | `' '.join`: the words with one space between neighbours |
| Text.WordLength | vjp/text.py:66 | the first word of a string is its maximal run of non-whitespace characters |
| Text.WordsAreWords | vjp/text.py:66 | every piece of `split()` is non-empty and holds no whitespace |
| Text.SplitJoinRoundTrip | vjp/text.py:66-69 | splitting the single-space join of some words returns those words |
| Text.Lookup | vjp/text.py:61-64 | `map_fun`: the dictionary's entry for a word; a missing word gives nothing when dropping and itself when keeping |
| Text.Lemmas | vjp/text.py:66-67 | `filter(bool, map(map_fun, words))`: the lookups of the words, with missing and empty ones left out |
| Text.Lemmatize | vjp/text.py:49-69 | `lemmatize`: the pieces of the text's words joined by single spaces |
| Text.LemmasAppend | vjp/text.py:66-67 | lemmatization works word by word: the pieces of `a + b` are those of `a` followed by those of `b` |
| Text.LemmasOfWord | vjp/text.py:61-67 | one word gives its lemma when the dictionary has a non-empty one, itself when missing and kept, and nothing otherwise |
| Text.LemmasInOrder | vjp/text.py:66-67 | the pieces come in word order: those of the words before a position, then those of the word there, then those after |
| Text.LemmasSpec | vjp/text.py:61-67 | the pieces are non-empty; there are never more pieces than words; a string is a piece iff it is the non-empty lookup result of some word |
| Text.LemmasKeepUnknown | vjp/text.py:63-67 | with `drop_missing=False`, a list of words none of which is in the dictionary comes out unchanged |
| Text.UnknownWordKeptInPlace | vjp/text.py:63-67 | with `drop_missing=False`, a word missing from the dictionary passes unchanged at its place among the other words' pieces |
| Text.UnknownWordDropped | vjp/text.py:61-67 | with `drop_missing=True`, a word missing from the dictionary disappears and its neighbours' pieces stay in order |
| Text.LemmatizeEmptyDict | vjp/text.py:49-69 | with an empty dictionary, keeping yields the whitespace-normalised text and dropping yields `''` |
| Text.LemmatizeResplits | vjp/text.py:66-69 | when every lemma is one word, the output splits back into exactly its pieces |
| Text.PiecesAreFixed | vjp/text.py:61-67 | under an idempotent dictionary every piece looks up to itself |
| Text.LemmasOfFixed | vjp/text.py:61-67 | words that look up to themselves are kept as they are |
| Text.LemmatizeIdempotent | vjp/text.py:49-69 | with an idempotent dictionary (as `load_lemmas` builds) whose lemmas are single words (an assumption about the data file, not something `load_lemmas` ensures), lemmatizing twice is lemmatizing once, in either mode |
| Text.PunctuationStep | vjp/text.py:74 | `remove_punctuation` with its default `' '` replacement, as a step of the head pipeline |
| Text.LemmatizeStep | vjp/text.py:85 | `lemmatize` with the default dictionary, dropping or (as `partial(lemmatize, drop_missing=False)`, line 99) keeping missing words |
| Text.CountPipelineHead | vjp/text.py:72-76 | `count_pipeline_head`: lower-casing, punctuation removal, stopword removal, in that order |
| Text.CountDropPipeline | vjp/text.py:83-86 | `count_drop_pipeline`: the head pipeline, then `lemmatize` dropping missing words |
| Text.CountKeepPipeline | vjp/text.py:97-100 | `count_keep_pipeline`: the head pipeline, then `lemmatize` keeping missing words |
| Text.CountPipelinesFlatten | vjp/text.py:72-100 | the drop and keep pipelines are lower, then punctuation, then stopwords, then lemmatize, in that order |
| Lemmatization.Fields | vjp/lemmatization/__init__.py:17 | `line.split('\t')`: one more field than the line has tabs |
| Lemmatization.FieldsRejoin | vjp/lemmatization/__init__.py:17 | the fields of `split('\t')` contain no tab and rejoin with tabs to the line |
| Lemmatization.FieldsOfTabFree | vjp/lemmatization/__init__.py:17 | a line without a tab splits into itself alone |
| Lemmatization.FieldsAfterTab | vjp/lemmatization/__init__.py:17 | splitting `a + '\t' + b` gives the fields of `a` followed by those of `b` |
| Lemmatization.ParseLine | vjp/lemmatization/__init__.py:17 | the reversed pair of a line's fields as `form -> lemma`, or nothing when the line does not split into exactly two fields |
| Lemmatization.ParseLineSpec | vjp/lemmatization/__init__.py:17 | a line yields a pair iff it has exactly one tab, and it yields `form -> lemma` iff it reads `lemma<TAB>form` |
| Lemmatization.FormMap | vjp/lemmatization/__init__.py:17 | `dict()` over the lines' reversed pairs: later lines override earlier ones, and the first line without two fields is the error |
| Lemmatization.LemmaDict | vjp/lemmatization/__init__.py:11-21 | `load_lemmas` from the lines: the form map updated with every lemma mapping to itself, or the form map's error |
| Lemmatization.FixLemmas | vjp/lemmatization/__init__.py:18-19 | after the update the keys are the forms plus the lemmas, each lemma maps to itself, other forms keep their lemma, and lookups are idempotent |
| Lemmatization.LoadLemmas | vjp/lemmatization/__init__.py:11-21 | the loop builds the form map line by line and stops at the first malformed line; the update then runs, giving the specified dictionary or error |
| Lemmatization.FailurePersists | vjp/lemmatization/__init__.py:17 | once a prefix of the lines fails, the whole construction fails with the same error |
| Lemmatization.LoadSucceedsIffWellFormed | vjp/lemmatization.py:11 | loading succeeds iff every line splits into exactly two fields |
| Lemmatization.LoadFailsOnFirstMalformedLine | vjp/lemmatization.py:11 | the error names the first malformed line and its field count |
| Lemmatization.FormMapKeys | vjp/lemmatization.py:11 | the keys of the form map are exactly the forms of the lines |
| Lemmatization.FormMapSnoc | vjp/lemmatization.py:11 | a well-formed last line overrides its form's entry |
| Lemmatization.LastLineWins | vjp/lemmatization.py:11 | a form maps to the lemma of the last line with that form |
| Lemmatization.LoadedDictionary | vjp/lemmatization.py:11-13 | for well-formed lines loading succeeds; the keys are the forms plus the surviving lemmas; each surviving lemma maps to itself; the dictionary is idempotent in the sense lemmatization uses |
| Lemmatization.LoadedLemmaOfLine | vjp/lemmatization.py:11-13 | a line's form is a key, and when that form is no surviving lemma and no later line repeats it, it maps to that line's lemma |
| Lemmatization.OverriddenLemmaIsDropped | vjp/lemmatization.py:11-13 | from `a<TAB>x` and `b<TAB>x` the result is `{x: b, b: b}`, so the overridden lemma `a` is no key |
| Lemmatization.EmptyLineFails | vjp/lemmatization/__init__.py:15-17 | an empty line (one field) makes loading fail |
| ZeroShot.Contains | vjp/zero_shot.py:91 | `needle in haystack`, scanning the haystack from the left |
| ZeroShot.ContainsIffOccurs | vjp/zero_shot.py:91 | the scan agrees with substring occurrence, as the `in` operator tests it |
| ZeroShot.OccursTransitive | vjp/zero_shot.py:91 | a substring of a substring is a substring |
| ZeroShot.RetryPrompt | vjp/zero_shot.py:88-95 | `retry_prompt`: the echoed-question test first, then the length test |
| ZeroShot.RetryPromptSpec | vjp/zero_shot.py:88-95 | retry iff the response contains `"true or false"` or is shorter than 5 characters |
| ZeroShot.IsResponseRejected | vjp/zero_shot.py:97-100 | `is_response_rejected`: some rejected word is contained in the response |
| ZeroShot.IsResponseRejectedSpec | vjp/zero_shot.py:97-100 | rejected iff one of `rejected`, `respinge`, `true`, `infondata` occurs, case-sensitively |
| ZeroShot.EchoedQuestionReadsAsRejected | vjp/zero_shot.py:88-100 | a response echoing `"true or false"` is retried, and would also read as a rejection |
| ZeroShot.BareAnswers | vjp/zero_shot.py:88-100 | `"false"` is accepted as not rejected; `"true"` (4 characters) is retried; `"True"` is not a rejection |
| ZeroShot.FirstMissing | vjp/zero_shot.py:48-53 | the first used key absent from the sample (the one `sample[k]` raises on), or none iff all are present |
| ZeroShot.TokenTotal | vjp/zero_shot.py:50-51 | the tokens kept when every used feature is cut at `th`: the sum of `min(th, len(encode(feature)))` |
| ZeroShot.Deviation | vjp/zero_shot.py:49-52 | the distance between that token total and `max_length` |
| ZeroShot.Deviations | vjp/zero_shot.py:48-53 | the list `argmin` runs over: one deviation for each `th` in `range(0, max_length)`, so `max_length` entries, or none when it is not positive |
| ZeroShot.ArgMin | vjp/zero_shot.py:44-45 | the first index of a least element, and none for an empty list (where `min` raises) |
| ZeroShot.CalculateBestThreshold | vjp/zero_shot.py:38-54 | if the character total is within budget, returns `max_length`. Otherwise it fails for `max_length <= 0`, or fails naming the first missing feature. Otherwise it returns `th - 1` with `th` the first threshold of least deviation, so the result is in `[-1, max_length - 2]` |
| ZeroShot.CharTotal | vjp/zero_shot.py:41-43 | the summed length of the used features the sample holds |
| ZeroShot.FeatureWithinCharTotal | vjp/zero_shot.py:41-43 | every present used feature is no longer than the character total |
| ZeroShot.Prefix | vjp/zero_shot.py:60 | `tokens[:threshold]` is a prefix: of length `threshold` when that is in range, the whole list past the end, all but the last token for `-1` |
| ZeroShot.CutFeature | vjp/zero_shot.py:59-60 | `cut_feature`: the feature encoded, cut to its first `threshold` tokens, and decoded |
| ZeroShot.UncutWithinBudget | vjp/zero_shot.py:41-60 | within budget the threshold is `max_length`. A present used feature whose encoding decodes back to it and has no more tokens than characters appears uncut. The condition is asked of that feature only, since byte-level tokenizers can exceed its length on non-ASCII text |
| ZeroShot.Header | vjp/zero_shot.py:63-64 | the fixed opening sentence of the prompt |
| ZeroShot.Closing | vjp/zero_shot.py:84 | the fixed closing question |
| ZeroShot.SectionText | vjp/zero_shot.py:65-82 | one section: its title line, the cut feature and a blank line |
| ZeroShot.Part | vjp/zero_shot.py:65-82 | one `if key in sample` block: the section when the key is present, nothing otherwise |
| ZeroShot.Body | vjp/zero_shot.py:65-82 | the blocks of a list of sections, in list order |
| ZeroShot.Prompt | vjp/zero_shot.py:63-84 | the header, the section of each present key in fact, req, arg, claim, mot, dec order, then the closing question |
| ZeroShot.PromptFor | vjp/zero_shot.py:56-86 | the prompt at the threshold `calculate_best_threshold` picks, or that function's error |
| ZeroShot.WritePromptForSample | vjp/zero_shot.py:56-86 | the method returns the header, then the sections of the present keys in table order, then the closing question, or the threshold's error; `max_length` defaults to 2049 as in the source |
| ZeroShot.EchoedPromptIsRetried | vjp/zero_shot.py:84-95 | a response containing a whole prompt is retried, and would read as rejected |
| ZeroShot.SectionsFollowTableOrder | vjp/zero_shot.py:63-84 | for a sample with only `dec` and `fact`, the prompt shows the facts before the decision, whatever the dictionary's order |
| ZeroShot.ThresholdIgnores | vjp/zero_shot.py:41-53 | a key outside the used features does not change the threshold |
| ZeroShot.BodyIgnores | vjp/zero_shot.py:65-82 | a key no section shows does not change the sections |
| ZeroShot.ExtraKeysIgnored | vjp/zero_shot.py:56-86 | a key outside the six features changes neither the prompt nor the error |

## Left out

- The `mip` library. Building the `Model` object, `model.verbose`, and the
  solver's algorithm and numeric tolerances are not modelled. `model.optimize()`
  becomes the exact oracle `FoldSearch.Solve`, which is specified by the
  constraints at `vjp/folds.py:38-55`.
- Folds.ComputeFolds: assumes the solver returns exact 0/1 values for the
  binary variables. `Folds.RoundToBoolWithinTolerance` covers values near
  0 and 1 for the final rounding. The verbose tally's truthiness test
  (`.x`, non-zero) is modelled on its own.
- Folds.ComputeFolds: which optimal partition the solver picks among ties is
  library behaviour. The model's oracle fixes one tie-break, and the
  contract promises only optimality.
- Lemmatization.LoadedDictionary: the key set is the forms plus the lemmas that survive in the
  form map, not every lemma written in the file. When a later line overrides a form, the earlier
  line's lemma never enters the map. `Lemmatization.OverriddenLemmaIsDropped` shows such a case.
- The printing of the verbose report (`vjp/folds.py:72-74`). The report is
  returned instead.
- `remove_stopwords`, `load_stopwords` and the module-level dictionary load in
  `vjp/text.py` (nltk, gensim, file I/O). The stopword filter and the
  dictionary are fields of `Text.TextConfig`.
- Unicode `str.lower`, `str.isalnum` and `str.isspace`. They are parameters
  (a transform and two character predicates).
- File reading in `load_lemmas`. The model starts from the list of lines; how
  `splitlines` breaks a file into lines is not modelled.
- `OpenAiClassifier.__init__`, `fit`, `predict` and `send_prompt`
  (`vjp/zero_shot.py:10-36`, `vjp/zero_shot.py:102-111`). They are network
  calls to the completion service and the tiktoken tokenizer. The unbounded
  retry loop of `predict` and `MAX_TOKEN_FOR_PROMPT`, which only
  `__init__` uses, go with them.
- `vjp/openai_prompt.py`, `vjp/data.py`, `vjp/preprocess.py`, `vjp/models.py`
  and `setup.py` are not part of this model.
