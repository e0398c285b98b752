# Beatrica review pipeline in Dafny

Beatrica asks a language model to review the commits on a branch.
`review()` in `beatrica/beatrica.py` does six things in turn:

1. It asks the model to list the changes; every answer format and pattern comes from the table in `beatrica/prompts.py`.
2. It drops the placeholder changes the model copied from the example in the instruction.
3. It asks, change by change, whether the model can review the change, and if so asks for review points.
4. It groups the points by change.
5. It asks for one aggregated review per change.
6. It builds the rows of the report.

This project models that data logic and proves properties of it.

The language model and its retrieval chain become a deterministic oracle `ask: string -> string`. It stands for `retrieval_chain.invoke(q)['answer']`. Each step also returns the questions it put, in order, as `Query(stage, payload)` values. That makes "no question is asked" and "one question per change" statable.

Modules:

- `Strings` (`strings.dfy`) holds the Python string operations the pipeline uses:
  - literal search, `startswith` and `lstrip` (whitespace as `str.isspace` has it on ASCII);
  - `" ".join`;
  - `int()` on the decimal subset, which skips its own whitespace around the numeral (`IsIntSpace`: tab to carriage return, and space);
  - the markup stripper `re.sub('<[^<]+?>', '', s)`.
- `Lists` (`lists.dfy`) holds `list.remove` and `list.index`, the subsequence order, and a flat-map used to specify loops that append per element.
- `Prompts` (`prompts.dfy`) holds two things:
  - the prompt table, spelled character for character;
  - the four `re.findall(pattern, answer, re.DOTALL)` extractors. Each pattern is an opening literal, a lazy `(.*?)`, an optional middle literal with a second `(.*?)`, and a closing literal. For such patterns `findall` is a left-to-right scan: find the first opening literal, capture up to the earliest closing literal behind it, and resume behind that literal. These are written as the scanners `CapturesFrom` and `CapturePairsFrom`.
- `Beatrica` (`beatrica.dfy`) holds the pipeline.
  - Every loop of `review()` is a method with its loop: the filter, the review loop, the point appends, grouping, the payload string, the in-place aggregation over the dictionary, and the row loop.
  - Each method is proved equal to a specification function, and the source's promises are proved as lemmas about those functions.
  - The dictionary `aggregated_reviews` is a key sequence in insertion order plus a `map`.

The placeholder filter is modelled as written: the loop removes items from the list it is iterating over. `list.remove` drops the first equal element, so the element behind a removed one moves to the index just read and is never examined. `EchoedSamplesFilter` shows the effect on the instruction's own example. Of the two placeholder changes, `commit_hash2` survives, although the evident purpose of the filter is to drop both. `EchoPipeline` follows this through a whole run with a model that only repeats the examples: the report has one row, for the placeholder change `commit_hash2`.

## Model

| member | source | states |
|---|---|---|
| Prompts.Prompt | beatrica/prompts.py:1-22 | No contract of its own: the table, with each text spelled as in the source. `GetChangesExampleLayout`, `MakeReviewExampleLayout`, `TableLiteralsUnbordered` and `QuestionInitials` state its properties. |
| Prompts.Question | beatrica/beatrica.py:81 | No contract of its own: `Assemble` of the stage's prefix, the payload and the stage's instruction, as at lines 81, 104, 115 and 143. `QuestionFirst` and `QuestionDetermines` characterise it. |
| Prompts.CapturesFrom | beatrica/beatrica.py:108 | No contract of its own: the `findall` scan for a single-group pattern, as at lines 108, 119 and 147. `CapturesCons`, `CapturesEnd`, `CapturesWrap`, `CapturesCloseFree`, `CapturesBound` and `CapturesInAnswer` characterise it. |
| Prompts.Captures | beatrica/beatrica.py:119 | No contract of its own: the scan from the start of the answer. `CapturesWrap` and `CapturesAmid` characterise it. |
| Prompts.Extract | beatrica/beatrica.py:147 | No contract of its own: the scan with the stage's pattern. The `...ExampleExtracts` lemmas evaluate it on the instructions. |
| Prompts.CapturePairsFrom | beatrica/beatrica.py:86 | No contract of its own: the `findall` scan for the two-group change pattern. `CapturePairsCons`, `CapturePairsEnd`, `CapturePairsWrap`, `CapturePairsDelimited` and `CapturePairsBound` characterise it. |
| Prompts.CapturePairs | beatrica/beatrica.py:86 | No contract of its own: the change scan from the start of the answer. `CapturePairsWrap` and `CapturePairsAmid` characterise it. |
| Prompts.ExtractChanges | beatrica/beatrica.py:85-86 | No contract of its own: the change scan with the get_changes pattern. `GetChangesExampleExtracts` evaluates it on the instruction. |
| Strings.ParseInt | beatrica/beatrica.py:114 | No contract of its own: `int()` as `ParseSigned` of the text stripped of `int()` whitespace (`IntStrip`), with `None` for the `ValueError`. `ParseIntShowInt`, `ParseIntIsOne` and `ParseIntKeepsSeparator` characterise it. |
| Strings.ParseSigned | beatrica/beatrica.py:114 | No contract of its own: an optional sign followed by at least one decimal digit. `ParseSignedOne` characterises the value 1. |
| Strings.IntStrip | beatrica/beatrica.py:114 | No contract of its own: `IntRStrip` after `IntLStrip`, whose contracts state what is dropped. `NoSpaceInDigits` and `NoSpaceAroundSigned` use it. |
| Strings.IsIntSpace | beatrica/beatrica.py:114 | No contract of its own: the whitespace `int()` skips around a numeral, tab to carriage return and space, which leaves out the separators 0x1C-0x1F. |
| Strings.IsSpace | beatrica/beatrica.py:165 | No contract of its own: the ASCII characters `str.isspace` accepts, as used by `lstrip` at lines 165 and 168, separators 0x1C-0x1F included. `LStrip` is stated with it. |
| Strings.StartsWith | beatrica/beatrica.py:89 | No contract of its own: `str.startswith` on a literal. `EscapedPlaceholderHasBackslash` uses it. |
| Beatrica.Spurious | beatrica/beatrica.py:89 | No contract of its own: the placeholder test of line 89. `SamplesSpurious` evaluates it on the examples. |
| Beatrica.FilterFrom | beatrica/beatrica.py:87-90 | No contract of its own: the filter loop, read from index `i`, with the list as it then stands. `FilterSpurious` is proved equal to it. |
| Beatrica.Filtered | beatrica/beatrica.py:87-90 | No contract of its own: the filter loop from index 0. `FilterKeepsGenuine`, `FilterSubseq`, `FilteredMembers` and `EchoedSamplesFilter` characterise it. |
| Beatrica.ChangePayload | beatrica/beatrica.py:104 | No contract of its own: `commit_id + ": " + change_desc`, as at lines 104 and 115. |
| Beatrica.Reviewable | beatrica/beatrica.py:108-114 | No contract of its own: the first `<review>` capture exists and `int()` of it is 1. `ReviewableIff` characterises it. |
| Beatrica.Accepted | beatrica/beatrica.py:104-114 | No contract of its own: the model's can_review answer for the change is reviewable. `ReviewsForMembers` and `ReportedChanges` use it. |
| Beatrica.SupportedLlm | beatrica/beatrica.py:66-71 | No contract of its own: `openai` and `mistralai` are the accepted model types, any other raises `ValueError`. `PipelineExits` uses it. |
| Beatrica.CanReviewQuestionFor | beatrica/beatrica.py:104 | No contract of its own: the can_review question for a change. `QuestionFirst` and `QuestionStage` characterise questions. |
| Beatrica.MakeReviewQuestionFor | beatrica/beatrica.py:115 | No contract of its own: the make_review question for a change. `QuestionFirst` and `QuestionStage` characterise questions. |
| Beatrica.PointsFor | beatrica/beatrica.py:115-119 | No contract of its own: the `<point>` captures of the make_review answer. `ReportedChanges` and `EchoAccepts` use it. |
| Beatrica.ReviewsFor | beatrica/beatrica.py:108-124 | No contract of its own: the items one change contributes. `ReviewOne` is proved equal to it; `ReviewsForMembers` and `RejectedContributesNothing` characterise it. |
| Beatrica.AskedFor | beatrica/beatrica.py:104-116 | No contract of its own: the questions one change makes the loop ask. `ReviewOne` is proved equal to it; `RejectedContributesNothing` characterises it. |
| Beatrica.AllReviews | beatrica/beatrica.py:102-126 | No contract of its own: the review list after the loop. `CollectReviews` is proved equal to it; `AllReviewsMembers`, `ReportedChanges` and `EchoReviews` characterise it. |
| Beatrica.AllAsked | beatrica/beatrica.py:102-126 | No contract of its own: the questions of the review loop in order. `CollectReviews` is proved equal to it. |
| Beatrica.AggregateQuestionFor | beatrica/beatrica.py:140-143 | No contract of its own: the aggregate_review_points question for a change's points. `AggregateValue` is stated with it. |
| Beatrica.AggregateWith | beatrica/beatrica.py:139-151 | No contract of its own: the aggregation step as a function of the points. `AggregateAll`, `AggregateStep` and `AggregateAllValues` are stated with it. |
| Beatrica.Payload | beatrica/beatrica.py:140-142 | No contract of its own: one line break before each text. `PayloadJoin` and `PayloadLength` characterise it. |
| Beatrica.GroupKeys | beatrica/beatrica.py:130-137 | No contract of its own: the changes of the items, in first-seen order. `GroupKeysMembers`, `GroupKeysDistinct` and `GroupKeysPrefix` characterise it. |
| Beatrica.TextsOf | beatrica/beatrica.py:133-137 | No contract of its own: a change's points, in item order. `TextsOfPresent` and `TextsOfAbsent` characterise it. |
| Beatrica.Visited | beatrica/beatrica.py:139-151 | No contract of its own: the dictionary after the aggregation loop has visited the first `n` keys. `VisitedPending`, `VisitedDone`, `VisitedAll` and `VisitedKeys` characterise it. |
| Beatrica.Shown | beatrica/beatrica.py:167 | No contract of its own: `" ".join` for a list, the string for an aggregate. `RowShows` and `RowJoinsPoints` use it. |
| Beatrica.Pipeline | beatrica/beatrica.py:36-171 | No contract of its own: the whole run, as an outcome and the questions put. `PipelineExits`, `EchoPipeline` and `Review` characterise it. |
| Beatrica.Summary | beatrica/beatrica.py:129-171 | No contract of its own: grouping, aggregation and rows. `SummaryRows`, `SummaryQueries` and `Summarise` characterise it. |
| Beatrica.ModelName | beatrica/beatrica.py:44-47 | An empty model name becomes the default of `openai` or `mistralai`. A given name is kept. The result is empty exactly when the name is empty and the type is unknown. |
| Beatrica.PipelineExits | beatrica/beatrica.py:57-95 | No change found ends in `NoChanges` with no question asked. An unknown LLM type ends in `Unsupported` with no question asked. Otherwise the first question is get_changes. The run ends in `NoCandidates` exactly when the filtered candidates are empty, and then only that question has been asked. |
| Prompts.Assemble | beatrica/beatrica.py:81 | A question is prefix, payload, a line break and the instruction; each part can be read back at its place. |
| Prompts.QuestionDetermines | beatrica/prompts.py:3-19 | Equal questions have equal stages and equal payloads: the four prefixes start with different letters. |
| Prompts.QuestionFirst | beatrica/prompts.py:3-18 | A question starts with the first letter of its stage's prefix. |
| Prompts.QuestionInitials | beatrica/prompts.py:3-18 | The four question prefixes start with `W`, `C`, `Y` and `P`. |
| Prompts.QuestionStage | beatrica/prompts.py:3-18 | Equal questions come from the same stage. |
| Prompts.AssembleInjective | beatrica/beatrica.py:104 | With the same prefix and instruction, equal questions have equal payloads. |
| Prompts.PairFrom | beatrica/prompts.py:5 | The rest of a change match after its first group, when found, ends within the answer and behind its start. |
| Prompts.NextMatchFirst | beatrica/prompts.py:10 | The next single-group match is the text between the first opening literal and the first closing literal behind it. |
| Prompts.NextPairFirst | beatrica/prompts.py:5 | The next change match is built from the first occurrences of the three literals, in turn. |
| Prompts.LayoutAt | beatrica/prompts.py:15 | When the answer from an index on reads opening literal, text, closing literal and a rest, that text stands wrapped at the index and the rest follows the closing literal. |
| Prompts.CapturesWrapIn | beatrica/prompts.py:15 | Scanning from any position where wrapped texts begin returns those texts. |
| Prompts.CapturePairsWrapIn | beatrica/prompts.py:5 | Scanning from any position where wrapped changes begin returns those changes. |
| Prompts.NextMatch | beatrica/prompts.py:10 | The next single-group match resumes strictly behind the place it started from and within the answer. |
| Prompts.NextPair | beatrica/prompts.py:5 | The next change match resumes strictly behind the place it started from and within the answer. |
| Prompts.CapturesCons | beatrica/beatrica.py:108 | When the opening literal at `i` is the first one, and the closing literal at `j` is the first one behind it, the first capture is the text between them. The scan then resumes behind the closing literal. |
| Prompts.CapturePairsCons | beatrica/beatrica.py:86 | The first change tuple runs from the first `<change commit='` to the first `'>` behind it, and from there to the first `</change>`. The scan resumes behind that. |
| Prompts.CapturesCloseFree | beatrica/prompts.py:10 | No capture holds the closing literal. |
| Prompts.CapturesNeedClose | beatrica/prompts.py:15 | An answer without the closing literal yields no capture. |
| Prompts.CapturesBound | beatrica/prompts.py:20 | There are at most as many captures as occurrences of the opening literal. |
| Prompts.CapturesInAnswer | beatrica/beatrica.py:119 | Every capture is a substring of the answer. |
| Prompts.CapturesWrap | beatrica/prompts.py:14-15 | Round trip: extracting from the texts wrapped in the literals returns the texts, when none holds the closing literal. |
| Prompts.CapturesAmid | beatrica/beatrica.py:147 | The same round trip holds with text in front of the wrapped texts and behind them, as long as neither holds the opening literal. |
| Prompts.CapturesSkip | beatrica/prompts.py:10 | Text in front of the first opening literal does not change the captures. |
| Prompts.CapturesEnd | beatrica/prompts.py:10 | A scan stops once no opening literal is left. |
| Prompts.CapturePairsWrap | beatrica/prompts.py:5 | Round trip for the change pattern: wrapped changes come back when no commit id holds `'>` and no description holds `</change>`. |
| Prompts.CapturePairsAmid | beatrica/prompts.py:5 | The change round trip survives text in front of and behind the changes that holds no opening literal. |
| Prompts.CapturePairsSkip | beatrica/prompts.py:5 | Text in front of the first `<change commit='` does not change the tuples. |
| Prompts.CapturePairsEnd | beatrica/prompts.py:5 | The change scan stops once no opening literal is left. |
| Prompts.NextPairDelimited | beatrica/prompts.py:5 | The change a single match yields has no `'>` in its commit id and no `</change>` in its description. |
| Prompts.CapturePairsDelimited | beatrica/prompts.py:5 | No commit id holds `'>` and no description holds `</change>`. |
| Prompts.CapturePairsBound | beatrica/prompts.py:5 | There are at most as many change tuples as occurrences of `<change commit='`. |
| Prompts.TableLiteralsUnbordered | beatrica/prompts.py:5-20 | The first character of every tag literal of the table does not come back inside the literal. |
| Prompts.GetChangesExampleLayout | beatrica/prompts.py:4 | The get_changes instruction is its lead text, the two example changes wrapped in the pattern's literals, and its tail. |
| Prompts.GetChangesExampleExtracts | beatrica/prompts.py:4-5 | The get_changes instruction's example yields the two tuples `(commit_hash1, change 1 for commit_hash1, change 2 for commit_hash1)` and `(commit_hash2, change 1 for commit_hash2)`. |
| Prompts.GetChangesSamplesFree | beatrica/prompts.py:4 | No example commit id holds `'>` and no example description holds `</change>`. |
| Prompts.CanReviewExampleExtracts | beatrica/prompts.py:9-10 | The can_review example yields `["1"]`. |
| Prompts.MakeReviewExampleLayout | beatrica/prompts.py:14 | The make_review instruction is its lead text, the two example points wrapped in `<point>` literals, and its tail. |
| Prompts.MakeReviewExampleExtracts | beatrica/prompts.py:14-15 | The make_review example yields `["point 1", "point 2"]`. |
| Prompts.MakeReviewExampleFree | beatrica/prompts.py:14 | The text around the example points holds no `<point>`. |
| Prompts.AggregateExampleExtracts | beatrica/prompts.py:19-20 | The aggregation example yields its sample text. |
| Strings.FindFromCorrect | beatrica/beatrica.py:86 | The literal search finds an occurrence, and none lies before it. |
| Strings.FindFromIs | beatrica/beatrica.py:86 | Conversely, an occurrence with none before it is what the search finds. |
| Strings.FindFromNone | beatrica/beatrica.py:86 | Without an occurrence the search finds nothing. |
| Strings.FindFrom | beatrica/beatrica.py:86 | A found position lies at or behind the start, with the whole literal inside the text. |
| Strings.FindFromFound | beatrica/beatrica.py:86 | The literal occurs at the position found. |
| Beatrica.EscapedPlaceholderHasBackslash | beatrica/beatrica.py:89 | The literal `"commit\_hash"` keeps its backslash (12 characters), so `commit_hash` does not start with it. |
| Beatrica.FilterSpurious | beatrica/beatrica.py:87-90 | The loop that removes items while iterating computes `Filtered(matches)`, the index-by-index reading of the loop. |
| Beatrica.FilterKeepsGenuine | beatrica/beatrica.py:87-90 | The filter removes only spurious candidates: every other candidate survives, in order. |
| Beatrica.FilterSubseq | beatrica/beatrica.py:87-90 | What the filter keeps is a subsequence of the matches. |
| Beatrica.FilteredMembers | beatrica/beatrica.py:87-90 | A non-spurious candidate is kept exactly when it was a match, and everything kept was a match. |
| Beatrica.GenuineRemove | beatrica/beatrica.py:90 | Removing a spurious candidate does not change the non-spurious ones. |
| Beatrica.GenuineSkip | beatrica/beatrica.py:89-90 | A spurious candidate anywhere in the list does not change the non-spurious ones. |
| Beatrica.GenuineAppend | beatrica/beatrica.py:87-90 | Taking the non-spurious candidates distributes over concatenation. |
| Beatrica.GenuineIn | beatrica/beatrica.py:89 | A candidate is among the non-spurious ones exactly when it is a candidate and not spurious. |
| Beatrica.SamplesSpurious | beatrica/beatrica.py:89 | Both example changes of the get_changes instruction are spurious. |
| Beatrica.EchoedSamplesFilter | beatrica/beatrica.py:87-90 | The two example changes filter to the second one alone, which is spurious. |
| Lists.FirstIndex | beatrica/beatrica.py:90 | The first index holding the element. |
| Lists.RemoveFirst | beatrica/beatrica.py:90 | `list.remove` shortens the list by one. |
| Lists.RemoveFirstSubseq | beatrica/beatrica.py:90 | `list.remove` keeps a subsequence of the list. |
| Lists.SubseqTrans | beatrica/beatrica.py:87-90 | The subsequence order is transitive, so the removals of a whole filter run compose. |
| Lists.SubseqRefl | beatrica/beatrica.py:87-90 | A list is a subsequence of itself, which covers a filter that removes nothing. |
| Lists.SubseqMembers | beatrica/beatrica.py:87-90 | What a subsequence holds, the whole list holds. |
| Lists.FlatMapOne | beatrica/beatrica.py:102-124 | The concatenation over one element is that element's part. |
| Lists.FlatMapMembers | beatrica/beatrica.py:102-124 | An element of the concatenation comes from the part of some element. |
| Strings.ParseIntShowInt | beatrica/beatrica.py:114 | `int(str(n)) == n` on the modelled subset of `int()`. |
| Strings.ShowNat | beatrica/beatrica.py:114 | A decimal numeral is non-empty and all digits. |
| Strings.DigitsValueShowNat | beatrica/beatrica.py:114 | Reading back a decimal numeral gives its number. |
| Strings.ParseSignedOne | beatrica/beatrica.py:114 | A stripped text reads as 1 exactly when, after an optional `+`, it is zeros followed by `1`. |
| Strings.ParseIntIsOne | beatrica/beatrica.py:114 | `int(s) == 1` exactly when `s`, stripped of surrounding `int()` whitespace (tab to carriage return, and space) and an optional `+`, is zeros followed by `1`. This holds where `int()` has no digit limit; see "## Left out". |
| Strings.ParseIntKeepsSeparator | beatrica/beatrica.py:114 | The separator 0x1C is dropped by `lstrip` but not by `int()`: `"\x1c1".lstrip()` is `"1"` while `int("\x1c1")` raises `ValueError`. |
| Strings.SeparatorStripped | beatrica/beatrica.py:165 | `lstrip` of a whitespace character followed by a non-whitespace one leaves the second. |
| Strings.SeparatorKept | beatrica/beatrica.py:114 | Two characters that start with neither `int()` whitespace, a digit nor a sign are no integer. |
| Strings.DigitsValueZero | beatrica/beatrica.py:114 | A decimal numeral is worth 0 exactly when all its digits are `0`. |
| Strings.DigitsValueOne | beatrica/beatrica.py:114 | A decimal numeral is worth 1 exactly when it is zeros followed by `1`. |
| Beatrica.ReviewableIff | beatrica/beatrica.py:108-114 | A change is reviewable exactly when the first `<review>` capture, stripped of `int()` whitespace and an optional `+`, is zeros followed by `1`. This holds where `int()` has no digit limit; see "## Left out". |
| Beatrica.EchoedCanReviewIsReviewable | beatrica/beatrica.py:112-114 | The can_review example answer makes a change reviewable. |
| Beatrica.RejectedContributesNothing | beatrica/beatrica.py:110-126 | A change whose answer has no capture, no number or another number contributes no item. It costs only the can_review question. |
| Beatrica.ReviewOne | beatrica/beatrica.py:104-124 | One pass of the review loop yields the items `ReviewsFor(c)` and the questions `AskedFor(c)`. |
| Beatrica.AppendItems | beatrica/beatrica.py:120-124 | The append loop adds one item per point, in the order of the points. |
| Beatrica.Items | beatrica/beatrica.py:120-124 | Item `k` pairs the change with point `k`. |
| Beatrica.ItemsMembers | beatrica/beatrica.py:120-124 | An item is among the appended ones exactly when its change is this change and its point is one of the points. |
| Beatrica.CollectReviews | beatrica/beatrica.py:102-126 | `reviews` is the concatenation, in candidate order, of each candidate's items. The questions are likewise concatenated. |
| Beatrica.ReviewsForMembers | beatrica/beatrica.py:108-124 | A candidate contributes an item exactly when the model accepts it and the item's point is one the model made on it. |
| Beatrica.AllReviewsMembers | beatrica/beatrica.py:102-126 | An item is in `reviews` exactly when its change is a candidate the model accepted and its point is one the model made on that change. |
| Beatrica.Group | beatrica/beatrica.py:130-137 | The grouping loop yields the keys `GroupKeys(reviews)` in insertion order. The dictionary has exactly those keys, each with `TextsOf(reviews, key)`. |
| Beatrica.GroupKeysMembers | beatrica/beatrica.py:130-137 | The keys are exactly the changes of the review items. |
| Beatrica.GroupKeysDistinct | beatrica/beatrica.py:135-136 | Each key is inserted once. |
| Beatrica.GroupKeysPrefix | beatrica/beatrica.py:130-137 | The keys come in first-seen order: the keys of a prefix of the items are a prefix of the keys. |
| Beatrica.TextsOfPresent | beatrica/beatrica.py:135-137 | Every key has collected at least one point. |
| Beatrica.TextsOfAbsent | beatrica/beatrica.py:135-137 | A change that is not a key collects no point. |
| Beatrica.GroupMapIs | beatrica/beatrica.py:130-137 | What the grouping loop builds is `GroupMap(reviews)`. |
| Beatrica.ReportedChanges | beatrica/beatrica.py:130-137 | The grouped changes are exactly the candidates the model accepted and made at least one point on. |
| Beatrica.BuildPayload | beatrica/beatrica.py:140-142 | The `+=` loop builds `Payload(texts)`. |
| Beatrica.PayloadJoin | beatrica/beatrica.py:140-142 | The payload is a line break followed by the texts joined with line breaks. |
| Beatrica.PayloadLength | beatrica/beatrica.py:140-142 | The payload has one line break per text, plus the texts themselves. |
| Beatrica.AggregateValue | beatrica/beatrica.py:147-151 | A key keeps its list of points exactly when the aggregation answer has no capture. Otherwise it gets the first capture of that answer, as `aggregated_review[0]` does. |
| Beatrica.AggregateOne | beatrica/beatrica.py:140-151 | One pass of the aggregation loop computes `AggregateValue` and puts the aggregation question with the payload. |
| Beatrica.AggregateAll | beatrica/beatrica.py:139-151 | The in-place loop over the dictionary leaves `Visited(keys, |keys|, ...)` and puts one question per key, in key order. |
| Beatrica.AggregateStep | beatrica/beatrica.py:139-151 | One pass replaces exactly the current key's value and puts exactly one more question. |
| Beatrica.VisitedPending | beatrica/beatrica.py:139-151 | A key the loop has not reached still holds its points. |
| Beatrica.VisitedDone | beatrica/beatrica.py:139-151 | The loop never adds or removes a key. A visited key holds the aggregate of its points. |
| Beatrica.VisitedAll | beatrica/beatrica.py:139-151 | After the loop every key holds the aggregate of its points. |
| Beatrica.AggregateAllValues | beatrica/beatrica.py:139-151 | After the aggregation loop the keys are those of the grouping, and each holds `AggregateValue` of its points. |
| Beatrica.AggregateAllQueries | beatrica/beatrica.py:143-144 | Question `j` of the aggregation loop is about key `j`'s points. |
| Beatrica.QueriesUpToAt | beatrica/beatrica.py:143-144 | The `j`-th logged question is `q` of key `j`'s points. |
| Beatrica.QueriesUpTo | beatrica/beatrica.py:143-144 | After `n` passes, `n` questions have been put. |
| Beatrica.VisitedKeys | beatrica/beatrica.py:139-151 | After the loop every key is still in the dictionary. |
| Strings.LStrip | beatrica/beatrica.py:165 | `lstrip` drops only leading whitespace, and its result does not start with whitespace. |
| Strings.LStripUnique | beatrica/beatrica.py:165 | Those three properties determine `lstrip`'s result. |
| Strings.LStripSkipsSpace | beatrica/beatrica.py:168 | Leading whitespace does not change what `lstrip` returns. |
| Strings.LStripNoLead | beatrica/beatrica.py:168 | A text that does not start with whitespace is kept by `lstrip`. |
| Strings.IntLStrip | beatrica/beatrica.py:114 | `int()` skips only leading `int()` whitespace, and what it reads next is not such whitespace. |
| Strings.IntRStrip | beatrica/beatrica.py:114 | `int()` skips only trailing `int()` whitespace, and what it reads last is not such whitespace. |
| Strings.Join | beatrica/beatrica.py:167 | Joining no string gives the empty string; joining one gives that string. |
| Strings.JoinSnoc | beatrica/beatrica.py:167 | Joining one more string appends the separator and that string. |
| Strings.JoinStartsWithFirst | beatrica/beatrica.py:167 | A join starts with its first string. |
| Strings.JoinTwo | beatrica/beatrica.py:167 | Two strings join to the first, the separator and the second. |
| Strings.JoinLength | beatrica/beatrica.py:167 | A join is as long as its parts plus one separator between each two. |
| Strings.TagAt | beatrica/beatrica.py:164 | The shortest prefix that `<[^<]+?>` matches, or none. |
| Strings.TagEndFrom | beatrica/beatrica.py:164 | The search for the tag's end finds the shortest tag, and finds none when there is none. |
| Strings.StripTags | beatrica/beatrica.py:164 | Removing markup never lengthens a text. |
| Strings.StripTagsKeeps | beatrica/beatrica.py:164 | A character other than `<` is kept. |
| Strings.StripTagsPlain | beatrica/beatrica.py:164 | Text without `<` is left as it is. |
| Strings.StripTagsPlainPrefix | beatrica/beatrica.py:164 | Plain text in front passes through unchanged. |
| Strings.StripTagsDropsTag | beatrica/beatrica.py:164 | A whole tag `<name>` is removed. |
| Strings.StripTagsUnclosed | beatrica/beatrica.py:164 | A `<` followed by one character and another `<` is kept, because `[^<]` cannot cross the second `<`. |
| Strings.StripTagsLeavesMarkup | beatrica/beatrica.py:164 | Stripping `<a<b>c>` leaves `<ac>`. |
| Strings.StripTagsNotIdempotent | beatrica/beatrica.py:164 | Stripping is not idempotent. |
| Beatrica.RowFor | beatrica/beatrica.py:161-171 | An empty commit id becomes `N/A` and any other is kept, so the id is never empty. Neither the description nor the review starts with whitespace. |
| Beatrica.RowShows | beatrica/beatrica.py:164-168 | The description is the tag-stripped description, left-stripped. A list of points shows as its space-join, left-stripped. An aggregate shows left-stripped. |
| Beatrica.RowPlainDescription | beatrica/beatrica.py:164-165 | A description without `<` is only left-stripped. |
| Beatrica.RowDescriptionSuffix | beatrica/beatrica.py:164-165 | The shown description is a suffix of the tag-stripped one. |
| Beatrica.RowAggregatedReview | beatrica/beatrica.py:167-168 | An aggregate without leading whitespace is shown as it is. |
| Beatrica.RowJoinsPoints | beatrica/beatrica.py:167-168 | Points that were not aggregated, the first of which does not start with whitespace, show as their space-join with nothing stripped. |
| Beatrica.RowOfPlainAggregate | beatrica/beatrica.py:161-171 | A change with a commit id and a plain description is shown unchanged, and so is its plain aggregate. |
| Beatrica.RowsFor | beatrica/beatrica.py:160-171 | One row per key. |
| Beatrica.RowsForAt | beatrica/beatrica.py:160-171 | Row `i` shows key `i` with its value. |
| Beatrica.BuildRows | beatrica/beatrica.py:160-171 | The row loop builds `RowsFor(keys, values)`. |
| Beatrica.RowsForSnoc | beatrica/beatrica.py:171 | Each pass appends the current key's row behind the earlier ones. |
| Beatrica.GroupMap | beatrica/beatrica.py:130-137 | The grouped dictionary has exactly the grouping keys. |
| Beatrica.Summarise | beatrica/beatrica.py:129-171 | Grouping, the aggregation loop and the row loop together compute `Summary(reviews)`. |
| Beatrica.SummaryRows | beatrica/beatrica.py:129-171 | The report has one row per grouped change, in first-review order. Row `i` shows change `i` with the aggregate of its points. |
| Beatrica.SummaryQueries | beatrica/beatrica.py:139-151 | Aggregation puts one question per grouped change, in the same order, each with that change's payload. |
| Beatrica.Review | beatrica/beatrica.py:36-171 | `review()` computes `Pipeline`: the early exits in the source's order, then the get_changes question, the filter, the review loop and the summary. |
| Beatrica.EchoAnswers | beatrica/prompts.py:3-19 | A model that repeats examples answers each stage with its instruction's example. |
| Beatrica.EchoCandidates | beatrica/beatrica.py:81-90 | With that model only the second placeholder change survives the filter. |
| Beatrica.EchoAccepts | beatrica/beatrica.py:104-119 | With that model every change is accepted and gets the two example points. |
| Beatrica.EchoReviews | beatrica/beatrica.py:102-124 | With that model one candidate yields the two example review items. |
| Beatrica.EchoItems | beatrica/beatrica.py:120-124 | The two example points make two items, in order. |
| Beatrica.EchoAggregates | beatrica/beatrica.py:143-151 | With that model every aggregation yields the example aggregate. |
| Beatrica.EchoGroups | beatrica/beatrica.py:130-137 | With that model the two items of one change form one group. |
| Beatrica.EchoSummary | beatrica/beatrica.py:129-171 | With that model one change's two items give a one-row report with the example aggregate. |
| Beatrica.EchoRow | beatrica/beatrica.py:161-171 | The surviving placeholder change is shown unchanged, with the example aggregate. |
| Beatrica.SampleDescriptionPlain | beatrica/prompts.py:4 | The second example description holds no `<`. |
| Beatrica.EchoPipeline | beatrica/beatrica.py:36-171 | With that model a run reports exactly one row, for the placeholder change `commit_hash2`. |

## Left out

- Argument parsing in `main()`, the console messages and progress bars, the rich table, the empty-table `print`, file output and the choice of output path (`beatrica/beatrica.py:23-34, 49-52, 155-158, 173-193`) are I/O. The model ends with the rows of `table_file`.
- The diff tracker, the embedding processor and the construction of the chat models (`beatrica/beatrica.py:53-55, 66-69, 74-75`) are foreign libraries. The tracker is represented only by the number of changes it found, and the model with its retrieval chain by the oracle `ask`. `ModelName` is modelled, but the model name and `max_tokens` do not reach the oracle.
- `delete_cache` and its swallowed exception (`beatrica/beatrica.py:195-198`) are cache I/O.
- This source does not need a general regular-expression engine. Only the four literal-delimited lazy patterns and the tag stripper `<[^<]+?>` are modelled.
- Strings.ParseInt models `int()` on ASCII text: surrounding tab to carriage return and space, an optional sign and decimal digits. Unicode whitespace, underscores between digits and non-ASCII digits are not modelled; they only matter for answers the model is not asked to give. The limit on integer string length is not modelled either. From Python 3.11, and in 3.7.14, 3.8.14, 3.9.14 and 3.10.7, `int()` raises `ValueError` on a numeral of more than 4300 digits, leading zeros included. On those versions a `<review>` capture of 4300 zeros then `1` makes the source skip the change at line 125. `ParseInt`, `ParseIntIsOne` and `ReviewableIff` still read it as 1, so the change is reviewed. For the same reason `ParseIntShowInt` holds only where numerals of any length are read. Which digit limit applies depends on the interpreter, and the package accepts Python 3.6 and later.
- Strings.LStrip uses the ASCII part of Python's `str.isspace`. Unicode whitespace is not modelled.
- Lists.RemoveFirst states only the new length in its own contract. What it keeps is stated by `Lists.RemoveFirstSubseq` and `Beatrica.GenuineRemove`. The source only removes an element it has just read, so the `ValueError` for a missing element is excluded by its precondition.
- Beatrica.AggregateAll requires only that every key is in the dictionary and that keys are distinct. `Beatrica.AggregateAllValues` adds that the dictionary has no other key.
- Oracle failures are not modelled: `ask` is total, so it always answers. In the source an exception from `retrieval_chain.invoke` ends the run. There is one exception: a `ValueError` from the make_review `invoke` (`beatrica/beatrica.py:116`) falls inside the `try` at lines 113-126 and only skips that change. A `ValueError` from the can_review `invoke` (line 105) or from the aggregation `invoke` (line 144) is not caught. The model has none of these paths.
- Concurrency and timing are not modelled: the source has none beyond the oracle calls.
