/**
 The data logic of `review()` in beatrica/beatrica.py: one question to find
 the changes, a filter that drops the instruction's own placeholder changes,
 a can_review / make_review exchange per remaining change, grouping of the
 review points by change, one aggregation question per change and the rows
 of the final report.

 The language model and its retrieval chain are a deterministic oracle
 `ask`, the answer `retrieval_chain.invoke(q)['answer']` to question `q`.
 Each step also returns the questions it put, in order, as `Query` values
 (a stage and its payload, which determine the question text), so that
 what is and is not asked can be stated.
 */
module Beatrica {
  import opened Strings
  import opened Lists
  import opened Prompts

  /** One entry of the `reviews` list: a change and one review point on it. */
  datatype ReviewItem = ReviewItem(change: Change, point: string)

  /** A value of the `aggregated_reviews` dictionary: the review points
      collected for a change, or the aggregated review that replaced them. */
  datatype Value = Points(texts: seq<string>) | Aggregated(text: string)

  /** The question `Question(stage, payload)`, as recorded in the log of
      questions put to the model. */
  datatype Query = Query(stage: Stage, payload: string)

  /** A row of the report table. */
  datatype Row = Row(commit: string, description: string, review: string)

  /** How a run ends. `NoChanges` and `NoCandidates` are the two early
      `exit(0)`s, `Unsupported` the `ValueError` for an unknown LLM type. */
  datatype Outcome = NoChanges | Unsupported | NoCandidates | Report(rows: seq<Row>)

  // ---------------------------------------------------------------------
  // Model name defaults

  const OpenAIDefaultModel := "gpt-4-0125-preview"
  const MistralDefaultModel := "mistral-large-latest"

  /** The model name used: an empty name is replaced by the default of a
      known LLM type. */
  function ModelName(llmType: string, modelName: string): (r: string)
    ensures modelName != "" ==> r == modelName
    ensures modelName == "" && llmType == "openai" ==> r == OpenAIDefaultModel
    ensures modelName == "" && llmType == "mistralai" ==> r == MistralDefaultModel
    ensures r == "" <==> modelName == "" && llmType != "openai" && llmType != "mistralai"
  {
    if llmType == "openai" && modelName == "" then OpenAIDefaultModel
    else if llmType == "mistralai" && modelName == "" then MistralDefaultModel
    else modelName
  }

  predicate SupportedLlm(llmType: string) {
    llmType == "openai" || llmType == "mistralai"
  }

  // ---------------------------------------------------------------------
  // The spurious-candidate filter

  const CommitPlaceholder := "commit_hash"

  /** The description test's literal. Python keeps the backslash of the
      unknown escape `\_`, so the literal has twelve characters. */
  const EscapedPlaceholder := "commit\\_hash"

  lemma EscapedPlaceholderHasBackslash()
    ensures |EscapedPlaceholder| == 12 && EscapedPlaceholder[6] == '\\'
    ensures !StartsWith("commit_hash", EscapedPlaceholder)
  {
    assert "commit_hash"[6] == '_';
  }

  /** A candidate the filter drops when it looks at it. */
  predicate Spurious(c: Change) {
    StartsWith(c.commit, CommitPlaceholder) || StartsWith(c.description, EscapedPlaceholder)
  }

  /** The filter loop from its `i`-th step on: the loop reads `xs[i]`, and
      a spurious candidate makes `list.remove` drop the first equal element,
      so the one behind it moves to index `i` and the loop passes it by. */
  function FilterFrom(xs: seq<Change>, i: nat): seq<Change>
    decreases |xs| - i
  {
    if i >= |xs| then xs
    else if Spurious(xs[i]) then FilterFrom(RemoveFirst(xs, xs[i]), i + 1)
    else FilterFrom(xs, i + 1)
  }

  function Filtered(xs: seq<Change>): seq<Change> {
    FilterFrom(xs, 0)
  }

  /** `for match in matches: ... matches.remove(match)`. */
  method FilterSpurious(matches: seq<Change>) returns (kept: seq<Change>)
    ensures kept == Filtered(matches)
  {
    kept := matches;
    var i := 0;
    while i < |kept|
      invariant FilterFrom(kept, i) == Filtered(matches)
      decreases |kept| - i
    {
      var m := kept[i];
      if Spurious(m) {
        kept := RemoveFirst(kept, m);
      }
      i := i + 1;
    }
  }

  /** The candidates that are not spurious, in order. */
  function Genuine(xs: seq<Change>): seq<Change> {
    if xs == [] then [] else (if Spurious(xs[0]) then [] else [xs[0]]) + Genuine(xs[1..])
  }

  lemma {:induction false} GenuineAppend(a: seq<Change>, b: seq<Change>)
    ensures Genuine(a + b) == Genuine(a) + Genuine(b)
  {
    if a == [] {
      assert a + b == b;
    } else {
      assert (a + b)[1..] == a[1..] + b;
      GenuineAppend(a[1..], b);
    }
  }

  /** Removing a spurious candidate leaves the genuine ones as they were. */
  lemma GenuineRemove(xs: seq<Change>, x: Change)
    requires x in xs && Spurious(x)
    ensures Genuine(RemoveFirst(xs, x)) == Genuine(xs)
  {
    var k := FirstIndex(xs, x);
    GenuineSkip(xs[..k], x, xs[k + 1..]);
    assert xs == xs[..k] + [x] + xs[k + 1..];
  }

  lemma GenuineSkip(pre: seq<Change>, x: Change, post: seq<Change>)
    requires Spurious(x)
    ensures Genuine(pre + [x] + post) == Genuine(pre + post)
  {
    GenuineAppend(pre, [x] + post);
    GenuineAppend(pre, post);
    assert Genuine([x] + post) == Genuine(post) by {
      assert ([x] + post)[0] == x && ([x] + post)[1..] == post;
    }
    assert pre + [x] + post == pre + ([x] + post);
  }

  /** The filter removes only spurious candidates: the genuine ones all
      survive, in their order. */
  lemma {:induction false} FilterKeepsGenuine(xs: seq<Change>, i: nat)
    ensures Genuine(FilterFrom(xs, i)) == Genuine(xs)
    decreases |xs| - i
  {
    if i < |xs| {
      if Spurious(xs[i]) {
        GenuineRemove(xs, xs[i]);
        FilterKeepsGenuine(RemoveFirst(xs, xs[i]), i + 1);
      } else {
        FilterKeepsGenuine(xs, i + 1);
      }
    }
  }

  /** What the filter keeps is a subsequence of its input. */
  lemma {:induction false} FilterSubseq(xs: seq<Change>, i: nat)
    ensures IsSubseq(FilterFrom(xs, i), xs)
    decreases |xs| - i
  {
    if i >= |xs| {
      SubseqRefl(xs);
    } else if Spurious(xs[i]) {
      var r := RemoveFirst(xs, xs[i]);
      FilterSubseq(r, i + 1);
      RemoveFirstSubseq(xs, xs[i]);
      SubseqTrans(FilterFrom(r, i + 1), r, xs);
    } else {
      FilterSubseq(xs, i + 1);
    }
  }

  lemma {:induction false} GenuineIn(xs: seq<Change>, x: Change)
    ensures x in Genuine(xs) <==> x in xs && !Spurious(x)
  {
    if xs != [] {
      GenuineIn(xs[1..], x);
      assert xs == [xs[0]] + xs[1..];
    }
  }

  /** Membership form of the two lemmas above: a candidate is kept if it is
      genuine, and everything kept was a candidate. */
  lemma FilteredMembers(xs: seq<Change>, x: Change)
    ensures !Spurious(x) ==> (x in Filtered(xs) <==> x in xs)
    ensures x in Filtered(xs) ==> x in xs
  {
    FilterKeepsGenuine(xs, 0);
    GenuineIn(xs, x);
    GenuineIn(Filtered(xs), x);
    FilterSubseq(xs, 0);
    if x in Filtered(xs) {
      SubseqMembers(Filtered(xs), xs, x);
    }
  }

  lemma SamplesSpurious()
    ensures Spurious(GetChangesSample1) && Spurious(GetChangesSample2)
  {
    assert SampleCommit1[..11] == CommitPlaceholder;
    assert SampleCommit2[..11] == CommitPlaceholder;
  }

  /** The echoed example of the get_changes instruction is not filtered
      away: removing the first placeholder change moves the second one to
      the index the loop has just read, so it is never examined and a
      spurious candidate survives. */
  lemma EchoedSamplesFilter()
    ensures Filtered([GetChangesSample1, GetChangesSample2]) == [GetChangesSample2]
    ensures Spurious(GetChangesSample2)
  {
    SamplesSpurious();
    var xs := [GetChangesSample1, GetChangesSample2];
    assert RemoveFirst(xs, xs[0]) == [GetChangesSample2] by {
      assert FirstIndex(xs, xs[0]) == 0;
      assert xs[1..] == [GetChangesSample2];
    }
    assert FilterFrom(xs, 0) == FilterFrom([GetChangesSample2], 1);
  }

  // ---------------------------------------------------------------------
  // Review of each candidate

  /** `match[0] + ": " + match[1]`, the payload of the can_review and
      make_review questions. */
  function ChangePayload(c: Change): string {
    c.commit + ": " + c.description
  }

  /** The first can_review capture, read by `int()`, is 1. No capture and a
      `ValueError` both skip the change. */
  predicate Reviewable(answer: string) {
    var caps := Extract(CanReview, answer);
    |caps| > 0 && ParseInt(caps[0]) == Some(1)
  }

  /** Reviewable answers, spelled out: the first `<review>` capture is,
      apart from surrounding `int()` whitespace and an optional `+`, zeros and a
      final "1". */
  lemma ReviewableIff(answer: string)
    ensures Reviewable(answer) <==>
      var caps := Extract(CanReview, answer);
      |caps| > 0 && var t := IntStrip(caps[0]); OneNumeral(if |t| > 0 && t[0] == '+' then t[1..] else t)
  {
    var caps := Extract(CanReview, answer);
    if |caps| > 0 {
      ParseIntIsOne(caps[0]);
    }
  }

  /** A model that echoes the can_review instruction declares the change
      reviewable. */
  lemma EchoedCanReviewIsReviewable()
    ensures Reviewable(CanReviewExpectedAnswer)
  {
    CanReviewExampleExtracts();
    ParseIntShowInt(1);
    assert ShowInt(1) == "1";
  }

  function CanReviewQuestionFor(c: Change): string {
    Question(CanReview, ChangePayload(c))
  }

  function MakeReviewQuestionFor(c: Change): string {
    Question(MakeReview, ChangePayload(c))
  }

  /** Whether the model agrees to review `c`. */
  predicate Accepted(c: Change, ask: string -> string) {
    Reviewable(ask(CanReviewQuestionFor(c)))
  }

  /** The review points the model makes on `c`. */
  function PointsFor(c: Change, ask: string -> string): seq<string> {
    Extract(MakeReview, ask(MakeReviewQuestionFor(c)))
  }

  /** One review item per point, in the order of the points. */
  function Items(c: Change, points: seq<string>): (r: seq<ReviewItem>)
    ensures |r| == |points|
    ensures forall k :: 0 <= k < |points| ==> r[k] == ReviewItem(c, points[k])
  {
    if points == [] then [] else Items(c, points[..|points| - 1]) + [ReviewItem(c, points[|points| - 1])]
  }

  /** The review items one candidate contributes. */
  function ReviewsFor(c: Change, ask: string -> string): seq<ReviewItem> {
    if Accepted(c, ask) then Items(c, PointsFor(c, ask)) else []
  }

  /** The questions one candidate costs. */
  function AskedFor(c: Change, ask: string -> string): seq<Query> {
    [Query(CanReview, ChangePayload(c))] + if Accepted(c, ask) then [Query(MakeReview, ChangePayload(c))] else []
  }

  /** The `reviews` list after the candidates `cs`. */
  function AllReviews(cs: seq<Change>, ask: string -> string): seq<ReviewItem> {
    FlatMap(cs, c => ReviewsFor(c, ask))
  }

  function AllAsked(cs: seq<Change>, ask: string -> string): seq<Query> {
    FlatMap(cs, c => AskedFor(c, ask))
  }

  /** One pass of the review loop: the can_review question, and for an
      accepted change the make_review question and one item per point. */
  method ReviewOne(c: Change, ask: string -> string) returns (items: seq<ReviewItem>, asked: seq<Query>)
    ensures items == ReviewsFor(c, ask)
    ensures asked == AskedFor(c, ask)
  {
    items := [];
    var question := Question(CanReview, ChangePayload(c));
    var answer := ask(question);
    asked := [Query(CanReview, ChangePayload(c))];
    var canReview := Extract(CanReview, answer);
    if |canReview| == 0 {
      return;
    }
    if ParseInt(canReview[0]) == Some(1) {
      question := Question(MakeReview, ChangePayload(c));
      answer := ask(question);
      asked := asked + [Query(MakeReview, ChangePayload(c))];
      var points := Extract(MakeReview, answer);
      items := AppendItems(items, c, points);
    }
  }

  /** `for review_point in review_points: reviews.append(...)`. */
  method AppendItems(reviews: seq<ReviewItem>, c: Change, points: seq<string>) returns (r: seq<ReviewItem>)
    ensures r == reviews + Items(c, points)
  {
    r := reviews;
    for j := 0 to |points|
      invariant r == reviews + Items(c, points[..j])
    {
      assert points[..j + 1][..j] == points[..j];
      r := r + [ReviewItem(c, points[j])];
    }
    assert points[..|points|] == points;
  }

  /** The review loop over the filtered candidates. */
  method CollectReviews(candidates: seq<Change>, ask: string -> string) returns (reviews: seq<ReviewItem>, asked: seq<Query>)
    ensures reviews == AllReviews(candidates, ask)
    ensures asked == AllAsked(candidates, ask)
  {
    reviews, asked := [], [];
    for i := 0 to |candidates|
      invariant reviews == AllReviews(candidates[..i], ask)
      invariant asked == AllAsked(candidates[..i], ask)
    {
      assert candidates[..i + 1][..i] == candidates[..i];
      var items, questions := ReviewOne(candidates[i], ask);
      reviews := reviews + items;
      asked := asked + questions;
    }
    assert candidates[..|candidates|] == candidates;
  }

  lemma ItemsMembers(c: Change, points: seq<string>, it: ReviewItem)
    ensures it in Items(c, points) <==> it.change == c && it.point in points
  {
    var r := Items(c, points);
    if it in r {
      var k :| 0 <= k < |r| && r[k] == it;
      assert points[k] == it.point;
    }
    if it.change == c && it.point in points {
      var k :| 0 <= k < |points| && points[k] == it.point;
      assert r[k] == it;
    }
  }

  lemma ReviewsForMembers(c: Change, ask: string -> string, it: ReviewItem)
    ensures it in ReviewsFor(c, ask) <==>
      it.change == c && Accepted(c, ask) && it.point in PointsFor(c, ask)
  {
    if Accepted(c, ask) {
      ItemsMembers(c, PointsFor(c, ask), it);
    }
  }

  /** An item is in `reviews` exactly when its change is a candidate the
      model agreed to review and its point is one the model made on it. */
  lemma AllReviewsMembers(cs: seq<Change>, ask: string -> string, it: ReviewItem)
    ensures it in AllReviews(cs, ask) <==>
      it.change in cs && Accepted(it.change, ask) && it.point in PointsFor(it.change, ask)
  {
    FlatMapMembers(cs, c => ReviewsFor(c, ask), it);
    ReviewsForMembers(it.change, ask, it);
    if it in AllReviews(cs, ask) {
      var c :| c in cs && it in ReviewsFor(c, ask);
      ReviewsForMembers(c, ask, it);
    }
  }

  /** A candidate the model does not accept, for want of a capture, for a
      `ValueError` or for another number, contributes no item. */
  lemma RejectedContributesNothing(c: Change, ask: string -> string)
    requires !Reviewable(ask(CanReviewQuestionFor(c)))
    ensures ReviewsFor(c, ask) == []
    ensures AskedFor(c, ask) == [Query(CanReview, ChangePayload(c))]
  {
  }

  // ---------------------------------------------------------------------
  // Grouping by change

  /** The keys of `aggregated_reviews` after the items `rs`, in insertion
      order. */
  function GroupKeys(rs: seq<ReviewItem>): seq<Change> {
    if rs == [] then []
    else
      var ks := GroupKeys(rs[..|rs| - 1]);
      var k := rs[|rs| - 1].change;
      if k in ks then ks else ks + [k]
  }

  /** The points collected for key `k`, in the order of the items. */
  function TextsOf(rs: seq<ReviewItem>, k: Change): seq<string> {
    if rs == [] then []
    else TextsOf(rs[..|rs| - 1], k) + if rs[|rs| - 1].change == k then [rs[|rs| - 1].point] else []
  }

  /** The grouping loop: a missing key gets an empty list, then the point
      is appended to its key's list. */
  method Group(reviews: seq<ReviewItem>) returns (keys: seq<Change>, groups: map<Change, seq<string>>)
    ensures keys == GroupKeys(reviews)
    ensures forall k :: k in groups <==> k in keys
    ensures forall k :: k in groups ==> groups[k] == TextsOf(reviews, k)
  {
    keys, groups := [], map[];
    for i := 0 to |reviews|
      invariant keys == GroupKeys(reviews[..i])
      invariant forall k :: k in groups <==> k in keys
      invariant forall k :: k in groups ==> groups[k] == TextsOf(reviews[..i], k)
    {
      assert reviews[..i + 1][..i] == reviews[..i];
      var key := reviews[i].change;
      if key !in groups {
        keys := keys + [key];
        groups := groups[key := []];
        assert groups[key] == TextsOf(reviews[..i], key) by {
          TextsOfAbsent(reviews[..i], key);
        }
      }
      groups := groups[key := groups[key] + [reviews[i].point]];
    }
    assert reviews[..|reviews|] == reviews;
  }

  /** A key first met now has collected nothing yet. */
  lemma {:induction false} TextsOfAbsent(rs: seq<ReviewItem>, k: Change)
    requires k !in GroupKeys(rs)
    ensures TextsOf(rs, k) == []
  {
    if rs != [] {
      TextsOfAbsent(rs[..|rs| - 1], k);
    }
  }

  /** The keys are the changes of the items, ... */
  lemma {:induction false} GroupKeysMembers(rs: seq<ReviewItem>, k: Change)
    ensures k in GroupKeys(rs) <==> exists i :: 0 <= i < |rs| && rs[i].change == k
  {
    if rs != [] {
      var init := rs[..|rs| - 1];
      GroupKeysMembers(init, k);
      if exists i :: 0 <= i < |rs| && rs[i].change == k {
        var i :| 0 <= i < |rs| && rs[i].change == k;
        if i < |rs| - 1 {
          assert init[i].change == k;
        }
      }
      if exists i :: 0 <= i < |init| && init[i].change == k {
        var i :| 0 <= i < |init| && init[i].change == k;
        assert rs[i].change == k;
      }
    }
  }

  /** ... each once, ... */
  lemma {:induction false} GroupKeysDistinct(rs: seq<ReviewItem>)
    ensures Distinct(GroupKeys(rs))
  {
    if rs != [] {
      GroupKeysDistinct(rs[..|rs| - 1]);
    }
  }

  /** ... in the order of their first items: the keys of a prefix of the
      items are a prefix of the keys. */
  lemma {:induction false} GroupKeysPrefix(rs: seq<ReviewItem>, n: nat)
    requires n <= |rs|
    ensures GroupKeys(rs[..n]) <= GroupKeys(rs)
    decreases |rs| - n
  {
    if n < |rs| {
      GroupKeysPrefix(rs, n + 1);
      assert rs[..n + 1][..n] == rs[..n];
    } else {
      assert rs[..n] == rs;
    }
  }

  /** Every key has collected at least one point. */
  lemma {:induction false} TextsOfPresent(rs: seq<ReviewItem>, k: Change)
    requires k in GroupKeys(rs)
    ensures TextsOf(rs, k) != []
  {
    var init := rs[..|rs| - 1];
    if k in GroupKeys(init) {
      TextsOfPresent(init, k);
    }
  }

  // ---------------------------------------------------------------------
  // Aggregation

  /** The `review_points` string: each text behind a newline. */
  function Payload(texts: seq<string>): string {
    if texts == [] then "" else Payload(texts[..|texts| - 1]) + "\n" + texts[|texts| - 1]
  }

  /** The loop that builds `review_points`. */
  method BuildPayload(texts: seq<string>) returns (p: string)
    ensures p == Payload(texts)
  {
    p := "";
    for i := 0 to |texts|
      invariant p == Payload(texts[..i])
    {
      assert texts[..i + 1][..i] == texts[..i];
      p := p + "\n" + texts[i];
    }
    assert texts[..|texts|] == texts;
  }

  /** The payload is the texts joined by newlines, behind a newline. */
  lemma {:induction false} PayloadJoin(texts: seq<string>)
    requires texts != []
    ensures Payload(texts) == "\n" + Join("\n", texts)
  {
    var init, last := texts[..|texts| - 1], texts[|texts| - 1];
    if init != [] {
      PayloadJoin(init);
      JoinSnoc("\n", init, last);
      assert texts == init + [last];
      NewlineRegroup(Join("\n", init), last);
    } else {
      assert texts == [last];
    }
  }

  /** Associativity of concatenation around a line break; a proof helper
      for `PayloadJoin`, not a property of the source. */
  lemma NewlineRegroup(j: string, last: string)
    ensures "\n" + j + "\n" + last == "\n" + (j + "\n" + last)
  {
  }

  /** One newline for each text, and the texts themselves. */
  lemma {:induction false} PayloadLength(texts: seq<string>)
    ensures |Payload(texts)| == TotalLength(texts) + |texts|
  {
    if texts != [] {
      PayloadJoin(texts);
      JoinLength("\n", texts);
    }
  }

  function AggregateQuestionFor(texts: seq<string>): string {
    Question(AggregateReviewPoints, Payload(texts))
  }

  function AggregateQueryFor(texts: seq<string>): Query {
    Query(AggregateReviewPoints, Payload(texts))
  }

  /** The value a key ends with: the first aggregated review the model
      returns, or the list of points when it returns none. */
  function AggregateValue(texts: seq<string>, ask: string -> string): (v: Value)
    ensures v.Points? ==> v.texts == texts
    ensures v.Points? <==> Extract(AggregateReviewPoints, ask(AggregateQuestionFor(texts))) == []
    ensures v.Aggregated? ==> v.text == Extract(AggregateReviewPoints, ask(AggregateQuestionFor(texts)))[0]
  {
    var found := Extract(AggregateReviewPoints, ask(AggregateQuestionFor(texts)));
    if |found| == 0 then Points(texts) else Aggregated(found[0])
  }

  /** One pass of the aggregation loop. */
  method AggregateOne(texts: seq<string>, ask: string -> string) returns (v: Value, query: Query)
    ensures v == AggregateValue(texts, ask)
    ensures query == AggregateQueryFor(texts)
  {
    var points := BuildPayload(texts);
    query := Query(AggregateReviewPoints, points);
    var question := Question(AggregateReviewPoints, points);
    var answer := ask(question);
    var found := Extract(AggregateReviewPoints, answer);
    if |found| == 0 {
      v := Points(texts);
    } else {
      v := Aggregated(found[0]);
    }
  }

  /** The dictionary after a loop that has visited the first `n` keys and
      replaced the points of each with `f` of them; the aggregation loop is
      the instance `f(texts) == AggregateValue(texts, ask)`. */
  function Visited(keys: seq<Change>, n: nat, groups: map<Change, seq<string>>, f: seq<string> -> Value)
    : map<Change, Value>
    requires n <= |keys| && forall k :: k in keys ==> k in groups
  {
    if n == 0 then map k | k in groups :: Points(groups[k])
    else Visited(keys, n - 1, groups, f)[keys[n - 1] := f(groups[keys[n - 1]])]
  }

  /** A key the loop has not reached yet still holds its points. */
  lemma {:induction false} VisitedPending(keys: seq<Change>, n: nat, groups: map<Change, seq<string>>,
                                           f: seq<string> -> Value, j: nat)
    requires n <= j < |keys| && forall k :: k in keys ==> k in groups
    requires Distinct(keys)
    ensures keys[j] in Visited(keys, n, groups, f)
    ensures Visited(keys, n, groups, f)[keys[j]] == Points(groups[keys[j]])
  {
    if n > 0 {
      VisitedPending(keys, n - 1, groups, f, j);
    }
  }

  /** The loop replaces values only, and a key it has visited holds `f` of
      its points. */
  lemma {:induction false} VisitedDone(keys: seq<Change>, n: nat, groups: map<Change, seq<string>>,
                                        f: seq<string> -> Value, k: Change)
    requires n <= |keys| && forall k :: k in keys ==> k in groups
    requires Distinct(keys)
    ensures k in Visited(keys, n, groups, f) <==> k in groups
    ensures k in keys[..n] ==> Visited(keys, n, groups, f)[k] == f(groups[k])
  {
    if n > 0 {
      VisitedDone(keys, n - 1, groups, f, k);
      assert keys[..n] == keys[..n - 1] + [keys[n - 1]];
    }
  }

  /** After the whole loop every key holds `f` of its points. */
  lemma VisitedAll(keys: seq<Change>, groups: map<Change, seq<string>>, f: seq<string> -> Value)
    requires forall k :: k in groups <==> k in keys
    requires Distinct(keys)
    ensures Visited(keys, |keys|, groups, f) == map k | k in groups :: f(groups[k])
  {
    var m := Visited(keys, |keys|, groups, f);
    assert keys[..|keys|] == keys;
    forall k
      ensures k in m <==> k in groups
      ensures k in m ==> m[k] == f(groups[k])
    {
      VisitedDone(keys, |keys|, groups, f, k);
    }
  }

  /** `q` of the points of the first `n` keys, in key order: the questions
      the loop puts, for `q == AggregateQueryFor`. */
  function QueriesUpTo(keys: seq<Change>, n: nat, groups: map<Change, seq<string>>, q: seq<string> -> Query)
    : (qs: seq<Query>)
    requires n <= |keys| && forall k :: k in keys ==> k in groups
    ensures |qs| == n
  {
    if n == 0 then [] else QueriesUpTo(keys, n - 1, groups, q) + [q(groups[keys[n - 1]])]
  }

  lemma {:induction false} QueriesUpToAt(keys: seq<Change>, n: nat, groups: map<Change, seq<string>>,
                                          q: seq<string> -> Query, j: nat)
    requires j < n <= |keys| && forall k :: k in keys ==> k in groups
    ensures QueriesUpTo(keys, n, groups, q)[j] == q(groups[keys[j]])
  {
    if j < n - 1 {
      QueriesUpToAt(keys, n - 1, groups, q, j);
    }
  }

  /** The aggregate of each key's points. */
  function AggregateWith(ask: string -> string): seq<string> -> Value {
    texts => AggregateValue(texts, ask)
  }

  /** The aggregation loop, over the keys in insertion order. */
  method AggregateAll(keys: seq<Change>, groups: map<Change, seq<string>>, ask: string -> string)
    returns (values: map<Change, Value>, asked: seq<Query>)
    requires forall k :: k in keys ==> k in groups
    requires Distinct(keys)
    ensures values == Visited(keys, |keys|, groups, AggregateWith(ask))
    ensures asked == QueriesUpTo(keys, |keys|, groups, AggregateQueryFor)
  {
    values := map k | k in groups :: Points(groups[k]);
    asked := [];
    for i := 0 to |keys|
      invariant values == Visited(keys, i, groups, AggregateWith(ask))
      invariant asked == QueriesUpTo(keys, i, groups, AggregateQueryFor)
    {
      var key := keys[i];
      VisitedPending(keys, i, groups, AggregateWith(ask), i);
      match values[key]
      case Points(texts) =>
        var v, query := AggregateOne(texts, ask);
        AggregateStep(keys, groups, ask, i);
        values := values[key := v];
        asked := asked + [query];
      case Aggregated(_) =>
        assert false;
    }
  }

  /** One pass of the loop aggregates the next key and puts one more
      question. */
  lemma AggregateStep(keys: seq<Change>, groups: map<Change, seq<string>>, ask: string -> string, i: nat)
    requires forall k :: k in keys ==> k in groups
    requires i < |keys|
    ensures Visited(keys, i + 1, groups, AggregateWith(ask))
      == Visited(keys, i, groups, AggregateWith(ask))[keys[i] := AggregateValue(groups[keys[i]], ask)]
    ensures QueriesUpTo(keys, i + 1, groups, AggregateQueryFor)
      == QueriesUpTo(keys, i, groups, AggregateQueryFor) + [AggregateQueryFor(groups[keys[i]])]
  {
  }

  /** After the loop every key holds its aggregate, ... */
  lemma AggregateAllValues(keys: seq<Change>, groups: map<Change, seq<string>>, ask: string -> string, k: Change)
    requires forall k :: k in groups <==> k in keys
    requires Distinct(keys)
    ensures k in Visited(keys, |keys|, groups, AggregateWith(ask)) <==> k in groups
    ensures k in groups ==> Visited(keys, |keys|, groups, AggregateWith(ask))[k] == AggregateValue(groups[k], ask)
  {
    var f := AggregateWith(ask);
    VisitedDone(keys, |keys|, groups, f, k);
    if k in groups {
      assert keys[..|keys|] == keys;
      assert k in keys[..|keys|];
      assert f(groups[k]) == AggregateValue(groups[k], ask);
    }
  }

  /** ... and one question has been put per key, in insertion order. */
  lemma AggregateAllQueries(keys: seq<Change>, groups: map<Change, seq<string>>, j: nat)
    requires forall k :: k in groups <==> k in keys
    requires j < |keys|
    ensures QueriesUpTo(keys, |keys|, groups, AggregateQueryFor)[j] == AggregateQueryFor(groups[keys[j]])
  {
    QueriesUpToAt(keys, |keys|, groups, AggregateQueryFor, j);
  }

  // ---------------------------------------------------------------------
  // Report rows

  /** `" ".join(reviews)` for a list, the string itself for an aggregate. */
  function Shown(v: Value): string {
    match v
    case Points(texts) => Join(" ", texts)
    case Aggregated(text) => text
  }

  /** One row of the table: `N/A` for an empty commit id, the description
      with its tags removed and then left-stripped, and the review text
      left-stripped. */
  function RowFor(k: Change, v: Value): (r: Row)
    ensures r.commit != []
    ensures k.commit == [] ==> r.commit == "N/A"
    ensures k.commit != [] ==> r.commit == k.commit
    ensures r.description == [] || !IsSpace(r.description[0])
    ensures r.review == [] || !IsSpace(r.review[0])
  {
    Row(if k.commit == [] then "N/A" else k.commit, LStrip(StripTags(k.description)), LStrip(Shown(v)))
  }

  /** What each column of a row shows: the description with its tags
      removed and then left-stripped; for a list of points their
      space-join, left-stripped; for an aggregate the aggregate,
      left-stripped. The three functions are characterised on their own:
      `LStrip` by its contract and `LStripUnique`, `StripTags` by
      `StripTagsKeeps`, `StripTagsPlain`, `StripTagsDropsTag` and
      `StripTagsUnclosed`, `Join` by its contract, `JoinSnoc` and
      `JoinLength`. */
  lemma RowShows(k: Change, v: Value)
    ensures RowFor(k, v).description == LStrip(StripTags(k.description))
    ensures v.Points? ==> RowFor(k, v).review == LStrip(Join(" ", v.texts))
    ensures v.Aggregated? ==> RowFor(k, v).review == LStrip(v.text)
  {
  }

  /** A description without `<` is only left-stripped. */
  lemma RowPlainDescription(k: Change, v: Value)
    requires '<' !in k.description
    ensures RowFor(k, v).description == LStrip(k.description)
  {
    StripTagsPlain(k.description);
  }

  /** Leading whitespace of a description is dropped, or kept whole, with
      nothing else changed. */
  lemma RowDescriptionSuffix(k: Change, v: Value)
    ensures RowFor(k, v).description == StripTags(k.description)[|StripTags(k.description)| - |RowFor(k, v).description|..]
  {
  }

  /** An aggregate that does not start with whitespace is shown as is. */
  lemma RowAggregatedReview(k: Change, text: string)
    requires text == [] || !IsSpace(text[0])
    ensures RowFor(k, Aggregated(text)).review == text
  {
  }

  /** A change with a non-empty commit id and a description without tags
      or leading whitespace is shown as it is, and so is an aggregate
      without leading whitespace. */
  lemma RowOfPlainAggregate(k: Change, text: string)
    requires k.commit != [] && '<' !in k.description
    requires k.description == [] || !IsSpace(k.description[0])
    requires text == [] || !IsSpace(text[0])
    ensures RowFor(k, Aggregated(text)) == Row(k.commit, k.description, text)
  {
    RowPlainDescription(k, Aggregated(text));
  }

  /** Points that were not aggregated are shown joined by a space, as in
      "rename is fine add docstring" for the points "rename is fine" and
      "add docstring": the join starts with the first point, so when that
      does not start with whitespace nothing is stripped. */
  lemma RowJoinsPoints(k: Change, texts: seq<string>)
    requires texts != [] && texts[0] != [] && !IsSpace(texts[0][0])
    ensures RowFor(k, Points(texts)).review == Join(" ", texts)
  {
    var j := Join(" ", texts);
    JoinStartsWithFirst(" ", texts);
    assert j[0] == j[..|texts[0]|][0] == texts[0][0];
    LStripNoLead(j);
  }

  /** The table rows, in the insertion order of the keys. */
  function RowsFor(keys: seq<Change>, values: map<Change, Value>): (rows: seq<Row>)
    requires forall k :: k in keys ==> k in values
    ensures |rows| == |keys|
  {
    if keys == [] then []
    else RowsFor(keys[..|keys| - 1], values) + [RowFor(keys[|keys| - 1], values[keys[|keys| - 1]])]
  }

  /** Row `i` shows key `i` with its value. */
  lemma {:induction false} RowsForAt(keys: seq<Change>, values: map<Change, Value>, i: nat)
    requires forall k :: k in keys ==> k in values
    requires i < |keys|
    ensures RowsFor(keys, values)[i] == RowFor(keys[i], values[keys[i]])
  {
    if i < |keys| - 1 {
      var init := keys[..|keys| - 1];
      RowsForAt(init, values, i);
    }
  }

  /** The loop that fills `table_file`. */
  method BuildRows(keys: seq<Change>, values: map<Change, Value>) returns (rows: seq<Row>)
    requires forall k :: k in keys ==> k in values
    ensures rows == RowsFor(keys, values)
  {
    rows := [];
    for i := 0 to |keys|
      invariant rows == RowsFor(keys[..i], values)
    {
      RowsForSnoc(keys, values, i);
      rows := rows + [RowFor(keys[i], values[keys[i]])];
    }
    assert keys[..|keys|] == keys;
  }

  /** One more key, one more row behind the others. */
  lemma RowsForSnoc(keys: seq<Change>, values: map<Change, Value>, i: nat)
    requires forall k :: k in keys ==> k in values
    requires i < |keys|
    ensures RowsFor(keys[..i + 1], values) == RowsFor(keys[..i], values) + [RowFor(keys[i], values[keys[i]])]
  {
    assert keys[..i + 1][..i] == keys[..i];
  }

  // ---------------------------------------------------------------------
  // The whole review

  /** `aggregated_reviews` after the grouping loop. */
  function GroupMap(reviews: seq<ReviewItem>): (groups: map<Change, seq<string>>)
    ensures forall k :: k in groups <==> k in GroupKeys(reviews)
  {
    map k | k in GroupKeys(reviews) :: TextsOf(reviews, k)
  }

  lemma GroupMapIs(reviews: seq<ReviewItem>, keys: seq<Change>, groups: map<Change, seq<string>>)
    requires keys == GroupKeys(reviews)
    requires forall k :: k in groups <==> k in keys
    requires forall k :: k in groups ==> groups[k] == TextsOf(reviews, k)
    ensures groups == GroupMap(reviews)
  {
  }

  /** What `review()` does with the changes found, after the LLM type has
      been accepted: the outcome and the questions put, in order. The
      tracker is represented by the number of changes it found. */
  function Pipeline(changeCount: nat, llmType: string, ask: string -> string): (Outcome, seq<Query>) {
    if changeCount == 0 then (NoChanges, [])
    else if !SupportedLlm(llmType) then (Unsupported, [])
    else
      var candidates := Filtered(ExtractChanges(ask(Question(GetChanges, ""))));
      if candidates == [] then (NoCandidates, [Query(GetChanges, "")])
      else
        var reviews := AllReviews(candidates, ask);
        var (outcome, queries) := Summary(reviews, ask);
        (outcome, [Query(GetChanges, "")] + AllAsked(candidates, ask) + queries)
  }

  /** Grouping, aggregation and the table, for the review items `reviews`. */
  function Summary(reviews: seq<ReviewItem>, ask: string -> string): (Outcome, seq<Query>) {
    var keys := GroupKeys(reviews);
    var groups := GroupMap(reviews);
    var values := Visited(keys, |keys|, groups, AggregateWith(ask));
    GroupKeysDistinct(reviews);
    VisitedKeys(keys, groups, AggregateWith(ask));
    (Report(RowsFor(keys, values)), QueriesUpTo(keys, |keys|, groups, AggregateQueryFor))
  }

  lemma VisitedKeys(keys: seq<Change>, groups: map<Change, seq<string>>, f: seq<string> -> Value)
    requires forall k :: k in groups <==> k in keys
    requires Distinct(keys)
    ensures forall k :: k in keys ==> k in Visited(keys, |keys|, groups, f)
  {
    forall k | k in keys
      ensures k in Visited(keys, |keys|, groups, f)
    {
      VisitedDone(keys, |keys|, groups, f, k);
    }
  }

  /** The part of `review()` after the review loop. */
  method Summarise(reviews: seq<ReviewItem>, ask: string -> string) returns (outcome: Outcome, asked: seq<Query>)
    ensures (outcome, asked) == Summary(reviews, ask)
  {
    var keys, groups := Group(reviews);
    GroupMapIs(reviews, keys, groups);
    GroupKeysDistinct(reviews);
    var values;
    values, asked := AggregateAll(keys, groups, ask);
    VisitedKeys(keys, groups, AggregateWith(ask));
    var rows := BuildRows(keys, values);
    outcome := Report(rows);
  }

  /** `review()`: the early exits in the order the source checks them,
      then the questions, the filter, the review loop and the summary. */
  method Review(changeCount: nat, llmType: string, ask: string -> string) returns (outcome: Outcome, asked: seq<Query>)
    ensures (outcome, asked) == Pipeline(changeCount, llmType, ask)
  {
    if changeCount == 0 {
      return NoChanges, [];
    }
    if !SupportedLlm(llmType) {
      return Unsupported, [];
    }
    var question := Question(GetChanges, "");
    var answer := ask(question);
    var matches := ExtractChanges(answer);
    var candidates := FilterSpurious(matches);
    if |candidates| == 0 {
      return NoCandidates, [Query(GetChanges, "")];
    }
    var reviews, reviewAsked := CollectReviews(candidates, ask);
    var summaryAsked;
    outcome, summaryAsked := Summarise(reviews, ask);
    asked := [Query(GetChanges, "")] + reviewAsked + summaryAsked;
  }

  /** The exits in the order the source takes them: no change found, an
      unknown LLM type (both before any question), and no candidate left
      after the filter (after the get_changes question only). Otherwise the
      run ends in a report. */
  lemma PipelineExits(changeCount: nat, llmType: string, ask: string -> string)
    ensures changeCount == 0 ==> Pipeline(changeCount, llmType, ask) == (NoChanges, [])
    ensures changeCount > 0 && !SupportedLlm(llmType) ==> Pipeline(changeCount, llmType, ask) == (Unsupported, [])
    ensures changeCount > 0 && SupportedLlm(llmType) ==>
      |Pipeline(changeCount, llmType, ask).1| > 0 && Pipeline(changeCount, llmType, ask).1[0] == Query(GetChanges, "")
    ensures Pipeline(changeCount, llmType, ask).0 == NoCandidates <==>
      changeCount > 0 && SupportedLlm(llmType) && Filtered(ExtractChanges(ask(Question(GetChanges, "")))) == []
    ensures Pipeline(changeCount, llmType, ask).0 == NoCandidates ==> Pipeline(changeCount, llmType, ask).1 == [Query(GetChanges, "")]
  {
  }

  /** The changes in the report are the filtered candidates that the model
      agreed to review and made at least one point on. */
  lemma ReportedChanges(cs: seq<Change>, ask: string -> string, k: Change)
    ensures k in GroupKeys(AllReviews(cs, ask)) <==> k in cs && Accepted(k, ask) && PointsFor(k, ask) != []
  {
    var rs := AllReviews(cs, ask);
    GroupKeysMembers(rs, k);
    if k in GroupKeys(rs) {
      var i :| 0 <= i < |rs| && rs[i].change == k;
      AllReviewsMembers(cs, ask, rs[i]);
    }
    if k in cs && Accepted(k, ask) && PointsFor(k, ask) != [] {
      var it := ReviewItem(k, PointsFor(k, ask)[0]);
      AllReviewsMembers(cs, ask, it);
      var i :| 0 <= i < |rs| && rs[i] == it;
    }
  }

  /** One row per reported change, in first-review order; each shows its
      change with the aggregate of the points collected for it. */
  lemma SummaryRows(reviews: seq<ReviewItem>, ask: string -> string, i: nat)
    requires i < |GroupKeys(reviews)|
    ensures Summary(reviews, ask).0.Report?
    ensures |Summary(reviews, ask).0.rows| == |GroupKeys(reviews)|
    ensures Summary(reviews, ask).0.rows[i] ==
      RowFor(GroupKeys(reviews)[i], AggregateValue(TextsOf(reviews, GroupKeys(reviews)[i]), ask))
  {
    var keys := GroupKeys(reviews);
    var groups := GroupMap(reviews);
    GroupKeysDistinct(reviews);
    VisitedKeys(keys, groups, AggregateWith(ask));
    var values := Visited(keys, |keys|, groups, AggregateWith(ask));
    RowsForAt(keys, values, i);
    AggregateAllValues(keys, groups, ask, keys[i]);
  }

  /** One aggregation question per reported change, in the same order. */
  lemma SummaryQueries(reviews: seq<ReviewItem>, ask: string -> string, j: nat)
    requires j < |GroupKeys(reviews)|
    ensures |Summary(reviews, ask).1| == |GroupKeys(reviews)|
    ensures Summary(reviews, ask).1[j] == Query(AggregateReviewPoints, Payload(TextsOf(reviews, GroupKeys(reviews)[j])))
  {
    AggregateAllQueries(GroupKeys(reviews), GroupMap(reviews), j);
  }

  // ---------------------------------------------------------------------
  // A model that repeats the example of each instruction

  /** Answers every question with the example answer of its instruction,
      recognised by the first letter of the question. */
  function Echo(question: string): string {
    if question == [] then ""
    else if question[0] == Initial(GetChanges) then Prompt(GetChanges).expectedAnswer
    else if question[0] == Initial(CanReview) then Prompt(CanReview).expectedAnswer
    else if question[0] == Initial(MakeReview) then Prompt(MakeReview).expectedAnswer
    else if question[0] == Initial(AggregateReviewPoints) then Prompt(AggregateReviewPoints).expectedAnswer
    else ""
  }

  lemma EchoAnswers(stage: Stage, payload: string)
    ensures Echo(Question(stage, payload)) == Prompt(stage).expectedAnswer
  {
    QuestionFirst(stage, payload);
  }

  /** Of the two example changes only the second survives the filter. */
  lemma EchoCandidates()
    ensures Filtered(ExtractChanges(Echo(Question(GetChanges, "")))) == [GetChangesSample2]
  {
    EchoAnswers(GetChanges, "");
    GetChangesExampleExtracts();
    EchoedSamplesFilter();
  }

  /** Every change is accepted for review and gets the two example points. */
  lemma EchoAccepts(c: Change)
    ensures Accepted(c, Echo)
    ensures PointsFor(c, Echo) == [SamplePoint1, SamplePoint2]
  {
    EchoAnswers(CanReview, ChangePayload(c));
    EchoedCanReviewIsReviewable();
    EchoAnswers(MakeReview, ChangePayload(c));
    MakeReviewExampleExtracts();
  }

  lemma EchoReviews(c: Change)
    ensures AllReviews([c], Echo) == [ReviewItem(c, SamplePoint1), ReviewItem(c, SamplePoint2)]
  {
    FlatMapOne(c, c => ReviewsFor(c, Echo));
    EchoAccepts(c);
    EchoItems(c);
  }

  lemma EchoItems(c: Change)
    ensures Items(c, [SamplePoint1, SamplePoint2]) == [ReviewItem(c, SamplePoint1), ReviewItem(c, SamplePoint2)]
  {
  }

  /** Every aggregation question is answered with the example aggregate. */
  lemma EchoAggregates(texts: seq<string>)
    ensures AggregateValue(texts, Echo) == Aggregated(SampleAggregate)
  {
    EchoAnswers(AggregateReviewPoints, Payload(texts));
    AggregateExampleExtracts();
  }

  lemma EchoGroups(c: Change)
    ensures GroupKeys([ReviewItem(c, SamplePoint1), ReviewItem(c, SamplePoint2)]) == [c]
    ensures GroupMap([ReviewItem(c, SamplePoint1), ReviewItem(c, SamplePoint2)]) == map[c := [SamplePoint1, SamplePoint2]]
  {
    var rs := [ReviewItem(c, SamplePoint1), ReviewItem(c, SamplePoint2)];
    assert rs[..1] == [ReviewItem(c, SamplePoint1)];
    assert rs[..1][..0] == [];
    assert GroupKeys(rs[..1]) == [c];
    assert TextsOf(rs[..1], c) == [SamplePoint1];
    assert TextsOf(rs, c) == [SamplePoint1, SamplePoint2];
  }

  lemma SampleDescriptionPlain()
    ensures '<' !in SampleDescription2
  {
    assert SampleDescription2 == "change 1 " + "for commit_hash2";
    assert '<' !in "change 1 ";
    assert '<' !in "for commit_hash2";
  }

  /** The surviving placeholder change is reported with the aggregate. */
  lemma EchoRow()
    ensures RowFor(GetChangesSample2, Aggregated(SampleAggregate)) ==
      Row(SampleCommit2, SampleDescription2, SampleAggregate)
  {
    SampleDescriptionPlain();
    assert SampleDescription2[0] == 'c';
    assert SampleAggregate[0] == 'A';
    RowOfPlainAggregate(GetChangesSample2, SampleAggregate);
  }

  lemma EchoSummary(c: Change)
    ensures Summary([ReviewItem(c, SamplePoint1), ReviewItem(c, SamplePoint2)], Echo).0 ==
      Report([RowFor(c, Aggregated(SampleAggregate))])
  {
    var rs := [ReviewItem(c, SamplePoint1), ReviewItem(c, SamplePoint2)];
    EchoGroups(c);
    var groups := GroupMap(rs);
    EchoAggregates([SamplePoint1, SamplePoint2]);
    var values := Visited([c], 1, groups, AggregateWith(Echo));
    assert values[c] == Aggregated(SampleAggregate);
    assert RowsFor([c], values) == [RowFor(c, values[c])] by {
      assert [c][..0] == [];
    }
  }

  /** With a model that only repeats the examples, a run reports exactly one
      row, for the second example change of the get_changes instruction: a
      placeholder change that the filter was meant to drop. */
  lemma EchoPipeline(changeCount: nat, llmType: string)
    requires changeCount > 0 && SupportedLlm(llmType)
    ensures Pipeline(changeCount, llmType, Echo).0 ==
      Report([Row(SampleCommit2, SampleDescription2, SampleAggregate)])
    ensures Spurious(GetChangesSample2)
  {
    EchoCandidates();
    EchoReviews(GetChangesSample2);
    EchoSummary(GetChangesSample2);
    EchoRow();
    SamplesSpurious();
  }
}
