/**
 The prompt table of the review pipeline: for each of the four stages a
 question prefix, an instruction fixing the answer format, and the
 extraction pattern. Every pattern is an opening literal, a lazy `(.*?)`
 group and a closing literal (the change pattern has a second literal and
 group in the middle), applied with `re.findall(pattern, answer, re.DOTALL)`.
 For patterns of that shape `findall` is a left-to-right scan, written here
 as the scanners `Captures` and `CapturePairs`.

 The long texts of the table are spelled as concatenations of short pieces
 and of the tag literals; their values are the table's texts, character for
 character.
 */
module Prompts {
  import opened Strings

  datatype Stage = GetChanges | CanReview | MakeReview | AggregateReviewPoints

  /** `open(.*?)close`, or `open(.*?)mid(.*?)close`, all three literals. */
  datatype Pattern =
    | Tagged(open: string, close: string)
    | TaggedPair(open: string, mid: string, close: string)

  datatype PromptSpec = PromptSpec(question: string, expectedAnswer: string, expectedPattern: Pattern)

  /** One `(commit_id, change_desc)` tuple of the change pattern. */
  datatype Change = Change(commit: string, description: string)

  const ChangeOpen := "<change commit='"
  const ChangeMid := "'>"
  const ChangeClose := "</change>"
  const ReviewOpen := "<review>"
  const ReviewClose := "</review>"
  const PointOpen := "<point>"
  const PointClose := "</point>"
  const AggregatedOpen := "<aggregated_review>"
  const AggregatedClose := "</aggregated_review>"

  /** The opening words shared by the four instructions. */
  const FormatLead := "Write the answer in the following format: "

  /** The two sample changes shown in the get_changes instruction. */
  const SampleCommit1 := "commit_hash1"
  const SampleDescription1 := "change 1 " + "for commit_hash1, " + "change 2 " + "for commit_hash1"
  const SampleCommit2 := "commit_hash2"
  const SampleDescription2 := "change 1 " + "for commit_hash2"
  const GetChangesOpening := "What are the changes in the following code? "
  const GetChangesQuestion :=
    GetChangesOpening
    + "Write one change per unique commit hash please. "
  const GetChangesExpectedAnswer :=
    FormatLead + "<xml><changes>"
    + ChangeOpen + SampleCommit1 + ChangeMid + SampleDescription1 + ChangeClose
    + ChangeOpen + SampleCommit2 + ChangeMid + SampleDescription2 + ChangeClose
    + "...</changes></xml>"
  const CanReviewOpening := "Can you review and suggest points for "
  const CanReviewQuestion :=
    CanReviewOpening
    + "improvement of the change in the following code? "
    + "Answer only with number 1 if you can review "
    + "the code or 0 if you cannot. The change is: "
  const CanReviewExpectedAnswer :=
    FormatLead + "<xml>" + ReviewOpen + "1" + ReviewClose + "</xml>"
  const MakeReviewOpening := "You are code reviewer. Please review the "
  const MakeReviewQuestion :=
    MakeReviewOpening
    + "following code change and suggest points for "
    + "improvement. The change is: "
  /** The two sample points shown in the make_review instruction. */
  const SamplePoint1 := "point 1"
  const SamplePoint2 := "point 2"
  const MakeReviewExpectedAnswer :=
    FormatLead + "<xml><review>"
    + PointOpen + SamplePoint1 + PointClose + PointOpen + SamplePoint2 + PointClose
    + "...</review></xml>"
  const AggregateOpening := "Please aggregate the concrete review points "
  const AggregateQuestion :=
    AggregateOpening
    + "for the concrete code change. "
    + "The review points are: "
  const SampleAggregate := "Aggregated review text as a suggestion"
  const AggregateExpectedAnswer :=
    FormatLead + "<xml>" + AggregatedOpen + SampleAggregate + AggregatedClose + "</xml>"

  /** The prompt table. */
  function Prompt(stage: Stage): PromptSpec {
    match stage
    case GetChanges =>
      PromptSpec(GetChangesQuestion, GetChangesExpectedAnswer, TaggedPair(ChangeOpen, ChangeMid, ChangeClose))
    case CanReview =>
      PromptSpec(CanReviewQuestion, CanReviewExpectedAnswer, Tagged(ReviewOpen, ReviewClose))
    case MakeReview =>
      PromptSpec(MakeReviewQuestion, MakeReviewExpectedAnswer, Tagged(PointOpen, PointClose))
    case AggregateReviewPoints =>
      PromptSpec(AggregateQuestion, AggregateExpectedAnswer, Tagged(AggregatedOpen, AggregatedClose))
  }

  /** `prefix + payload + "\n" + instruction`; each of the three parts can
      be read back from the result. */
  function Assemble(prefix: string, payload: string, instruction: string): (q: string)
    ensures |q| == |prefix| + |payload| + 1 + |instruction|
    ensures q[..|prefix|] == prefix
    ensures q[|prefix|..|prefix| + |payload|] == payload
    ensures q[|prefix| + |payload|] == '\n'
    ensures q[|q| - |instruction|..] == instruction
    ensures prefix != [] ==> q[0] == prefix[0]
  {
    var q := prefix + payload + "\n" + instruction;
    assert q[|prefix|..|prefix| + |payload|] == payload;
    q
  }

  /** The question put to the model at `stage`: prefix, payload, a line
      break and the answer-format instruction. The get_changes question has
      an empty payload (the code reaches the model through its retrieval
      context); the others carry a change or its review points. */
  function Question(stage: Stage, payload: string): string {
    Assemble(Prompt(stage).question, payload, Prompt(stage).expectedAnswer)
  }

  /** The four question prefixes begin with four different letters. */
  lemma QuestionInitials()
    ensures GetChangesQuestion[0] == 'W' && CanReviewQuestion[0] == 'C'
    ensures MakeReviewQuestion[0] == 'Y' && AggregateQuestion[0] == 'P'
  {
    assert GetChangesQuestion[0] == GetChangesOpening[0];
    assert CanReviewQuestion[0] == CanReviewOpening[0];
    assert MakeReviewQuestion[0] == MakeReviewOpening[0];
    assert AggregateQuestion[0] == AggregateOpening[0];
  }

  /** The first letter of each stage's question. */
  function Initial(stage: Stage): char {
    match stage
    case GetChanges => 'W'
    case CanReview => 'C'
    case MakeReview => 'Y'
    case AggregateReviewPoints => 'P'
  }

  lemma QuestionFirst(stage: Stage, payload: string)
    ensures Question(stage, payload)[0] == Initial(stage)
  {
    QuestionInitials();
    var pre := Prompt(stage).question;
    assert pre[0] == Initial(stage);
  }

  /** The stage can be read off a question's first letter. */
  lemma QuestionStage(s1: Stage, p1: string, s2: Stage, p2: string)
    requires Question(s1, p1) == Question(s2, p2)
    ensures s1 == s2
  {
    QuestionFirst(s1, p1);
    QuestionFirst(s2, p2);
  }

  /** Assembling is injective in the payload. */
  lemma AssembleInjective(prefix: string, p1: string, p2: string, instruction: string)
    requires Assemble(prefix, p1, instruction) == Assemble(prefix, p2, instruction)
    ensures p1 == p2
  {
    var q := Assemble(prefix, p1, instruction);
    assert p1 == q[|prefix|..|prefix| + |p1|] == p2;
  }

  /** A question determines its stage and its payload: the four prefixes
      begin with different letters, and the payload sits between the prefix
      and the instruction. */
  lemma {:induction false} QuestionDetermines(s1: Stage, p1: string, s2: Stage, p2: string)
    requires Question(s1, p1) == Question(s2, p2)
    ensures s1 == s2 && p1 == p2
  {
    QuestionStage(s1, p1, s2, p2);
    AssembleInjective(Prompt(s1).question, p1, p2, Prompt(s1).expectedAnswer);
  }

  // ---------------------------------------------------------------------
  // The scanners

  /** A literal whose first character does not occur again in it, so that no
      proper suffix of it is also a prefix. All literals of the table are. */
  predicate Unbordered(pat: string) {
    |pat| > 0 && pat[0] !in pat[1..]
  }

  /** `re.findall(open + '(.*?)' + close, s[from..], re.DOTALL)`, indices
      kept relative to `s`: find the first `open` at or after `from`; the
      capture runs to the earliest `close` after it, and the scan resumes
      behind that `close`. When that first `open` has no `close` after it,
      neither has any later one, so the result ends there. */
  function CapturesFrom(open: string, close: string, s: string, from: nat): seq<string>
    requires open != [] && close != []
    decreases |s| - from
  {
    match NextMatch(open, close, s, from)
    case None => []
    case Some((x, n)) => [x] + CapturesFrom(open, close, s, n)
  }

  /** The next single-group match at or after `from`: the text between the
      first `open` there and the first `close` behind it, and the index
      behind that `close`, where the scan resumes. */
  function NextMatch(open: string, close: string, s: string, from: nat): (r: Option<(string, nat)>)
    requires close != []
    ensures r.Some? ==> from < r.value.1 <= |s|
  {
    match FindFrom(s, open, from)
    case None => None
    case Some(i) =>
      match FindFrom(s, close, i + |open|)
      case None => None
      case Some(j) => Some((s[i + |open|..j], j + |close|))
  }

  /** `re.findall(open + '(.*?)' + close, s, re.DOTALL)`. */
  function Captures(open: string, close: string, s: string): seq<string>
    requires open != [] && close != []
  {
    CapturesFrom(open, close, s, 0)
  }

  /** `re.findall(open + '(.*?)' + mid + '(.*?)' + close, s[from..], re.DOTALL)`:
      the first group runs to the earliest `mid` after the first `open`, the
      second to the earliest `close` after that. */
  function CapturePairsFrom(open: string, mid: string, close: string, s: string, from: nat): seq<Change>
    requires open != [] && mid != [] && close != []
    decreases |s| - from
  {
    match NextPair(open, mid, close, s, from)
    case None => []
    case Some((c, n)) => [c] + CapturePairsFrom(open, mid, close, s, n)
  }

  /** The next change match at or after `from`: the commit id runs from the
      first `open` there to the first `mid` behind it, the description from
      there to the first `close` behind that; the scan resumes behind that
      `close`. */
  function NextPair(open: string, mid: string, close: string, s: string, from: nat): (r: Option<(Change, nat)>)
    requires close != []
    ensures r.Some? ==> from < r.value.1 <= |s|
  {
    match FindFrom(s, open, from)
    case None => None
    case Some(i) => PairFrom(mid, close, s, i + |open|)
  }

  /** The change whose commit id starts at index `a`: it runs to the first
      `mid` at or after `a`, the description from there to the first
      `close` behind that. */
  function PairFrom(mid: string, close: string, s: string, a: nat): (r: Option<(Change, nat)>)
    requires close != []
    ensures r.Some? ==> a < r.value.1 <= |s|
  {
    match FindFrom(s, mid, a)
    case None => None
    case Some(j) =>
      match FindFrom(s, close, j + |mid|)
      case None => None
      case Some(k) => Some((Change(s[a..j], s[j + |mid|..k]), k + |close|))
  }

  /** `re.findall(open + '(.*?)' + mid + '(.*?)' + close, s, re.DOTALL)`. */
  function CapturePairs(open: string, mid: string, close: string, s: string): seq<Change>
    requires open != [] && mid != [] && close != []
  {
    CapturePairsFrom(open, mid, close, s, 0)
  }

  /** The captures of a single-group stage (`review`, `point`,
      `aggregated_review`). */
  function Extract(stage: Stage, answer: string): seq<string>
    requires stage != GetChanges
  {
    var p := Prompt(stage).expectedPattern;
    Captures(p.open, p.close, answer)
  }

  /** The `(commit_id, change_desc)` tuples of a get_changes answer. */
  function ExtractChanges(answer: string): seq<Change> {
    var p := Prompt(GetChanges).expectedPattern;
    CapturePairs(p.open, p.mid, p.close, answer)
  }

  // ---------------------------------------------------------------------
  // Facts about occurrences

  /** An occurrence inside a slice is an occurrence in the whole text. */
  lemma SliceOccurs(s: string, a: nat, b: nat, pat: string, t: int)
    requires a <= b <= |s| && OccursAt(s[a..b], pat, t)
    ensures OccursAt(s, pat, a + t) && a + t + |pat| <= b
  {
    OccursAtWindow(s, a, b, pat, t);
  }

  /** An occurrence behind `a` is an occurrence in the suffix from `a`. */
  lemma OccursInSuffix(s: string, a: nat, pat: string, k: nat)
    requires a <= k && OccursAt(s, pat, k)
    ensures OccursAt(s[a..], pat, k - a)
  {
    OccursAtWindow(s, a, |s|, pat, k - a);
    assert s[a..|s|] == s[a..];
  }

  /** No occurrence of an unbordered literal starts in front of one of its
      occurrences when the text in between does not hold the literal: a
      copy overlapping the boundary would repeat the first character. */
  lemma {:induction false} NoOccurrenceBefore(s: string, pat: string, from: nat, i: nat, k: nat)
    requires Unbordered(pat) && from <= k < i && OccursAt(s, pat, i)
    requires !Contains(s[from..i], pat)
    ensures !OccursAt(s, pat, k)
  {
    if k + |pat| <= i {
      assert !OccursAt(s[from..i], pat, k - from);
      OccursAtWindow(s, from, i, pat, k - from);
    } else if k + |pat| <= |s| {
      var d := i - k;
      assert s[k..k + |pat|][d] == s[i] == s[i..i + |pat|][0] == pat[0];
      assert pat[d] == pat[1..][d - 1] != pat[0];
    }
  }

  /** The first occurrence at or after `from` of an unbordered literal is the
      one placed behind a text that does not hold it. */
  lemma {:induction false} FindBehind(s: string, pat: string, from: nat, i: nat)
    requires Unbordered(pat) && from <= i && OccursAt(s, pat, i)
    requires !Contains(s[from..i], pat)
    ensures FindFrom(s, pat, from) == Some(i)
  {
    forall k | from <= k < i
      ensures !OccursAt(s, pat, k)
    {
      NoOccurrenceBefore(s, pat, from, i, k);
    }
    FindFromIs(s, pat, from, i);
  }

  /** A suffix without the literal leaves nothing for `FindFrom` to find. */
  lemma {:induction false} FindNone(s: string, pat: string, from: nat)
    requires from <= |s| && !Contains(s[from..], pat)
    ensures FindFrom(s, pat, from) == None
  {
    if FindFrom(s, pat, from).Some? {
      FindFromFound(s, pat, from);
      OccursInSuffix(s, from, pat, FindFrom(s, pat, from).value);
    }
  }

  /** The text in front of the earliest occurrence does not hold the literal. */
  lemma {:induction false} BeforeFirstFree(s: string, pat: string, from: nat, j: nat)
    requires pat != [] && FindFrom(s, pat, from) == Some(j)
    ensures !Contains(s[from..j], pat)
  {
    FindFromCorrect(s, pat, from);
    if Contains(s[from..j], pat) {
      var t :| OccursAt(s[from..j], pat, t);
      SliceOccurs(s, from, j, pat, t);
    }
  }

  // ---------------------------------------------------------------------
  // Properties of the single-group scanner

  /** One step of the single-group scan: an unfolding helper that keeps
      the callers' proofs cheap, not a property in its own right. */
  lemma CapturesStep(open: string, close: string, s: string, from: nat, x: string, n: nat)
    requires open != [] && close != []
    requires NextMatch(open, close, s, from) == Some((x, n))
    ensures CapturesFrom(open, close, s, from) == [x] + CapturesFrom(open, close, s, n)
  {
  }

  /** The two searches behind a located match. */
  lemma NextMatchParts(open: string, close: string, s: string, from: nat, x: string, n: nat) returns (i: nat, j: nat)
    requires close != []
    requires NextMatch(open, close, s, from) == Some((x, n))
    ensures FindFrom(s, open, from) == Some(i) && FindFrom(s, close, i + |open|) == Some(j)
    ensures from <= i && i + |open| <= j && j + |close| <= |s|
    ensures x == s[i + |open|..j] && n == j + |close|
  {
    i := FindFrom(s, open, from).value;
    j := FindFrom(s, close, i + |open|).value;
  }

  /** Scans that meet the same next match yield the same captures. A
      proof helper: it unfolds one step of each scan. */
  lemma CapturesSameNext(open: string, close: string, s: string, a: nat, b: nat)
    requires open != [] && close != []
    requires NextMatch(open, close, s, a) == NextMatch(open, close, s, b)
    ensures CapturesFrom(open, close, s, a) == CapturesFrom(open, close, s, b)
  {
  }

  /** A capture comes out first when the text in front of its opening literal
      does not hold that literal and the capture does not hold the closing
      one; the scan goes on behind its closing literal. */
  lemma {:induction false} CapturesCons(open: string, close: string, s: string, from: nat, i: nat, j: nat)
    requires Unbordered(open) && Unbordered(close)
    requires from <= i && OccursAt(s, open, i) && !Contains(s[from..i], open)
    requires i + |open| <= j && OccursAt(s, close, j) && !Contains(s[i + |open|..j], close)
    ensures CapturesFrom(open, close, s, from) == [s[i + |open|..j]] + CapturesFrom(open, close, s, j + |close|)
  {
    NextMatchFirst(open, close, s, from, i, j);
    CapturesStep(open, close, s, from, s[i + |open|..j], j + |close|);
  }

  /** The next match is the one whose literals are the first ones. */
  lemma NextMatchFirst(open: string, close: string, s: string, from: nat, i: nat, j: nat)
    requires Unbordered(open) && Unbordered(close)
    requires from <= i && OccursAt(s, open, i) && !Contains(s[from..i], open)
    requires i + |open| <= j && OccursAt(s, close, j) && !Contains(s[i + |open|..j], close)
    ensures NextMatch(open, close, s, from) == Some((s[i + |open|..j], j + |close|))
  {
    FindBehind(s, open, from, i);
    FindBehind(s, close, i + |open|, j);
  }

  /** The scan stops once no opening literal is left. */
  lemma {:induction false} CapturesEnd(open: string, close: string, s: string, from: nat)
    requires open != [] && close != []
    requires from <= |s| && !Contains(s[from..], open)
    ensures CapturesFrom(open, close, s, from) == []
  {
    FindNone(s, open, from);
  }

  /** Text in front of the first opening literal is skipped. */
  lemma {:induction false} CapturesSkip(open: string, close: string, s: string, i: nat)
    requires Unbordered(open) && close != []
    requires i + |open| <= |s| && s[i..i + |open|] == open && !Contains(s[0..i], open)
    ensures CapturesFrom(open, close, s, 0) == CapturesFrom(open, close, s, i)
  {
    FindBehind(s, open, 0, i);
    FindFromIs(s, open, i, i);
    assert NextMatch(open, close, s, 0) == NextMatch(open, close, s, i);
    CapturesSameNext(open, close, s, 0, i);
  }

  /** The answer a model writes when it follows the format: each text
      wrapped in the opening and closing literals. */
  function Wrap(open: string, close: string, xs: seq<string>): string {
    if xs == [] then "" else open + xs[0] + close + Wrap(open, close, xs[1..])
  }

  /** Where the literals and the text of a wrapped text read from index
      `a` lie. */
  lemma WrappedLayout(s: string, a: nat, open: string, x: string, close: string, r: string)
    requires a <= |s| && s[a..] == open + x + close + r
    ensures a + |open| + |x| + |close| <= |s|
    ensures s[a..a + |open|] == open && s[a + |open|..a + |open| + |x|] == x
    ensures s[a + |open| + |x|..a + |open| + |x| + |close|] == close && s[a + |open| + |x| + |close|..] == r
  {
    assert s[a..] == open + (x + (close + r));
    SplitAt(s, a, open, x + (close + r));
    SplitAt(s, a + |open|, x, close + r);
    SplitAt(s, a + |open| + |x|, close, r);
  }

  /** A text laid out at `i` is the next match there; the scan goes on
      behind it. */
  lemma NextMatchAt(open: string, close: string, s: string, i: nat, x: string)
    requires Unbordered(open) && Unbordered(close) && !Contains(x, close)
    requires TextAt(open, close, s, i, x)
    ensures NextMatch(open, close, s, i) == Some((x, i + |open| + |x| + |close|))
  {
    NotContainsShort(s[i..i], open);
    NextMatchFirst(open, close, s, i, i, i + |open| + |x|);
  }

  /** A text laid out at `a` comes first, before what the scan yields
      behind it. */
  lemma CapturesAtThen(open: string, close: string, s: string, a: nat, x: string, a': nat, rest: seq<string>)
    requires Unbordered(open) && Unbordered(close) && !Contains(x, close)
    requires TextAt(open, close, s, a, x) && a' == a + |open| + |x| + |close|
    requires CapturesFrom(open, close, s, a') == rest
    ensures CapturesFrom(open, close, s, a) == [x] + rest
  {
    NextMatchAt(open, close, s, a, x);
    CapturesStep(open, close, s, a, x, a');
  }

  /** The text `x`, wrapped in the literals, stands in `s` at index `a`. */
  predicate TextAt(open: string, close: string, s: string, a: nat, x: string) {
    a + |open| + |x| + |close| <= |s| && s[a..a + |open|] == open && s[a + |open|..a + |open| + |x|] == x
    && s[a + |open| + |x|..a + |open| + |x| + |close|] == close
  }

  /** Associativity of concatenation, stated once so that callers do not
      pay for it; a proof helper, not a property of the source. */
  lemma Regroup(x: string, y: string, z: string)
    ensures x + y + z == x + (y + z)
  {
  }

  /** The first wrapped text stands at `a`, the rest of the answer behind it. */
  lemma WrapHead(open: string, close: string, s: string, a: nat, xs: seq<string>, t: string)
    requires xs != [] && a <= |s| && s[a..] == Wrap(open, close, xs) + t
    ensures TextAt(open, close, s, a, xs[0])
    ensures s[a + |open| + |xs[0]| + |close|..] == Wrap(open, close, xs[1..]) + t
  {
    var x, w := xs[0], Wrap(open, close, xs[1..]);
    assert Wrap(open, close, xs) == open + x + close + w;
    Regroup(open + x + close, w, t);
    LayoutAt(s, a, open, x, close, w + t);
  }

  /** A text wrapped in the literals at the head of `s[a..]` stands at `a`. */
  lemma LayoutAt(s: string, a: nat, open: string, x: string, close: string, r: string)
    requires a <= |s| && s[a..] == open + x + close + r
    ensures TextAt(open, close, s, a, x) && s[a + |open| + |x| + |close|..] == r
  {
    WrappedLayout(s, a, open, x, close, r);
  }

  /** The wrapped texts come back from the scan, whatever stands in front of
      them, when the text behind them holds no opening literal. */
  lemma {:induction false} CapturesWrapIn(open: string, close: string, s: string, a: nat, xs: seq<string>, t: string)
    requires Unbordered(open) && Unbordered(close)
    requires forall x :: x in xs ==> !Contains(x, close)
    requires !Contains(t, open)
    requires a <= |s| && s[a..] == Wrap(open, close, xs) + t
    ensures CapturesFrom(open, close, s, a) == xs
    decreases |xs|
  {
    if xs == [] {
      assert s[a..] == t;
      CapturesEnd(open, close, s, a);
    } else {
      var x := xs[0];
      var a' := a + |open| + |x| + |close|;
      WrapHead(open, close, s, a, xs, t);
      CapturesWrapIn(open, close, s, a', xs[1..], t);
      CapturesAtThen(open, close, s, a, x, a', xs[1..]);
      assert xs == [x] + xs[1..];
    }
  }

  /** Round trip: extraction returns exactly the wrapped texts, provided no
      text holds the closing literal. */
  lemma {:induction false} CapturesWrap(open: string, close: string, xs: seq<string>)
    requires Unbordered(open) && Unbordered(close)
    requires forall x :: x in xs ==> !Contains(x, close)
    ensures Captures(open, close, Wrap(open, close, xs)) == xs
  {
    var s := Wrap(open, close, xs);
    NotContainsShort("", open);
    assert s[0..] == s + "";
    CapturesWrapIn(open, close, s, 0, xs, "");
  }

  /** Where the three parts of `lead + w + tail` lie. */
  lemma AmidParts(lead: string, w: string, tail: string)
    ensures (lead + w + tail)[0..|lead|] == lead && (lead + w + tail)[|lead|..] == w + tail
  {
    assert lead + w + tail == lead + (w + tail);
  }

  /** An answer that puts some words without the opening literal in front
      of the wrapped texts and some without it behind them yields the texts. */
  lemma {:induction false} CapturesAmid(open: string, close: string, lead: string, xs: seq<string>, tail: string)
    requires Unbordered(open) && Unbordered(close) && xs != []
    requires forall x :: x in xs ==> !Contains(x, close)
    requires !Contains(lead, open) && !Contains(tail, open)
    ensures Captures(open, close, lead + Wrap(open, close, xs) + tail) == xs
  {
    var w := Wrap(open, close, xs);
    var s := lead + w + tail;
    AmidParts(lead, w, tail);
    var r := WrapOpens(open, close, xs, tail);
    SplitAt(s, |lead|, open, r);
    CapturesSkip(open, close, s, |lead|);
    CapturesWrapIn(open, close, s, |lead|, xs, tail);
  }

  /** Wrapped texts followed by anything start with the opening literal. */
  lemma WrapOpens(open: string, close: string, xs: seq<string>, t: string) returns (r: string)
    requires xs != []
    ensures Wrap(open, close, xs) + t == open + r
  {
    r := xs[0] + close + Wrap(open, close, xs[1..]) + t;
    assert Wrap(open, close, xs) + t == open + r;
  }

  /** No capture holds the closing literal. */
  lemma {:induction false} CapturesCloseFree(open: string, close: string, s: string, from: nat)
    requires open != [] && close != []
    ensures forall x :: x in CapturesFrom(open, close, s, from) ==> !Contains(x, close)
    decreases |s| - from
  {
    match NextMatch(open, close, s, from)
    case None =>
    case Some((x, n)) =>
      var i, j := NextMatchParts(open, close, s, from, x, n);
      BeforeFirstFree(s, close, i + |open|, j);
      CapturesCloseFree(open, close, s, n);
      CapturesStep(open, close, s, from, x, n);
  }

  /** An answer without the closing literal yields no capture. */
  lemma {:induction false} CapturesNeedClose(open: string, close: string, s: string, from: nat)
    requires open != [] && close != [] && !Contains(s, close)
    ensures CapturesFrom(open, close, s, from) == []
  {
    match FindFrom(s, open, from)
    case None =>
    case Some(i) =>
      if FindFrom(s, close, i + |open|).Some? {
        FindFromFound(s, close, i + |open|);
      }
  }

  /** The number of indices at or after `from` where `pat` occurs in `s`. */
  function CountFrom(s: string, pat: string, from: nat): nat
    decreases |s| - from
  {
    if from >= |s| then 0
    else (if OccursAt(s, pat, from) then 1 else 0) + CountFrom(s, pat, from + 1)
  }

  lemma {:induction false} CountFromMono(s: string, pat: string, a: nat, b: nat)
    requires a <= b
    ensures CountFrom(s, pat, b) <= CountFrom(s, pat, a)
    decreases b - a
  {
    if a < b {
      CountFromMono(s, pat, a + 1, b);
    }
  }

  /** Skipping past an occurrence loses at least that one. */
  lemma CountPast(s: string, pat: string, from: nat, i: nat, e: nat)
    requires from <= i < e && OccursAt(s, pat, i) && pat != []
    ensures CountFrom(s, pat, e) + 1 <= CountFrom(s, pat, from)
  {
    CountFromMono(s, pat, i + 1, e);
    CountFromMono(s, pat, from, i);
  }

  /** There are never more captures than occurrences of the opening literal. */
  lemma {:induction false} CapturesBound(open: string, close: string, s: string, from: nat)
    requires open != [] && close != []
    ensures |CapturesFrom(open, close, s, from)| <= CountFrom(s, open, from)
    decreases |s| - from
  {
    match NextMatch(open, close, s, from)
    case None =>
    case Some((x, n)) =>
      var i, j := NextMatchParts(open, close, s, from, x, n);
      FindFromFound(s, open, from);
      CapturesStep(open, close, s, from, x, n);
      CapturesBound(open, close, s, n);
      CountPast(s, open, from, i, n);
  }

  /** Every capture is a piece of the answer. */
  lemma {:induction false} CapturesInAnswer(open: string, close: string, s: string, from: nat, x: string)
    requires open != [] && close != []
    requires x in CapturesFrom(open, close, s, from)
    ensures Contains(s, x)
    decreases |s| - from
  {
    var (y, n) := NextMatch(open, close, s, from).value;
    var i, j := NextMatchParts(open, close, s, from, y, n);
    CapturesStep(open, close, s, from, y, n);
    if x == y {
      assert OccursAt(s, x, i + |open|);
    } else {
      CapturesInAnswer(open, close, s, n, x);
    }
  }

  // ---------------------------------------------------------------------
  // Properties of the change scanner

  /** One step of the change scan: an unfolding helper that keeps the
      callers' proofs cheap, not a property in its own right. */
  lemma CapturePairsStep(open: string, mid: string, close: string, s: string, from: nat, c: Change, n: nat)
    requires open != [] && mid != [] && close != []
    requires NextPair(open, mid, close, s, from) == Some((c, n))
    ensures CapturePairsFrom(open, mid, close, s, from) == [c] + CapturePairsFrom(open, mid, close, s, n)
  {
  }

  /** The three searches behind a located change match. */
  lemma NextPairParts(open: string, mid: string, close: string, s: string, from: nat, c: Change, n: nat)
    returns (i: nat, j: nat, k: nat)
    requires close != []
    requires NextPair(open, mid, close, s, from) == Some((c, n))
    ensures FindFrom(s, open, from) == Some(i) && FindFrom(s, mid, i + |open|) == Some(j)
    ensures FindFrom(s, close, j + |mid|) == Some(k)
    ensures from <= i && i + |open| <= j && j + |mid| <= k && k + |close| <= |s|
    ensures c == Change(s[i + |open|..j], s[j + |mid|..k]) && n == k + |close|
  {
    i := FindFrom(s, open, from).value;
    j := FindFrom(s, mid, i + |open|).value;
    k := FindFrom(s, close, j + |mid|).value;
  }

  /** The change read from index `a` ends at the first middle and closing
      literals behind `a`. */
  lemma PairFromFirst(mid: string, close: string, s: string, a: nat, j: nat, k: nat)
    requires Unbordered(mid) && Unbordered(close)
    requires a <= j && OccursAt(s, mid, j) && !Contains(s[a..j], mid)
    requires j + |mid| <= k && OccursAt(s, close, k) && !Contains(s[j + |mid|..k], close)
    ensures PairFrom(mid, close, s, a) == Some((Change(s[a..j], s[j + |mid|..k]), k + |close|))
  {
    FindBehind(s, mid, a, j);
    FindBehind(s, close, j + |mid|, k);
  }

  /** A change comes out first when the literals around it are the first ones. */
  lemma {:induction false} CapturePairsCons(open: string, mid: string, close: string, s: string, from: nat, i: nat, j: nat, k: nat)
    requires Unbordered(open) && Unbordered(mid) && Unbordered(close)
    requires from <= i && OccursAt(s, open, i) && !Contains(s[from..i], open)
    requires i + |open| <= j && OccursAt(s, mid, j) && !Contains(s[i + |open|..j], mid)
    requires j + |mid| <= k && OccursAt(s, close, k) && !Contains(s[j + |mid|..k], close)
    ensures CapturePairsFrom(open, mid, close, s, from) ==
      [Change(s[i + |open|..j], s[j + |mid|..k])] + CapturePairsFrom(open, mid, close, s, k + |close|)
  {
    NextPairFirst(open, mid, close, s, from, i, j, k);
    CapturePairsStep(open, mid, close, s, from, Change(s[i + |open|..j], s[j + |mid|..k]), k + |close|);
  }

  /** The next change match is the one whose literals are the first ones. */
  lemma NextPairFirst(open: string, mid: string, close: string, s: string, from: nat, i: nat, j: nat, k: nat)
    requires Unbordered(open) && Unbordered(mid) && Unbordered(close)
    requires from <= i && OccursAt(s, open, i) && !Contains(s[from..i], open)
    requires i + |open| <= j && OccursAt(s, mid, j) && !Contains(s[i + |open|..j], mid)
    requires j + |mid| <= k && OccursAt(s, close, k) && !Contains(s[j + |mid|..k], close)
    ensures NextPair(open, mid, close, s, from) == Some((Change(s[i + |open|..j], s[j + |mid|..k]), k + |close|))
  {
    FindBehind(s, open, from, i);
    PairFromFirst(mid, close, s, i + |open|, j, k);
  }

  /** The scan stops once no opening literal is left. */
  lemma {:induction false} CapturePairsEnd(open: string, mid: string, close: string, s: string, from: nat)
    requires open != [] && mid != [] && close != []
    requires from <= |s| && !Contains(s[from..], open)
    ensures CapturePairsFrom(open, mid, close, s, from) == []
  {
    FindNone(s, open, from);
  }

  /** Text in front of the first opening literal is skipped. */
  lemma {:induction false} CapturePairsSkip(open: string, mid: string, close: string, s: string, i: nat)
    requires Unbordered(open) && mid != [] && close != []
    requires i + |open| <= |s| && s[i..i + |open|] == open && !Contains(s[0..i], open)
    ensures CapturePairsFrom(open, mid, close, s, 0) == CapturePairsFrom(open, mid, close, s, i)
  {
    FindBehind(s, open, 0, i);
    FindFromIs(s, open, i, i);
    NextPairSameOpen(open, mid, close, s, 0, i);
    CapturePairsSameNext(open, mid, close, s, 0, i);
  }

  lemma NextPairSameOpen(open: string, mid: string, close: string, s: string, a: nat, b: nat)
    requires close != []
    requires FindFrom(s, open, a) == FindFrom(s, open, b)
    ensures NextPair(open, mid, close, s, a) == NextPair(open, mid, close, s, b)
  {
  }

  /** Change scans that meet the same next match yield the same tuples. A
      proof helper: it unfolds one step of each scan. */
  lemma CapturePairsSameNext(open: string, mid: string, close: string, s: string, a: nat, b: nat)
    requires open != [] && mid != [] && close != []
    requires NextPair(open, mid, close, s, a) == NextPair(open, mid, close, s, b)
    ensures CapturePairsFrom(open, mid, close, s, a) == CapturePairsFrom(open, mid, close, s, b)
  {
  }

  /** The answer a model writes when it follows the change format. */
  function WrapChanges(open: string, mid: string, close: string, cs: seq<Change>): string {
    if cs == [] then ""
    else open + cs[0].commit + mid + cs[0].description + close + WrapChanges(open, mid, close, cs[1..])
  }

  /** Where the literals and the texts of a wrapped change read from index
      `a` lie. */
  lemma WrappedPairLayout(s: string, a: nat, open: string, x: string, mid: string, y: string, close: string, r: string)
    requires a <= |s| && s[a..] == open + x + mid + y + close + r
    ensures a + |open| + |x| + |mid| + |y| + |close| <= |s|
    ensures s[a..a + |open|] == open && s[a + |open|..a + |open| + |x|] == x
    ensures s[a + |open| + |x|..a + |open| + |x| + |mid|] == mid
    ensures s[a + |open| + |x| + |mid|..a + |open| + |x| + |mid| + |y|] == y
    ensures s[a + |open| + |x| + |mid| + |y|..a + |open| + |x| + |mid| + |y| + |close|] == close
    ensures s[a + |open| + |x| + |mid| + |y| + |close|..] == r
  {
    assert s[a..] == open + (x + (mid + (y + (close + r))));
    SplitAt(s, a, open, x + (mid + (y + (close + r))));
    SplitAt(s, a + |open|, x, mid + (y + (close + r)));
    SplitAt(s, a + |open| + |x|, mid, y + (close + r));
    SplitAt(s, a + |open| + |x| + |mid|, y, close + r);
    SplitAt(s, a + |open| + |x| + |mid| + |y|, close, r);
  }

  /** The literals of a wrapped change occur where it puts them. */
  lemma PairAtOccurs(open: string, mid: string, close: string, s: string, i: nat, c: Change)
    requires PairAt(open, mid, close, s, i, c)
    ensures OccursAt(s, open, i) && OccursAt(s, mid, i + |open| + |c.commit|)
    ensures OccursAt(s, close, i + |open| + |c.commit| + |mid| + |c.description|)
    ensures s[i + |open|..i + |open| + |c.commit|] == c.commit
    ensures s[i + |open| + |c.commit| + |mid|..i + |open| + |c.commit| + |mid| + |c.description|] == c.description
  {
  }

  /** A change laid out at `i` is the next change match there; the scan
      goes on behind it. */
  lemma NextPairAt(open: string, mid: string, close: string, s: string, i: nat, x: string, y: string)
    requires Unbordered(open) && Unbordered(mid) && Unbordered(close)
    requires !Contains(x, mid) && !Contains(y, close)
    requires PairAt(open, mid, close, s, i, Change(x, y))
    ensures NextPair(open, mid, close, s, i) == Some((Change(x, y), i + |open| + |x| + |mid| + |y| + |close|))
  {
    PairAtOccurs(open, mid, close, s, i, Change(x, y));
    NotContainsShort(s[i..i], open);
    NextPairFirst(open, mid, close, s, i, i, i + |open| + |x|, i + |open| + |x| + |mid| + |y|);
  }

  /** The change `c`, wrapped in the literals, stands in `s` at index `a`. */
  predicate PairAt(open: string, mid: string, close: string, s: string, a: nat, c: Change) {
    var j := a + |open| + |c.commit|;
    var k := j + |mid| + |c.description|;
    k + |close| <= |s| && s[a..a + |open|] == open && s[a + |open|..j] == c.commit
    && s[j..j + |mid|] == mid && s[j + |mid|..k] == c.description && s[k..k + |close|] == close
  }

  /** The first wrapped change stands at `a`, the rest of the answer behind it. */
  lemma WrapChangesHead(open: string, mid: string, close: string, s: string, a: nat, cs: seq<Change>, t: string)
    requires cs != [] && a <= |s| && s[a..] == WrapChanges(open, mid, close, cs) + t
    ensures PairAt(open, mid, close, s, a, cs[0])
    ensures s[a + |open| + |cs[0].commit| + |mid| + |cs[0].description| + |close|..] == WrapChanges(open, mid, close, cs[1..]) + t
  {
    var c := cs[0];
    var rest := WrapChanges(open, mid, close, cs[1..]);
    assert WrapChanges(open, mid, close, cs) == open + c.commit + mid + c.description + close + rest;
    Regroup(open + c.commit + mid + c.description + close, rest, t);
    WrappedPairLayout(s, a, open, c.commit, mid, c.description, close, rest + t);
  }

  /** A change laid out at `a` comes first, before what the scan yields
      behind it. */
  lemma CapturePairsAtThen(open: string, mid: string, close: string, s: string, a: nat, c: Change, a': nat, rest: seq<Change>)
    requires Unbordered(open) && Unbordered(mid) && Unbordered(close)
    requires !Contains(c.commit, mid) && !Contains(c.description, close)
    requires PairAt(open, mid, close, s, a, c) && a' == a + |open| + |c.commit| + |mid| + |c.description| + |close|
    requires CapturePairsFrom(open, mid, close, s, a') == rest
    ensures CapturePairsFrom(open, mid, close, s, a) == [c] + rest
  {
    NextPairAt(open, mid, close, s, a, c.commit, c.description);
    CapturePairsStep(open, mid, close, s, a, c, a');
  }

  /** The wrapped changes come back from the scan, whatever stands in front
      of them, when the text behind them holds no opening literal. */
  lemma {:induction false} CapturePairsWrapIn(open: string, mid: string, close: string, s: string, a: nat, cs: seq<Change>, t: string)
    requires Unbordered(open) && Unbordered(mid) && Unbordered(close)
    requires forall c :: c in cs ==> !Contains(c.commit, mid) && !Contains(c.description, close)
    requires !Contains(t, open)
    requires a <= |s| && s[a..] == WrapChanges(open, mid, close, cs) + t
    ensures CapturePairsFrom(open, mid, close, s, a) == cs
    decreases |cs|
  {
    if cs == [] {
      assert s[a..] == t;
      CapturePairsEnd(open, mid, close, s, a);
    } else {
      var c := cs[0];
      var a' := a + |open| + |c.commit| + |mid| + |c.description| + |close|;
      WrapChangesHead(open, mid, close, s, a, cs, t);
      CapturePairsWrapIn(open, mid, close, s, a', cs[1..], t);
      CapturePairsAtThen(open, mid, close, s, a, c, a', cs[1..]);
      assert cs == [c] + cs[1..];
    }
  }

  /** Round trip for the change pattern: a commit id without the middle
      literal and a description without the closing literal come back as
      they were written. */
  lemma {:induction false} CapturePairsWrap(open: string, mid: string, close: string, cs: seq<Change>)
    requires Unbordered(open) && Unbordered(mid) && Unbordered(close)
    requires forall c :: c in cs ==> !Contains(c.commit, mid) && !Contains(c.description, close)
    ensures CapturePairs(open, mid, close, WrapChanges(open, mid, close, cs)) == cs
  {
    var s := WrapChanges(open, mid, close, cs);
    NotContainsShort("", open);
    assert s[0..] == s + "";
    CapturePairsWrapIn(open, mid, close, s, 0, cs, "");
  }

  /** Wrapped changes amid words without the opening literal come back. */
  lemma {:induction false} CapturePairsAmid(open: string, mid: string, close: string, lead: string, cs: seq<Change>, tail: string)
    requires Unbordered(open) && Unbordered(mid) && Unbordered(close) && cs != []
    requires forall c :: c in cs ==> !Contains(c.commit, mid) && !Contains(c.description, close)
    requires !Contains(lead, open) && !Contains(tail, open)
    ensures CapturePairs(open, mid, close, lead + WrapChanges(open, mid, close, cs) + tail) == cs
  {
    var w := WrapChanges(open, mid, close, cs);
    var s := lead + w + tail;
    AmidParts(lead, w, tail);
    var r := WrapChangesOpens(open, mid, close, cs, tail);
    SplitAt(s, |lead|, open, r);
    CapturePairsSkip(open, mid, close, s, |lead|);
    CapturePairsWrapIn(open, mid, close, s, |lead|, cs, tail);
  }

  /** Wrapped changes followed by anything start with the opening literal. */
  lemma WrapChangesOpens(open: string, mid: string, close: string, cs: seq<Change>, t: string) returns (r: string)
    requires cs != []
    ensures WrapChanges(open, mid, close, cs) + t == open + r
  {
    r := cs[0].commit + mid + cs[0].description + close + WrapChanges(open, mid, close, cs[1..]) + t;
    assert WrapChanges(open, mid, close, cs) + t == open + r;
  }

  /** No commit id holds `mid` and no description holds `close`. */
  ghost predicate Delimited(cs: seq<Change>, mid: string, close: string) {
    forall c :: c in cs ==> !Contains(c.commit, mid) && !Contains(c.description, close)
  }

  lemma DelimitedCons(c: Change, cs: seq<Change>, mid: string, close: string)
    requires !Contains(c.commit, mid) && !Contains(c.description, close) && Delimited(cs, mid, close)
    ensures Delimited([c] + cs, mid, close)
  {
  }

  /** A commit id runs to the first `mid` behind its opening literal and a
      description to the first `close` behind that: neither holds its own
      terminator. */
  lemma {:induction false} CapturePairsDelimited(open: string, mid: string, close: string, s: string, from: nat)
    requires open != [] && mid != [] && close != []
    ensures Delimited(CapturePairsFrom(open, mid, close, s, from), mid, close)
    decreases |s| - from
  {
    match NextPair(open, mid, close, s, from)
    case None =>
    case Some((c, n)) =>
      CapturePairsDelimited(open, mid, close, s, n);
      NextPairDelimited(open, mid, close, s, from, c, n);
      DelimitedCons(c, CapturePairsFrom(open, mid, close, s, n), mid, close);
      CapturePairsStep(open, mid, close, s, from, c, n);
  }

  /** The change a single match yields holds neither terminator. */
  lemma NextPairDelimited(open: string, mid: string, close: string, s: string, from: nat, c: Change, n: nat)
    requires open != [] && mid != [] && close != []
    requires NextPair(open, mid, close, s, from) == Some((c, n))
    ensures !Contains(c.commit, mid) && !Contains(c.description, close)
  {
    var i, j, k := NextPairParts(open, mid, close, s, from, c, n);
    BeforeFirstFree(s, mid, i + |open|, j);
    BeforeFirstFree(s, close, j + |mid|, k);
  }

  /** There are never more change tuples than occurrences of the opening literal. */
  lemma {:induction false} CapturePairsBound(open: string, mid: string, close: string, s: string, from: nat)
    requires open != [] && mid != [] && close != []
    ensures |CapturePairsFrom(open, mid, close, s, from)| <= CountFrom(s, open, from)
    decreases |s| - from
  {
    match NextPair(open, mid, close, s, from)
    case None =>
    case Some((c, n)) =>
      var i, j, k := NextPairParts(open, mid, close, s, from, c, n);
      CapturePairsStep(open, mid, close, s, from, c, n);
      FindFromFound(s, open, from);
      CapturePairsBound(open, mid, close, s, n);
      CountPast(s, open, from, i, n);
  }

  // ---------------------------------------------------------------------
  // The table's own examples

  lemma TableLiteralsUnbordered()
    ensures Unbordered(ChangeOpen) && Unbordered(ChangeMid) && Unbordered(ChangeClose)
    ensures Unbordered(ReviewOpen) && Unbordered(ReviewClose)
    ensures Unbordered(PointOpen) && Unbordered(PointClose)
    ensures Unbordered(AggregatedOpen) && Unbordered(AggregatedClose)
  {
  }

  /** `FormatLead` holds no markup. */
  lemma FormatLeadPlain()
    ensures '<' !in FormatLead
  {
  }

  const GetChangesSample1 := Change(SampleCommit1, SampleDescription1)
  const GetChangesSample2 := Change(SampleCommit2, SampleDescription2)
  const GetChangesLead := FormatLead + "<xml><changes>"
  const GetChangesTail := "...</changes></xml>"

  lemma WrapTwoChanges(open: string, mid: string, close: string, c1: Change, c2: Change)
    ensures WrapChanges(open, mid, close, [c1, c2])
      == open + c1.commit + mid + c1.description + close + (open + c2.commit + mid + c2.description + close)
  {
    assert [c1, c2][1..] == [c2];
    assert WrapChanges(open, mid, close, [c2]) == open + c2.commit + mid + c2.description + close + "";
  }

  /** Regrouping the pieces of an answer that holds two wrapped changes; a
      proof helper for the example lemmas. */
  lemma RegroupTwoChanges(l1: string, l2: string, o: string, c1: string, m: string, d1: string, e: string,
                          c2: string, d2: string, t: string)
    ensures l1 + l2 + o + c1 + m + d1 + e + o + c2 + m + d2 + e + t
      == (l1 + l2) + (o + c1 + m + d1 + e + (o + c2 + m + d2 + e)) + t
  {
  }

  lemma GetChangesExampleLayout()
    ensures GetChangesExpectedAnswer
      == GetChangesLead + WrapChanges(ChangeOpen, ChangeMid, ChangeClose, [GetChangesSample1, GetChangesSample2]) + GetChangesTail
  {
    WrapTwoChanges(ChangeOpen, ChangeMid, ChangeClose, GetChangesSample1, GetChangesSample2);
    RegroupTwoChanges(FormatLead, "<xml><changes>", ChangeOpen, SampleCommit1, ChangeMid, SampleDescription1, ChangeClose,
                      SampleCommit2, SampleDescription2, "...</changes></xml>");
  }

  lemma GetChangesExampleFree()
    ensures !Contains(GetChangesLead, ChangeOpen) && !Contains(GetChangesTail, ChangeOpen)
  {
    FormatLeadPlain();
    NotContainsShort("<xml><changes>", ChangeOpen);
    NotContainsJoin(FormatLead, "<xml><changes>", ChangeOpen);
    assert ChangeOpen[7] == ' ' && ' ' !in GetChangesTail;
    NotContainsByChar(GetChangesTail, ChangeOpen, 7);
  }

  lemma SampleCommitsFree()
    ensures !Contains(SampleCommit1, ChangeMid) && !Contains(SampleCommit2, ChangeMid)
  {
    NotContainsByChar(SampleCommit1, ChangeMid, 0);
    NotContainsByChar(SampleCommit2, ChangeMid, 0);
  }

  lemma SampleDescription1Free()
    ensures !Contains(SampleDescription1, ChangeClose)
  {
    NotContainsByChar(SampleDescription1, ChangeClose, 0);
  }

  lemma SampleDescription2Free()
    ensures !Contains(SampleDescription2, ChangeClose)
  {
    NotContainsByChar(SampleDescription2, ChangeClose, 0);
  }

  lemma GetChangesSamplesFree()
    ensures forall c :: c in [GetChangesSample1, GetChangesSample2] ==>
      !Contains(c.commit, ChangeMid) && !Contains(c.description, ChangeClose)
  {
    SampleCommitsFree();
    SampleDescription1Free();
    SampleDescription2Free();
  }

  /** A model that echoes the get_changes instruction yields the two
      placeholder changes of its example. */
  lemma {:induction false} GetChangesExampleExtracts()
    ensures ExtractChanges(Prompt(GetChanges).expectedAnswer) == [GetChangesSample1, GetChangesSample2]
  {
    GetChangesExampleLayout();
    GetChangesExampleFree();
    GetChangesSamplesFree();
    TableLiteralsUnbordered();
    CapturePairsAmid(ChangeOpen, ChangeMid, ChangeClose, GetChangesLead, [GetChangesSample1, GetChangesSample2], GetChangesTail);
  }

  /** A model that echoes the can_review instruction answers "1". */
  lemma {:induction false} CanReviewExampleExtracts()
    ensures Extract(CanReview, Prompt(CanReview).expectedAnswer) == ["1"]
  {
    TableLiteralsUnbordered();
    var lead := FormatLead + "<xml>";
    var tail := "</xml>";
    assert Wrap(ReviewOpen, ReviewClose, ["1"]) == ReviewOpen + "1" + ReviewClose + "";
    assert CanReviewExpectedAnswer == lead + Wrap(ReviewOpen, ReviewClose, ["1"]) + tail;
    FormatLeadPlain();
    NotContainsShort("<xml>", ReviewOpen);
    NotContainsJoin(FormatLead, "<xml>", ReviewOpen);
    NotContainsShort(tail, ReviewOpen);
    NotContainsByChar("1", ReviewClose, 0);
    CapturesAmid(ReviewOpen, ReviewClose, lead, ["1"], tail);
  }

  const MakeReviewLead := FormatLead + "<xml><review>"
  const MakeReviewTail := "...</review></xml>"

  lemma WrapTwo(open: string, close: string, x1: string, x2: string)
    ensures Wrap(open, close, [x1, x2]) == open + x1 + close + (open + x2 + close)
  {
    assert [x1, x2][1..] == [x2];
    assert Wrap(open, close, [x2]) == open + x2 + close + "";
  }

  lemma MakeReviewExampleLayout()
    ensures MakeReviewExpectedAnswer == MakeReviewLead + Wrap(PointOpen, PointClose, [SamplePoint1, SamplePoint2]) + MakeReviewTail
  {
    WrapTwo(PointOpen, PointClose, SamplePoint1, SamplePoint2);
  }

  lemma MakeReviewExampleFree()
    ensures !Contains(MakeReviewLead, PointOpen) && !Contains(MakeReviewTail, PointOpen)
  {
    FormatLeadPlain();
    assert PointOpen[1] == 'p' && 'p' !in "<xml><review>";
    NotContainsByChar("<xml><review>", PointOpen, 1);
    NotContainsJoin(FormatLead, "<xml><review>", PointOpen);
    assert PointOpen[1] == 'p' && 'p' !in MakeReviewTail;
    NotContainsByChar(MakeReviewTail, PointOpen, 1);
  }

  lemma SamplePointsFree()
    ensures forall x :: x in [SamplePoint1, SamplePoint2] ==> !Contains(x, PointClose)
  {
    NotContainsByChar(SamplePoint1, PointClose, 0);
    NotContainsByChar(SamplePoint2, PointClose, 0);
  }

  /** A model that echoes the make_review instruction makes its two points. */
  lemma {:induction false} MakeReviewExampleExtracts()
    ensures Extract(MakeReview, Prompt(MakeReview).expectedAnswer) == [SamplePoint1, SamplePoint2]
  {
    MakeReviewExampleLayout();
    MakeReviewExampleFree();
    SamplePointsFree();
    TableLiteralsUnbordered();
    CapturesAmid(PointOpen, PointClose, MakeReviewLead, [SamplePoint1, SamplePoint2], MakeReviewTail);
  }

  /** A model that echoes the aggregation instruction returns its sample text. */
  lemma {:induction false} AggregateExampleExtracts()
    ensures Extract(AggregateReviewPoints, Prompt(AggregateReviewPoints).expectedAnswer) == [SampleAggregate]
  {
    TableLiteralsUnbordered();
    var x := SampleAggregate;
    var lead := FormatLead + "<xml>";
    var tail := "</xml>";
    assert Wrap(AggregatedOpen, AggregatedClose, [x]) == AggregatedOpen + x + AggregatedClose + "";
    assert AggregateExpectedAnswer == lead + Wrap(AggregatedOpen, AggregatedClose, [x]) + tail;
    FormatLeadPlain();
    NotContainsShort("<xml>", AggregatedOpen);
    NotContainsJoin(FormatLead, "<xml>", AggregatedOpen);
    NotContainsShort(tail, AggregatedOpen);
    NotContainsByChar(x, AggregatedClose, 0);
    CapturesAmid(AggregatedOpen, AggregatedClose, lead, [x], tail);
  }
}
