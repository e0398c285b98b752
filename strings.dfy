/**
 The Python string operations the review pipeline relies on: `str.find`,
 `str.startswith`, `str.lstrip`, `" ".join`, `int(str)` and the markup
 stripper `re.sub('<[^<]+?>', '', s)`, written over `seq<char>`.
 For `lstrip`, whitespace is the ASCII part of Python's `str.isspace`
 (`IsSpace`). `int()` skips its own, narrower set around a numeral
 (`IsIntSpace`: tab to carriage return, and space).
 */
module Strings {

  datatype Option<T> = None | Some(value: T)

  /** `pat` occurs in `s` at index `i`. */
  predicate OccursAt(s: string, pat: string, i: int) {
    0 <= i && i + |pat| <= |s| && s[i..i + |pat|] == pat
  }

  /** An occurrence agrees with `pat` character by character. */
  lemma OccursAtChars(s: string, pat: string, i: nat)
    requires i + |pat| <= |s|
    ensures OccursAt(s, pat, i) <==> forall k :: 0 <= k < |pat| ==> s[i + k] == pat[k]
  {
    if forall k :: 0 <= k < |pat| ==> s[i + k] == pat[k] {
      assert s[i..i + |pat|] == pat;
    }
  }

  /** An occurrence inside a window `s[a..b]` is an occurrence in `s`. */
  lemma OccursAtWindow(s: string, a: nat, b: nat, pat: string, t: nat)
    requires a <= b <= |s| && t + |pat| <= b - a
    ensures OccursAt(s[a..b], pat, t) <==> OccursAt(s, pat, a + t)
  {
    OccursAtChars(s[a..b], pat, t);
    OccursAtChars(s, pat, a + t);
  }

  /** Reading `x + r` from index `a` of `s`: `x` stands at `a`, and `r`
      is what follows it. */
  lemma SplitAt(s: string, a: nat, x: string, r: string)
    requires a <= |s| && s[a..] == x + r
    ensures a + |x| <= |s| && s[a..a + |x|] == x && s[a + |x|..] == r
  {
    assert s[a..a + |x|] == s[a..][..|x|];
    assert s[a + |x|..] == s[a..][|x|..];
  }

  /** `pat` occurs somewhere in `s` (Python's `pat in s`). */
  ghost predicate Contains(s: string, pat: string) {
    exists i :: OccursAt(s, pat, i)
  }

  /** Python's `s.startswith(p)`. */
  predicate StartsWith(s: string, p: string) {
    |p| <= |s| && s[..|p|] == p
  }

  /** The first index at or after `from` where `pat` occurs in `s`, the
      search a regular-expression scan performs for a literal. */
  function FindFrom(s: string, pat: string, from: nat): (r: Option<nat>)
    ensures r.Some? ==> from <= r.value && r.value + |pat| <= |s|
    decreases |s| - from
  {
    if from + |pat| > |s| then None
    else if OccursAt(s, pat, from) then Some(from)
    else FindFrom(s, pat, from + 1)
  }

  /** The index below which `FindFrom` has ruled out every occurrence. */
  function FindFromLimit(s: string, pat: string, from: nat): nat {
    match FindFrom(s, pat, from)
    case Some(i) => i
    case None => |s| + 1
  }

  /** What `FindFrom` finds is an occurrence. */
  lemma {:induction false} FindFromFound(s: string, pat: string, from: nat)
    requires FindFrom(s, pat, from).Some?
    ensures OccursAt(s, pat, FindFrom(s, pat, from).value)
    decreases |s| - from
  {
    if !OccursAt(s, pat, from) {
      FindFromFound(s, pat, from + 1);
    }
  }

  /** `FindFrom` finds an occurrence, and none lies before it. */
  lemma {:induction false} FindFromCorrect(s: string, pat: string, from: nat)
    ensures FindFrom(s, pat, from).Some? ==> OccursAt(s, pat, FindFrom(s, pat, from).value)
    ensures forall i :: from <= i < FindFromLimit(s, pat, from) ==> !OccursAt(s, pat, i)
    decreases |s| - from
  {
    if from + |pat| <= |s| && !OccursAt(s, pat, from) {
      FindFromCorrect(s, pat, from + 1);
    }
  }

  /** Conversely, an occurrence with none before it is what `FindFrom` finds. */
  lemma {:induction false} FindFromIs(s: string, pat: string, from: nat, i: nat)
    requires from <= i && OccursAt(s, pat, i)
    requires forall k :: from <= k < i ==> !OccursAt(s, pat, k)
    ensures FindFrom(s, pat, from) == Some(i)
    decreases i - from
  {
    if from < i {
      FindFromIs(s, pat, from + 1, i);
    }
  }

  /** Without an occurrence at or after `from`, `FindFrom` finds nothing. */
  lemma {:induction false} FindFromNone(s: string, pat: string, from: nat)
    requires forall k :: from <= k ==> !OccursAt(s, pat, k)
    ensures FindFrom(s, pat, from) == None
    decreases |s| - from
  {
    if from + |pat| <= |s| {
      FindFromNone(s, pat, from + 1);
    }
  }

  /** Each character of an occurrence is the pattern's character. */
  lemma OccursAtChar(s: string, pat: string, i: nat, m: nat)
    requires OccursAt(s, pat, i) && m < |pat|
    ensures i + m < |s| && s[i + m] == pat[m]
  {
    OccursAtChars(s, pat, i);
  }

  /** A text without some character of `pat` does not hold `pat`. */
  lemma NotContainsByChar(x: string, pat: string, m: nat)
    requires m < |pat| && pat[m] !in x
    ensures !Contains(x, pat)
  {
    if Contains(x, pat) {
      var i :| OccursAt(x, pat, i);
      OccursAtChar(x, pat, i, m);
    }
  }

  /** A text shorter than `pat` does not hold it. */
  lemma NotContainsShort(x: string, pat: string)
    requires |x| < |pat|
    ensures !Contains(x, pat)
  {
  }

  /** An occurrence in `a + b` that starts inside `b` is one of `b`. */
  lemma OccursInRight(a: string, b: string, pat: string, i: int)
    requires |a| <= i && OccursAt(a + b, pat, i)
    ensures OccursAt(b, pat, i - |a|)
  {
    assert (a + b)[i..i + |pat|] == b[i - |a|..i - |a| + |pat|];
  }

  /** When `pat` starts with a character absent from `a`, an occurrence in
      `a + b` lies inside `b`. */
  lemma NotContainsJoin(a: string, b: string, pat: string)
    requires pat != [] && pat[0] !in a && !Contains(b, pat)
    ensures !Contains(a + b, pat)
  {
    if Contains(a + b, pat) {
      var i :| OccursAt(a + b, pat, i);
      assert (a + b)[i] == pat[0];
      assert i >= |a|;
      OccursInRight(a, b, pat, i);
    }
  }

  /** The characters Python's `str.isspace` accepts among the ASCII ones:
      tab, line feed, vertical tab, form feed, carriage return, the four
      separators 0x1C-0x1F, and space. */
  predicate IsSpace(c: char) {
    ('\t' <= c <= '\r') || ('\U{1C}' <= c <= '\U{1F}') || c == ' '
  }

  predicate AllSpace(s: string) {
    forall i :: 0 <= i < |s| ==> IsSpace(s[i])
  }

  /** Python's `s.lstrip()`: the longest suffix of `s` that does not start
      with whitespace, obtained by dropping only whitespace. */
  function LStrip(s: string): (r: string)
    ensures |r| <= |s| && r == s[|s| - |r|..]
    ensures r == [] || !IsSpace(r[0])
    ensures AllSpace(s[..|s| - |r|])
  {
    if s != [] && IsSpace(s[0]) then LStrip(s[1..]) else s
  }

  /** A string that does not start with whitespace is left as it is. */
  lemma LStripNoLead(s: string)
    requires s == [] || !IsSpace(s[0])
    ensures LStrip(s) == s
  {
  }

  /** The three properties of `LStrip` determine its result: any suffix of `s`
      reached by dropping only whitespace and not itself starting with
      whitespace is `LStrip(s)`. */
  lemma {:induction false} LStripUnique(s: string, t: string)
    requires |t| <= |s| && t == s[|s| - |t|..]
    requires t == [] || !IsSpace(t[0])
    requires AllSpace(s[..|s| - |t|])
    ensures LStrip(s) == t
  {
    if |t| < |s| {
      assert IsSpace(s[0]) by { assert s[..|s| - |t|][0] == s[0]; }
      assert s[1..][|s| - 1 - |t|..] == t;
      var dropped, rest := s[..|s| - |t|], s[1..][..|s| - 1 - |t|];
      assert AllSpace(rest) by {
        forall i | 0 <= i < |rest| ensures IsSpace(rest[i]) {
          assert rest[i] == dropped[i + 1];
        }
      }
      LStripUnique(s[1..], t);
    }
  }

  /** Leading whitespace does not change what `lstrip` returns. */
  lemma LStripSkipsSpace(w: string, t: string)
    requires AllSpace(w)
    ensures LStrip(w + t) == LStrip(t)
  {
    var r := LStrip(t);
    var s := w + t;
    assert s[|s| - |r|..] == r by { assert s[|w|..] == t; }
    var dropped, tDropped := s[..|s| - |r|], t[..|t| - |r|];
    assert AllSpace(dropped) by {
      forall i | 0 <= i < |dropped| ensures IsSpace(dropped[i]) {
        if i >= |w| { assert dropped[i] == tDropped[i - |w|]; }
      }
    }
    LStripUnique(s, r);
  }

  /** `" ".join(xs)` with separator `sep`. */
  function Join(sep: string, xs: seq<string>): (r: string)
    ensures xs == [] ==> r == ""
    ensures |xs| == 1 ==> r == xs[0]
  {
    if xs == [] then ""
    else if |xs| == 1 then xs[0]
    else xs[0] + sep + Join(sep, xs[1..])
  }

  lemma JoinTwo(sep: string, a: string, b: string)
    ensures Join(sep, [a, b]) == a + sep + b
  {
    assert [a, b][1..] == [b];
  }

  /** A join starts with its first string. */
  lemma JoinStartsWithFirst(sep: string, xs: seq<string>)
    requires xs != []
    ensures StartsWith(Join(sep, xs), xs[0])
  {
  }

  /** Total length of the strings in `xs`. */
  function TotalLength(xs: seq<string>): nat {
    if xs == [] then 0 else |xs[0]| + TotalLength(xs[1..])
  }

  /** A join is as long as its parts plus one separator between each two. */
  lemma {:induction false} JoinLength(sep: string, xs: seq<string>)
    requires xs != []
    ensures |Join(sep, xs)| == TotalLength(xs) + (|xs| - 1) * |sep|
  {
    if |xs| > 1 {
      JoinLength(sep, xs[1..]);
    }
  }

  /** Joining one more string appends a separator and that string. */
  lemma {:induction false} JoinSnoc(sep: string, xs: seq<string>, x: string)
    requires xs != []
    ensures Join(sep, xs + [x]) == Join(sep, xs) + sep + x
    decreases |xs|
  {
    if |xs| > 1 {
      JoinSnoc(sep, xs[1..], x);
      assert (xs + [x])[1..] == xs[1..] + [x];
    } else {
      assert xs + [x] == [xs[0], x];
    }
  }

  // ---------------------------------------------------------------------
  // re.sub('<[^<]+?>', '', s)

  /** A word of the language `<[^<]+>`: an opening `<`, at least one
      character that is not `<`, and a closing `>`. */
  predicate IsTag(t: string) {
    |t| >= 3 && t[0] == '<' && t[|t| - 1] == '>' &&
    forall k :: 1 <= k < |t| - 1 ==> t[k] != '<'
  }

  /** Scanning forward from `k` for the `>` that ends a tag started at 0;
      a `<` before it spoils the match. */
  function TagEndFrom(s: string, k: nat): (r: Option<nat>)
    requires 2 <= k <= |s| && s[0] == '<'
    requires forall j :: 1 <= j < k ==> s[j] != '<'
    requires forall j :: 2 <= j < k ==> s[j] != '>'
    ensures r.Some? ==> k < r.value <= |s| && IsTag(s[..r.value])
    ensures r.Some? ==> forall n :: 3 <= n < r.value ==> !IsTag(s[..n])
    ensures r.None? ==> forall n :: k < n <= |s| ==> !IsTag(s[..n])
    decreases |s| - k
  {
    if k == |s| then None
    else if s[k] == '>' then Some(k + 1)
    else if s[k] == '<' then
      assert forall n :: k < n <= |s| ==> s[..n][k] == '<';
      None
    else TagEndFrom(s, k + 1)
  }

  /** The length of the shortest prefix of `s` that `<[^<]+?>` matches, the
      lazy quantifier taking the least number of characters. */
  function TagAt(s: string): (r: Option<nat>)
    ensures r.Some? ==> 3 <= r.value <= |s| && IsTag(s[..r.value])
    ensures r.Some? ==> forall n :: 0 <= n < r.value ==> !IsTag(s[..n])
    ensures r.None? ==> forall n :: 0 <= n <= |s| ==> !IsTag(s[..n])
  {
    if |s| >= 2 && s[0] == '<' && s[1] != '<' then TagEndFrom(s, 2)
    else
      assert forall n :: 3 <= n <= |s| ==> s[..n][0] == s[0] && s[..n][1] == s[1];
      None
  }

  /** `re.sub('<[^<]+?>', '', s)`: from left to right, each position that
      starts a match loses the shortest match there; every other character
      is kept and the scan moves one character on. */
  function StripTags(s: string): (r: string)
    ensures |r| <= |s|
    decreases |s|
  {
    if s == [] then []
    else match TagAt(s)
      case Some(n) => StripTags(s[n..])
      case None => [s[0]] + StripTags(s[1..])
  }

  /** A character other than `<` cannot start markup, so it is kept. */
  lemma StripTagsKeeps(s: string)
    requires s != [] && s[0] != '<'
    ensures StripTags(s) == [s[0]] + StripTags(s[1..])
  {
    assert TagAt(s).None?;
  }

  /** Text with no `<` has no markup: stripping leaves it as it is. */
  lemma {:induction false} StripTagsPlain(s: string)
    requires '<' !in s
    ensures StripTags(s) == s
  {
    if s != [] {
      StripTagsKeeps(s);
      assert '<' !in s[1..] by { assert forall c :: c in s[1..] ==> c in s; }
      StripTagsPlain(s[1..]);
    }
  }

  /** Plain text in front of the rest passes through stripping unchanged. */
  lemma {:induction false} StripTagsPlainPrefix(p: string, s: string)
    requires '<' !in p
    ensures StripTags(p + s) == p + StripTags(s)
  {
    if p != [] {
      var ps := p + s;
      assert ps[0] == p[0];
      StripTagsKeeps(ps);
      assert ps[1..] == p[1..] + s;
      assert '<' !in p[1..] by { assert forall c :: c in p[1..] ==> c in p; }
      StripTagsPlainPrefix(p[1..], s);
      assert p == [p[0]] + p[1..];
    } else {
      assert p + s == s;
    }
  }

  /** A tag `<name>` whose name holds neither `<` nor `>` is removed as a whole. */
  lemma StripTagsDropsTag(name: string, s: string)
    requires name != [] && '<' !in name && '>' !in name
    ensures StripTags("<" + name + ">" + s) == StripTags(s)
  {
    var t := "<" + name + ">" + s;
    var n := |name| + 2;
    assert t[0] == '<' && t[1] == name[0] != '<';
    assert forall j :: 1 <= j < n - 1 ==> t[j] == name[j - 1];
    assert t[n - 1] == '>';
    var r := TagEndFrom(t, 2);
    assert IsTag(t[..n]);
    assert r == Some(n);
    assert t[n..] == s;
  }

  /** A `<` followed by a character and another `<` starts no match: it is
      kept. */
  lemma StripTagsUnclosed(s: string)
    requires |s| >= 3 && s[0] == '<' && s[1] != '<' && s[2] == '<'
    ensures StripTags(s) == [s[0]] + StripTags(s[1..])
  {
    assert TagEndFrom(s, 2).None?;
  }

  /** Stripping once can leave markup behind: removing the inner tag of
      `<a<b>c>` joins the outer one into `<ac>`. */
  lemma StripTagsLeavesMarkup()
    ensures StripTags("<a<b>c>") == "<ac>"
  {
    var t := "<a<b>c>";
    StripTagsUnclosed(t);
    assert t[1..] == "a" + "<b>c>";
    StripTagsPlainPrefix("a", "<b>c>");
    StripTagsDropsTag("b", "c>");
    assert "<b>c>" == "<" + "b" + ">" + "c>";
    StripTagsPlain("c>");
  }

  /** So stripping is not idempotent: a second pass removes `<ac>` too. */
  lemma StripTagsNotIdempotent()
    ensures StripTags(StripTags("<a<b>c>")) == "" != StripTags("<a<b>c>")
  {
    StripTagsLeavesMarkup();
    StripTagsDropsTag("ac", "");
    assert "<ac>" == "<" + "ac" + ">" + "";
  }

  // ---------------------------------------------------------------------
  // int(s)

  predicate IsDigit(c: char) {
    '0' <= c <= '9'
  }

  function DigitValue(c: char): nat
    requires IsDigit(c)
  {
    c as int - '0' as int
  }

  predicate AllDigits(d: string) {
    forall i :: 0 <= i < |d| ==> IsDigit(d[i])
  }

  /** The value of a decimal numeral, most significant digit first. */
  function DigitsValue(d: string): nat
    requires AllDigits(d)
  {
    if d == [] then 0 else 10 * DigitsValue(d[..|d| - 1]) + DigitValue(d[|d| - 1])
  }

  /** The decimal numeral of `n` without leading zeros, like Python's `str(n)`. */
  function ShowNat(n: nat): (d: string)
    ensures d != [] && AllDigits(d)
  {
    if n < 10 then [('0' as int + n) as char]
    else ShowNat(n / 10) + [('0' as int + n % 10) as char]
  }

  /** Python's `str(n)` on an integer. */
  function ShowInt(n: int): string {
    if n < 0 then "-" + ShowNat(-n) else ShowNat(n)
  }

  /** Decimal digits with an optional leading sign, or `None`. */
  function ParseSigned(t: string): Option<int> {
    var neg := |t| > 0 && t[0] == '-';
    var d := if |t| > 0 && (t[0] == '+' || t[0] == '-') then t[1..] else t;
    if d == [] || !AllDigits(d) then None
    else if neg then Some(-(DigitsValue(d) as int))
    else Some(DigitsValue(d))
  }

  /** The whitespace `int()` skips around an ASCII numeral: C's `isspace`
      set, that is tab, line feed, vertical tab, form feed, carriage return
      and space. Unlike `str.isspace` it leaves out the separators
      0x1C-0x1F: `int()` passes ASCII characters to its parser unchanged. */
  predicate IsIntSpace(c: char) {
    ('\t' <= c <= '\r') || c == ' '
  }

  /** Leading `int()` whitespace dropped. */
  function IntLStrip(s: string): (r: string)
    ensures |r| <= |s| && r == s[|s| - |r|..]
    ensures r == [] || !IsIntSpace(r[0])
    ensures forall i :: 0 <= i < |s| - |r| ==> IsIntSpace(s[i])
  {
    if s != [] && IsIntSpace(s[0]) then IntLStrip(s[1..]) else s
  }

  /** Trailing `int()` whitespace dropped. */
  function IntRStrip(s: string): (r: string)
    ensures |r| <= |s| && r == s[..|r|]
    ensures r == [] || !IsIntSpace(r[|r| - 1])
    ensures forall i :: |r| <= i < |s| ==> IsIntSpace(s[i])
  {
    if s != [] && IsIntSpace(s[|s| - 1]) then
      var r := IntRStrip(s[..|s| - 1]);
      assert s[..|s| - 1][..|r|] == s[..|r|];
      r
    else s
  }

  /** The text `int()` parses: the argument without the surrounding
      `int()` whitespace. */
  function IntStrip(s: string): string {
    IntRStrip(IntLStrip(s))
  }

  /** Python's `int(s)` on the decimal subset: surrounding `int()`
      whitespace, an optional sign, then at least one decimal digit. `None`
      stands for the `ValueError` every other string raises. */
  function ParseInt(s: string): Option<int> {
    ParseSigned(IntStrip(s))
  }

  /** `int()` does not skip a separator that `lstrip` removes:
      `int("\x1c1")` raises, although `"\x1c1".lstrip() == "1"`. */
  lemma ParseIntKeepsSeparator()
    ensures LStrip(['\U{1C}', '1']) == "1"
    ensures ParseInt(['\U{1C}', '1']) == None
  {
    SeparatorStripped('\U{1C}', '1');
    SeparatorKept('\U{1C}', '1');
  }

  lemma SeparatorStripped(c: char, d: char)
    requires IsSpace(c) && !IsSpace(d)
    ensures LStrip([c, d]) == [d]
  {
    var t, u := [c, d], [d];
    assert t[1..] == u && IsSpace(t[0]) && !IsSpace(u[0]);
    assert LStrip(u) == u;
    assert LStrip(t) == LStrip(t[1..]);
  }

  lemma SeparatorKept(c: char, d: char)
    requires !IsIntSpace(c) && !IsIntSpace(d) && !IsDigit(c) && c != '+' && c != '-'
    ensures ParseInt([c, d]) == None
  {
    assert IntLStrip([c, d]) == [c, d];
    assert IntStrip([c, d]) == [c, d];
    assert !AllDigits([c, d]) by { assert !IsDigit([c, d][0]); }
  }

  lemma {:induction false} DigitsValueShowNat(n: nat)
    ensures DigitsValue(ShowNat(n)) == n
  {
    if n >= 10 {
      DigitsValueShowNat(n / 10);
      var d := ShowNat(n);
      assert d[..|d| - 1] == ShowNat(n / 10);
    }
  }

  lemma NoSpaceInDigits(d: string)
    requires AllDigits(d)
    ensures IntStrip(d) == d
  {
    assert IntLStrip(d) == d by { if d != [] { assert !IsIntSpace(d[0]); } }
    assert IntRStrip(d) == d by { if d != [] { assert !IsIntSpace(d[|d| - 1]); } }
  }

  /** A minus sign in front of digits leaves nothing to strip. */
  lemma NoSpaceAroundSigned(d: string)
    requires d != [] && AllDigits(d)
    ensures IntStrip("-" + d) == "-" + d
  {
    var s := "-" + d;
    assert IntLStrip(s) == s by { assert s[0] == '-'; }
    assert IntRStrip(s) == s by { assert s[|s| - 1] == d[|d| - 1]; assert !IsIntSpace(d[|d| - 1]); }
  }

  /** `int(str(n)) == n`: parsing undoes printing. */
  lemma ParseIntShowInt(n: int)
    ensures ParseInt(ShowInt(n)) == Some(n)
  {
    if n < 0 {
      ParseIntShowNegative(n);
    } else {
      ParseIntShowNat(n);
    }
  }

  lemma ParseIntShowNegative(n: int)
    requires n < 0
    ensures ParseInt(ShowInt(n)) == Some(n)
  {
    var m: nat := -n;
    var d := ShowNat(m);
    DigitsValueShowNat(m);
    assert ShowInt(n) == "-" + d;
    NoSpaceAroundSigned(d);
    ParseSignedNegative(d);
  }

  lemma ParseIntShowNat(n: nat)
    ensures ParseInt(ShowInt(n)) == Some(n)
  {
    var d := ShowNat(n);
    assert ShowInt(n) == d;
    NoSpaceInDigits(d);
    ParseSignedUnsigned(d);
    DigitsValueShowNat(n);
  }

  lemma ParseSignedNegative(d: string)
    requires d != [] && AllDigits(d)
    ensures ParseSigned("-" + d) == Some(-(DigitsValue(d) as int))
  {
    assert ("-" + d)[0] == '-' && ("-" + d)[1..] == d;
  }

  lemma ParseSignedUnsigned(d: string)
    requires d != [] && AllDigits(d)
    ensures ParseSigned(d) == Some(DigitsValue(d))
  {
    assert IsDigit(d[0]);
  }

  predicate AllZeros(z: string) {
    forall i :: 0 <= i < |z| ==> z[i] == '0'
  }

  lemma {:induction false} DigitsValueZero(d: string)
    requires AllDigits(d)
    ensures DigitsValue(d) == 0 <==> AllZeros(d)
  {
    if d != [] {
      var p := d[..|d| - 1];
      DigitsValueZero(p);
      if AllZeros(d) {
        assert AllZeros(p) by { forall i | 0 <= i < |p| ensures p[i] == '0' { assert p[i] == d[i]; } }
      }
      if DigitsValue(d) == 0 {
        forall i | 0 <= i < |d| ensures d[i] == '0' { if i < |p| { assert d[i] == p[i]; } }
      }
    }
  }

  /** A numeral has the value 1 exactly when it is zeros followed by "1". */
  lemma DigitsValueOne(d: string)
    requires AllDigits(d)
    ensures DigitsValue(d) == 1 <==> d != [] && d[|d| - 1] == '1' && AllZeros(d[..|d| - 1])
  {
    if d != [] {
      DigitsValueZero(d[..|d| - 1]);
    }
  }

  /** A numeral of value 1: zeros followed by a final "1". */
  predicate OneNumeral(d: string) {
    d != [] && d[|d| - 1] == '1' && AllZeros(d[..|d| - 1])
  }

  lemma ParseSignedOne(t: string)
    ensures ParseSigned(t) == Some(1) <==> OneNumeral(if |t| > 0 && t[0] == '+' then t[1..] else t)
  {
    if |t| > 0 && t[0] == '-' {
      if |t| > 1 { assert t[..|t| - 1][0] == '-'; }
    } else {
      var d := if |t| > 0 && t[0] == '+' then t[1..] else t;
      if OneNumeral(d) {
        assert AllDigits(d) by {
          forall i | 0 <= i < |d| ensures IsDigit(d[i]) {
            if i < |d| - 1 { assert d[i] == d[..|d| - 1][i]; }
          }
        }
        DigitsValueOne(d);
      }
      if d != [] && AllDigits(d) {
        DigitsValueOne(d);
      }
    }
  }

  /** `int(s) == 1` holds exactly for the strings that, once stripped of
      surrounding `int()` whitespace and of an optional `+`, are zeros
      followed by "1" ("1", " 1\n", "+01", ...). */
  lemma ParseIntIsOne(s: string)
    ensures ParseInt(s) == Some(1) <==>
      var t := IntStrip(s);
      OneNumeral(if |t| > 0 && t[0] == '+' then t[1..] else t)
  {
    ParseSignedOne(IntStrip(s));
  }
}
