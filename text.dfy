/**
 * The string operations the server (Ruby) and the extension (JavaScript) apply to
 * e-mail addresses, headers, queries and titles. Case mapping covers ASCII letters only.
 */
module Text {
  import opened Wrappers

  /** ASCII whitespace: what Ruby's `split(" ")` splits on. */
  predicate IsSpace(c: char) {
    c == ' ' || c == '\t' || c == '\n' || c == '\U{B}' || c == '\U{C}' || c == '\r'
  }

  /** What Ruby's `strip` removes at either end: ASCII whitespace and NUL. */
  predicate IsStripSpace(c: char) {
    IsSpace(c) || c == '\0'
  }

  predicate AllSpace(s: string) {
    forall i :: 0 <= i < |s| ==> IsSpace(s[i])
  }

  predicate NoSpace(s: string) {
    forall i :: 0 <= i < |s| ==> !IsSpace(s[i])
  }

  /**
   * Unicode White_Space, which Ruby's `[[:space:]]` matches: ASCII whitespace, U+0085, U+00A0,
   * U+1680, U+2000 to U+200A, U+2028, U+2029, U+202F, U+205F and U+3000.
   */
  predicate IsWhiteSpace(c: char) {
    IsSpace(c) || c == '\U{85}' || c == '\U{A0}' || c == '\U{1680}' || '\U{2000}' <= c <= '\U{200A}' ||
    c == '\U{2028}' || c == '\U{2029}' || c == '\U{202F}' || c == '\U{205F}' || c == '\U{3000}'
  }

  /** Ruby's `String#blank?` for a string: empty or Unicode whitespace only. */
  predicate IsBlank(s: string) {
    forall i :: 0 <= i < |s| ==> IsWhiteSpace(s[i])
  }

  predicate IsUpperChar(c: char) {
    'A' <= c <= 'Z'
  }

  predicate IsLowerChar(c: char) {
    'a' <= c <= 'z'
  }

  function LowerChar(c: char): char {
    if IsUpperChar(c) then (c as int + 32) as char else c
  }

  function UpperChar(c: char): char {
    if IsLowerChar(c) then (c as int - 32) as char else c
  }

  /** Ruby's `downcase`, SQL's `LOWER` and JavaScript's `toLowerCase`, on ASCII letters. */
  function Lower(s: string): string {
    seq(|s|, i requires 0 <= i < |s| => LowerChar(s[i]))
  }

  /** JavaScript's `toUpperCase`, on ASCII letters. */
  function Upper(s: string): string {
    seq(|s|, i requires 0 <= i < |s| => UpperChar(s[i]))
  }

  /** `part` occurs in `s` at some position: JavaScript's `includes`, SQL's `LIKE '%part%'`. */
  predicate Contains(s: string, part: string)
    decreases |s|
  {
    part <= s || (s != [] && Contains(s[1..], part))
  }

  /** Whatever surrounds `part`, the result contains it. */
  lemma {:induction false} ContainsMiddle(before: string, part: string, after: string)
    ensures Contains(before + part + after, part)
    decreases |before|
  {
    if before == [] {
      assert before + part + after == part + after;
    } else {
      assert (before + part + after)[1..] == before[1..] + part + after;
      ContainsMiddle(before[1..], part, after);
    }
  }

  /** Ruby's `lstrip`. */
  function TrimStart(s: string): (r: string)
    ensures |r| <= |s| && r == s[|s| - |r|..]
    ensures forall i :: 0 <= i < |s| - |r| ==> IsStripSpace(s[i])
    ensures r == [] || !IsStripSpace(r[0])
  {
    if s != [] && IsStripSpace(s[0]) then TrimStart(s[1..]) else s
  }

  /** Ruby's `rstrip`. */
  function TrimEnd(s: string): (r: string)
    ensures |r| <= |s| && r == s[..|r|]
    ensures forall i :: |r| <= i < |s| ==> IsStripSpace(s[i])
    ensures r == [] || !IsStripSpace(r[|r| - 1])
  {
    if s != [] && IsStripSpace(s[|s| - 1]) then TrimEnd(s[..|s| - 1]) else s
  }

  /** Ruby's `strip`. */
  function Strip(s: string): string {
    TrimEnd(TrimStart(s))
  }

  /** Ruby's `last(n)`: the last `n` characters, or all of them when there are fewer. */
  function LastChars(s: string, n: nat): (r: string)
    ensures |r| == if |s| < n then |s| else n
    ensures r == s[|s| - |r|..]
  {
    if |s| <= n then s else s[|s| - n..]
  }

  /** JavaScript's `substring(0, n)`: the first `n` characters, or all of them. */
  function FirstChars(s: string, n: nat): (r: string)
    ensures |r| == if |s| < n then |s| else n
    ensures r == s[..|r|]
  {
    if |s| <= n then s else s[..n]
  }

  /**
   * The UTF-16 code units JavaScript stores for one character: the character itself below
   * U+10000, otherwise a high and a low surrogate that together give it back.
   */
  function CodeUnits(c: char): (u: seq<nat>)
    ensures |u| == 1 <==> (c as int) < 0x1_0000
    ensures |u| == 1 ==> u[0] == c as int
    ensures |u| != 1 ==> |u| == 2 && 0xD800 <= u[0] < 0xDC00 && 0xDC00 <= u[1] < 0xE000 &&
                         0x1_0000 + (u[0] - 0xD800) * 0x400 + (u[1] - 0xDC00) == c as int
  {
    var v := c as int;
    if v < 0x1_0000 then [v] else [0xD800 + (v - 0x1_0000) / 0x400, 0xDC00 + (v - 0x1_0000) % 0x400]
  }

  /** A string as JavaScript holds it: the UTF-16 code units of its characters, in order. */
  function Utf16(s: string): (u: seq<nat>)
    ensures |u| >= |s|
    decreases |s|
  {
    if s == [] then [] else CodeUnits(s[0]) + Utf16(s[1..])
  }

  /** JavaScript's `toUpperCase` on one code unit, for ASCII letters. */
  function UpperUnit(u: nat): nat {
    if 'a' as int <= u <= 'z' as int then u - 32 else u
  }

  /**
   * Ruby's `split(" ")`: the maximal runs of non-whitespace characters, in order.
   * Defined one character at a time from the end: a non-space character either
   * starts a new last word or extends the last word that ends right before it.
   */
  function Words(s: string): (ws: seq<string>)
    ensures forall k :: 0 <= k < |ws| ==> ws[k] != [] && NoSpace(ws[k])
    ensures ws == [] <==> AllSpace(s)
    decreases |s|
  {
    if s == [] then []
    else
      var init := s[..|s| - 1];
      var x := s[|s| - 1];
      var ws := Words(init);
      if IsSpace(x) then ws
      else if init != [] && !IsSpace(init[|init| - 1]) then ws[..|ws| - 1] + [ws[|ws| - 1] + [x]]
      else ws + [[x]]
  }

  /** Ruby's `split(" ").last`: the last word, or nil when there is none. */
  function LastWord(s: string): (r: Option<string>)
    ensures r.None? <==> AllSpace(s)
    ensures r.Some? ==> r.value != [] && NoSpace(r.value)
  {
    var ws := Words(s);
    if ws == [] then None else Some(ws[|ws| - 1])
  }

  // ---------------------------------------------------------------- lemmas

  lemma LowerCharIdempotent(c: char)
    ensures LowerChar(LowerChar(c)) == LowerChar(c)
  {
  }

  /** Lower-casing twice is lower-casing once. */
  lemma LowerIdempotent(s: string)
    ensures Lower(Lower(s)) == Lower(s)
  {
  }

  /** A string is its own lower case exactly when it has no upper-case letter. */
  lemma LowerNoUpperIff(s: string)
    ensures Lower(s) == s <==> forall i :: 0 <= i < |s| ==> !IsUpperChar(s[i])
    ensures forall i :: 0 <= i < |s| ==> !IsUpperChar(Lower(s)[i])
  {
    if Lower(s) == s {
      forall i | 0 <= i < |s| ensures !IsUpperChar(s[i]) {
        assert s[i] == Lower(s)[i];
      }
    }
  }

  /** Lower-casing never turns a character into, or out of, strippable whitespace. */
  lemma LowerKeepsSpace(s: string)
    ensures forall i :: 0 <= i < |s| ==> (IsStripSpace(Lower(s)[i]) <==> IsStripSpace(s[i]))
  {
  }

  lemma {:induction false} TrimStartLower(s: string)
    ensures TrimStart(Lower(s)) == Lower(TrimStart(s))
    decreases |s|
  {
    LowerKeepsSpace(s);
    if s != [] {
      assert Lower(s)[1..] == Lower(s[1..]);
      if IsStripSpace(s[0]) {
        TrimStartLower(s[1..]);
      }
    }
  }

  lemma {:induction false} TrimEndLower(s: string)
    ensures TrimEnd(Lower(s)) == Lower(TrimEnd(s))
    decreases |s|
  {
    LowerKeepsSpace(s);
    if s != [] {
      assert Lower(s)[..|s| - 1] == Lower(s[..|s| - 1]);
      if IsStripSpace(s[|s| - 1]) {
        TrimEndLower(s[..|s| - 1]);
      }
    }
  }

  /** Lower-casing keeps the number of code units, and upper-casing each unit undoes it. */
  lemma {:induction false} Utf16Lower(s: string)
    ensures |Utf16(Lower(s))| == |Utf16(s)|
    ensures forall i :: 0 <= i < |Utf16(s)| ==> UpperUnit(Utf16(Lower(s))[i]) == UpperUnit(Utf16(s)[i])
    decreases |s|
  {
    if s != [] {
      assert Lower(s)[0] == LowerChar(s[0]) && Lower(s)[1..] == Lower(s[1..]);
      Utf16Lower(s[1..]);
      var a := CodeUnits(LowerChar(s[0]));
      var b := CodeUnits(s[0]);
      assert |a| == |b| && forall i :: 0 <= i < |a| ==> UpperUnit(a[i]) == UpperUnit(b[i]);
    }
  }

  /** Stripping and lower-casing commute. */
  lemma StripLower(s: string)
    ensures Strip(Lower(s)) == Lower(Strip(s))
  {
    TrimStartLower(s);
    TrimEndLower(TrimStart(s));
  }

  /**
   * `s` is the slice of `e` that starts at `a`, with only strippable whitespace before and after
   * it in `e` and none at its own ends.
   */
  ghost predicate StripsAt(s: string, e: string, a: nat) {
    && a + |s| <= |e| && s == e[a..a + |s|]
    && (forall i :: 0 <= i < a ==> IsStripSpace(e[i]))
    && (forall i :: a + |s| <= i < |e| ==> IsStripSpace(e[i]))
    && (s == [] || (!IsStripSpace(s[0]) && !IsStripSpace(s[|s| - 1])))
  }

  /** `s` is `e` with the strippable whitespace at both ends removed: Ruby's `strip`, stated directly. */
  ghost predicate IsStripOf(s: string, e: string) {
    exists a: nat :: StripsAt(s, e, a)
  }

  /** `strip` keeps one contiguous slice of its input and drops only strippable whitespace around it. */
  lemma StripIsStripOf(s: string)
    ensures IsStripOf(Strip(s), s)
  {
    var t := TrimStart(s);
    var r := TrimEnd(t);
    SliceStrips(s, t, r, |s| - |t|);
  }

  /** The slice an `lstrip` and then an `rstrip` keep, stated on the strings alone. */
  lemma SliceStrips(s: string, t: string, r: string, a: nat)
    requires a + |t| == |s| && t == s[a..]
    requires forall i :: 0 <= i < a ==> IsStripSpace(s[i])
    requires t == [] || !IsStripSpace(t[0])
    requires |r| <= |t| && r == t[..|r|]
    requires forall i :: |r| <= i < |t| ==> IsStripSpace(t[i])
    requires r == [] || !IsStripSpace(r[|r| - 1])
    ensures StripsAt(r, s, a)
  {
    var n := |r|;
    assert r == s[a..a + n];
    forall i | a + n <= i < |s| ensures IsStripSpace(s[i]) {
      assert s[i] == t[i - a];
    }
    if r != [] {
      assert r[0] == t[0];
    }
  }

  /** A string that starts and ends with a non-space character is its own strip. */
  lemma StripStripped(s: string)
    requires s == [] || (!IsStripSpace(s[0]) && !IsStripSpace(s[|s| - 1]))
    ensures Strip(s) == s
  {
  }

  /** Trailing whitespace adds no word. */
  lemma {:induction false} WordsTrailingSpace(s: string, trail: string)
    requires AllSpace(trail)
    ensures Words(s + trail) == Words(s)
    decreases |trail|
  {
    if trail == [] {
      assert s + trail == s;
    } else {
      var t := trail[..|trail| - 1];
      assert (s + trail)[..|s + trail| - 1] == s + t;
      WordsTrailingSpace(s, t);
    }
  }

  /** A word written right after whitespace (or at the start) becomes the last word. */
  lemma {:induction false} WordsEndWord(prefix: string, w: string)
    requires w != [] && NoSpace(w)
    requires prefix == [] || IsSpace(prefix[|prefix| - 1])
    ensures Words(prefix + w) != [] && Words(prefix + w)[|Words(prefix + w)| - 1] == w
    decreases |w|
  {
    var x := w[|w| - 1];
    var v := w[..|w| - 1];
    assert w == v + [x];
    assert prefix + w == (prefix + v) + [x];
    WordsSnoc(prefix + v, x);
    if v == [] {
      assert prefix + v == prefix;
    } else {
      WordsEndWord(prefix, v);
      assert (prefix + v)[|prefix + v| - 1] == v[|v| - 1];
    }
  }

  /** `Words` of a string with a known last character. */
  lemma WordsSnoc(t: string, x: char)
    ensures var ws := Words(t);
      Words(t + [x]) ==
        if IsSpace(x) then ws
        else if t != [] && !IsSpace(t[|t| - 1]) then ws[..|ws| - 1] + [ws[|ws| - 1] + [x]]
        else ws + [[x]]
  {
    assert (t + [x])[..|t + [x]| - 1] == t;
  }

  /** The word at the end of a string, after any prefix that ends in whitespace, is its last word. */
  lemma LastWordOf(prefix: string, w: string, trail: string)
    requires w != [] && NoSpace(w) && AllSpace(trail)
    requires prefix == [] || IsSpace(prefix[|prefix| - 1])
    ensures LastWord(prefix + w + trail) == Some(w)
  {
    WordsTrailingSpace(prefix + w, trail);
    WordsEndWord(prefix, w);
  }
}
