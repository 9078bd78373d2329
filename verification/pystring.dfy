/** The few Python `str` built-ins the ingestion path relies on: `isspace`,
    `strip`, `lower`, `endswith` and `join`, over strings as sequences of
    Unicode scalar values. */
module PyString {

  /** Python's `str.isspace()` for one character: the ASCII separators
      U+0009-U+000D and U+001C-U+0020, and the Unicode spaces Python counts. */
  predicate IsSpace(c: char) {
    || ('\t' <= c <= '\r')
    || ('\U{1C}' <= c <= ' ')
    || c == '\U{85}' || c == '\U{A0}' || c == '\U{1680}'
    || ('\U{2000}' <= c <= '\U{200A}')
    || c == '\U{2028}' || c == '\U{2029}' || c == '\U{202F}' || c == '\U{205F}'
    || c == '\U{3000}'
  }

  predicate AllSpace(s: string) {
    forall k :: 0 <= k < |s| ==> IsSpace(s[k])
  }

  /** `str.lstrip()`: drops whitespace from the front. */
  function LStrip(s: string): string {
    if s != [] && IsSpace(s[0]) then LStrip(s[1..]) else s
  }

  /** `str.rstrip()`: drops whitespace from the back. */
  function RStrip(s: string): string {
    if s != [] && IsSpace(s[|s| - 1]) then RStrip(s[..|s| - 1]) else s
  }

  /** `str.strip()` with no argument. */
  function Strip(s: string): string {
    RStrip(LStrip(s))
  }

  lemma AllSpaceConcat(s: string, t: string)
    requires AllSpace(s) && AllSpace(t)
    ensures AllSpace(s + t)
  {
  }

  /** `lstrip()` keeps a suffix, removes only whitespace, and stops at the
      first character that is not whitespace. */
  lemma {:induction false} LStripShape(s: string)
    ensures var r := LStrip(s);
      && |r| <= |s| && r == s[|s| - |r|..]
      && AllSpace(s[..|s| - |r|])
      && (r != [] ==> !IsSpace(r[0]))
  {
    if s != [] && IsSpace(s[0]) {
      LStripShape(s[1..]);
      var r := LStrip(s);
      assert s[..|s| - |r|] == [s[0]] + s[1..][..|s| - 1 - |r|];
    }
  }

  /** `rstrip()` keeps a prefix, removes only whitespace, and stops at the
      last character that is not whitespace. */
  lemma {:induction false} RStripShape(s: string)
    ensures var r := RStrip(s);
      && |r| <= |s| && r == s[..|r|]
      && AllSpace(s[|r|..])
      && (r != [] ==> !IsSpace(r[|r| - 1]))
  {
    if s != [] && IsSpace(s[|s| - 1]) {
      var init := s[..|s| - 1];
      RStripShape(init);
      var r := RStrip(s);
      assert s[|r|..] == init[|r|..] + [s[|s| - 1]];
    }
  }

  /** What `strip()` promises: it only shortens, the result neither starts
      nor ends with whitespace, and it is empty exactly for all-whitespace
      input. */
  lemma StripShape(s: string)
    ensures var r := Strip(s);
      && |r| <= |s|
      && (r != [] ==> !IsSpace(r[0]) && !IsSpace(r[|r| - 1]))
      && (r == [] <==> AllSpace(s))
  {
    var l := LStrip(s);
    LStripShape(s);
    RStripShape(l);
    var r := RStrip(l);
    if r == [] {
      assert AllSpace(l) by {
        assert l[|r|..] == l;
      }
      assert s == s[..|s| - |l|] + l;
    } else {
      assert r[0] == l[0];
    }
  }

  /** Appending text to a string whose left-strip is non-empty does not
      change where the left-strip starts. */
  lemma {:induction false} LStripConcat(s: string, t: string)
    ensures LStrip(s + t) == if LStrip(s) == [] then LStrip(t) else LStrip(s) + t
  {
    if s == [] {
      assert s + t == t;
    } else if IsSpace(s[0]) {
      assert (s + t)[1..] == s[1..] + t;
      LStripConcat(s[1..], t);
    }
  }

  /** Trailing whitespace never survives `strip()`: `(s + w).strip() == s.strip()`
      for every all-whitespace `w`. */
  lemma {:induction false} StripIgnoresTrailingSpace(s: string, w: string)
    requires AllSpace(w)
    ensures Strip(s + w) == Strip(s)
  {
    LStripConcat(s, w);
    var l := LStrip(s);
    if l == [] {
      LStripShape(w);
      assert LStrip(w) == [];
    } else {
      RStripAppendSpace(l, w);
    }
  }

  lemma {:induction false} RStripAppendSpace(s: string, w: string)
    requires AllSpace(w)
    ensures RStrip(s + w) == RStrip(s)
    decreases |w|
  {
    if w == [] {
      assert s + w == s;
    } else {
      var u := s + w;
      assert u[..|u| - 1] == s + w[..|w| - 1];
      RStripAppendSpace(s, w[..|w| - 1]);
    }
  }

  /** Python's `str.lower()` restricted to ASCII letters; every other
      character is left as it is. */
  function LowerChar(c: char): char
  {
    if 'A' <= c <= 'Z' then (c as int + 32) as char else c
  }

  function Lower(s: string): string
  {
    if s == [] then [] else [LowerChar(s[0])] + Lower(s[1..])
  }

  /** `lower()` keeps the length and maps every character in place. */
  lemma {:induction false} LowerShape(s: string)
    ensures |Lower(s)| == |s|
    ensures forall i :: 0 <= i < |s| ==> Lower(s)[i] == LowerChar(s[i])
  {
    if s != [] {
      LowerShape(s[1..]);
    }
  }

  /** `str.endswith(suffix)`. */
  predicate EndsWith(s: string, suffix: string) {
    |suffix| <= |s| && s[|s| - |suffix|..] == suffix
  }

  /** `sep.join(parts)`. */
  function Join(sep: string, parts: seq<string>): string
  {
    if |parts| <= 1 then (if parts == [] then "" else parts[0])
    else Join(sep, parts[..|parts| - 1]) + sep + parts[|parts| - 1]
  }
}
