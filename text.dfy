/** The few Python string built-ins the classifier and the line filters rely on:
    `in` on strings, `upper()`, `strip()`, `split()`, `split('\n')`, slicing with
    `[:n]` and `isalpha()`. Characters are Unicode scalar values. */
module Text {

  /** The characters Python's `str.isspace()` accepts; `strip()` and `split()`
      without arguments treat exactly these as whitespace. */
  const SpaceChars: set<char> := {
    '\t', '\n', '\U{0B}', '\U{0C}', '\r', '\U{1C}', '\U{1D}', '\U{1E}', '\U{1F}', ' ',
    '\U{85}', '\U{A0}', '\U{1680}',
    '\U{2000}', '\U{2001}', '\U{2002}', '\U{2003}', '\U{2004}', '\U{2005}', '\U{2006}',
    '\U{2007}', '\U{2008}', '\U{2009}', '\U{200A}',
    '\U{2028}', '\U{2029}', '\U{202F}', '\U{205F}', '\U{3000}'
  }

  predicate IsSpace(c: char) {
    c in SpaceChars
  }

  /** `c.isalpha()`, restricted to ASCII and Latin-1 letters. */
  predicate IsAlpha(c: char) {
    || ('A' <= c <= 'Z') || ('a' <= c <= 'z')
    || c == '\U{AA}' || c == '\U{B5}' || c == '\U{BA}'
    || ('\U{C0}' <= c <= '\U{D6}') || ('\U{D8}' <= c <= '\U{F6}') || ('\U{F8}' <= c <= '\U{FF}')
  }

  /** `any(c.isalpha() for c in s)` */
  predicate HasAlpha(s: string) {
    exists i :: 0 <= i < |s| && IsAlpha(s[i])
  }

  predicate AllSpace(s: string) {
    forall i :: 0 <= i < |s| ==> IsSpace(s[i])
  }

  predicate NoSpace(s: string) {
    forall i :: 0 <= i < |s| ==> !IsSpace(s[i])
  }

  /** `needle in haystack`: the needle occurs at some offset of the haystack. */
  predicate Contains(haystack: string, needle: string)
    decreases |haystack|
  {
    needle <= haystack || (haystack != [] && Contains(haystack[1..], needle))
  }

  /** Containment is an occurrence at some position. */
  lemma {:induction false} ContainsAt(haystack: string, needle: string)
    ensures Contains(haystack, needle) <==> exists i :: 0 <= i <= |haystack| && needle <= haystack[i..]
    decreases |haystack|
  {
    if haystack != [] {
      ContainsAt(haystack[1..], needle);
      if exists i :: 0 <= i <= |haystack| && needle <= haystack[i..] {
        var i :| 0 <= i <= |haystack| && needle <= haystack[i..];
        if i > 0 {
          assert haystack[1..][i - 1..] == haystack[i..];
        }
      }
      if Contains(haystack[1..], needle) {
        var i :| 0 <= i <= |haystack[1..]| && needle <= haystack[1..][i..];
        assert haystack[1..][i..] == haystack[i + 1..];
      }
    } else {
      assert haystack[0..] == haystack;
    }
  }

  /** Upper-casing of one character (ASCII letters only). */
  function UpperChar(c: char): (u: char)
    ensures 'a' <= c <= 'z' ==> 'A' <= u <= 'Z' && u as int == c as int - 32
    ensures !('a' <= c <= 'z') ==> u == c
  {
    if 'a' <= c <= 'z' then (c as int - 32) as char else c
  }

  /** `s.upper()`, restricted to ASCII: each lower-case ASCII letter becomes its
      upper-case letter and every other character is kept, so the length is kept.
      Python's `upper()` also maps non-ASCII letters, some to several characters. */
  function Upper(s: string): (r: string)
    ensures |r| == |s|
    ensures forall i :: 0 <= i < |s| ==> r[i] == UpperChar(s[i])
  {
    seq(|s|, i requires 0 <= i < |s| => UpperChar(s[i]))
  }

  /** Upper-casing twice is upper-casing once. */
  lemma UpperIdempotent(s: string)
    ensures Upper(Upper(s)) == Upper(s)
  {
  }

  /** A needle that upper-casing leaves unchanged, found in the text, is also found
      in the upper-cased text: matching upper-case patterns against `upper()`
      loses no verbatim occurrence. */
  lemma UpperKeepsOccurrence(haystack: string, needle: string)
    requires Upper(needle) == needle
    requires Contains(haystack, needle)
    ensures Contains(Upper(haystack), needle)
  {
    ContainsAt(haystack, needle);
    var i :| 0 <= i <= |haystack| && needle <= haystack[i..];
    assert needle <= Upper(haystack)[i..] by {
      forall k | 0 <= k < |needle|
        ensures Upper(haystack)[i + k] == needle[k]
      {
        assert haystack[i + k] == needle[k];
        assert Upper(needle)[k] == UpperChar(needle[k]);
      }
    }
    ContainsAt(Upper(haystack), needle);
  }

  /** `s[:n]`: the first n characters, or all of s when it is shorter. */
  function Prefix(s: string, n: nat): (r: string)
    ensures r <= s
    ensures |r| <= n
    ensures |s| <= n ==> r == s
    ensures n <= |s| ==> |r| == n
  {
    if |s| <= n then s else s[..n]
  }

  /** Number of leading whitespace characters of s. */
  function LeadingSpaces(s: string): (n: nat)
    ensures n <= |s|
    ensures n < |s| ==> !IsSpace(s[n])
  {
    if s != [] && IsSpace(s[0]) then 1 + LeadingSpaces(s[1..]) else 0
  }

  /** The leading whitespace is whitespace. */
  lemma {:induction false} LeadingSpacesAreSpace(s: string)
    ensures AllSpace(s[..LeadingSpaces(s)])
  {
    if s != [] && IsSpace(s[0]) {
      LeadingSpacesAreSpace(s[1..]);
      assert s[..LeadingSpaces(s)] == [s[0]] + s[1..][..LeadingSpaces(s[1..])];
    }
  }

  /** Length of s once trailing whitespace is dropped. */
  function TrimmedEnd(s: string): (n: nat)
    ensures n <= |s|
    ensures 0 < n ==> !IsSpace(s[n - 1])
  {
    if s != [] && IsSpace(s[|s| - 1]) then TrimmedEnd(s[..|s| - 1]) else |s|
  }

  /** The trailing whitespace is whitespace. */
  lemma {:induction false} TrailingSpacesAreSpace(s: string)
    ensures AllSpace(s[TrimmedEnd(s)..])
  {
    if s != [] && IsSpace(s[|s| - 1]) {
      var n := TrimmedEnd(s);
      TrailingSpacesAreSpace(s[..|s| - 1]);
      assert s[n..] == s[..|s| - 1][n..] + [s[|s| - 1]];
    }
  }

  /** `s.lstrip()`: s without its leading whitespace. */
  function TrimStart(s: string): (r: string)
  {
    if s != [] && IsSpace(s[0]) then TrimStart(s[1..]) else s
  }

  /** `s.rstrip()`: s without its trailing whitespace. */
  function TrimEnd(s: string): (r: string)
  {
    if s != [] && IsSpace(s[|s| - 1]) then TrimEnd(s[..|s| - 1]) else s
  }

  /** `s.strip()`: s with its leading and trailing whitespace removed. */
  function Strip(s: string): (r: string)
  {
    TrimEnd(TrimStart(s))
  }

  /** `lstrip` drops exactly the leading whitespace. */
  lemma {:induction false} TrimStartDrops(s: string)
    ensures TrimStart(s) == s[LeadingSpaces(s)..]
  {
    if s != [] && IsSpace(s[0]) {
      TrimStartDrops(s[1..]);
      assert s[1..][LeadingSpaces(s[1..])..] == s[LeadingSpaces(s)..];
    }
  }

  /** `rstrip` keeps exactly the part before the trailing whitespace. */
  lemma {:induction false} TrimEndKeeps(s: string)
    ensures TrimEnd(s) == s[..TrimmedEnd(s)]
  {
    if s != [] && IsSpace(s[|s| - 1]) {
      TrimEndKeeps(s[..|s| - 1]);
      assert s[..|s| - 1][..TrimmedEnd(s)] == s[..TrimmedEnd(s)];
    }
  }

  /** The stripped string is the slice of s that starts after the leading
      whitespace and ends before the trailing whitespace. */
  lemma StripSlice(s: string)
    ensures Strip(s) == s[LeadingSpaces(s)..][..TrimmedEnd(s[LeadingSpaces(s)..])]
  {
    TrimStartDrops(s);
    TrimEndKeeps(s[LeadingSpaces(s)..]);
  }

  /** The stripped string neither starts nor ends with whitespace. */
  lemma StripEnds(s: string)
    ensures Strip(s) != [] ==> !IsSpace(Strip(s)[0]) && !IsSpace(Strip(s)[|Strip(s)| - 1])
  {
    var t := s[LeadingSpaces(s)..];
    StripSlice(s);
    if TrimmedEnd(t) > 0 {
      assert Strip(s)[0] == t[0];
    }
  }

  /** The stripped string lies at offset `LeadingSpaces(s)` of s. */
  lemma StripOffset(s: string)
    ensures LeadingSpaces(s) + |Strip(s)| <= |s|
    ensures Strip(s) == s[LeadingSpaces(s)..LeadingSpaces(s) + |Strip(s)|]
  {
    var i := LeadingSpaces(s);
    var t := s[i..];
    StripSlice(s);
    assert |Strip(s)| == TrimmedEnd(t);
  }

  /** The stripped string is the slice of s that starts after the leading
      whitespace; what precedes and what follows it is whitespace, and it
      neither starts nor ends with whitespace. */
  lemma StripSpec(s: string)
    ensures LeadingSpaces(s) + |Strip(s)| <= |s|
    ensures Strip(s) == s[LeadingSpaces(s)..LeadingSpaces(s) + |Strip(s)|]
    ensures AllSpace(s[..LeadingSpaces(s)]) && AllSpace(s[LeadingSpaces(s) + |Strip(s)|..])
    ensures Strip(s) != [] ==> !IsSpace(Strip(s)[0]) && !IsSpace(Strip(s)[|Strip(s)| - 1])
  {
    var i := LeadingSpaces(s);
    var t := s[i..];
    var n := TrimmedEnd(t);
    StripSlice(s);
    StripOffset(s);
    StripEnds(s);
    LeadingSpacesAreSpace(s);
    TrailingSpacesAreSpace(t);
    assert |Strip(s)| == n;
    assert s[i + n..] == t[n..];
  }

  /** A string that neither starts nor ends with whitespace is its own `strip()`. */
  lemma StripOfTrimmed(s: string)
    requires s != [] ==> !IsSpace(s[0]) && !IsSpace(s[|s| - 1])
    ensures Strip(s) == s
  {
    assert TrimStart(s) == s;
  }

  /** `strip()` is idempotent. */
  lemma StripIdempotent(s: string)
    ensures Strip(Strip(s)) == Strip(s)
  {
    StripSpec(s);
    StripOfTrimmed(Strip(s));
  }

  /** Length of the word s starts with: the characters before its first whitespace. */
  function WordLength(s: string): (n: nat)
    ensures n <= |s|
    ensures n < |s| ==> IsSpace(s[n])
    ensures s != [] && !IsSpace(s[0]) ==> n >= 1
  {
    if s != [] && !IsSpace(s[0]) then 1 + WordLength(s[1..]) else 0
  }

  /** The word holds no whitespace. */
  lemma {:induction false} WordHasNoSpace(s: string)
    ensures NoSpace(s[..WordLength(s)])
  {
    if s != [] && !IsSpace(s[0]) {
      WordHasNoSpace(s[1..]);
      assert s[..WordLength(s)] == [s[0]] + s[1..][..WordLength(s[1..])];
    }
  }

  /** `s.split()`: the maximal runs of non-whitespace characters, in order. */
  function Split(s: string): (words: seq<string>)
    decreases |s|
  {
    var t := s[LeadingSpaces(s)..];
    if t == [] then []
    else
      var n := WordLength(t);
      [t[..n]] + Split(t[n..])
  }

  /** The words are non-empty and hold no whitespace. */
  lemma {:induction false} SplitWords(s: string)
    ensures forall k :: 0 <= k < |Split(s)| ==> Split(s)[k] != [] && NoSpace(Split(s)[k])
    decreases |s|
  {
    var t := s[LeadingSpaces(s)..];
    if t != [] {
      var n := WordLength(t);
      WordHasNoSpace(t);
      SplitWords(t[n..]);
      assert Split(s) == [t[..n]] + Split(t[n..]);
    }
  }

  /** The non-whitespace characters of s, in order. */
  function NonSpace(s: string): (r: string) {
    if s == [] then []
    else (if IsSpace(s[0]) then [] else [s[0]]) + NonSpace(s[1..])
  }

  function Concat(words: seq<string>): (r: string) {
    if words == [] then [] else words[0] + Concat(words[1..])
  }

  lemma {:induction false} NonSpaceAppend(a: string, b: string)
    ensures NonSpace(a + b) == NonSpace(a) + NonSpace(b)
    decreases |a|
  {
    if a != [] {
      assert (a + b)[1..] == a[1..] + b;
      NonSpaceAppend(a[1..], b);
    } else {
      assert a + b == b;
    }
  }

  lemma {:induction false} NonSpaceOfSpaces(s: string)
    requires AllSpace(s)
    ensures NonSpace(s) == []
    decreases |s|
  {
    if s != [] {
      NonSpaceOfSpaces(s[1..]);
    }
  }

  lemma {:induction false} NonSpaceOfWord(s: string)
    requires NoSpace(s)
    ensures NonSpace(s) == s
    decreases |s|
  {
    if s != [] {
      NonSpaceOfWord(s[1..]);
      assert s == [s[0]] + s[1..];
    }
  }

  /** Splitting loses nothing but whitespace: joined back together, the words
      are exactly the non-whitespace characters of s. */
  lemma {:induction false} SplitKeepsNonSpace(s: string)
    ensures Concat(Split(s)) == NonSpace(s)
    decreases |s|
  {
    var i := LeadingSpaces(s);
    var t := s[i..];
    assert s == s[..i] + t;
    LeadingSpacesAreSpace(s);
    NonSpaceAppend(s[..i], t);
    NonSpaceOfSpaces(s[..i]);
    if t != [] {
      var n := WordLength(t);
      WordHasNoSpace(t);
      assert t == t[..n] + t[n..];
      NonSpaceAppend(t[..n], t[n..]);
      NonSpaceOfWord(t[..n]);
      SplitKeepsNonSpace(t[n..]);
      assert Split(s) == [t[..n]] + Split(t[n..]);
    }
  }

  /** A string has no words exactly when it is all whitespace. */
  lemma SplitEmpty(s: string)
    ensures Split(s) == [] <==> AllSpace(s)
  {
    if AllSpace(s) {
      assert LeadingSpaces(s) == |s|;
    } else {
      LeadingSpacesAreSpace(s);
      assert !AllSpace(s[..|s|]) by { assert s[..|s|] == s; }
    }
  }

  /** The whitespace runs around the words of `s.split()`: the one before the first
      word, one between each two words, and the one after the last word. */
  function Gaps(s: string): (gaps: seq<string>)
    decreases |s|
  {
    var i := LeadingSpaces(s);
    var t := s[i..];
    if t == [] then [s]
    else [s[..i]] + Gaps(t[WordLength(t)..])
  }

  /** gaps[0] + words[0] + gaps[1] + ... + words[k-1] + gaps[k] */
  function Weave(gaps: seq<string>, words: seq<string>): (r: string)
    requires |gaps| == |words| + 1
    decreases |words|
  {
    if words == [] then gaps[0] else gaps[0] + words[0] + Weave(gaps[1..], words[1..])
  }

  /** One gap per word, plus one; all of them whitespace. */
  lemma {:induction false} GapsAreSpace(s: string)
    ensures |Gaps(s)| == |Split(s)| + 1
    ensures forall k :: 0 <= k < |Gaps(s)| ==> AllSpace(Gaps(s)[k])
    decreases |s|
  {
    var i := LeadingSpaces(s);
    var t := s[i..];
    LeadingSpacesAreSpace(s);
    if t == [] {
      assert s[..i] == s;
    } else {
      var rest := t[WordLength(t)..];
      GapsAreSpace(rest);
      assert Split(s) == [t[..WordLength(t)]] + Split(rest);
      assert Gaps(s) == [s[..i]] + Gaps(rest);
    }
  }

  /** The gap after a word that another word follows is not empty. */
  lemma {:induction false} InnerGapsNonEmpty(s: string)
    requires |Gaps(s)| == |Split(s)| + 1
    ensures forall k :: 0 < k < |Split(s)| ==> Gaps(s)[k] != []
    decreases |s|
  {
    var t := s[LeadingSpaces(s)..];
    if t != [] {
      var n := WordLength(t);
      var rest := t[n..];
      var words, gaps := Split(rest), Gaps(rest);
      assert Split(s) == [t[..n]] + words;
      assert Gaps(s) == [s[..LeadingSpaces(s)]] + gaps;
      InnerGapsNonEmpty(rest);
      if words != [] {
        assert rest != [];
        assert IsSpace(rest[0]);
        assert gaps[0] == rest[..LeadingSpaces(rest)];
      }
      forall k | 0 < k < |Split(s)|
        ensures Gaps(s)[k] != []
      {
        assert Gaps(s)[k] == gaps[k - 1];
      }
    }
  }

  /** One step of `Weave`: the first gap and word come first. */
  lemma WeaveCons(g: string, w: string, gaps: seq<string>, words: seq<string>)
    requires |gaps| == |words| + 1
    ensures Weave([g] + gaps, [w] + words) == g + (w + Weave(gaps, words))
  {
    assert ([g] + gaps)[1..] == gaps;
    assert ([w] + words)[1..] == words;
  }

  /** Weaving the gaps and the words back together gives the text. */
  lemma {:induction false} WeaveGaps(s: string)
    requires |Gaps(s)| == |Split(s)| + 1
    ensures s == Weave(Gaps(s), Split(s))
    decreases |s|
  {
    var i := LeadingSpaces(s);
    var t := s[i..];
    if t == [] {
      assert s[..i] == s;
    } else {
      var n := WordLength(t);
      var rest := t[n..];
      var words, gaps := Split(rest), Gaps(rest);
      assert Split(s) == [t[..n]] + words;
      assert Gaps(s) == [s[..i]] + gaps;
      WeaveGaps(rest);
      WeaveCons(s[..i], t[..n], gaps, words);
      assert s == s[..i] + (t[..n] + rest) by {
        assert t == t[..n] + rest;
      }
    }
  }

  /** The text is its words separated by whitespace: every gap is whitespace and
      the gaps between two words are not empty. With `SplitWords` this fixes the
      words, and so their number, as the maximal runs of non-whitespace. */
  lemma SplitGaps(s: string)
    ensures |Gaps(s)| == |Split(s)| + 1
    ensures forall k :: 0 <= k < |Gaps(s)| ==> AllSpace(Gaps(s)[k])
    ensures forall k :: 0 < k < |Split(s)| ==> Gaps(s)[k] != []
    ensures s == Weave(Gaps(s), Split(s))
  {
    GapsAreSpace(s);
    InnerGapsNonEmpty(s);
    WeaveGaps(s);
  }

  /** `s.split('\n')`: the pieces between newlines; always at least one piece. */
  function SplitLines(s: string): (lines: seq<string>)
    ensures |lines| >= 1
    decreases |s|
  {
    if s == [] then [""]
    else
      var rest := SplitLines(s[1..]);
      if s[0] == '\n' then [""] + rest
      else [[s[0]] + rest[0]] + rest[1..]
  }

  /** No piece holds a newline. */
  lemma {:induction false} SplitLinesNoNewline(s: string)
    ensures forall k :: 0 <= k < |SplitLines(s)| ==> '\n' !in SplitLines(s)[k]
    decreases |s|
  {
    if s != [] {
      var rest := SplitLines(s[1..]);
      SplitLinesNoNewline(s[1..]);
      var lines := SplitLines(s);
      if s[0] == '\n' {
        assert forall k :: 1 <= k < |lines| ==> lines[k] == rest[k - 1];
      } else {
        assert lines[0] == [s[0]] + rest[0];
        assert forall k :: 1 <= k < |lines| ==> lines[k] == rest[k];
      }
    }
  }

  /** `'\n'.join(lines)` */
  function JoinLines(lines: seq<string>): (r: string)
    requires |lines| >= 1
  {
    if |lines| == 1 then lines[0] else lines[0] + "\n" + JoinLines(lines[1..])
  }

  /** Splitting on newlines and joining the pieces back gives the original text. */
  lemma {:induction false} JoinSplitLines(s: string)
    ensures JoinLines(SplitLines(s)) == s
    decreases |s|
  {
    if s != [] {
      var rest := SplitLines(s[1..]);
      JoinSplitLines(s[1..]);
      if s[0] == '\n' {
        assert SplitLines(s)[1..] == rest;
      } else {
        var lines := SplitLines(s);
        assert lines[0] == [s[0]] + rest[0];
        if |rest| == 1 {
          assert s == [s[0]] + s[1..];
        } else {
          assert lines[1..] == rest[1..];
          assert JoinLines(rest) == rest[0] + "\n" + JoinLines(rest[1..]);
          assert s == [s[0]] + s[1..];
        }
      }
    }
  }
}
