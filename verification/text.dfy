/** Character classes and the few Python `str` operations the scripts rely
    on: whitespace tests, `strip()`, `split()`-style whitespace removal,
    `split("//", 1)[0]`, `lower()` and hexadecimal digits. */
module Text {

  /** Python's `str.isspace()`: the set used by `\s` in a `str` regular
      expression, by `strip()` and by `split()` without arguments. */
  predicate IsSpace(c: char) {
    var n := c as int;
    n == 0x20 || 0x09 <= n <= 0x0D || 0x1C <= n <= 0x1F || n == 0x85 || n == 0xA0
    || n == 0x1680 || 0x2000 <= n <= 0x200A || n == 0x2028 || n == 0x2029
    || n == 0x202F || n == 0x205F || n == 0x3000
  }

  predicate AllSpace(s: string) {
    forall i :: 0 <= i < |s| ==> IsSpace(s[i])
  }

  /** The class `[0-9A-Fa-f]` of the dump-line pattern. */
  predicate IsHexDigit(c: char) {
    '0' <= c <= '9' || 'a' <= c <= 'f' || 'A' <= c <= 'F'
  }

  predicate AllHex(s: string) {
    forall i :: 0 <= i < |s| ==> IsHexDigit(s[i])
  }

  predicate HexOrSpace(s: string) {
    forall i :: 0 <= i < |s| ==> IsHexDigit(s[i]) || IsSpace(s[i])
  }

  predicate NoSlash(s: string) {
    forall i :: 0 <= i < |s| ==> s[i] != '/'
  }

  function HexValue(c: char): (v: nat)
    requires IsHexDigit(c)
    ensures v < 16
  {
    if '0' <= c <= '9' then c as int - '0' as int
    else if 'a' <= c <= 'f' then c as int - 'a' as int + 10
    else c as int - 'A' as int + 10
  }

  /** The lower-case digit Python's `x` format and `bytes.hex()` print. */
  function HexChar(v: nat): (c: char)
    requires v < 16
    ensures IsHexDigit(c) && HexValue(c) == v
    ensures !IsSpace(c) && c != '/' && c != '-'
  {
    if v < 10 then ('0' as int + v) as char else ('a' as int + v - 10) as char
  }

  /** `int(s, 16)` for a string of hex digits (the empty string reads as 0). */
  function ParseHex(s: string): nat
    requires AllHex(s)
  {
    if |s| == 0 then 0 else ParseHex(s[..|s| - 1]) * 16 + HexValue(s[|s| - 1])
  }

  /** `format(n, "x")`: the shortest lower-case hex spelling of `n`. */
  function HexDigits(n: nat): (s: string)
    ensures |s| >= 1 && AllHex(s) && NoSlash(s)
    ensures ParseHex(s) == n
  {
    if n < 16 then [HexChar(n)]
    else
      var s := HexDigits(n / 16) + [HexChar(n % 16)];
      assert s[..|s| - 1] == HexDigits(n / 16);
      s
  }

  function ZeroChars(k: nat): (s: string)
    ensures |s| == k && AllHex(s) && NoSlash(s)
  {
    seq(k, _ => '0')
  }

  lemma {:induction false} ParseHexOfZeros(k: nat)
    ensures ParseHex(ZeroChars(k)) == 0
  {
    if k > 0 {
      assert ZeroChars(k)[..k - 1] == ZeroChars(k - 1);
      ParseHexOfZeros(k - 1);
    }
  }

  /** Leading zeros do not change the value `int(s, 16)` reads. */
  lemma {:induction false} ParseHexLeadingZeros(k: nat, s: string)
    requires AllHex(s)
    ensures ParseHex(ZeroChars(k) + s) == ParseHex(s)
  {
    if |s| == 0 {
      assert ZeroChars(k) + s == ZeroChars(k);
      ParseHexOfZeros(k);
    } else {
      var t := ZeroChars(k) + s;
      assert t[..|t| - 1] == ZeroChars(k) + s[..|s| - 1];
      ParseHexLeadingZeros(k, s[..|s| - 1]);
    }
  }

  /** `format(n, "0{width}x")` for a non-negative `n`: zero-filled to at
      least `width` digits, never truncated. */
  function PadHex(n: nat, width: int): (s: string)
    ensures AllHex(s) && NoSlash(s) && |s| >= 1
    ensures |s| == if width > |HexDigits(n)| then width else |HexDigits(n)|
    ensures ParseHex(s) == n
  {
    var d := HexDigits(n);
    var z := if width > |d| then width - |d| else 0;
    ParseHexLeadingZeros(z, d);
    ZeroChars(z) + d
  }

  /** `format(x, "0{width}x")` for any integer: a negative number keeps its
      minus sign in front and the zero fill counts it in the width. */
  function FormatHex(x: int, width: nat): (s: string)
    ensures NoSlash(s) && |s| >= 1
  {
    if x < 0 then "-" + PadHex(-x, width - 1) else PadHex(x, width)
  }

  /** A non-negative number is spelled in at least `width` hex digits that
      `int(s, 16)` reads back; a negative one starts with its minus sign. */
  lemma FormatHexReadsBack(x: int, width: nat)
    ensures x >= 0 ==> AllHex(FormatHex(x, width)) && |FormatHex(x, width)| >= width
    ensures x >= 0 ==> ParseHex(FormatHex(x, width)) == x
    ensures x < 0 ==> FormatHex(x, width)[0] == '-'
  {
  }

  /** Python's `str.lower()` restricted to what decides a comparison with an
      ASCII word: `A`-`Z` and the Kelvin sign U+212A (which lowers to `k`)
      map to ASCII lower case; every other character is kept. */
  function LowerChar(c: char): (d: char)
    ensures 'A' <= c <= 'Z' ==> 'a' <= d <= 'z'
    ensures !('A' <= c <= 'Z') && c as int != 0x212A ==> d == c
  {
    if 'A' <= c <= 'Z' then (c as int - 'A' as int + 'a' as int) as char
    else if c as int == 0x212A then 'k'
    else c
  }

  function Lower(s: string): (r: string)
    ensures |r| == |s|
  {
    seq(|s|, i requires 0 <= i < |s| => LowerChar(s[i]))
  }

  /** Lower-case ASCII text is its own lower case. */
  lemma LowerOfLowerAscii(s: string)
    requires forall i :: 0 <= i < |s| ==> 'a' <= s[i] <= 'z'
    ensures Lower(s) == s
  {
  }

  /** A `//` starts at position `i` of `s`. */
  predicate SlashPairAt(s: string, i: nat)
    requires i + 1 < |s|
  {
    s[i] == '/' && s[i + 1] == '/'
  }

  /** `s.split("//", 1)[0]`: everything before the first `//`. */
  function BeforeComment(s: string): (r: string)
    ensures |r| <= |s| && r == s[..|r|]
    ensures forall i :: 0 <= i < |r| && i + 1 < |s| ==> !SlashPairAt(s, i)
    ensures |r| < |s| ==> |r| + 1 < |s| && SlashPairAt(s, |r|)
  {
    if |s| < 2 then s
    else if s[0] == '/' && s[1] == '/' then ""
    else
      var t := BeforeComment(s[1..]);
      assert forall i :: 1 <= i < |s| - 1 ==> SlashPairAt(s, i) == SlashPairAt(s[1..], i - 1);
      [s[0]] + t
  }

  /** A prefix without any slash cannot hold or start a `//`. */
  lemma {:induction false} BeforeCommentSkipsPrefix(p: string, t: string)
    requires NoSlash(p)
    ensures BeforeComment(p + t) == p + BeforeComment(t)
  {
    if |p| > 0 {
      assert (p + t)[1..] == p[1..] + t;
      BeforeCommentSkipsPrefix(p[1..], t);
      if |p + t| >= 2 {
        assert (p + t)[0] == p[0];
        assert BeforeComment(p + t) == [p[0]] + (p[1..] + BeforeComment(t));
        assert [p[0]] + (p[1..] + BeforeComment(t)) == p + BeforeComment(t);
      } else {
        assert t == [] && p + t == p;
      }
    } else {
      assert p + t == t;
    }
  }

  /** `lstrip()`: drops the leading whitespace. */
  function TrimLeft(s: string): (r: string)
    ensures |r| <= |s| && r == s[|s| - |r|..]
    ensures AllSpace(s[..|s| - |r|])
    ensures |r| > 0 ==> !IsSpace(r[0])
  {
    if |s| > 0 && IsSpace(s[0]) then TrimLeft(s[1..]) else s
  }

  /** `rstrip()`: drops the trailing whitespace. */
  function TrimRight(s: string): (r: string)
    ensures |r| <= |s| && r == s[..|r|]
    ensures AllSpace(s[|r|..])
    ensures |r| > 0 ==> !IsSpace(r[|r| - 1])
  {
    if |s| > 0 && IsSpace(s[|s| - 1]) then TrimRight(s[..|s| - 1]) else s
  }

  /** `strip()`. */
  function Strip(s: string): string {
    TrimRight(TrimLeft(s))
  }

  /** Stripping a word that starts and ends with non-space characters out of
      surrounding whitespace gives back the word. */
  lemma StripAround(a: string, core: string, b: string)
    requires AllSpace(a) && AllSpace(b)
    requires |core| > 0 && !IsSpace(core[0]) && !IsSpace(core[|core| - 1])
    ensures Strip(a + core + b) == core
  {
    assert a + core + b == a + (core + b);
    TrimLeftAround(a, core + b);
    TrimRightAround(core, b);
  }

  lemma {:induction false} TrimLeftAround(a: string, t: string)
    requires AllSpace(a) && |t| > 0 && !IsSpace(t[0])
    ensures TrimLeft(a + t) == t
  {
    if |a| > 0 {
      assert (a + t)[1..] == a[1..] + t;
      TrimLeftAround(a[1..], t);
    } else {
      assert a + t == t;
    }
  }

  lemma {:induction false} TrimRightAround(t: string, b: string)
    requires AllSpace(b) && |t| > 0 && !IsSpace(t[|t| - 1])
    ensures TrimRight(t + b) == t
  {
    if |b| > 0 {
      assert (t + b)[..|t + b| - 1] == t + b[..|b| - 1];
      TrimRightAround(t, b[..|b| - 1]);
    } else {
      assert t + b == t;
    }
  }

  lemma NoSlashAppend(a: string, b: string)
    requires NoSlash(a) && NoSlash(b)
    ensures NoSlash(a + b)
  {
    assert forall i :: 0 <= i < |a + b| ==> (a + b)[i] == if i < |a| then a[i] else b[i - |a|];
  }

  lemma SpaceIsNoSlash(s: string)
    requires AllSpace(s)
    ensures NoSlash(s)
  {
  }

  /** Only the two spaces in front of a `//` survive the comment cut. */
  lemma BeforeCommentMarker(tail: string)
    requires |tail| >= 4 && tail[..4] == "  //"
    ensures BeforeComment(tail) == "  "
  {
    assert tail[0] == ' ' && tail[1] == ' ' && tail[2] == '/' && tail[3] == '/';
    assert BeforeComment(tail[2..]) == "";
    assert BeforeComment(tail[1..]) == [' '] + BeforeComment(tail[2..]);
  }

  /** A line made of leading whitespace, a slash-free word and either nothing
      or a `  //` comment is cut and stripped down to the word. */
  lemma CutAndStripWord(lead: string, word: string, tail: string)
    requires AllSpace(lead) && NoSlash(word)
    requires |word| > 0 && !IsSpace(word[0]) && !IsSpace(word[|word| - 1])
    requires tail == "" || (|tail| >= 4 && tail[..4] == "  //")
    ensures Strip(BeforeComment(lead + word + tail)) == word
  {
    SpaceIsNoSlash(lead);
    NoSlashAppend(lead, word);
    BeforeCommentSkipsPrefix(lead + word, tail);
    var trailing := BeforeComment(tail);
    if tail != "" {
      BeforeCommentMarker(tail);
    }
    assert AllSpace(trailing);
    StripAround(lead, word, trailing);
  }

  /** `"".join(s.split())`: the string with every whitespace character removed. */
  function RemoveSpaces(s: string): (r: string)
    ensures |r| <= |s|
    ensures forall i :: 0 <= i < |r| ==> !IsSpace(r[i])
    ensures HexOrSpace(s) ==> AllHex(r)
  {
    if |s| == 0 then ""
    else if IsSpace(s[0]) then RemoveSpaces(s[1..])
    else [s[0]] + RemoveSpaces(s[1..])
  }

  lemma {:induction false} RemoveSpacesAppend(a: string, b: string)
    ensures RemoveSpaces(a + b) == RemoveSpaces(a) + RemoveSpaces(b)
  {
    if |a| > 0 {
      assert (a + b)[1..] == a[1..] + b;
      RemoveSpacesAppend(a[1..], b);
    } else {
      assert a + b == b;
    }
  }

  lemma {:induction false} RemoveSpacesKeeps(s: string)
    requires forall i :: 0 <= i < |s| ==> !IsSpace(s[i])
    ensures RemoveSpaces(s) == s
  {
    if |s| > 0 {
      RemoveSpacesKeeps(s[1..]);
    }
  }

  lemma {:induction false} RemoveSpacesDrops(s: string)
    requires AllSpace(s)
    ensures RemoveSpaces(s) == ""
  {
    if |s| > 0 {
      RemoveSpacesDrops(s[1..]);
    }
  }

  /** The line boundaries of Python's `str.splitlines()`. */
  predicate IsLineBreak(c: char) {
    var n := c as int;
    0x0A <= n <= 0x0D || 0x1C <= n <= 0x1E || n == 0x85 || n == 0x2028 || n == 0x2029
  }

  predicate NoLineBreak(s: string) {
    forall i :: 0 <= i < |s| ==> !IsLineBreak(s[i])
  }

  /** The position of the first line boundary, or `|s|` when there is none. */
  function FirstBreak(s: string): (k: nat)
    ensures k <= |s| && (k < |s| ==> IsLineBreak(s[k]))
    ensures forall i :: 0 <= i < k ==> !IsLineBreak(s[i])
  {
    if |s| == 0 || IsLineBreak(s[0]) then 0 else 1 + FirstBreak(s[1..])
  }

  lemma NoLineBreakJoin(a: string, b: string)
    requires NoLineBreak(a) && NoLineBreak(b)
    ensures NoLineBreak(a + b)
  {
    forall i | 0 <= i < |a + b|
      ensures !IsLineBreak((a + b)[i])
    {
      if i >= |a| {
        assert (a + b)[i] == b[i - |a|];
      }
    }
  }

  /** Hex digits and the spelling of an address hold no boundary. */
  lemma FormatHexNoBreak(x: int, width: nat)
    ensures NoLineBreak(FormatHex(x, width))
  {
    var s := FormatHex(x, width);
    forall i | 0 <= i < |s|
      ensures !IsLineBreak(s[i])
    {
      if x < 0 {
        assert i == 0 || IsHexDigit(s[i]);
      } else {
        assert IsHexDigit(s[i]);
      }
    }
  }

  /** `str.splitlines()`: the text cut at every boundary, `\r\n` counting as
      one; the boundaries are dropped, and a boundary at the very end does
      not start another line. */
  function SplitLines(s: string): (lines: seq<string>)
    ensures forall k :: 0 <= k < |lines| ==> NoLineBreak(lines[k])
    decreases |s|
  {
    if |s| == 0 then []
    else
      var k := FirstBreak(s);
      if k == |s| then [s]
      else
        var skip := if s[k] == '\r' && k + 1 < |s| && s[k + 1] == '\n' then 2 else 1;
        [s[..k]] + SplitLines(s[k + skip..])
  }

  /** The text of a file written one `line + "\n"` at a time. */
  function WriteLines(lines: seq<string>): string {
    if |lines| == 0 then "" else lines[0] + "\n" + WriteLines(lines[1..])
  }

  /** Lines free of boundaries come back from the written text unchanged. */
  lemma {:induction false} SplitWrittenLines(lines: seq<string>)
    requires forall k :: 0 <= k < |lines| ==> NoLineBreak(lines[k])
    ensures SplitLines(WriteLines(lines)) == lines
  {
    if |lines| > 0 {
      var l := lines[0];
      var rest := WriteLines(lines[1..]);
      var s := l + "\n" + rest;
      assert s == WriteLines(lines);
      var k := FirstBreak(s);
      assert s[|l|] == '\n';
      assert k == |l|;
      assert s[..k] == l;
      assert s[k + 1..] == rest;
      SplitWrittenLines(lines[1..]);
    }
  }

  /** A line holding a boundary comes back as two. */
  lemma BrokenLineSplits()
    ensures SplitLines(WriteLines(["a\nb"])) == ["a", "b"]
  {
    var s := WriteLines(["a\nb"]);
    assert s == "a\nb\n";
    assert FirstBreak(s) == 1;
    assert s[..1] == "a" && s[2..] == "b\n";
    assert FirstBreak("b\n") == 1;
    assert "b\n"[..1] == "b" && "b\n"[2..] == "";
  }
}
