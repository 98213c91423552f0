/** What the dump readers recover from the dump writers' lines: the exact
    bytes when the data fills whole lines, and otherwise the final partial
    line's bytes moved to the high end of that line, behind zeros. */
module HexRoundTrip {
  import opened Text
  import opened Bytes
  import opened Results
  import opened HexDecode
  import opened HexEncode
  import opened Arith

  /** The memory image the writers actually describe: `raw` cut into
      `w`-byte lines whose last, short line is zero-filled at its front. */
  function FrontPadTail(raw: seq<Byte>, w: nat): (p: seq<Byte>)
    requires w > 0
    ensures |raw| <= |p| < |raw| + w
    decreases |raw|
  {
    if |raw| == 0 then []
    else if |raw| <= w then ZeroBytes(w - |raw|) + raw
    else raw[..w] + FrontPadTail(raw[w..], w)
  }

  /** The padded image fills whole lines, and data that already fills whole
      lines is left as it is. */
  lemma FrontPadTailAligned(raw: seq<Byte>, w: nat)
    requires w > 0
    ensures |FrontPadTail(raw, w)| % w == 0
    ensures |raw| % w == 0 ==> FrontPadTail(raw, w) == raw
  {
    FrontPadTailWhole(raw, w);
    if |raw| % w == 0 {
      FrontPadTailKeeps(raw, w);
    }
  }

  lemma {:induction false} FrontPadTailWhole(raw: seq<Byte>, w: nat)
    requires w > 0
    ensures |FrontPadTail(raw, w)| % w == 0
    decreases |raw|
  {
    var p := FrontPadTail(raw, w);
    if |raw| > w {
      FrontPadTailWhole(raw[w..], w);
      assert |p| == |FrontPadTail(raw[w..], w)| + w;
      ModShift(|p|, w);
    } else if |raw| > 0 {
      assert |p| == w;
      ModShift(w, w);
    }
  }

  lemma {:induction false} FrontPadTailKeeps(raw: seq<Byte>, w: nat)
    requires w > 0 && |raw| % w == 0
    ensures FrontPadTail(raw, w) == raw
    decreases |raw|
  {
    if |raw| > w {
      ModShift(|raw|, w);
      assert |raw[w..]| == |raw| - w;
      FrontPadTailKeeps(raw[w..], w);
      assert raw[..w] + raw[w..] == raw;
    } else if |raw| == w {
      assert ZeroBytes(0) + raw == raw;
    }
  }

  /** The records of `w`-byte lines covering `p` from address `base`. */
  function Tiling(base: nat, p: seq<Byte>, w: nat): seq<Record>
    requires w > 0
    decreases |p|
  {
    if |p| == 0 then []
    else if |p| <= w then [Record(base, p)]
    else [Record(base, p[..w])] + Tiling(base + w, p[w..], w)
  }

  lemma {:induction false} MaxEndTiling(base: nat, p: seq<Byte>, w: nat)
    requires w > 0 && |p| > 0
    ensures MaxEnd(Tiling(base, p, w)) == base + |p|
    decreases |p|
  {
    var t := Tiling(base, p, w);
    if |p| > w {
      var next := base + w;
      assert t[1..] == Tiling(next, p[w..], w);
      MaxEndTiling(next, p[w..], w);
      assert End(t[0]) == next < MaxEnd(t[1..]);
    } else {
      assert t[1..] == [];
    }
  }

  lemma {:induction false} WriteAllTiling(buf: seq<Byte>, base: nat, p: seq<Byte>, w: nat)
    requires w > 0 && base + |p| <= |buf|
    ensures FitsIn(Tiling(base, p, w), |buf|)
    ensures WriteAll(buf, Tiling(base, p, w)) == buf[..base] + p + buf[base + |p|..]
    decreases |p|
  {
    if |p| == 0 {
      assert buf[..base] + p + buf[base..] == buf;
    } else if |p| <= w {
      var t := Tiling(base, p, w);
      assert t[1..] == [];
    } else {
      var t := Tiling(base, p, w);
      var next := base + w;
      var rest := p[w..];
      var b := Write(buf, Record(base, p[..w]));
      assert t == [Record(base, p[..w])] + Tiling(next, rest, w);
      WriteAllTiling(b, next, rest, w);
      assert FitsIn(t, |buf|) by {
        assert forall k :: 1 <= k < |t| ==> t[k] == t[1..][k - 1];
      }
      assert WriteAll(buf, t) == WriteAll(b, t[1..]);
      assert b[..next] == buf[..base] + p[..w];
      assert b[next + |rest|..] == buf[base + |p|..];
      JoinSplit(buf[..base], p, buf[base + |p|..], w);
    }
  }

  lemma JoinSplit<T>(a: seq<T>, p: seq<T>, c: seq<T>, w: nat)
    requires w <= |p|
    ensures a + p[..w] + p[w..] + c == a + p + c
  {
    assert p[..w] + p[w..] == p;
  }

  /** Loading records that tile `p` from `base` gives `base` zero bytes and then `p`. */
  lemma BuildTiling(base: nat, p: seq<Byte>, w: nat)
    requires w > 0 && |p| > 0
    ensures Build(Tiling(base, p, w)) == ZeroBytes(base) + p
  {
    MaxEndTiling(base, p, w);
    var z := ZeroBytes(base + |p|);
    WriteAllTiling(z, base, p, w);
    assert z[..base] == ZeroBytes(base);
    assert z[base + |p|..] == [];
  }

  /** The part of a writer line the pattern sees once the comment is cut
      and the line stripped. */
  function Core(style: LineStyle, addr: int, hex: string): string {
    "@" + FormatHex(addr, style.width) + style.sep + hex
  }

  lemma Regroup<T>(a: seq<T>, b: seq<T>, c: seq<T>, d: seq<T>, e: seq<T>, t: seq<T>)
    ensures a + b + c + d + e + t == a + (b + c + d + e) + t
  {
  }

  lemma CutAndStrip(style: LineStyle, addr: nat, hex: string, tail: string)
    requires WellSpaced(style) && |hex| > 0 && NoSlash(hex) && !IsSpace(hex[|hex| - 1])
    requires tail == "" || (|tail| >= 4 && tail[..4] == "  //")
    ensures Strip(BeforeComment(FormatLine(style, addr, hex) + tail)) == Core(style, addr, hex)
  {
    var digits := FormatHex(addr, style.width);
    assert FormatLine(style, addr, hex) == style.lead + "@" + digits + style.sep + hex;
    CutAndStripParts(style.lead, digits, style.sep, hex, tail);
  }

  lemma CutAndStripParts(lead: string, digits: string, sep: string, hex: string, tail: string)
    requires AllSpace(lead) && NoSlash(digits) && AllSpace(sep)
    requires |hex| > 0 && NoSlash(hex) && !IsSpace(hex[|hex| - 1])
    requires tail == "" || (|tail| >= 4 && tail[..4] == "  //")
    ensures Strip(BeforeComment(lead + "@" + digits + sep + hex + tail)) == "@" + digits + sep + hex
  {
    var core := "@" + digits + sep + hex;
    assert lead + "@" + digits + sep + hex + tail == lead + core + tail by {
      Regroup(lead, "@", digits, sep, hex, tail);
    }
    assert NoSlash(core) by {
      SpaceIsNoSlash(sep);
      NoSlashAppend("@", digits);
      NoSlashAppend("@" + digits, sep);
      NoSlashAppend("@" + digits + sep, hex);
    }
    assert core[0] == '@' && core[|core| - 1] == hex[|hex| - 1];
    CutAndStripWord(lead, core, tail);
  }

  lemma SpacesThenHex(sep: string, hex: string)
    requires AllSpace(sep) && AllHex(hex)
    ensures HexOrSpace(sep + hex)
  {
    assert forall i :: 0 <= i < |sep + hex| ==> (sep + hex)[i] == if i < |sep| then sep[i] else hex[i - |sep|];
  }

  /** The pattern splits `@<digits><spaces><hex>` at the end of the digits. */
  lemma MatchWord(digits: string, sep: string, hex: string)
    requires |digits| >= 1 && AllHex(digits)
    requires |sep| >= 1 && AllSpace(sep) && |hex| >= 1 && AllHex(hex)
    ensures MatchLine("@" + digits + sep + hex) == Matched(digits, sep + hex)
  {
    assert "@" + digits + sep + hex == "@" + digits + (sep + hex);
    SpacesThenHex(sep, hex);
    MatchAt(digits, sep + hex);
  }

  /** A record line whose data has an odd number of digits is refused,
      naming the line. */
  lemma OddDataRefused(d: string, hex: string)
    requires |d| >= 1 && AllHex(d) && AllHex(hex) && |hex| % 2 == 1
    ensures ParseLine("@" + d + " " + hex) == OddDigits("@" + d + " " + hex)
  {
    var line := "@" + d + " " + hex;
    RecordLineKept(d, hex);
    MatchWord(d, " ", hex);
    SpaceThenHexRemoved(hex);
    ParseLineOdd(line, d, " " + hex);
  }

  lemma RecordLineKept(d: string, hex: string)
    requires AllHex(d) && |hex| >= 1 && AllHex(hex)
    ensures Strip(BeforeComment("@" + d + " " + hex)) == "@" + d + " " + hex
  {
    assert NoSlash(d) && NoSlash(hex);
    CutAndStripParts("", d, " ", hex, "");
    assert "" + "@" + d + " " + hex + "" == "@" + d + " " + hex;
  }

  lemma SpaceThenHexRemoved(hex: string)
    requires AllHex(hex)
    ensures RemoveSpaces(" " + hex) == hex
  {
    RemoveSpacesAppend(" ", hex);
    RemoveSpacesDrops(" ");
    RemoveSpacesKeeps(hex);
    assert "" + hex == hex;
  }

  /** The physical line a comment "x\n@1 f" leaves behind is refused for
      its single data digit. */
  lemma OddAddressLine()
    ensures ParseLine("@1 f") == OddDigits("@1 f")
  {
    assert "@" + "1" + " " + "f" == "@1 f";
    OddDataRefused("1", "f");
  }

  lemma MatchCore(style: LineStyle, addr: nat, hex: string)
    requires WellSpaced(style) && |hex| >= 1 && AllHex(hex)
    ensures MatchLine(Core(style, addr, hex)) == Matched(FormatHex(addr, style.width), style.sep + hex)
  {
    FormatHexReadsBack(addr, style.width);
    MatchWord(FormatHex(addr, style.width), style.sep, hex);
  }

  /** Any writer line, with or without a trailing `  // comment`, decodes to
      its address and the per-word reversal of the bytes it spells. */
  lemma ParseFormatted(style: LineStyle, addr: nat, data: seq<Byte>, tail: string)
    requires WellSpaced(style) && |data| > 0
    requires tail == "" || (|tail| >= 4 && tail[..4] == "  //")
    ensures ParseLine(FormatLine(style, addr, HexOfBytes(data)) + tail)
         == Rec(Record(addr, ReversePer8(data)))
  {
    var hex := HexOfBytes(data);
    var digits := FormatHex(addr, style.width);
    var rest := style.sep + hex;
    CutAndStrip(style, addr, hex, tail);
    MatchCore(style, addr, hex);
    FormatHexReadsBack(addr, style.width);
    RemoveSpacesAppend(style.sep, hex);
    RemoveSpacesDrops(style.sep);
    RemoveSpacesKeeps(hex);
    assert RemoveSpaces(rest) == hex;
    FromHexOfBytes(data);
    ParseMatched(FormatLine(style, addr, hex) + tail, digits, rest);
  }

  /** `ParseLine` on a line whose stripped text matches the pattern. */
  lemma ParseMatched(raw: string, digits: string, rest: string)
    requires |Strip(BeforeComment(raw))| > 0
    requires MatchLine(Strip(BeforeComment(raw))) == Matched(digits, rest)
    requires |RemoveSpaces(rest)| % 2 == 0
    ensures AllHex(digits) && AllHex(RemoveSpaces(rest))
    ensures ParseLine(raw) == Rec(Record(ParseHex(digits), ReversePer8(FromHex(RemoveSpaces(rest)))))
  {
    var line := Strip(BeforeComment(raw));
    var m := MatchLine(line);
    assert AllHex(m.addrDigits) && HexOrSpace(m.rest);
  }

  /** One line of `w` bytes in front of the tiling of the rest. */
  lemma TilingCons(base: nat, line: seq<Byte>, more: seq<Byte>, w: nat)
    requires w > 0 && |line| == w
    ensures Tiling(base, line + more, w) == [Record(base, line)] + Tiling(base + w, more, w)
  {
    var p := line + more;
    if |more| > 0 {
      assert p[..w] == line && p[w..] == more;
    } else {
      assert p == line;
    }
  }

  /** The front-padded image is the first line and the padding of the rest. */
  lemma FrontPadTailCons(raw: seq<Byte>, w: nat)
    requires w > 0 && |raw| > 0
    ensures var n := Min(w, |raw|);
      FrontPadTail(raw, w) == (ZeroBytes(w - n) + raw[..n]) + FrontPadTail(raw[n..], w)
  {
    var n := Min(w, |raw|);
    if |raw| <= w {
      assert raw[..n] == raw && raw[n..] == [];
    } else {
      assert ZeroBytes(0) + raw[..w] == raw[..w];
    }
  }

  /** A conversion-style line spelling the per-word reversal of `le` reads
      back as `le` itself. */
  lemma ParseFormattedLe(addr: nat, le: seq<Byte>, tail: string)
    requires |le| > 0
    requires tail == "" || (|tail| >= 4 && tail[..4] == "  //")
    ensures ParseLine(FormatLine(ConvStyle, addr, HexOfBytes(ReversePer8(le))) + tail) == Rec(Record(addr, le))
  {
    ParseFormatted(ConvStyle, addr, ReversePer8(le), tail);
    ReversePer8Involution(le);
  }

  /** Every line `line` spells for a `w`-byte slice reads back as that
      slice at that line's address. */
  ghost predicate ReadsBack(line: LineWriter, w: nat) {
    forall a: nat, le: seq<Byte>, first: bool {:trigger ParseLine(line(a, le, first))}
      :: |le| == w ==> ParseLine(line(a, le, first)) == Rec(Record(a, le))
  }

  /** The lines of a chunked writer whose lines read back decode to the
      tiling of the front-padded data. */
  lemma {:induction false} DecodeChunkLines(line: LineWriter, addr: nat, raw: seq<Byte>, w: nat, first: bool)
    requires w > 0 && ReadsBack(line, w)
    ensures ParseAll(ChunkLines(line, addr, raw, w, first)) == Ok(Tiling(addr, FrontPadTail(raw, w), w))
    decreases |raw|
  {
    if |raw| > 0 {
      var n := Min(w, |raw|);
      var le := ZeroBytes(w - n) + raw[..n];
      var next := addr + w;
      var more := ChunkLines(line, next, raw[n..], w, false);
      var head := line(addr, le, first);
      assert ChunkLines(line, addr, raw, w, first) == [head] + more;
      assert ParseLine(head) == Rec(Record(addr, le)) by {
        assert |le| == w;
      }
      DecodeChunkLines(line, next, raw[n..], w, false);
      ParseAllCons(head, more, Record(addr, le));
      TilingFront(addr, next, raw, w);
    }
  }

  /** Each line of `write_hexdump_from_little`, comment or not, reads back
      as the bytes it was written from. */
  lemma HexdumpLineReadsBack(comment: string, bpl: nat)
    requires bpl > 0
    ensures ReadsBack(HexdumpLine(comment), bpl)
  {
    forall a: nat, le: seq<Byte>, first: bool | |le| == bpl
      ensures ParseLine(HexdumpLine(comment)(a, le, first)) == Rec(Record(a, le))
    {
      ParseFormattedLe(a, le, CommentTail(comment, first));
    }
  }

  /** The tiling of front-padded data starts with its first line. */
  lemma TilingFront(base: nat, next: nat, raw: seq<Byte>, w: nat)
    requires w > 0 && |raw| > 0 && next == base + w
    ensures var n := Min(w, |raw|);
      Tiling(base, FrontPadTail(raw, w), w)
        == [Record(base, ZeroBytes(w - n) + raw[..n])] + Tiling(next, FrontPadTail(raw[n..], w), w)
  {
    var n := Min(w, |raw|);
    FrontPadTailCons(raw, w);
    TilingCons(base, ZeroBytes(w - n) + raw[..n], FrontPadTail(raw[n..], w), w);
  }

  /** An 8-byte word of `c` reversed and zero-filled reads back with the
      zeros first. */
  lemma ReverseThenPad(c: seq<Byte>, m: nat)
    requires |c| + m == 8
    ensures ReversePer8(Reverse(c) + ZeroBytes(m)) == ZeroBytes(m) + c
  {
    var word := Reverse(c) + ZeroBytes(m);
    assert ReversePer8(word) == Reverse(word);
  }

  /** The lines of the 8-byte writers with little-endian words decode to
      the tiling of the front-padded data. */
  lemma {:induction false} DecodeAddr8Lines(style: LineStyle, addr: nat, data: seq<Byte>)
    requires WellSpaced(style)
    ensures ParseAll(Addr8Lines(style, addr, data, true)) == Ok(Tiling(addr, FrontPadTail(data, 8), 8))
    decreases |data|
  {
    if |data| > 0 {
      var n := Min(8, |data|);
      var chunk := data[..n];
      var word := Reverse(chunk) + ZeroBytes(8 - n);
      var line := FormatLine(style, addr, HexOfBytes(word));
      var next := addr + 8;
      var more := Addr8Lines(style, next, data[n..], true);
      assert Addr8Lines(style, addr, data, true) == [line] + more;
      assert line + "" == line;
      ParseFormatted(style, addr, word, "");
      ReverseThenPad(chunk, 8 - n);
      DecodeAddr8Lines(style, next, data[n..]);
      ParseAllCons(line, more, Record(addr, ZeroBytes(8 - n) + chunk));
      TilingFront(addr, next, data, 8);
    }
  }

  /** The per-word reversal of `data` starts with its first word reversed. */
  lemma ReversePer8Front(data: seq<Byte>)
    requires |data| > 0
    ensures var n := Min(8, |data|);
      && |ReversePer8(data)| == |data|
      && ReversePer8(data)[..n] == Reverse(data[..n])
      && ReversePer8(data)[n..] == ReversePer8(data[n..])
  {
    if |data| <= 8 {
      assert data[..|data|] == data;
    }
  }

  /** Writing chunks in order gives the same lines as writing the per-word
      reversal of the data with every chunk reversed. */
  lemma {:induction false} Addr8BigIsLittle(style: LineStyle, addr: int, data: seq<Byte>)
    ensures Addr8Lines(style, addr, data, false) == Addr8Lines(style, addr, ReversePer8(data), true)
    decreases |data|
  {
    if |data| > 0 {
      var n := Min(8, |data|);
      var rp := ReversePer8(data);
      var next := addr + 8;
      ReversePer8Front(data);
      ReverseReverse(data[..n]);
      assert Reverse(rp[..n]) == data[..n];
      Addr8BigIsLittle(style, next, data[n..]);
      assert Addr8Lines(style, addr, rp, true)
          == [FormatLine(style, addr, HexOfBytes(data[..n] + ZeroBytes(8 - n)))] + Addr8Lines(style, next, rp[n..], true);
    }
  }

  lemma LoadOfTiling(lines: seq<string>, base: nat, p: seq<Byte>, w: nat)
    requires w > 0 && |p| > 0
    requires ParseAll(lines) == Ok(Tiling(base, p, w))
    ensures Load(lines) == Ok(ZeroBytes(base) + p)
  {
    BuildTiling(base, p, w);
  }

  /** Reading back what `write_hexdump_from_little` writes gives `start` zero
      bytes and then the data, where a short final line's bytes land at the
      high end of that line (the zeros go in front, conv.py:166). The file
      splits back into the written lines only when the comment holds no
      line boundary. */
  lemma HexdumpRoundTrip(start: nat, raw: seq<Byte>, bpl: int, comment: string)
    requires |raw| > 0 && bpl > 0 && bpl % 8 == 0 && NoLineBreak(comment)
    ensures WriteHexdumpFromLittle(start, raw, bpl, comment).Ok?
    ensures LoadFile(WriteLines(WriteHexdumpFromLittle(start, raw, bpl, comment).value))
         == Ok(ZeroBytes(start) + FrontPadTail(raw, bpl))
  {
    var lines := ChunkLines(HexdumpLine(comment), start, raw, bpl, true);
    HexdumpLineReadsBack(comment, bpl);
    DecodeChunkLines(HexdumpLine(comment), start, raw, bpl, true);
    LoadOfTiling(lines, start, FrontPadTail(raw, bpl), bpl);
    HexdumpLinesUnbroken(comment, start, raw, bpl, true);
    FileOfLines(lines);
  }

  /** With whole lines the round trip is exact, and the comment is dropped. */
  lemma HexdumpRoundTripExact(start: nat, raw: seq<Byte>, bpl: int, comment: string)
    requires |raw| > 0 && bpl > 0 && bpl % 8 == 0 && |raw| % bpl == 0 && NoLineBreak(comment)
    ensures WriteHexdumpFromLittle(start, raw, bpl, comment).Ok?
    ensures LoadFile(WriteLines(WriteHexdumpFromLittle(start, raw, bpl, comment).value)) == Ok(ZeroBytes(start) + raw)
  {
    HexdumpRoundTrip(start, raw, bpl, comment);
    FrontPadTailAligned(raw, bpl);
  }

  /** A final line shorter than the line width reads back with its bytes at
      the high end of the line and zeros below them. */
  lemma ShortLineAtHighEnd(raw: seq<Byte>, w: nat)
    requires w > 0 && 0 < |raw| < w
    ensures |FrontPadTail(raw, w)| == w
    ensures FrontPadTail(raw, w)[w - |raw|..] == raw
    ensures forall i :: 0 <= i < w - |raw| ==> FrontPadTail(raw, w)[i] == 0
  {
  }

  /** Reading back `write_mem_addr8_from_u8(u8, "little")`: exact for whole
      words; a short final word's bytes land at its high end. */
  lemma MemAddr8RoundTrip(u8: seq<Byte>)
    requires |u8| > 0
    ensures Load(WriteMemAddr8FromU8(u8, "little")) == Ok(FrontPadTail(u8, 8))
    ensures |u8| % 8 == 0 ==> Load(WriteMemAddr8FromU8(u8, "little")) == Ok(u8)
    ensures LoadFile(WriteLines(WriteMemAddr8FromU8(u8, "little"))) == Ok(FrontPadTail(u8, 8))
  {
    StylesWellSpaced();
    Addr8Loads(ConvStyle, u8);
    FrontPadTailAligned(u8, 8);
    StylesUnbroken();
    Addr8LinesUnbroken(ConvStyle, 0, u8, true);
    FileOfLines(WriteMemAddr8FromU8(u8, "little"));
  }

  /** Any `endian` other than the exact word "little" keeps each chunk in
      order, so the file reads back with every 8-byte word reversed (a
      short final word behind its zeros). */
  lemma MemAddr8BigEndian(u8: seq<Byte>, endian: string)
    requires |u8| > 0 && endian != "little"
    ensures Load(WriteMemAddr8FromU8(u8, endian)) == Ok(FrontPadTail(ReversePer8(u8), 8))
  {
    StylesWellSpaced();
    Addr8LoadsBig(ConvStyle, u8);
  }

  /** Big-endian 8-byte lines from address 0, in either line style, load
      back as the per-word reversal of the data, the last word filled at
      its front. */
  lemma Addr8LoadsBig(style: LineStyle, data: seq<Byte>)
    requires WellSpaced(style) && |data| > 0
    ensures Load(Addr8Lines(style, 0, data, false)) == Ok(FrontPadTail(ReversePer8(data), 8))
  {
    Addr8BigIsLittle(style, 0, data);
    Addr8Loads(style, ReversePer8(data));
  }

  /** Little-endian 8-byte lines from address 0, in either line style, load
      back as the data with the last word filled at its front. */
  lemma Addr8Loads(style: LineStyle, data: seq<Byte>)
    requires WellSpaced(style) && |data| > 0
    ensures Load(Addr8Lines(style, 0, data, true)) == Ok(FrontPadTail(data, 8))
  {
    DecodeAddr8Lines(style, 0, data);
    LoadOfTiling(Addr8Lines(style, 0, data, true), 0, FrontPadTail(data, 8), 8);
    assert ZeroBytes(0) + FrontPadTail(data, 8) == FrontPadTail(data, 8);
  }
}
