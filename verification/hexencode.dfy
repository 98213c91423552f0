/** The dump writers: `write_hexdump_from_little` and
    `write_mem_addr8_from_u8`/`_i8` of conv.py, and the line format of
    `save_addr8_with_kernel` in img2svmem.py. Each yields the text lines it
    would write, without the newline. */
module HexEncode {
  import opened Text
  import opened Bytes
  import opened Results

  /** The fixed parts of a line: what precedes `@`, the address width and
      the separator before the hex digits. */
  datatype LineStyle = LineStyle(lead: string, width: nat, sep: string)

  /** conv.py: `" @{addr:016x} {hex}"`. */
  const ConvStyle := LineStyle(" ", 16, " ")

  /** img2svmem.py: `"@{addr:08x}  {hex}"`. */
  const PackerStyle := LineStyle("", 8, "  ")

  predicate WellSpaced(style: LineStyle) {
    AllSpace(style.lead) && |style.sep| >= 1 && AllSpace(style.sep)
  }

  /** Both writers' styles put only spaces around the address. */
  lemma StylesWellSpaced()
    ensures WellSpaced(ConvStyle) && WellSpaced(PackerStyle)
  {
  }

  function FormatLine(style: LineStyle, addr: int, hex: string): string {
    style.lead + "@" + FormatHex(addr, style.width) + style.sep + hex
  }

  function Min(a: int, b: int): int {
    if a < b then a else b
  }

  /** The `  // comment` that only the first line carries, and only when the
      comment is not empty. */
  function CommentTail(comment: string, first: bool): (tail: string)
    ensures tail == "" || (|tail| >= 4 && tail[..4] == "  //")
  {
    if first && |comment| > 0 then
      assert ("  // " + comment)[..4] == "  //";
      "  // " + comment
    else ""
  }

  /** Spells one line from its address, its `w` bytes in memory order and
      whether it is the line at offset 0. */
  type LineWriter = (int, seq<Byte>, bool) -> string

  /** The lines of a writer that walks `raw` in `w`-byte slices from `addr`
      on: a short final slice is zero-filled in front to `w` bytes, and each
      padded slice is spelled by `line`. `first` marks the slice at offset 0. */
  function ChunkLines(line: LineWriter, addr: int, raw: seq<Byte>, w: nat, first: bool): (lines: seq<string>)
    requires w > 0
    ensures |lines| > 0 <==> |raw| > 0
    decreases |raw|
  {
    if |raw| == 0 then []
    else
      var n := Min(w, |raw|);
      [line(addr, ZeroBytes(w - n) + raw[..n], first)] + ChunkLines(line, addr + w, raw[n..], w, false)
  }

  /** One line of `write_hexdump_from_little`: each 8-byte word of the line
      reversed for display, and the comment on the first line only. */
  function HexdumpLine(comment: string): LineWriter {
    (addr, lineLe, first) => FormatLine(ConvStyle, addr, HexOfBytes(ReversePer8(lineLe))) + CommentTail(comment, first)
  }

  /** `lines` lines of `w` bytes are needed for, and suffice for, `len` bytes. */
  predicate LinesCover(lines: int, w: int, len: int) {
    lines * w >= len > (lines - 1) * w
  }

  lemma CountStep(count: int, w: int, m: int)
    requires LinesCover(count, w, m)
    ensures LinesCover(count + 1, w, m + w)
  {
    assert (count + 1) * w == count * w + w;
    assert (count - 1) * w == count * w - w;
  }

  lemma CountBase(lines: int, w: int, len: int)
    requires w > 0 && 0 <= len <= w && (lines == 0 <==> len == 0) && 0 <= lines <= 1
    ensures LinesCover(lines, w, len)
  {
  }

  /** One line per started `w`-byte slice of the data. */
  lemma {:induction false} ChunkLineCount(line: LineWriter, addr: int, raw: seq<Byte>, w: nat, first: bool)
    requires w > 0
    ensures LinesCover(|ChunkLines(line, addr, raw, w, first)|, w, |raw|)
    decreases |raw|
  {
    if |raw| <= w {
      CountBase(|ChunkLines(line, addr, raw, w, first)|, w, |raw|);
    } else {
      var rest := ChunkLines(line, addr + w, raw[w..], w, false);
      ChunkLineCount(line, addr + w, raw[w..], w, false);
      assert |ChunkLines(line, addr, raw, w, first)| == |rest| + 1;
      CountStep(|rest|, w, |raw[w..]|);
      assert |raw[w..]| + w == |raw|;
    }
  }

  /** `write_hexdump_from_little(path, start, raw, bytes_per_line, comment)`:
      refuses a width that is not a multiple of 8; a width of 0 passes that
      test and then fails as the step of `range`, and a negative multiple of 8
      makes `range` empty, so nothing is written. */
  function WriteHexdumpFromLittle(start: int, raw: seq<Byte>, bpl: int, comment: string): (r: Result<seq<string>>)
    ensures r.Err? <==> bpl % 8 != 0 || bpl == 0
    ensures bpl % 8 != 0 ==> r == Err(LineWidthNotMultipleOf8(bpl))
    ensures bpl < 0 && bpl % 8 == 0 ==> r == Ok([])
    ensures bpl > 0 && bpl % 8 == 0 ==> r == Ok(ChunkLines(HexdumpLine(comment), start, raw, bpl, true))
  {
    if bpl % 8 != 0 then Err(LineWidthNotMultipleOf8(bpl))
    else if bpl == 0 then Err(ZeroRangeStep)
    else if bpl < 0 then Ok([])
    else Ok(ChunkLines(HexdumpLine(comment), start, raw, bpl, true))
  }

  /** The 8-byte lines shared by `write_mem_addr8_from_u8` and
      `save_addr8_with_kernel`: a chunk is reversed when `little` holds and
      then zero-filled at its end to 8 bytes. */
  function Addr8Lines(style: LineStyle, addr: int, data: seq<Byte>, little: bool): (lines: seq<string>)
    ensures |lines| * 8 >= |data| > (|lines| - 1) * 8
    decreases |data|
  {
    if |data| == 0 then []
    else
      var n := Min(8, |data|);
      var chunk := data[..n];
      var word := (if little then Reverse(chunk) else chunk) + ZeroBytes(8 - n);
      [FormatLine(style, addr, HexOfBytes(word))] + Addr8Lines(style, addr + 8, data[n..], little)
  }

  lemma FormatLineSplit(style: LineStyle, addr: int, hex: string)
    ensures FormatLine(style, addr, hex) == FormatLine(style, addr, "") + hex
  {
    assert FormatLine(style, addr, "") == style.lead + "@" + FormatHex(addr, style.width) + style.sep;
  }

  lemma Addr8FirstLine(style: LineStyle, addr: int, data: seq<Byte>, little: bool)
    requires |data| > 0
    ensures |Addr8Lines(style, addr, data, little)[0]| == |FormatLine(style, addr, "")| + 16
    ensures Addr8Lines(style, addr, data, little)[0][..|FormatLine(style, addr, "")|] == FormatLine(style, addr, "")
  {
    var n := Min(8, |data|);
    var chunk := data[..n];
    var word := (if little then Reverse(chunk) else chunk) + ZeroBytes(8 - n);
    FormatLineSplit(style, addr, HexOfBytes(word));
  }

  /** Line `k` of the 8-byte writers is tagged with address `at = addr + 8k`
      and carries exactly 16 hex digits. */
  lemma {:induction false} Addr8LineAt(style: LineStyle, addr: int, data: seq<Byte>, little: bool, k: nat, at: int)
    requires k < |Addr8Lines(style, addr, data, little)| && at == addr + 8 * k
    ensures |Addr8Lines(style, addr, data, little)[k]| == |FormatLine(style, at, "")| + 16
    ensures Addr8Lines(style, addr, data, little)[k][..|FormatLine(style, at, "")|] == FormatLine(style, at, "")
    decreases |data|
  {
    if k > 0 {
      var n := Min(8, |data|);
      Addr8Tail(style, addr, data, little, k);
      Addr8LineAt(style, addr + 8, data[n..], little, k - 1, at);
    } else {
      Addr8FirstLine(style, addr, data, little);
    }
  }

  /** Line `k > 0` is line `k - 1` of the lines for the data after the
      first chunk. */
  lemma Addr8Tail(style: LineStyle, addr: int, data: seq<Byte>, little: bool, k: nat)
    requires 0 < k < |Addr8Lines(style, addr, data, little)|
    ensures |data| > 0
    ensures k - 1 < |Addr8Lines(style, addr + 8, data[Min(8, |data|)..], little)|
    ensures Addr8Lines(style, addr, data, little)[k] == Addr8Lines(style, addr + 8, data[Min(8, |data|)..], little)[k - 1]
  {
  }

  /** `write_mem_addr8_from_u8` on the flattened array: addresses from 0,
      the chunk reversed only for the exact word `"little"`. */
  function WriteMemAddr8FromU8(u8: seq<Byte>, endian: string): (lines: seq<string>)
    ensures |lines| * 8 >= |u8| > (|lines| - 1) * 8
  {
    Addr8Lines(ConvStyle, 0, u8, endian == "little")
  }

  /** `write_mem_addr8_from_i8`: the same lines for the int8 values' bytes. */
  function WriteMemAddr8FromI8(i8: seq<int>, endian: string): (lines: seq<string>)
    requires forall i :: 0 <= i < |i8| ==> -128 <= i8[i] < 128
    ensures |lines| * 8 >= |i8| > (|lines| - 1) * 8
  {
    WriteMemAddr8FromU8(seq(|i8|, i requires 0 <= i < |i8| => FromSigned(i8[i])), endian)
  }
  /** Whitespace-only styles whose fixed parts hold no line boundary. */
  predicate Unbroken(style: LineStyle) {
    NoLineBreak(style.lead) && NoLineBreak(style.sep)
  }

  lemma StylesUnbroken()
    ensures Unbroken(ConvStyle) && Unbroken(PackerStyle)
  {
  }

  lemma HexNoBreak(h: string)
    requires AllHex(h)
    ensures NoLineBreak(h)
  {
  }

  lemma FormatLineUnbroken(style: LineStyle, addr: int, hex: string)
    requires Unbroken(style) && AllHex(hex)
    ensures NoLineBreak(FormatLine(style, addr, hex))
  {
    FormatHexNoBreak(addr, style.width);
    HexNoBreak(hex);
    NoLineBreakJoin(style.lead, "@");
    NoLineBreakJoin(style.lead + "@", FormatHex(addr, style.width));
    NoLineBreakJoin(style.lead + "@" + FormatHex(addr, style.width), style.sep);
    NoLineBreakJoin(style.lead + "@" + FormatHex(addr, style.width) + style.sep, hex);
  }

  /** Every hexdump line is one physical line when the comment holds no
      boundary. */
  lemma HexdumpLineUnbroken(comment: string, addr: int, lineLe: seq<Byte>, first: bool)
    requires NoLineBreak(comment)
    ensures NoLineBreak(HexdumpLine(comment)(addr, lineLe, first))
  {
    StylesUnbroken();
    FormatLineUnbroken(ConvStyle, addr, HexOfBytes(ReversePer8(lineLe)));
    if first && |comment| > 0 {
      NoLineBreakJoin("  // ", comment);
    }
    NoLineBreakJoin(FormatLine(ConvStyle, addr, HexOfBytes(ReversePer8(lineLe))), CommentTail(comment, first));
  }

  lemma {:induction false} HexdumpLinesUnbroken(comment: string, addr: int, raw: seq<Byte>, w: nat, first: bool)
    requires w > 0 && NoLineBreak(comment)
    ensures forall k :: 0 <= k < |ChunkLines(HexdumpLine(comment), addr, raw, w, first)| ==>
      NoLineBreak(ChunkLines(HexdumpLine(comment), addr, raw, w, first)[k])
    decreases |raw|
  {
    if |raw| > 0 {
      var n := Min(w, |raw|);
      HexdumpLineUnbroken(comment, addr, ZeroBytes(w - n) + raw[..n], first);
      HexdumpLinesUnbroken(comment, addr + w, raw[n..], w, false);
    }
  }

  /** The 8-byte writers' lines are one physical line each. */
  lemma {:induction false} Addr8LinesUnbroken(style: LineStyle, addr: int, data: seq<Byte>, little: bool)
    requires Unbroken(style)
    ensures forall k :: 0 <= k < |Addr8Lines(style, addr, data, little)| ==>
      NoLineBreak(Addr8Lines(style, addr, data, little)[k])
    decreases |data|
  {
    if |data| > 0 {
      var n := Min(8, |data|);
      var chunk := data[..n];
      var word := (if little then Reverse(chunk) else chunk) + ZeroBytes(8 - n);
      FormatLineUnbroken(style, addr, HexOfBytes(word));
      Addr8LinesUnbroken(style, addr + 8, data[n..], little);
    }
  }
}
