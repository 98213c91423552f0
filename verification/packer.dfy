/** img2svmem.py: fitting the grayscale image to a target size, the
    {-1, 0, 1} kernel presets and quantizer, the kernel's int8 bytes, and
    the `@ADDR  HEX` lines of `save_addr8_with_kernel`: 16 kernel bytes,
    then every pixel shifted by 128. */
module Packer {
  import opened Text
  import opened Bytes
  import opened Results
  import opened Matrix
  import opened HexDecode
  import opened HexEncode
  import opened HexRoundTrip
  import opened Extract
  import opened Arith

  /** The words of `pad_where` that matter; parsing the comma list into
      these flags is not modelled. */
  datatype PadWhere = PadWhere(left: bool, right: bool, top: bool, bottom: bool)

  /** An empty `pad_where` means `{right, bottom}`. */
  const DefaultPads := PadWhere(false, true, false, true)

  /** What happens along one axis of length `n` fitted to `t`: the kept
      range `[cropFrom, cropFrom + keep)` and the zeros added before and
      after it. */
  datatype AxisPlan = AxisPlan(cropFrom: nat, keep: nat, before: nat, after: nat)

  /** One axis of `pad_or_truncate`; `first` is left/top, `second` is
      right/bottom. Growing puts the zeros after, unless only `first` is
      set (then before) or both are (then half before, rounded down).
      Shrinking keeps the start, unless only `first` is set (then the end)
      or both are (then it crops half the excess, rounded down, from the
      start). */
  function PlanAxis(n: nat, t: nat, first: bool, second: bool): (p: AxisPlan)
    ensures p.cropFrom + p.keep <= n
    ensures p.before + p.keep + p.after == t
    ensures t >= n ==> p.cropFrom == 0 && p.keep == n
    ensures t < n ==> p.keep == t && p.before == 0 && p.after == 0
  {
    if t >= n then
      var d := t - n;
      if first && second then AxisPlan(0, n, d / 2, d - d / 2)
      else if first then AxisPlan(0, n, d, 0)
      else AxisPlan(0, n, 0, d)
    else
      var e := n - t;
      if first && second then AxisPlan(e / 2, t, 0, 0)
      else if first then AxisPlan(e, t, 0, 0)
      else AxisPlan(0, t, 0, 0)
  }

  /** `np.pad` with zeros: `t` rows above, `b` below, `l` columns left and
      `r` right of a `|m|` by `w` matrix. */
  function Frame(m: Mat, w: nat, t: nat, b: nat, l: nat, r: nat): (f: Mat)
    requires IsRect(m, |m|, w)
    ensures IsRect(f, t + |m| + b, l + w + r)
  {
    seq(t + |m| + b, i requires 0 <= i < t + |m| + b =>
      seq(l + w + r, j requires 0 <= j < l + w + r =>
        if t <= i < t + |m| && l <= j < l + w then m[i - t][j - l] else 0))
  }

  /** Columns `[from, from + keep)` of every row. */
  function CropCols(m: Mat, w: nat, from: nat, keep: nat): (r: Mat)
    requires IsRect(m, |m|, w) && from + keep <= w
    ensures IsRect(r, |m|, keep)
    ensures forall i, j :: 0 <= i < |m| && 0 <= j < keep ==> r[i][j] == m[i][from + j]
  {
    seq(|m|, i requires 0 <= i < |m| => m[i][from..from + keep])
  }

  /** `pad_or_truncate(u8, (Wt, Ht), pad_where)` on an image `w` columns
      wide. */
  function PadOrTruncate(u8: Mat, w: nat, wt: nat, ht: nat, pads: PadWhere): (r: Mat)
    requires IsRect(u8, |u8|, w)
    ensures IsRect(r, ht, wt)
  {
    Fit(u8, w, PlanAxis(w, wt, pads.left, pads.right), PlanAxis(|u8|, ht, pads.top, pads.bottom))
  }

  /** Carries out the two plans: crop columns, then crop rows, then pad
      with zeros if any side grows. */
  function Fit(u8: Mat, w: nat, px: AxisPlan, py: AxisPlan): (r: Mat)
    requires IsRect(u8, |u8|, w) && px.cropFrom + px.keep <= w && py.cropFrom + py.keep <= |u8|
    ensures IsRect(r, py.before + py.keep + py.after, px.before + px.keep + px.after)
  {
    var kept := CropCols(u8, w, px.cropFrom, px.keep)[py.cropFrom..py.cropFrom + py.keep];
    if px.before == 0 && px.after == 0 && py.before == 0 && py.after == 0 then kept
    else Frame(kept, px.keep, py.before, py.after, px.before, px.after)
  }

  /** Every cell of the result: inside the kept block, shifted by the zeros
      added before it and by the part cropped from the start, it is the
      original pixel; elsewhere it is 0. */
  lemma PadOrTruncateCell(u8: Mat, w: nat, wt: nat, ht: nat, pads: PadWhere, y: nat, x: nat)
    requires IsRect(u8, |u8|, w) && y < ht && x < wt
    ensures var px := PlanAxis(w, wt, pads.left, pads.right);
      var py := PlanAxis(|u8|, ht, pads.top, pads.bottom);
      if py.before <= y < py.before + py.keep && px.before <= x < px.before + px.keep then
        && y - py.before + py.cropFrom < |u8|
        && x - px.before + px.cropFrom < w
        && PadOrTruncate(u8, w, wt, ht, pads)[y][x] == u8[y - py.before + py.cropFrom][x - px.before + px.cropFrom]
      else PadOrTruncate(u8, w, wt, ht, pads)[y][x] == 0
  {
    FitCell(u8, w, PlanAxis(w, wt, pads.left, pads.right), PlanAxis(|u8|, ht, pads.top, pads.bottom), y, x);
  }

  lemma FitCell(u8: Mat, w: nat, px: AxisPlan, py: AxisPlan, y: nat, x: nat)
    requires IsRect(u8, |u8|, w) && px.cropFrom + px.keep <= w && py.cropFrom + py.keep <= |u8|
    requires y < py.before + py.keep + py.after && x < px.before + px.keep + px.after
    ensures if py.before <= y < py.before + py.keep && px.before <= x < px.before + px.keep then
        Fit(u8, w, px, py)[y][x] == u8[y - py.before + py.cropFrom][x - px.before + px.cropFrom]
      else Fit(u8, w, px, py)[y][x] == 0
  {
    var kept := CropCols(u8, w, px.cropFrom, px.keep)[py.cropFrom..py.cropFrom + py.keep];
    KeptCells(u8, w, px, py);
    if px.before == 0 && px.after == 0 && py.before == 0 && py.after == 0 {
      assert Fit(u8, w, px, py) == kept;
    } else {
      assert Fit(u8, w, px, py) == Frame(kept, px.keep, py.before, py.after, px.before, px.after);
    }
  }

  /** The block left after both crops. */
  lemma KeptCells(u8: Mat, w: nat, px: AxisPlan, py: AxisPlan)
    requires IsRect(u8, |u8|, w) && px.cropFrom + px.keep <= w && py.cropFrom + py.keep <= |u8|
    ensures var kept := CropCols(u8, w, px.cropFrom, px.keep)[py.cropFrom..py.cropFrom + py.keep];
      && IsRect(kept, py.keep, px.keep)
      && forall i, j :: 0 <= i < py.keep && 0 <= j < px.keep ==> kept[i][j] == u8[py.cropFrom + i][px.cropFrom + j]
  {
  }

  /** With the default `right,bottom`, the image stays at the top-left:
      new cells are 0 and cropping keeps the first rows and columns. */
  lemma DefaultKeepsTopLeft(u8: Mat, w: nat, wt: nat, ht: nat, y: nat, x: nat)
    requires IsRect(u8, |u8|, w) && y < ht && x < wt
    ensures PadOrTruncate(u8, w, wt, ht, DefaultPads)[y][x] == if y < |u8| && x < w then u8[y][x] else 0
  {
    PadOrTruncateCell(u8, w, wt, ht, DefaultPads, y, x);
  }

  /** With both sides named, growing centres the image with the odd zero
      after it, and shrinking keeps the middle with the odd cropped line at
      the end. */
  lemma BothSidesCentre(n: nat, t: nat)
    ensures t >= n ==> PlanAxis(n, t, true, true).before == (t - n) / 2
    ensures t >= n ==> PlanAxis(n, t, true, true).after - PlanAxis(n, t, true, true).before in {0, 1}
    ensures t < n ==> PlanAxis(n, t, true, true).cropFrom == (n - t) / 2
    ensures t < n ==> (n - t - (n - t) / 2) - PlanAxis(n, t, true, true).cropFrom in {0, 1}
  {
  }

  /** Only `left` (or `top`) set: growing puts every new zero before the
      image, and shrinking keeps the last `t` lines. */
  lemma FirstSideOnly(n: nat, t: nat, second: bool)
    requires !second
    ensures t >= n ==> PlanAxis(n, t, true, second).before == t - n && PlanAxis(n, t, true, second).after == 0
    ensures t < n ==> PlanAxis(n, t, true, second).cropFrom + t == n
  {
  }

  /** A kernel whose cells are all -1, 0 or 1. */
  predicate Trinary(k: seq<seq<real>>) {
    forall i, j :: 0 <= i < |k| && 0 <= j < |k[i]| ==> k[i][j] in {-1.0, 0.0, 1.0}
  }

  /** `kernel_preset(name)`: an empty name means "box"; the name is
      lower-cased, and an unknown one is refused under its lower-case
      spelling. */
  function KernelPreset(name: string): (r: Result<seq<seq<real>>>)
    ensures r.Ok? ==> IsRect(r.value, 4, 4) && Trinary(r.value)
    ensures r.Err? ==> r.error == UnknownPreset(Lower(if |name| == 0 then "box" else name))
  {
    var n := Lower(if |name| == 0 then "box" else name);
    if n == "box" then
      Ok([[1.0, 1.0, 1.0, 1.0], [1.0, 1.0, 1.0, 1.0], [1.0, 1.0, 1.0, 1.0], [1.0, 1.0, 1.0, 1.0]])
    else if n == "edge" then
      Ok([[-1.0, -1.0, -1.0, -1.0], [0.0, 0.0, 0.0, 0.0], [1.0, 1.0, 1.0, 1.0], [0.0, 0.0, 0.0, 0.0]])
    else if n == "sharpen" then
      Ok([[0.0, -1.0, -1.0, 0.0], [-1.0, 1.0, 1.0, -1.0], [-1.0, 1.0, 1.0, -1.0], [0.0, -1.0, -1.0, 0.0]])
    else if n == "emboss" then
      Ok([[-1.0, -1.0, 0.0, 0.0], [-1.0, 0.0, 0.0, 1.0], [0.0, 0.0, 1.0, 1.0], [0.0, 1.0, 1.0, 1.0]])
    else Err(UnknownPreset(n))
  }

  /** The four preset names are accepted in any case, the empty name gives
      the all-ones box, and nothing else is accepted. */
  lemma PresetNames(name: string)
    ensures KernelPreset(name).Ok? <==>
      |name| == 0 || Lower(name) in {"box", "edge", "sharpen", "emboss"}
    ensures |name| == 0 ==> KernelPreset(name) == KernelPreset("box")
    ensures KernelPreset("box").Ok? && forall i, j :: 0 <= i < 4 && 0 <= j < 4 ==> KernelPreset("box").value[i][j] == 1.0
  {
    LowerOfLowerAscii("box");
  }

  /** One cell of `quantize_kernel_to_trinary`. */
  function Quantize(v: real): (q: int)
    ensures q in {-1, 0, 1}
  {
    if v > 0.5 then 1 else if v < -0.5 then -1 else 0
  }

  /** Thresholds at plus and minus one half, which themselves go to 0, and
      the identity on -1, 0 and 1. */
  lemma QuantizeSpec(v: real)
    ensures Quantize(v) == 1 <==> v > 0.5
    ensures Quantize(v) == -1 <==> v < -0.5
    ensures Quantize(0.5) == 0 && Quantize(-0.5) == 0
    ensures v in {-1.0, 0.0, 1.0} ==> Quantize(v) as real == v
  {
  }

  /** `quantize_kernel_to_trinary(k)`. */
  function QuantizeTrinary(k: seq<seq<real>>): (q: Mat)
    ensures |q| == |k|
    ensures forall i :: 0 <= i < |k| ==> |q[i]| == |k[i]|
    ensures forall i, j :: 0 <= i < |k| && 0 <= j < |k[i]| ==> q[i][j] == Quantize(k[i][j])
  {
    seq(|k|, i requires 0 <= i < |k| => seq(|k[i]|, j requires 0 <= j < |k[i]| => Quantize(k[i][j])))
  }

  /** `kernel_to_i8_bytes(k)`: the quantized cells row-major, each as its
      two's-complement byte. */
  function KernelToI8Bytes(k: seq<seq<real>>): (bs: seq<Byte>)
    ensures |bs| == |Flatten(QuantizeTrinary(k))|
  {
    var flat := Flatten(QuantizeTrinary(k));
    QuantizedFlat(QuantizeTrinary(k));
    seq(|flat|, i requires 0 <= i < |flat| => FromSigned(flat[i]))
  }

  lemma {:induction false} QuantizedFlat(q: Mat)
    requires forall i, j :: 0 <= i < |q| && 0 <= j < |q[i]| ==> q[i][j] in {-1, 0, 1}
    ensures forall k :: 0 <= k < |Flatten(q)| ==> Flatten(q)[k] in {-1, 0, 1}
  {
    if |q| > 0 {
      QuantizedFlat(q[1..]);
      assert Flatten(q) == q[0] + Flatten(q[1..]);
    }
  }

  /** A 4x4 kernel gives 16 bytes, cell `(r, c)` at `4r + c`, with -1 as
      0xFF, 0 as 0x00 and 1 as 0x01. */
  lemma KernelBytesAt(k: seq<seq<real>>, r: nat, c: nat)
    requires IsRect(k, 4, 4) && r < 4 && c < 4
    ensures |KernelToI8Bytes(k)| == 16
    ensures ToSigned(KernelToI8Bytes(k)[4 * r + c]) == Quantize(k[r][c])
    ensures KernelToI8Bytes(k)[4 * r + c] == if Quantize(k[r][c]) == -1 then 0xFF else Quantize(k[r][c])
  {
    var q := QuantizeTrinary(k);
    FlattenIndex(q, 4, 4, r, c);
  }

  /** The byte stream of `save_addr8_with_kernel`: the kernel bytes, then
      each pixel plus 128 in uint8 arithmetic. */
  function PackStream(img: seq<seq<Byte>>, kbytes: seq<Byte>): (s: seq<Byte>)
    ensures |s| == |kbytes| + |Flatten(img)|
    ensures s[..|kbytes|] == kbytes
    ensures forall i :: 0 <= i < |Flatten(img)| ==> s[|kbytes| + i] == Plus128(Flatten(img)[i])
  {
    var flat := Flatten(img);
    kbytes + seq(|flat|, i requires 0 <= i < |flat| => Plus128(flat[i]))
  }

  /** `x + 128` in uint8 arithmetic, which wraps past 255. */
  function Plus128(b: Byte): Byte {
    if b < 128 then b + 128 else b - 128
  }

  /** The lines `save_addr8_with_kernel` writes, without the newlines: each
      chunk of 8 is reversed when `endian.lower()` is "little", and a short
      last chunk is then filled up with zeros at its end. */
  function SaveAddr8WithKernel(img: seq<seq<Byte>>, endian: string, kbytes: seq<Byte>): (lines: seq<string>)
    ensures |lines| * 8 >= |PackStream(img, kbytes)| > (|lines| - 1) * 8
  {
    Addr8Lines(PackerStyle, 0, PackStream(img, kbytes), Lower(endian) == "little")
  }

  /** Line `k` reads `@` and the 8-digit address `8k`, two spaces and 16
      hex digits. */
  lemma SaveLineAt(img: seq<seq<Byte>>, endian: string, kbytes: seq<Byte>, k: nat)
    requires k < |SaveAddr8WithKernel(img, endian, kbytes)|
    ensures var line := SaveAddr8WithKernel(img, endian, kbytes)[k];
      && |line| == 1 + |FormatHex(8 * k, 8)| + 2 + 16
      && line[..1 + |FormatHex(8 * k, 8)| + 2] == "@" + FormatHex(8 * k, 8) + "  "
  {
    PackerLineAt(PackStream(img, kbytes), Lower(endian) == "little", k);
  }

  lemma PackerLineAt(data: seq<Byte>, little: bool, k: nat)
    requires k < |Addr8Lines(PackerStyle, 0, data, little)|
    ensures var line := Addr8Lines(PackerStyle, 0, data, little)[k];
      && |line| == 1 + |FormatHex(8 * k, 8)| + 2 + 16
      && line[..1 + |FormatHex(8 * k, 8)| + 2] == "@" + FormatHex(8 * k, 8) + "  "
  {
    var prefix := FormatLine(PackerStyle, 8 * k, "");
    assert prefix == "@" + FormatHex(8 * k, 8) + "  " by {
      assert prefix == "" + "@" + FormatHex(8 * k, 8) + "  " + "";
    }
    Addr8LineAt(PackerStyle, 0, data, little, k, 8 * k);
  }

  /** A pixel shifted by 128 in uint8 is `(pixel + 128) mod 256`, and it
      reads back as int8 `pixel - 128`. */
  lemma ShiftedPixel(b: Byte)
    ensures Plus128(b) == (b + 128) % 256
    ensures ToSigned(Plus128(b)) == b as int - 128
  {
  }

  /** Whole 8-byte words written little-endian in either line style load
      back exactly. */
  lemma AlignedLoads(style: LineStyle, data: seq<Byte>)
    requires WellSpaced(style) && |data| > 0 && |data| % 8 == 0
    ensures Load(Addr8Lines(style, 0, data, true)) == Ok(data)
  {
    Addr8Loads(style, data);
    FrontPadTailAligned(data, 8);
  }

  lemma LittleIsLittle()
    ensures Lower("little") == "little"
  {
    LowerOfLowerAscii("little");
  }

  /** The packer's little-endian file, whose stream is a whole number of
      8-byte words (the pixel count is a multiple of 8), loads in conv.py
      as exactly that stream. */
  lemma PackerLoads(img: seq<seq<Byte>>, kbytes: seq<Byte>)
    requires |kbytes| == 16 && |Flatten(img)| % 8 == 0
    ensures Load(SaveAddr8WithKernel(img, "little", kbytes)) == Ok(PackStream(img, kbytes))
    ensures LoadFile(WriteLines(SaveAddr8WithKernel(img, "little", kbytes))) == Ok(PackStream(img, kbytes))
  {
    var s := PackStream(img, kbytes);
    LittleIsLittle();
    StylesWellSpaced();
    var n := |Flatten(img)|;
    assert |s| == 16 + n;
    DivModUnique(16 + n, 8, n / 8 + 2, 0);
    AlignedLoads(PackerStyle, s);
    StylesUnbroken();
    Addr8LinesUnbroken(PackerStyle, 0, s, true);
    FileOfLines(SaveAddr8WithKernel(img, "little", kbytes));
  }

  /** Any `endian` whose lower case is not "little" leaves the chunks in
      order, so conv.py loads every 8-byte word of the stream reversed. */
  lemma PackerBigEndian(img: seq<seq<Byte>>, endian: string, kbytes: seq<Byte>)
    requires |kbytes| == 16 && Lower(endian) != "little"
    ensures Load(SaveAddr8WithKernel(img, endian, kbytes)) == Ok(FrontPadTail(ReversePer8(PackStream(img, kbytes)), 8))
  {
    StylesWellSpaced();
    Addr8LoadsBig(PackerStyle, PackStream(img, kbytes));
  }

  /** In the stream, the image at offset 16 holds every pixel minus 128. */
  lemma ImageReadsBack(img: seq<seq<Byte>>, h: nat, w: nat, kbytes: seq<Byte>, r: nat, c: nat)
    requires IsRect(img, h, w) && |kbytes| == 16 && r < h && c < w
    ensures ReadImageI8(PackStream(img, kbytes), 16, h, w).Ok?
    ensures ReadImageI8(PackStream(img, kbytes), 16, h, w).value[r][c] == img[r][c] as int - 128
  {
    var buf := PackStream(img, kbytes);
    FlattenIndex(img, h, w, r, c);
    var idx := r * w + c;
    assert buf[16 + idx] == Plus128(img[r][c]);
    ViewInside(buf, 16, h, w, r, c);
    ReadImageOutcome(buf, 16, h, w);
    ShiftedPixel(img[r][c]);
  }

  /** Across the two scripts: in the buffer conv.py loads from the packer's
      file, the kernel at offset 0 is the quantized kernel and the image at
      0x10 holds every pixel minus 128. */
  lemma PackerToConv(img: seq<seq<Byte>>, h: nat, w: nat, k: seq<seq<real>>, r: nat, c: nat)
    requires IsRect(img, h, w) && IsRect(k, 4, 4) && (h * w) % 8 == 0
    requires r < h && c < w
    ensures var buf := PackStream(img, KernelToI8Bytes(k));
      && LoadFile(WriteLines(SaveAddr8WithKernel(img, "little", KernelToI8Bytes(k)))) == Ok(buf)
      && ReadKernelI8(buf, 0) == Ok(QuantizeTrinary(k))
      && ReadImageI8(buf, 16, h, w).Ok?
      && ReadImageI8(buf, 16, h, w).value[r][c] == img[r][c] as int - 128
  {
    var kb := KernelToI8Bytes(k);
    FlattenLength(img, h, w);
    FlattenLength(QuantizeTrinary(k), 4, 4);
    PackerLoads(img, kb);
    var buf := PackStream(img, kb);
    assert buf[..16] == kb;
    KernelReadsBack(k, buf);
    ImageReadsBack(img, h, w, kb, r, c);
  }

  /** The kernel read at offset 0 of a buffer that starts with the kernel
      bytes is the quantized kernel. */
  lemma KernelReadsBack(k: seq<seq<real>>, buf: seq<Byte>)
    requires IsRect(k, 4, 4) && |buf| >= 16 && buf[..16] == KernelToI8Bytes(k)
    ensures ReadKernelI8(buf, 0) == Ok(QuantizeTrinary(k))
  {
    var q := QuantizeTrinary(k);
    ReadKernelAt(buf, 0, 0, 0);
    var m := ReadKernelI8(buf, 0).value;
    forall r, c | 0 <= r < 4 && 0 <= c < 4
      ensures m[r][c] == q[r][c]
    {
      ReadKernelAt(buf, 0, r, c);
      KernelBytesAt(k, r, c);
      assert buf[4 * r + c] == KernelToI8Bytes(k)[4 * r + c];
    }
    forall r | 0 <= r < 4
      ensures m[r] == q[r]
    {
    }
    assert m == q;
  }
}
