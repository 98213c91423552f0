/** The numeric path of conv.py's `main`: load the dump, read the image
    and the kernel, convolve, then (only for `--act` other than the exact
    word "none") activate, zero-pad and average-pool, and finally widen to
    a multiple of 8 columns. The `--out-mem` file is the int8 clip of that
    result written as 8-byte little-endian lines. */
module Pipeline {
  import opened Text
  import opened Bytes
  import opened Results
  import opened Matrix
  import opened HexDecode
  import opened HexEncode
  import opened HexRoundTrip
  import opened Arith
  import opened Extract
  import opened Conv
  import opened Stages
  import opened Pooling

  /** The command-line values the numbers depend on. `pool` is accepted
      but never read. */
  datatype Config = Config(h: nat, w: nat, offset: int, kernelOffset: int,
                           act: string, pool: string, padding: int)

  /** `max(0, padding)`. */
  function PadAmount(padding: int): nat {
    if padding > 0 then padding else 0
  }

  /** Activation, padding and the average pool; skipped entirely when
      `--act` is exactly "none" (the test is case-sensitive, unlike the one
      inside `apply_activation`). The `--pool` choice is not consulted: the
      call to `pool_2x2_stride2` is commented out. */
  function PostConv(conv: Mat, act: string, padding: int): (r: Result<Mat>)
    requires Rect(conv)
    ensures r.Ok? ==> Rect(r.value)
  {
    if act == "none" then Ok(conv)
    else
      var padded :- Activated(conv, act, padding);
      AvgPool4x4Stride4ValidI32(padded)
  }

  /** `apply_activation` and then `zero_pad` by `max(0, padding)`: the
      activated input in the top-left corner, zeros below and to the right. */
  function Activated(conv: Mat, act: string, padding: int): (r: Result<Mat>)
    requires Rect(conv)
    ensures r.Err? <==> ActivationOf(act).Err?
    ensures r.Ok? ==> IsRect(r.value, |conv| + PadAmount(padding), Cols(conv) + PadAmount(padding)) && Rect(r.value)
    ensures r.Ok? ==> forall i, j :: 0 <= i < |r.value| && 0 <= j < |r.value[i]| ==>
      r.value[i][j] == if i < |conv| && j < Cols(conv) then Activate(ActivationOf(act).value, conv[i][j]) else 0
  {
    var a :- ApplyActivation(conv, act);
    var pad := PadAmount(padding);
    if pad == 0 then Ok(a) else Ok(ZeroPad(a, pad))
  }

  /** Image, kernel and convolution from the loaded buffer. The image range
      check of `main` is the one `read_image_i8` makes, so the image is read
      with that function. */
  function ConvOf(buf: seq<Byte>, h: nat, w: nat, offset: int, kernelOffset: int): (r: Result<Mat>)
    ensures r.Ok? ==> h >= 4 && w >= 4 && IsRect(r.value, h - 3, w - 3) && Rect(r.value)
  {
    var img :- ReadImageI8(buf, offset, h, w);
    RectOf(img, h, w);
    var ker :- ReadKernelI8(buf, kernelOffset);
    var conv :- Conv4x4Valid(img, ker);
    RectOf(conv, |img| - 3, Cols(img) - 3);
    Ok(conv)
  }

  /** The final array of `main` before the int8 clip. */
  function Run(text: string, cfg: Config): (r: Result<Mat>)
    ensures r.Ok? ==> Rect(r.value) && Cols(r.value) % 8 == 0
  {
    var buf :- LoadFile(text);
    RunImage(buf, cfg)
  }

  /** Everything after the load: the same steps on the loaded bytes. */
  function RunImage(buf: seq<Byte>, cfg: Config): (r: Result<Mat>)
    ensures r.Ok? ==> Rect(r.value) && Cols(r.value) % 8 == 0
  {
    var conv :- ConvOf(buf, cfg.h, cfg.w, cfg.offset, cfg.kernelOffset);
    var fin :- PostConv(conv, cfg.act, cfg.padding);
    Ok(PadColsToMultipleOf8(fin))
  }

  /** The `--out-mem` lines: the final array clipped to [-128, 127] and
      written row-major through `write_mem_addr8_from_i8`, little endian. */
  function OutMemLines(text: string, cfg: Config): (r: Result<seq<string>>)
    ensures r.Ok? <==> Run(text, cfg).Ok?
    ensures r.Ok? ==> var n := |Flatten(ClipMat(Run(text, cfg).value))|;
      |r.value| * 8 >= n > (|r.value| - 1) * 8
  {
    var fin :- Run(text, cfg);
    Ok(OutMemOf(fin))
  }

  /** The `--out-mem` lines of a final array. */
  function OutMemOf(fin: Mat): (lines: seq<string>)
    ensures var n := |Flatten(ClipMat(fin))|;
      |lines| * 8 >= n > (|lines| - 1) * 8
  {
    var vals := Flatten(ClipMat(fin));
    FlattenI8(ClipMat(fin));
    WriteMemAddr8FromI8(vals, "little")
  }

  /** Flattening an int8 matrix gives int8 values. */
  lemma {:induction false} FlattenI8(m: Mat)
    requires AllI8(m)
    ensures forall k :: 0 <= k < |Flatten(m)| ==> InI8(Flatten(m)[k])
  {
    if |m| > 0 {
      FlattenI8(m[1..]);
      assert Flatten(m) == m[0] + Flatten(m[1..]);
    }
  }

  /** The `--pool` option changes nothing. */
  lemma PoolIgnored(text: string, cfg: Config, pool: string)
    ensures Run(text, cfg) == Run(text, cfg.(pool := pool))
  {
  }

  /** With non-negative offsets the steps fail in `main`'s order: the image
      must fit in the buffer, then the kernel, then the image must be at
      least 4x4. */
  lemma ConvOfOutcome(buf: seq<Byte>, h: nat, w: nat, offset: int, kernelOffset: int)
    requires offset >= 0 && kernelOffset >= 0
    ensures ConvOf(buf, h, w, offset, kernelOffset).Ok? <==>
      offset + h * w <= |buf| && kernelOffset + 16 <= |buf| && h >= 4 && w >= 4
    ensures offset + h * w > |buf| ==> ConvOf(buf, h, w, offset, kernelOffset) == Err(ImagePastEof(offset, h * w))
    ensures offset + h * w <= |buf| && kernelOffset + 16 > |buf| ==>
      ConvOf(buf, h, w, offset, kernelOffset) == Err(KernelPastEof(kernelOffset))
    ensures offset + h * w <= |buf| && kernelOffset + 16 <= |buf| && (h < 4 || w < 4) ==>
      ConvOf(buf, h, w, offset, kernelOffset) == Err(ImageTooSmall)
  {
    ReadImageOutcome(buf, offset, h, w);
    ReadKernelAt(buf, kernelOffset, 0, 0);
    if offset + h * w <= |buf| {
      RectOf(ReadImageI8(buf, offset, h, w).value, h, w);
    }
  }

  /** With an activation selected (any spelling but the exact word "none",
      including "NONE" and the empty string), a non-square convolution
      output is refused by the average pool unless padding leaves fewer
      than two rows or columns; a square one must have an even side. */
  lemma ActivatedNeedsEvenSquare(conv: Mat, act: string, padding: int)
    requires Rect(conv) && |conv| > 0 && act != "none" && ActivationOf(act).Ok?
    requires |conv| + PadAmount(padding) >= 2 && Cols(conv) + PadAmount(padding) >= 2
    ensures PostConv(conv, act, padding).Err? <==>
      |conv| != Cols(conv) || (|conv| + PadAmount(padding)) % 2 != 0
    ensures |conv| != Cols(conv) ==> PostConv(conv, act, padding) == Err(NotSquare)
    ensures |conv| == Cols(conv) && (|conv| + PadAmount(padding)) % 2 != 0 ==>
      PostConv(conv, act, padding) == Err(OddSide)
  {
    var padded := Activated(conv, act, padding).value;
    RectOf(padded, |conv| + PadAmount(padding), Cols(conv) + PadAmount(padding));
    AvgPoolOutcome(padded, 0, 0);
  }

  /** "NONE" and "none" differ: the first passes the exact-word test, so the
      pool runs and refuses a non-square array that "none" lets through. */
  lemma NoneIsCaseSensitive(conv: Mat)
    requires Rect(conv) && |conv| >= 2 && Cols(conv) >= 2 && |conv| != Cols(conv)
    ensures PostConv(conv, "none", 0) == Ok(conv)
    ensures PostConv(conv, "NONE", 0) == Err(NotSquare)
  {
    assert Lower("NONE") == "none";
    ActivatedNeedsEvenSquare(conv, "NONE", 0);
  }

  /** With `--act none` the final array is the convolution output widened
      with zero columns to a multiple of 8. */
  lemma NoActivationKeepsConv(buf: seq<Byte>, cfg: Config)
    requires cfg.act == "none"
    requires ConvOf(buf, cfg.h, cfg.w, cfg.offset, cfg.kernelOffset).Ok?
    ensures var conv := ConvOf(buf, cfg.h, cfg.w, cfg.offset, cfg.kernelOffset).value;
      && RunImage(buf, cfg).Ok?
      && |RunImage(buf, cfg).value| == cfg.h - 3
      && Cols(conv) <= Cols(RunImage(buf, cfg).value) < Cols(conv) + 8
      && Corner(RunImage(buf, cfg).value, |conv|, Cols(conv)) == conv
      && forall i, j :: 0 <= i < |conv| && Cols(conv) <= j < Cols(RunImage(buf, cfg).value) ==> RunImage(buf, cfg).value[i][j] == 0
  {
    var conv := ConvOf(buf, cfg.h, cfg.w, cfg.offset, cfg.kernelOffset).value;
    PadColsSpec(conv);
  }

  /** Every cell lies in `[-b, b]`. */
  predicate Bounded(m: Mat, b: int) {
    forall i, j :: 0 <= i < |m| && 0 <= j < |m[i]| ==> -b <= m[i][j] <= b
  }

  /** The convolution `main` computes stays within 16 * 128 * 128 in
      magnitude. */
  lemma ConvOfBounded(buf: seq<Byte>, h: nat, w: nat, offset: int, kernelOffset: int)
    requires ConvOf(buf, h, w, offset, kernelOffset).Ok?
    ensures Bounded(ConvOf(buf, h, w, offset, kernelOffset).value, 262144)
  {
    var img := ReadImageI8(buf, offset, h, w).value;
    RectOf(img, h, w);
    var ker := ReadKernelI8(buf, kernelOffset).value;
    var conv := ConvOf(buf, h, w, offset, kernelOffset).value;
    assert conv == Conv4x4Valid(img, ker).value;
    forall y, x | 0 <= y < |conv| && 0 <= x < |conv[y]|
      ensures -262144 <= conv[y][x] <= 262144
    {
      ConvNoWrap(img, ker, y, x);
    }
  }

  /** Activation never moves a value away from 0 and padding adds zeros,
      so the bound of the convolution holds for the padded array too. */
  lemma ActivatedBounded(conv: Mat, act: string, padding: int, b: int)
    requires Rect(conv) && Bounded(conv, b) && b >= 0 && ActivationOf(act).Ok?
    ensures Activated(conv, act, padding).Ok?
    ensures Bounded(Activated(conv, act, padding).value, b)
  {
    var kind := ActivationOf(act).value;
    var p := Activated(conv, act, padding).value;
    forall i, j | 0 <= i < |p| && 0 <= j < |p[i]|
      ensures -b <= p[i][j] <= b
    {
      if i < |conv| && j < Cols(conv) {
        assert j < |conv[i]|;
        var x := conv[i][j];
        assert p[i][j] == Activate(kind, x);
      }
    }
  }

  /** On a square of even side whose cells lie within 262144 in magnitude,
      every 2x2 sum lies within 4 * 262144, well inside int32, so the
      pool's int32 cast changes nothing and each cell is the truncated
      quarter of its block sum. */
  lemma PoolNoWrap(x: Mat, i: nat, j: nat)
    requires Rect(x) && Bounded(x, 262144) && |x| == Cols(x) && |x| >= 2 && |x| % 2 == 0
    requires i < |x| / 2 && j < |x| / 2
    ensures AvgPool4x4Stride4ValidI32(x).Ok?
    ensures HasBlock(x, i, j)
    ensures -1048576 <= BlockSum(BlockAt(x, i, j)) <= 1048576
    ensures AvgPool4x4Stride4ValidI32(x).value[i][j] == DivTtz(BlockSum(BlockAt(x, i, j)), 4)
  {
    AvgPoolOutcome(x, i, j);
    var s := BlockSum(BlockAt(x, i, j));
    assert -1048576 <= s <= 1048576;
    assert InI32(s);
  }

  /** The activated path of `main`: cell `(i, j)` of the final array is,
      left of the pooled width, the truncated quarter of a 2x2 block sum of
      the activated and padded convolution, with no wrap-around, and 0 in
      the columns added to reach a multiple of 8. A padded array with
      fewer than two rows or columns leaves the final array empty. */
  lemma RunActivatedCell(buf: seq<Byte>, cfg: Config, i: nat, j: nat)
    requires RunImage(buf, cfg).Ok? && cfg.act != "none"
    ensures ConvOf(buf, cfg.h, cfg.w, cfg.offset, cfg.kernelOffset).Ok?
    ensures Activated(ConvOf(buf, cfg.h, cfg.w, cfg.offset, cfg.kernelOffset).value, cfg.act, cfg.padding).Ok?
    ensures var p := Activated(ConvOf(buf, cfg.h, cfg.w, cfg.offset, cfg.kernelOffset).value, cfg.act, cfg.padding).value;
      var r := RunImage(buf, cfg).value;
      && (|p| < 2 || Cols(p) < 2 ==> r == [])
      && (|p| >= 2 && Cols(p) >= 2 ==>
            && |p| == Cols(p) && |p| % 2 == 0 && |r| == |p| / 2
            && (i < |r| && j < Cols(r) && j < |p| / 2 ==>
                  && HasBlock(p, i, j)
                  && -1048576 <= BlockSum(BlockAt(p, i, j)) <= 1048576
                  && r[i][j] == DivTtz(BlockSum(BlockAt(p, i, j)), 4))
            && (i < |r| && |p| / 2 <= j < Cols(r) ==> r[i][j] == 0))
  {
    var conv := ConvOf(buf, cfg.h, cfg.w, cfg.offset, cfg.kernelOffset).value;
    ConvOfBounded(buf, cfg.h, cfg.w, cfg.offset, cfg.kernelOffset);
    assert ActivationOf(cfg.act).Ok?;
    ActivatedBounded(conv, cfg.act, cfg.padding, 262144);
    var p := Activated(conv, cfg.act, cfg.padding).value;
    var pooled := AvgPool4x4Stride4ValidI32(p).value;
    var r := RunImage(buf, cfg).value;
    assert r == PadColsToMultipleOf8(pooled);
    AvgPoolOutcome(p, i, j);
    if |p| >= 2 && Cols(p) >= 2 {
      PadColsSpec(pooled);
      if i < |r| && j < Cols(r) && j < |p| / 2 {
        PoolNoWrap(p, i, j);
        assert Corner(r, |pooled|, Cols(pooled))[i] == pooled[i];
        assert r[i][..Cols(pooled)][j] == pooled[i][j];
      }
    }
  }

  lemma MulOf8(h: nat, w: nat)
    requires w % 8 == 0
    ensures (h * w) % 8 == 0
  {
    var k := w / 8;
    assert h * w == 8 * (h * k);
    DivModUnique(h * w, 8, h * k, 0);
  }

  /** int8 values written by `write_mem_addr8_from_i8` in whole 8-byte
      lines load back to bytes whose int8 view is the values. */
  lemma I8LinesReadBack(vals: seq<int>)
    requires |vals| > 0 && |vals| % 8 == 0
    requires forall k :: 0 <= k < |vals| ==> -128 <= vals[k] < 128
    ensures LoadFile(WriteLines(WriteMemAddr8FromI8(vals, "little"))).Ok?
    ensures Signed(LoadFile(WriteLines(WriteMemAddr8FromI8(vals, "little"))).value) == vals
  {
    var u8 := seq(|vals|, i requires 0 <= i < |vals| => FromSigned(vals[i]));
    assert WriteMemAddr8FromI8(vals, "little") == WriteMemAddr8FromU8(u8, "little");
    MemAddr8RoundTrip(u8);
    FrontPadTailAligned(u8, 8);
    assert Signed(u8) == vals;
  }

  /** Reading the `--out-mem` lines back with the dump loader and the int8
      view gives exactly the clipped final values in row-major order: the
      width is a multiple of 8, so no line is short and no padding byte
      appears. */
  lemma OutMemReadsBack(text: string, cfg: Config)
    requires Run(text, cfg).Ok?
    requires |Flatten(ClipMat(Run(text, cfg).value))| > 0
    ensures OutMemLines(text, cfg).Ok?
    ensures LoadFile(WriteLines(OutMemLines(text, cfg).value)).Ok?
    ensures Signed(LoadFile(WriteLines(OutMemLines(text, cfg).value)).value) == Flatten(ClipMat(Run(text, cfg).value))
  {
    var fin := Run(text, cfg).value;
    assert OutMemLines(text, cfg) == Ok(OutMemOf(fin));
    OutMemOfReadsBack(fin);
  }

  /** The same for any final array whose width is a multiple of 8. */
  lemma OutMemOfReadsBack(fin: Mat)
    requires Rect(fin) && Cols(fin) % 8 == 0 && |Flatten(ClipMat(fin))| > 0
    ensures LoadFile(WriteLines(OutMemOf(fin))).Ok?
    ensures Signed(LoadFile(WriteLines(OutMemOf(fin))).value) == Flatten(ClipMat(fin))
  {
    var c := ClipMat(fin);
    RectOf(c, |fin|, Cols(fin));
    var vals := Flatten(c);
    FlattenLength(c, |c|, Cols(c));
    MulOf8(|c|, Cols(c));
    FlattenI8(c);
    I8LinesReadBack(vals);
  }
}
