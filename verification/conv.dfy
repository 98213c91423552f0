/** `conv4x4_valid_i8_i8` of conv.py: a 4x4 "valid" window at stride 1.
    The kernel is not flipped (the flip at conv.py:216 is commented out),
    so despite its name the operation is a cross-correlation. */
module Conv {
  import opened Results
  import opened Arith
  import opened Matrix

  /** The image rows and columns a window at `(y, x)` touches exist. */
  predicate WindowFits(img: Mat, y: nat, x: nat) {
    y + 4 <= |img| && forall i :: y <= i < y + 4 ==> x + 4 <= |img[i]|
  }

  /** Kernel row `dy` times the image row under it, over the first `n`
      kernel columns, for the window at `(y, x)`. */
  function RowTerms(img: Mat, ker: Mat, y: nat, x: nat, dy: nat, n: nat): int
    requires WindowFits(img, y, x) && IsRect(ker, 4, 4) && dy < 4 && n <= 4
  {
    if n == 0 then 0
    else RowTerms(img, ker, y, x, dy, n - 1) + img[y + dy][x + n - 1] * ker[dy][n - 1]
  }

  /** The first `n` kernel rows of the window sum. */
  function RowsTerms(img: Mat, ker: Mat, y: nat, x: nat, n: nat): int
    requires WindowFits(img, y, x) && IsRect(ker, 4, 4) && n <= 4
  {
    if n == 0 then 0
    else RowsTerms(img, ker, y, x, n - 1) + RowTerms(img, ker, y, x, n - 1, 4)
  }

  /** Output cell `(y, x)` of the correlation: the sum over `dy, dx < 4` of
      `img[y + dy][x + dx] * ker[dy][dx]`. */
  function WindowSum(img: Mat, ker: Mat, y: nat, x: nat): int
    requires WindowFits(img, y, x) && IsRect(ker, 4, 4)
  {
    RowsTerms(img, ker, y, x, 4)
  }

  /** The image has `oh + 3` rows and `ow + 3` columns. */
  predicate Spans(img: Mat, oh: nat, ow: nat) {
    IsRect(img, oh + 3, ow + 3)
  }

  /** `out += img[dy:dy+oh, dx:dx+ow] * k`: one step of the source's loop. */
  function AddShifted(acc: Mat, img: Mat, oh: nat, ow: nat, dy: nat, dx: nat, k: int): (r: Mat)
    requires Spans(img, oh, ow) && IsRect(acc, oh, ow) && dy < 4 && dx < 4
    ensures IsRect(r, oh, ow)
    ensures forall y, x :: 0 <= y < oh && 0 <= x < ow ==> r[y][x] == acc[y][x] + img[y + dy][x + dx] * k
  {
    seq(oh, y requires 0 <= y < oh => seq(ow, x requires 0 <= x < ow => acc[y][x] + img[y + dy][x + dx] * k))
  }

  /** The accumulator after the first `t` of the 16 steps, taken in the
      source's order: `dy` in the outer loop, `dx` in the inner one. */
  function Accumulate(img: Mat, ker: Mat, oh: nat, ow: nat, t: nat): (r: Mat)
    requires Spans(img, oh, ow) && IsRect(ker, 4, 4) && t <= 16
    ensures IsRect(r, oh, ow)
  {
    if t == 0 then Zeros(oh, ow)
    else
      var s := t - 1;
      AddShifted(Accumulate(img, ker, oh, ow, s), img, oh, ow, s / 4, s % 4, ker[s / 4][s % 4])
  }

  lemma FitsInCover(img: Mat, oh: nat, ow: nat, y: nat, x: nat)
    requires Spans(img, oh, ow) && y < oh && x < ow
    ensures WindowFits(img, y, x)
  {
  }

  /** After `t` steps, a cell holds the whole rows `dy < t / 4` of its
      window sum and the first `t % 4` products of row `t / 4`. */
  lemma {:induction false} AccumulateCell(img: Mat, ker: Mat, oh: nat, ow: nat, t: nat, y: nat, x: nat)
    requires Spans(img, oh, ow) && IsRect(ker, 4, 4) && t <= 16 && y < oh && x < ow
    ensures WindowFits(img, y, x)
    ensures t < 16 ==> Accumulate(img, ker, oh, ow, t)[y][x]
                       == RowsTerms(img, ker, y, x, t / 4) + RowTerms(img, ker, y, x, t / 4, t % 4)
    ensures t == 16 ==> Accumulate(img, ker, oh, ow, t)[y][x] == WindowSum(img, ker, y, x)
  {
    FitsInCover(img, oh, ow, y, x);
    if t > 0 {
      var s := t - 1;
      AccumulateCell(img, ker, oh, ow, s, y, x);
      var a := s / 4;
      var b := s % 4;
      StepIndex(s);
      AccumulateStep(img, ker, oh, ow, s, y, x);
      RowTermsStep(img, ker, y, x, a, b);
      if b == 3 {
        assert RowsTerms(img, ker, y, x, a + 1) == RowsTerms(img, ker, y, x, a) + RowTerms(img, ker, y, x, a, 4);
      }
    }
  }

  /** Step `s` adds one product to every cell. */
  lemma AccumulateStep(img: Mat, ker: Mat, oh: nat, ow: nat, s: nat, y: nat, x: nat)
    requires Spans(img, oh, ow) && IsRect(ker, 4, 4) && s < 16 && y < oh && x < ow
    ensures s / 4 < 4 && s % 4 < 4
    ensures Accumulate(img, ker, oh, ow, s + 1)[y][x]
         == Accumulate(img, ker, oh, ow, s)[y][x] + img[y + s / 4][x + s % 4] * ker[s / 4][s % 4]
  {
  }

  lemma RowTermsStep(img: Mat, ker: Mat, y: nat, x: nat, dy: nat, n: nat)
    requires WindowFits(img, y, x) && IsRect(ker, 4, 4) && dy < 4 && n < 4
    ensures RowTerms(img, ker, y, x, dy, n + 1) == RowTerms(img, ker, y, x, dy, n) + img[y + dy][x + n] * ker[dy][n]
  {
  }

  /** Step `s` is kernel cell `(s / 4, s % 4)`; the next step moves one
      column right, or to the start of the next row after column 3. */
  lemma StepIndex(s: nat)
    requires s < 16
    ensures s == 4 * (s / 4) + s % 4 && s / 4 < 4 && s % 4 < 4
    ensures s % 4 == 3 ==> (s + 1) / 4 == s / 4 + 1 && (s + 1) % 4 == 0
    ensures s % 4 < 3 ==> (s + 1) / 4 == s / 4 && (s + 1) % 4 == s % 4 + 1
  {
  }

  /** `conv4x4_valid_i8_i8(img, ker)`: refuses an image below 4x4,
      otherwise yields the `(H-3) x (W-3)` accumulator after all 16 steps.
      The accumulator is int32, so each cell is the exact sum wrapped to 32
      bits. */
  function Conv4x4Valid(img: Mat, ker: Mat): (r: Result<Mat>)
    requires Rect(img) && IsRect(ker, 4, 4)
    ensures r.Err? <==> |img| < 4 || Cols(img) < 4
    ensures r.Err? ==> r.error == ImageTooSmall
    ensures r.Ok? ==> IsRect(r.value, |img| - 3, Cols(img) - 3)
  {
    if |img| < 4 || Cols(img) < 4 then Err(ImageTooSmall)
    else
      var oh := |img| - 3;
      var ow := Cols(img) - 3;
      var acc := Accumulate(img, ker, oh, ow, 16);
      Ok(seq(oh, y requires 0 <= y < oh => seq(ow, x requires 0 <= x < ow => Wrap32(acc[y][x]))))
  }

  /** Output cell `(y, x)` is the window sum at `(y, x)` with the kernel
      unflipped: `img[y + dy][x + dx]` meets `ker[dy][dx]`. */
  lemma ConvCell(img: Mat, ker: Mat, y: nat, x: nat)
    requires Rect(img) && IsRect(ker, 4, 4) && Conv4x4Valid(img, ker).Ok?
    requires y < |img| - 3 && x < Cols(img) - 3
    ensures WindowFits(img, y, x)
    ensures Conv4x4Valid(img, ker).value[y][x] == Wrap32(WindowSum(img, ker, y, x))
  {
    AccumulateCell(img, ker, |img| - 3, Cols(img) - 3, 16, y, x);
  }

  /** The product of two int8 values is at most 128 * 128 in magnitude. */
  lemma ProductBound(a: int, b: int)
    requires InI8(a) && InI8(b)
    ensures -16384 <= a * b <= 16384
  {
    var ma: nat := if a < 0 then -a else a;
    var mb: nat := if b < 0 then -b else b;
    MulMono(ma, 128, mb);
    MulMono(mb, 128, 128);
    assert ma * mb <= 16384;
    if a < 0 && b < 0 {
      assert a * b == ma * mb;
    } else if a < 0 {
      assert a * b == -(ma * mb);
    } else if b < 0 {
      assert a * b == -(ma * mb);
    } else {
      assert a * b == ma * mb;
    }
  }

  lemma {:induction false} RowTermsBound(img: Mat, ker: Mat, y: nat, x: nat, dy: nat, n: nat)
    requires WindowFits(img, y, x) && IsRect(ker, 4, 4) && dy < 4 && n <= 4
    requires AllI8(img) && AllI8(ker)
    ensures -16384 * n <= RowTerms(img, ker, y, x, dy, n) <= 16384 * n
  {
    if n > 0 {
      RowTermsBound(img, ker, y, x, dy, n - 1);
      ProductBound(img[y + dy][x + n - 1], ker[dy][n - 1]);
    }
  }

  lemma {:induction false} RowsTermsBound(img: Mat, ker: Mat, y: nat, x: nat, n: nat)
    requires WindowFits(img, y, x) && IsRect(ker, 4, 4) && n <= 4
    requires AllI8(img) && AllI8(ker)
    ensures -65536 * n <= RowsTerms(img, ker, y, x, n) <= 65536 * n
  {
    if n > 0 {
      RowsTermsBound(img, ker, y, x, n - 1);
      RowTermsBound(img, ker, y, x, n - 1, 4);
    }
  }

  /** For int8 image and kernel every window sum is at most 16 * 128 * 128
      in magnitude, so the int32 accumulator never wraps: each output cell
      is exactly the window sum. */
  lemma ConvNoWrap(img: Mat, ker: Mat, y: nat, x: nat)
    requires Rect(img) && IsRect(ker, 4, 4) && AllI8(img) && AllI8(ker)
    requires Conv4x4Valid(img, ker).Ok? && y < |img| - 3 && x < Cols(img) - 3
    ensures WindowFits(img, y, x)
    ensures -262144 <= Conv4x4Valid(img, ker).value[y][x] <= 262144
    ensures Conv4x4Valid(img, ker).value[y][x] == WindowSum(img, ker, y, x)
  {
    ConvCell(img, ker, y, x);
    RowsTermsBound(img, ker, y, x, 4);
  }
}
