/** `read_kernel_i8` and `read_image_i8` of conv.py: a bounds check on the
    end offset, a slice of the byte buffer, the int8 view of those bytes
    and a reshape. The slice follows Python's rules, so a negative offset
    counts from the end of the buffer. */
module Extract {
  import opened Bytes
  import opened Results
  import opened Matrix

  /** Where a slice bound lands in a sequence of `n` elements. */
  function SliceBound(i: int, n: nat): (k: nat)
    ensures k <= n
    ensures 0 <= i <= n ==> k == i
  {
    if i < 0 then (if i + n < 0 then 0 else i + n)
    else if i > n then n
    else i
  }

  /** Python's `s[i:j]` with step 1. */
  function PySlice<T>(s: seq<T>, i: int, j: int): (r: seq<T>)
    ensures 0 <= i <= j <= |s| ==> r == s[i..j]
    ensures |r| <= |s|
  {
    var a := SliceBound(i, |s|);
    var b := SliceBound(j, |s|);
    if a < b then s[a..b] else []
  }

  /** `view(np.int8)` of a byte sequence. */
  function Signed(bs: seq<Byte>): (xs: seq<int>)
    ensures |xs| == |bs|
    ensures forall i :: 0 <= i < |bs| ==> xs[i] == ToSigned(bs[i])
  {
    seq(|bs|, i requires 0 <= i < |bs| => ToSigned(bs[i]))
  }

  /** The slice `buf[off:off+h*w]` viewed as int8 and reshaped to `h` by `w`;
      numpy refuses the reshape when the slice came out shorter. */
  function View(buf: seq<Byte>, off: int, h: nat, w: nat): (r: Result<Mat>)
    ensures r.Ok? ==> IsRect(r.value, h, w) && AllI8(r.value)
  {
    var sl := PySlice(buf, off, off + h * w);
    if |sl| != h * w then Err(CannotReshape)
    else
      ReshapeI8(Signed(sl), h, w);
      Ok(Reshape(Signed(sl), h, w))
  }

  /** `read_kernel_i8(buf, off)`. */
  function ReadKernelI8(buf: seq<Byte>, off: int): (r: Result<Mat>)
    ensures r.Ok? ==> IsRect(r.value, 4, 4) && AllI8(r.value)
  {
    if off + 16 > |buf| then Err(KernelPastEof(off))
    else View(buf, off, 4, 4)
  }

  /** `read_image_i8(buf, off, H, W)`. */
  function ReadImageI8(buf: seq<Byte>, off: int, h: nat, w: nat): (r: Result<Mat>)
    ensures r.Ok? ==> IsRect(r.value, h, w) && AllI8(r.value)
  {
    if off + h * w > |buf| then Err(ImagePastEof(off, h * w))
    else View(buf, off, h, w)
  }

  /** A window that lies inside the buffer reads cell `(r, c)` from byte
      `off + r * w + c`, as a two's-complement int8. */
  lemma ViewInside(buf: seq<Byte>, off: nat, h: nat, w: nat, r: nat, c: nat)
    requires off + h * w <= |buf| && r < h && c < w
    ensures View(buf, off, h, w).Ok?
    ensures IsRect(View(buf, off, h, w).value, h, w)
    ensures off + r * w + c < |buf|
    ensures View(buf, off, h, w).value[r][c] == ToSigned(buf[off + r * w + c])
  {
    var need := h * w;
    var sl := buf[off..off + need];
    assert PySlice(buf, off, off + need) == sl;
    var xs := Signed(sl);
    var k := r * w + c;
    ReshapeCell(xs, h, w, r, c, k);
    assert sl[k] == buf[off + k];
  }

  /** For a non-negative offset the kernel read fails exactly when the 16
      bytes run past the end of the buffer, and otherwise cell `(r, c)` is
      byte `off + 4r + c` read as int8. */
  lemma ReadKernelAt(buf: seq<Byte>, off: int, r: nat, c: nat)
    requires off >= 0 && r < 4 && c < 4
    ensures ReadKernelI8(buf, off).Err? <==> off + 16 > |buf|
    ensures ReadKernelI8(buf, off).Err? ==> ReadKernelI8(buf, off).error == KernelPastEof(off)
    ensures ReadKernelI8(buf, off).Ok? ==>
      && IsRect(ReadKernelI8(buf, off).value, 4, 4)
      && ReadKernelI8(buf, off).value[r][c] == ToSigned(buf[off + 4 * r + c])
  {
    if off + 16 <= |buf| {
      ViewInside(buf, off, 4, 4, r, c);
    }
  }

  /** A negative offset counts back from the end: the read succeeds exactly
      when the offset is between `-|buf|` and `-17`, and then reads the 16
      bytes starting at `|buf| + off`. From -16 to -1 the end bound
      `off + 16` is not negative, so it does not count from the end: the
      slice comes out short and the reshape fails. */
  lemma ReadKernelFromEnd(buf: seq<Byte>, off: int)
    requires off < 0
    ensures ReadKernelI8(buf, off).Ok? <==> -|buf| <= off <= -17
    ensures off + 16 <= |buf| && ReadKernelI8(buf, off).Err? ==> ReadKernelI8(buf, off).error == CannotReshape
    ensures ReadKernelI8(buf, off).Ok? ==> ReadKernelI8(buf, off) == View(buf, |buf| + off, 4, 4)
  {
    var n := |buf|;
    if -n <= off <= -17 {
      assert PySlice(buf, off, off + 16) == buf[n + off..n + off + 16];
    }
  }

  /** For a non-negative offset the image read fails exactly when the
      `h * w` bytes run past the end, and otherwise it is the in-buffer
      window of `ViewInside`. */
  lemma ReadImageOutcome(buf: seq<Byte>, off: int, h: nat, w: nat)
    requires off >= 0
    ensures ReadImageI8(buf, off, h, w).Err? <==> off + h * w > |buf|
    ensures ReadImageI8(buf, off, h, w).Err? ==> ReadImageI8(buf, off, h, w).error == ImagePastEof(off, h * w)
    ensures ReadImageI8(buf, off, h, w).Ok? ==> ReadImageI8(buf, off, h, w) == View(buf, off, h, w)
    ensures ReadImageI8(buf, off, h, w).Ok? ==> IsRect(ReadImageI8(buf, off, h, w).value, h, w)
  {
    if off + h * w <= |buf| {
      assert PySlice(buf, off, off + h * w) == buf[off..off + h * w];
    }
  }
}
