/** The element-wise and padding stages of conv.py: `apply_activation`,
    `zero_pad`, `pad_cols_to_multiple_of_8` and the final int8 clip. */
module Stages {
  import opened Text
  import opened Results
  import opened Arith
  import opened Matrix

  /** The activations `apply_activation` knows. */
  datatype Activation = Identity | Relu | Leaky

  /** The activation a name selects: empty or any-case "none" is the
      identity, then "relu", then the four spellings of leaky ReLU; any
      other name is refused. */
  function ActivationOf(act: string): (r: Result<Activation>)
    ensures r.Err? ==> r.error == UnsupportedActivation(act)
  {
    var a := Lower(act);
    if |act| == 0 || a == "none" then Ok(Identity)
    else if a == "relu" then Ok(Relu)
    else if a == "lrelu" || a == "leaky" || a == "leaky_relu" || a == "leaky-relu" then Ok(Leaky)
    else Err(UnsupportedActivation(act))
  }

  /** One cell. Leaky ReLU divides a negative value by 4 in floating point
      and casts back to int32, which truncates toward zero. */
  function Activate(kind: Activation, x: int): (r: int)
    ensures x >= 0 ==> r == x
    ensures x < 0 ==> x <= r <= 0
    ensures kind == Identity ==> r == x
    ensures kind == Relu ==> r >= 0
  {
    match kind
    case Identity => x
    case Relu => if x > 0 then x else 0
    case Leaky => if x >= 0 then x else DivTtz(x, 4)
  }

  /** ReLU is `max(x, 0)`. */
  lemma ReluIsMax(x: int)
    ensures Activate(Relu, x) >= 0 && Activate(Relu, x) >= x
    ensures Activate(Relu, x) == x || Activate(Relu, x) == 0
  {
  }

  /** Leaky ReLU keeps a non-negative value and maps a negative one to its
      quarter truncated toward zero: between `x` and 0, less than one step of
      4 away from `x / 4`. `alpha` plays no part. */
  lemma LeakyQuarter(x: int)
    ensures x >= 0 ==> Activate(Leaky, x) == x
    ensures x < 0 ==> IsTruncQuotient(x, 4, Activate(Leaky, x))
    ensures x < 0 ==> x <= Activate(Leaky, x) <= 0
  {
    if x < 0 {
      DivTtzIsTruncQuotient(x, 4, DivTtz(x, 4));
    }
  }

  /** The worked examples: -9 becomes -2 (not the floor, -3) and -3 becomes 0. */
  lemma LeakyExamples()
    ensures Activate(Leaky, -9) == -2
    ensures Activate(Leaky, -3) == 0
    ensures Activate(Leaky, 9) == 9
  {
  }

  function Map(m: Mat, kind: Activation): (r: Mat)
    ensures |r| == |m|
    ensures forall i :: 0 <= i < |m| ==> |r[i]| == |m[i]|
    ensures forall i, j :: 0 <= i < |m| && 0 <= j < |m[i]| ==> r[i][j] == Activate(kind, m[i][j])
  {
    seq(|m|, i requires 0 <= i < |m| => seq(|m[i]|, j requires 0 <= j < |m[i]| => Activate(kind, m[i][j])))
  }

  /** `apply_activation(arr, act, alpha)`. */
  function ApplyActivation(m: Mat, act: string): (r: Result<Mat>)
    ensures r.Err? <==> ActivationOf(act).Err?
    ensures r.Err? ==> r.error == UnsupportedActivation(act)
    ensures r.Ok? ==> |r.value| == |m| && Cols(r.value) == Cols(m)
    ensures r.Ok? ==> forall i :: 0 <= i < |m| ==> |r.value[i]| == |m[i]|
    ensures r.Ok? && Rect(m) ==> Rect(r.value)
    ensures r.Ok? ==> forall i, j :: 0 <= i < |m| && 0 <= j < |m[i]| ==>
      r.value[i][j] == Activate(ActivationOf(act).value, m[i][j])
  {
    var kind :- ActivationOf(act);
    Ok(Map(m, kind))
  }

  /** The names `apply_activation` accepts, compared after lower-casing. */
  lemma ActivationNames(act: string)
    ensures ActivationOf(act).Ok? <==>
      |act| == 0 || Lower(act) in {"none", "relu", "lrelu", "leaky", "leaky_relu", "leaky-relu"}
    ensures ActivationOf(act) == Ok(Identity) <==> |act| == 0 || Lower(act) == "none"
  {
  }

  /** ReLU applied twice is ReLU applied once. */
  lemma ReluIdempotent(m: Mat)
    ensures ApplyActivation(m, "relu").Ok?
    ensures ApplyActivation(ApplyActivation(m, "relu").value, "relu") == ApplyActivation(m, "relu")
  {
    LowerOfLowerAscii("relu");
    var r := Map(m, Relu);
    var rr := Map(r, Relu);
    forall i | 0 <= i < |m|
      ensures rr[i] == r[i]
    {
      assert forall j :: 0 <= j < |r[i]| ==> rr[i][j] == r[i][j];
    }
    assert rr == r;
  }

  /** `zero_pad(arr, pad)`: a non-positive pad returns the input; otherwise
      `pad` zero rows go below and `pad` zero columns to the right. Only the
      bottom and right grow, although the docstring says all sides. */
  function ZeroPad(m: Mat, pad: int): (r: Mat)
    requires Rect(m)
    ensures pad <= 0 ==> r == m
    ensures pad > 0 ==> IsRect(r, |m| + pad, Cols(m) + pad)
    ensures Rect(r)
  {
    if pad <= 0 then m
    else
      var h := |m|;
      var w := Cols(m);
      seq(h + pad, i requires 0 <= i < h + pad =>
        seq(w + pad, j requires 0 <= j < w + pad => if i < h && j < w then m[i][j] else 0))
  }

  /** The top-left `h` by `w` corner. */
  function Corner(m: Mat, h: nat, w: nat): (r: Mat)
    requires h <= |m| && forall i :: 0 <= i < h ==> w <= |m[i]|
    ensures IsRect(r, h, w)
  {
    seq(h, i requires 0 <= i < h => m[i][..w])
  }

  /** Padding keeps the input in the top-left corner and fills the rest
      with zeros. */
  lemma ZeroPadCorner(m: Mat, pad: int)
    requires Rect(m) && pad > 0
    ensures Corner(ZeroPad(m, pad), |m|, Cols(m)) == m
    ensures forall i, j :: 0 <= i < |m| + pad && 0 <= j < Cols(m) + pad && (i >= |m| || j >= Cols(m))
                           ==> ZeroPad(m, pad)[i][j] == 0
  {
    var r := ZeroPad(m, pad);
    var c := Corner(r, |m|, Cols(m));
    forall i | 0 <= i < |m|
      ensures c[i] == m[i]
    {
      assert |c[i]| == |m[i]|;
    }
  }

  /** `np.clip(x, -128, 127)`. */
  function ClipI8(x: int): (r: int)
    ensures InI8(r)
    ensures InI8(x) ==> r == x
    ensures x < -128 ==> r == -128
    ensures x > 127 ==> r == 127
  {
    if x < -128 then -128 else if x > 127 then 127 else x
  }

  function ClipMat(m: Mat): (r: Mat)
    ensures |r| == |m| && AllI8(r)
    ensures forall i :: 0 <= i < |m| ==> |r[i]| == |m[i]|
    ensures forall i, j :: 0 <= i < |m| && 0 <= j < |m[i]| ==> r[i][j] == ClipI8(m[i][j])
  {
    seq(|m|, i requires 0 <= i < |m| => seq(|m[i]|, j requires 0 <= j < |m[i]| => ClipI8(m[i][j])))
  }

  /** `pad_cols_to_multiple_of_8(a)`: zero columns on the right up to the
      next multiple of 8; a width already a multiple of 8 is kept. */
  function PadColsToMultipleOf8(m: Mat): (r: Mat)
    requires Rect(m)
    ensures IsRect(r, |m|, if Cols(m) % 8 == 0 then Cols(m) else Cols(m) + 8 - Cols(m) % 8)
    ensures Rect(r) && Cols(r) % 8 == 0
  {
    var w := Cols(m);
    var rem := w % 8;
    if rem == 0 then m
    else
      WidenedIsMultipleOf8(w);
      assert IsRect(m, |m|, w);
      var r := seq(|m|, i requires 0 <= i < |m| => m[i] + ZeroRow(8 - rem));
      assert forall i :: 0 <= i < |m| ==> r[i] == m[i] + ZeroRow(8 - rem);
      r
  }

  lemma WidenedIsMultipleOf8(w: nat)
    requires w % 8 != 0
    ensures (w + 8 - w % 8) % 8 == 0
  {
    var k := w / 8;
    assert w == 8 * k + w % 8;
    DivModUnique(w + 8 - w % 8, 8, k + 1, 0);
  }

  function ZeroRow(n: nat): (z: seq<int>)
    ensures |z| == n && forall j :: 0 <= j < n ==> z[j] == 0
  {
    seq(n, _ => 0)
  }

  /** The padded width is the least multiple of 8 not below the old one;
      existing cells stay, new ones are 0, and padding again changes
      nothing. */
  lemma PadColsSpec(m: Mat)
    requires Rect(m) && |m| > 0
    ensures var w := Cols(PadColsToMultipleOf8(m));
      && w % 8 == 0 && Cols(m) <= w < Cols(m) + 8
      && Rect(PadColsToMultipleOf8(m))
      && Corner(PadColsToMultipleOf8(m), |m|, Cols(m)) == m
      && (forall i, j :: 0 <= i < |m| && Cols(m) <= j < w ==> PadColsToMultipleOf8(m)[i][j] == 0)
      && PadColsToMultipleOf8(PadColsToMultipleOf8(m)) == PadColsToMultipleOf8(m)
  {
    var r := PadColsToMultipleOf8(m);
    var w := Cols(m);
    var c := Corner(r, |m|, w);
    forall i | 0 <= i < |m|
      ensures c[i] == m[i]
      ensures forall j :: w <= j < |r[i]| ==> r[i][j] == 0
    {
      assert |c[i]| == |m[i]|;
      if w % 8 != 0 {
        assert r[i] == m[i] + ZeroRow(8 - w % 8);
      }
    }
  }
}
