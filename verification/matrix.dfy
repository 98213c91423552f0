/** Two-dimensional integer arrays as rectangular sequences of rows, and
    the row-major flattening that numpy's `reshape(-1)` and `reshape(H, W)`
    perform. */
module Matrix {

  type Mat = seq<seq<int>>

  /** `m` has `h` rows of `w` cells each. */
  predicate IsRect<T>(m: seq<seq<T>>, h: nat, w: nat) {
    |m| == h && forall i :: 0 <= i < h ==> |m[i]| == w
  }

  /** The number of columns; a matrix without rows counts as 0 wide. */
  function Cols<T>(m: seq<seq<T>>): nat {
    if |m| == 0 then 0 else |m[0]|
  }

  predicate Rect<T>(m: seq<seq<T>>) {
    IsRect(m, |m|, Cols(m))
  }

  lemma RectOf<T>(m: seq<seq<T>>, h: nat, w: nat)
    requires IsRect(m, h, w)
    ensures Rect(m) && (h > 0 ==> Cols(m) == w)
  {
  }

  function Zeros(h: nat, w: nat): (z: Mat)
    ensures IsRect(z, h, w)
    ensures forall i, j :: 0 <= i < h && 0 <= j < w ==> z[i][j] == 0
  {
    seq(h, _ => seq(w, _ => 0))
  }

  predicate InI8(x: int) {
    -128 <= x < 128
  }

  /** Every cell fits in an int8. */
  predicate AllI8(m: Mat) {
    forall i, j :: 0 <= i < |m| && 0 <= j < |m[i]| ==> InI8(m[i][j])
  }

  /** `reshape(-1)`: the rows one after the other. */
  function Flatten<T>(m: seq<seq<T>>): seq<T> {
    if |m| == 0 then [] else m[0] + Flatten(m[1..])
  }

  /** Row `r` of an `h`-row, `w`-wide layout ends inside `h * w`. */
  lemma RowEndBound(r: nat, h: nat, w: nat)
    requires r < h
    ensures r * w + w <= h * w
  {
    assert r * w + w == (r + 1) * w;
    MulMono(r + 1, h, w);
  }

  lemma MulMono(a: nat, b: nat, w: nat)
    requires a <= b
    ensures a * w <= b * w
  {
    assert b * w == a * w + (b - a) * w;
  }

  lemma {:induction false} FlattenLength<T>(m: seq<seq<T>>, h: nat, w: nat)
    requires IsRect(m, h, w)
    ensures |Flatten(m)| == h * w
  {
    if h > 0 {
      FlattenLength(m[1..], h - 1, w);
      assert (h - 1) * w + w == h * w;
    }
  }

  /** Flattening a rectangle puts cell `(r, c)` at position `r * w + c`. */
  lemma FlattenIndex<T>(m: seq<seq<T>>, h: nat, w: nat, r: nat, c: nat)
    requires IsRect(m, h, w) && r < h && c < w
    ensures |Flatten(m)| == h * w
    ensures r * w + c < h * w && Flatten(m)[r * w + c] == m[r][c]
  {
    FlattenLength(m, h, w);
    RowEndBound(r, h, w);
    FlattenAt(m, h, w, r, c, r * w + c);
  }

  lemma {:induction false} FlattenAt<T>(m: seq<seq<T>>, h: nat, w: nat, r: nat, c: nat, k: nat)
    requires IsRect(m, h, w) && r < h && c < w && k == r * w + c
    ensures k < |Flatten(m)| && Flatten(m)[k] == m[r][c]
  {
    FlattenLength(m, h, w);
    RowEndBound(r, h, w);
    assert Flatten(m) == m[0] + Flatten(m[1..]);
    if r > 0 {
      RowStep(r, w);
      FlattenAt(m[1..], h - 1, w, r - 1, c, k - w);
    }
  }

  /** Row `r` starts one row width after row `r - 1`. */
  lemma RowStep(r: nat, w: nat)
    requires r > 0
    ensures (r - 1) * w + w == r * w
  {
  }

  /** `reshape(h, w)` of a flat sequence of exactly `h * w` cells. */
  function Reshape<T>(s: seq<T>, h: nat, w: nat): (m: seq<seq<T>>)
    requires |s| == h * w
    ensures IsRect(m, h, w)
  {
    if h == 0 then []
    else
      assert h * w == (h - 1) * w + w;
      [s[..w]] + Reshape(s[w..], h - 1, w)
  }

  /** Cell `(r, c)` of the reshaped sequence is element `k = r * w + c`. */
  lemma {:induction false} ReshapeCell<T>(s: seq<T>, h: nat, w: nat, r: nat, c: nat, k: nat)
    requires |s| == h * w && r < h && c < w && k == r * w + c
    ensures k < |s| && Reshape(s, h, w)[r][c] == s[k]
  {
    RowEndBound(r, h, w);
    assert h * w == (h - 1) * w + w;
    if r > 0 {
      ReshapeCell(s[w..], h - 1, w, r - 1, c, k - w);
    }
  }

  /** Reshaping int8 values gives an int8 matrix. */
  lemma {:induction false} ReshapeI8(s: seq<int>, h: nat, w: nat)
    requires |s| == h * w && forall k :: 0 <= k < |s| ==> InI8(s[k])
    ensures AllI8(Reshape(s, h, w))
  {
    if h > 0 {
      assert h * w == (h - 1) * w + w;
      ReshapeI8(s[w..], h - 1, w);
    }
  }

  /** Reshaping and flattening undo each other. */
  lemma FlattenReshape<T>(s: seq<T>, h: nat, w: nat)
    requires |s| == h * w
    ensures Flatten(Reshape(s, h, w)) == s
  {
    var m := Reshape(s, h, w);
    FlattenLength(m, h, w);
    var f := Flatten(m);
    forall i | 0 <= i < |s|
      ensures f[i] == s[i]
    {
      var r := i / w;
      var c := i % w;
      assert i == r * w + c;
      if r >= h {
        MulMono(h, r, w);
      }
      FlattenIndex(m, h, w, r, c);
      ReshapeCell(s, h, w, r, c, i);
    }
  }
}
