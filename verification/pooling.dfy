/** The pooling code of conv.py: the 2x2 block grid and its sums, the
    average pool that `main` calls (`avg_pool_4x4_stride4_valid_i32`,
    which despite its name averages 2x2 blocks), and the selectable
    `pool_2x2_stride2`, which `main` does not call. */
module Pooling {
  import opened Text
  import opened Results
  import opened Arith
  import opened Matrix

  /** A 2x2 block, row by row: top-left, top-right, bottom-left, bottom-right. */
  datatype Block = Block(tl: int, tr: int, bl: int, br: int)

  function BlockSum(b: Block): int {
    b.tl + b.tr + b.bl + b.br
  }

  function BlockMax(b: Block): (r: int)
    ensures r >= b.tl && r >= b.tr && r >= b.bl && r >= b.br
    ensures r == b.tl || r == b.tr || r == b.bl || r == b.br
  {
    var top := if b.tl >= b.tr then b.tl else b.tr;
    var bottom := if b.bl >= b.br then b.bl else b.br;
    if top >= bottom then top else bottom
  }

  /** The cells `(2i, 2j)` to `(2i + 1, 2j + 1)` exist. */
  predicate HasBlock(m: Mat, i: nat, j: nat) {
    2 * i + 1 < |m| && 2 * j + 1 < |m[2 * i]| && 2 * j + 1 < |m[2 * i + 1]|
  }

  /** `a[2i:2i+2, 2j:2j+2]`. */
  function BlockAt(m: Mat, i: nat, j: nat): Block
    requires HasBlock(m, i, j)
  {
    Block(m[2 * i][2 * j], m[2 * i][2 * j + 1], m[2 * i + 1][2 * j], m[2 * i + 1][2 * j + 1])
  }

  lemma HasBlockIn(m: Mat, i: nat, j: nat)
    requires Rect(m) && i < |m| / 2 && j < Cols(m) / 2
    ensures HasBlock(m, i, j)
  {
  }

  /** The blocks of the first `2 * bh` rows and `2 * bw` columns. */
  function Grid(m: Mat, bh: nat, bw: nat): (g: seq<seq<Block>>)
    requires Rect(m) && bh <= |m| / 2 && bw <= Cols(m) / 2
    ensures IsRect(g, bh, bw)
    ensures forall i, j :: 0 <= i < bh && 0 <= j < bw ==> HasBlock(m, i, j) && g[i][j] == BlockAt(m, i, j)
  {
    seq(bh, i requires 0 <= i < bh => seq(bw, j requires 0 <= j < bw =>
      HasBlockIn(m, i, j);
      BlockAt(m, i, j)))
  }

  /** `blocks2x2_grid(a)`: refuses a non-square matrix, then an odd side;
      otherwise the `N/2` by `N/2` grid of blocks. */
  function Blocks2x2Grid(m: Mat): (r: Result<seq<seq<Block>>>)
    requires Rect(m)
    ensures r.Err? <==> |m| != Cols(m) || |m| % 2 != 0
    ensures |m| != Cols(m) ==> r == Err(NotSquare)
    ensures |m| == Cols(m) && |m| % 2 != 0 ==> r == Err(OddSide)
    ensures r.Ok? ==> r.value == Grid(m, |m| / 2, |m| / 2)
  {
    if |m| != Cols(m) then Err(NotSquare)
    else if |m| % 2 != 0 then Err(OddSide)
    else Ok(Grid(m, |m| / 2, |m| / 2))
  }

  /** `sum_each_2x2(grid)`. */
  function SumEach2x2(g: seq<seq<Block>>): (s: Mat)
    ensures |s| == |g|
    ensures forall i :: 0 <= i < |g| ==> |s[i]| == |g[i]|
    ensures forall i, j :: 0 <= i < |g| && 0 <= j < |g[i]| ==> s[i][j] == BlockSum(g[i][j])
  {
    seq(|g|, i requires 0 <= i < |g| => seq(|g[i]|, j requires 0 <= j < |g[i]| => BlockSum(g[i][j])))
  }

  /** `sums.astype(np.int32) / 4` cast back to int32: each sum wrapped to
      32 bits, then divided by 4 truncating toward zero. */
  function QuarterEach(s: Mat): (q: Mat)
    ensures |q| == |s|
    ensures forall i :: 0 <= i < |s| ==> |q[i]| == |s[i]|
    ensures forall i, j :: 0 <= i < |s| && 0 <= j < |s[i]| ==> q[i][j] == DivTtz(Wrap32(s[i][j]), 4)
  {
    seq(|s|, i requires 0 <= i < |s| => seq(|s[i]|, j requires 0 <= j < |s[i]| => DivTtz(Wrap32(s[i][j]), 4)))
  }

  /** `avg_pool_4x4_stride4_valid_i32(x)`. `Ht` and `Wt` only decide the
      empty case, where the result is a 0x0 array; after that the whole
      input goes to `blocks2x2_grid`, which refuses anything but a square
      of even side. */
  function AvgPool4x4Stride4ValidI32(x: Mat): (r: Result<Mat>)
    requires Rect(x)
    ensures r.Ok? ==> Rect(r.value)
  {
    var ht := (|x| / 2) * 2;
    var wt := (Cols(x) / 2) * 2;
    if ht == 0 || wt == 0 then Ok([])
    else
      var grid :- Blocks2x2Grid(x);
      var q := QuarterEach(SumEach2x2(grid));
      assert IsRect(q, |x| / 2, |x| / 2);
      Ok(q)
  }

  /** The average pool yields an empty result for fewer than two rows or
      columns; otherwise it refuses a non-square input and then an odd side,
      and else gives `N/2` by `N/2` cells, each the sum of its 2x2 block
      wrapped to int32 and divided by 4 truncating toward zero, which is
      what `idiv_trunc_i32(sum, 4)` computes. */
  lemma AvgPoolOutcome(x: Mat, i: nat, j: nat)
    requires Rect(x)
    ensures |x| < 2 || Cols(x) < 2 ==> AvgPool4x4Stride4ValidI32(x) == Ok([])
    ensures |x| >= 2 && Cols(x) >= 2 ==>
      (AvgPool4x4Stride4ValidI32(x).Err? <==> |x| != Cols(x) || |x| % 2 != 0)
    ensures |x| >= 2 && Cols(x) >= 2 && |x| != Cols(x) ==> AvgPool4x4Stride4ValidI32(x) == Err(NotSquare)
    ensures |x| >= 2 && |x| == Cols(x) && |x| % 2 != 0 ==> AvgPool4x4Stride4ValidI32(x) == Err(OddSide)
    ensures |x| >= 2 && |x| == Cols(x) && |x| % 2 == 0 ==>
      && AvgPool4x4Stride4ValidI32(x).Ok?
      && IsRect(AvgPool4x4Stride4ValidI32(x).value, |x| / 2, |x| / 2)
      && (i < |x| / 2 && j < |x| / 2 ==>
            && HasBlock(x, i, j)
            && AvgPool4x4Stride4ValidI32(x).value[i][j] == DivTtz(Wrap32(BlockSum(BlockAt(x, i, j))), 4)
            && IdivTruncI32(Wrap32(BlockSum(BlockAt(x, i, j))), 4) == Ok(AvgPool4x4Stride4ValidI32(x).value[i][j]))
  {
    if |x| >= 2 && |x| == Cols(x) && |x| % 2 == 0 && i < |x| / 2 && j < |x| / 2 {
      var s := Wrap32(BlockSum(BlockAt(x, i, j)));
      IdivTruncIsDivTtz(s, 4);
    }
  }

  /** Block sums -7 and 7 average to -1 and 1: toward zero, not down. */
  lemma AvgPoolExamples()
    ensures AvgPool4x4Stride4ValidI32([[-7, 0], [0, 0]]) == Ok([[-1]])
    ensures AvgPool4x4Stride4ValidI32([[7, 0], [0, 0]]) == Ok([[1]])
  {
    AvgPoolOneBlock(-7, 0, 0, 0);
    AvgPoolOneBlock(7, 0, 0, 0);
  }

  /** A 2x2 input is one block, and pools to its sum, wrapped to 32 bits
      and divided by 4 truncating toward zero. */
  lemma AvgPoolOneBlock(a: int, b: int, c: int, d: int)
    ensures AvgPool4x4Stride4ValidI32([[a, b], [c, d]]) == Ok([[DivTtz(Wrap32(BlockSum(Block(a, b, c, d))), 4)]])
  {
    var m := [[a, b], [c, d]];
    assert Rect(m);
    AvgPoolOutcome(m, 0, 0);
    assert BlockAt(m, 0, 0) == Block(a, b, c, d);
    var r := AvgPool4x4Stride4ValidI32(m).value;
    assert r == [r[0]] && r[0] == [r[0][0]];
  }

  /** `pool_2x2_stride2_ttz_avg(arr)`: an odd last row or column is
      dropped; with no whole block the input comes back unchanged;
      otherwise each block sum is divided by 4 truncating toward zero, with
      no 32-bit cast. */
  function Pool2x2Stride2TtzAvg(a: Mat): (r: Mat)
    requires Rect(a)
    ensures |a| < 2 || Cols(a) < 2 ==> r == a
    ensures |a| >= 2 && Cols(a) >= 2 ==> IsRect(r, |a| / 2, Cols(a) / 2)
    ensures |a| >= 2 && Cols(a) >= 2 ==> forall i, j :: 0 <= i < |a| / 2 && 0 <= j < Cols(a) / 2 ==>
      HasBlock(a, i, j) && r[i][j] == DivTtz(BlockSum(BlockAt(a, i, j)), 4)
  {
    var bh := |a| / 2;
    var bw := Cols(a) / 2;
    if bh == 0 || bw == 0 then a
    else
      var g := Grid(a, bh, bw);
      seq(bh, i requires 0 <= i < bh => seq(bw, j requires 0 <= j < bw => DivTtz(BlockSum(g[i][j]), 4)))
  }

  /** The max branch of `pool_2x2_stride2`. */
  function MaxPool(a: Mat): (r: Mat)
    requires Rect(a)
    ensures |a| < 2 || Cols(a) < 2 ==> r == a
    ensures |a| >= 2 && Cols(a) >= 2 ==> IsRect(r, |a| / 2, Cols(a) / 2)
    ensures |a| >= 2 && Cols(a) >= 2 ==> forall i, j :: 0 <= i < |a| / 2 && 0 <= j < Cols(a) / 2 ==>
      HasBlock(a, i, j) && r[i][j] == BlockMax(BlockAt(a, i, j))
  {
    var bh := |a| / 2;
    var bw := Cols(a) / 2;
    if bh == 0 || bw == 0 then a
    else
      var g := Grid(a, bh, bw);
      seq(bh, i requires 0 <= i < bh => seq(bw, j requires 0 <= j < bw => BlockMax(g[i][j])))
  }

  /** `pool_2x2_stride2(arr, mode)`: empty or any-case "none" returns the
      input, "avg" and "max" pool, any other mode is refused. */
  function Pool2x2Stride2(a: Mat, mode: string): (r: Result<Mat>)
    requires Rect(a)
    ensures r.Err? <==> |mode| > 0 && Lower(mode) !in {"none", "avg", "max"}
    ensures r.Err? ==> r.error == UnsupportedPool(mode)
    ensures |mode| == 0 || Lower(mode) == "none" ==> r == Ok(a)
    ensures |mode| > 0 && Lower(mode) == "avg" ==> r == Ok(Pool2x2Stride2TtzAvg(a))
    ensures |mode| > 0 && Lower(mode) == "max" ==> r == Ok(MaxPool(a))
  {
    var m := Lower(mode);
    if |mode| == 0 || m == "none" then Ok(a)
    else if m == "avg" then Ok(Pool2x2Stride2TtzAvg(a))
    else if m == "max" then Ok(MaxPool(a))
    else Err(UnsupportedPool(mode))
  }

  /** On a square input of even side at least 2 whose block sums fit in
      int32, the pool `main` calls agrees with the "avg" mode of
      `pool_2x2_stride2`. */
  lemma AvgPoolsAgree(x: Mat)
    requires Rect(x) && |x| == Cols(x) && |x| >= 2 && |x| % 2 == 0
    requires forall i, j :: 0 <= i < |x| / 2 && 0 <= j < |x| / 2 && HasBlock(x, i, j) ==> InI32(BlockSum(BlockAt(x, i, j)))
    ensures AvgPool4x4Stride4ValidI32(x) == Ok(Pool2x2Stride2TtzAvg(x))
  {
    var n := |x| / 2;
    AvgPoolOutcome(x, 0, 0);
    var p := AvgPool4x4Stride4ValidI32(x).value;
    var q := Pool2x2Stride2TtzAvg(x);
    forall i | 0 <= i < n
      ensures p[i] == q[i]
    {
      forall j | 0 <= j < n
        ensures p[i][j] == q[i][j]
      {
        AvgPoolOutcome(x, i, j);
      }
    }
    assert p == q;
  }
}
