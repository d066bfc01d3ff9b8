/**
  `rotateYUV420Degree90`: rotation of a YUV 4:2:0 frame stored as a luma
  plane followed by interleaved chroma pairs (NV21-style), by 0, 90, 180 or
  270 degrees.

  Every pixel `(i, j)` of the input, visited row by row, writes its luma byte
  and its chroma pair into a zero-filled output; a later write to the same
  position wins. The writes are modelled exactly so, as a fold over the
  pixels in loop order, so that what the output holds is a consequence of
  the fold and not an assumption.
 */
module YuvRotation {
  import opened JavaRuntime
  import opened Arithmetic

  /** The loop's constants: input size and the three orientation flags. */
  datatype Geometry = Geometry(width: int, height: int, swap: bool, xflip: bool, yflip: bool)

  /** The rotations the method accepts besides 0: a multiple of 90 in
      [0, 270]. A negative value is rejected whatever its remainder. */
  predicate ValidRotation(rotation: int) {
    !(rotation % 90 != 0 || rotation < 0 || rotation > 270)
  }

  /** The flags the method derives from an accepted rotation. */
  function GeometryOf(width: int, height: int, rotation: int): Geometry {
    Geometry(width, height, rotation % 180 != 0, rotation % 270 != 0, rotation >= 180)
  }

  function FrameSize(g: Geometry): int {
    g.width * g.height
  }

  /** The output's width and height: the input's, exchanged under `swap`. */
  function OutWidth(g: Geometry): int {
    if g.swap then g.height else g.width
  }

  function OutHeight(g: Geometry): int {
    if g.swap then g.width else g.height
  }

  /** Java's `x >> 1`, which rounds towards negative infinity, as Dafny's
      division by a positive divisor does. */
  function Half(x: int): int {
    x / 2
  }

  /** Java's `x & ~1` on a two's-complement int: the low bit cleared. */
  function ClearLowBit(x: int): int {
    x - x % 2
  }

  /** The output column and row of input pixel `(i, j)`. */
  function OutI(g: Geometry, i: int, j: int): int {
    var iSwapped := if g.swap then j else i;
    if g.xflip then OutWidth(g) - iSwapped - 1 else iSwapped
  }

  function OutJ(g: Geometry, i: int, j: int): int {
    var jSwapped := if g.swap then i else j;
    if g.yflip then OutHeight(g) - jSwapped - 1 else jSwapped
  }

  /** The six array positions the loop body computes for pixel `(i, j)`. */
  datatype Indices = Indices(yIn: int, uIn: int, vIn: int, yOut: int, uOut: int, vOut: int)

  function PixelIndices(g: Geometry, i: int, j: int): Indices {
    var uIn := ChromaIn(g, i, j);
    var uOut := ChromaOut(g, i, j);
    Indices(LumaIn(g, i, j), uIn, uIn + 1, LumaOut(g, i, j), uOut, uOut + 1)
  }

  function LumaIn(g: Geometry, i: int, j: int): int {
    j * g.width + i
  }

  function ChromaIn(g: Geometry, i: int, j: int): int {
    FrameSize(g) + Half(j) * g.width + ClearLowBit(i)
  }

  function LumaOut(g: Geometry, i: int, j: int): int {
    OutJ(g, i, j) * OutWidth(g) + OutI(g, i, j)
  }

  function ChromaOut(g: Geometry, i: int, j: int): int {
    FrameSize(g) + Half(OutJ(g, i, j)) * OutWidth(g) + ClearLowBit(OutI(g, i, j))
  }

  /** Every position the pixel reads lies in the input and every position it
      writes lies in the output. */
  predicate InBounds(x: Indices, inLength: int, outLength: int) {
    && 0 <= x.yIn < inLength && 0 <= x.uIn < inLength && 0 <= x.vIn < inLength
    && 0 <= x.yOut < outLength && 0 <= x.uOut < outLength && 0 <= x.vOut < outLength
  }

  /** Where the loop body reads and writes for each pixel `(i, j)`. */
  type PixelMap = (int, int) -> Indices

  /** The positions the rotation's loop body computes. */
  function Positions(g: Geometry): PixelMap {
    (i, j) => PixelIndices(g, i, j)
  }

  /** The loop body for a pixel whose positions are `x`: three stores, or
      `ArrayIndexOutOfBoundsException` when a position is outside its array. */
  function Store(out: seq<Byte>, yuv: seq<Byte>, x: Indices): (r: Result<seq<Byte>>)
    ensures r.Ok? <==> InBounds(x, |yuv|, |out|)
    ensures r.Throws? ==> r.ex == IndexOutOfBounds
    ensures r.Ok? ==> |r.value| == |out|
    // the three stores change nothing but their own positions, the last one winning
    ensures r.Ok? ==> r.value[x.vOut] == yuv[x.vIn]
    ensures r.Ok? ==> forall k | 0 <= k < |out| && k != x.yOut && k != x.uOut && k != x.vOut :: r.value[k] == out[k]
  {
    if InBounds(x, |yuv|, |out|) then
      Ok(out[x.yOut := yuv[x.yIn]][x.uOut := yuv[x.uIn]][x.vOut := yuv[x.vIn]])
    else Throws(IndexOutOfBounds)
  }

  /** How many columns and rows the loops visit: none unless both sides are
      positive, as otherwise one of the two loops runs no iteration. */
  function Columns(g: Geometry): nat {
    if g.width > 0 && g.height > 0 then g.width else 0
  }

  function RowCount(g: Geometry): nat {
    if g.width > 0 && g.height > 0 then g.height else 0
  }

  /** The output after the first `j` rows of a grid `columns` wide, the
      pixels visited in loop order and stored at the positions `at` gives. */
  function RotateRows(yuv: seq<Byte>, at: PixelMap, columns: nat, j: nat): (r: Result<seq<Byte>>)
    ensures r.Ok? ==> |r.value| == |yuv|
    ensures r.Throws? ==> r.ex == IndexOutOfBounds
    decreases j, 0, 0
  {
    if j == 0 then Ok(Zeros(|yuv|))
    else RotateCols(yuv, at, columns, j - 1, columns)
  }

  /** The output after the rows before `j` and the first `i` pixels of row
      `j`. */
  function RotateCols(yuv: seq<Byte>, at: PixelMap, columns: nat, j: nat, i: nat): (r: Result<seq<Byte>>)
    requires i <= columns
    ensures r.Ok? ==> |r.value| == |yuv|
    ensures r.Throws? ==> r.ex == IndexOutOfBounds
    decreases j, 1, i
  {
    if i == 0 then RotateRows(yuv, at, columns, j)
    else match RotateCols(yuv, at, columns, j, i - 1)
      case Throws(ex) => Throws(ex)
      case Ok(out) => Store(out, yuv, at(i - 1, j))
  }

  /** `rotateYUV420Degree90(yuv, width, height, rotation)`. */
  function Rotate(yuv: seq<Byte>, width: int, height: int, rotation: int): (r: Result<seq<Byte>>)
    ensures rotation == 0 ==> r == Ok(yuv)
    ensures rotation != 0 && !ValidRotation(rotation) ==> r == Throws(IllegalArgument)
    ensures r.Ok? ==> |r.value| == |yuv|
    ensures r.Throws? ==> r.ex == IllegalArgument || r.ex == IndexOutOfBounds
  {
    if rotation == 0 then Ok(yuv)
    else if !ValidRotation(rotation) then Throws(IllegalArgument)
    else
      var g := GeometryOf(width, height, rotation);
      RotateRows(yuv, Positions(g), Columns(g), RowCount(g))
  }

  /** Once the fold has thrown it keeps the exception to the end. */
  lemma {:induction false} ColsStayThrown(yuv: seq<Byte>, at: PixelMap, columns: nat, rows: nat, j: nat, i: nat)
    requires j < rows && i <= columns && RotateCols(yuv, at, columns, j, i).Throws?
    ensures RotateRows(yuv, at, columns, rows) == RotateCols(yuv, at, columns, j, i)
    decreases rows - j, columns - i
  {
    if i < columns {
      ColsStayThrown(yuv, at, columns, rows, j, i + 1);
    } else {
      RowsStayThrown(yuv, at, columns, rows, j + 1);
    }
  }

  lemma {:induction false} RowsStayThrown(yuv: seq<Byte>, at: PixelMap, columns: nat, rows: nat, j: nat)
    requires j <= rows && RotateRows(yuv, at, columns, j).Throws?
    ensures RotateRows(yuv, at, columns, rows) == RotateRows(yuv, at, columns, j)
    decreases rows - j, columns + 1
  {
    if j < rows {
      ColsStayThrown(yuv, at, columns, rows, j, 0);
    }
  }

  /** The method itself: the argument checks, then the nested loops over
      rows and columns. */
  method RotateYuv420Degree90(yuv: seq<Byte>, width: int, height: int, rotation: int)
    returns (r: Result<seq<Byte>>)
    ensures r == Rotate(yuv, width, height, rotation)
  {
    if rotation == 0 {
      return Ok(yuv);
    }
    if rotation % 90 != 0 || rotation < 0 || rotation > 270 {
      return Throws(IllegalArgument);
    }
    var g := GeometryOf(width, height, rotation);
    if width <= 0 || height <= 0 {
      // the loops would run no iteration over the zero-filled output
      return Ok(Zeros(|yuv|));
    }
    r := RotateFrame(yuv, Positions(g), width, height);
  }

  /** The outer loop over the rows, storing into a zero-filled array of the
      input's length. */
  method RotateFrame(yuv: seq<Byte>, at: PixelMap, columns: nat, rows: nat) returns (r: Result<seq<Byte>>)
    ensures r == RotateRows(yuv, at, columns, rows)
  {
    var output := Zeros(|yuv|);
    var j := 0;
    while j < rows
      invariant 0 <= j <= rows
      invariant RotateRows(yuv, at, columns, j) == Ok(output)
    {
      var row := RotateRow(yuv, at, columns, rows, j, output);
      if row.Throws? {
        return row;
      }
      output := row.value;
      j := j + 1;
    }
    return Ok(output);
  }

  /** One pass of the outer loop: the inner loop over row `j`, storing
      each pixel at the positions `at` gives. */
  method RotateRow(yuv: seq<Byte>, at: PixelMap, columns: nat, rows: nat, j: nat, output: seq<Byte>)
    returns (r: Result<seq<Byte>>)
    requires j < rows && RotateRows(yuv, at, columns, j) == Ok(output)
    ensures r.Ok? ==> RotateRows(yuv, at, columns, j + 1) == r
    ensures r.Throws? ==> RotateRows(yuv, at, columns, rows) == r
  {
    var out := output;
    var i := 0;
    while i < columns
      invariant 0 <= i <= columns
      invariant RotateCols(yuv, at, columns, j, i) == Ok(out)
    {
      var step := Store(out, yuv, at(i, j));
      ColStep(yuv, at, columns, j, i, out);
      if step.Throws? {
        ColsStayThrown(yuv, at, columns, rows, j, i + 1);
        return step;
      }
      out := step.value;
      i := i + 1;
    }
    return Ok(out);
  }

  /** The loop body for pixel `(i, j)` is the next step of the fold. */
  lemma ColStep(yuv: seq<Byte>, at: PixelMap, columns: nat, j: nat, i: nat, out: seq<Byte>)
    requires i < columns && RotateCols(yuv, at, columns, j, i) == Ok(out)
    ensures RotateCols(yuv, at, columns, j, i + 1) == Store(out, yuv, at(i, j))
  {
  }

  // ---------------------------------------------------------------------
  // Arithmetic

  /** Halving an even side: `(H / 2) * W` is half of `H * W`. */
  lemma HalfProduct(W: int, H: int)
    requires H % 2 == 0
    ensures (H / 2) * W * 2 == H * W && (H / 2) * W == (H * W) / 2 && (H * W) % 2 == 0
  {
    assert H == (H / 2) * 2;
    assert H * W == ((H / 2) * W) * 2;
    DivModUnique(H * W, (H / 2) * W, 0, 2);
  }

  /** In a grid of even width, the chroma pair of row `a`, column `b` lies
      inside the `(H / 2) * W` chroma bytes, at an even offset. */
  lemma ChromaBound(a: int, b: int, W: int, H: int)
    requires W > 0 && H > 0 && W % 2 == 0 && H % 2 == 0 && 0 <= a < H && 0 <= b < W
    ensures 0 <= Half(a) * W + ClearLowBit(b)
    ensures Half(a) * W + ClearLowBit(b) + 1 < (H / 2) * W
    ensures (Half(a) * W + ClearLowBit(b)) % 2 == 0
    ensures (Half(a) * W + ClearLowBit(b)) / W == Half(a) && (Half(a) * W + ClearLowBit(b)) % W == ClearLowBit(b)
  {
    assert ClearLowBit(b) == 2 * (b / 2);
    assert 0 <= ClearLowBit(b) <= W - 2;
    RowMajorBound(Half(a), ClearLowBit(b), W, H / 2);
    MulAtLeast(H / 2 - Half(a), W);
    assert (H / 2 - Half(a)) * W == (H / 2) * W - Half(a) * W;
    assert W == (W / 2) * 2;
    assert Half(a) * W + ClearLowBit(b) == 2 * (Half(a) * (W / 2) + b / 2);
    DivModUnique(Half(a) * W + ClearLowBit(b), Half(a) * (W / 2) + b / 2, 0, 2);
    DivModUnique(Half(a) * W + ClearLowBit(b), Half(a), ClearLowBit(b), W);
  }

  /** Mirroring inside an even extent mirrors the halves too. */
  lemma FlipHalf(W: int, x: int)
    requires W % 2 == 0 && 0 <= x < W
    ensures Half(W - x - 1) == W / 2 - Half(x) - 1
  {
    var q, r := x / 2, x % 2;
    assert W - x - 1 == (W / 2 - q - 1) * 2 + (1 - r);
    DivModUnique(W - x - 1, W / 2 - q - 1, 1 - r, 2);
  }

  // ---------------------------------------------------------------------
  // Orientation

  /** The flags of each accepted rotation, and the exchanged output
      dimensions exactly under `swap`. */
  lemma RotationFlags(width: int, height: int)
    ensures GeometryOf(width, height, 90) == Geometry(width, height, true, true, false)
    ensures GeometryOf(width, height, 180) == Geometry(width, height, false, true, true)
    ensures GeometryOf(width, height, 270) == Geometry(width, height, true, false, true)
    ensures forall rotation | ValidRotation(rotation) && rotation != 0 ::
              rotation == 90 || rotation == 180 || rotation == 270
    ensures forall rotation | ValidRotation(rotation) ::
              var g := GeometryOf(width, height, rotation);
              (OutWidth(g), OutHeight(g)) == (if g.swap then (height, width) else (width, height))
  {
  }

  /** At 180 degrees luma pixel `(i, j)` lands at `(w - 1 - i, h - 1 - j)`. */
  lemma HalfTurnLuma(width: int, height: int, i: int, j: int)
    ensures PixelIndices(GeometryOf(width, height, 180), i, j).yOut
            == (height - 1 - j) * width + (width - 1 - i)
  {
  }

  // ---------------------------------------------------------------------
  // When the rotation succeeds

  /** The six positions `x` lie inside the frame. */
  predicate Fits(yuv: seq<Byte>, x: Indices) {
    InBounds(x, |yuv|, |yuv|)
  }

  /** The six positions of pixel `(i, j)` lie inside the frame. */
  predicate PixelFits(yuv: seq<Byte>, g: Geometry, i: int, j: int) {
    Fits(yuv, PixelIndices(g, i, j))
  }

  /** Every pixel of the first `j` rows fits. */
  ghost predicate RowsFit(yuv: seq<Byte>, at: PixelMap, columns: int, j: int) {
    forall i', j' | 0 <= i' < columns && 0 <= j' < j :: Fits(yuv, at(i', j'))
  }

  /** The first `i` pixels of row `j` fit. */
  ghost predicate ColsFit(yuv: seq<Byte>, at: PixelMap, j: int, i: int) {
    forall i' | 0 <= i' < i :: Fits(yuv, at(i', j))
  }

  lemma ColsFitStep(yuv: seq<Byte>, at: PixelMap, j: int, i: int)
    requires i > 0
    ensures ColsFit(yuv, at, j, i) <==> ColsFit(yuv, at, j, i - 1) && Fits(yuv, at(i - 1, j))
  {
  }

  /** A full row on top of the rows before it. */
  lemma RowsFitStep(yuv: seq<Byte>, at: PixelMap, columns: int, j: int)
    requires j > 0
    ensures RowsFit(yuv, at, columns, j) <==> RowsFit(yuv, at, columns, j - 1) && ColsFit(yuv, at, j - 1, columns)
  {
    if RowsFit(yuv, at, columns, j - 1) && ColsFit(yuv, at, j - 1, columns) {
      forall i', j' | 0 <= i' < columns && 0 <= j' < j ensures Fits(yuv, at(i', j')) {
        if j' == j - 1 {
          assert ColsFit(yuv, at, j - 1, columns);
        }
      }
    }
  }

  /** The fold succeeds exactly while every pixel visited fits. */
  lemma {:induction false} RowsOkIff(yuv: seq<Byte>, at: PixelMap, columns: nat, j: nat)
    ensures RotateRows(yuv, at, columns, j).Ok? <==> RowsFit(yuv, at, columns, j)
    decreases j, 0
  {
    if j > 0 {
      ColsOkIff(yuv, at, columns, j - 1, columns);
      RowsFitStep(yuv, at, columns, j);
    }
  }

  lemma {:induction false} ColsOkIff(yuv: seq<Byte>, at: PixelMap, columns: nat, j: nat, i: nat)
    requires i <= columns
    ensures RotateCols(yuv, at, columns, j, i).Ok? <==> RowsFit(yuv, at, columns, j) && ColsFit(yuv, at, j, i)
    decreases j, 1, i
  {
    if i == 0 {
      RowsOkIff(yuv, at, columns, j);
    } else {
      ColsOkIff(yuv, at, columns, j, i - 1);
      ColStepOk(yuv, at, columns, j, i - 1);
      ColsFitStep(yuv, at, j, i);
    }
  }

  /** One more pixel of the row succeeds when the fold so far did and the
      pixel fits. */
  lemma ColStepOk(yuv: seq<Byte>, at: PixelMap, columns: nat, j: nat, i: nat)
    requires i < columns
    ensures RotateCols(yuv, at, columns, j, i + 1).Ok? <==> RotateCols(yuv, at, columns, j, i).Ok? && Fits(yuv, at(i, j))
  {
  }

  /** An accepted non-zero rotation succeeds exactly when every pixel's six
      positions lie inside the frame. */
  lemma RotateSucceedsIffInBounds(yuv: seq<Byte>, width: int, height: int, rotation: int)
    requires ValidRotation(rotation) && rotation != 0 && width > 0 && height > 0
    ensures var g := GeometryOf(width, height, rotation);
            Rotate(yuv, width, height, rotation).Ok?
            <==> forall i, j | 0 <= i < width && 0 <= j < height :: PixelFits(yuv, g, i, j)
  {
    var g := GeometryOf(width, height, rotation);
    RowsOkIff(yuv, Positions(g), width, height);
    assert Rotate(yuv, width, height, rotation) == RotateRows(yuv, Positions(g), width, height);
    forall i, j ensures Fits(yuv, Positions(g)(i, j)) == PixelFits(yuv, g, i, j) {
    }
  }

  // ---------------------------------------------------------------------
  // Frames of even size

  /** A frame of even, positive width and height holding `w * h * 3 / 2`
      bytes: the luma plane and the interleaved chroma pairs. */
  predicate RegularFrame(yuv: seq<Byte>, width: int, height: int) {
    && width > 0 && height > 0 && width % 2 == 0 && height % 2 == 0
    && |yuv| == width * height + width * height / 2
  }

  /** Where every index of pixel `(i, j)` of such a frame falls. */
  lemma PixelFacts(g: Geometry, i: int, j: int)
    requires g.width > 0 && g.height > 0 && g.width % 2 == 0 && g.height % 2 == 0
    requires 0 <= i < g.width && 0 <= j < g.height
    ensures 0 <= OutI(g, i, j) < OutWidth(g) && 0 <= OutJ(g, i, j) < OutHeight(g)
    ensures var F := FrameSize(g);
            && 0 <= LumaIn(g, i, j) < F && 0 <= LumaOut(g, i, j) < F
            && F <= ChromaIn(g, i, j) && ChromaIn(g, i, j) + 1 < F + F / 2
            && F <= ChromaOut(g, i, j) && ChromaOut(g, i, j) + 1 < F + F / 2
            && (ChromaOut(g, i, j) - F) % 2 == 0
  {
    var w, h := g.width, g.height;
    RowMajorBound(j, i, w, h);
    assert h * w == w * h;
    ChromaBound(j, i, w, h);
    HalfProduct(w, h);
    var iOut, jOut := OutI(g, i, j), OutJ(g, i, j);
    RowMajorBound(jOut, iOut, OutWidth(g), OutHeight(g));
    ChromaBound(jOut, iOut, OutWidth(g), OutHeight(g));
    HalfProduct(OutWidth(g), OutHeight(g));
    assert OutHeight(g) * OutWidth(g) == w * h;
  }

  /** An output chroma position splits back into the halved output row and
      the even output column. */
  lemma ChromaOutParts(g: Geometry, i: int, j: int)
    requires g.width > 0 && g.height > 0 && g.width % 2 == 0 && g.height % 2 == 0
    requires 0 <= i < g.width && 0 <= j < g.height
    ensures var d := ChromaOut(g, i, j) - FrameSize(g);
            d / OutWidth(g) == Half(OutJ(g, i, j)) && d % OutWidth(g) == ClearLowBit(OutI(g, i, j))
  {
    ChromaBound(OutJ(g, i, j), OutI(g, i, j), OutWidth(g), OutHeight(g));
  }

  /** The input pixel whose luma byte a rotation sends to output position
      `k`: the luma map run backwards. */
  function LumaSource(g: Geometry, k: int): (ij: (int, int))
    requires OutWidth(g) > 0
  {
    SourceOf(g, k % OutWidth(g), k / OutWidth(g))
  }

  /** The input pixel the loop body sends to output column `iOut`, row
      `jOut`: the flips undone, then the swap. */
  function SourceOf(g: Geometry, iOut: int, jOut: int): (ij: (int, int)) {
    var iSwapped := if g.xflip then OutWidth(g) - iOut - 1 else iOut;
    var jSwapped := if g.yflip then OutHeight(g) - jOut - 1 else jOut;
    if g.swap then (jSwapped, iSwapped) else (iSwapped, jSwapped)
  }

  lemma SourceOfInverts(g: Geometry, iOut: int, jOut: int)
    requires 0 <= iOut < OutWidth(g) && 0 <= jOut < OutHeight(g)
    ensures var (i, j) := SourceOf(g, iOut, jOut);
            && 0 <= i < g.width && 0 <= j < g.height
            && OutI(g, i, j) == iOut && OutJ(g, i, j) == jOut
  {
  }

  /** Running the luma map backwards recovers the pixel. */
  lemma LumaSourceOfOut(g: Geometry, i: int, j: int)
    requires g.width > 0 && g.height > 0 && 0 <= i < g.width && 0 <= j < g.height
    ensures LumaSource(g, PixelIndices(g, i, j).yOut) == (i, j)
  {
    DivModUnique(PixelIndices(g, i, j).yOut, OutJ(g, i, j), OutI(g, i, j), OutWidth(g));
  }

  /** Every luma position of the output receives the luma byte of exactly one
      pixel: `LumaSource` is a right inverse of the luma map on `[0, w * h)`,
      and by `LumaSourceOfOut` also a left inverse, so the luma map is a
      bijection of `[0, w * h)`. */
  lemma LumaOutOfSource(g: Geometry, k: int)
    requires g.width > 0 && g.height > 0 && 0 <= k < FrameSize(g)
    ensures var (i, j) := LumaSource(g, k);
            && 0 <= i < g.width && 0 <= j < g.height
            && PixelIndices(g, i, j).yOut == k
  {
    var wOut, hOut := OutWidth(g), OutHeight(g);
    OutSize(g);
    DivModSplit(k, wOut, hOut);
    var jOut, iOut := k / wOut, k % wOut;
    SourceOfInverts(g, iOut, jOut);
    var (i, j) := SourceOf(g, iOut, jOut);
    LumaOutAt(g, i, j, iOut, jOut);
  }

  lemma OutSize(g: Geometry)
    requires g.width > 0 && g.height > 0
    ensures OutWidth(g) > 0 && OutHeight(g) * OutWidth(g) == FrameSize(g)
  {
  }

  lemma LumaOutAt(g: Geometry, i: int, j: int, iOut: int, jOut: int)
    requires OutI(g, i, j) == iOut && OutJ(g, i, j) == jOut
    ensures PixelIndices(g, i, j).yOut == jOut * OutWidth(g) + iOut
  {
  }

  /** The luma map is one-to-one on the frame. */
  lemma LumaInjective(g: Geometry, i1: int, j1: int, i2: int, j2: int)
    requires g.width > 0 && g.height > 0
    requires 0 <= i1 < g.width && 0 <= j1 < g.height && 0 <= i2 < g.width && 0 <= j2 < g.height
    ensures PixelIndices(g, i1, j1).yOut == PixelIndices(g, i2, j2).yOut ==> i1 == i2 && j1 == j2
  {
    LumaSourceOfOut(g, i1, j1);
    LumaSourceOfOut(g, i2, j2);
  }

  /** The halves of an output coordinate determine the halves of the input
      coordinates, when both extents are even. */
  lemma HalfOutCoordinates(g: Geometry, i: int, j: int)
    requires g.width > 0 && g.height > 0 && g.width % 2 == 0 && g.height % 2 == 0
    requires 0 <= i < g.width && 0 <= j < g.height
    ensures var iSwapped := if g.swap then j else i;
            var jSwapped := if g.swap then i else j;
            && Half(OutI(g, i, j)) == (if g.xflip then OutWidth(g) / 2 - Half(iSwapped) - 1 else Half(iSwapped))
            && Half(OutJ(g, i, j)) == (if g.yflip then OutHeight(g) / 2 - Half(jSwapped) - 1 else Half(jSwapped))
  {
    var iSwapped := if g.swap then j else i;
    var jSwapped := if g.swap then i else j;
    if g.xflip { FlipHalf(OutWidth(g), iSwapped); }
    if g.yflip { FlipHalf(OutHeight(g), jSwapped); }
  }

  /** Pixels that write the same output chroma position read the same input
      chroma pair: they lie in the same 2-by-2 block. */
  lemma ChromaAgrees(g: Geometry, i1: int, j1: int, i2: int, j2: int)
    requires g.width > 0 && g.height > 0 && g.width % 2 == 0 && g.height % 2 == 0
    requires 0 <= i1 < g.width && 0 <= j1 < g.height && 0 <= i2 < g.width && 0 <= j2 < g.height
    requires PixelIndices(g, i1, j1).uOut == PixelIndices(g, i2, j2).uOut
    ensures PixelIndices(g, i1, j1).uIn == PixelIndices(g, i2, j2).uIn
  {
    ChromaOutParts(g, i1, j1);
    ChromaOutParts(g, i2, j2);
    HalfOutCoordinates(g, i1, j1);
    HalfOutCoordinates(g, i2, j2);
    var a1, a2 := OutI(g, i1, j1), OutI(g, i2, j2);
    assert ClearLowBit(a1) == 2 * Half(a1) && ClearLowBit(a2) == 2 * Half(a2);
    assert Half(a1) == Half(a2);
    assert Half(i1) == Half(i2) && Half(j1) == Half(j2);
    assert ClearLowBit(i1) == 2 * Half(i1) && ClearLowBit(i2) == 2 * Half(i2);
  }

  /** Any two pixels' writes agree wherever they meet. */
  lemma WritesAgree(g: Geometry, i1: int, j1: int, i2: int, j2: int)
    requires g.width > 0 && g.height > 0 && g.width % 2 == 0 && g.height % 2 == 0
    requires 0 <= i1 < g.width && 0 <= j1 < g.height && 0 <= i2 < g.width && 0 <= j2 < g.height
    ensures Agree(PixelIndices(g, i1, j1), PixelIndices(g, i2, j2))
  {
    PixelFacts(g, i1, j1);
    PixelFacts(g, i2, j2);
    LumaInjective(g, i1, j1, i2, j2);
    var x1, x2 := PixelIndices(g, i1, j1), PixelIndices(g, i2, j2);
    if x1.uOut == x2.uOut || x1.vOut == x2.vOut {
      ChromaAgrees(g, i1, j1, i2, j2);
    }
  }

  /** Pixel `(i, j)`'s three bytes sit where the loop body puts them. */
  ghost predicate Placed(out: seq<Byte>, yuv: seq<Byte>, g: Geometry, i: int, j: int) {
    PlacedIndices(out, yuv, PixelIndices(g, i, j))
  }

  /** Three stores leave a byte in place when whatever they store at its
      position is that byte. */
  lemma StoresKeep(out: seq<Byte>, a: int, b: int, c: int, va: Byte, vb: Byte, vc: Byte, x: int, v: Byte)
    requires 0 <= a < |out| && 0 <= b < |out| && 0 <= c < |out| && 0 <= x < |out|
    requires out[x] == v
    requires x == a ==> va == v
    requires x == b ==> vb == v
    requires x == c ==> vc == v
    ensures out[a := va][b := vb][c := vc][x] == v
  {
  }

  /** The writes of two pixels agree wherever they meet. */
  predicate Agree(x1: Indices, x2: Indices) {
    && (x1.yOut == x2.yOut ==> x1.yIn == x2.yIn)
    && x1.yOut != x2.uOut && x1.yOut != x2.vOut
    && x1.uOut != x2.vOut
    && (x1.uOut == x2.uOut ==> x1.uIn == x2.uIn)
    && (x1.vOut == x2.vOut ==> x1.vIn == x2.vIn)
  }

  ghost predicate PlacedIndices(out: seq<Byte>, yuv: seq<Byte>, x: Indices) {
    && InBounds(x, |yuv|, |out|)
    && out[x.yOut] == yuv[x.yIn] && out[x.uOut] == yuv[x.uIn] && out[x.vOut] == yuv[x.vIn]
  }

  /** The stores of one pixel keep every agreeing pixel in place. */
  lemma StoresKeepPlaced(out: seq<Byte>, yuv: seq<Byte>, x1: Indices, x2: Indices)
    requires InBounds(x2, |yuv|, |out|) && PlacedIndices(out, yuv, x1)
    requires Agree(x1, x2) && Agree(x2, x1) && Agree(x2, x2)
    ensures var out' := out[x2.yOut := yuv[x2.yIn]][x2.uOut := yuv[x2.uIn]][x2.vOut := yuv[x2.vIn]];
            PlacedIndices(out', yuv, x1) && PlacedIndices(out', yuv, x2)
  {
    var a, b, c := yuv[x2.yIn], yuv[x2.uIn], yuv[x2.vIn];
    StoresKeep(out, x2.yOut, x2.uOut, x2.vOut, a, b, c, x1.yOut, yuv[x1.yIn]);
    StoresKeep(out, x2.yOut, x2.uOut, x2.vOut, a, b, c, x1.uOut, yuv[x1.uIn]);
    StoresKeep(out, x2.yOut, x2.uOut, x2.vOut, a, b, c, x1.vOut, yuv[x1.vIn]);
  }

  /** A pixel's own stores put its bytes in place when they do not clash. */
  lemma StorePlaces(out: seq<Byte>, yuv: seq<Byte>, x: Indices)
    requires InBounds(x, |yuv|, |out|) && Agree(x, x)
    ensures Store(out, yuv, x).Ok? && PlacedIndices(Store(out, yuv, x).value, yuv, x)
  {
  }

  lemma InBoundsRegular(yuv: seq<Byte>, g: Geometry, i: int, j: int)
    requires RegularFrame(yuv, g.width, g.height)
    requires 0 <= i < g.width && 0 <= j < g.height
    ensures InBounds(PixelIndices(g, i, j), |yuv|, |yuv|)
  {
    PixelFacts(g, i, j);
  }

  /** Every pixel of a `columns` by `rows` grid fits, and any two pixels'
      writes agree wherever they meet. */
  ghost predicate Coherent(yuv: seq<Byte>, at: PixelMap, columns: int, rows: int) {
    && (forall i, j {:trigger Fits(yuv, at(i, j))} | 0 <= i < columns && 0 <= j < rows :: Fits(yuv, at(i, j)))
    && (forall i1, j1, i2, j2 {:trigger Agree(at(i1, j1), at(i2, j2))}
          | 0 <= i1 < columns && 0 <= j1 < rows && 0 <= i2 < columns && 0 <= j2 < rows ::
          Agree(at(i1, j1), at(i2, j2)))
  }

  /** The rotation's positions on a regular frame are coherent. */
  lemma RegularCoherent(yuv: seq<Byte>, g: Geometry)
    requires RegularFrame(yuv, g.width, g.height)
    ensures Coherent(yuv, Positions(g), g.width, g.height)
  {
    var at := Positions(g);
    forall i, j | 0 <= i < g.width && 0 <= j < g.height ensures Fits(yuv, at(i, j)) {
      InBoundsRegular(yuv, g, i, j);
    }
    forall i1, j1, i2, j2 | 0 <= i1 < g.width && 0 <= j1 < g.height && 0 <= i2 < g.width && 0 <= j2 < g.height
      ensures Agree(at(i1, j1), at(i2, j2))
    {
      WritesAgree(g, i1, j1, i2, j2);
    }
  }

  /** Every pixel of the first `j` rows sits where it was put. */
  ghost predicate RowsPlaced(out: seq<Byte>, yuv: seq<Byte>, at: PixelMap, columns: int, j: int) {
    forall i', j' | 0 <= i' < columns && 0 <= j' < j :: PlacedIndices(out, yuv, at(i', j'))
  }

  /** The first `i` pixels of row `j` sit where they were put. */
  ghost predicate ColsPlaced(out: seq<Byte>, yuv: seq<Byte>, at: PixelMap, j: int, i: int) {
    forall i' | 0 <= i' < i :: PlacedIndices(out, yuv, at(i', j))
  }

  /** With coherent positions every pixel visited so far sits where it was
      put. */
  lemma {:induction false} RowsPlace(yuv: seq<Byte>, at: PixelMap, columns: nat, rows: nat, j: nat)
    requires Coherent(yuv, at, columns, rows) && j <= rows
    ensures RotateRows(yuv, at, columns, j).Ok?
    ensures RowsPlaced(RotateRows(yuv, at, columns, j).value, yuv, at, columns, j)
    decreases j, 0
  {
    if j > 0 {
      ColsPlace(yuv, at, columns, rows, j - 1, columns);
      RowsPlacedStep(RotateRows(yuv, at, columns, j).value, yuv, at, columns, j);
    }
  }

  /** A full row on top of the rows before it. */
  lemma RowsPlacedStep(out: seq<Byte>, yuv: seq<Byte>, at: PixelMap, columns: int, j: int)
    requires RowsPlaced(out, yuv, at, columns, j - 1) && ColsPlaced(out, yuv, at, j - 1, columns)
    ensures RowsPlaced(out, yuv, at, columns, j)
  {
    forall i', j' | 0 <= i' < columns && 0 <= j' < j ensures PlacedIndices(out, yuv, at(i', j')) {
      if j' == j - 1 {
        assert ColsPlaced(out, yuv, at, j - 1, columns);
      }
    }
  }

  lemma {:induction false} ColsPlace(yuv: seq<Byte>, at: PixelMap, columns: nat, rows: nat, j: nat, i: nat)
    requires Coherent(yuv, at, columns, rows) && j < rows && i <= columns
    ensures RotateCols(yuv, at, columns, j, i).Ok?
    ensures RowsPlaced(RotateCols(yuv, at, columns, j, i).value, yuv, at, columns, j)
    ensures ColsPlaced(RotateCols(yuv, at, columns, j, i).value, yuv, at, j, i)
    decreases j, 1, i
  {
    if i == 0 {
      RowsPlace(yuv, at, columns, rows, j);
    } else {
      ColsPlace(yuv, at, columns, rows, j, i - 1);
      WriteKeepsPlaced(RotateCols(yuv, at, columns, j, i - 1).value, yuv, at, columns, rows, j, i - 1);
    }
  }

  /** The loop body for pixel `(i, j)` keeps the pixels before it in place
      and puts its own. */
  lemma WriteKeepsPlaced(out: seq<Byte>, yuv: seq<Byte>, at: PixelMap, columns: int, rows: int, j: int, i: int)
    requires Coherent(yuv, at, columns, rows) && |out| == |yuv|
    requires 0 <= i < columns && 0 <= j < rows
    requires RowsPlaced(out, yuv, at, columns, j) && ColsPlaced(out, yuv, at, j, i)
    ensures Store(out, yuv, at(i, j)).Ok?
    ensures RowsPlaced(Store(out, yuv, at(i, j)).value, yuv, at, columns, j)
    ensures ColsPlaced(Store(out, yuv, at(i, j)).value, yuv, at, j, i + 1)
  {
    var x := at(i, j);
    assert Fits(yuv, x) && Agree(x, x);
    StorePlaces(out, yuv, x);
    var out' := Store(out, yuv, x).value;
    forall i', j' | 0 <= i' < columns && 0 <= j' < j ensures PlacedIndices(out', yuv, at(i', j')) {
      StoresKeepPlaced(out, yuv, at(i', j'), x);
    }
    forall i' | 0 <= i' < i ensures PlacedIndices(out', yuv, at(i', j)) {
      StoresKeepPlaced(out, yuv, at(i', j), x);
    }
  }

  /** On a regular frame an accepted non-zero rotation succeeds, and every
      pixel's luma byte and chroma pair sit where the loop body puts them:
      `out[yOut] == yuv[yIn]`, and the chroma pair of the pixel's 2-by-2
      block lands, still adjacent and in order, at `uOut, uOut + 1`. */
  lemma RotateRegular(yuv: seq<Byte>, width: int, height: int, rotation: int)
    requires ValidRotation(rotation) && rotation != 0 && RegularFrame(yuv, width, height)
    ensures var g := GeometryOf(width, height, rotation);
            var r := Rotate(yuv, width, height, rotation);
            && r.Ok?
            && forall i, j | 0 <= i < width && 0 <= j < height :: Placed(r.value, yuv, g, i, j)
  {
    var g := GeometryOf(width, height, rotation);
    RegularCoherent(yuv, g);
    RowsPlace(yuv, Positions(g), width, height, height);
    assert Rotate(yuv, width, height, rotation) == RotateRows(yuv, Positions(g), width, height);
    var out := Rotate(yuv, width, height, rotation).value;
    forall i, j | 0 <= i < width && 0 <= j < height ensures Placed(out, yuv, g, i, j) {
      assert PlacedIndices(out, yuv, Positions(g)(i, j));
    }
  }

  /** The output luma plane is the input luma plane rotated: output position
      `k` holds the luma byte of the pixel `LumaSource` names. */
  lemma RotatedLumaPlane(yuv: seq<Byte>, width: int, height: int, rotation: int)
    requires ValidRotation(rotation) && rotation != 0 && RegularFrame(yuv, width, height)
    ensures var g := GeometryOf(width, height, rotation);
            var r := Rotate(yuv, width, height, rotation);
            && r.Ok?
            && forall k | 0 <= k < width * height ::
                 var (i, j) := LumaSource(g, k);
                 && 0 <= i < width && 0 <= j < height && 0 <= LumaIn(g, i, j) < width * height
                 && r.value[k] == yuv[LumaIn(g, i, j)]
  {
    var g := GeometryOf(width, height, rotation);
    RotateRegular(yuv, width, height, rotation);
    var out := Rotate(yuv, width, height, rotation).value;
    forall k | 0 <= k < width * height
      ensures var (i, j) := LumaSource(g, k);
              && 0 <= i < width && 0 <= j < height && 0 <= LumaIn(g, i, j) < width * height
              && out[k] == yuv[LumaIn(g, i, j)]
    {
      LumaOutOfSource(g, k);
      var (i, j) := LumaSource(g, k);
      assert Placed(out, yuv, g, i, j);
      LumaPlaced(out, yuv, g, k);
    }
  }

  lemma LumaPlaced(out: seq<Byte>, yuv: seq<Byte>, g: Geometry, k: int)
    requires g.width > 0 && g.height > 0 && 0 <= k < FrameSize(g)
    requires Placed(out, yuv, g, LumaSource(g, k).0, LumaSource(g, k).1)
    ensures var (i, j) := LumaSource(g, k);
            && 0 <= i < g.width && 0 <= j < g.height && 0 <= LumaIn(g, i, j) < FrameSize(g)
            && k < |out| && LumaIn(g, i, j) < |yuv|
            && out[k] == yuv[LumaIn(g, i, j)]
  {
    LumaOutOfSource(g, k);
    var (i, j) := LumaSource(g, k);
    LumaInBound(g, i, j);
    PlacedLuma(out, yuv, PixelIndices(g, i, j), k);
  }

  lemma LumaInBound(g: Geometry, i: int, j: int)
    requires 0 <= i < g.width && 0 <= j < g.height
    ensures 0 <= LumaIn(g, i, j) < FrameSize(g)
  {
    RowMajorBound(j, i, g.width, g.height);
    assert g.height * g.width == FrameSize(g);
  }

  lemma PlacedLuma(out: seq<Byte>, yuv: seq<Byte>, x: Indices, k: int)
    requires PlacedIndices(out, yuv, x) && x.yOut == k
    ensures 0 <= k < |out| && 0 <= x.yIn < |yuv| && out[k] == yuv[x.yIn]
  {
  }

  // ---------------------------------------------------------------------
  // The chroma plane, block by block

  /** Where the chroma pair of block `(bi, bj)` starts, in a plane that begins
      at `plane` and holds `rowWidth` bytes per block row. */
  function PairAt(plane: int, rowWidth: int, bi: int, bj: int): int {
    plane + bj * rowWidth + 2 * bi
  }

  /** The chroma plane holds one pair per 2-by-2 block of pixels: the
      geometry of the blocks is the frame's at half scale. */
  function BlockGeometry(g: Geometry): Geometry {
    Geometry(g.width / 2, g.height / 2, g.swap, g.xflip, g.yflip)
  }

  /** Block `(bi, bj)` of the input goes to block
      `(OutI(BlockGeometry(g), bi, bj), OutJ(BlockGeometry(g), bi, bj))`,
      and `SourceOf` at half scale runs this backwards. */
  lemma BlockMapBijective(g: Geometry)
    requires g.width > 0 && g.height > 0 && g.width % 2 == 0 && g.height % 2 == 0
    ensures var b := BlockGeometry(g);
            && OutWidth(b) == OutWidth(g) / 2 && OutHeight(b) == OutHeight(g) / 2
            && (forall bi, bj | 0 <= bi < g.width / 2 && 0 <= bj < g.height / 2 ::
                  && 0 <= OutI(b, bi, bj) < OutWidth(b) && 0 <= OutJ(b, bi, bj) < OutHeight(b)
                  && SourceOf(b, OutI(b, bi, bj), OutJ(b, bi, bj)) == (bi, bj))
            && (forall bi', bj' | 0 <= bi' < OutWidth(b) && 0 <= bj' < OutHeight(b) ::
                  var (bi, bj) := SourceOf(b, bi', bj');
                  && 0 <= bi < g.width / 2 && 0 <= bj < g.height / 2
                  && OutI(b, bi, bj) == bi' && OutJ(b, bi, bj) == bj')
  {
    var b := BlockGeometry(g);
    forall bi, bj | 0 <= bi < g.width / 2 && 0 <= bj < g.height / 2
      ensures && 0 <= OutI(b, bi, bj) < OutWidth(b) && 0 <= OutJ(b, bi, bj) < OutHeight(b)
              && SourceOf(b, OutI(b, bi, bj), OutJ(b, bi, bj)) == (bi, bj)
    {
      SourceOfOut(b, bi, bj);
    }
    forall bi', bj' | 0 <= bi' < OutWidth(b) && 0 <= bj' < OutHeight(b)
      ensures var (bi, bj) := SourceOf(b, bi', bj');
              && 0 <= bi < g.width / 2 && 0 <= bj < g.height / 2
              && OutI(b, bi, bj) == bi' && OutJ(b, bi, bj) == bj'
    {
      SourceOfInverts(b, bi', bj');
    }
  }

  /** `SourceOf` undoes the pixel map: the left-inverse half of the
      bijection. */
  lemma SourceOfOut(g: Geometry, i: int, j: int)
    requires 0 <= i < g.width && 0 <= j < g.height
    ensures 0 <= OutI(g, i, j) < OutWidth(g) && 0 <= OutJ(g, i, j) < OutHeight(g)
    ensures SourceOf(g, OutI(g, i, j), OutJ(g, i, j)) == (i, j)
  {
  }

  /** The top-left pixel of block `(bi, bj)` writes its pair to the output
      block the block map names, and reads the block's own pair. */
  lemma BlockCorner(g: Geometry, bi: int, bj: int)
    requires g.width > 0 && g.height > 0 && g.width % 2 == 0 && g.height % 2 == 0
    requires 0 <= bi < g.width / 2 && 0 <= bj < g.height / 2
    ensures var b := BlockGeometry(g);
            && 0 <= 2 * bi < g.width && 0 <= 2 * bj < g.height
            && ChromaIn(g, 2 * bi, 2 * bj) == PairAt(FrameSize(g), g.width, bi, bj)
            && ChromaOut(g, 2 * bi, 2 * bj) == PairAt(FrameSize(g), OutWidth(g), OutI(b, bi, bj), OutJ(b, bi, bj))
  {
    var b := BlockGeometry(g);
    var i, j := 2 * bi, 2 * bj;
    HalfOutCoordinates(g, i, j);
    assert Half(i) == bi && Half(j) == bj;
    var a := OutI(g, i, j);
    assert ClearLowBit(a) == 2 * Half(a);
    assert Half(a) == OutI(b, bi, bj);
    assert Half(OutJ(g, i, j)) == OutJ(b, bi, bj);
  }

  /** The pair of input block `(bi, bj)` sits, still adjacent and in order,
      at the output block the block map names. */
  lemma BlockPlaced(yuv: seq<Byte>, out: seq<Byte>, g: Geometry, bi: int, bj: int)
    requires RegularFrame(yuv, g.width, g.height) && 0 <= bi < g.width / 2 && 0 <= bj < g.height / 2
    requires Placed(out, yuv, g, 2 * bi, 2 * bj)
    ensures var b := BlockGeometry(g);
            var p, q := PairAt(FrameSize(g), OutWidth(g), OutI(b, bi, bj), OutJ(b, bi, bj)), PairAt(FrameSize(g), g.width, bi, bj);
            && 0 <= p && p + 1 < |out| && 0 <= q && q + 1 < |yuv|
            && out[p] == yuv[q] && out[p + 1] == yuv[q + 1]
  {
    BlockCorner(g, bi, bj);
  }

  /** Output block `(bi', bj')` holds, still adjacent and in order, the
      chroma pair of the input block `SourceOf` names at half scale. */
  ghost predicate BlockFrom(out: seq<Byte>, yuv: seq<Byte>, g: Geometry, bi': int, bj': int) {
    var src := SourceOf(BlockGeometry(g), bi', bj');
    var bi, bj := src.0, src.1;
    var p, q := PairAt(FrameSize(g), OutWidth(g), bi', bj'), PairAt(FrameSize(g), g.width, bi, bj);
    && 0 <= bi < g.width / 2 && 0 <= bj < g.height / 2
    && 0 <= FrameSize(g) <= p && p + 1 < |out| && FrameSize(g) <= q && q + 1 < |yuv|
    && out[p] == yuv[q] && out[p + 1] == yuv[q + 1]
  }

  /** The output chroma plane is the input chroma plane with its 2-by-2
      blocks rotated: every output block holds the pair of the input block
      `SourceOf` names at half scale, and that block map is a bijection of
      the blocks. */
  lemma RotatedChromaPlane(yuv: seq<Byte>, width: int, height: int, rotation: int)
    requires ValidRotation(rotation) && rotation != 0 && RegularFrame(yuv, width, height)
    ensures var g := GeometryOf(width, height, rotation);
            var b := BlockGeometry(g);
            var r := Rotate(yuv, width, height, rotation);
            && r.Ok?
            && OutWidth(b) == OutWidth(g) / 2 && OutHeight(b) == OutHeight(g) / 2
            && (forall bi, bj | 0 <= bi < width / 2 && 0 <= bj < height / 2 ::
                  && 0 <= OutI(b, bi, bj) < OutWidth(b) && 0 <= OutJ(b, bi, bj) < OutHeight(b)
                  && SourceOf(b, OutI(b, bi, bj), OutJ(b, bi, bj)) == (bi, bj))
            && (forall bi', bj' | 0 <= bi' < OutWidth(b) && 0 <= bj' < OutHeight(b) ::
                  BlockFrom(r.value, yuv, g, bi', bj'))
  {
    var g := GeometryOf(width, height, rotation);
    var b := BlockGeometry(g);
    RegularSucceeds(yuv, width, height, rotation);
    BlockMapBijective(g);
    var out := Rotate(yuv, width, height, rotation).value;
    forall bi', bj' | 0 <= bi' < OutWidth(b) && 0 <= bj' < OutHeight(b)
      ensures BlockFrom(out, yuv, g, bi', bj')
    {
      RotatedBlock(yuv, width, height, rotation, bi', bj');
    }
  }

  lemma RegularSucceeds(yuv: seq<Byte>, width: int, height: int, rotation: int)
    requires ValidRotation(rotation) && rotation != 0 && RegularFrame(yuv, width, height)
    ensures Rotate(yuv, width, height, rotation).Ok?
  {
    RotateRegular(yuv, width, height, rotation);
  }

  /** Output block `(bi', bj')` of an accepted rotation of a regular frame. */
  lemma RotatedBlock(yuv: seq<Byte>, width: int, height: int, rotation: int, bi': int, bj': int)
    requires ValidRotation(rotation) && rotation != 0 && RegularFrame(yuv, width, height)
    requires var b := BlockGeometry(GeometryOf(width, height, rotation));
             0 <= bi' < OutWidth(b) && 0 <= bj' < OutHeight(b)
    ensures Rotate(yuv, width, height, rotation).Ok?
    ensures BlockFrom(Rotate(yuv, width, height, rotation).value, yuv, GeometryOf(width, height, rotation), bi', bj')
  {
    var g := GeometryOf(width, height, rotation);
    var b := BlockGeometry(g);
    RotateRegular(yuv, width, height, rotation);
    var out := Rotate(yuv, width, height, rotation).value;
    SourceOfInverts(b, bi', bj');
    var (bi, bj) := SourceOf(b, bi', bj');
    assert Placed(out, yuv, g, 2 * bi, 2 * bj);
    BlockPlaced(yuv, out, g, bi, bj);
    PairAtLeast(width, height, OutWidth(g), bi', bj');
    PairAtLeast(width, height, width, bi, bj);
  }

  lemma PairAtLeast(width: int, height: int, rowWidth: int, bi: int, bj: int)
    requires bi >= 0 && bj >= 0 && rowWidth >= 0
    ensures PairAt(width * height, rowWidth, bi, bj) >= width * height
  {
    assert bj * rowWidth >= 0;
  }

  // ---------------------------------------------------------------------
  // Quarter turns

  /** A quarter turn of a regular frame succeeds and gives a regular frame
      with the sides exchanged. */
  lemma QuarterTurnFrame(x: seq<Byte>, W: int, H: int)
    requires RegularFrame(x, W, H)
    ensures Rotate(x, W, H, 90).Ok? && RegularFrame(Rotate(x, W, H, 90).value, H, W)
  {
    RotateRegular(x, W, H, 90);
    assert H * W == W * H;
  }

  /** At 90 degrees luma pixel `(i, j)` of a `W` by `H` frame lands at
      column `H - 1 - j`, row `i` of the `H` by `W` output. */
  lemma QuarterTurnLuma(yuv: seq<Byte>, W: int, H: int, i: int, j: int)
    requires RegularFrame(yuv, W, H) && 0 <= i < W && 0 <= j < H
    ensures Rotate(yuv, W, H, 90).Ok?
    ensures var out := Rotate(yuv, W, H, 90).value;
            && |out| == |yuv|
            && 0 <= i * H + (H - 1 - j) < W * H && 0 <= j * W + i < W * H
            && out[i * H + (H - 1 - j)] == yuv[j * W + i]
  {
    var g := GeometryOf(W, H, 90);
    RotateRegular(yuv, W, H, 90);
    var out := Rotate(yuv, W, H, 90).value;
    assert Placed(out, yuv, g, i, j);
    PixelFacts(g, i, j);
  }

  /** At 90 degrees the pair of chroma block `(bi, bj)` lands at block column
      `H / 2 - 1 - bj`, block row `bi` of the output. */
  lemma QuarterTurnChroma(yuv: seq<Byte>, W: int, H: int, bi: int, bj: int)
    requires RegularFrame(yuv, W, H) && 0 <= bi < W / 2 && 0 <= bj < H / 2
    ensures Rotate(yuv, W, H, 90).Ok?
    ensures var out := Rotate(yuv, W, H, 90).value;
            var p, q := PairAt(W * H, H, H / 2 - 1 - bj, bi), PairAt(W * H, W, bi, bj);
            && |out| == |yuv| && 0 <= p && p + 1 < |yuv| && 0 <= q && q + 1 < |yuv|
            && out[p] == yuv[q] && out[p + 1] == yuv[q + 1]
  {
    var g := GeometryOf(W, H, 90);
    RotateRegular(yuv, W, H, 90);
    var out := Rotate(yuv, W, H, 90).value;
    assert Placed(out, yuv, g, 2 * bi, 2 * bj);
    BlockPlaced(yuv, out, g, bi, bj);
    var b := BlockGeometry(g);
    assert OutI(b, bi, bj) == H / 2 - 1 - bj && OutJ(b, bi, bj) == bi;
  }

  /** The output of a quarter turn of a regular frame, which is again a
      regular frame with the sides exchanged. */
  ghost function QuarterTurn(x: seq<Byte>, W: int, H: int): (r: seq<Byte>)
    requires RegularFrame(x, W, H)
    ensures RegularFrame(r, H, W) && Rotate(x, W, H, 90) == Ok(r)
  {
    QuarterTurnFrame(x, W, H);
    Rotate(x, W, H, 90).value
  }

  /** Four quarter turns bring luma pixel `(i, j)` back to where it started. */
  lemma FourTurnsLuma(x: seq<Byte>, w: int, h: int, i: int, j: int)
    requires RegularFrame(x, w, h) && 0 <= i < w && 0 <= j < h
    ensures var x4 := QuarterTurn(QuarterTurn(QuarterTurn(QuarterTurn(x, w, h), h, w), w, h), h, w);
            0 <= j * w + i < |x| && x4[j * w + i] == x[j * w + i]
  {
    var x1 := QuarterTurn(x, w, h);
    var x2 := QuarterTurn(x1, h, w);
    var x3 := QuarterTurn(x2, w, h);
    QuarterTurnLuma(x3, h, w, j, w - 1 - i);
    QuarterTurnLuma(x2, w, h, w - 1 - i, h - 1 - j);
    QuarterTurnLuma(x1, h, w, h - 1 - j, i);
    QuarterTurnLuma(x, w, h, i, j);
  }

  /** Four quarter turns bring the chroma pair of block `(bi, bj)` back to
      where it started. */
  lemma FourTurnsChroma(x: seq<Byte>, w: int, h: int, bi: int, bj: int)
    requires RegularFrame(x, w, h) && 0 <= bi < w / 2 && 0 <= bj < h / 2
    ensures var x4 := QuarterTurn(QuarterTurn(QuarterTurn(QuarterTurn(x, w, h), h, w), w, h), h, w);
            var q := PairAt(w * h, w, bi, bj);
            0 <= q && q + 1 < |x| && x4[q] == x[q] && x4[q + 1] == x[q + 1]
  {
    var x1 := QuarterTurn(x, w, h);
    var x2 := QuarterTurn(x1, h, w);
    var x3 := QuarterTurn(x2, w, h);
    assert h * w == w * h;
    QuarterTurnChroma(x3, h, w, bj, w / 2 - 1 - bi);
    QuarterTurnChroma(x2, w, h, w / 2 - 1 - bi, h / 2 - 1 - bj);
    QuarterTurnChroma(x1, h, w, h / 2 - 1 - bj, bi);
    QuarterTurnChroma(x, w, h, bi, bj);
  }

  /** Four quarter turns, each of the previous output with the sides
      exchanged, give back the frame. */
  lemma FourQuarterTurns(x: seq<Byte>, width: int, height: int)
    requires RegularFrame(x, width, height)
    ensures var x1 := Rotate(x, width, height, 90);
            && x1.Ok?
            && (var x2 := Rotate(x1.value, height, width, 90);
                && x2.Ok?
                && (var x3 := Rotate(x2.value, width, height, 90);
                    && x3.Ok?
                    && Rotate(x3.value, height, width, 90) == Ok(x)))
  {
    var w, h := width, height;
    var x4 := QuarterTurn(QuarterTurn(QuarterTurn(QuarterTurn(x, w, h), h, w), w, h), h, w);
    forall k | 0 <= k < |x| ensures x4[k] == x[k] {
      if k < w * h {
        DivModSplit(k, w, h);
        FourTurnsLuma(x, w, h, k % w, k / w);
      } else {
        var d := k - w * h;
        HalfProduct(w, h);
        DivModSplit(d, w, h / 2);
        var bj, rem := d / w, d % w;
        var bi := rem / 2;
        FourTurnsChroma(x, w, h, bi, bj);
        assert k == PairAt(w * h, w, bi, bj) + rem % 2;
      }
    }
    assert x4 == x;
  }
}
