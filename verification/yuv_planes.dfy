/**
  The plane plumbing of the video submitter: flattening a camera image's
  three planes into one `Y|U|V` byte array (`convertYUV420ToByteArray`),
  splitting such an array back into three plane buffers
  (`convertByteArrayToPlanes`), and the clipped plane copy (`copyBuffer`).

  A plane buffer is its content from index 0 to its limit; every buffer the
  code reads starts at position 0.
 */
module YuvPlanes {
  import opened JavaRuntime
  import opened Arithmetic

  /** One `Image.Plane`: its buffer and its strides. */
  datatype Plane = Plane(buffer: seq<Byte>, rowStride: int, pixelStride: int)

  /** A YUV_420_888 camera image. */
  datatype Image = Image(width: int, height: int, y: Plane, u: Plane, v: Plane)

  /** `width * height` and `width * height / 4` (Java's truncating division). */
  function LumaSize(width: int, height: int): int {
    width * height
  }

  function ChromaSize(width: int, height: int): int {
    Quot(LumaSize(width, height), 4)
  }

  /** Where chroma sample `(row, col)` lies in a plane buffer. */
  function Offset(rowStride: int, pixelStride: int, row: int, col: int): int {
    row * rowStride + col * pixelStride
  }

  /** How many chroma samples the nested loops read per plane. */
  function Samples(uvWidth: int, uvHeight: int): nat {
    if uvWidth > 0 && uvHeight > 0 then uvWidth * uvHeight else 0
  }

  /** Every sample the loops read lies inside the buffer. */
  ghost predicate Readable(buffer: seq<Byte>, rowStride: int, pixelStride: int, uvWidth: int, uvHeight: int) {
    forall row, col | 0 <= row < uvHeight && 0 <= col < uvWidth ::
      0 <= Offset(rowStride, pixelStride, row, col) < |buffer|
  }

  /** `region` holds the samples of `buffer` in row-major order, sample
      `(row, col)` at `row * uvWidth + col`, and zeros after the last one. */
  ghost predicate HoldsSamples(region: seq<Byte>, buffer: seq<Byte>, rowStride: int, pixelStride: int, uvWidth: int, uvHeight: int) {
    && Samples(uvWidth, uvHeight) <= |region|
    && (forall row, col | 0 <= row < uvHeight && 0 <= col < uvWidth ::
          && 0 <= row * uvWidth + col < |region|
          && 0 <= Offset(rowStride, pixelStride, row, col) < |buffer|
          && region[row * uvWidth + col] == buffer[Offset(rowStride, pixelStride, row, col)])
    && (forall k | Samples(uvWidth, uvHeight) <= k < |region| :: region[k] == 0)
  }

  /** The two chroma regions of the flat array. */
  datatype Chroma = Chroma(u: seq<Byte>, v: seq<Byte>)

  /** Sample `k` in row-major order is sample `(k / uvWidth, k % uvWidth)`. */
  function SampleOffset(rowStride: int, pixelStride: int, uvWidth: int, k: int): int
    requires uvWidth > 0
  {
    Offset(rowStride, pixelStride, k / uvWidth, k % uvWidth)
  }

  lemma RowMajor(uvWidth: int, uvHeight: int, row: int, col: int)
    requires 0 <= row < uvHeight && 0 <= col < uvWidth
    ensures 0 <= row * uvWidth + col < Samples(uvWidth, uvHeight)
    ensures (row * uvWidth + col) / uvWidth == row && (row * uvWidth + col) % uvWidth == col
  {
    DivModUnique(row * uvWidth + col, row, col, uvWidth);
    RowMajorBound(row, col, uvWidth, uvHeight);
  }

  lemma RowMajorBack(uvWidth: int, uvHeight: int, k: int)
    requires 0 <= k < Samples(uvWidth, uvHeight)
    ensures 0 <= k / uvWidth < uvHeight && 0 <= k % uvWidth < uvWidth
    ensures k == (k / uvWidth) * uvWidth + k % uvWidth
  {
  }

  /** The first `n` row-major samples of `buffer` are readable and stored in
      `out`. */
  ghost predicate Gathered(out: seq<Byte>, buffer: seq<Byte>, rowStride: int, pixelStride: int, uvWidth: int, n: int) {
    uvWidth > 0 ==> forall k | 0 <= k < n ::
      && 0 <= SampleOffset(rowStride, pixelStride, uvWidth, k) < |buffer|
      && k < |out|
      && out[k] == buffer[SampleOffset(rowStride, pixelStride, uvWidth, k)]
  }

  /** `out` is still zero from `n` on. */
  ghost predicate ZeroFrom(out: seq<Byte>, n: int) {
    forall k | n <= k < |out| && 0 <= k :: out[k] == 0
  }

  lemma GatherOne(out: seq<Byte>, buffer: seq<Byte>, rowStride: int, pixelStride: int, uvWidth: int, n: nat, index: int)
    requires uvWidth > 0 && n < |out| && Gathered(out, buffer, rowStride, pixelStride, uvWidth, n) && ZeroFrom(out, n)
    requires index == SampleOffset(rowStride, pixelStride, uvWidth, n) && 0 <= index < |buffer|
    ensures Gathered(out[n := buffer[index]], buffer, rowStride, pixelStride, uvWidth, n + 1)
    ensures ZeroFrom(out[n := buffer[index]], n + 1)
  {
  }

  /** The offset the loops compute for `(row, col)` is that of sample
      `row * uvWidth + col`. */
  lemma LoopOffset(rowStride: int, pixelStride: int, uvWidth: int, uvHeight: int, row: int, col: int)
    requires 0 <= row < uvHeight && 0 <= col < uvWidth
    ensures 0 <= row * uvWidth + col < Samples(uvWidth, uvHeight)
    ensures row * rowStride + col * pixelStride == Offset(rowStride, pixelStride, row, col)
                                               == SampleOffset(rowStride, pixelStride, uvWidth, row * uvWidth + col)
  {
    RowMajor(uvWidth, uvHeight, row, col);
  }

  /** Gathering all samples is reading the whole grid. */
  lemma GatheredAll(out: seq<Byte>, buffer: seq<Byte>, rowStride: int, pixelStride: int, uvWidth: int, uvHeight: int)
    requires Samples(uvWidth, uvHeight) <= |out|
    requires Gathered(out, buffer, rowStride, pixelStride, uvWidth, Samples(uvWidth, uvHeight))
    requires ZeroFrom(out, Samples(uvWidth, uvHeight))
    ensures Readable(buffer, rowStride, pixelStride, uvWidth, uvHeight)
    ensures HoldsSamples(out, buffer, rowStride, pixelStride, uvWidth, uvHeight)
  {
    forall row, col | 0 <= row < uvHeight && 0 <= col < uvWidth
      ensures && 0 <= Offset(rowStride, pixelStride, row, col) < |buffer|
              && 0 <= row * uvWidth + col < |out|
              && out[row * uvWidth + col] == buffer[Offset(rowStride, pixelStride, row, col)]
    {
      LoopOffset(rowStride, pixelStride, uvWidth, uvHeight, row, col);
    }
  }

  /** One pass of the inner loop: chroma row `row`, samples
      `row * uvWidth` to `row * uvWidth + uvWidth - 1`. */
  method GatherRow(u: seq<Byte>, v: seq<Byte>, rowStride: int, pixelStride: int,
                   uvWidth: int, uvHeight: int, row: int, us: seq<Byte>, vs: seq<Byte>) returns (r: Result<Chroma>)
    requires 0 <= row < uvHeight && 0 < uvWidth
    requires Samples(uvWidth, uvHeight) <= |us| == |vs|
    requires Gathered(us, u, rowStride, pixelStride, uvWidth, row * uvWidth) && ZeroFrom(us, row * uvWidth)
    requires Gathered(vs, v, rowStride, pixelStride, uvWidth, row * uvWidth) && ZeroFrom(vs, row * uvWidth)
    ensures r.Ok? ==> && |r.value.u| == |us| && |r.value.v| == |vs|
                      && Gathered(r.value.u, u, rowStride, pixelStride, uvWidth, (row + 1) * uvWidth)
                      && ZeroFrom(r.value.u, (row + 1) * uvWidth)
                      && Gathered(r.value.v, v, rowStride, pixelStride, uvWidth, (row + 1) * uvWidth)
                      && ZeroFrom(r.value.v, (row + 1) * uvWidth)
    ensures r.Throws? ==> && r.ex == IndexOutOfBounds
                          && !(Readable(u, rowStride, pixelStride, uvWidth, uvHeight)
                               && Readable(v, rowStride, pixelStride, uvWidth, uvHeight))
  {
    var rowOffset := row * rowStride;
    var outU, outV := us, vs;
    ghost var done := row * uvWidth;
    var col := 0;
    while col < uvWidth
      invariant 0 <= col <= uvWidth
      invariant done == row * uvWidth + col
      invariant done <= Samples(uvWidth, uvHeight) && |outU| == |us| && |outV| == |vs|
      invariant Gathered(outU, u, rowStride, pixelStride, uvWidth, done) && ZeroFrom(outU, done)
      invariant Gathered(outV, v, rowStride, pixelStride, uvWidth, done) && ZeroFrom(outV, done)
    {
      LoopOffset(rowStride, pixelStride, uvWidth, uvHeight, row, col);
      var at := row * uvWidth + col;
      var index := rowOffset + col * pixelStride;
      if !(0 <= index < |u|) {
        assert !Readable(u, rowStride, pixelStride, uvWidth, uvHeight) by {
          assert !(0 <= Offset(rowStride, pixelStride, row, col) < |u|);
        }
        return Throws(IndexOutOfBounds);
      }
      GatherOne(outU, u, rowStride, pixelStride, uvWidth, done, index);
      outU := outU[at := u[index]];
      if !(0 <= index < |v|) {
        assert !Readable(v, rowStride, pixelStride, uvWidth, uvHeight) by {
          assert !(0 <= Offset(rowStride, pixelStride, row, col) < |v|);
        }
        return Throws(IndexOutOfBounds);
      }
      GatherOne(outV, v, rowStride, pixelStride, uvWidth, done, index);
      outV := outV[at := v[index]];
      col := col + 1;
      done := done + 1;
    }
    assert done == (row + 1) * uvWidth by {
      assert (row + 1) * uvWidth == row * uvWidth + uvWidth;
    }
    return Ok(Chroma(outU, outV));
  }

  /** The semi-planar branch of `convertYUV420ToByteArray`: for each chroma
      row and column, read the U and the V sample at
      `row * rowStride + col * pixelStride` (absolute gets, which throw
      `IndexOutOfBoundsException` outside the buffer) and store them at
      `row * uvWidth + col` of the U and V regions. */
  method GatherSemiPlanar(u: seq<Byte>, v: seq<Byte>, rowStride: int, pixelStride: int,
                          uvWidth: int, uvHeight: int, uvSize: nat) returns (r: Result<Chroma>)
    requires Samples(uvWidth, uvHeight) <= uvSize
    ensures r.Ok? <==> Readable(u, rowStride, pixelStride, uvWidth, uvHeight)
                       && Readable(v, rowStride, pixelStride, uvWidth, uvHeight)
    ensures r.Throws? ==> r.ex == IndexOutOfBounds
    ensures r.Ok? ==> |r.value.u| == uvSize && |r.value.v| == uvSize
    ensures r.Ok? ==> && HoldsSamples(r.value.u, u, rowStride, pixelStride, uvWidth, uvHeight)
                      && HoldsSamples(r.value.v, v, rowStride, pixelStride, uvWidth, uvHeight)
  {
    var us, vs := Zeros(uvSize), Zeros(uvSize);
    ghost var done := 0;  // samples gathered so far
    if uvWidth > 0 {
      var row := 0;
      while row < uvHeight
        invariant 0 <= row && (row <= uvHeight || row == 0)
        invariant done == row * uvWidth && done <= Samples(uvWidth, uvHeight)
        invariant row >= uvHeight ==> done == Samples(uvWidth, uvHeight)
        invariant |us| == uvSize && |vs| == uvSize
        invariant Gathered(us, u, rowStride, pixelStride, uvWidth, done) && ZeroFrom(us, done)
        invariant Gathered(vs, v, rowStride, pixelStride, uvWidth, done) && ZeroFrom(vs, done)
      {
        var next := GatherRow(u, v, rowStride, pixelStride, uvWidth, uvHeight, row, us, vs);
        if next.Throws? {
          return Throws(next.ex);
        }
        us, vs := next.value.u, next.value.v;
        NextRow(uvWidth, uvHeight, row);
        row := row + 1;
        done := done + uvWidth;
      }
    }
    GatheredAll(us, u, rowStride, pixelStride, uvWidth, uvHeight);
    GatheredAll(vs, v, rowStride, pixelStride, uvWidth, uvHeight);
    return Ok(Chroma(us, vs));
  }

  /** The samples of the next chroma row follow those of the rows before it,
      and the last row ends the grid. */
  lemma NextRow(uvWidth: int, uvHeight: int, row: int)
    requires 0 < uvWidth && 0 <= row < uvHeight
    ensures (row + 1) * uvWidth == row * uvWidth + uvWidth <= Samples(uvWidth, uvHeight)
    ensures row + 1 >= uvHeight ==> (row + 1) * uvWidth == Samples(uvWidth, uvHeight)
  {
    RowMajorBound(row, uvWidth - 1, uvWidth, uvHeight);
    assert uvHeight * uvWidth == Samples(uvWidth, uvHeight);
  }

  /** The chroma grid the loops walk fits in the chroma region:
      `(width / 2) * (height / 2) <= width * height / 4`. */
  lemma SamplesFit(width: int, height: int)
    requires LumaSize(width, height) >= 0
    ensures Samples(Quot(width, 2), Quot(height, 2)) <= ChromaSize(width, height)
  {
    var a, c := Quot(width, 2), Quot(height, 2);
    if a > 0 && c > 0 {
      assert width >= 2 * a && height >= 2 * c;
      assert width * height - 2 * a * height == (width - 2 * a) * height;
      assert 2 * a * height - 4 * a * c == 2 * a * (height - 2 * c);
      assert width * height >= 4 * (a * c);
      var q := (width * height) / 4;
      assert width * height == 4 * q + (width * height) % 4;
    }
  }

  /** `convertYUV420ToByteArray`: the image's three planes flattened into
      one array `Y | U | V` of `ySize + 2 * uvSize` bytes. Besides the
      array (or the exception) it yields the value of the `uvPixelStride`
      field afterwards: the U plane's pixel stride once the luma copy has
      succeeded, the old value if the method threw before that. Both chroma
      planes are read with the U plane's strides. */
  method ConvertYuv420ToByteArray(image: Image, strideBefore: int) returns (r: Result<seq<Byte>>, stride: int)
    ensures var ySize := LumaSize(image.width, image.height);
            && (ySize < 0 ==> r == Throws(NegativeArraySize) && stride == strideBefore)
            && (0 <= ySize && |image.y.buffer| < ySize ==> r == Throws(BufferUnderflow) && stride == strideBefore)
            && (0 <= ySize <= |image.y.buffer| ==> stride == image.u.pixelStride)
    ensures var ySize, uvSize := LumaSize(image.width, image.height), ChromaSize(image.width, image.height);
            r.Ok? ==> 0 <= ySize && |r.value| == ySize + 2 * uvSize && r.value[..ySize] == image.y.buffer[..ySize]
    // planar chroma: two bulk copies
    ensures var ySize, uvSize := LumaSize(image.width, image.height), ChromaSize(image.width, image.height);
            0 <= ySize <= |image.y.buffer| && image.u.pixelStride == 1 ==>
              && (r.Ok? <==> uvSize <= |image.u.buffer| && uvSize <= |image.v.buffer|)
              && (r.Throws? ==> r.ex == BufferUnderflow)
              && (r.Ok? ==> r.value == image.y.buffer[..ySize] + image.u.buffer[..uvSize] + image.v.buffer[..uvSize])
    // semi-planar chroma: sample by sample
    ensures var ySize, uvSize := LumaSize(image.width, image.height), ChromaSize(image.width, image.height);
            var uvWidth, uvHeight := Quot(image.width, 2), Quot(image.height, 2);
            var (rs, ps) := (image.u.rowStride, image.u.pixelStride);
            0 <= ySize <= |image.y.buffer| && ps != 1 ==>
              && (r.Ok? <==> Readable(image.u.buffer, rs, ps, uvWidth, uvHeight) && Readable(image.v.buffer, rs, ps, uvWidth, uvHeight))
              && (r.Throws? ==> r.ex == IndexOutOfBounds)
              && (r.Ok? ==> && HoldsSamples(r.value[ySize..ySize + uvSize], image.u.buffer, rs, ps, uvWidth, uvHeight)
                            && HoldsSamples(r.value[ySize + uvSize..], image.v.buffer, rs, ps, uvWidth, uvHeight))
  {
    var ySize := LumaSize(image.width, image.height);
    var uvSize := ChromaSize(image.width, image.height);
    if ySize + 2 * uvSize < 0 {
      return Throws(NegativeArraySize), strideBefore;
    }
    if |image.y.buffer| < ySize {
      return Throws(BufferUnderflow), strideBefore;
    }
    var luma := image.y.buffer[..ySize];
    stride := image.u.pixelStride;
    var uvHeight, uvWidth := Quot(image.height, 2), Quot(image.width, 2);
    if stride == 1 {
      if |image.u.buffer| < uvSize {
        return Throws(BufferUnderflow), stride;
      }
      if |image.v.buffer| < uvSize {
        return Throws(BufferUnderflow), stride;
      }
      r := Ok(luma + image.u.buffer[..uvSize] + image.v.buffer[..uvSize]);
    } else {
      SamplesFit(image.width, image.height);
      var chroma := GatherSemiPlanar(image.u.buffer, image.v.buffer, image.u.rowStride, stride, uvWidth, uvHeight, uvSize);
      if chroma.Throws? {
        return Throws(chroma.ex), stride;
      }
      r := Ok(luma + chroma.value.u + chroma.value.v);
      assert r.value[ySize..ySize + uvSize] == chroma.value.u;
      assert r.value[ySize + uvSize..] == chroma.value.v;
    }
  }

  /** Three plane buffers handed to the encoder, each from 0 to its limit. */
  datatype Planes = Planes(y: seq<Byte>, u: seq<Byte>, v: seq<Byte>)

  /** The byte window the semi-planar split hands over as a chroma plane:
      `2 * uvSize - 2` bytes of `data` from `start`, then the one byte the
      loop never fills. */
  function SplitWindow(data: seq<Byte>, start: nat, uvSize: int): seq<Byte>
    requires uvSize >= 1 && (uvSize >= 2 ==> start + 2 * uvSize - 2 <= |data|)
  {
    if uvSize == 1 then [0] else data[start..start + 2 * uvSize - 2] + [0]
  }

  /** `convertByteArrayToPlanes`: split a flat `Y | U | V` array into three
      buffers of a `width` by `height` frame, the chroma ones according to the
      pixel stride recorded by the last flattening. Planar: the two chroma
      regions. Otherwise: two buffers of `2 * uvSize - 1` bytes filled pair by
      pair from the bytes after the luma region, the V buffer one byte behind
      the U buffer. `allocateDirect` of a negative size throws
      `IllegalArgumentException`; reading past `data` throws
      `IndexOutOfBoundsException`. */
  function ConvertByteArrayToPlanes(data: seq<Byte>, width: int, height: int, stride: int): (r: Result<Planes>)
    ensures var ySize, uvSize := LumaSize(width, height), ChromaSize(width, height);
            && (r.Ok? <==> && 0 <= ySize <= |data|
                           && (if stride == 1 then ySize + 2 * uvSize <= |data|
                               else uvSize >= 1 && (uvSize == 1 || ySize + 2 * uvSize - 2 < |data|)))
            && (r.Throws? ==> r.ex == (if ySize < 0 || (ySize <= |data| && stride != 1 && uvSize == 0)
                                       then IllegalArgument else IndexOutOfBounds))
    ensures r.Ok? ==> r.value.y == data[..LumaSize(width, height)]
    ensures var ySize, uvSize := LumaSize(width, height), ChromaSize(width, height);
            r.Ok? && stride == 1 ==>
              r.value.u == data[ySize..ySize + uvSize] && r.value.v == data[ySize + uvSize..ySize + 2 * uvSize]
    ensures var ySize, uvSize := LumaSize(width, height), ChromaSize(width, height);
            r.Ok? && stride != 1 ==>
              && |r.value.u| == 2 * uvSize - 1 == |r.value.v|
              && (forall k | 0 <= k < 2 * uvSize - 2 :: r.value.u[k] == data[ySize + k] && r.value.v[k] == data[ySize + 1 + k])
              && r.value.u[2 * uvSize - 2] == 0 == r.value.v[2 * uvSize - 2]
  {
    var ySize, uvSize := LumaSize(width, height), ChromaSize(width, height);
    if ySize < 0 then Throws(IllegalArgument)
    else if |data| < ySize then Throws(IndexOutOfBounds)
    else if stride == 1 then
      if |data| < ySize + 2 * uvSize then Throws(IndexOutOfBounds)
      else Ok(Planes(data[..ySize], data[ySize..ySize + uvSize], data[ySize + uvSize..ySize + 2 * uvSize]))
    else if uvSize == 0 then Throws(IllegalArgument)
    else if uvSize >= 2 && |data| <= ySize + 2 * uvSize - 2 then Throws(IndexOutOfBounds)
    else Ok(Planes(data[..ySize], SplitWindow(data, ySize, uvSize), SplitWindow(data, ySize + 1, uvSize)))
  }

  /** A planar frame survives flattening and splitting at its own size: the
      encoder gets exactly the luma and chroma bytes of the camera planes. */
  lemma PlanarRoundTrip(image: Image, flat: seq<Byte>)
    requires var ySize, uvSize := LumaSize(image.width, image.height), ChromaSize(image.width, image.height);
             && 0 <= ySize <= |image.y.buffer| && uvSize <= |image.u.buffer| && uvSize <= |image.v.buffer|
             && flat == image.y.buffer[..ySize] + image.u.buffer[..uvSize] + image.v.buffer[..uvSize]
    ensures var ySize, uvSize := LumaSize(image.width, image.height), ChromaSize(image.width, image.height);
            ConvertByteArrayToPlanes(flat, image.width, image.height, 1)
              == Ok(Planes(image.y.buffer[..ySize], image.u.buffer[..uvSize], image.v.buffer[..uvSize]))
  {
    var ySize, uvSize := LumaSize(image.width, image.height), ChromaSize(image.width, image.height);
    assert flat[..ySize] == image.y.buffer[..ySize];
    assert flat[ySize..ySize + uvSize] == image.u.buffer[..uvSize];
    assert flat[ySize + uvSize..ySize + 2 * uvSize] == image.v.buffer[..uvSize];
  }

  /** What the semi-planar split hands over, in terms of the two chroma
      regions `U` and `V` of the flat array: the "U" buffer is all of `U`
      followed by the first `uvSize - 2` bytes of `V`, the "V" buffer is `U`
      without its first byte followed by the first `uvSize - 1` bytes of `V`.
      Neither is the interleaved plane a semi-planar encoder reads. */
  lemma SemiPlanarSplitMixesRegions(data: seq<Byte>, width: int, height: int, stride: int)
    requires stride != 1
    requires ConvertByteArrayToPlanes(data, width, height, stride).Ok?
    requires LumaSize(width, height) + 2 * ChromaSize(width, height) <= |data|
    ensures var ySize, uvSize := LumaSize(width, height), ChromaSize(width, height);
            var planes := ConvertByteArrayToPlanes(data, width, height, stride).value;
            var uRegion, vRegion := data[ySize..ySize + uvSize], data[ySize + uvSize..ySize + 2 * uvSize];
            uvSize >= 2 ==>
              && planes.u == uRegion + vRegion[..uvSize - 2] + [0]
              && planes.v == uRegion[1..] + vRegion[..uvSize - 1] + [0]
  {
    var ySize, uvSize := LumaSize(width, height), ChromaSize(width, height);
    if uvSize >= 2 {
      SplitWindowsOverlap(data, ySize, uvSize);
    }
  }

  lemma SplitWindowsOverlap(data: seq<Byte>, start: nat, n: int)
    requires n >= 2 && start + 2 * n <= |data|
    ensures var uRegion, vRegion := data[start..start + n], data[start + n..start + 2 * n];
            && SplitWindow(data, start, n) == uRegion + vRegion[..n - 2] + [0]
            && SplitWindow(data, start + 1, n) == uRegion[1..] + vRegion[..n - 1] + [0]
  {
    var uRegion, vRegion := data[start..start + n], data[start + n..start + 2 * n];
    assert data[start..start + 2 * n - 2] == uRegion + vRegion[..n - 2];
    assert data[start + 1..start + 1 + 2 * n - 2] == uRegion[1..] + vRegion[..n - 1];
  }

  /** `copyBuffer`: copy as much of the source as fits into the destination's
      capacity. The destination keeps its capacity; its first `count` bytes
      are the source's and the rest is untouched (its limit is left at
      `count`). */
  method CopyBuffer(source: seq<Byte>, destination: seq<Byte>) returns (copied: seq<Byte>, count: nat)
    ensures count == Min(|destination|, |source|)
    ensures |copied| == |destination|
    ensures copied[..count] == source[..count]
    ensures copied[count..] == destination[count..]
  {
    count := Min(|destination|, |source|);
    copied := destination;
    var k := 0;
    while k < count
      invariant 0 <= k <= count
      invariant |copied| == |destination|
      invariant copied[..k] == source[..k]
      invariant copied[k..] == destination[k..]
    {
      copied := copied[k := source[k]];
      k := k + 1;
    }
  }
}
