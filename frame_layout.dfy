/**
 * Byte layout of a raw planar 4:2:0 frame file: one luma plane of `w*h`
 * bytes followed by two chroma planes of `w*h/4` bytes each. The harness
 * reads one frame at byte offset `file_size % frame_size`, luma into
 * `planes[0]`, the first chroma plane into `planes[2]` and the second into
 * `planes[1]`. All quantities are C `int`s; the file's length is an input,
 * narrowed to the `int` that stores `ftell`'s result.
 */
module FrameLayout {
  import opened CTypes

  /** Dimensions of the frame file the harness opens. */
  const FRAME_WIDTH: int := 1920
  const FRAME_HEIGHT: int := 1080

  /** Dimensions for which every size below is a non-negative `int` without overflow. */
  predicate ValidDims(w: int, h: int) {
    0 < w && 0 < h && w * h + 2 * (w * h / 4) <= INT32_MAX
  }

  /** C's `/` on `int`: the quotient is truncated toward zero. */
  function CDiv(a: int, b: int): int
    requires b > 0
  {
    if a >= 0 then a / b else -((-a) / b)
  }

  /** C's `%` on `int`: the remainder takes the sign of the dividend. */
  function CRem(a: int, b: int): int
    requires b > 0
  {
    if a >= 0 then a % b else -((-a) % b)
  }

  /** The sizes and the read position computed before the three reads. */
  datatype Layout = Layout(
    lumaSize: int,     // y = w * h
    chromaSize: int,   // u = v = y / 4
    frameSize: int,    // y + u + v
    frameCount: int,   // file_size / frame_size
    offset: int)       // file_size % frame_size

  function ComputeLayout(w: int, h: int, fileSize: Int32): (l: Layout)
    requires ValidDims(w, h)
    ensures l.lumaSize == w * h
    ensures 4 * l.chromaSize <= l.lumaSize < 4 * l.chromaSize + 4
    ensures l.frameSize == l.lumaSize + 2 * l.chromaSize && 0 < l.frameSize <= INT32_MAX
  {
    var y := w * h;
    var v := y / 4;
    var u := v;
    var frameSize := y + u + v;
    Layout(y, v, frameSize, CDiv(fileSize, frameSize), CRem(fileSize, frameSize))
  }

  /** A non-negative file size splits into `frame_count` whole frames and a
      remainder smaller than one frame, which is the read offset; a negative
      size (the error value of `ftell`) gives a non-positive offset and count. */
  lemma OffsetSplitsFile(w: int, h: int, fileSize: Int32)
    requires ValidDims(w, h)
    ensures var l := ComputeLayout(w, h, fileSize);
      && fileSize == l.frameCount * l.frameSize + l.offset
      && (fileSize >= 0 ==> 0 <= l.frameCount && 0 <= l.offset < l.frameSize)
      && (fileSize < 0 ==> l.frameCount <= 0 && -l.frameSize < l.offset <= 0)
  {
    CDivRem(fileSize, ComputeLayout(w, h, fileSize).frameSize);
  }

  /** C's quotient and remainder recombine to the dividend; the remainder
      is smaller than the divisor and has the dividend's sign. */
  lemma CDivRem(a: int, b: int)
    requires b > 0
    ensures a == CDiv(a, b) * b + CRem(a, b)
    ensures a >= 0 ==> 0 <= CDiv(a, b) && 0 <= CRem(a, b) < b
    ensures a < 0 ==> CDiv(a, b) <= 0 && -b < CRem(a, b) <= 0
  {
    if a >= 0 {
      DivModNonNeg(a, b);
    } else {
      DivModNonNeg(-a, b);
      NegateProduct((-a) / b, b);
    }
  }

  lemma DivModNonNeg(m: int, b: int)
    requires m >= 0 && b > 0
    ensures m == (m / b) * b + m % b
    ensures 0 <= m / b && 0 <= m % b < b
  {
  }

  lemma NegateProduct(q: int, b: int)
    ensures (-q) * b == -(q * b)
  {
  }

  /** `int file_size = ftell(fp)`: the `long` length of the file narrowed to
      a C `int`, which keeps it modulo 2^32 on the target. Lengths that fit
      an `int` (below 2 GiB) are kept exactly, as is ftell's error value -1. */
  function FileSizeAsInt(length: Int64): (fileSize: Int32)
    ensures InInt32(length) ==> fileSize == length
    ensures (length - fileSize) % TWO_32 == 0
  {
    Wrap32(length)
  }

  /** The sizes of the buffers `malloc`'d for `planes[0]`, `planes[1]` and
      `planes[2]`: the luma plane, then the two equal chroma planes. */
  function PlaneSizes(l: Layout): (sizes: seq<int>)
    ensures |sizes| == 3
    ensures sizes[0] == l.lumaSize && sizes[1] == sizes[2] == l.chromaSize
  {
    [l.lumaSize, l.chromaSize, l.chromaSize]
  }

  /** One `fread`: which slot of `planes` it fills, and the bytes it covers. */
  datatype Read = Read(slot: nat, start: int, length: int)

  /** Where `fseek(fp, file_size % frame_size, SEEK_SET)` leaves the stream:
      at the offset, or, when the offset is negative and the call fails, at
      `length`, where the earlier seek to the end of the file put it. */
  function SeekSet(offset: int, length: int): int {
    if offset >= 0 then offset else length
  }

  /** The three reads in call order from the position the seek leaves; each
      starts where the previous one ended and reads exactly the size of the
      buffer it fills: the luma plane into slot 0, then a chroma plane into
      slot 2 and one into slot 1. */
  function Reads(l: Layout, length: int): (rs: seq<Read>)
    ensures |rs| == 3
    ensures rs[0].start == SeekSet(l.offset, length)
    ensures forall i :: 0 <= i < 2 ==> rs[i].start + rs[i].length == rs[i + 1].start
    ensures rs[0].slot == 0 && rs[1].slot == 2 && rs[2].slot == 1
    ensures forall i :: 0 <= i < 3 ==> rs[i].length == PlaneSizes(l)[rs[i].slot]
    ensures rs[2].start + rs[2].length == rs[0].start + l.lumaSize + 2 * l.chromaSize
  {
    var p := SeekSet(l.offset, length);
    [ Read(0, p, l.lumaSize),
      Read(2, p + l.lumaSize, l.chromaSize),
      Read(1, p + l.lumaSize + l.chromaSize, l.chromaSize) ]
  }

  /** The reads cover one frame, `[p, p + frame_size)`, in three consecutive,
      non-overlapping ranges and fill each of the three slots exactly once
      with as many bytes as its buffer holds: `[p, p + y)` into slot 0,
      `[p + y, p + y + v)` into slot 2 and `[p + y + v, p + frame_size)` into
      slot 1. The start `p` is the offset when it is
      non-negative; a negative offset (from a negative `file_size`) makes the
      seek fail, and the reads start at the end of the file. */
  lemma ReadsTileOneFrame(w: int, h: int, length: Int64)
    requires ValidDims(w, h)
    ensures var l := ComputeLayout(w, h, FileSizeAsInt(length));
      var rs := Reads(l, length);
      && |rs| == 3
      && (l.offset >= 0 ==> rs[0].start == l.offset)
      && (l.offset < 0 ==> rs[0].start == length)
      && (forall i :: 0 <= i < 2 ==> rs[i].start + rs[i].length == rs[i + 1].start)
      && rs[2].start + rs[2].length == rs[0].start + l.frameSize
      && (forall i :: 0 <= i < 3 ==> 0 <= rs[i].length)
      && (forall i, j :: 0 <= i < j < 3 ==> rs[i].start + rs[i].length <= rs[j].start)
      && rs[0].slot == 0 && rs[1].slot == 2 && rs[2].slot == 1
      && rs[0].length == l.lumaSize && rs[1].length == l.chromaSize && rs[2].length == l.chromaSize
      && rs[1].start == rs[0].start + l.lumaSize
      && rs[2].start == rs[0].start + l.lumaSize + l.chromaSize
      && (forall i :: 0 <= i < 3 ==> rs[i].length == PlaneSizes(l)[rs[i].slot])
      && multiset{rs[0].slot, rs[1].slot, rs[2].slot} == multiset{0, 1, 2}
  {
    var l := ComputeLayout(w, h, FileSizeAsInt(length));
    var rs := Reads(l, length);
    assert 0 <= l.chromaSize;
    assert rs[0].slot == 0 && rs[2].slot == 1 && rs[1].slot == 2;
  }

  /** For a file shorter than 2 GiB the frame read lies inside the file
      exactly when the file holds at least one whole frame; it is then the
      first whole frame after the leading partial remainder, so it ends
      `frame_count - 1` frames before the end of the file. */
  lemma ReadInsideFileIffWholeFrame(w: int, h: int, length: Int64)
    requires ValidDims(w, h)
    requires 0 <= length <= INT32_MAX
    ensures var l := ComputeLayout(w, h, FileSizeAsInt(length));
      var end := Reads(l, length)[2].start + Reads(l, length)[2].length;
      && (end <= length <==> l.frameCount >= 1)
      && (l.frameCount >= 1 ==> length - end == (l.frameCount - 1) * l.frameSize)
  {
    OffsetSplitsFile(w, h, FileSizeAsInt(length));
  }

  /** A file of 4 GiB and 100 bytes: its length narrows to 100, so the
      harness counts no whole frame and reads at offset 100, although the
      file holds 1380 whole frames and the read lies inside it. */
  lemma LargeFileSizeWraps()
    ensures var length := TWO_32 + 100;
      var l := ComputeLayout(FRAME_WIDTH, FRAME_HEIGHT, FileSizeAsInt(length));
      && FileSizeAsInt(length) == 100
      && l.frameCount == 0 && l.offset == 100
      && Reads(l, length)[0].start == 100
      && 100 + l.frameSize <= length
      && length / l.frameSize == 1380
  {
    var length := TWO_32 + 100;
    assert FileSizeAsInt(length) == 100;
  }

  /** `glTexImage2D` reads GL_LUMINANCE/GL_UNSIGNED_BYTE rows of one byte
      per texel, each row starting at a multiple of GL_UNPACK_ALIGNMENT,
      which the harness leaves at its initial value. */
  const UNPACK_ALIGNMENT: int := 4

  /** The distance between the starts of consecutive rows in client memory:
      the row width rounded up to the unpack alignment. */
  function RowStride(width: int): (stride: int)
    requires 0 <= width
    ensures stride % UNPACK_ALIGNMENT == 0 && width <= stride < width + UNPACK_ALIGNMENT
    ensures width % UNPACK_ALIGNMENT == 0 ==> stride == width
  {
    (width + UNPACK_ALIGNMENT - 1) / UNPACK_ALIGNMENT * UNPACK_ALIGNMENT
  }

  /** The bytes one `glTexImage2D` upload of a `width` by `height` image
      reads from its buffer: every row but the last is followed by its
      alignment padding. */
  function UploadBytes(width: int, height: int): int
    requires 0 <= width && 0 <= height
  {
    if height == 0 then 0 else (height - 1) * RowStride(width) + width
  }

  /** An upload reads exactly `width * height` bytes when rows need no
      padding or there is only one row, and more than that otherwise. */
  lemma UploadBytesRule(width: int, height: int)
    requires 0 < width && 0 < height
    ensures width % UNPACK_ALIGNMENT == 0 || height == 1 ==> UploadBytes(width, height) == width * height
    ensures width % UNPACK_ALIGNMENT != 0 && height >= 2 ==> UploadBytes(width, height) > width * height
  {
    var r := RowStride(width);
    assert UploadBytes(width, height) - width * height == (height - 1) * (r - width);
    if width % UNPACK_ALIGNMENT != 0 && height >= 2 {
      MulMonotone(1, 1, height - 1, r - width);
    }
  }

  /** The luma upload (`w` by `h`) stays inside its `y`-byte plane exactly
      when the rows need no padding or there is one row, and then reads the
      whole plane. */
  lemma LumaTextureFitsPlane(w: int, h: int)
    requires ValidDims(w, h)
    ensures UploadBytes(w, h) <= ComputeLayout(w, h, 0).lumaSize <==> w % UNPACK_ALIGNMENT == 0 || h == 1
    ensures w % UNPACK_ALIGNMENT == 0 || h == 1 ==> UploadBytes(w, h) == ComputeLayout(w, h, 0).lumaSize
  {
    UploadBytesRule(w, h);
  }

  /** The half-resolution chroma texture has `w/2` by `h/2` texels, which
      never exceed its chroma buffer and fill it exactly when both
      dimensions are even. Its upload stays inside the buffer when the
      chroma rows need no padding; for even dimensions it stays inside
      exactly when the rows need no padding or there is one row. */
  lemma ChromaTextureFitsPlane(w: int, h: int)
    requires ValidDims(w, h)
    ensures (w / 2) * (h / 2) <= ComputeLayout(w, h, 0).chromaSize
    ensures w % 2 == 0 && h % 2 == 0 ==> (w / 2) * (h / 2) == ComputeLayout(w, h, 0).chromaSize
    ensures (w / 2) % UNPACK_ALIGNMENT == 0 ==> UploadBytes(w / 2, h / 2) <= ComputeLayout(w, h, 0).chromaSize
    ensures w % 2 == 0 && h % 2 == 0 ==>
      (UploadBytes(w / 2, h / 2) <= ComputeLayout(w, h, 0).chromaSize <==>
       (w / 2) % UNPACK_ALIGNMENT == 0 || h / 2 == 1)
  {
    var a, b := w / 2, h / 2;
    MulMonotone(2 * a, 2 * b, w, h);
    assert (2 * a) * (2 * b) == 4 * (a * b);
    if a > 0 && b > 0 {
      UploadBytesRule(a, b);
    }
  }

  /** A 6 by 4 frame: each chroma upload reads 7 bytes from its 6-byte
      buffer, because the 3-byte rows are padded to 4. */
  lemma ChromaUploadOverreads()
    ensures ValidDims(6, 4)
    ensures ComputeLayout(6, 4, 0).chromaSize == 6 && UploadBytes(3, 2) == 7
  {
  }

  lemma MulMonotone(a: int, b: int, c: int, d: int)
    requires 0 <= a <= c && 0 <= b <= d
    ensures a * b <= c * d
  {
    assert (c - a) * b >= 0;
    assert c * (d - b) >= 0;
  }

  /** The frame file of the harness: 1920 by 1080 gives frames of 3 110 400
      bytes; a file of exactly three frames is read at offset 0, and a file
      with 100 bytes beyond one frame is read at offset 100. */
  lemma HarnessFrameFile()
    ensures ValidDims(FRAME_WIDTH, FRAME_HEIGHT)
    ensures var l := ComputeLayout(FRAME_WIDTH, FRAME_HEIGHT, 9_331_200);
      l.lumaSize == 2_073_600 && l.chromaSize == 518_400 && l.frameSize == 3_110_400
      && l.frameCount == 3 && l.offset == 0
    ensures var l := ComputeLayout(FRAME_WIDTH, FRAME_HEIGHT, 3_110_500);
      l.frameCount == 1 && l.offset == 100
    ensures UploadBytes(FRAME_WIDTH, FRAME_HEIGHT) == 2_073_600
    ensures UploadBytes(FRAME_WIDTH / 2, FRAME_HEIGHT / 2) == 518_400
  {
  }
}
