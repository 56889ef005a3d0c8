/**
 * The PNG "optimum" predictor stream: a source of filtered rows, each a
 * filter-type byte followed by the row's data, decoded row by row into the
 * original bytes (section 6 of RFC 2083). The row being decoded is kept in
 * a buffer whose first cell, where the type byte was, holds 0; the previous
 * decoded row is kept beside it as the "up" row.
 */
module PngPredictor {
  import opened Common
  import opened Streams

  function Abs(v: int): nat { if v < 0 then -v else v }

  function Max(a: int, b: int): int { if a >= b then a else b }

  /** A byte read through a (signed) `char`. */
  function SignedChar(b: byte): int { if b < 128 then b else b - 256 }

  /** C's integer division by 2, which truncates toward zero. */
  function TruncHalf(v: int): int { if v >= 0 then v / 2 else -((-v) / 2) }

  // ---------------------------------------------------------------------
  // The predictors of RFC 2083 section 6, on unsigned bytes.

  /** The "Average" predictor: the floor of the mean of left and up. */
  function Average(left: byte, up: byte): (r: byte)
    ensures Min(left, up) <= r <= Max(left, up)
    ensures 2 * r == left + up || 2 * r + 1 == left + up
  {
    (left + up) / 2
  }

  /**
   * The Paeth predictor: whichever of left, up and upper-left is nearest to
   * left + up - upper-left, preferring left, then up.
   */
  function Paeth(left: byte, up: byte, upLeft: byte): (r: byte)
    ensures r == left || r == up || r == upLeft
    ensures var p := left + up - upLeft;
      Abs(p - r) <= Abs(p - left) && Abs(p - r) <= Abs(p - up) && Abs(p - r) <= Abs(p - upLeft)
    ensures var p := left + up - upLeft;
      Abs(p - left) <= Abs(p - up) && Abs(p - left) <= Abs(p - upLeft) ==> r == left
  {
    var p := left + up - upLeft;
    var pLeft, pUp, pUpLeft := Abs(p - left), Abs(p - up), Abs(p - upLeft);
    if pLeft <= pUp && pLeft <= pUpLeft then left
    else if pUp <= pUpLeft then up
    else upLeft
  }

  /** The value a filter type adds to the raw byte; types above 4 are not filters. */
  function Predictor(filter: nat, left: byte, up: byte, upLeft: byte): byte
    requires filter <= 4
  {
    match filter
    case 0 => 0
    case 1 => left
    case 2 => up
    case 3 => Average(left, up)
    case 4 => Paeth(left, up, upLeft)
  }

  // ---------------------------------------------------------------------
  // The decoder as written in the source, for the three places where it
  // differs from the predictors above.

  /**
   * `PaethPredictor` as written: its arguments arrive as signed chars and,
   * when left is nearest, it returns the distance `pLeft` instead of left.
   */
  function PaethAsWritten(left: int, up: int, upLeft: int): int
  {
    var p := left + up - upLeft;
    var pLeft, pUp, pUpLeft := Abs(p - left), Abs(p - up), Abs(p - upLeft);
    if pLeft <= pUp && pLeft <= pUpLeft then pLeft
    else if pUp <= pUpLeft then up
    else upLeft
  }

  /** Filter type 3 as written: the halves of the signed left and up bytes, each truncated, added. */
  function AverageAsWritten(left: byte, up: byte): int
  {
    TruncHalf(SignedChar(left)) + TruncHalf(SignedChar(up))
  }

  /**
   * The cell type 1 reads as "left" of cell `x` as written: `bytesPerPixel`
   * cells back, which lies before the buffer for the first pixel when a
   * pixel has more than one byte. Types 3 and 4 read cell `x - 1` whatever
   * the pixel size.
   */
  function LeftCellAsWritten(filter: nat, x: nat, bytesPerPixel: nat): int
  {
    if filter == 1 then x - bytesPerPixel else x - 1
  }

  /** With left, up and upper-left 20, 10, 10 the left byte is nearest, yet the distance 0 comes back. */
  lemma PaethAsWrittenReturnsDistance()
    ensures Paeth(20, 10, 10) == 20
    ensures PaethAsWritten(SignedChar(20), SignedChar(10), SignedChar(10)) == 0
  {
  }

  /** Left and up the same odd byte below 128: the PNG average is that byte, the halves as written one less. */
  lemma AverageAsWrittenLosesCarry(v: byte)
    requires v < 128 && v % 2 == 1
    ensures Average(v, v) == v
    ensures AverageAsWritten(v, v) == v - 1
  {
    assert SignedChar(v) == v;
    assert TruncHalf(v) == v / 2;
  }

  /** A three-byte pixel: type 1 at the first data cell reads cell -2, outside the buffer. */
  lemma LeftCellAsWrittenOutsideBuffer()
    ensures LeftCellAsWritten(1, 1, 3) < 0
    ensures LeftCellAsWritten(4, 4, 3) == 3
  {
  }

  /**
   * Filter type 1 at cell `x` as written: the cell `bytesPerPixel` back plus
   * the raw cell, each read as a signed char, the sum stored as a byte.
   */
  function SubCellAsWritten(row: seq<byte>, x: nat, bytesPerPixel: nat): byte
    requires bytesPerPixel <= x < |row|
  {
    (SignedChar(row[x - bytesPerPixel]) + SignedChar(row[x])) % 256
  }

  /**
   * With fewer than 8 bits per pixel (one colour of 1 bit, say) a pixel is
   * 0 bytes as written, so type 1 adds each raw cell to itself: the row
   * 5, 3 comes out 10, 6. Taking a pixel as at least one byte, it comes
   * out 5, 8.
   */
  lemma SubAsWrittenAddsCellToItself(row: seq<byte>, x: nat)
    requires 1 <= x < |row|
    ensures SubCellAsWritten(row, x, 0) as int == (2 * (row[x] as int)) % 256
    ensures SubCellAsWritten([0, 5, 3], 1, 0) == 10 && SubCellAsWritten([0, 10, 3], 2, 0) == 6
    ensures FinishRow(1, [0, 5, 3], [0, 0, 0], 1, Stride(0)) == [0, 5, 8]
  {
    var v: int := row[x];
    if v >= 128 {
      assert SignedChar(row[x]) + SignedChar(row[x]) == 2 * v - 512;
    }
    var r0: seq<byte> := [0, 5, 3];
    var r1 := r0[1 := DecodeAt(1, r0, [0, 0, 0], 1, 1)];
    assert r1 == [0, 5, 3];
    var r2 := r1[2 := DecodeAt(1, r1, [0, 0, 0], 2, 1)];
    assert r2 == [0, 5, 8];
  }

  // ---------------------------------------------------------------------
  // RFC 2083 row filtering and reconstruction, on the data bytes of a row.

  /** A pixel's distance in bytes, at least one (section 6 of RFC 2083). */
  function Stride(bytesPerPixel: nat): (s: nat)
    ensures s >= 1
  {
    if bytesPerPixel == 0 then 1 else bytesPerPixel
  }

  /** The byte one pixel to the left of data byte `t`, 0 before the row's start. */
  function LeftOf(d: seq<byte>, t: nat, s: nat): byte
    requires t < |d| && s >= 1
  {
    if t >= s then d[t - s] else 0
  }

  /** The filter a PNG encoder applies: each byte less its prediction from the original row. */
  function FilterRow(filter: nat, d: seq<byte>, prior: seq<byte>, s: nat): (r: seq<byte>)
    requires filter <= 4 && |prior| == |d| && s >= 1
    ensures |r| == |d|
  {
    seq(|d|, t requires 0 <= t < |d| =>
      (d[t] - Predictor(filter, LeftOf(d, t, s), prior[t], LeftOf(prior, t, s))) % 256)
  }

  /** The first `k` bytes of the reconstructed row, each raw byte plus its prediction. */
  function Reconstruct(filter: nat, raw: seq<byte>, prior: seq<byte>, s: nat, k: nat): (d: seq<byte>)
    requires filter <= 4 && |prior| == |raw| && s >= 1 && k <= |raw|
    ensures |d| == k
  {
    if k == 0 then []
    else
      var d := Reconstruct(filter, raw, prior, s, k - 1);
      d + [(raw[k - 1] + Predictor(filter, if k - 1 >= s then d[k - 1 - s] else 0,
                                   prior[k - 1], LeftOf(prior, k - 1, s))) % 256]
  }

  /** Reconstruction of a longer prefix extends the shorter one. */
  lemma {:induction false} ReconstructPrefix(filter: nat, raw: seq<byte>, prior: seq<byte>, s: nat, j: nat, k: nat)
    requires filter <= 4 && |prior| == |raw| && s >= 1 && j <= k <= |raw|
    ensures Reconstruct(filter, raw, prior, s, k)[..j] == Reconstruct(filter, raw, prior, s, j)
    decreases k
  {
    if j < k {
      ReconstructPrefix(filter, raw, prior, s, j, k - 1);
      assert Reconstruct(filter, raw, prior, s, k)[..k - 1] == Reconstruct(filter, raw, prior, s, k - 1);
    }
  }

  /** Adding a prediction modulo 256 and taking it away again cancel out. */
  lemma AddThenSubtract(r: byte, p: byte)
    ensures ((r + p) % 256 - p) % 256 == r
  {
    if r + p >= 256 {
      assert (r + p) % 256 == r + p - 256;
      assert (r - 256) % 256 == r;
    } else {
      assert (r + p) % 256 == r + p;
    }
  }

  /** Taking a prediction away modulo 256 and adding it again cancel out. */
  lemma SubtractThenAdd(d: byte, p: byte)
    ensures ((d - p) % 256 + p) % 256 == d
  {
    if d >= p {
      assert (d - p) % 256 == d - p;
    } else {
      assert (d - p) % 256 == d - p + 256;
      assert (d + 256) % 256 == d;
    }
  }

  /** Reconstructing a filtered row gives the row back. */
  lemma {:induction false} ReconstructFiltered(filter: nat, d: seq<byte>, prior: seq<byte>, s: nat, k: nat)
    requires filter <= 4 && |prior| == |d| && s >= 1 && k <= |d|
    ensures Reconstruct(filter, FilterRow(filter, d, prior, s), prior, s, k) == d[..k]
    decreases k
  {
    if k > 0 {
      var raw := FilterRow(filter, d, prior, s);
      ReconstructFiltered(filter, d, prior, s, k - 1);
      FilteredByteRestored(filter, d, prior, s, k - 1);
      ReconstructSnoc(filter, raw, prior, s, k, d[..k - 1], d[k - 1]);
      assert d[..k] == d[..k - 1] + [d[k - 1]];
    }
  }

  /** One more reconstructed byte: the raw byte plus its prediction from the bytes before it. */
  lemma ReconstructSnoc(filter: nat, raw: seq<byte>, prior: seq<byte>, s: nat, k: nat, r: seq<byte>, v: byte)
    requires filter <= 4 && |prior| == |raw| && s >= 1 && 0 < k <= |raw|
    requires Reconstruct(filter, raw, prior, s, k - 1) == r
    requires (raw[k - 1] as int + Predictor(filter, if k - 1 >= s then r[k - 1 - s] else 0, prior[k - 1], LeftOf(prior, k - 1, s))) % 256
      == v as int
    ensures Reconstruct(filter, raw, prior, s, k) == r + [v]
  {
  }

  /** Byte `t` of a filtered row, plus its prediction from the bytes before it, is the original byte. */
  lemma FilteredByteRestored(filter: nat, d: seq<byte>, prior: seq<byte>, s: nat, t: nat)
    requires filter <= 4 && |prior| == |d| && s >= 1 && t < |d|
    ensures var raw := FilterRow(filter, d, prior, s); var prev := d[..t];
      (raw[t] as int + Predictor(filter, if t >= s then prev[t - s] else 0, prior[t], LeftOf(prior, t, s))) % 256
      == d[t] as int
  {
    var p := Predictor(filter, LeftOf(d, t, s), prior[t], LeftOf(prior, t, s));
    assert (if t >= s then d[..t][t - s] else 0) == LeftOf(d, t, s);
    SubtractThenAdd(d[t], p);
  }

  /** Byte `t` of the whole reconstruction is its raw byte plus its prediction from the reconstruction. */
  lemma ReconstructAt(filter: nat, raw: seq<byte>, prior: seq<byte>, s: nat, t: nat)
    requires filter <= 4 && |prior| == |raw| && s >= 1 && t < |raw|
    ensures var d := Reconstruct(filter, raw, prior, s, |raw|);
      d[t] == (raw[t] + Predictor(filter, LeftOf(d, t, s), prior[t], LeftOf(prior, t, s))) % 256
  {
    var d := Reconstruct(filter, raw, prior, s, |raw|);
    ReconstructPrefix(filter, raw, prior, s, t + 1, |raw|);
    var dt := Reconstruct(filter, raw, prior, s, t + 1);
    assert d[t] == dt[t];
    if t >= s {
      assert d[t - s] == dt[t - s];
    }
  }

  /** Filtering a reconstructed row gives the raw bytes back. */
  lemma FilterReconstructed(filter: nat, raw: seq<byte>, prior: seq<byte>, s: nat)
    requires filter <= 4 && |prior| == |raw| && s >= 1
    ensures FilterRow(filter, Reconstruct(filter, raw, prior, s, |raw|), prior, s) == raw
  {
    var d := Reconstruct(filter, raw, prior, s, |raw|);
    forall t | 0 <= t < |raw|
      ensures FilterRow(filter, d, prior, s)[t] == raw[t]
    {
      ReconstructAt(filter, raw, prior, s, t);
      AddThenSubtract(raw[t], Predictor(filter, LeftOf(d, t, s), prior[t], LeftOf(prior, t, s)));
    }
  }

  // ---------------------------------------------------------------------
  // The in-place decoding the stream performs on its row buffer.

  /** The byte one pixel to the left of cell `x` of a row buffer; cell 0 holds no data. */
  function Neighbour(row: seq<byte>, x: nat, s: nat): byte
    requires x < |row| && s >= 1
  {
    if x >= s + 1 then row[x - s] else 0
  }

  /** The decoded value of cell `x`, the cells before it being decoded already. */
  function DecodeAt(filter: nat, row: seq<byte>, up: seq<byte>, x: nat, s: nat): byte
    requires filter <= 4 && 1 <= x < |row| == |up| && s >= 1
  {
    (row[x] + Predictor(filter, Neighbour(row, x, s), up[x], Neighbour(up, x, s))) % 256
  }

  /** The row buffer once cells `x` onwards are decoded one after another. */
  function FinishRow(filter: nat, row: seq<byte>, up: seq<byte>, x: nat, s: nat): (r: seq<byte>)
    requires filter <= 4 && 1 <= x <= |row| == |up| && s >= 1
    ensures |r| == |row| && r[..x] == row[..x]
    decreases |row| - x
  {
    if x == |row| then row
    else FinishRow(filter, row[x := DecodeAt(filter, row, up, x, s)], up, x + 1, s)
  }

  /** Cell `x` of the finished row is its value decoded first. */
  lemma FinishRowAt(filter: nat, row: seq<byte>, up: seq<byte>, x: nat, s: nat)
    requires filter <= 4 && 1 <= x < |row| == |up| && s >= 1
    ensures FinishRow(filter, row, up, x, s)[x] == DecodeAt(filter, row, up, x, s)
  {
    var next := row[x := DecodeAt(filter, row, up, x, s)];
    assert FinishRow(filter, next, up, x + 1, s)[..x + 1] == next[..x + 1];
  }

  /**
   * Decoding a buffer in place is the reconstruction of its data cells:
   * the cells before `x` already hold reconstructed bytes and those from
   * `x` on still hold raw ones.
   */
  lemma {:induction false} FinishRowReconstructs(filter: nat, row: seq<byte>, up: seq<byte>, raw: seq<byte>, x: nat, s: nat)
    requires filter <= 4 && 1 <= x <= |row| == |up| && |raw| == |row| - 1 && s >= 1
    requires row[1..x] == Reconstruct(filter, raw, up[1..], s, x - 1)
    requires row[x..] == raw[x - 1..]
    ensures FinishRow(filter, row, up, x, s)[1..] == Reconstruct(filter, raw, up[1..], s, |raw|)
    decreases |row| - x
  {
    if x < |row| {
      DecodeCellReconstructs(filter, row, up, raw, x, s);
      FinishRowReconstructs(filter, row[x := DecodeAt(filter, row, up, x, s)], up, raw, x + 1, s);
    } else {
      assert row[1..] == row[1..x];
    }
  }

  /** Decoding cell `x` in place extends the reconstructed prefix by one byte. */
  lemma DecodeCellReconstructs(filter: nat, row: seq<byte>, up: seq<byte>, raw: seq<byte>, x: nat, s: nat)
    requires filter <= 4 && 1 <= x < |row| == |up| && |raw| == |row| - 1 && s >= 1
    requires row[1..x] == Reconstruct(filter, raw, up[1..], s, x - 1)
    requires row[x..] == raw[x - 1..]
    ensures var next := row[x := DecodeAt(filter, row, up, x, s)];
      next[1..x + 1] == Reconstruct(filter, raw, up[1..], s, x) && next[x + 1..] == raw[x..]
  {
    var v := DecodeAt(filter, row, up, x, s);
    var next := row[x := v];
    var t := x - 1;
    var d := Reconstruct(filter, raw, up[1..], s, t);
    assert row[x] == raw[t];
    assert Neighbour(row, x, s) == (if t >= s then d[t - s] else 0) by {
      if t >= s { assert row[x - s] == row[1..x][t - s]; }
    }
    assert Neighbour(up, x, s) == LeftOf(up[1..], t, s);
    assert up[x] == up[1..][t];
    assert Reconstruct(filter, raw, up[1..], s, x) == d + [v];
    assert next[1..x + 1] == row[1..x] + [v];
    assert next[x + 1..] == row[x + 1..];
  }

  /** The stream's in-place decoding of a row is the reconstruction of RFC 2083 section 6. */
  lemma DecodedRowIsReconstruction(filter: nat, raw: seq<byte>, up: seq<byte>, s: nat)
    requires filter <= 4 && |up| == |raw| + 1 && s >= 1
    ensures FinishRow(filter, [0] + raw, up, 1, s)[1..] == Reconstruct(filter, raw, up[1..], s, |raw|)
  {
    var row := [0] + raw;
    assert row[1..] == raw[0..];
    FinishRowReconstructs(filter, row, up, raw, 1, s);
  }

  /** A row an encoder filtered against the previous row decodes to the original row. */
  lemma DecodesFilteredRow(filter: nat, d: seq<byte>, prior: seq<byte>, s: nat)
    requires filter <= 4 && |prior| == |d| && s >= 1
    ensures FinishRow(filter, [0] + FilterRow(filter, d, prior, s), [0] + prior, 1, s)[1..] == d
  {
    DecodedRowIsReconstruction(filter, FilterRow(filter, d, prior, s), [0] + prior, s);
    assert ([0] + prior)[1..] == prior;
    ReconstructFiltered(filter, d, prior, s, |d|);
  }

  /** Decoding cell `x` to `v` moves `v` from the front of the row's remaining output. */
  lemma DecodeStep(filter: nat, row: seq<byte>, up: seq<byte>, x: nat, s: nat, v: byte)
    requires filter <= 4 && 1 <= x < |row| == |up| && s >= 1 && v == DecodeAt(filter, row, up, x, s)
    ensures FinishRow(filter, row, up, x, s) == FinishRow(filter, row[x := v], up, x + 1, s)
    ensures FinishRow(filter, row, up, x, s)[x..] == [v] + FinishRow(filter, row[x := v], up, x + 1, s)[x + 1..]
  {
    FinishRowAt(filter, row, up, x, s);
  }

  /**
   * What the stream delivers from whole rows still in the source, the
   * previous decoded row being `prev`: the decoded data of each row that
   * arrives complete. None when a row with a non-empty data part has a
   * type above 4: the source then copies out whatever its caller's buffer
   * held, which the model does not predict.
   */
  function Rows(prev: seq<byte>, rem: seq<byte>, size: nat, s: nat): Option<seq<byte>>
    requires |prev| == size && s >= 1
    decreases |rem|
  {
    if size <= 1 || |rem| < size then Some([])
    else if rem[0] > 4 then None
    else
      var row := FinishRow(rem[0], [0] + rem[1..size], prev, 1, s);
      var rest := Rows(row, rem[size..], size, s);
      if rest.None? then None else Some(row[1..] + rest.value)
  }

  /**
   * What the stream delivers from row buffer `row`, decoded before cell
   * `x`, with filter type `filter`, up row `up` and `rem` still in the
   * source: the row's remaining decoded cells, then the whole rows.
   */
  function ExpectedFrom(filter: byte, row: seq<byte>, up: seq<byte>, x: nat, rem: seq<byte>, s: nat): Option<seq<byte>>
    requires 1 <= x <= |row| == |up| && s >= 1
  {
    if x == |row| then Rows(row, rem, |row|, s)
    else if filter > 4 then None
    else
      var decoded := FinishRow(filter, row, up, x, s);
      var rest := Rows(decoded, rem, |row|, s);
      if rest.None? then None else Some(decoded[x..] + rest.value)
  }

  /** Decoding cell `x` to `v` takes `v` off the front of what is expected. */
  lemma ExpectedAfterDecode(filter: byte, row: seq<byte>, up: seq<byte>, x: nat, rem: seq<byte>, s: nat, v: byte)
    requires filter <= 4 && 1 <= x < |row| == |up| && s >= 1 && v == DecodeAt(filter, row, up, x, s)
    ensures var before, after := ExpectedFrom(filter, row, up, x, rem, s), ExpectedFrom(filter, row[x := v], up, x + 1, rem, s);
      before.Some? == after.Some? && (before.Some? ==> before.value == [v] + after.value)
  {
    DecodeStep(filter, row, up, x, s, v);
  }

  /** Starting a row read whole from the source leaves what is expected as it was. */
  lemma ExpectedAfterStart(filter: byte, row: seq<byte>, up: seq<byte>, rem: seq<byte>, s: nat)
    requires 1 <= |row| == |up| <= |rem| && s >= 1
    ensures ExpectedFrom(filter, row, up, |row|, rem, s)
      == ExpectedFrom(rem[0], [0] + rem[1..|row|], row, 1, rem[|row|..], s)
  {
  }

  /** Once the source holds less than a row, nothing more is expected. */
  lemma ExpectedAtEnd(filter: byte, row: seq<byte>, up: seq<byte>, rem: seq<byte>, s: nat)
    requires 1 <= |row| == |up| && |rem| < |row| && s >= 1
    ensures ExpectedFrom(filter, row, up, |row|, rem, s) == Some([])
  {
  }

  /** Storing one cell leaves the slices on either side of it as they were. */
  lemma UpdateOutside(a: seq<byte>, k0: nat, k: nat, v: byte)
    requires k0 <= k < |a|
    ensures a[k := v][..k0] == a[..k0] && a[k := v][k + 1..] == a[k + 1..]
  {
  }

  class InputPredictorPNGOptimumStream {
    var source: ByteSource?
    /** `mBuffer`: the row being decoded. */
    var buffer: array<byte>
    /** `mUpValues`: the previous decoded row. */
    var upValues: array<byte>
    /** `mIndex - mBuffer`: the next cell to decode. */
    var index: nat
    var bytesPerPixel: nat
    /** `mFunctionType`: the current row's filter type. */
    var functionType: byte

    ghost predicate Valid()
      reads this, source
    {
      && buffer.Length == upValues.Length && buffer != upValues
      && index <= buffer.Length && (buffer.Length > 0 ==> index >= 1)
      && (source != null ==> source.Valid() && buffer.Length > 0)
    }

    /** Decoding within a row keeps the source, both row buffers, the pixel size and the filter type. */
    twostate predicate RowFixed()
      reads this
    {
      unchanged(this`source, this`buffer, this`upValues, this`bytesPerPixel, this`functionType)
    }

    /**
     * The bytes the stream will deliver while the filter types stay known:
     * the rest of the current row, then the whole rows of the source.
     */
    ghost function Expected(): Option<seq<byte>>
      reads this, buffer, upValues, source
      requires Valid() && source != null
    {
      ExpectedFrom(functionType, buffer[..], upValues[..], index, source.Remaining(), Stride(bytesPerPixel))
    }

    /** A stream with no source and empty buffers. */
    constructor ()
      ensures Valid() && source == null && buffer.Length == 0
    {
      source := null;
      buffer := new byte[0];
      upValues := new byte[0];
      index := 0;
      bytesPerPixel := 0;
      functionType := 0;
    }

    /**
     * `Assign`: a pixel is colors * bitsPerComponent / 8 bytes, a row the
     * columns' bits rounded up to bytes plus the type byte; both rows are
     * zero, the current one counts as fully decoded, and the type is 0.
     */
    method Assign(s: ByteSource?, colors: nat, bitsPerComponent: byte, columns: nat)
      requires s != null ==> s.Valid()
      modifies this
      ensures Valid() && source == s && fresh(buffer) && fresh(upValues)
      ensures bytesPerPixel == colors * bitsPerComponent / 8
      ensures buffer.Length == (columns * colors * bitsPerComponent + 7) / 8 + 1
      ensures buffer[..] == seq(buffer.Length, _ => 0) && upValues[..] == seq(buffer.Length, _ => 0)
      ensures index == buffer.Length && functionType == 0
    {
      source := s;
      bytesPerPixel := colors * bitsPerComponent / 8;
      var size := (columns * colors * bitsPerComponent + 7) / 8 + 1;
      buffer := new byte[size](_ => 0);
      upValues := new byte[size](_ => 0);
      index := size;
      functionType := 0;
    }

    /**
     * Decodes cell `index` into `out[k]` and stores the result back into the
     * row. A type above 4 leaves `out[k]` as it was and stores that.
     */
    method DecodeNextByte(out: array<byte>, k: nat)
      requires Valid() && k < out.Length && out != buffer && out != upValues
      requires 1 <= index < buffer.Length
      modifies this, buffer, out
      ensures Valid() && RowFixed()
      ensures index == old(index) + 1
      ensures functionType <= 4 ==>
        out[k] == DecodeAt(functionType, old(buffer[..]), upValues[..], old(index), Stride(bytesPerPixel))
      ensures functionType > 4 ==> out[k] == old(out[k])
      ensures out[..] == old(out[..])[k := out[k]]
      ensures buffer[..] == old(buffer[..])[old(index) := out[k]]
    {
      var s := Stride(bytesPerPixel);
      if functionType <= 4 {
        var left := if index >= s + 1 then buffer[index - s] else 0;
        var upLeft := if index >= s + 1 then upValues[index - s] else 0;
        out[k] := (buffer[index] + Predictor(functionType, left, upValues[index], upLeft)) % 256;
      }
      buffer[index] := out[k];
      index := index + 1;
    }

    /** Decodes the rest of the current row into `out[k..]`, stopping at `n`. */
    method DrainRow(out: array<byte>, n: nat, k0: nat, ghost e: Option<seq<byte>>) returns (k: nat)
      requires Valid() && source != null && k0 <= n <= out.Length && out != buffer && out != upValues
      requires e.Some? ==> k0 <= |e.value| && Expected() == Some(e.value[k0..])
      modifies this, buffer, out
      ensures Valid() && RowFixed()
      ensures k0 <= k <= n && (k < n ==> index == buffer.Length)
      ensures out[..k0] == old(out[..k0]) && out[k..] == old(out[k..])
      ensures e.Some? ==> k <= |e.value| && out[k0..k] == e.value[k0..k] && Expected() == Some(e.value[k..])
    {
      k := k0;
      while index < buffer.Length && k < n
        invariant Valid() && RowFixed()
        invariant k0 <= k <= n
        invariant out[..k0] == old(out[..k0]) && out[k..] == old(out[k..])
        invariant e.Some? ==> k <= |e.value| && out[k0..k] == e.value[k0..k] && Expected() == Some(e.value[k..])
        decreases buffer.Length - index
      {
        DecodeExpected(out, k0, k, e);
        k := k + 1;
      }
    }

    /** DecodeNextByte, with the decoded byte the next one expected. */
    method DecodeExpected(out: array<byte>, k0: nat, k: nat, ghost e: Option<seq<byte>>)
      requires Valid() && source != null && k0 <= k < out.Length && out != buffer && out != upValues
      requires index < buffer.Length
      requires e.Some? ==> k <= |e.value| && out[k0..k] == e.value[k0..k] && Expected() == Some(e.value[k..])
      modifies this, buffer, out
      ensures Valid() && RowFixed()
      ensures index == old(index) + 1 && out[..] == old(out[..])[k := out[k]]
      ensures out[..k0] == old(out[..k0]) && out[k + 1..] == old(out[k + 1..])
      ensures e.Some? ==> k < |e.value| && out[k0..k + 1] == e.value[k0..k + 1] && Expected() == Some(e.value[k + 1..])
    {
      ghost var row0, x, before := buffer[..], index, out[..];
      DecodeNextByte(out, k);
      UpdateOutside(before, k0, k, out[k]);
      if e.Some? {
        ExpectedAfterDecode(functionType, row0, upValues[..], x, source.Remaining(), Stride(bytesPerPixel), out[k]);
        assert e.value[k + 1..] == e.value[k..][1..];
        assert out[k0..k + 1] == out[k0..k] + [out[k]];
      }
    }

    /**
     * Starts the next row: the decoded row becomes the up row and a row's
     * worth is read into the buffer. A short or empty read stops decoding;
     * otherwise the first byte is the type, its cell becomes 0 and decoding
     * resumes at cell 1.
     */
    method StartRow() returns (ok: bool)
      requires Valid() && source != null && index == buffer.Length
      modifies this, buffer, upValues, source
      ensures Valid() && unchanged(this`source, this`buffer, this`upValues, this`bytesPerPixel)
      ensures ok ==> |source.Remaining()| < |old(source.Remaining())|
      ensures !ok ==> index == buffer.Length && !source.NotEnded()
      ensures Expected() == old(Expected())
    {
      ghost var rem0, row0 := source.Remaining(), buffer[..];
      forall c | 0 <= c < buffer.Length {
        upValues[c] := buffer[c];
      }
      var chunk := source.Read(buffer.Length);
      if |chunk| != buffer.Length {
        forall c | 0 <= c < |chunk| {
          buffer[c] := chunk[c];
        }
        ExpectedAtEnd(functionType, buffer[..], upValues[..], source.Remaining(), Stride(bytesPerPixel));
        ExpectedAtEnd(functionType, row0, old(upValues[..]), rem0, Stride(bytesPerPixel));
        return false;
      }
      forall c | 0 <= c < |chunk| {
        buffer[c] := chunk[c];
      }
      functionType := buffer[0];
      buffer[0] := 0;
      index := 1;
      ok := true;
      assert buffer[..] == [0] + rem0[1..|row0|];
      assert upValues[..] == row0 && source.Remaining() == rem0[|row0|..];
      ExpectedAfterStart(old(functionType), row0, old(upValues[..]), rem0, Stride(bytesPerPixel));
    }

    /**
     * Fills `out[..n]` as far as the rows go: first the rest of the current
     * row, then row after row from the source until `n` bytes are out or a
     * row cannot be read whole. While the filter types are known, the bytes
     * are the next ones expected, and all of them once fewer than `n` come.
     */
    method Read(out: array<byte>, n: nat) returns (readBytes: nat)
      requires Valid() && source != null && n <= out.Length && out != buffer && out != upValues
      modifies this, buffer, upValues, source, out
      ensures Valid() && unchanged(this`source, this`buffer, this`upValues, this`bytesPerPixel)
      ensures readBytes <= n && out[readBytes..] == old(out[readBytes..])
      ensures old(Expected()).Some? ==>
        var e := old(Expected()).value;
        readBytes == Min(n, |e|) && out[..readBytes] == e[..readBytes] && Expected() == Some(e[readBytes..])
    {
      ghost var e := Expected();
      readBytes := DrainRow(out, n, 0, e);
      while readBytes < n && source.NotEnded()
        invariant Valid() && unchanged(this`source, this`buffer, this`upValues, this`bytesPerPixel)
        invariant readBytes <= n && out[readBytes..] == old(out[readBytes..])
        invariant readBytes < n ==> index == buffer.Length
        invariant e.Some? ==>
          readBytes <= |e.value| && out[..readBytes] == e.value[..readBytes] && Expected() == Some(e.value[readBytes..])
        decreases |source.Remaining()|
      {
        var ok;
        ok, readBytes := DecodeRow(out, n, readBytes, e);
        if !ok {
          break;
        }
      }
      if e.Some? && readBytes < n {
        ExpectedAtEnd(functionType, buffer[..], upValues[..], source.Remaining(), Stride(bytesPerPixel));
      }
    }

    /** One round of Read's second loop: starts a row and decodes what fits of it. */
    method DecodeRow(out: array<byte>, n: nat, k0: nat, ghost e: Option<seq<byte>>) returns (ok: bool, k: nat)
      requires Valid() && source != null && k0 < n <= out.Length && out != buffer && out != upValues
      requires index == buffer.Length
      requires e.Some? ==> k0 <= |e.value| && out[..k0] == e.value[..k0] && Expected() == Some(e.value[k0..])
      modifies this, buffer, upValues, source, out
      ensures Valid() && unchanged(this`source, this`buffer, this`upValues, this`bytesPerPixel)
      ensures ok ==> |source.Remaining()| < old(|source.Remaining()|)
      ensures !ok ==> k == k0 && index == buffer.Length && !source.NotEnded()
      ensures k0 <= k <= n && (k < n ==> index == buffer.Length)
      ensures out[k..] == old(out[k..])
      ensures e.Some? ==> k <= |e.value| && out[..k] == e.value[..k] && Expected() == Some(e.value[k..])
    {
      ok := StartRow();
      k := k0;
      if ok {
        k := DrainRow(out, n, k0, e);
        assert out[..k] == out[..k0] + out[k0..k];
      }
    }

    /** More bytes may come while the source has some or the current row is not all decoded. */
    function NotEnded(): (r: bool)
      reads this, source
      requires Valid() && source != null
      ensures r <==> source.pos < |source.data| || index < buffer.Length
    {
      source.NotEnded() || index < buffer.Length
    }
  }
}
