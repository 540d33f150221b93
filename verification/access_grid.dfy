/**
 * Reading an access grid: the `ACCESSGR` file that holds, for every origin
 * cell of a regional analysis, a vector of `nSamples` accessibility values
 * (bootstrap replications, the point estimate first), delta-coded per
 * origin. A `SelectingGridReducer` keeps the value at one index of each
 * vector and returns a density grid of them.
 *
 * The stream is modelled after decompression: a sequence of bytes.
 * `Decode` is the closed-form description of what a stream decodes to;
 * `SelectingGridReducer.Compute` is the step-by-step reader, proved to agree
 * with it.
 */
module AccessGrid {
  import opened Results
  import opened JavaInt

  /** The only file-format version this reader accepts. */
  const ACCESS_GRID_VERSION: Int32 := 0

  /** The eight characters every access grid starts with. */
  const MAGIC: string := "ACCESSGR"

  /** The same eight characters as the bytes in the stream. */
  const MAGIC_BYTES: seq<Byte> := [0x41, 0x43, 0x43, 0x45, 0x53, 0x53, 0x47, 0x52]

  /** Magic, then seven little-endian ints: version, zoom, west, north, width, height, nSamples. */
  const HEADER_BYTES: nat := 36

  /** The exceptions the reader can end in. */
  datatype DecodeError =
    | EndOfStream                                   // EOFException from the stream
    | NotAccessGrid                                 // IllegalArgumentException: wrong magic
    | VersionMismatch(expected: int, found: int)    // IllegalArgumentException: wrong version
    | NegativeArraySize                             // a negative width, height or nSamples
    | IndexOutOfBounds(index: int, length: int)     // the selected index is not a sample

  /** The six header fields after the version. */
  datatype Header = Header(zoom: Int32, west: Int32, north: Int32, width: Int32, height: Int32, nSamples: Int32)

  /** The int stored little-endian at byte `offset`. */
  function IntAt(input: seq<Byte>, offset: nat): Int32
    requires offset + 4 <= |input|
  {
    FromLittleEndian(input[offset], input[offset + 1], input[offset + 2], input[offset + 3])
  }

  /** The first eight bytes, read as Java chars, spell `ACCESSGR`. */
  predicate HasMagic(input: seq<Byte>)
    requires |input| >= 8
  {
    forall i :: 0 <= i < 8 ==> ByteToChar(input[i]) == MAGIC[i]
  }

  /** The header fields of a stream long enough to hold them. */
  function HeaderOf(input: seq<Byte>): Header
    requires |input| >= HEADER_BYTES
  {
    Header(IntAt(input, 12), IntAt(input, 16), IntAt(input, 20), IntAt(input, 24), IntAt(input, 28), IntAt(input, 32))
  }

  /** Neither grid dimension nor the sample count is negative. */
  predicate Sized(h: Header)
  {
    h.width >= 0 && h.height >= 0 && h.nSamples >= 0
  }

  /**
   * `a * b`, as repeated addition. Offsets and counts below are products of
   * header fields; spelling them with `Times` lets every proof about them go
   * through the lemmas on `Times` rather than general nonlinear arithmetic.
   */
  function Times(a: nat, b: nat): nat
  {
    if b == 0 then 0 else Times(a, b - 1) + a
  }

  /** `Times` is multiplication. */
  lemma {:induction false} TimesIsProduct(a: nat, b: nat)
    ensures Times(a, b) == a * b
  {
    if b > 0 {
      TimesIsProduct(a, b - 1);
    }
  }

  /** More rows of `a` add up to at least as much. */
  lemma {:induction false} TimesMonotone(a: nat, b: nat, c: nat)
    requires b <= c
    ensures Times(a, b) <= Times(a, c)
  {
    if b < c {
      TimesMonotone(a, b, c - 1);
    }
  }

  /** The number of origin records: one per cell. */
  function RecordCount(h: Header): nat
    requires Sized(h)
  {
    Times(h.width, h.height)
  }

  /** Where origin record `r` (the `r`-th cell in row-major order) starts. */
  function RecordOffset(h: Header, r: nat): (offset: nat)
    requires Sized(h)
    ensures offset >= HEADER_BYTES
  {
    HEADER_BYTES + 4 * Times(h.nSamples, r)
  }

  /** The first byte after the last origin record. */
  function BodyEnd(h: Header): nat
    requires Sized(h)
  {
    RecordOffset(h, RecordCount(h))
  }

  /** The stream's body ends after the 36 header bytes and one 4-byte int per sample per cell. */
  lemma BodyEndIsByteCount(h: Header)
    requires Sized(h)
    ensures BodyEnd(h) == HEADER_BYTES + 4 * (h.width * h.height) * h.nSamples
  {
    TimesIsProduct(h.width, h.height);
    TimesIsProduct(h.nSamples, h.width * h.height);
  }

  /**
   * The checks made while the header is read, in stream order: the magic,
   * the version, then the six header fields.
   */
  function DecodeHeader(input: seq<Byte>): (r: Result<Header, DecodeError>)
    ensures r.Ok? ==> |input| >= HEADER_BYTES && r.value == HeaderOf(input)
  {
    if |input| < 8 then Err(EndOfStream)
    else if !HasMagic(input) then Err(NotAccessGrid)
    else if |input| < 12 then Err(EndOfStream)
    else if IntAt(input, 8) != ACCESS_GRID_VERSION then Err(VersionMismatch(ACCESS_GRID_VERSION, IntAt(input, 8)))
    else if |input| < HEADER_BYTES then Err(EndOfStream)
    else Ok(HeaderOf(input))
  }

  /**
   * The checks made once the header is known, for a stream of `length`
   * bytes: the array sizes, the first record, the selected index, the
   * remaining records. Bytes after the last record are never read.
   */
  function CheckBody(h: Header, length: nat, index: int): (r: Result<Header, DecodeError>)
    requires length >= HEADER_BYTES
    ensures r.Ok? ==> r.value == h && Sized(h) && length >= BodyEnd(h)
    ensures r.Ok? && RecordCount(h) > 0 ==> 0 <= index < h.nSamples
  {
    if !Sized(h) then Err(NegativeArraySize)
    else if RecordCount(h) == 0 then Ok(h)
    else if length < RecordOffset(h, 1) then Err(EndOfStream)
    else if !(0 <= index < h.nSamples) then Err(IndexOutOfBounds(index, h.nSamples))
    else if length < BodyEnd(h) then Err(EndOfStream)
    else Ok(h)
  }

  /** What the reader makes of a stream, selecting the sample at `index`. */
  function Decode(input: seq<Byte>, index: int): (r: Result<Header, DecodeError>)
    ensures r.Ok? ==> DecodeHeader(input) == r && Sized(r.value)
    ensures r.Ok? ==> |input| >= BodyEnd(r.value)
    ensures r.Ok? && RecordCount(r.value) > 0 ==> 0 <= index < r.value.nSamples
  {
    var h :- DecodeHeader(input);
    CheckBody(h, |input|, index)
  }

  /** The `n` ints stored from byte `offset` on. */
  function Stored(input: seq<Byte>, offset: nat, n: nat): (s: seq<Int32>)
    requires offset + 4 * n <= |input|
    ensures |s| == n
    ensures forall j :: 0 <= j < n ==> s[j] == IntAt(input, offset + 4 * j)
  {
    seq(n, j requires 0 <= j < n => IntAt(input, offset + 4 * j))
  }

  /** Delta decoding: value `k` is the 32-bit sum of the stored ints `0..k`. */
  function DeltaDecode(stored: seq<Int32>): (values: seq<Int32>)
    ensures |values| == |stored|
  {
    seq(|stored|, k requires 0 <= k < |stored| => Wrap(Sum(stored[..k + 1])))
  }

  /**
   * Delta decoding is a running 32-bit accumulator started at zero: the
   * first value is the first stored int, each later one adds the next.
   */
  lemma {:induction false} DeltaDecodeAccumulates(stored: seq<Int32>)
    ensures |stored| > 0 ==> DeltaDecode(stored)[0] == stored[0]
    ensures forall k :: 0 < k < |stored| ==>
      DeltaDecode(stored)[k] == Wrap(DeltaDecode(stored)[k - 1] as int + stored[k])
  {
    var values := DeltaDecode(stored);
    if |stored| > 0 {
      assert stored[..1] == [stored[0]];
      assert Sum([] + [stored[0]]) == Sum([]) + stored[0];
      assert [] + [stored[0]] == [stored[0]];
      WrapOfInt32(stored[0]);
    }
    forall k | 0 < k < |stored|
      ensures values[k] == Wrap(values[k - 1] as int + stored[k])
    {
      DeltaDecodeStep(stored, k);
    }
  }

  lemma DeltaDecodeStep(stored: seq<Int32>, k: nat)
    requires 0 < k < |stored|
    ensures Wrap(Sum(stored[..k + 1])) == Wrap(Wrap(Sum(stored[..k])) as int + stored[k])
  {
    var prefix := stored[..k + 1];
    assert prefix[..|prefix| - 1] == stored[..k];
    assert Sum(prefix) == Sum(stored[..k]) + stored[k];
    WrapAdd(Sum(stored[..k]), stored[k]);
  }

  /** The decoded sample vector of origin record `r`. */
  function OriginValues(input: seq<Byte>, h: Header, r: nat): (values: seq<Int32>)
    requires Sized(h) && RecordOffset(h, r + 1) <= |input|
    ensures |values| == h.nSamples
  {
    DeltaDecode(Stored(input, RecordOffset(h, r), h.nSamples))
  }

  /** The record that holds cell (x, y): rows of `width` cells, one after another. */
  function CellIndex(h: Header, x: nat, y: nat): (r: nat)
    requires Sized(h) && x < h.width && y < h.height
    ensures r < RecordCount(h)
    ensures RecordOffset(h, r + 1) <= BodyEnd(h)
  {
    TimesMonotone(h.width, y + 1, h.height);
    TimesMonotone(h.nSamples, Times(h.width, y) + x + 1, RecordCount(h));
    Times(h.width, y) + x
  }

  /** The value a reducer with `index` stores for cell (x, y) of a decodable stream. */
  function CellValue(input: seq<Byte>, index: int, h: Header, x: nat, y: nat): (v: Int32)
    requires Decode(input, index) == Ok(h)
    requires x < h.width && y < h.height
    ensures RecordOffset(h, CellIndex(h, x, y) + 1) <= |input| && 0 <= index < h.nSamples
  {
    OriginValues(input, h, CellIndex(h, x, y))[index]
  }

  /** The magic check on chars is the byte-for-byte comparison with `ACCESSGR`. */
  lemma {:induction false} MagicIsAccessGr(input: seq<Byte>)
    requires |input| >= 8
    ensures HasMagic(input) <==> input[..8] == MAGIC_BYTES
  {
    assert forall i :: 0 <= i < 8 ==> MAGIC[i] as int == MAGIC_BYTES[i] < 128;
    if input[..8] == MAGIC_BYTES {
      forall i | 0 <= i < 8
        ensures ByteToChar(input[i]) == MAGIC[i]
      {
        assert input[i] == MAGIC_BYTES[i];
      }
    }
    if HasMagic(input) {
      forall i | 0 <= i < 8
        ensures input[i] == MAGIC_BYTES[i]
      {
        assert ByteToChar(input[i]) as int < 128;
      }
      assert input[..8] == MAGIC_BYTES;
    }
  }

  /** A stream whose first eight bytes are not `ACCESSGR` is rejected before its version is read. */
  lemma WrongMagicIsRejected(input: seq<Byte>, index: int)
    requires |input| >= 8 && input[..8] != MAGIC_BYTES
    ensures Decode(input, index) == Err(NotAccessGrid)
  {
    MagicIsAccessGr(input);
  }

  /** A stream with the magic but another version reports both versions. */
  lemma OtherVersionIsRejected(input: seq<Byte>, index: int)
    requires |input| >= 12 && input[..8] == MAGIC_BYTES
    requires IntAt(input, 8) != ACCESS_GRID_VERSION
    ensures Decode(input, index) == Err(VersionMismatch(0, IntAt(input, 8)))
  {
    MagicIsAccessGr(input);
  }

  /** Version 1 of the format is refused, whatever follows. */
  lemma VersionOneIsRejected(rest: seq<Byte>, index: int)
    ensures Decode(MAGIC_BYTES + ToLittleEndian(1) + rest, index) == Err(VersionMismatch(0, 1))
  {
    var input := MAGIC_BYTES + ToLittleEndian(1) + rest;
    assert input[..8] == MAGIC_BYTES;
    var b := ToLittleEndian(1);
    assert input[8..12] == b;
    LittleEndianRoundTrip(1);
    assert IntAt(input, 8) == 1;
    OtherVersionIsRejected(input, index);
  }

  /** Cutting a stream whose header decodes inside the header ends it too early; cutting it later changes nothing there. */
  lemma HeaderOfPrefix(input: seq<Byte>, m: nat)
    requires DecodeHeader(input).Ok? && m <= |input|
    ensures m < HEADER_BYTES ==> DecodeHeader(input[..m]) == Err(EndOfStream)
    ensures m >= HEADER_BYTES ==> DecodeHeader(input[..m]) == DecodeHeader(input)
  {
    var cut := input[..m];
    if 8 <= m {
      PrefixKeepsBytes(input, m, 0, 8);
    }
    if 12 <= m {
      PrefixKeepsBytes(input, m, 8, 4);
    }
    if HEADER_BYTES <= m {
      PrefixKeepsBytes(input, m, 12, 24);
      assert HeaderOf(cut) == HeaderOf(input);
    }
  }

  /** A prefix of the stream holds the same bytes as the stream, so the same ints and the same magic. */
  lemma PrefixKeepsBytes(input: seq<Byte>, m: nat, from: nat, count: nat)
    requires from + count <= m <= |input|
    ensures forall k :: from <= k < from + count ==> input[..m][k] == input[k]
    ensures from == 0 && count == 8 ==> HasMagic(input[..m]) == HasMagic(input)
    ensures forall off :: from <= off && off + 4 <= from + count ==> IntAt(input[..m], off) == IntAt(input, off)
  {
  }

  /**
   * The reader consumes exactly the bytes up to the last record: cutting the
   * stream anywhere before that point ends the stream too early, and
   * anything after it is ignored.
   */
  lemma ReadsExactlyTheBody(input: seq<Byte>, index: int, m: nat)
    requires Decode(input, index).Ok?
    requires m <= |input|
    ensures var h := Decode(input, index).value;
      (m < BodyEnd(h) ==> Decode(input[..m], index) == Err(EndOfStream)) &&
      (m >= BodyEnd(h) ==> Decode(input[..m], index) == Decode(input, index))
  {
    var h := Decode(input, index).value;
    var cut := input[..m];
    assert DecodeHeader(input) == Ok(h);
    HeaderOfPrefix(input, m);
    if m < HEADER_BYTES {
      assert DecodeHeader(cut) == Err(EndOfStream);
    } else {
      assert DecodeHeader(cut) == Ok(h);
      assert Decode(cut, index) == CheckBody(h, m, index);
      BodyChecksOfPrefix(h, |input|, index, m);
    }
  }

  /** The body checks on a shorter stream fail exactly when the stream ends before the last record. */
  lemma BodyChecksOfPrefix(h: Header, length: nat, index: int, m: nat)
    requires HEADER_BYTES <= m <= length && CheckBody(h, length, index).Ok?
    ensures m < BodyEnd(h) ==> CheckBody(h, m, index) == Err(EndOfStream)
    ensures m >= BodyEnd(h) ==> CheckBody(h, m, index) == Ok(h)
  {
    if RecordCount(h) > 0 {
      TimesMonotone(h.nSamples, 1, RecordCount(h));
    }
  }

  /** A stream that ends right after its last record passes the body checks unless the index selects no sample. */
  lemma BodyChecksAtEnd(h: Header, index: int)
    requires Sized(h)
    ensures CheckBody(h, BodyEnd(h), index) ==
      if RecordCount(h) == 0 || 0 <= index < h.nSamples then Ok(h)
      else Err(IndexOutOfBounds(index, h.nSamples))
  {
    if RecordCount(h) > 0 {
      TimesMonotone(h.nSamples, 1, RecordCount(h));
    }
  }

  /** A Java `double[width][height]`, zero-initialised; only its cells are modelled. */
  class Grid {
    const zoom: int
    const width: int
    const height: int
    const north: int
    const west: int
    const grid: array2<real>

    constructor (zoom: int, width: nat, height: nat, north: int, west: int)
      ensures this.zoom == zoom && this.width == width && this.height == height
      ensures this.north == north && this.west == west
      ensures fresh(grid) && grid.Length0 == width && grid.Length1 == height
      ensures forall x, y :: 0 <= x < width && 0 <= y < height ==> grid[x, y] == 0.0
    {
      this.zoom := zoom;
      this.width := width;
      this.height := height;
      this.north := north;
      this.west := west;
      grid := new real[width, height]((_, _) => 0.0);
    }
  }

  /** A little-endian reader over a byte stream that fails at its end. */
  class LittleEndianInput {
    const bytes: seq<Byte>
    var pos: nat

    ghost predicate Valid()
      reads this
    {
      pos <= |bytes|
    }

    constructor (bytes: seq<Byte>)
      ensures this.bytes == bytes && pos == 0 && Valid()
    {
      this.bytes := bytes;
      pos := 0;
    }

    /** The next byte, or the end of the stream. */
    method ReadByte() returns (r: Result<Byte, DecodeError>)
      requires Valid()
      modifies this
      ensures Valid()
      ensures old(pos) < |bytes| ==> r == Ok(bytes[old(pos)]) && pos == old(pos) + 1
      ensures old(pos) == |bytes| ==> r == Err(EndOfStream) && pos == old(pos)
    {
      if pos == |bytes| {
        return Err(EndOfStream);
      }
      r := Ok(bytes[pos]);
      pos := pos + 1;
    }

    /** The next four bytes as a little-endian int, or the end of the stream. */
    method ReadInt() returns (r: Result<Int32, DecodeError>)
      requires Valid()
      modifies this
      ensures Valid()
      ensures old(pos) + 4 <= |bytes| ==> r == Ok(IntAt(bytes, old(pos))) && pos == old(pos) + 4
      ensures old(pos) + 4 > |bytes| ==> r == Err(EndOfStream) && pos == |bytes|
    {
      if pos + 4 > |bytes| {
        pos := |bytes|;
        return Err(EndOfStream);
      }
      r := Ok(IntAt(bytes, pos));
      pos := pos + 4;
    }
  }

  /**
   * Reads one origin record into `values`, undoing the delta coding with a
   * running 32-bit accumulator.
   */
  method ReadOrigin(input: LittleEndianInput, values: array<Int32>) returns (r: Result<(), DecodeError>)
    requires input.Valid()
    modifies input, values
    ensures input.Valid()
    ensures r.Ok? <==> old(input.pos) + 4 * values.Length <= |input.bytes|
    ensures r.Err? ==> r.error == EndOfStream
    ensures r.Ok? ==> input.pos == old(input.pos) + 4 * values.Length
    ensures r.Ok? ==> values[..] == DeltaDecode(Stored(input.bytes, old(input.pos), values.Length))
  {
    ghost var start := input.pos;
    var value: Int32 := 0;
    for k := 0 to values.Length
      invariant input.Valid() && input.pos == start + 4 * k <= |input.bytes|
      invariant value == RunningSum(input.bytes, start, k)
      invariant forall j :: 0 <= j < k ==> values[j] == RunningSum(input.bytes, start, j + 1)
    {
      var delta :- input.ReadInt();
      value := Wrap(value as int + delta);
      values[k] := value;
    }
    RunningSumDecodes(input.bytes, start, values.Length);
    r := Ok(());
  }

  /** The reader's accumulator after `k` stored ints: each one added to it in 32-bit arithmetic. */
  function RunningSum(bytes: seq<Byte>, start: nat, k: nat): Int32
    requires start + 4 * k <= |bytes|
  {
    if k == 0 then 0 else Wrap(RunningSum(bytes, start, k - 1) as int + IntAt(bytes, start + 4 * (k - 1)))
  }

  /** The accumulator holds the delta-decoded values, one after another. */
  lemma {:induction false} RunningSumDecodes(bytes: seq<Byte>, start: nat, n: nat)
    requires start + 4 * n <= |bytes|
    ensures forall j :: 0 <= j < n ==> DeltaDecode(Stored(bytes, start, n))[j] == RunningSum(bytes, start, j + 1)
  {
    var all := Stored(bytes, start, n);
    forall j | 0 <= j < n
      ensures DeltaDecode(all)[j] == RunningSum(bytes, start, j + 1)
    {
      RunningSumIsWrappedSum(bytes, start, j + 1);
      assert all[..j + 1] == Stored(bytes, start, j + 1);
    }
  }

  /** The accumulator is the 32-bit sum of the ints read so far. */
  lemma {:induction false} RunningSumIsWrappedSum(bytes: seq<Byte>, start: nat, k: nat)
    requires start + 4 * k <= |bytes|
    ensures RunningSum(bytes, start, k) == Wrap(Sum(Stored(bytes, start, k)))
  {
    if k > 0 {
      RunningSumIsWrappedSum(bytes, start, k - 1);
      var before := Stored(bytes, start, k - 1);
      var after := Stored(bytes, start, k);
      StoredGrows(bytes, start, k);
      WrapAdd(Sum(before), after[k - 1]);
    }
  }

  /** One more stored int adds its value to the sum. */
  lemma StoredGrows(bytes: seq<Byte>, start: nat, k: nat)
    requires 0 < k && start + 4 * k <= |bytes|
    ensures Sum(Stored(bytes, start, k)) == Sum(Stored(bytes, start, k - 1)) + IntAt(bytes, start + 4 * (k - 1))
  {
    var after := Stored(bytes, start, k);
    assert after[..k - 1] == Stored(bytes, start, k - 1);
  }

  /** Reduces an access grid to one value per origin: the sample at `index`. */
  class SelectingGridReducer {
    const index: Int32

    constructor (index: Int32)
      ensures this.index == index
    {
      this.index := index;
    }

    /** The value kept for one origin, or the exception for an index that is not a sample. */
    function ComputeValueForOrigin(valuesThisOrigin: seq<Int32>): (r: Result<real, DecodeError>)
      ensures r.Ok? <==> 0 <= index < |valuesThisOrigin|
      ensures r.Ok? ==> r.value == valuesThisOrigin[index] as real
      ensures r.Err? ==> r.error == IndexOutOfBounds(index, |valuesThisOrigin|)
    {
      if 0 <= index < |valuesThisOrigin| then Ok(valuesThisOrigin[index] as real)
      else Err(IndexOutOfBounds(index, |valuesThisOrigin|))
    }

    /**
     * Reads a decompressed access grid. It fails exactly as `Decode` says,
     * and otherwise returns a fresh grid of the header's size holding, in
     * every cell, the selected sample of that cell's record.
     */
    method Compute(bytes: seq<Byte>) returns (r: Result<Grid, DecodeError>)
      ensures Decode(bytes, index).Err? ==> r == Err(Decode(bytes, index).error)
      ensures Decode(bytes, index).Ok? ==> r.Ok?
      ensures r.Ok? ==> Decode(bytes, index).Ok? && Matches(r.value, bytes, index, Decode(bytes, index).value)
      ensures r.Ok? ==> fresh(r.value) && fresh(r.value.grid)
    {
      var input := new LittleEndianInput(bytes);
      var h :- ReadHeader(input);
      if h.width < 0 || h.height < 0 {
        return Err(NegativeArraySize);
      }
      var outputGrid := new Grid(h.zoom, h.width, h.height, h.north, h.west);
      if h.nSamples < 0 {
        return Err(NegativeArraySize);
      }
      var valuesThisOrigin := new Int32[h.nSamples];
      var cells := ReadCells(input, h, outputGrid.grid, valuesThisOrigin);
      if cells.Err? {
        return Err(cells.error);
      }
      return Ok(outputGrid);
    }

    /** `v` is the sample at `index` of the record that belongs to cell (x, y). */
    ghost predicate Selected(v: real, bytes: seq<Byte>, h: Header, x: nat, y: nat)
      requires Sized(h) && x < h.width && y < h.height
    {
      RecordOffset(h, CellIndex(h, x, y) + 1) <= |bytes| && 0 <= index < h.nSamples &&
      v == OriginValues(bytes, h, CellIndex(h, x, y))[index] as real
    }

    /**
     * The loops over the rows and the cells of each row: reads every origin
     * record in turn and stores the selected sample in the cell. Fails as
     * `CheckBody` says.
     */
    method ReadCells(input: LittleEndianInput, h: Header, grid: array2<real>, values: array<Int32>)
      returns (r: Result<(), DecodeError>)
      requires Sized(h) && input.Valid() && input.pos == HEADER_BYTES <= |input.bytes|
      requires grid.Length0 == h.width && grid.Length1 == h.height && values.Length == h.nSamples
      modifies input, grid, values
      ensures r.Err? ==> CheckBody(h, |input.bytes|, index) == Err(r.error)
      ensures r.Ok? ==> CheckBody(h, |input.bytes|, index) == Ok(h)
      ensures r.Ok? ==> forall x, y :: 0 <= x < h.width && 0 <= y < h.height ==>
        Selected(grid[x, y], input.bytes, h, x, y)
    {
      for y := 0 to h.height
        invariant input.Valid() && input.pos == RecordOffset(h, Times(h.width, y)) <= |input.bytes|
        invariant Times(h.width, y) > 0 ==> 0 <= index < h.nSamples && RecordOffset(h, 1) <= |input.bytes|
        invariant forall x', y' :: 0 <= x' < h.width && 0 <= y' < y ==> Selected(grid[x', y'], input.bytes, h, x', y')
      {
        r := ReadRow(input, h, y, grid, values);
        if r.Err? {
          return;
        }
      }
      r := Ok(());
    }

    /** One row of the grid: the records of cells (0, y) .. (width - 1, y), in order. */
    method ReadRow(input: LittleEndianInput, h: Header, y: nat, grid: array2<real>, values: array<Int32>)
      returns (r: Result<(), DecodeError>)
      requires Sized(h) && y < h.height
      requires input.Valid() && input.pos == RecordOffset(h, Times(h.width, y)) <= |input.bytes|
      requires Times(h.width, y) > 0 ==> 0 <= index < h.nSamples && RecordOffset(h, 1) <= |input.bytes|
      requires grid.Length0 == h.width && grid.Length1 == h.height && values.Length == h.nSamples
      modifies input, grid, values
      ensures input.Valid()
      ensures r.Err? ==> CheckBody(h, |input.bytes|, index) == Err(r.error)
      ensures r.Ok? ==> input.pos == RecordOffset(h, Times(h.width, y + 1)) <= |input.bytes|
      ensures r.Ok? && Times(h.width, y + 1) > 0 ==> 0 <= index < h.nSamples && RecordOffset(h, 1) <= |input.bytes|
      ensures r.Ok? ==> forall x :: 0 <= x < h.width ==> Selected(grid[x, y], input.bytes, h, x, y)
      ensures forall x, y' :: 0 <= x < h.width && 0 <= y' < h.height && y' != y ==> grid[x, y'] == old(grid[x, y'])
    {
      ghost var bytes := input.bytes;
      ghost var origin: nat := Times(h.width, y);
      for x := 0 to h.width
        invariant input.Valid()
        invariant origin == Times(h.width, y) + x && input.pos == RecordOffset(h, origin) <= |bytes|
        invariant origin > 0 ==> 0 <= index < h.nSamples && RecordOffset(h, 1) <= |bytes|
        invariant forall x' :: 0 <= x' < x ==> Selected(grid[x', y], bytes, h, x', y)
        invariant forall x', y' :: 0 <= x' < h.width && 0 <= y' < h.height && y' != y ==> grid[x', y'] == old(grid[x', y'])
      {
        assert CellIndex(h, x, y) == origin;
        r := ReadCell(input, h, x, y, grid, values);
        if r.Err? {
          return;
        }
        origin := origin + 1;
      }
      r := Ok(());
    }

    /** The body of the cell loop: reads the record of cell (x, y) and stores its selected sample there. */
    method ReadCell(input: LittleEndianInput, h: Header, x: nat, y: nat, grid: array2<real>, values: array<Int32>)
      returns (r: Result<(), DecodeError>)
      requires Sized(h) && x < h.width && y < h.height
      requires input.Valid() && input.pos == RecordOffset(h, CellIndex(h, x, y)) <= |input.bytes|
      requires CellIndex(h, x, y) > 0 ==> 0 <= index < h.nSamples && RecordOffset(h, 1) <= |input.bytes|
      requires grid.Length0 == h.width && grid.Length1 == h.height && values.Length == h.nSamples
      modifies input, grid, values
      ensures input.Valid()
      ensures r.Err? ==> CheckBody(h, |input.bytes|, index) == Err(r.error)
      ensures r.Ok? ==> input.pos == RecordOffset(h, CellIndex(h, x, y) + 1) <= |input.bytes|
      ensures r.Ok? ==> 0 <= index < h.nSamples && RecordOffset(h, 1) <= |input.bytes|
      ensures r.Ok? ==> Selected(grid[x, y], input.bytes, h, x, y)
      ensures forall x', y' :: 0 <= x' < h.width && 0 <= y' < h.height && (x' != x || y' != y) ==>
        grid[x', y'] == old(grid[x', y'])
    {
      var origin := CellIndex(h, x, y);
      assert RecordOffset(h, origin) + 4 * h.nSamples == RecordOffset(h, origin + 1);
      var read := ReadOrigin(input, values);
      if read.Err? {
        assert |input.bytes| < RecordOffset(h, origin + 1);
        return Err(EndOfStream);
      }
      var selected := ComputeValueForOrigin(values[..]);
      if selected.Err? {
        assert origin == 0;
        return Err(selected.error);
      }
      grid[x, y] := selected.value;
      r := Ok(());
    }
  }

  /**
   * Reads the magic (as Java chars), the version and the six header fields,
   * failing as `DecodeHeader` says.
   */
  method ReadHeader(input: LittleEndianInput) returns (r: Result<Header, DecodeError>)
    requires input.Valid() && input.pos == 0
    modifies input
    ensures input.Valid()
    ensures r == DecodeHeader(input.bytes)
    ensures r.Ok? ==> input.pos == HEADER_BYTES
  {
    var header := new char[8];
    for i := 0 to 8
      invariant input.Valid() && input.pos == i
      invariant forall j :: 0 <= j < i ==> header[j] == ByteToChar(input.bytes[j])
    {
      var b :- input.ReadByte();
      header[i] := ByteToChar(b);
    }
    if header[..] != MAGIC {
      return Err(NotAccessGrid);
    }
    var version :- input.ReadInt();
    if version != ACCESS_GRID_VERSION {
      return Err(VersionMismatch(ACCESS_GRID_VERSION, version));
    }
    var zoom :- input.ReadInt();
    var west :- input.ReadInt();
    var north :- input.ReadInt();
    var width :- input.ReadInt();
    var height :- input.ReadInt();
    var nSamples :- input.ReadInt();
    return Ok(Header(zoom, west, north, width, height, nSamples));
  }

  /** `g` is the reducer's output for the stream: the header's size and each cell's selected sample. */
  ghost predicate Matches(g: Grid, bytes: seq<Byte>, index: int, h: Header)
    reads g, g.grid
    requires Decode(bytes, index) == Ok(h)
  {
    g.zoom == h.zoom && g.west == h.west && g.north == h.north &&
    g.width == h.width && g.height == h.height &&
    g.grid.Length0 == h.width && g.grid.Length1 == h.height &&
    forall x, y :: 0 <= x < h.width && 0 <= y < h.height ==>
      g.grid[x, y] == CellValue(bytes, index, h, x, y) as real
  }
}
