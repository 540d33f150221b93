/**
 * The writer's side of the access grid format: the stream that a regional
 * analysis stores for a grid of origins. Decoding what was encoded gives the
 * header back and, for every cell, the sample vector that was stored, so a
 * `SelectingGridReducer` reads the sample at its index in every cell.
 */
module AccessGridEncoding {
  import opened Results
  import opened JavaInt
  import opened AccessGrid

  /** The contents of an access grid: the header fields and, per cell in row-major order, its samples. */
  datatype AccessGridFile = AccessGridFile(
    zoom: Int32, west: Int32, north: Int32, width: Int32, height: Int32, nSamples: Int32,
    origins: seq<seq<Int32>>)

  function HeaderOfFile(f: AccessGridFile): Header
  {
    Header(f.zoom, f.west, f.north, f.width, f.height, f.nSamples)
  }

  /** Non-negative sizes, one origin per cell and `nSamples` values at every origin. */
  ghost predicate WellFormed(f: AccessGridFile)
  {
    Sized(HeaderOfFile(f)) &&
    |f.origins| == RecordCount(HeaderOfFile(f)) &&
    forall r :: 0 <= r < |f.origins| ==> |f.origins[r]| == f.nSamples
  }

  /** Delta coding: the first value as it is, then each value's 32-bit difference from the one before. */
  function Deltas(values: seq<Int32>): (deltas: seq<Int32>)
    ensures |deltas| == |values|
  {
    seq(|values|, k requires 0 <= k < |values| =>
      if k == 0 then values[0] else Wrap(values[k] as int - values[k - 1]))
  }

  /** The running 32-bit sum of the first `k + 1` deltas is value `k`. */
  lemma {:induction false} DeltaPrefixSum(values: seq<Int32>, k: nat)
    requires k < |values|
    ensures Wrap(Sum(Deltas(values)[..k + 1])) == values[k]
  {
    var deltas := Deltas(values);
    var prefix := deltas[..k + 1];
    assert prefix[..|prefix| - 1] == deltas[..k];
    if k == 0 {
      assert deltas[..0] == [];
      WrapOfInt32(values[0]);
    } else {
      DeltaPrefixSum(values, k - 1);
      assert Sum(prefix) == Sum(deltas[..k]) + deltas[k];
      assert deltas[k] == Wrap(values[k] as int - values[k - 1]);
      UndoDifference(Sum(deltas[..k]), values[k - 1], values[k]);
    }
  }

  /** Adding the 32-bit difference to the previous value gives the next value. */
  lemma UndoDifference(total: int, previous: Int32, next: Int32)
    requires Wrap(total) == previous
    ensures Wrap(total + Wrap(next as int - previous)) == next
  {
    var step := next as int - previous;
    WrapAdd(total, Wrap(step));
    WrapAdd(step, previous);
    WrapOfInt32(next);
  }

  /** Delta decoding undoes delta coding. */
  lemma DeltaRoundTrip(values: seq<Int32>)
    ensures DeltaDecode(Deltas(values)) == values
  {
    forall k | 0 <= k < |values|
      ensures DeltaDecode(Deltas(values))[k] == values[k]
    {
      DeltaPrefixSum(values, k);
    }
  }

  /** The little-endian bytes of a sequence of ints, one after another. */
  function EncodeInts(ints: seq<Int32>): (bytes: seq<Byte>)
    ensures |bytes| == 4 * |ints|
  {
    if ints == [] then [] else ToLittleEndian(ints[0]) + EncodeInts(ints[1..])
  }

  /** Bytes in front do not change the int read after them. */
  lemma IntAtAppend(front: seq<Byte>, back: seq<Byte>, k: nat)
    requires k + 4 <= |back|
    ensures IntAt(front + back, |front| + k) == IntAt(back, k)
  {
    var both := front + back;
    assert both[|front| + k] == back[k];
    assert both[|front| + k + 1] == back[k + 1];
    assert both[|front| + k + 2] == back[k + 2];
    assert both[|front| + k + 3] == back[k + 3];
  }

  /** Int `j` of an encoded sequence is read back from byte `4 * j`. */
  lemma {:induction false} EncodeIntsAt(ints: seq<Int32>, j: nat)
    requires j < |ints|
    ensures IntAt(EncodeInts(ints), 4 * j) == ints[j]
  {
    var first := ToLittleEndian(ints[0]);
    var bytes := EncodeInts(ints);
    assert bytes == first + EncodeInts(ints[1..]);
    if j == 0 {
      LittleEndianRoundTrip(ints[0]);
      assert bytes[..4] == first;
    } else {
      EncodeIntsAt(ints[1..], j - 1);
      IntAtAppend(first, EncodeInts(ints[1..]), 4 * (j - 1));
    }
  }

  /** The records one after another. */
  function Flatten(records: seq<seq<Int32>>): seq<Int32>
  {
    if records == [] then [] else records[0] + Flatten(records[1..])
  }

  /** With every record `n` long, value `j` of record `r` sits at `n * r + j` of the flattening. */
  lemma {:induction false} FlattenAt(records: seq<seq<Int32>>, n: nat, r: nat, j: nat)
    requires forall i :: 0 <= i < |records| ==> |records[i]| == n
    requires r < |records| && j < n
    ensures |Flatten(records)| == Times(n, |records|)
    ensures Times(n, r) + j < |Flatten(records)|
    ensures Flatten(records)[Times(n, r) + j] == records[r][j]
  {
    FlattenLength(records, n);
    TimesMonotone(n, r + 1, |records|);
    if r > 0 {
      FlattenAt(records[1..], n, r - 1, j);
    }
  }

  lemma {:induction false} FlattenLength(records: seq<seq<Int32>>, n: nat)
    requires forall i :: 0 <= i < |records| ==> |records[i]| == n
    ensures |Flatten(records)| == Times(n, |records|)
  {
    if records != [] {
      FlattenLength(records[1..], n);
    }
  }

  /** Every origin's samples, delta coded. */
  function DeltaCoded(origins: seq<seq<Int32>>): (coded: seq<seq<Int32>>)
    ensures |coded| == |origins|
    ensures forall r :: 0 <= r < |origins| ==> |coded[r]| == |origins[r]|
  {
    seq(|origins|, r requires 0 <= r < |origins| => Deltas(origins[r]))
  }

  /** The ints of the stream after the magic: the version, the six header fields, the delta-coded records. */
  function StreamInts(f: AccessGridFile): seq<Int32>
  {
    [ACCESS_GRID_VERSION, f.zoom, f.west, f.north, f.width, f.height, f.nSamples] + Flatten(DeltaCoded(f.origins))
  }

  /** The (decompressed) access grid stream of `f`. */
  function Encode(f: AccessGridFile): (bytes: seq<Byte>)
    ensures |bytes| == 8 + 4 * |StreamInts(f)|
  {
    MAGIC_BYTES + EncodeInts(StreamInts(f))
  }

  /** Int `k` after the magic is int `k` of the stream's ints. */
  lemma EncodedIntAt(f: AccessGridFile, k: nat)
    requires k < |StreamInts(f)|
    ensures IntAt(Encode(f), 8 + 4 * k) == StreamInts(f)[k]
  {
    EncodeIntsAt(StreamInts(f), k);
    IntAtAppend(MAGIC_BYTES, EncodeInts(StreamInts(f)), 4 * k);
  }

  /** The header of an encoded file decodes to the file's header. */
  lemma EncodedHeader(f: AccessGridFile)
    ensures |Encode(f)| >= HEADER_BYTES
    ensures DecodeHeader(Encode(f)) == Ok(HeaderOfFile(f))
  {
    var bytes := Encode(f);
    assert bytes[..8] == MAGIC_BYTES;
    MagicIsAccessGr(bytes);
    var ints := StreamInts(f);
    EncodedIntAt(f, 0);
    EncodedIntAt(f, 1);
    EncodedIntAt(f, 2);
    EncodedIntAt(f, 3);
    EncodedIntAt(f, 4);
    EncodedIntAt(f, 5);
    EncodedIntAt(f, 6);
  }

  /** Every record of an encoded well-formed file decodes to the samples stored for that origin. */
  lemma EncodedRecord(f: AccessGridFile, r: nat)
    requires WellFormed(f) && r < |f.origins|
    ensures RecordOffset(HeaderOfFile(f), r + 1) <= |Encode(f)|
    ensures OriginValues(Encode(f), HeaderOfFile(f), r) == f.origins[r]
  {
    var h := HeaderOfFile(f);
    var n: nat := f.nSamples;
    var coded := DeltaCoded(f.origins);
    var bytes := Encode(f);
    FlattenLength(coded, n);
    TimesMonotone(n, r + 1, |f.origins|);
    var offset := RecordOffset(h, r);
    var stored := Stored(bytes, offset, n);
    var ints := StreamInts(f);
    forall j | 0 <= j < n
      ensures stored[j] == Deltas(f.origins[r])[j]
    {
      FlattenAt(coded, n, r, j);
      var k := 7 + Times(n, r) + j;
      assert ints[k] == Flatten(coded)[Times(n, r) + j];
      EncodedIntAt(f, k);
      assert offset + 4 * j == 8 + 4 * k;
    }
    assert stored == Deltas(f.origins[r]);
    DeltaRoundTrip(f.origins[r]);
  }

  /** An encoded well-formed file ends right after its last record. */
  lemma EncodedLength(f: AccessGridFile)
    requires WellFormed(f)
    ensures |Encode(f)| == BodyEnd(HeaderOfFile(f))
  {
    FlattenLength(DeltaCoded(f.origins), f.nSamples);
  }

  /**
   * Decoding an encoded well-formed file gives back its header when the grid
   * is empty or the index selects a sample, and otherwise reports the index
   * that is out of bounds.
   */
  lemma RoundTrip(f: AccessGridFile, index: int)
    requires WellFormed(f)
    ensures Decode(Encode(f), index) ==
      if RecordCount(HeaderOfFile(f)) == 0 || 0 <= index < f.nSamples then Ok(HeaderOfFile(f))
      else Err(IndexOutOfBounds(index, f.nSamples))
  {
    var h := HeaderOfFile(f);
    EncodedHeader(f);
    EncodedLength(f);
    BodyChecksAtEnd(h, index);
    assert Decode(Encode(f), index) == CheckBody(h, |Encode(f)|, index);
  }

  /**
   * A reducer with a valid index, reading an encoded grid, puts into cell
   * (x, y) the sample at its index of the origin stored for that cell.
   */
  lemma ReducerSelectsStoredSample(f: AccessGridFile, index: int, x: nat, y: nat)
    requires WellFormed(f) && x < f.width && y < f.height && 0 <= index < f.nSamples
    ensures Decode(Encode(f), index) == Ok(HeaderOfFile(f))
    ensures CellValue(Encode(f), index, HeaderOfFile(f), x, y) == f.origins[CellIndex(HeaderOfFile(f), x, y)][index]
  {
    RoundTrip(f, index);
    EncodedRecord(f, CellIndex(HeaderOfFile(f), x, y));
  }
}
