# r5 regional accessibility: bootstrap worker and access-grid reader

This project is a Dafny model of two parts of Conveyal r5's regional analysis.

**`GridComputer.run`** is the worker that computes accessibility for one origin cell. Its steps:
- It checks that the request's zoom matches the destination density grid.
- It picks the street mode that reaches transit.
- It converts the distances to reached stops from millimetres to seconds.
- It builds the bootstrap weight matrix. Row 0 is all ones: the point estimate, with every iteration weighted equally. Each of the 1000 further rows counts how often a replicate resampled each iteration.
- For every destination the propagator yields, it classifies the destination's travel times against the cutoff. The destination is then:
  - never reachable: nothing is added;
  - always reachable: its density is added to every sample;
  - mixed: its density is added to exactly those samples whose weighted count of iterations under the cutoff is a strict majority. The scan of a replicate stops at the first prefix whose count is already a majority.
- Finally it rounds each sample to a Java `int`.

**`SelectingGridReducer.compute`** reads an access grid and keeps, for every origin, the sample at one index. The access grid it reads is laid out as follows:
- the magic `ACCESSGR`;
- a version, which must be 0;
- six little-endian header ints: zoom, west, north, width, height, nSamples;
- one record of `nSamples` ints per cell, in row-major order. Each record is delta coded: the reader restores the values with a 32-bit accumulator that wraps around.

## Modules

- `Results`: the `Result` datatype. It carries the exceptions of the Java code as values.
- `JavaInt`: Java `int` semantics:
  - 32-bit wrap-around (`Wrap`);
  - truncating division (`JavaDiv`);
  - the byte-to-`char` cast of the magic check;
  - Guava's little-endian `readInt`.
- `GridComputer`: the worker. It has a specification level and an imperative level:
  - Specification level: the functions `WeightRow`, `Counted`, `AddTarget` and `Accumulate`.
  - Imperative level: the methods `BootstrapWeights`, `PropagateTarget` (with its labelled `continue`) and `Run`, over arrays. Each method is proved equal to its specification function.
- `AccessGrid`: the reader. `Decode` states in closed form which exception a stream ends in and which header it yields. `CellValue` states what each cell receives. The imperative reader has four parts:
  - `LittleEndianInput`, a cursor over the bytes;
  - `ReadHeader`;
  - `ReadOrigin`, which holds the accumulator loop;
  - `SelectingGridReducer.Compute`, which calls `ReadCells`, `ReadRow` and `ReadCell` for the nested loops.

  `Compute` is proved to agree with `Decode` and `CellValue`.
- `AccessGridEncoding`: the writer's side of the format, built as a partner of the reader. It encodes a header and per-origin sample vectors, delta coded. Decoding that encoding gives the header back. It also gives back each stored vector, so a reducer reads the stored sample at its index.

## Edge cases of the worker

- A time equal to the cutoff sets neither flag (GridComputer.java:144-145). So a destination with one time under the cutoff and two at it is added to every sample, the point estimate included (`TiesCountAsAlwaysReachable`, `MinorityWithTiesIsCounted`).
- The majority test is strict: `count > length / 2` (GridComputer.java:161). Take a 2 × 1 grid with densities 10 and 20 and a 600 s cutoff. Cell 0 is always reachable. Cell 1 is under the cutoff in two of four iterations, so the test skips it and the point estimate is 10 (`TwoCellPointEstimate`).

## Model

| member | source | states |
|---|---|---|
| GridComputer.Run | src/main/java/com/conveyal/r5/analyst/GridComputer.java:71-174 | A zoom mismatch fails with nothing computed. A zero walking speed with a reached stop fails with the division by zero of the conversion. Otherwise the result is the rounded accumulation, over the destinations in propagation order, using the bootstrap weight rows and the 32-bit cutoff `cutoffMinutes * 60`. |
| GridComputer.AccessMode | src/main/java/com/conveyal/r5/analyst/GridComputer.java:84-87 | The chosen mode is walking or one of the requested modes. No requested street mode has higher priority (car over bicycle over walk). |
| GridComputer.DistancesToSeconds | src/main/java/com/conveyal/r5/analyst/GridComputer.java:106-111 | Fails exactly when the speed is zero and some stop was reached. Otherwise every stop keeps its id, and its distance becomes the truncated quotient by the speed. |
| JavaInt.JavaDiv | src/main/java/com/conveyal/r5/analyst/GridComputer.java:110 | The quotient has magnitude \|a\| / \|b\| and the sign of a truncating division. |
| GridComputer.CellOf | src/main/java/com/conveyal/r5/analyst/GridComputer.java:148-149 | `target % width` and `target / width` give a column inside the row, and `y * width + x` recomposes the target. |
| GridComputer.CellOfRowMajor | src/main/java/com/conveyal/r5/analyst/GridComputer.java:148-149 | The cell of a row-major index is the cell it was made from. |
| GridComputer.CellInGrid | src/main/java/com/conveyal/r5/analyst/GridComputer.java:148-149 | The cell of a target inside a width × height grid lies inside the grid. |
| GridComputer.Occurrences | src/main/java/com/conveyal/r5/analyst/GridComputer.java:125-128 | The increment count of a column is at most the number of draws. It is positive exactly when that column was drawn. |
| GridComputer.WeightRow | src/main/java/com/conveyal/r5/analyst/GridComputer.java:121-128 | Every weight row has one non-negative weight per iteration. |
| GridComputer.OccurrencesSum | src/main/java/com/conveyal/r5/analyst/GridComputer.java:125-128 | Draws inside the columns add up, over all columns, to the number of draws. |
| GridComputer.RowSumIsIterationCount | src/main/java/com/conveyal/r5/analyst/GridComputer.java:121-129 | Every row of the weight matrix sums to the iteration count: row 0 from the fill with ones, the others with one increment per draw. |
| GridComputer.BootstrapWeights | src/main/java/com/conveyal/r5/analyst/GridComputer.java:120-129 | The array is `(1000 + 1) × nIterations`. Row 0 is all ones. Row `b` counts how often each iteration occurs among replicate `b`'s draws. |
| GridComputer.CountDraws | src/main/java/com/conveyal/r5/analyst/GridComputer.java:126-128 | One replicate's increments leave, in its row, the occurrence count of each column. Other rows are unchanged. |
| GridComputer.WeightsHoldRows | src/main/java/com/conveyal/r5/analyst/GridComputer.java:121-129 | The weight array holds the specified rows, all non-negative. |
| GridComputer.Classify | src/main/java/com/conveyal/r5/analyst/GridComputer.java:139-146 | `foundBelow` holds exactly when some time is strictly under the cutoff. `foundAbove` holds exactly when some time is strictly over it. |
| GridComputer.TimeAtCutoffIsNeutral | src/main/java/com/conveyal/r5/analyst/GridComputer.java:143-146 | Removing a time equal to the cutoff changes neither flag. |
| GridComputer.WeightedBelowMonotone | src/main/java/com/conveyal/r5/analyst/GridComputer.java:156-161 | With non-negative weights, the running count of a prefix never exceeds the full count. |
| GridComputer.EarlyExitAgrees | src/main/java/com/conveyal/r5/analyst/GridComputer.java:154-166 | Some prefix's count beats half the iterations exactly when the full weighted count does. So `continue BOOTSTRAP` decides the same as a full count. |
| GridComputer.PointEstimateIsUnweightedMajority | src/main/java/com/conveyal/r5/analyst/GridComputer.java:123-166 | With the all-ones row, a mixed destination counts exactly when strictly more than half the iterations are under the cutoff. |
| GridComputer.HalfBelowIsNotAMajority | src/main/java/com/conveyal/r5/analyst/GridComputer.java:161 | Two of four iterations under the cutoff do not count for the point estimate. |
| GridComputer.TiesCountAsAlwaysReachable | src/main/java/com/conveyal/r5/analyst/GridComputer.java:143-170 | A destination with times only at or under the cutoff, and some under it, counts for every weight row. |
| GridComputer.MinorityWithTiesIsCounted | src/main/java/com/conveyal/r5/analyst/GridComputer.java:143-170 | One time under and two at the cutoff: not a majority, yet the point estimate counts it. |
| GridComputer.AddTarget | src/main/java/com/conveyal/r5/analyst/GridComputer.java:151-171 | Each sample either stays or grows by exactly the density, and it grows only for a counted row. |
| GridComputer.UnreachableTargetAddsNothing | src/main/java/com/conveyal/r5/analyst/GridComputer.java:171 | A destination with no time under the cutoff changes no sample. |
| GridComputer.AlwaysReachableTargetAddsEverywhere | src/main/java/com/conveyal/r5/analyst/GridComputer.java:167-170 | A destination sometimes under and never over the cutoff adds its density to every sample. |
| GridComputer.MixedTargetFollowsMajority | src/main/java/com/conveyal/r5/analyst/GridComputer.java:151-166 | A mixed destination adds its density to sample `b` exactly when row `b`'s weighted count exceeds half the iterations. |
| GridComputer.Accumulate | src/main/java/com/conveyal/r5/analyst/GridComputer.java:137-172 | The accumulation over all destinations has one sample per weight row. |
| GridComputer.TwoCellPointEstimate | src/main/java/com/conveyal/r5/analyst/GridComputer.java:137-172 | A 2 × 1 grid with densities 10 and 20 and a 600 s cutoff, cell 0 always reachable and cell 1 under the cutoff in two of four iterations: the point estimate is 10. |
| GridComputer.PropagateTarget | src/main/java/com/conveyal/r5/analyst/GridComputer.java:139-172 | The callback leaves the samples as `AddTarget` of the old samples, the weight rows, the times and the density of the target's cell. |
| GridComputer.AddByMajority | src/main/java/com/conveyal/r5/analyst/GridComputer.java:151-166 | Each sample grows by the destination's gain for its weight row, and by nothing else. |
| GridComputer.AddToAll | src/main/java/com/conveyal/r5/analyst/GridComputer.java:167-170 | Every sample grows by the density. |
| GridComputer.RoundHalfUp | src/main/java/com/conveyal/r5/analyst/GridComputer.java:174 | The result is the integer nearest to `d`, with halves rounded up. |
| GridComputer.Rounded | src/main/java/com/conveyal/r5/analyst/GridComputer.java:174 | One int per sample. It equals the rounded sample whenever that fits in an `int`. |
| GridComputer.RoundedWraps | src/main/java/com/conveyal/r5/analyst/GridComputer.java:174 | The `(int)` cast changes the rounded sample by a multiple of 2^32. |
| JavaInt.WrapCongruent | src/main/java/com/conveyal/r5/analyst/SelectingGridReducer.java:87 | Java `int` arithmetic changes the exact result by a multiple of 2^32. |
| JavaInt.WrapAdd | src/main/java/com/conveyal/r5/analyst/SelectingGridReducer.java:87 | Wrapping the accumulator after every step gives the wrapped exact total. |
| JavaInt.ByteToChar | src/main/java/com/conveyal/r5/analyst/SelectingGridReducer.java:55 | An ASCII byte becomes the same char. Any other byte becomes a non-ASCII char. |
| JavaInt.LittleEndianRoundTrip | src/main/java/com/conveyal/r5/analyst/SelectingGridReducer.java:62 | Reading back the four little-endian bytes of `v` gives `v`. |
| AccessGrid.DecodeHeader | src/main/java/com/conveyal/r5/analyst/SelectingGridReducer.java:53-77 | A header that decodes has all 36 bytes, and its fields are the six ints after the version. |
| AccessGrid.CheckBody | src/main/java/com/conveyal/r5/analyst/SelectingGridReducer.java:79-93 | If the body checks pass, the sizes are non-negative and the stream holds every record. The index selects a sample whenever there is a cell. |
| AccessGrid.Decode | src/main/java/com/conveyal/r5/analyst/SelectingGridReducer.java:50-98 | A decodable stream has the decoded header, non-negative sizes and every record present, and a valid index whenever there is a cell. |
| AccessGrid.BodyEndIsByteCount | src/main/java/com/conveyal/r5/analyst/SelectingGridReducer.java:53-88 | A complete stream is 36 header bytes plus 4 bytes per sample per cell: `36 + 4 * (width * height) * nSamples`. |
| AccessGrid.DeltaDecodeAccumulates | src/main/java/com/conveyal/r5/analyst/SelectingGridReducer.java:86-87 | The first decoded value is the first stored int. Each later one is the previous one plus the next stored int, in 32-bit arithmetic. |
| AccessGrid.CellIndex | src/main/java/com/conveyal/r5/analyst/SelectingGridReducer.java:83-84 | Cell (x, y) has a record, and that record lies inside the body. |
| AccessGrid.CellValue | src/main/java/com/conveyal/r5/analyst/SelectingGridReducer.java:91 | For a decodable stream, the record of every cell lies in the stream and the index selects a sample of it. |
| AccessGrid.MagicIsAccessGr | src/main/java/com/conveyal/r5/analyst/SelectingGridReducer.java:53-58 | The char comparison with `ACCESSGR` holds exactly when the first eight bytes are `ACCESSGR` in ASCII. |
| AccessGrid.WrongMagicIsRejected | src/main/java/com/conveyal/r5/analyst/SelectingGridReducer.java:58-60 | Any other first eight bytes fail as not an access grid. |
| AccessGrid.OtherVersionIsRejected | src/main/java/com/conveyal/r5/analyst/SelectingGridReducer.java:62-66 | After the magic, a version other than 0 fails with the expected and the found version. |
| AccessGrid.VersionOneIsRejected | src/main/java/com/conveyal/r5/analyst/SelectingGridReducer.java:64-66 | A version-1 stream fails with expected 0, found 1. |
| AccessGrid.HeaderOfPrefix | src/main/java/com/conveyal/r5/analyst/SelectingGridReducer.java:53-77 | A stream cut inside a valid header ends too early. Cut after it, the header decodes the same. |
| AccessGrid.PrefixKeepsBytes | src/main/java/com/conveyal/r5/analyst/SelectingGridReducer.java:53-77 | A prefix holds the same bytes, magic and ints as the stream. |
| AccessGrid.ReadsExactlyTheBody | src/main/java/com/conveyal/r5/analyst/SelectingGridReducer.java:50-98 | Cutting a decodable stream before its last record ends it too early. Bytes after the last record change nothing. |
| AccessGrid.BodyChecksOfPrefix | src/main/java/com/conveyal/r5/analyst/SelectingGridReducer.java:79-93 | On a shorter stream, the body checks fail exactly when the stream ends before the last record. |
| AccessGrid.BodyChecksAtEnd | src/main/java/com/conveyal/r5/analyst/SelectingGridReducer.java:79-93 | A stream that ends at its last record passes unless the index selects no sample. |
| AccessGrid.Grid.constructor | src/main/java/com/conveyal/r5/analyst/SelectingGridReducer.java:79 | The grid has the header's fields and a fresh zeroed `width × height` array. |
| AccessGrid.LittleEndianInput.ReadByte | src/main/java/com/conveyal/r5/analyst/SelectingGridReducer.java:55 | Yields the next byte and advances by one, or fails at the end of the stream. |
| AccessGrid.LittleEndianInput.ReadInt | src/main/java/com/conveyal/r5/analyst/SelectingGridReducer.java:62 | Yields the little-endian int at the cursor and advances by four, or fails when fewer than four bytes remain. |
| AccessGrid.ReadHeader | src/main/java/com/conveyal/r5/analyst/SelectingGridReducer.java:53-77 | The char-by-char magic check, the version check and the six reads end exactly as `DecodeHeader` says. |
| AccessGrid.ReadOrigin | src/main/java/com/conveyal/r5/analyst/SelectingGridReducer.java:86-88 | Succeeds exactly when the record fits. The values are then the delta decoding of the stored ints, and the cursor moves past the record. |
| AccessGrid.RunningSumDecodes | src/main/java/com/conveyal/r5/analyst/SelectingGridReducer.java:86-88 | After each read, the accumulator holds the matching delta-decoded value. |
| AccessGrid.RunningSumIsWrappedSum | src/main/java/com/conveyal/r5/analyst/SelectingGridReducer.java:87 | The accumulator is the 32-bit sum of the ints read so far. |
| AccessGrid.SelectingGridReducer.constructor | src/main/java/com/conveyal/r5/analyst/SelectingGridReducer.java:40-42 | The reducer keeps its index. |
| AccessGrid.SelectingGridReducer.ComputeValueForOrigin | src/main/java/com/conveyal/r5/analyst/SelectingGridReducer.java:106-108 | Returns the value at the index when the index is a position of the vector. Otherwise it fails with the index and the vector length. |
| AccessGrid.SelectingGridReducer.Compute | src/main/java/com/conveyal/r5/analyst/SelectingGridReducer.java:50-98 | Fails with exactly `Decode`'s error. Otherwise it returns a fresh grid with the header's fields and size, holding in every cell the `CellValue` of the stream. |
| AccessGrid.SelectingGridReducer.ReadCells | src/main/java/com/conveyal/r5/analyst/SelectingGridReducer.java:83-93 | The loops fail exactly as `CheckBody` says. Otherwise every cell holds the selected sample of its record. |
| AccessGrid.SelectingGridReducer.ReadRow | src/main/java/com/conveyal/r5/analyst/SelectingGridReducer.java:84-92 | One row's cells receive their selected samples, or the body check's error is returned. Other rows are untouched. |
| AccessGrid.SelectingGridReducer.ReadCell | src/main/java/com/conveyal/r5/analyst/SelectingGridReducer.java:86-91 | One record is read and its selected sample stored in the cell, or the body check's error is returned. Other cells are untouched. |
| AccessGridEncoding.Deltas | src/main/java/com/conveyal/r5/analyst/SelectingGridReducer.java:85-88 | Delta coding keeps the length. |
| AccessGridEncoding.DeltaPrefixSum | src/main/java/com/conveyal/r5/analyst/SelectingGridReducer.java:85-88 | The 32-bit running sum of the first `k + 1` deltas is value `k`. |
| AccessGridEncoding.DeltaRoundTrip | src/main/java/com/conveyal/r5/analyst/SelectingGridReducer.java:85-88 | The reader's delta decoding undoes delta coding. |
| AccessGridEncoding.EncodeIntsAt | src/main/java/com/conveyal/r5/analyst/SelectingGridReducer.java:62-77 | Int `j` of an encoded sequence reads back from byte `4 j`. |
| AccessGridEncoding.FlattenAt | src/main/java/com/conveyal/r5/analyst/SelectingGridReducer.java:83-88 | Value `j` of record `r` sits at position `n r + j` of the records written one after another. |
| AccessGridEncoding.EncodedHeader | src/main/java/com/conveyal/r5/analyst/SelectingGridReducer.java:53-77 | An encoded file's header decodes to the file's header. |
| AccessGridEncoding.EncodedRecord | src/main/java/com/conveyal/r5/analyst/SelectingGridReducer.java:83-88 | Every record of an encoded file decodes to the samples stored for that origin. |
| AccessGridEncoding.EncodedLength | src/main/java/com/conveyal/r5/analyst/SelectingGridReducer.java:83-93 | An encoded file ends right after its last record. |
| AccessGridEncoding.RoundTrip | src/main/java/com/conveyal/r5/analyst/SelectingGridReducer.java:50-98 | Decoding an encoded file gives its header back when the grid is empty or the index selects a sample. Otherwise it fails with the index. |
| AccessGridEncoding.ReducerSelectsStoredSample | src/main/java/com/conveyal/r5/analyst/SelectingGridReducer.java:24-26 | A reducer with a valid index puts into every cell of an encoded grid the sample stored at that index for that cell. |

## Left out

- Sending the result is not modelled: `Origin.write`, Base64 and the SQS message (GridComputer.java:176-186). Logging is not modelled either. All of this is I/O.
- The GZIP layer is not modelled. The reader works on the decompressed bytes, and a corrupt GZIP stream is outside the model.
- Nothing computes the inputs that the routing collaborators would produce. The destinations and their per-iteration times are a parameter (`targets`), in propagation order. These collaborators are the grid and point-set caches, `StreetRouter`, `FastRaptorWorker`, `LinkedPointSet` and `PerTargetPropagater`. `Grid.pixelToLat`/`pixelToLon` and the origin coordinates they set are not modelled.
- `AccessMode` (the street mode) is modelled, but `Run` does not call it: the mode only feeds the routing collaborators. `Run` does call `DistancesToSeconds` for its division-by-zero failure; the converted times themselves only feed the routing collaborators, whose output is the `targets` parameter.
- The reached-stop map is a sequence of (stop, distance) entries, in the map's iteration order.
- The `MersenneTwister` is not modelled. The draws it would yield are a parameter (`draws`), one sequence of `nIterations` column indices per replicate.
- The walk speed's `(int) (walkSpeed * 1000)` cast is outside the model. The resulting millimetres per second is a parameter.
- The weight matrix has `nMinutes * monteCarloDrawsPerMinute` columns. The model assumes that this column count equals the number of RAPTOR iterations. It assumes the same of the length of every destination's times array.
- Doubles are modelled as exact reals: the densities, the samples, and the `double` grid cells of the reducer's output. Floating-point rounding of the sums is not modelled.
- The weighted count `count` is an exact integer. It cannot overflow, because `RowSumIsIterationCount` bounds it by the iteration count.
- GridComputer.Rounded: does not model `Math.round`'s saturation at the `long` range. The model wraps the exact rounded value, which agrees with Java for every sample below 2^63 in magnitude.
- `Grid.java` is not part of this model. Its constructor is assumed to allocate `double[width][height]` and to throw `NegativeArraySizeException` for a negative width or height. `Grid`'s other members are not modelled.
- The S3 overload `compute(resultsBucket, key)` is not modelled. It only fetches the object and passes its stream on.
- The unused parameters of `computeValueForOrigin` (x, y, zoom, west, north, width, height) are dropped.
- `input.close()` is not modelled.
