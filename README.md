# Scene-file layer decoder

This project models `getLayers` in `src/App.js`, the decoder behind the scene
viewer. It turns the bytes of an uploaded `.scn` file, plus a layer count the
user supplies, into an ordered list of layers. Each layer has an id, a z value
and a run-length-expanded sequence of tile triples
`(autotileIdx, tilesetId, tileId)`.

**Layout of a scene file, as the decoder reads it:**
- `numLayers` big-endian u32 layer sizes, starting at offset 0.
- Then, for each layer:
  - an 8-byte header: a u32 id, then a u32 z;
  - then 8-byte runs, each holding four big-endian two's-complement i16 fields (autotile index, tileset id, tile id, repeat count). A run adds `count` copies of its triple to the layer's tiles.

**The cursor.** One cursor runs through the whole file. The run loop of a layer continues while the cursor is below `start + size`. Only the end of the buffer is ever checked. The cursor is not realigned to `start + size` when the loop ends.

**Failure.** The decode is all or nothing. Any of these aborts the entire decode, and the component's stored layer list is then left unchanged:
- a layer count of 2^32 or more, which `Array(numLayers)` rejects before any byte is read (an invalid-length `RangeError`);
- a read past the end of the buffer (a DataView `RangeError`);
- a negative repeat count (an `Array(n)` `RangeError`).

**The four modules:**
- `BigEndian` (`big_endian.dfy`): the DataView reads `getUint32` and `getInt16`, as functions over `seq<bv8>`.
- `SceneFormat` (`scene_format.dfy`):
  - the value types `Tile`, `Layer`, `DecodeError`, `Result` and `Parsed`;
  - the decode written as cursor-threading functions (`ReadSizes`, `DecodeRuns`, `DecodeLayer`, `DecodeLayers`, `Decode`);
  - independent reference definitions by run or layer index (`SizeTable`, `RunCount`, `NthTile`, `NthLength`, `TileTotal`, `NextHeader`, `HeaderAt`);
  - lemmas tying the two together, plus worked examples.
- `SceneDecoder` (`scene_decoder.dfy`): the imperative decoder. It is three methods with `while` loops over a mutable cursor, mirroring the `map`, the header reads with the `for` loop, and the `forEach`. Each method is proved equal to its specification function.
- `AppComponent` (`app_component.dfy`): the `App` component state that `getLayers` writes. It is a class with a `layers` field and a `GetLayers` method that replaces `layers` only on success, and otherwise returns the alert.

**Where the code departs from a well-aligned layout.** A layer whose size is `8 + 8k` (an 8-byte header followed by `k` whole runs, the run count the commented-out `groups` line at src/App.js:22 computes) ends exactly at `start + size`. The model follows the code, which does not enforce that layout:
- **No realignment.** The code never moves the cursor to `start + size` after a layer.
  - With a size above 8 that is not a multiple of 8, the last run is read whole, up to 7 bytes past `start + size`, and the next header is read at the overshot cursor (`NextHeaderSpec`, `ExampleMisalignedSize`).
  - A layer of size below 8 still consumes its full 8-byte header, so the cursor ends `8 - size` bytes past `start + size`: 8 bytes past for a size of 0 (`ExampleEmptyLayer`).
- **No layer-bounds error.** There is no separate error for a run that crosses the layer's end. Only the buffer end raises an error.
- **Zero counts.** A repeat count of 0 is accepted and adds nothing.
- **Trailing bytes.** Bytes after the final cursor are never read and raise no error (`TrailingBytesIgnored`). That cursor is the last layer's NextHeader, which lies up to 8 bytes past the last layer's declared end: `8 - size` bytes past for a size below 8 (8 bytes for a size of 0), `8 - size % 8` for a larger size that is not a multiple of 8, and exactly on it for any other multiple of 8. Those bytes are read as part of its header or its last run (`ExampleEmptyLayer`, `ExampleOverhangRead`, `ExampleOverhangCut`).
- **No encoder.** The code contains no encoder and no tile editing, so no round-trip property is stated.

## Model

| member | source | states |
|---|---|---|
| `BigEndian.U32` | src/App.js:17 | the big-endian unsigned 32-bit read at an in-bounds offset is below 2^32 |
| `BigEndian.U32Halves` | src/App.js:17 | a 32-bit big-endian reading is the 16-bit reading of its first two bytes times 2^16 plus that of its last two |
| `BigEndian.I16` | src/App.js:30-33 | the signed 16-bit read lies in [-2^15, 2^15) and is congruent modulo 2^16 to the unsigned big-endian reading of the same two bytes (two's complement) |
| `BigEndian.I16Sign` | src/App.js:33 | a 16-bit count is negative exactly when the top bit of its first byte is set |
| `SceneFormat.Fill` | src/App.js:36 | `Array(n).fill(t)` holds exactly `n` elements, each equal to `t` |
| `SceneFormat.ReadSizes` | src/App.js:16-20 | the size-table stage leaves the cursor exactly `4 * count` past its start, inside the buffer; its only failure is an out-of-bounds read |
| `SceneFormat.ReadSizesSpec` | src/App.js:16-20 | reading `count` sizes succeeds if and only if they fit in the buffer, and then holds `count` entries, entry k being the u32 at `idx + 4k` |
| `SceneFormat.RunFieldsRead` | src/App.js:30-33 | `RunTile` and `RunLength`, the four `getInt16` reads of a run: each field is the two's-complement reading of the big-endian 16-bit word at offset +0, +2, +4 or +6, and the count is negative exactly when the top bit of byte +6 is set |
| `SceneFormat.DecodeRuns` | src/App.js:29-37 | the run loop never moves the cursor backwards, and when it reads any run it stops inside the buffer |
| `SceneFormat.DecodeRunsOk` | src/App.js:29-36 | the run loop succeeds if and only if every one of the RunCount runs it reaches lies inside the buffer and has a non-negative count |
| `SceneFormat.DecodeRunsShape` | src/App.js:29-36 | a successful run loop stops exactly `8 * RunCount` bytes after it started and yields as many tiles as the sum of the run counts |
| `SceneFormat.DecodeRunsExpand` | src/App.js:30-36 | run j is inside the buffer with a non-negative count, and the tiles between the totals of the first j and j + 1 runs are exactly that count of copies of run j's triple, read as i16 at offsets +0, +2, +4 |
| `SceneFormat.DecodeLayer` | src/App.js:23-37 | a decoded layer leaves the cursor at least 8 bytes past its header start and inside the buffer |
| `SceneFormat.DecodeLayerOk` | src/App.js:24-36 | a layer decodes if and only if its header and every run the loop reaches lie inside the buffer and no count is negative |
| `SceneFormat.DecodeLayerFields` | src/App.js:23-37 | a decoded layer carries its size, the u32 id at `start` and the u32 z at `start + 4`; its tiles are the run loop's tiles from `start + 8`, and number the sum of the run counts; it has no tiles when `size <= 8`; and the cursor ends at NextHeader(start, size) |
| `SceneFormat.LayerFieldsOf` | src/App.js:23-37 | a layer decode with a named result and cursor keeps its size and satisfies LayerAtHeader: the u32 id at `h`, the u32 z at `h + 4`, the run loop's tiles from `h + 8` up to `h + size`, and the cursor at NextHeader(h, size) |
| `SceneFormat.NextHeaderSpec` | src/App.js:23-29 | after a layer the cursor is at `start + 8` when `size <= 8`; otherwise it is at `start + 8 + 8 * ceil((size - 8) / 8)`, which is `start + size` exactly when the size is a multiple of 8 and overshoots by `8 - size % 8` otherwise |
| `SceneFormat.DecodeLayers` | src/App.js:21-39 | decoding the layers in sequence never moves the cursor backwards and, for a non-empty list, stops inside the buffer |
| `SceneFormat.HeaderAtShift` | src/App.js:21-26 | header positions seen from the second layer on are those of the whole list, shifted by one layer |
| `SceneFormat.DecodeLayersShape` | src/App.js:21-39 | a successful decode of the layers yields one layer per size, in order, and stops at the header position after the last layer |
| `SceneFormat.DecodeLayersAt` | src/App.js:21-39 | layer k of a successful sequence decode is what one layer decode reads at HeaderAt(k) with size `sizes[k]`, and that read ends at HeaderAt(k + 1) |
| `SceneFormat.DecodeLayersFails` | src/App.js:21-39 | a failed sequence decode fails with the error of the first layer that does not decode at its header position; every earlier layer decodes |
| `SceneFormat.DecodeFrom` | src/App.js:14-39 | a layer count of 2^32 or more fails with InvalidArrayLength (`Array(numLayers)`); a successful decode has an accepted count, consumes no byte beyond the end of the buffer and holds exactly `numLayers` layers |
| `SceneFormat.Decode` | src/App.js:14-43 | the result of `getLayers`: on success, the list handed to `setLayers`, with a layer count below 2^32, the size table inside the buffer and exactly `numLayers` layers; on failure, the error that aborted the decode at its cursor-carrying stage |
| `SceneFormat.SizeTableRead` | src/App.js:14-21 | with the table in the buffer, the size stage returns exactly the u32 table with the cursor at `4 * numLayers`, and with an accepted layer count the layers are decoded from that offset |
| `SceneFormat.DecodedLayerAt` | src/App.js:14-37 | layer k of a successful decode has as its size the u32 at `4k`; with h its header position (the first one at `4 * numLayers`) it satisfies LayerAtHeader: id and z the u32 values at h and h + 4, tiles the run loop from h + 8 to h + size, and the next header at NextHeader(h, size) |
| `SceneFormat.DecodedLayerRead` | src/App.js:14-39 | layer k of a successful decode is what one layer decode reads at HeaderAt(4 * numLayers, table, k) with size `table[k]`, and that read ends at the next header position |
| `SceneFormat.DecodeFails` | src/App.js:15-43 | a failed decode is InvalidArrayLength for a layer count of 2^32 or more; otherwise an out-of-bounds read of the size table, or the error of the first layer that does not decode at its header position, every earlier layer decoding |
| `SceneFormat.DecodeOk` | src/App.js:14-40 | a decode succeeds if and only if the layer count is below 2^32, the size table fits and every layer decodes at its header position |
| `SceneFormat.DecodeRunsFrame` | src/App.js:29-37 | the run loop's result depends only on the bytes before its final cursor |
| `SceneFormat.DecodeLayerFrame` | src/App.js:23-37 | a layer's decode depends only on the bytes before its final cursor |
| `SceneFormat.DecodeLayersFrame` | src/App.js:21-39 | the layer sequence's decode depends only on the bytes before its final cursor |
| `SceneFormat.ReadSizesFrame` | src/App.js:16-20 | the size table depends only on its own `4 * count` bytes |
| `SceneFormat.DecodeFrame` | src/App.js:14-40 | two buffers that agree up to a successful decode's final cursor decode to the same result |
| `SceneFormat.TrailingBytesIgnored` | src/App.js:14-40 | appending any bytes to a buffer that decodes leaves the decoded layers unchanged |
| `SceneFormat.ConsumedPrefixSuffices` | src/App.js:14-40 | cutting a decodable buffer right after its final cursor leaves the decoded layers unchanged |
| `SceneFormat.ExampleOneRun` | src/App.js:14-37 | a one-layer file with one run (1, 2, 3) x 5 decodes to five copies of that tile, with id 7 and z 3 |
| `SceneFormat.MisalignedSceneTable` | src/App.js:16-20 | the two-entry size table of the misaligned scene reads as [12, 8], with the cursor at 8 |
| `SceneFormat.MisalignedSceneFirstRuns` | src/App.js:29-37 | a run loop from 16 with end 20 reads one whole run and stops at 24, beyond the layer end |
| `SceneFormat.MisalignedSceneFirstLayer` | src/App.js:23-37 | the first layer of the misaligned scene decodes with id 1, z 0 and two tiles, and ends at 24 |
| `SceneFormat.MisalignedSceneSecondLayer` | src/App.js:23-37 | the second layer's header is read at 24: id 9, z 4, no tiles |
| `SceneFormat.MisalignedSceneLastLayer` | src/App.js:21-39 | from the overshot cursor 24, the remaining one-layer sequence decodes to the second layer and ends at 32 |
| `SceneFormat.MisalignedSceneLayers` | src/App.js:21-39 | the layer sequence of the misaligned scene, from offset 8 with sizes 12 and 8, decodes to both layers and ends at 32 |
| `SceneFormat.ExampleMisalignedSize` | src/App.js:21-39 | with sizes 12 and 8, the second header is read at 24, not at 8 + 12, and the whole decode succeeds |
| `SceneFormat.OverhangSceneLayer` | src/App.js:23-37 | a layer of size 12 at offset 4 reads its one run from bytes 12 to 19, past its declared end 16, and ends at 20 |
| `SceneFormat.ExampleOverhangRead` | src/App.js:14-39 | that one-layer file decodes to four copies of (1, 2, 3), whose tile id and count come from bytes past the declared layer end |
| `SceneFormat.ExampleOverhangCut` | src/App.js:29-33 | cut at the declared layer end, the same file fails with OffsetOutOfBounds |
| `SceneFormat.ExampleEmptyLayer` | src/App.js:23-29 | a layer of size 0 reads its 8-byte header, leaving the cursor at 12, eight bytes past its declared end at 4; cut at 4, the same file fails with OffsetOutOfBounds |
| `SceneFormat.ExampleHugeLayerCount` | src/App.js:16 | on any buffer a layer count of 2^32 fails with InvalidArrayLength, while 2^32 - 1 is accepted and fails on the table read when the buffer is shorter than the table |
| `SceneFormat.ExampleNegativeCount` | src/App.js:33-36 | a count of 0xFFFF (-1) aborts the decode with InvalidArrayLength |
| `SceneFormat.ExampleTooManyLayers` | src/App.js:16-26 | a buffer holding one layer decodes with `numLayers = 1`, and fails with OffsetOutOfBounds with `numLayers = 2` |
| `SceneDecoder.ReadSizeTable` | src/App.js:14-20 | the imperative size-table loop returns exactly the ReadSizes result: the table and the cursor, or the out-of-bounds error |
| `SceneDecoder.ReadLayer` | src/App.js:23-37 | the imperative header read plus run loop with its pushes returns exactly DecodeLayer's layer and cursor, or its error |
| `SceneDecoder.ComputeLayers` | src/App.js:14-39 | the imperative decoder, which rejects a layer count of 2^32 or more and then threads one cursor through all layers, returns exactly Decode(buf, numLayers) |
| `AppComponent.App.constructor` | src/App.js:8 | the component starts with no layers |
| `AppComponent.App.GetLayers` | src/App.js:12-43 | with no underlying buffer, it alerts and keeps `layers`; on a successful decode it stores the decoded list and does not alert; on a failed decode it alerts with the decode error and keeps `layers` unchanged |

## Left out

- React state, the `FileReader` upload handler, and the `<select>`/`<table>` rendering (`formatCell`, rows/columns arithmetic, src/App.js:46-85) are UI plumbing and are not modelled.
- The per-tile `color` (src/App.js:35) is not modelled. It comes from the external `string-hash` library and is presentation-only. Tiles are compared by their triple alone.
- `console.groupCollapsed`, `console.log` and `console.groupEnd` are output only and are not modelled. The `alert` is modelled as the `Alert` value that `GetLayers` returns. Its message text is not modelled.
- `numLayers` is a `nat` parameter. The `Number(...)` parsing of the input field is out of scope. So is the `RangeError` that `Array(numLayers)` raises for a negative or fractional value. The one for a value of 2^32 or more is modelled (`InvalidArrayLength`).
- `u8s` is modelled as exactly the bytes of its buffer. A typed array viewing only part of its `ArrayBuffer` at an offset is not modelled. `FileReader` yields whole buffers.
- `Array(n).fill(obj)` shares one tile object among all `n` entries. The model uses values, so sharing and aliasing are not represented.
- Cursor arithmetic uses unbounded integers. JavaScript's doubles are exact at every offset a buffer can have.
- Engine limits are not modelled: the argument limit of `push(...)` for very large runs, and the memory taken by a huge expansion.
- `GetLayers` reads `numLayers` as an argument, not as the component field. The model has no `setNumLayers`.
