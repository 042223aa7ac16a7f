/** The scene-file layout as the decoder reads it, written as functions that
    thread the byte cursor explicitly, and the lemmas that say what a
    successful decode contains, where each layer's header is read, and when a
    decode fails.

    Layout: `n` big-endian u32 layer sizes from offset 0 (`n` is supplied by
    the caller), then per layer an 8-byte header (u32 id, u32 z) followed by
    8-byte runs of four big-endian i16 fields (autotile index, tileset id,
    tile id, repeat count). The run loop of a layer continues while the
    cursor is below `start + size`; only the end of the buffer is ever
    checked, and the cursor is not realigned to `start + size` afterwards. */
module SceneFormat {
  import opened BigEndian

  /** One tile reference. Identity is the triple. */
  datatype Tile = Tile(autotileIdx: int, tilesetId: int, tileId: int)

  /** One decoded layer: its size-table entry, its header and its expanded tiles. */
  datatype Layer = Layer(size: nat, layerId: nat, layerZ: nat, tiles: seq<Tile>)

  /** The two ways a decode aborts: a DataView read past the end of the
      buffer, or `Array(n)` with an invalid length (a negative run count, or
      a layer count of 2^32 or more). Both are RangeErrors. */
  datatype DecodeError = OffsetOutOfBounds | InvalidArrayLength

  datatype Result<T> = Ok(value: T) | Err(error: DecodeError)

  /** A decoded value together with the cursor just after it. */
  datatype Parsed<T> = Parsed(value: T, cursor: nat)

  /** Puts `prefix` in front of a successful sequence result; errors pass through. */
  function Prepend<T>(prefix: seq<T>, r: Result<Parsed<seq<T>>>): Result<Parsed<seq<T>>>
  {
    match r
    case Err(e) => Err(e)
    case Ok(p) => Ok(Parsed(prefix + p.value, p.cursor))
  }

  /** Prepending nothing changes nothing. */
  lemma PrependNothing<T>(r: Result<Parsed<seq<T>>>)
    ensures Prepend([], r) == r
  {
    if r.Ok? {
      assert [] + r.value.value == r.value.value;
    }
  }

  /** Prepending twice is prepending the concatenation. */
  lemma PrependTwice<T>(a: seq<T>, b: seq<T>, r: Result<Parsed<seq<T>>>)
    ensures Prepend(a, Prepend(b, r)) == Prepend(a + b, r)
  {
    if r.Ok? {
      assert a + (b + r.value.value) == (a + b) + r.value.value;
    }
  }

  /** `Array(n).fill(t)`: `n` copies of `t`. */
  function Fill(t: Tile, n: nat): (r: seq<Tile>)
    ensures |r| == n
    ensures forall i :: 0 <= i < n ==> r[i] == t
  {
    if n == 0 then [] else [t] + Fill(t, n - 1)
  }

  // ---------------------------------------------------------------------
  // The decoder, one function per stage.
  // ---------------------------------------------------------------------

  /** The size table: `count` u32 values read one after another from `idx`. */
  function ReadSizes(buf: seq<bv8>, idx: nat, count: nat): (r: Result<Parsed<seq<nat>>>)
    ensures r.Ok? ==> |r.value.value| == count
    ensures r.Ok? ==> r.value.cursor == idx + 4 * count
    ensures r.Ok? && count > 0 ==> r.value.cursor <= |buf|
    ensures r.Err? ==> r.error == OffsetOutOfBounds
    decreases count
  {
    if count == 0 then Ok(Parsed([], idx))
    else if idx + 4 > |buf| then Err(OffsetOutOfBounds)
    else Prepend([U32(buf, idx)], ReadSizes(buf, idx + 4, count - 1))
  }

  /** The tile triple of the run whose first byte is at `off`. */
  function RunTile(buf: seq<bv8>, off: nat): (r: Tile)
    requires off + 6 <= |buf|
  {
    Tile(I16(buf, off), I16(buf, off + 2), I16(buf, off + 4))
  }

  /** The repeat count of the run whose first byte is at `off`. */
  function RunLength(buf: seq<bv8>, off: nat): (r: int)
    requires off + 8 <= |buf|
  {
    I16(buf, off + 6)
  }

  /** The four fields of a run are the two's-complement readings of the
      big-endian 16-bit words at offsets +0, +2, +4 and +6, and the count is
      negative exactly when the top bit of byte +6 is set. */
  lemma RunFieldsRead(buf: seq<bv8>, off: nat)
    requires off + 8 <= |buf|
    ensures RunTile(buf, off).autotileIdx % 0x1_0000 == U16(buf, off)
    ensures RunTile(buf, off).tilesetId % 0x1_0000 == U16(buf, off + 2)
    ensures RunTile(buf, off).tileId % 0x1_0000 == U16(buf, off + 4)
    ensures RunLength(buf, off) % 0x1_0000 == U16(buf, off + 6)
    ensures RunLength(buf, off) < 0 <==> buf[off + 6] as nat >= 0x80
  {
    I16Sign(buf, off + 6);
  }

  /** The run loop of one layer: while the cursor is below `layerEnd`, read
      one 8-byte run, expand it and advance by 8. */
  function DecodeRuns(buf: seq<bv8>, idx: nat, layerEnd: nat): (r: Result<Parsed<seq<Tile>>>)
    ensures r.Ok? ==> idx <= r.value.cursor
    ensures r.Ok? && idx < layerEnd ==> r.value.cursor <= |buf|
    decreases layerEnd - idx
  {
    if idx >= layerEnd then Ok(Parsed([], idx))
    else if idx + 8 > |buf| then Err(OffsetOutOfBounds)
    else if RunLength(buf, idx) < 0 then Err(InvalidArrayLength)
    else Prepend(Fill(RunTile(buf, idx), RunLength(buf, idx)), DecodeRuns(buf, idx + 8, layerEnd))
  }

  /** One layer whose header starts at `start` and whose size-table entry is
      `size`: the header, then the run loop up to `start + size`. */
  function DecodeLayer(buf: seq<bv8>, start: nat, size: nat): (r: Result<Parsed<Layer>>)
    ensures r.Ok? ==> start + 8 <= r.value.cursor <= |buf|
  {
    if start + 8 > |buf| then Err(OffsetOutOfBounds)
    else
      match DecodeRuns(buf, start + 8, start + size)
      case Err(e) => Err(e)
      case Ok(runs) => Ok(Parsed(Layer(size, U32(buf, start), U32(buf, start + 4), runs.value), runs.cursor))
  }

  /** The layers in size-table order, each header read where the previous
      layer's run loop left the cursor. */
  function DecodeLayers(buf: seq<bv8>, idx: nat, sizes: seq<nat>): (r: Result<Parsed<seq<Layer>>>)
    ensures r.Ok? ==> idx <= r.value.cursor
    ensures r.Ok? && sizes != [] ==> r.value.cursor <= |buf|
    ensures r.Ok? ==> |r.value.value| == |sizes|
    decreases |sizes|
  {
    if sizes == [] then Ok(Parsed([], idx))
    else
      match DecodeLayer(buf, idx, sizes[0])
      case Err(e) => Err(e)
      case Ok(first) => Prepend([first.value], DecodeLayers(buf, first.cursor, sizes[1..]))
  }

  /** `Array(n)` accepts only lengths below 2^32; any other `n` is a
      RangeError. */
  const MaxArrayLength: nat := 0x1_0000_0000

  /** The whole decode with its final cursor: `Array(numLayers)` first, then
      the size table, then the layers. */
  function DecodeFrom(buf: seq<bv8>, numLayers: nat): (r: Result<Parsed<seq<Layer>>>)
    ensures r.Ok? ==> numLayers < MaxArrayLength && r.value.cursor <= |buf| && |r.value.value| == numLayers
    ensures numLayers >= MaxArrayLength ==> r == Err(InvalidArrayLength)
  {
    if numLayers >= MaxArrayLength then Err(InvalidArrayLength)
    else
      match ReadSizes(buf, 0, numLayers)
      case Err(e) => Err(e)
      case Ok(table) => DecodeLayers(buf, table.cursor, table.value)
  }

  /** The result of `getLayers`: the layer list, or the error that aborted it. */
  function Decode(buf: seq<bv8>, numLayers: nat): (r: Result<seq<Layer>>)
    ensures r.Ok? ==> numLayers < MaxArrayLength && 4 * numLayers <= |buf| && |r.value| == numLayers
    ensures r.Err? ==> DecodeFrom(buf, numLayers) == Err(r.error)
  {
    match DecodeFrom(buf, numLayers)
    case Err(e) => Err(e)
    case Ok(p) => Ok(p.value)
  }

  // ---------------------------------------------------------------------
  // Reference definitions: where things are in the buffer.
  // ---------------------------------------------------------------------

  /** The big-endian u32 size values at offsets 0, 4, ..., 4 * (n - 1). */
  function SizeTable(buf: seq<bv8>, n: nat): (r: seq<nat>)
    requires 4 * n <= |buf|
  {
    seq(n, k requires 0 <= k < n => U32(buf, 4 * k))
  }

  /** How many iterations the run loop makes from `idx` while below
      `layerEnd`: ceil((layerEnd - idx) / 8), or none. */
  function RunCount(idx: nat, layerEnd: nat): nat
  {
    if idx >= layerEnd then 0 else (layerEnd - idx + 7) / 8
  }

  /** The tile of the `j`-th run of a loop starting at `idx`. */
  function NthTile(buf: seq<bv8>, idx: nat, j: nat): Tile
    requires idx + 8 * j + 8 <= |buf|
  {
    RunTile(buf, idx + 8 * j)
  }

  /** The count of the `j`-th run of a loop starting at `idx`. */
  function NthLength(buf: seq<bv8>, idx: nat, j: nat): int
    requires idx + 8 * j + 8 <= |buf|
  {
    RunLength(buf, idx + 8 * j)
  }

  /** The sum of the counts of the first `j` runs from `idx`. */
  ghost function TileTotal(buf: seq<bv8>, idx: nat, j: nat): int
    requires j == 0 || idx + 8 * j <= |buf|
  {
    if j == 0 then 0 else TileTotal(buf, idx, j - 1) + NthLength(buf, idx, j - 1)
  }

  /** Where the cursor stands after a layer whose header is at `start`: the
      header plus every 8-byte run the loop reads. */
  function NextHeader(start: nat, size: nat): nat
  {
    start + 8 + 8 * RunCount(start + 8, start + size)
  }

  /** The offset of the header of layer `k`, the first one being at `idx`. */
  function HeaderAt(idx: nat, sizes: seq<nat>, k: nat): nat
    requires k <= |sizes|
  {
    if k == 0 then idx else NextHeader(HeaderAt(idx, sizes, k - 1), sizes[k - 1])
  }

  /** `a` and `b` hold the same first `e` bytes. */
  ghost predicate Agree(a: seq<bv8>, b: seq<bv8>, e: nat)
  {
    e <= |a| && e <= |b| && forall i :: 0 <= i < e ==> a[i] == b[i]
  }

  // ---------------------------------------------------------------------
  // The size table.
  // ---------------------------------------------------------------------

  /** Reading `count` sizes from `idx` succeeds exactly when they fit in the
      buffer, and then entry k is the u32 at `idx + 4k`. */
  lemma {:induction false} ReadSizesSpec(buf: seq<bv8>, idx: nat, count: nat)
    ensures ReadSizes(buf, idx, count).Ok? <==> count == 0 || idx + 4 * count <= |buf|
    ensures ReadSizes(buf, idx, count).Ok? ==>
      var t := ReadSizes(buf, idx, count).value.value;
      |t| == count && forall k :: 0 <= k < count ==> idx + 4 * k + 4 <= |buf| && t[k] == U32(buf, idx + 4 * k)
    decreases count
  {
    if count > 0 && idx + 4 <= |buf| {
      ReadSizesSpec(buf, idx + 4, count - 1);
      var r := ReadSizes(buf, idx + 4, count - 1);
      if r.Ok? {
        var t := ReadSizes(buf, idx, count).value.value;
        assert t == [U32(buf, idx)] + r.value.value;
        forall k | 0 <= k < count
          ensures idx + 4 * k + 4 <= |buf| && t[k] == U32(buf, idx + 4 * k)
        {
          if k > 0 {
            assert t[k] == r.value.value[k - 1];
            assert (idx + 4) + 4 * (k - 1) == idx + 4 * k;
          }
        }
      }
    }
  }

  // ---------------------------------------------------------------------
  // The run loop.
  // ---------------------------------------------------------------------

  /** Splitting the first run off the totals. */
  lemma {:induction false} TileTotalShift(buf: seq<bv8>, idx: nat, j: nat)
    requires idx + 8 * (j + 1) <= |buf|
    ensures TileTotal(buf, idx, j + 1) == NthLength(buf, idx, 0) + TileTotal(buf, idx + 8, j)
    decreases j
  {
    if j > 0 {
      TileTotalShift(buf, idx, j - 1);
      assert NthLength(buf, idx, j) == NthLength(buf, idx + 8, j - 1);
    }
  }

  /** The loop makes one more iteration from `idx` than from `idx + 8`
      whenever `idx` is below the end. */
  lemma RunCountStep(idx: nat, layerEnd: nat)
    requires idx < layerEnd
    ensures RunCount(idx, layerEnd) == RunCount(idx + 8, layerEnd) + 1
  {
  }

  /** Every run the loop reads from `idx` in `n` iterations lies inside the buffer. */
  ghost predicate RunsFit(buf: seq<bv8>, idx: nat, n: nat)
  {
    n == 0 || idx + 8 * n <= |buf|
  }

  /** None of the first `n` runs from `idx` has a negative count. */
  ghost predicate CountsNonNegative(buf: seq<bv8>, idx: nat, n: nat)
    requires RunsFit(buf, idx, n)
  {
    forall j :: 0 <= j < n ==> NthLength(buf, idx, j) >= 0
  }

  /** Run j + 1 from `idx` is run j from `idx + 8`. */
  lemma NthShift(buf: seq<bv8>, idx: nat, j: nat)
    requires idx + 8 * j + 16 <= |buf|
    ensures NthLength(buf, idx, j + 1) == NthLength(buf, idx + 8, j)
    ensures NthTile(buf, idx, j + 1) == NthTile(buf, idx + 8, j)
  {
  }

  lemma CountsNonNegativeShift(buf: seq<bv8>, idx: nat, n: nat)
    requires 0 < n && idx + 8 * n <= |buf|
    ensures CountsNonNegative(buf, idx, n) <==>
      RunLength(buf, idx) >= 0 && CountsNonNegative(buf, idx + 8, n - 1)
  {
    var next := idx + 8;
    assert NthLength(buf, idx, 0) == RunLength(buf, idx);
    if CountsNonNegative(buf, idx, n) {
      forall j | 0 <= j < n - 1
        ensures NthLength(buf, next, j) >= 0
      {
        NthShift(buf, idx, j);
      }
    }
    if RunLength(buf, idx) >= 0 && CountsNonNegative(buf, next, n - 1) {
      forall j | 0 <= j < n
        ensures NthLength(buf, idx, j) >= 0
      {
        if j > 0 {
          NthShift(buf, idx, j - 1);
        }
      }
    }
  }

  /** The run loop succeeds exactly when every run it reaches lies inside the
      buffer and has a non-negative count. */
  lemma {:induction false} DecodeRunsOk(buf: seq<bv8>, idx: nat, layerEnd: nat)
    ensures var n := RunCount(idx, layerEnd);
      DecodeRuns(buf, idx, layerEnd).Ok? <==> RunsFit(buf, idx, n) && CountsNonNegative(buf, idx, n)
    decreases layerEnd - idx
  {
    var n := RunCount(idx, layerEnd);
    if idx < layerEnd {
      RunCountStep(idx, layerEnd);
      if idx + 8 <= |buf| {
        DecodeRunsOk(buf, idx + 8, layerEnd);
        if RunsFit(buf, idx, n) {
          CountsNonNegativeShift(buf, idx, n);
        }
      }
    }
  }

  /** A successful run loop reads exactly RunCount(idx, layerEnd) runs of 8
      bytes, each inside the buffer, and produces as many tiles as the sum of
      their counts. */
  lemma {:induction false} DecodeRunsShape(buf: seq<bv8>, idx: nat, layerEnd: nat)
    requires DecodeRuns(buf, idx, layerEnd).Ok?
    ensures var n := RunCount(idx, layerEnd);
      var p := DecodeRuns(buf, idx, layerEnd).value;
      p.cursor == idx + 8 * n && RunsFit(buf, idx, n) && |p.value| == TileTotal(buf, idx, n)
    decreases layerEnd - idx
  {
    if idx < layerEnd {
      RunCountStep(idx, layerEnd);
      DecodeRunsShape(buf, idx + 8, layerEnd);
      TileTotalShift(buf, idx, RunCount(idx + 8, layerEnd));
    }
  }

  /** Every run a successful loop reads is inside the buffer and has a
      non-negative count. */
  lemma RunInBounds(buf: seq<bv8>, idx: nat, layerEnd: nat, j: nat)
    requires DecodeRuns(buf, idx, layerEnd).Ok?
    requires j < RunCount(idx, layerEnd)
    ensures idx + 8 * j + 8 <= |buf| && NthLength(buf, idx, j) >= 0
  {
    DecodeRunsOk(buf, idx, layerEnd);
    DecodeRunsShape(buf, idx, layerEnd);
  }

  /** Run j of the loop from `idx` sits between the totals of the first j and
      the first j + 1 counts and is `count` copies of its tile. */
  ghost predicate RunPlaced(buf: seq<bv8>, idx: nat, layerEnd: nat, j: nat)
    requires DecodeRuns(buf, idx, layerEnd).Ok?
    requires idx + 8 * j + 8 <= |buf| && NthLength(buf, idx, j) >= 0
  {
    var tiles := DecodeRuns(buf, idx, layerEnd).value.value;
    0 <= TileTotal(buf, idx, j) <= TileTotal(buf, idx, j + 1) <= |tiles| &&
    tiles[TileTotal(buf, idx, j)..TileTotal(buf, idx, j + 1)] == Fill(NthTile(buf, idx, j), NthLength(buf, idx, j))
  }

  /** The j-th run read by the loop occupies the tiles between the totals of
      the first j and the first j + 1 runs, and is its count of copies of its
      tile; a run with count 0 contributes nothing. */
  lemma {:induction false} DecodeRunsExpand(buf: seq<bv8>, idx: nat, layerEnd: nat, j: nat)
    requires DecodeRuns(buf, idx, layerEnd).Ok?
    requires j < RunCount(idx, layerEnd)
    ensures idx + 8 * j + 8 <= |buf| && NthLength(buf, idx, j) >= 0
    ensures var tiles := DecodeRuns(buf, idx, layerEnd).value.value;
      0 <= TileTotal(buf, idx, j) <= TileTotal(buf, idx, j + 1) <= |tiles| &&
      tiles[TileTotal(buf, idx, j)..TileTotal(buf, idx, j + 1)] == Fill(NthTile(buf, idx, j), NthLength(buf, idx, j))
  {
    RunInBounds(buf, idx, layerEnd, j);
    RunPlacedHolds(buf, idx, layerEnd, j);
  }

  lemma {:induction false} RunPlacedHolds(buf: seq<bv8>, idx: nat, layerEnd: nat, j: nat)
    requires DecodeRuns(buf, idx, layerEnd).Ok?
    requires j < RunCount(idx, layerEnd)
    requires idx + 8 * j + 8 <= |buf| && NthLength(buf, idx, j) >= 0
    ensures RunPlaced(buf, idx, layerEnd, j)
    decreases j
  {
    RunCountStep(idx, layerEnd);
    if j == 0 {
      FirstRunPlaced(buf, idx, layerEnd);
    } else {
      RunInBounds(buf, idx + 8, layerEnd, j - 1);
      RunPlacedHolds(buf, idx + 8, layerEnd, j - 1);
      RunPlacedShift(buf, idx, layerEnd, j);
    }
  }

  lemma FirstRunPlaced(buf: seq<bv8>, idx: nat, layerEnd: nat)
    requires DecodeRuns(buf, idx, layerEnd).Ok? && idx < layerEnd
    ensures idx + 8 <= |buf| && NthLength(buf, idx, 0) >= 0
    ensures RunPlaced(buf, idx, layerEnd, 0)
  {
    var c := RunLength(buf, idx);
    var head := Fill(RunTile(buf, idx), c);
    var rest := DecodeRuns(buf, idx + 8, layerEnd).value.value;
    assert DecodeRuns(buf, idx, layerEnd).value.value == head + rest;
    assert NthTile(buf, idx, 0) == RunTile(buf, idx) && NthLength(buf, idx, 0) == c;
    assert TileTotal(buf, idx, 1) == c;
    assert (head + rest)[..c] == head;
  }

  lemma RunPlacedShift(buf: seq<bv8>, idx: nat, layerEnd: nat, j: nat)
    requires DecodeRuns(buf, idx, layerEnd).Ok? && idx < layerEnd
    requires 0 < j && idx + 8 * j + 8 <= |buf| && NthLength(buf, idx, j) >= 0
    requires DecodeRuns(buf, idx + 8, layerEnd).Ok?
    requires (idx + 8) + 8 * (j - 1) + 8 <= |buf| && NthLength(buf, idx + 8, j - 1) >= 0
    requires RunPlaced(buf, idx + 8, layerEnd, j - 1)
    ensures RunPlaced(buf, idx, layerEnd, j)
  {
    var c := RunLength(buf, idx);
    var head := Fill(RunTile(buf, idx), c);
    var rest := DecodeRuns(buf, idx + 8, layerEnd).value.value;
    assert DecodeRuns(buf, idx, layerEnd).value.value == head + rest;
    var lo, hi := TileTotal(buf, idx + 8, j - 1), TileTotal(buf, idx + 8, j);
    assert TileTotal(buf, idx, j) == c + lo && TileTotal(buf, idx, j + 1) == c + hi by {
      TileTotalShift(buf, idx, j - 1);
      TileTotalShift(buf, idx, j);
    }
    NthShift(buf, idx, j - 1);
    SliceAfter(head, rest, lo, hi);
  }

  /** Slicing past a prefix. */
  lemma SliceAfter<T>(head: seq<T>, rest: seq<T>, lo: nat, hi: nat)
    requires lo <= hi <= |rest|
    ensures (head + rest)[|head| + lo..|head| + hi] == rest[lo..hi]
  {
  }

  // ---------------------------------------------------------------------
  // One layer.
  // ---------------------------------------------------------------------

  /** Where the next header is read, in closed form. A layer of size at most
      8 has no runs and leaves the cursor just past its header. Otherwise the
      cursor lands on `start + size` exactly when the size is a multiple of
      8, and overshoots it by `8 - size % 8` bytes when it is not. */
  lemma NextHeaderSpec(start: nat, size: nat)
    ensures size <= 8 ==> NextHeader(start, size) == start + 8
    ensures size >= 8 ==> NextHeader(start, size) == start + 8 + 8 * ((size - 8 + 7) / 8)
    ensures size >= 8 && size % 8 == 0 ==> NextHeader(start, size) == start + size
    ensures size >= 8 && size % 8 != 0 ==> NextHeader(start, size) == start + size + (8 - size % 8)
  {
  }

  /** A layer decodes exactly when its header and every run the loop reaches
      lie inside the buffer and no count is negative. */
  lemma DecodeLayerOk(buf: seq<bv8>, start: nat, size: nat)
    ensures var n := RunCount(start + 8, start + size);
      DecodeLayer(buf, start, size).Ok? <==>
        start + 8 <= |buf| && RunsFit(buf, start + 8, n) && CountsNonNegative(buf, start + 8, n)
  {
    DecodeRunsOk(buf, start + 8, start + size);
  }

  /** A decoded layer carries its size, the u32 id at `start` and the u32 z
      at `start + 4`, as many tiles as the sum of its run counts (none when
      `size <= 8`), and leaves the cursor at NextHeader(start, size). */
  lemma DecodeLayerFields(buf: seq<bv8>, start: nat, size: nat)
    requires DecodeLayer(buf, start, size).Ok?
    ensures start + 8 <= |buf| && DecodeRuns(buf, start + 8, start + size).Ok?
    ensures RunsFit(buf, start + 8, RunCount(start + 8, start + size))
    ensures var p := DecodeLayer(buf, start, size).value;
      p.value.size == size &&
      p.value.layerId == U32(buf, start) && p.value.layerZ == U32(buf, start + 4) &&
      p.value.tiles == DecodeRuns(buf, start + 8, start + size).value.value &&
      |p.value.tiles| == TileTotal(buf, start + 8, RunCount(start + 8, start + size)) &&
      (size <= 8 ==> p.value.tiles == []) &&
      p.cursor == NextHeader(start, size)
  {
    DecodeRunsShape(buf, start + 8, start + size);
  }

  // ---------------------------------------------------------------------
  // The sequence of layers.
  // ---------------------------------------------------------------------

  /** Header positions seen from the second layer on. */
  lemma {:induction false} HeaderAtShift(idx: nat, sizes: seq<nat>, k: nat)
    requires 0 < |sizes| && k < |sizes|
    ensures HeaderAt(idx, sizes, k + 1) == HeaderAt(NextHeader(idx, sizes[0]), sizes[1..], k)
    decreases k
  {
    if k > 0 {
      HeaderAtShift(idx, sizes, k - 1);
    }
  }

  /** A successful decode of the layers has one layer per size and leaves
      the cursor after the last layer's run loop. */
  lemma {:induction false} DecodeLayersShape(buf: seq<bv8>, idx: nat, sizes: seq<nat>)
    requires DecodeLayers(buf, idx, sizes).Ok?
    ensures |DecodeLayers(buf, idx, sizes).value.value| == |sizes|
    ensures DecodeLayers(buf, idx, sizes).value.cursor == HeaderAt(idx, sizes, |sizes|)
    decreases |sizes|
  {
    if sizes != [] {
      DecodeLayerFields(buf, idx, sizes[0]);
      var next := DecodeLayer(buf, idx, sizes[0]).value.cursor;
      DecodeLayersShape(buf, next, sizes[1..]);
      HeaderAtShift(idx, sizes, |sizes| - 1);
    }
  }

  /** In a successful decode of the layers, layer k is what DecodeLayer reads
      at HeaderAt(idx, sizes, k) with size `sizes[k]`, and that read leaves
      the cursor at the header of layer k + 1. */
  lemma {:induction false} DecodeLayersAt(buf: seq<bv8>, idx: nat, sizes: seq<nat>, k: nat)
    requires DecodeLayers(buf, idx, sizes).Ok?
    requires k < |sizes|
    ensures |DecodeLayers(buf, idx, sizes).value.value| == |sizes|
    ensures DecodeLayer(buf, HeaderAt(idx, sizes, k), sizes[k]) ==
      Ok(Parsed(DecodeLayers(buf, idx, sizes).value.value[k], HeaderAt(idx, sizes, k + 1)))
    decreases k
  {
    DecodeLayersShape(buf, idx, sizes);
    DecodeLayerFields(buf, idx, sizes[0]);
    var next := DecodeLayer(buf, idx, sizes[0]).value.cursor;
    var tail := sizes[1..];
    var layers := DecodeLayers(buf, idx, sizes).value.value;
    assert layers == [DecodeLayer(buf, idx, sizes[0]).value.value] + DecodeLayers(buf, next, tail).value.value;
    if k > 0 {
      DecodeLayersAt(buf, next, tail, k - 1);
      HeaderAtShift(idx, sizes, k - 1);
      HeaderAtShift(idx, sizes, k);
      assert sizes[k] == tail[k - 1];
      assert layers[k] == DecodeLayers(buf, next, tail).value.value[k - 1];
    }
  }

  /** A failed decode of the layers fails with the error of the first layer
      that does not decode at its header offset; every layer before it
      decodes. */
  lemma {:induction false} DecodeLayersFails(buf: seq<bv8>, idx: nat, sizes: seq<nat>)
    requires DecodeLayers(buf, idx, sizes).Err?
    ensures
      exists k :: 0 <= k < |sizes| &&
        (DecodeLayer(buf, HeaderAt(idx, sizes, k), sizes[k]) == Err(DecodeLayers(buf, idx, sizes).error) &&
         forall i :: 0 <= i < k ==> DecodeLayer(buf, HeaderAt(idx, sizes, i), sizes[i]).Ok?)
    decreases |sizes|
  {
    var e := DecodeLayers(buf, idx, sizes).error;
    var first := DecodeLayer(buf, idx, sizes[0]);
    if first.Err? {
      assert DecodeLayer(buf, HeaderAt(idx, sizes, 0), sizes[0]) == Err(e);
    } else {
      DecodeLayerFields(buf, idx, sizes[0]);
      var next := first.value.cursor;
      var tail := sizes[1..];
      DecodeLayersFails(buf, next, tail);
      var k :| 0 <= k < |tail| &&
        DecodeLayer(buf, HeaderAt(next, tail, k), tail[k]) == Err(e) &&
        forall i :: 0 <= i < k ==> DecodeLayer(buf, HeaderAt(next, tail, i), tail[i]).Ok?;
      HeaderAtShift(idx, sizes, k);
      assert sizes[k + 1] == tail[k];
      forall i | 0 <= i < k + 1
        ensures DecodeLayer(buf, HeaderAt(idx, sizes, i), sizes[i]).Ok?
      {
        if i > 0 {
          HeaderAtShift(idx, sizes, i - 1);
          assert sizes[i] == tail[i - 1];
        }
      }
    }
  }

  // ---------------------------------------------------------------------
  // The whole decode.
  // ---------------------------------------------------------------------

  /** The size table of a buffer long enough to hold it; with an accepted
      layer count the layers are decoded right after it. */
  lemma SizeTableRead(buf: seq<bv8>, numLayers: nat)
    requires 4 * numLayers <= |buf|
    ensures ReadSizes(buf, 0, numLayers) == Ok(Parsed(SizeTable(buf, numLayers), 4 * numLayers))
    ensures numLayers < MaxArrayLength ==>
      DecodeFrom(buf, numLayers) == DecodeLayers(buf, 4 * numLayers, SizeTable(buf, numLayers))
  {
    ReadSizesSpec(buf, 0, numLayers);
    var t := ReadSizes(buf, 0, numLayers).value.value;
    assert t == SizeTable(buf, numLayers);
  }

  /** Layer k of a successful decode, stated by offset: its size is the u32
      at `4k`; with h = HeaderAt(4 * numLayers, table, k) the offset of its
      header (the first one right after the table), its id is the u32 at h,
      its z the u32 at h + 4, its tiles are the run loop from h + 8 up to
      h + size, and the next header is at NextHeader(h, size). */
  lemma DecodedLayerAt(buf: seq<bv8>, numLayers: nat, k: nat)
    requires Decode(buf, numLayers).Ok?
    requires k < numLayers
    ensures 4 * numLayers <= |buf| && |Decode(buf, numLayers).value| == numLayers
    ensures Decode(buf, numLayers).value[k].size == SizeTable(buf, numLayers)[k] == U32(buf, 4 * k)
    ensures LayerAtHeader(buf, HeaderAt(4 * numLayers, SizeTable(buf, numLayers), k),
                          Decode(buf, numLayers).value[k],
                          HeaderAt(4 * numLayers, SizeTable(buf, numLayers), k + 1))
  {
    DecodedLayerRead(buf, numLayers, k);
    var sizes := SizeTable(buf, numLayers);
    LayerFieldsOf(buf, HeaderAt(4 * numLayers, sizes, k), sizes[k],
                  Decode(buf, numLayers).value[k], HeaderAt(4 * numLayers, sizes, k + 1));
  }

  /** `layer` is what the header at `h` and the run loop after it read, and
      the next header is at `next`: the u32 id at `h`, the u32 z at `h + 4`,
      the run loop's tiles from `h + 8` up to `h + size`, `next` the
      NextHeader of `h` and the size. */
  ghost predicate LayerAtHeader(buf: seq<bv8>, h: nat, layer: Layer, next: nat)
  {
    h + 8 <= |buf| && DecodeRuns(buf, h + 8, h + layer.size).Ok? &&
    layer.layerId == U32(buf, h) && layer.layerZ == U32(buf, h + 4) &&
    layer.tiles == DecodeRuns(buf, h + 8, h + layer.size).value.value &&
    next == NextHeader(h, layer.size)
  }

  /** Layer k of a successful decode is what one layer decode reads at its
      header position, and that read ends at the next header position. */
  lemma DecodedLayerRead(buf: seq<bv8>, numLayers: nat, k: nat)
    requires Decode(buf, numLayers).Ok?
    requires k < numLayers
    ensures 4 * numLayers <= |buf| && |Decode(buf, numLayers).value| == numLayers
    ensures var sizes := SizeTable(buf, numLayers);
      DecodeLayer(buf, HeaderAt(4 * numLayers, sizes, k), sizes[k]) ==
        Ok(Parsed(Decode(buf, numLayers).value[k], HeaderAt(4 * numLayers, sizes, k + 1)))
  {
    SizeTableRead(buf, numLayers);
    DecodeLayersAt(buf, 4 * numLayers, SizeTable(buf, numLayers), k);
  }

  /** DecodeLayerFields for a decode whose result is already named; going
      through the named layer and cursor keeps DecodedLayerAt's proof small. */
  lemma LayerFieldsOf(buf: seq<bv8>, h: nat, size: nat, layer: Layer, next: nat)
    requires DecodeLayer(buf, h, size) == Ok(Parsed(layer, next))
    ensures layer.size == size && LayerAtHeader(buf, h, layer, next)
  {
    DecodeLayerFields(buf, h, size);
  }

  /** A failed decode either rejected the layer count, or could not read
      the size table, or fails with the error of the first layer that does
      not decode at its header offset, every earlier layer decoding. */
  lemma DecodeFails(buf: seq<bv8>, numLayers: nat)
    requires Decode(buf, numLayers).Err?
    ensures numLayers >= MaxArrayLength ==> Decode(buf, numLayers).error == InvalidArrayLength
    ensures numLayers < MaxArrayLength && 4 * numLayers > |buf| ==> Decode(buf, numLayers).error == OffsetOutOfBounds
    ensures numLayers < MaxArrayLength && 4 * numLayers <= |buf| ==>
      var sizes := SizeTable(buf, numLayers);
      exists k :: 0 <= k < numLayers &&
        (DecodeLayer(buf, HeaderAt(4 * numLayers, sizes, k), sizes[k]) == Err(Decode(buf, numLayers).error) &&
         forall i :: 0 <= i < k ==> DecodeLayer(buf, HeaderAt(4 * numLayers, sizes, i), sizes[i]).Ok?)
  {
    ReadSizesSpec(buf, 0, numLayers);
    if numLayers < MaxArrayLength && 4 * numLayers <= |buf| {
      SizeTableRead(buf, numLayers);
      DecodeLayersFails(buf, 4 * numLayers, SizeTable(buf, numLayers));
    }
  }

  /** Both directions together: a decode succeeds exactly when the layer
      count is an accepted array length, the size table fits in the buffer
      and every layer decodes at its header offset. */
  lemma DecodeOk(buf: seq<bv8>, numLayers: nat)
    ensures Decode(buf, numLayers).Ok? <==>
      numLayers < MaxArrayLength && 4 * numLayers <= |buf| &&
      forall k :: 0 <= k < numLayers ==>
        DecodeLayer(buf, HeaderAt(4 * numLayers, SizeTable(buf, numLayers), k), SizeTable(buf, numLayers)[k]).Ok?
  {
    if Decode(buf, numLayers).Ok? {
      SizeTableRead(buf, numLayers);
      var sizes := SizeTable(buf, numLayers);
      forall k | 0 <= k < numLayers
        ensures DecodeLayer(buf, HeaderAt(4 * numLayers, sizes, k), sizes[k]).Ok?
      {
        DecodeLayersAt(buf, 4 * numLayers, sizes, k);
      }
    } else {
      DecodeFails(buf, numLayers);
    }
  }

  // ---------------------------------------------------------------------
  // Only the bytes before the final cursor are read.
  // ---------------------------------------------------------------------

  lemma {:induction false} DecodeRunsFrame(a: seq<bv8>, b: seq<bv8>, idx: nat, layerEnd: nat)
    requires DecodeRuns(a, idx, layerEnd).Ok?
    requires Agree(a, b, DecodeRuns(a, idx, layerEnd).value.cursor) || idx >= layerEnd
    ensures DecodeRuns(b, idx, layerEnd) == DecodeRuns(a, idx, layerEnd)
    decreases layerEnd - idx
  {
    if idx < layerEnd {
      RunFrame(a, b, idx, DecodeRuns(a, idx, layerEnd).value.cursor);
      DecodeRunsFrame(a, b, idx + 8, layerEnd);
    }
  }

  /** A run inside the first `e` bytes of two agreeing buffers reads the same. */
  lemma RunFrame(a: seq<bv8>, b: seq<bv8>, off: nat, e: nat)
    requires Agree(a, b, e) && off + 8 <= e
    ensures RunTile(a, off) == RunTile(b, off) && RunLength(a, off) == RunLength(b, off)
  {
    assert a[off..off + 8] == b[off..off + 8];
    assert forall i :: off <= i < off + 8 ==> a[i] == a[off..off + 8][i - off];
  }

  lemma DecodeLayerFrame(a: seq<bv8>, b: seq<bv8>, start: nat, size: nat)
    requires DecodeLayer(a, start, size).Ok?
    requires Agree(a, b, DecodeLayer(a, start, size).value.cursor)
    ensures DecodeLayer(b, start, size) == DecodeLayer(a, start, size)
  {
    DecodeRunsFrame(a, b, start + 8, start + size);
    assert U32(a, start) == U32(b, start) && U32(a, start + 4) == U32(b, start + 4);
  }

  lemma {:induction false} DecodeLayersFrame(a: seq<bv8>, b: seq<bv8>, idx: nat, sizes: seq<nat>)
    requires DecodeLayers(a, idx, sizes).Ok?
    requires Agree(a, b, DecodeLayers(a, idx, sizes).value.cursor) || sizes == []
    ensures DecodeLayers(b, idx, sizes) == DecodeLayers(a, idx, sizes)
    decreases |sizes|
  {
    if sizes != [] {
      DecodeLayerFrame(a, b, idx, sizes[0]);
      DecodeLayersFrame(a, b, DecodeLayer(a, idx, sizes[0]).value.cursor, sizes[1..]);
    }
  }

  lemma {:induction false} ReadSizesFrame(a: seq<bv8>, b: seq<bv8>, idx: nat, count: nat)
    requires ReadSizes(a, idx, count).Ok?
    requires Agree(a, b, idx + 4 * count)
    ensures ReadSizes(b, idx, count) == ReadSizes(a, idx, count)
    decreases count
  {
    if count > 0 {
      assert U32(a, idx) == U32(b, idx);
      ReadSizesFrame(a, b, idx + 4, count - 1);
    }
  }

  /** A successful decode depends only on the bytes before its final
      cursor: any buffer holding the same bytes there decodes the same. */
  lemma DecodeFrame(a: seq<bv8>, b: seq<bv8>, numLayers: nat)
    requires DecodeFrom(a, numLayers).Ok?
    requires Agree(a, b, DecodeFrom(a, numLayers).value.cursor)
    ensures Decode(b, numLayers) == Decode(a, numLayers)
  {
    var table := ReadSizes(a, 0, numLayers);
    ReadSizesFrame(a, b, 0, numLayers);
    DecodeLayersFrame(a, b, table.value.cursor, table.value.value);
  }

  /** Bytes after the final cursor are never read: appending any bytes to a
      buffer that decodes leaves the result unchanged. That cursor is the
      last layer's NextHeader, up to 8 bytes past its declared end: 8 - size
      for a size below 8, 8 - size % 8 for a larger size that is not a
      multiple of 8. */
  lemma TrailingBytesIgnored(buf: seq<bv8>, extra: seq<bv8>, numLayers: nat)
    requires Decode(buf, numLayers).Ok?
    ensures Decode(buf + extra, numLayers) == Decode(buf, numLayers)
  {
    DecodeFrame(buf, buf + extra, numLayers);
  }

  /** Cutting a buffer that decodes right after its final cursor leaves the
      result unchanged. */
  lemma ConsumedPrefixSuffices(buf: seq<bv8>, numLayers: nat)
    requires DecodeFrom(buf, numLayers).Ok?
    ensures Decode(buf[..DecodeFrom(buf, numLayers).value.cursor], numLayers) == Decode(buf, numLayers)
  {
    DecodeFrame(buf, buf[..DecodeFrom(buf, numLayers).value.cursor], numLayers);
  }
  // ---------------------------------------------------------------------
  // Worked examples.
  // ---------------------------------------------------------------------

  /** One layer of size 16 (id 7, z 3) holding one run (1, 2, 3) x 5
      decodes to five copies of that tile. */
  lemma ExampleOneRun()
    ensures var buf: seq<bv8> := [0, 0, 0, 16,  0, 0, 0, 7,  0, 0, 0, 3,  0, 1, 0, 2, 0, 3, 0, 5];
      Decode(buf, 1) == Ok([Layer(16, 7, 3, Fill(Tile(1, 2, 3), 5))])
  {
    var buf: seq<bv8> := [0, 0, 0, 16,  0, 0, 0, 7,  0, 0, 0, 3,  0, 1, 0, 2, 0, 3, 0, 5];
    var layer := Layer(16, 7, 3, Fill(Tile(1, 2, 3), 5));
    assert ReadSizes(buf, 4, 0) == Ok(Parsed([], 4));
    assert U32(buf, 0) == 16 && [16] + [] == [16];
    assert ReadSizes(buf, 0, 1) == Ok(Parsed([16], 4));
    assert RunTile(buf, 12) == Tile(1, 2, 3) && RunLength(buf, 12) == 5;
    assert DecodeRuns(buf, 20, 20) == Ok(Parsed([], 20));
    assert Fill(Tile(1, 2, 3), 5) + [] == Fill(Tile(1, 2, 3), 5);
    assert DecodeRuns(buf, 12, 20) == Ok(Parsed(Fill(Tile(1, 2, 3), 5), 20));
    assert DecodeLayer(buf, 4, 16) == Ok(Parsed(layer, 20));
    assert DecodeLayers(buf, 20, []) == Ok(Parsed([], 20));
    assert [16][1..] == [] && [layer] + [] == [layer];
    assert DecodeLayers(buf, 4, [16]) == Ok(Parsed([layer], 20));
  }

  /** Two layers declared with sizes 12 and 8: ids 1 and 9, z 0 and 4, the
      first holding one run (0, 0, 0) x 2. */
  const MisalignedScene: seq<bv8> := [0, 0, 0, 12,  0, 0, 0, 8,
                                      0, 0, 0, 1,  0, 0, 0, 0,   0, 0, 0, 0, 0, 0, 0, 2,
                                      0, 0, 0, 9,  0, 0, 0, 4]

  lemma MisalignedSceneTable()
    ensures ReadSizes(MisalignedScene, 0, 2) == Ok(Parsed([12, 8], 8))
  {
    var buf := MisalignedScene;
    assert U32(buf, 0) == 12 && U32(buf, 4) == 8;
    assert [8] + [] == [8] && [12] + [8] == [12, 8];
    assert ReadSizes(buf, 8, 0) == Ok(Parsed([], 8));
    assert ReadSizes(buf, 4, 1) == Ok(Parsed([8], 8));
  }

  lemma MisalignedSceneFirstLayer()
    ensures DecodeLayer(MisalignedScene, 8, 12) == Ok(Parsed(Layer(12, 1, 0, Fill(Tile(0, 0, 0), 2)), 24))
  {
    var buf := MisalignedScene;
    assert U32(buf, 8) == 1 && U32(buf, 12) == 0;
    MisalignedSceneFirstRuns();
  }

  lemma MisalignedSceneFirstRuns()
    ensures DecodeRuns(MisalignedScene, 16, 20) == Ok(Parsed(Fill(Tile(0, 0, 0), 2), 24))
  {
    var buf := MisalignedScene;
    assert Fill(Tile(0, 0, 0), 2) + [] == Fill(Tile(0, 0, 0), 2);
    assert RunTile(buf, 16) == Tile(0, 0, 0) && RunLength(buf, 16) == 2;
    assert DecodeRuns(buf, 24, 20) == Ok(Parsed([], 24));
    assert DecodeRuns(buf, 16, 20) == Ok(Parsed(Fill(Tile(0, 0, 0), 2), 24));
  }

  lemma MisalignedSceneSecondLayer()
    ensures DecodeLayer(MisalignedScene, 24, 8) == Ok(Parsed(Layer(8, 9, 4, []), 32))
  {
    var buf := MisalignedScene;
    assert U32(buf, 24) == 9 && U32(buf, 28) == 4;
    assert DecodeRuns(buf, 32, 32) == Ok(Parsed([], 32));
  }

  /** A size that is not a multiple of 8 moves the next header: in
      MisalignedScene the first layer's loop reads a whole run (bytes 16 to
      23) although its size ends at 20, so the second header is read at
      offset 24 rather than 8 + 12 = 20. */
  lemma ExampleMisalignedSize()
    ensures Decode(MisalignedScene, 2) == Ok([Layer(12, 1, 0, Fill(Tile(0, 0, 0), 2)), Layer(8, 9, 4, [])])
  {
    MisalignedSceneTable();
    MisalignedSceneLayers();
  }

  lemma MisalignedSceneLayers()
    ensures DecodeLayers(MisalignedScene, 8, [12, 8]) ==
      Ok(Parsed([Layer(12, 1, 0, Fill(Tile(0, 0, 0), 2)), Layer(8, 9, 4, [])], 32))
  {
    var l0, l1 := Layer(12, 1, 0, Fill(Tile(0, 0, 0), 2)), Layer(8, 9, 4, []);
    MisalignedSceneFirstLayer();
    MisalignedSceneLastLayer();
    assert [12, 8][1..] == [8] && [l0] + [l1] == [l0, l1];
  }

  lemma MisalignedSceneLastLayer()
    ensures DecodeLayers(MisalignedScene, 24, [8]) == Ok(Parsed([Layer(8, 9, 4, [])], 32))
  {
    var l1 := Layer(8, 9, 4, []);
    MisalignedSceneSecondLayer();
    assert DecodeLayers(MisalignedScene, 32, []) == Ok(Parsed([], 32));
    assert [8][1..] == [] && [l1] + [] == [l1];
  }

  /** A layer of size 12 at offset 4 ends at 16, but its one run is read
      from bytes 12 to 19, so bytes past the declared end supply its tile id
      and count; cutting the buffer at the declared end makes the read fail. */
  const OverhangScene: seq<bv8> := [0, 0, 0, 12,  0, 0, 0, 1,  0, 0, 0, 0,  0, 1, 0, 2, 0, 3, 0, 4]

  lemma ExampleOverhangRead()
    ensures Decode(OverhangScene, 1) == Ok([Layer(12, 1, 0, Fill(Tile(1, 2, 3), 4))])
  {
    var buf := OverhangScene;
    var layer := Layer(12, 1, 0, Fill(Tile(1, 2, 3), 4));
    assert ReadSizes(buf, 4, 0) == Ok(Parsed([], 4));
    assert U32(buf, 0) == 12 && [12] + [] == [12];
    assert ReadSizes(buf, 0, 1) == Ok(Parsed([12], 4));
    OverhangSceneLayer();
    assert DecodeLayers(buf, 20, []) == Ok(Parsed([], 20));
    assert [12][1..] == [] && [layer] + [] == [layer];
    assert DecodeLayers(buf, 4, [12]) == Ok(Parsed([layer], 20));
  }

  lemma OverhangSceneLayer()
    ensures DecodeLayer(OverhangScene, 4, 12) == Ok(Parsed(Layer(12, 1, 0, Fill(Tile(1, 2, 3), 4)), 20))
  {
    var buf := OverhangScene;
    assert U32(buf, 4) == 1 && U32(buf, 8) == 0;
    assert RunTile(buf, 12) == Tile(1, 2, 3) && RunLength(buf, 12) == 4;
    assert DecodeRuns(buf, 20, 16) == Ok(Parsed([], 20));
    assert Fill(Tile(1, 2, 3), 4) + [] == Fill(Tile(1, 2, 3), 4);
    assert DecodeRuns(buf, 12, 16) == Ok(Parsed(Fill(Tile(1, 2, 3), 4), 20));
  }

  lemma ExampleOverhangCut()
    ensures Decode(OverhangScene[..16], 1) == Err(OffsetOutOfBounds)
  {
    var buf := OverhangScene[..16];
    assert |buf| == 16;
    assert ReadSizes(buf, 4, 0) == Ok(Parsed([], 4));
    assert U32(buf, 0) == 12 && [12] + [] == [12];
    assert ReadSizes(buf, 0, 1) == Ok(Parsed([12], 4));
    assert DecodeRuns(buf, 12, 16) == Err(OffsetOutOfBounds);
    assert DecodeLayer(buf, 4, 12) == Err(OffsetOutOfBounds);
    assert DecodeLayers(buf, 4, [12]) == Err(OffsetOutOfBounds);
  }

  /** A layer of size 0 still reads its 8-byte header: the cursor ends at
      12, eight bytes past the declared end 4 + 0, and cutting the buffer at
      the declared end makes the header read fail. */
  lemma ExampleEmptyLayer()
    ensures var buf: seq<bv8> := [0, 0, 0, 0,  0, 0, 0, 7,  0, 0, 0, 3];
      DecodeFrom(buf, 1) == Ok(Parsed([Layer(0, 7, 3, [])], 12)) &&
      Decode(buf[..4], 1) == Err(OffsetOutOfBounds)
  {
    var buf: seq<bv8> := [0, 0, 0, 0,  0, 0, 0, 7,  0, 0, 0, 3];
    var layer := Layer(0, 7, 3, []);
    assert ReadSizes(buf, 4, 0) == Ok(Parsed([], 4));
    assert U32(buf, 0) == 0 && [0] + [] == [0];
    assert ReadSizes(buf, 0, 1) == Ok(Parsed([0], 4));
    assert U32(buf, 4) == 7 && U32(buf, 8) == 3;
    assert DecodeRuns(buf, 12, 4) == Ok(Parsed([], 12));
    assert DecodeLayer(buf, 4, 0) == Ok(Parsed(layer, 12));
    assert DecodeLayers(buf, 12, []) == Ok(Parsed([], 12));
    assert [0][1..] == [] && [layer] + [] == [layer];
    assert DecodeLayers(buf, 4, [0]) == Ok(Parsed([layer], 12));
    var cut := buf[..4];
    assert |cut| == 4 && U32(cut, 0) == 0;
    assert ReadSizes(cut, 4, 0) == Ok(Parsed([], 4));
    assert ReadSizes(cut, 0, 1) == Ok(Parsed([0], 4));
    assert DecodeLayer(cut, 4, 0) == Err(OffsetOutOfBounds);
    assert DecodeLayers(cut, 4, [0]) == Err(OffsetOutOfBounds);
  }

  /** A layer count of 2^32 is rejected by `Array(numLayers)` before any
      byte is read, whatever the buffer; one less is accepted, and then a
      buffer too short for its size table fails on the table read. */
  lemma ExampleHugeLayerCount(buf: seq<bv8>)
    ensures Decode(buf, MaxArrayLength) == Err(InvalidArrayLength)
    ensures |buf| < 4 * (MaxArrayLength - 1) ==> Decode(buf, MaxArrayLength - 1) == Err(OffsetOutOfBounds)
  {
    ReadSizesSpec(buf, 0, MaxArrayLength - 1);
  }

  /** A negative count aborts the decode: 0xFFFF is -1. */
  lemma ExampleNegativeCount()
    ensures var buf: seq<bv8> := [0, 0, 0, 16,  0, 0, 0, 7,  0, 0, 0, 3,  0, 1, 0, 2, 0, 3, 0xFF, 0xFF];
      Decode(buf, 1) == Err(InvalidArrayLength)
  {
    var buf: seq<bv8> := [0, 0, 0, 16,  0, 0, 0, 7,  0, 0, 0, 3,  0, 1, 0, 2, 0, 3, 0xFF, 0xFF];
    assert ReadSizes(buf, 4, 0) == Ok(Parsed([], 4));
    assert U32(buf, 0) == 16 && [16] + [] == [16];
    assert ReadSizes(buf, 0, 1) == Ok(Parsed([16], 4));
    assert RunLength(buf, 12) == -1;
    assert DecodeRuns(buf, 12, 20) == Err(InvalidArrayLength);
    assert DecodeLayers(buf, 4, [16]) == Err(InvalidArrayLength);
  }

  /** Declaring more layers than the buffer holds reads past its end. */
  lemma ExampleTooManyLayers()
    ensures var buf: seq<bv8> := [0, 0, 0, 8,  0, 0, 0, 7,  0, 0, 0, 3];
      Decode(buf, 1) == Ok([Layer(8, 7, 3, [])]) && Decode(buf, 2) == Err(OffsetOutOfBounds)
  {
    var buf: seq<bv8> := [0, 0, 0, 8,  0, 0, 0, 7,  0, 0, 0, 3];
    assert ReadSizes(buf, 4, 0) == Ok(Parsed([], 4));
    assert U32(buf, 0) == 8 && U32(buf, 4) == 7;
    assert [8] + [] == [8] && [7] + [] == [7] && [8] + [7] == [8, 7];
    assert ReadSizes(buf, 0, 1) == Ok(Parsed([8], 4));
    assert DecodeRuns(buf, 12, 12) == Ok(Parsed([], 12));
    assert DecodeLayer(buf, 4, 8) == Ok(Parsed(Layer(8, 7, 3, []), 12));
    assert DecodeLayers(buf, 12, []) == Ok(Parsed([], 12));
    assert [8][1..] == [] && [Layer(8, 7, 3, [])] + [] == [Layer(8, 7, 3, [])];
    assert DecodeLayers(buf, 4, [8]) == Ok(Parsed([Layer(8, 7, 3, [])], 12));
    assert ReadSizes(buf, 8, 0) == Ok(Parsed([], 8));
    assert ReadSizes(buf, 4, 1) == Ok(Parsed([7], 8));
    assert ReadSizes(buf, 0, 2) == Ok(Parsed([8, 7], 8));
    assert DecodeLayer(buf, 8, 8) == Err(OffsetOutOfBounds);
  }
}
