/** The body of `getLayers` (src/App.js): one mutable cursor `idx` walks
    the size table, then each layer's header and run loop, and the first
    failing read or negative count aborts the whole decode. The three
    stages (the `map` over the size table, the header reads and the run loop
    inside the `forEach`, and the `forEach` itself) are one method each,
    handing the cursor on. */
module SceneDecoder {
  import opened BigEndian
  import opened SceneFormat

  /** The `map` stage: reads `numLayers` u32 sizes from offset 0 and returns
      them with the cursor just after the table. */
  method ReadSizeTable(buf: seq<bv8>, numLayers: nat) returns (r: Result<Parsed<seq<nat>>>)
    ensures r == ReadSizes(buf, 0, numLayers)
  {
    var idx: nat := 0;
    var sizes: seq<nat> := [];
    PrependNothing(ReadSizes(buf, 0, numLayers));
    while |sizes| < numLayers
      invariant |sizes| <= numLayers && idx == 4 * |sizes|
      invariant ReadSizes(buf, 0, numLayers) == Prepend(sizes, ReadSizes(buf, idx, numLayers - |sizes|))
    {
      if idx + 4 > |buf| {
        return Err(OffsetOutOfBounds);
      }
      PrependTwice(sizes, [U32(buf, idx)], ReadSizes(buf, idx + 4, numLayers - |sizes| - 1));
      sizes := sizes + [U32(buf, idx)];
      idx := idx + 4;
    }
    assert sizes + [] == sizes;
    return Ok(Parsed(sizes, idx));
  }

  /** One iteration of the `forEach`: computes `layerEnd` from the cursor,
      reads the header, advances by 8, then runs the loop that reads 8-byte
      runs while the cursor is below `layerEnd`; returns the layer and the
      cursor the loop stopped at. */
  method ReadLayer(buf: seq<bv8>, start: nat, size: nat) returns (r: Result<Parsed<Layer>>)
    ensures r == DecodeLayer(buf, start, size)
  {
    var idx := start;
    var layerEnd := idx + size;
    if idx + 8 > |buf| {
      return Err(OffsetOutOfBounds);
    }
    var layerId := U32(buf, idx);
    var layerZ := U32(buf, idx + 4);
    idx := idx + 8;

    // Only the end of the buffer is checked, never `layerEnd`.
    var tiles: seq<Tile> := [];
    PrependNothing(DecodeRuns(buf, idx, layerEnd));
    while idx < layerEnd
      invariant start + 8 <= idx
      invariant DecodeRuns(buf, start + 8, layerEnd) == Prepend(tiles, DecodeRuns(buf, idx, layerEnd))
      decreases layerEnd - idx
    {
      if idx + 8 > |buf| {
        return Err(OffsetOutOfBounds);
      }
      var autotileIdx := I16(buf, idx);
      var tilesetId := I16(buf, idx + 2);
      var tileId := I16(buf, idx + 4);
      var numTiles := I16(buf, idx + 6);
      if numTiles < 0 {
        return Err(InvalidArrayLength);
      }
      var run := Fill(Tile(autotileIdx, tilesetId, tileId), numTiles);
      PrependTwice(tiles, run, DecodeRuns(buf, idx + 8, layerEnd));
      tiles := tiles + run;
      idx := idx + 8;
    }
    assert tiles + [] == tiles;
    return Ok(Parsed(Layer(size, layerId, layerZ, tiles), idx));
  }

  /** Decodes `numLayers` layers from `buf`, or reports the error that
      aborted the decode (`Array(numLayers)` with a count of 2^32 or more,
      a read out of bounds, a negative run count); the result is exactly
      Decode(buf, numLayers). */
  method ComputeLayers(buf: seq<bv8>, numLayers: nat) returns (r: Result<seq<Layer>>)
    ensures r == Decode(buf, numLayers)
  {
    if numLayers >= MaxArrayLength {
      return Err(InvalidArrayLength);
    }
    var table := ReadSizeTable(buf, numLayers);
    if table.Err? {
      return Err(table.error);
    }
    var sizes := table.value.value;
    var idx := table.value.cursor;

    var layers: seq<Layer> := [];
    PrependNothing(DecodeLayers(buf, idx, sizes));
    var i := 0;
    while i < |sizes|
      invariant i <= |sizes|
      invariant DecodeFrom(buf, numLayers) == Prepend(layers, DecodeLayers(buf, idx, sizes[i..]))
    {
      var layer := ReadLayer(buf, idx, sizes[i]);
      if layer.Err? {
        return Err(layer.error);
      }
      assert sizes[i..][1..] == sizes[i + 1..];
      PrependTwice(layers, [layer.value.value], DecodeLayers(buf, layer.value.cursor, sizes[i + 1..]));
      layers := layers + [layer.value.value];
      idx := layer.value.cursor;
      i := i + 1;
    }
    assert sizes[i..] == [] && layers + [] == layers;
    return Ok(layers);
  }
}
