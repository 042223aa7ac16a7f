/** The state of the `App` component that the decoder writes: the stored
    layer list, replaced only when a whole decode succeeds. */
module AppComponent {
  import opened SceneFormat
  import SceneDecoder

  datatype Option<T> = None | Some(value: T)

  /** What the user is alerted with when `getLayers` aborts. */
  datatype Alert =
    | NoArrayBuffer                      // the argument has no `.buffer` (the initial `[]` state)
    | DecodeFailed(error: DecodeError)   // a RangeError from a read or from `Array(n)`

  class App {
    /** The layer list (`layers` state), shown by the rest of the component. */
    var layers: seq<Layer>

    /** The initial state: no layers. */
    constructor ()
      ensures layers == []
    {
      layers := [];
    }

    /** `getLayers(u8s)` with `numLayers` from the component's state. `u8s`
        is None for an argument without an underlying buffer, such as the
        initial `bytes` value `[]`. On success the decoded list replaces
        `layers` and there is no alert; on any failure `layers` is left as
        it was and the failure is reported. */
    method GetLayers(u8s: Option<seq<bv8>>, numLayers: nat) returns (alert: Option<Alert>)
      modifies this`layers
      ensures u8s.None? ==> alert == Some(NoArrayBuffer) && layers == old(layers)
      ensures u8s.Some? && Decode(u8s.value, numLayers).Ok? ==>
        alert == None && layers == Decode(u8s.value, numLayers).value
      ensures u8s.Some? && Decode(u8s.value, numLayers).Err? ==>
        alert == Some(DecodeFailed(Decode(u8s.value, numLayers).error)) && layers == old(layers)
    {
      if u8s.None? {
        return Some(NoArrayBuffer);
      }
      var r := SceneDecoder.ComputeLayers(u8s.value, numLayers);
      match r {
        case Ok(newLayers) =>
          layers := newLayers;
          alert := None;
        case Err(e) =>
          alert := Some(DecodeFailed(e));
      }
    }
  }
}
