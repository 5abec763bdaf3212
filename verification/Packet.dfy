/** The packet object of src/packet/mod.rs. */
module Packets {
  import opened Bytes
  import opened Layers
  import opened FinalizeSpec
  import opened LayerFinalize

  class Packet {
    var layers: seq<Layer>

    constructor (layers: seq<Layer>)
      ensures this.layers == layers
    {
      this.layers := layers;
    }

    /** Finalizes each layer in place. The packet keeps what a failing pass had done. */
    method Finalize() returns (ok: bool)
      modifies this
      ensures Update(layers, ok) == Pass(old(layers))
    {
      var i := 0;
      assert layers[..0] + Pass(layers).value == Pass(layers).value && layers[0..] == layers;
      while i < |layers|
        invariant 0 <= i <= |layers|
        invariant Behind(layers[..i], PassFrom(BelowOf(layers[..i]), layers[i..])) == Pass(old(layers))
      {
        var prev, next := layers[..i], layers[i + 1..];
        var l, done := FinalizeLayer(layers[i], prev, next);
        PassStep(prev, BelowOf(prev), layers[i..]);
        assert layers[i..][1..] == next;
        layers := layers[i := l];
        assert layers[..i + 1] == prev + [l] && layers[i + 1..] == next;
        if !done {
          assert layers == prev + [l] + next;
          return false;
        }
        i := i + 1;
      }
      assert layers[..i] + [] == layers && layers[i..] == [];
      ok := true;
    }

    method ToBytes() returns (s: seq<byte>)
      ensures s == LayersBytes(layers)
    {
      s := LayersToBytes(layers);
    }
  }
}
