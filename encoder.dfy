/** The encoder of encoder.rs: the tree is built from a header's frequency
    table, and the bytes of the source are turned into their codes, written
    through a bit writer that is flushed at the end. The source and the sink
    are byte sequences. */
module HuffmanEncoding {
  import opened BitManipulation
  import opened HuffmanCoding
  import opened HeaderCodec

  class HuffmanEncoder {
    const tree: Tree

    /** new: the tree of the header's table, which must not be empty (the
        tree construction fails on an empty table). */
    constructor (header: Header)
      requires |header.counts| > 0
      ensures tree == Build(LeafHeap(header.counts))
      ensures WellCounted(tree) && Leaves(tree) == multiset(header.counts)
    {
      var t := Create(header.counts);
      tree := t;
    }

    /** encode: the code of every source byte, in order, packed into bytes,
        the last partial byte flushed. Every byte must be held by a leaf
        (the code lookup is unwrapped). */
    method Encode(source: seq<bv8>) returns (sink: seq<bv8>)
      requires forall i :: 0 <= i < |source| ==> source[i] in Symbols(tree)
      ensures sink == Pack(Codes(tree, source))
      ensures source == [] ==> sink == []
    {
      var writer := new BitWriter();
      for i := 0 to |source|
        invariant writer.Valid()
        invariant writer.Written() == Codes(tree, source[..i])
      {
        var code := HuffmanCoding.Encode(tree, source[i]).value;
        CodesPrefix(tree, source, i);
        var _ := writer.Write(code);
      }
      writer.Flush();
      assert source[..|source|] == source;
      sink := writer.sink;
    }
  }

  /** The codes of one byte more of the source are those of the bytes
      before it followed by its code. */
  lemma CodesPrefix(t: Tree, source: seq<bv8>, i: nat)
    requires i < |source|
    requires forall k :: 0 <= k < |source| ==> source[k] in Symbols(t)
    ensures Codes(t, source[..i + 1]) == Codes(t, source[..i]) + LowBits(Encode(t, source[i]).value)
  {
    LowBitsOfBits(Encode(t, source[i]).value);
    assert source[..i + 1] == source[..i] + [source[i]];
    CodesSnoc(t, source[..i], source[i]);
  }
}
