/** The decoder of decoder.rs: the tree is built from a header's frequency
    table, and the bits of the source are walked down the tree, each leaf
    reached writing its symbol, until the header's file size is reached or
    the bits run out. The source and the sink are byte sequences. */
module HuffmanDecoding {
  import opened BitManipulation
  import opened HuffmanCoding
  import opened HeaderCodec

  class HuffmanDecoder {
    const tree: Tree
    const filesize: nat

    /** new: the tree of the header's table, which must not be empty (the
        tree construction fails on an empty table), and its file size. */
    constructor (header: Header)
      requires |header.counts| > 0
      ensures tree == Build(LeafHeap(header.counts))
      ensures filesize == header.filesize
    {
      var t := Create(header.counts);
      tree := t;
      filesize := header.filesize;
    }

    /** decode: the loop reads one bit at a time, moves `current` down the
        tree (back to the root from a leaf) and, on reaching a leaf, writes
        its symbol, returns to the root and stops once `filesize` bytes are
        written. */
    method Decode(source: seq<bv8>) returns (out: seq<bv8>)
      ensures out == DecodeBits(tree, tree, Unpack(source), 0, filesize)
      ensures 0 < filesize ==> |out| <= filesize
    {
      var reader := new BitReader(source);
      var buf := new bv8[1];
      out := [];
      var written := 0;
      var current := tree;
      ghost var goal := DecodeBits(tree, tree, Unpack(source), 0, filesize);
      ghost var bits := Unpack(source);
      while true
        invariant reader.Valid() && fresh(reader) && buf.Length == 1
        invariant bits == reader.Remaining()
        invariant written == |out|
        invariant out + DecodeBits(tree, current, bits, written, filesize) == goal
        decreases |bits|
      {
        var count := reader.Read(buf);
        if count == 0 {
          assert out == goal;
          break;
        }
        FirstBit(buf[..], bits, count);
        var bit := buf[0];
        ghost var next := Move(tree, current, bit);
        DecodeAdvance(tree, current, bits, out, written, filesize, goal, next);
        match current {
          case Node(_, left, right) =>
            if bit == 0 {
              current := left;
            } else {
              current := right;
            }
          case Leaf(_, _) =>
            current := tree;
        }
        assert current == next;
        bits := bits[1..];
        if current.Leaf? {
          var value := current.symbol;
          current := tree;
          out := out + [value];
          written := written + 1;
          if written >= filesize {
            break;
          }
        }
      }
      DecodeBound(tree, tree, Unpack(source), 0, filesize);
    }
  }

  /** One bit of the decode loop, heap-free: if the bytes written so far
      followed by the decoding of `bits` from `current` are `goal`, then so
      are the bytes after this bit followed by the decoding of the rest. */
  lemma DecodeAdvance(root: Tree, current: Tree, bits: seq<bv8>, out: seq<bv8>, written: nat, filesize: nat,
                      goal: seq<bv8>, next: Tree)
    requires |bits| > 0 && next == Move(root, current, bits[0])
    requires out + DecodeBits(root, current, bits, written, filesize) == goal
    ensures var out' := if next.Leaf? then out + [next.symbol] else out;
            var written' := if next.Leaf? then written + 1 else written;
            if next.Leaf? && written' >= filesize then out' == goal
            else out' + DecodeBits(root, if next.Leaf? then root else next, bits[1..], written', filesize) == goal
  {
  }

  /** The decoder test: with the tree of "abacba" and a file size of 3, the
      byte 0b00001110 (bits 0, 1, 1, 1, 0, ... in reading order) decodes to
      "abc" and the padding bits are not decoded. */
  lemma DecodeTestExample(t: Tree)
    requires t == Node(6, Leaf(3, 0x61), Node(3, Leaf(1, 0x63), Leaf(2, 0x62)))
    ensures DecodeBits(t, t, Unpack([0x0E]), 0, 3) == [0x61, 0x62, 0x63]
  {
    var rest2: seq<bv8> := [1, 0, 0, 0, 0];
    var rest1: seq<bv8> := [1, 1, 1, 0, 0, 0, 0];
    UnpackTestByte();
    assert [0, 1, 1, 1, 0, 0, 0, 0] == [0] + rest1;
    assert rest1 == [1, 1] + rest2;
    assert rest2 == [1, 0] + [0, 0, 0];
    DecodePath(t, t, [0], 0x61, rest1, 0, 3);
    DecodePath(t, t, [1, 1], 0x62, rest2, 1, 3);
    DecodePath(t, t, [1, 0], 0x63, [0, 0, 0], 2, 3);
  }

  /** The bits of 0b00001110, least significant first. */
  lemma UnpackTestByte()
    ensures Unpack([0x0E]) == [0, 1, 1, 1, 0, 0, 0, 0]
  {
  }
}
