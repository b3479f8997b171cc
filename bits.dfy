/** Bit-level buffers of the Huffman compressor: a reader that unpacks bytes
    least-significant bit first, and a writer that packs bits into bytes with
    the same convention and flushes a trailing partial byte. The byte source
    and the byte sink are sequences instead of I/O streams. */
module BitManipulation {

  /** Every value is a single bit (0 or 1). */
  predicate IsBits(s: seq<bv8>) {
    forall i :: 0 <= i < |s| ==> s[i] <= 1
  }

  function Zeros(n: nat): (r: seq<bv8>)
    ensures |r| == n
    ensures forall i :: 0 <= i < n ==> r[i] == 0
  {
    seq(n, _ => 0)
  }

  /** Bit k of a byte, as the reader extracts it. */
  function Bit(b: bv8, k: nat): (r: bv8)
    requires k < 8
    ensures r <= 1
  {
    (b >> k) & 1
  }

  /** The eight bits of a byte, least-significant first. */
  function BitsOf(b: bv8): (r: seq<bv8>)
    ensures |r| == 8
    ensures forall k :: 0 <= k < 8 ==> r[k] == Bit(b, k)
  {
    seq(8, k requires 0 <= k < 8 => Bit(b, k))
  }

  /** The bit stream a reader produces from a byte sequence. */
  function Unpack(bytes: seq<bv8>): (r: seq<bv8>)
    ensures |r| == 8 * |bytes|
  {
    if bytes == [] then [] else BitsOf(bytes[0]) + Unpack(bytes[1..])
  }

  /** The low bit of every element, as the writer keeps it. */
  function LowBits(bits: seq<bv8>): (r: seq<bv8>)
    ensures |r| == |bits|
    ensures forall i :: 0 <= i < |bits| ==> r[i] == bits[i] & 1
  {
    seq(|bits|, i requires 0 <= i < |bits| => bits[i] & 1)
  }

  /** Byte `c` with `b` ORed in at bit position `k`. */
  function SetBit(c: bv8, b: bv8, k: nat): bv8
    requires k < 8
  {
    c | (b << k)
  }

  /** Up to eight bits ORed into one byte, bit k at position k, as the writer
      accumulates them in its pending byte. */
  function PackByte(bits: seq<bv8>): bv8
    requires |bits| <= 8
    decreases |bits|
  {
    if bits == [] then 0
    else SetBit(PackByte(bits[..|bits| - 1]), bits[|bits| - 1], |bits| - 1)
  }

  /** A bit stream packed into bytes, the last partial byte padded with zeros. */
  function Pack(bits: seq<bv8>): (r: seq<bv8>)
    decreases |bits|
  {
    if bits == [] then []
    else if |bits| <= 8 then [PackByte(bits)]
    else [PackByte(bits[..8])] + Pack(bits[8..])
  }

  /** Number of zero bits that pad n bits up to a whole byte. */
  function PadLength(n: nat): (r: nat)
    ensures r < 8
  {
    if n == 0 then 0 else if n <= 8 then 8 - n else PadLength(n - 8)
  }

  lemma SetBitSame(p: bv8, b: bv8, k: nat)
    requires k < 8 && b <= 1 && Bit(p, k) == 0
    ensures Bit(SetBit(p, b, k), k) == b
  {
  }

  lemma SetBitOther(p: bv8, b: bv8, k: nat, j: nat)
    requires k < 8 && j < 8 && b <= 1 && j != k
    ensures Bit(SetBit(p, b, k), j) == Bit(p, j)
  {
    match j
    case 0 => case 1 => case 2 => case 3 =>
    case 4 => case 5 => case 6 => case 7 =>
  }

  /** ORing a bit b into a clear position k of p sets that bit and no other. */
  lemma OrBit(p: bv8, b: bv8, k: nat, j: nat)
    requires k < 8 && j < 8 && b <= 1 && Bit(p, k) == 0
    ensures Bit(SetBit(p, b, k), j) == if j == k then b else Bit(p, j)
  {
    if j == k {
      SetBitSame(p, b, k);
    } else {
      SetBitOther(p, b, k, j);
    }
  }

  lemma {:induction false} PackByteBit(bits: seq<bv8>, j: nat)
    requires |bits| <= 8 && IsBits(bits) && j < 8
    ensures Bit(PackByte(bits), j) == if j < |bits| then bits[j] else 0
    decreases |bits|
  {
    if bits == [] {
      assert Bit(0, j) == 0;
    } else {
      var k := |bits| - 1;
      var prefix := bits[..k];
      PackByteBit(prefix, j);
      PackByteBit(prefix, k);
      OrBit(PackByte(prefix), bits[k], k, j);
    }
  }

  lemma BitsOfPackByte(bits: seq<bv8>)
    requires |bits| <= 8 && IsBits(bits)
    ensures BitsOf(PackByte(bits)) == bits + Zeros(8 - |bits|)
  {
    forall j | 0 <= j < 8
      ensures BitsOf(PackByte(bits))[j] == (bits + Zeros(8 - |bits|))[j]
    {
      PackByteBit(bits, j);
    }
  }

  lemma UnpackSingle(b: bv8)
    ensures Unpack([b]) == BitsOf(b)
  {
    assert [b][1..] == [];
  }

  lemma {:induction false} UnpackAppend(a: seq<bv8>, b: seq<bv8>)
    ensures Unpack(a + b) == Unpack(a) + Unpack(b)
  {
    if a == [] {
      assert a + b == b;
    } else {
      assert (a + b)[0] == a[0];
      assert (a + b)[1..] == a[1..] + b;
      UnpackAppend(a[1..], b);
    }
  }

  lemma {:induction false} PackAppend(a: seq<bv8>, b: seq<bv8>, bytes: nat)
    requires |a| == 8 * bytes
    ensures Pack(a + b) == Pack(a) + Pack(b)
    decreases bytes
  {
    if a == [] {
      assert a + b == b;
    } else if b == [] {
      assert a + b == a;
    } else {
      var ab := a + b;
      assert |ab| > 8;
      assert ab[..8] == a[..8];
      assert ab[8..] == a[8..] + b;
      assert Pack(ab) == [PackByte(a[..8])] + Pack(a[8..] + b);
      PackAppend(a[8..], b, bytes - 1);
      if bytes == 1 {
        assert a[8..] == [] && a[..8] == a;
        assert Pack(a) == [PackByte(a[..8])] + Pack(a[8..]);
      } else {
        assert Pack(a) == [PackByte(a[..8])] + Pack(a[8..]);
      }
    }
  }

  lemma {:induction false} PackLength(bits: seq<bv8>)
    ensures |Pack(bits)| == (|bits| + PadLength(|bits|)) / 8
    decreases |bits|
  {
    if |bits| > 8 {
      PackLength(bits[8..]);
    }
  }

  lemma UnpackPackShort(bits: seq<bv8>)
    requires IsBits(bits) && 0 < |bits| <= 8
    ensures Unpack(Pack(bits)) == bits + Zeros(8 - |bits|)
  {
    assert Pack(bits) == [PackByte(bits)];
    UnpackSingle(PackByte(bits));
    BitsOfPackByte(bits);
  }

  /** Reading back a packed bit stream yields the stream followed by the
      zero padding of the last byte. */
  lemma {:induction false} UnpackPack(bits: seq<bv8>)
    requires IsBits(bits)
    ensures Unpack(Pack(bits)) == bits + Zeros(PadLength(|bits|))
    decreases |bits|
  {
    if bits == [] {
    } else if |bits| <= 8 {
      UnpackPackShort(bits);
      assert PadLength(|bits|) == 8 - |bits|;
    } else {
      var head, tail := bits[..8], bits[8..];
      var pad := Zeros(PadLength(|bits|));
      UnpackPack(tail);
      UnpackPackShort(head);
      assert Zeros(8 - |head|) == [];
      calc {
        Unpack(Pack(bits));
        Unpack([PackByte(head)] + Pack(tail));
        { UnpackAppend([PackByte(head)], Pack(tail)); }
        Unpack([PackByte(head)]) + Unpack(Pack(tail));
        { assert Pack(head) == [PackByte(head)]; }
        head + (tail + pad);
        { assert bits == head + tail; }
        bits + pad;
      }
    }
  }

  lemma LowBitsSnoc(s: seq<bv8>, x: bv8)
    ensures LowBits(s + [x]) == LowBits(s) + [x & 1]
  {
    assert forall i :: 0 <= i < |s| ==> (s + [x])[i] == s[i];
  }

  lemma LowBitsPrefix(bits: seq<bv8>, i: nat)
    requires i < |bits|
    ensures LowBits(bits[..i + 1]) == LowBits(bits[..i]) + [bits[i] & 1]
  {
    assert bits[..i + 1] == bits[..i] + [bits[i]];
    LowBitsSnoc(bits[..i], bits[i]);
  }

  /** Keeping the low bit changes nothing in a stream of bits. */
  lemma LowBitsOfBits(bits: seq<bv8>)
    requires IsBits(bits)
    ensures LowBits(bits) == bits
  {
    forall i | 0 <= i < |bits|
      ensures bits[i] & 1 == bits[i]
    {
      LowBitOfBit(bits[i]);
    }
  }

  lemma LowBitOfBit(b: bv8)
    requires b <= 1
    ensures b & 1 == b
  {
  }

  lemma PackByteSnoc(p: seq<bv8>, b: bv8)
    requires |p| < 8
    ensures PackByte(p + [b]) == SetBit(PackByte(p), b, |p|)
  {
    assert (p + [b])[..|p|] == p;
  }

  lemma EmitPending(emitted: seq<bv8>, pending: seq<bv8>, bytes: nat)
    requires |emitted| == 8 * bytes && |pending| == 8
    ensures Pack(emitted + pending) == Pack(emitted) + [PackByte(pending)]
  {
    PackAppend(emitted, pending, bytes);
  }

  lemma SinkLength(sinkLength: nat, index: nat, total: nat)
    requires total == 8 * sinkLength + index && index <= 8
    requires index == 0 ==> total == 0
    ensures sinkLength == if total == 0 then 0 else (total - 1) / 8
  {
  }

  /** How the writer's fields relate to the bits it has accepted. */
  ghost predicate WriterState(sink: seq<bv8>, current: bv8, index: nat,
                              emitted: seq<bv8>, pending: seq<bv8>)
  {
    && index <= 8
    && |pending| == index
    && IsBits(emitted) && IsBits(pending)
    && |emitted| == 8 * |sink|
    && (index == 0 ==> emitted == [])
    && sink == Pack(emitted)
    && current == PackByte(pending)
  }

  /** Sending a full pending byte and starting a new one with bit `b`
      keeps the writer's state consistent. */
  lemma WriterEmit(sink: seq<bv8>, current: bv8, emitted: seq<bv8>, pending: seq<bv8>, b: bv8)
    requires WriterState(sink, current, 8, emitted, pending)
    requires b <= 1
    ensures WriterState(sink + [current], SetBit(0, b, 0), 1, emitted + pending, [b])
  {
    EmitPending(emitted, pending, |sink|);
    PackByteSnoc([], b);
  }

  /** ORing one more bit into a pending byte that is not full keeps the
      writer's state consistent. */
  lemma WriterPush(sink: seq<bv8>, current: bv8, index: nat,
                   emitted: seq<bv8>, pending: seq<bv8>, b: bv8)
    requires WriterState(sink, current, index, emitted, pending)
    requires index < 8 && b <= 1
    ensures WriterState(sink, SetBit(current, b, index), index + 1, emitted, pending + [b])
  {
    PackByteSnoc(pending, b);
  }

  /** The writer of bitmanipulation.rs: `current` is the pending byte and
      `index` the number of bits in it. The pending byte is sent to `sink`
      only when a ninth bit arrives, so `index` runs from 1 to 8 once a bit
      has been written. The ghost `emitted` and `pending` record the bits
      already in `sink` and those in `current`. */
  class BitWriter {
    var sink: seq<bv8>
    var current: bv8
    var index: nat
    ghost var emitted: seq<bv8>
    ghost var pending: seq<bv8>

    /** Every bit accepted so far. */
    ghost function Written(): seq<bv8>
      reads this
    {
      emitted + pending
    }

    ghost predicate Valid()
      reads this
    {
      WriterState(sink, current, index, emitted, pending)
    }

    constructor ()
      ensures Valid() && Written() == [] && sink == []
      ensures current == 0 && index == 0
    {
      sink, current, index := [], 0, 0;
      emitted, pending := [], [];
    }

    /** One step of the write loop: sends the full pending byte first, then
        ORs bit `b` into the current byte at position `index`. */
    method WriteBit(b: bv8)
      requires Valid()
      requires b <= 1
      modifies this
      ensures Valid()
      ensures Written() == old(Written()) + [b]
      ensures sink == old(sink) + (if old(index) > 7 then [old(current)] else [])
    {
      if index > 7 {
        WriterEmit(sink, current, emitted, pending, b);
        sink := sink + [current];
        emitted, pending := emitted + pending, [b];
        current := SetBit(0, b, 0);
        index := 1;
      } else {
        WriterPush(sink, current, index, emitted, pending, b);
        current := SetBit(current, b, index);
        index := index + 1;
        pending := pending + [b];
      }
    }

    /** Appends the low bit of every element of `bits`; returns how many
        elements it took. */
    method Write(bits: seq<bv8>) returns (n: nat)
      requires Valid()
      modifies this
      ensures Valid()
      ensures n == |bits|
      ensures Written() == old(Written()) + LowBits(bits)
      ensures |sink| == if Written() == [] then 0 else (|Written()| - 1) / 8
      ensures old(sink) <= sink
    {
      var i := 0;
      while i < |bits|
        invariant i <= |bits|
        invariant Valid()
        invariant Written() == old(Written()) + LowBits(bits[..i])
        invariant old(sink) <= sink
      {
        LowBitsPrefix(bits, i);
        WriteBit(bits[i] & 1);
        i := i + 1;
      }
      assert bits[..i] == bits;
      n := |bits|;
      SinkLength(|sink|, index, |Written()|);
    }

    /** Sends the pending byte, if any bit is pending. The pending state is
        left as it is. */
    method Flush()
      requires Valid()
      modifies this`sink
      ensures sink == old(sink) + (if index > 0 then [current] else [])
      ensures sink == Pack(Written())
    {
      if index > 0 {
        PackAppend(emitted, pending, |sink|);
        sink := sink + [current];
      }
    }
  }

  /** Loading the next source byte once the current one is spent leaves the
      bits still to deliver unchanged. */
  lemma ReaderLoad(current: bv8, source: seq<bv8>, pos: nat)
    requires pos < |source|
    ensures BitsOf(current)[8..] + Unpack(source[pos..])
            == BitsOf(source[pos])[0..] + Unpack(source[pos + 1..])
  {
    assert source[pos..] == [source[pos]] + source[pos + 1..];
    UnpackAppend([source[pos]], source[pos + 1..]);
    UnpackSingle(source[pos]);
  }

  /** Taking the bit at `index` delivers the first of the remaining bits. */
  lemma ReaderStep(current: bv8, index: nat, rest: seq<bv8>)
    requires index < 8
    ensures (BitsOf(current)[index..] + rest)[0] == Bit(current, index)
    ensures (BitsOf(current)[index..] + rest)[1..] == BitsOf(current)[index + 1..] + rest
  {
  }

  /** The reader of bitmanipulation.rs over a byte sequence: `pos` bytes of
      `source` have been loaded, `current` is the last one loaded and `index`
      the position of its next bit (8 when no bit is left in it). */
  class BitReader {
    const source: seq<bv8>
    var pos: nat
    var current: bv8
    var index: nat

    ghost predicate Valid()
      reads this
    {
      pos <= |source| && index <= 8
    }

    /** The bits this reader has still to deliver. */
    ghost function Remaining(): seq<bv8>
      reads this
      requires Valid()
    {
      BitsOf(current)[index..] + Unpack(source[pos..])
    }

    constructor (source: seq<bv8>)
      ensures Valid() && this.source == source
      ensures pos == 0 && index == 8 && current == 0
      ensures Remaining() == Unpack(source)
    {
      this.source := source;
      pos, current, index := 0, 0, 8;
      assert source[0..] == source;
    }

    /** One step of the read loop: loads the next source byte when the
        current one is spent, then takes the bit at `index`. `got` is false
        only when the source is exhausted. */
    method ReadBit() returns (got: bool, b: bv8)
      requires Valid()
      modifies this
      ensures Valid()
      ensures got == (old(Remaining()) != [])
      ensures got ==> b == old(Remaining())[0] && Remaining() == old(Remaining())[1..]
      ensures !got ==> Remaining() == []
    {
      if index > 7 {
        if pos == |source| {
          return false, 0;
        }
        ReaderLoad(current, source, pos);
        current := source[pos];
        pos := pos + 1;
        index := 0;
      }
      ReaderStep(current, index, Unpack(source[pos..]));
      b := Bit(current, index);
      index := index + 1;
      got := true;
    }

    /** Fills `out` from the front with the next bits and returns how many it
        wrote; fewer than `out.Length` only when the source is exhausted. */
    method Read(out: array<bv8>) returns (count: nat)
      requires Valid()
      requires out.Length < 256
      modifies this, out
      ensures Valid()
      ensures count == if out.Length <= |old(Remaining())| then out.Length else |old(Remaining())|
      ensures out[..count] == old(Remaining())[..count]
      ensures out[count..] == old(out[count..])
      ensures Remaining() == old(Remaining())[count..]
    {
      ghost var rem0 := Remaining();
      count := 0;
      while count < out.Length
        invariant Valid()
        invariant count <= out.Length && count <= |rem0|
        invariant forall k :: 0 <= k < count ==> out[k] == rem0[k]
        invariant forall k :: count <= k < out.Length ==> out[k] == old(out[k])
        invariant Remaining() == rem0[count..]
      {
        var got, b := ReadBit();
        if !got {
          return;
        }
        out[count] := b;
        count := count + 1;
      }
    }
  }

  /** A read into a one-element buffer that got a bit got the first of the
      remaining bits. */
  lemma FirstBit(buf: seq<bv8>, bits: seq<bv8>, count: nat)
    requires |buf| == 1 && count == (if 1 <= |bits| then 1 else |bits|) && count != 0
    requires buf[..count] == bits[..count]
    ensures |bits| > 0 && buf[0] == bits[0]
  {
    assert buf[..count][0] == bits[..count][0];
  }

  /** Byte 0b10101101 reads as 1,0,1,1,0,1,0,1. */
  lemma ReadOneByteExample()
    ensures Unpack([0xAD]) == [1, 0, 1, 1, 0, 1, 0, 1]
  {
  }

  /** A byte is determined by its eight bits. */
  lemma BitsEqual(x: bv8, y: bv8)
    requires forall k :: 0 <= k < 8 ==> Bit(x, k) == Bit(y, k)
    ensures x == y
  {
    assert Bit(x, 0) == Bit(y, 0) && Bit(x, 1) == Bit(y, 1) && Bit(x, 2) == Bit(y, 2) && Bit(x, 3) == Bit(y, 3);
    assert Bit(x, 4) == Bit(y, 4) && Bit(x, 5) == Bit(y, 5) && Bit(x, 6) == Bit(y, 6) && Bit(x, 7) == Bit(y, 7);
  }

  /** The byte the writer accumulates from `bits` is the one whose bits,
      least significant first, are `bits` padded with zeros. */
  lemma PackByteOf(bits: seq<bv8>, x: bv8)
    requires |bits| <= 8 && IsBits(bits)
    requires BitsOf(x) == bits + Zeros(8 - |bits|)
    ensures PackByte(bits) == x
  {
    BitsOfPackByte(bits);
    forall k | 0 <= k < 8
      ensures Bit(PackByte(bits), k) == Bit(x, k)
    {
      assert BitsOf(PackByte(bits))[k] == BitsOf(x)[k];
    }
    BitsEqual(PackByte(bits), x);
  }

  /** Writing the bits read from a byte sequence gives the sequence back. */
  lemma {:induction false} PackUnpack(bytes: seq<bv8>)
    ensures Pack(Unpack(bytes)) == bytes
  {
    if bytes != [] {
      var head := BitsOf(bytes[0]);
      assert IsBits(head);
      PackByteOf(head, bytes[0]);
      assert Unpack(bytes) == head + Unpack(bytes[1..]);
      PackAppend(head, Unpack(bytes[1..]), 1);
      assert Pack(head) == [bytes[0]];
      PackUnpack(bytes[1..]);
    }
  }

  /** Writing 1,1,1,0,0,1,0,1,0,0,0,1 and flushing gives 0xA7, 0x08. */
  lemma WriteTwelveBitsExample()
    ensures Pack([1, 1, 1, 0, 0, 1, 0, 1, 0, 0, 0, 1]) == [0xA7, 0x08]
  {
    var bits: seq<bv8> := [1, 1, 1, 0, 0, 1, 0, 1, 0, 0, 0, 1];
    PackByteOf([1, 1, 1, 0, 0, 1, 0, 1], 0xA7);
    PackByteOf([0, 0, 0, 1], 0x08);
    assert bits[..8] == [1, 1, 1, 0, 0, 1, 0, 1] && bits[8..] == [0, 0, 0, 1];
  }
}
