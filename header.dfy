/** The header of a compressed file, header.rs: the size of the original
    file and its frequency table, in a fixed little-endian layout. The
    writer and the reader work over byte sequences. */
module HeaderCodec {
  import opened HuffmanCoding
  import opened BitManipulation
  import opened ByteConversion

  datatype Header = Header(counts: seq<Entry>, filesize: nat)

  const U32_LIMIT: nat := 0x1_0000_0000
  const U64_LIMIT: nat := 0x1_0000_0000_0000_0000

  function Pow256(k: nat): (r: nat)
    ensures r > 0
  {
    if k == 0 then 1 else 256 * Pow256(k - 1)
  }

  /** The `k` low bytes of `n`, least significant first (`to_le_bytes` of
      `n` truncated to a `k`-byte integer). */
  function LittleEndian(n: nat, k: nat): (r: seq<bv8>)
    ensures |r| == k
  {
    if k == 0 then [] else [(n % 256) as bv8] + LittleEndian(n / 256, k - 1)
  }

  /** The number whose little-endian bytes are `bytes` (`from_le_bytes`). */
  function FromLittleEndian(bytes: seq<bv8>): (r: nat)
    ensures r < Pow256(|bytes|)
  {
    if bytes == [] then 0 else bytes[0] as nat + 256 * FromLittleEndian(bytes[1..])
  }

  /** Reading back `k` little-endian bytes of a number below 256^k gives
      the number. */
  lemma {:induction false} LittleEndianRoundTrip(n: nat, k: nat)
    requires n < Pow256(k)
    ensures FromLittleEndian(LittleEndian(n, k)) == n
  {
    if k > 0 {
      var q := n / 256;
      assert q < Pow256(k - 1);
      LittleEndianRoundTrip(q, k - 1);
      assert LittleEndian(n, k)[1..] == LittleEndian(q, k - 1);
      ByteValue(n % 256);
    }
  }

  lemma {:induction false} LittleEndianZero(k: nat)
    ensures LittleEndian(0, k) == Zeros(k)
  {
    if k > 0 {
      LittleEndianZero(k - 1);
      assert Zeros(k) == [0] + Zeros(k - 1);
    }
  }

  /** A number below 256 is one byte followed by zeros. */
  lemma LittleEndianSmall(n: nat, k: nat)
    requires n < 256 && k > 0
    ensures LittleEndian(n, k) == [n as bv8] + Zeros(k - 1)
  {
    LittleEndianZero(k - 1);
  }

  /** A number below 65536 is its two low bytes followed by zeros. */
  lemma LittleEndianTwo(n: nat, lo: nat, hi: nat, k: nat)
    requires lo < 256 && hi < 256 && k > 1 && n == lo + 256 * hi
    ensures LittleEndian(n, k) == [lo as bv8, hi as bv8] + Zeros(k - 2)
  {
    assert n % 256 == lo && n / 256 == hi;
    LittleEndianSmall(hi, k - 1);
  }

  /** The bytes of one frequency table entry: the symbol, then its count
      truncated to 32 bits, little-endian. */
  function EntryOf(e: Entry): (r: seq<bv8>)
    ensures |r| == 5
  {
    [e.0] + LittleEndian(e.1 % U32_LIMIT, 4)
  }

  /** The bytes of the frequency table, entry after entry. */
  function EntryBytes(counts: seq<Entry>): (r: seq<bv8>)
    ensures |r| == 5 * |counts|
  {
    if counts == [] then [] else EntryOf(counts[0]) + EntryBytes(counts[1..])
  }

  /** The layout of `write`: 8 bytes of file size, 1 byte of entry count
      (the table length truncated to 8 bits), then 5 bytes per entry. */
  function Serialize(h: Header): (r: seq<bv8>)
    ensures |r| == 9 + 5 * |h.counts|
  {
    LittleEndian(h.filesize, 8) + [(|h.counts| % 256) as bv8] + EntryBytes(h.counts)
  }

  /** write: the header's bytes, as the loop over the table emits them. The
      file size is a 64-bit `usize`. */
  method Write(h: Header) returns (out: seq<bv8>)
    requires h.filesize < U64_LIMIT
    ensures out == Serialize(h)
    ensures |out| == 9 + 5 * |h.counts|
  {
    out := LittleEndian(h.filesize, 8);
    out := out + [(|h.counts| % 256) as bv8];
    ghost var prefix := out;
    for i := 0 to |h.counts|
      invariant out + EntryBytes(h.counts[i..]) == prefix + EntryBytes(h.counts)
    {
      var (c, count) := h.counts[i];
      assert EntryBytes(h.counts[i..]) == EntryOf(h.counts[i]) + EntryBytes(h.counts[i + 1..]) by {
        assert h.counts[i..][1..] == h.counts[i + 1..];
      }
      out := out + [c];
      out := out + LittleEndian(count % U32_LIMIT, 4);
    }
    assert h.counts[|h.counts|..] == [];
  }

  function Min(a: nat, b: nat): nat
  {
    if a <= b then a else b
  }

  /** The buffer `buf` after reading from `data` at `pos` as a byte slice
      does: as many bytes as fit or remain are copied to its front and the
      rest of it keeps its old contents. */
  function Filled(buf: seq<bv8>, data: seq<bv8>, pos: nat): (r: seq<bv8>)
    requires pos <= |data|
    ensures |r| == |buf|
  {
    var n := Min(|buf|, |data| - pos);
    data[pos..pos + n] + buf[n..]
  }

  /** The entries of `read`'s loop: `k` more reads into the 5-byte buffer
      `buf`, each giving a symbol and a 32-bit count; also the position
      reached. */
  function ParseEntries(data: seq<bv8>, pos: nat, buf: seq<bv8>, k: nat): (r: (seq<Entry>, nat))
    requires pos <= |data| && |buf| == 5
    ensures |r.0| == k && pos <= r.1 <= |data|
    decreases k
  {
    if k == 0 then ([], pos)
    else
      var b := Filled(buf, data, pos);
      var rest := ParseEntries(data, pos + Min(5, |data| - pos), b, k - 1);
      ([(b[0], FromLittleEndian(b[1..5]))] + rest.0, rest.1)
  }

  /** The layout `read` parses, with the position after the header. Short
      input is read as far as it goes, the buffers keeping what they held. */
  function Parse(data: seq<bv8>): (r: (Header, nat))
    ensures r.1 <= |data|
  {
    var sizeBuf := Filled([0, 0, 0, 0, 0, 0, 0, 0], data, 0);
    var p1 := Min(8, |data|);
    var countBuf := Filled([0], data, p1);
    var p2 := p1 + Min(1, |data| - p1);
    var entries := ParseEntries(data, p2, [0, 0, 0, 0, 0], countBuf[0] as nat);
    (Header(entries.0, FromLittleEndian(sizeBuf)), entries.1)
  }

  /** A read from a byte slice into `buf`: copies as many bytes as fit or
      remain, returns that number and leaves the rest of `buf` untouched. */
  method ReadSlice(data: seq<bv8>, pos: nat, buf: array<bv8>) returns (n: nat)
    requires pos <= |data|
    modifies buf
    ensures n == Min(buf.Length, |data| - pos)
    ensures buf[..] == Filled(old(buf[..]), data, pos)
  {
    n := Min(buf.Length, |data| - pos);
    for i := 0 to n
      invariant forall j :: 0 <= j < i ==> buf[j] == data[pos + j]
      invariant forall j :: i <= j < buf.Length ==> buf[j] == old(buf[j])
    {
      buf[i] := data[pos + i];
    }
  }

  /** The loop of `read`: `k` entries read through one 5-byte buffer. */
  method ReadEntries(data: seq<bv8>, start: nat, k: nat) returns (counts: seq<Entry>, pos: nat)
    requires start <= |data|
    ensures (counts, pos) == ParseEntries(data, start, [0, 0, 0, 0, 0], k)
  {
    counts := [];
    pos := start;
    var buf := new bv8[5](_ => 0);
    assert buf[..] == [0, 0, 0, 0, 0];
    ghost var goal := ParseEntries(data, start, [0, 0, 0, 0, 0], k);
    ghost var held: seq<bv8> := [0, 0, 0, 0, 0];
    var left := k;
    while left > 0
      invariant pos <= |data| && buf.Length == 5 && buf[..] == held
      invariant goal.0 == counts + ParseEntries(data, pos, held, left).0
      invariant goal.1 == ParseEntries(data, pos, held, left).1
    {
      ghost var countsBefore, heldBefore, posBefore := counts, held, pos;
      var n := ReadSlice(data, pos, buf);
      var contents := buf[..];
      var symbol := contents[0];
      var count := FromLittleEndian(contents[1..5]);
      pos := pos + n;
      held := contents;
      counts := counts + [(symbol, count)];
      left := left - 1;
      EntriesStep(goal, countsBefore, counts, data, posBefore, heldBefore, left, held, pos);
    }
    assert counts + [] == counts;
  }

  /** One turn of `read`'s loop keeps the entries read so far, followed by
      the entries still to read, equal to the whole table. */
  lemma EntriesStep(goal: (seq<Entry>, nat), before: seq<Entry>, after: seq<Entry>, data: seq<bv8>,
                    pos: nat, buf: seq<bv8>, rest: nat, b: seq<bv8>, next: nat)
    requires pos <= |data| && |buf| == 5
    requires b == Filled(buf, data, pos) && next == pos + Min(5, |data| - pos)
    requires after == before + [(b[0], FromLittleEndian(b[1..5]))]
    requires goal.0 == before + ParseEntries(data, pos, buf, rest + 1).0
    requires goal.1 == ParseEntries(data, pos, buf, rest + 1).1
    ensures next <= |data|
    ensures goal.0 == after + ParseEntries(data, next, b, rest).0
    ensures goal.1 == ParseEntries(data, next, b, rest).1
  {
    ParseEntriesStep(data, pos, buf, rest + 1, b, next);
  }

  lemma ParseEntriesStep(data: seq<bv8>, pos: nat, buf: seq<bv8>, k: nat, b: seq<bv8>, next: nat)
    requires pos <= |data| && |buf| == 5 && k > 0
    requires b == Filled(buf, data, pos) && next == pos + Min(5, |data| - pos)
    ensures next <= |data|
    ensures ParseEntries(data, pos, buf, k).0
            == [(b[0], FromLittleEndian(b[1..5]))] + ParseEntries(data, next, b, k - 1).0
    ensures ParseEntries(data, pos, buf, k).1 == ParseEntries(data, next, b, k - 1).1
  {
  }

  lemma ParseFront(data: seq<bv8>, sizeBuf: seq<bv8>, p1: nat, countBuf: seq<bv8>, p2: nat)
    requires sizeBuf == Filled([0, 0, 0, 0, 0, 0, 0, 0], data, 0) && p1 == Min(8, |data|)
    requires countBuf == Filled([0], data, p1) && p2 == p1 + Min(1, |data| - p1)
    ensures p2 <= |data|
    ensures Parse(data).0
            == Header(ParseEntries(data, p2, [0, 0, 0, 0, 0], countBuf[0] as nat).0, FromLittleEndian(sizeBuf))
    ensures Parse(data).1 == ParseEntries(data, p2, [0, 0, 0, 0, 0], countBuf[0] as nat).1
  {
  }

  /** read: parses the layout of `write` from the front of `data` and
      returns the header and the position of the first byte after it. */
  method Read(data: seq<bv8>) returns (h: Header, pos: nat)
    ensures (h, pos) == Parse(data)
  {
    var sizeBuf := new bv8[8](_ => 0);
    assert sizeBuf[..] == [0, 0, 0, 0, 0, 0, 0, 0];
    var n := ReadSlice(data, 0, sizeBuf);
    var sizeBytes := sizeBuf[..];
    pos := n;
    var filesize := FromLittleEndian(sizeBytes);
    var countBuf := new bv8[1](_ => 0);
    assert countBuf[..] == [0];
    n := ReadSlice(data, pos, countBuf);
    var countBytes := countBuf[..];
    ghost var p1 := pos;
    pos := pos + n;
    ParseFront(data, sizeBytes, p1, countBytes, pos);
    var size := countBytes[0];
    var counts;
    counts, pos := ReadEntries(data, pos, size as nat);
    h := Header(counts, filesize);
  }

  /** The writer's layout read back gives the header and the position after
      it, whatever follows, when the table has at most 255 entries, every
      count fits in 32 bits and the file size in 64. */
  lemma RoundTrip(h: Header, rest: seq<bv8>)
    requires |h.counts| <= 255
    requires forall i :: 0 <= i < |h.counts| ==> h.counts[i].1 < U32_LIMIT
    requires h.filesize < U64_LIMIT
    ensures Parse(Serialize(h) + rest) == (h, 9 + 5 * |h.counts|)
  {
    var data := Serialize(h) + rest;
    SerializedFields(h, rest, data);
    CountField(|h.counts|, data);
    ParseLaidOut(h, data);
  }

  /** Bytes laid out as `write` lays out `h` parse back to `h`, whatever
      follows them. */
  lemma ParseLaidOut(h: Header, data: seq<bv8>)
    requires forall i :: 0 <= i < |h.counts| ==> h.counts[i].1 < U32_LIMIT
    requires h.filesize < U64_LIMIT
    requires |data| >= 9 + 5 * |h.counts|
    requires data[..8] == LittleEndian(h.filesize, 8)
    requires data[8] as nat == |h.counts|
    requires data[9..9 + 5 * |h.counts|] == EntryBytes(h.counts)
    ensures Parse(data) == (h, 9 + 5 * |h.counts|)
  {
    ParseComplete(data);
    SizeField(h.filesize, data);
    EntriesAt(h.counts, data);
  }

  /** The table that follows the count byte is read back. */
  lemma EntriesAt(counts: seq<Entry>, data: seq<bv8>)
    requires forall i :: 0 <= i < |counts| ==> counts[i].1 < U32_LIMIT
    requires |data| >= 9 + 5 * |counts| && data[8] as nat == |counts|
    requires data[9..9 + 5 * |counts|] == EntryBytes(counts)
    ensures ParseEntries(data, 9, [0, 0, 0, 0, 0], data[8] as nat) == (counts, 9 + 5 * |counts|)
  {
    EntriesRoundTrip(counts, data, 9, [0, 0, 0, 0, 0]);
  }

  /** With nine bytes or more present, the size is the first eight and the
      entry count the ninth. */
  lemma ParseComplete(data: seq<bv8>)
    requires |data| >= 9
    ensures Parse(data).0.filesize == FromLittleEndian(data[..8])
    ensures Parse(data).0.counts == ParseEntries(data, 9, [0, 0, 0, 0, 0], data[8] as nat).0
    ensures Parse(data).1 == ParseEntries(data, 9, [0, 0, 0, 0, 0], data[8] as nat).1
  {
    var sizeBuf := Filled([0, 0, 0, 0, 0, 0, 0, 0], data, 0);
    var countBuf := Filled([0], data, 8);
    assert sizeBuf == data[..8];
    assert countBuf[0] == data[8];
    ParseFront(data, sizeBuf, 8, countBuf, 9);
  }

  /** Where the fields of a written header sit in front of what follows it. */
  lemma SerializedFields(h: Header, rest: seq<bv8>, data: seq<bv8>)
    requires data == Serialize(h) + rest
    ensures |data| >= 9 + 5 * |h.counts|
    ensures data[..8] == LittleEndian(h.filesize, 8)
    ensures data[8] == (|h.counts| % 256) as bv8
    ensures data[9..9 + 5 * |h.counts|] == EntryBytes(h.counts)
  {
  }

  /** The size field written at the front is read back. */
  lemma SizeField(filesize: nat, data: seq<bv8>)
    requires filesize < U64_LIMIT && |data| >= 8 && data[..8] == LittleEndian(filesize, 8)
    ensures FromLittleEndian(data[..8]) == filesize
  {
    assert Pow256(8) == U64_LIMIT;
    LittleEndianRoundTrip(filesize, 8);
  }

  /** The entry count byte written after the size is read back. */
  lemma CountField(n: nat, data: seq<bv8>)
    requires n < 256 && |data| > 8 && data[8] == (n % 256) as bv8
    ensures data[8] as nat == n
  {
    ByteValue(n);
  }

  /** One entry's bytes read back give the entry, when its count fits in
      32 bits. */
  lemma EntryRoundTrip(e: Entry)
    requires e.1 < U32_LIMIT
    ensures EntryOf(e)[0] == e.0 && FromLittleEndian(EntryOf(e)[1..5]) == e.1
  {
    assert Pow256(4) == U32_LIMIT;
    assert EntryOf(e)[1..5] == LittleEndian(e.1, 4);
    LittleEndianRoundTrip(e.1, 4);
  }

  /** The entry loop reads back the table written at `pos`. */
  lemma {:induction false} EntriesRoundTrip(counts: seq<Entry>, data: seq<bv8>, pos: nat, buf: seq<bv8>)
    requires forall i :: 0 <= i < |counts| ==> counts[i].1 < U32_LIMIT
    requires |buf| == 5 && pos + 5 * |counts| <= |data|
    requires data[pos..pos + 5 * |counts|] == EntryBytes(counts)
    ensures ParseEntries(data, pos, buf, |counts|) == (counts, pos + 5 * |counts|)
    decreases |counts|
  {
    if counts != [] {
      var all := data[pos..pos + 5 * |counts|];
      assert all == EntryOf(counts[0]) + EntryBytes(counts[1..]);
      var b := Filled(buf, data, pos);
      assert b == data[pos..pos + 5] == all[..5];
      EntryRoundTrip(counts[0]);
      assert data[pos + 5..pos + 5 + 5 * |counts[1..]|] == all[5..];
      EntriesRoundTrip(counts[1..], data, pos + 5, b);
      assert counts == [counts[0]] + counts[1..];
    }
  }

  lemma FromLittleEndianCons(x: bv8, rest: seq<bv8>)
    ensures FromLittleEndian([x] + rest) == x as nat + 256 * FromLittleEndian(rest)
  {
    assert ([x] + rest)[1..] == rest;
  }

  lemma {:induction false} FromLittleEndianZeros(k: nat)
    ensures FromLittleEndian(Zeros(k)) == 0
  {
    if k > 0 {
      assert Zeros(k)[1..] == Zeros(k - 1);
      FromLittleEndianZeros(k - 1);
    }
  }

  /** An entry whose count is below 256: the symbol, the count, three zeros. */
  lemma EntrySmall(symbol: bv8, count: nat)
    requires count < 256
    ensures EntryOf((symbol, count)) == [symbol, count as bv8, 0, 0, 0]
  {
    assert count % U32_LIMIT == count;
    LittleEndianSmall(count, 4);
  }

  lemma EntryBytesThree(a: Entry, b: Entry, c: Entry)
    ensures EntryBytes([a, b, c]) == EntryOf(a) + EntryOf(b) + EntryOf(c)
  {
    assert [a, b, c][1..] == [b, c];
    assert [b, c][1..] == [c];
    assert [c][1..] == [];
    assert EntryBytes([c]) == EntryOf(c);
    assert EntryBytes([b, c]) == EntryOf(b) + EntryOf(c);
  }

  lemma SerializeSplit(h: Header)
    requires |h.counts| == 3
    ensures Serialize(h) == LittleEndian(h.filesize, 8) + [(|h.counts| % 256) as bv8]
                            + (EntryOf(h.counts[0]) + EntryOf(h.counts[1]) + EntryOf(h.counts[2]))
  {
    var counts := h.counts;
    assert counts == [counts[0], counts[1], counts[2]];
    EntryBytesThree(counts[0], counts[1], counts[2]);
  }

  /** The "abacba" table with file size 10 is written as in header.rs's
      test: file size, entry count, then each symbol with its count. */
  lemma AbacbaHeaderBytes(h: Header)
    requires h == Header([(0x61, 3), (0x62, 2), (0x63, 1)], 10)
    ensures Serialize(h)
            == [0x0A, 0, 0, 0, 0, 0, 0, 0] + [0x03]
               + [0x61, 0x03, 0, 0, 0] + [0x62, 0x02, 0, 0, 0] + [0x63, 0x01, 0, 0, 0]
  {
    var counts := h.counts;
    SerializeSplit(h);
    CountByte(|counts|);
    ByteOf(|counts|, 3);
    LittleEndianSmall(h.filesize, 8);
    ByteOf(h.filesize, 0x0A);
    assert Zeros(7) == [0, 0, 0, 0, 0, 0, 0];
    EntrySmall(counts[0].0, counts[0].1);
    EntrySmall(counts[1].0, counts[1].1);
    EntrySmall(counts[2].0, counts[2].1);
    ByteOf(counts[0].1, 3);
    ByteOf(counts[1].1, 2);
    ByteOf(counts[2].1, 1);
  }

  lemma SerializeExample(h: Header)
    requires h == Header([(0x61, 3), (0x62, 2), (0x63, 1)], 2677)
    ensures Serialize(h)
            == [0x75, 0x0A, 0, 0, 0, 0, 0, 0] + [0x03]
               + [0x61, 0x03, 0, 0, 0] + [0x62, 0x02, 0, 0, 0] + [0x63, 0x01, 0, 0, 0]
  {
    var counts := h.counts;
    SerializeSplit(h);
    CountByte(|counts|);
    ByteOf(|counts|, 3);
    LittleEndianTwo(h.filesize, 0x75, 0x0A, 8);
    ByteOf(0x75, 0x75);
    ByteOf(0x0A, 0x0A);
    assert Zeros(6) == [0, 0, 0, 0, 0, 0];
    EntrySmall(counts[0].0, counts[0].1);
    EntrySmall(counts[1].0, counts[1].1);
    EntrySmall(counts[2].0, counts[2].1);
    ByteOf(counts[0].1, 3);
    ByteOf(counts[1].1, 2);
    ByteOf(counts[2].1, 1);
  }

  /** File size bytes 75 0A 00 .. read as 2677, the entries in order. */
  lemma ReadHeaderExample(data: seq<bv8>)
    requires data == [0x75, 0x0A, 0, 0, 0, 0, 0, 0] + [0x03]
                     + [0x61, 0x03, 0, 0, 0] + [0x62, 0x02, 0, 0, 0] + [0x63, 0x01, 0, 0, 0]
    ensures Parse(data).0 == Header([(0x61, 3), (0x62, 2), (0x63, 1)], 2677)
  {
    var h := Header([(0x61, 3), (0x62, 2), (0x63, 1)], 2677);
    SerializeExample(h);
    assert data == Serialize(h) + [];
    RoundTrip(h, []);
  }
}
