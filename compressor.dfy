/** The library of the compressor, lib.rs: the frequency count of the input,
    the step-wise decoder, and compress / decompress over byte sequences
    instead of files. The tree it builds is the one of tree.rs, modelled
    once in HuffmanCoding. */
module Compressor {
  import opened Wrappers
  import opened BitManipulation
  import opened HuffmanCoding
  import opened HeaderCodec
  import HuffmanEncoding
  import Utf8

  /** The position of the entry for byte `c` in a frequency table, if any. */
  function IndexOf(counts: seq<Entry>, c: bv8): (r: Option<nat>)
    ensures r.Some? ==> r.value < |counts| && counts[r.value].0 == c
    ensures r.Some? ==> forall i :: 0 <= i < r.value ==> counts[i].0 != c
    ensures r.None? ==> forall i :: 0 <= i < |counts| ==> counts[i].0 != c
  {
    if counts == [] then None
    else if counts[0].0 == c then Some(0)
    else match IndexOf(counts[1..], c)
      case None => None
      case Some(i) => Some(i + 1)
  }

  /** One byte counted: a byte seen before has its count bumped; a new byte
      gets an entry at the end, pushed with count 0 and then bumped. */
  function Tally(counts: seq<Entry>, c: bv8): seq<Entry>
  {
    match IndexOf(counts, c)
    case Some(i) => counts[i := (c, counts[i].1 + 1)]
    case None => counts + [(c, 1)]
  }

  /** The table count_frequencies builds from the bytes of `s`. */
  function Frequencies(s: seq<bv8>): seq<Entry>
  {
    if s == [] then [] else Tally(Frequencies(s[..|s| - 1]), s[|s| - 1])
  }

  /** count_frequencies: one pass over the bytes; the map from byte to
      table position says where each byte already seen is counted. */
  method CountFrequencies(s: seq<bv8>) returns (counts: seq<Entry>)
    ensures counts == Frequencies(s)
  {
    var index: map<int, nat> := map[];
    counts := [];
    for k := 0 to |s|
      invariant counts == Frequencies(s[..k])
      invariant Indexed(index, counts)
    {
      var c := s[k];
      ghost var before := counts;
      assert s[..k + 1][..k] == s[..k];
      if c as int !in index {
        PushIndexed(index, counts, c);
        counts := counts + [(c, 0)];
        index := index[c as int := |counts| - 1];
      }
      var idx := index[c as int];
      var (_, count) := counts[idx];
      BumpIndexed(index, counts, c);
      counts := counts[idx := (c, count + 1)];
      TallyPushBump(before, counts, c, idx);
    }
    assert s[..|s|] == s;
  }

  /** The byte-to-position map of count_frequencies (keyed by the byte's
      value) agrees with a table without repeated bytes. */
  predicate Indexed(index: map<int, nat>, counts: seq<Entry>)
  {
    Distinct(counts)
    && (forall k :: k in index ==> 0 <= index[k] < |counts| && counts[index[k]].0 as int == k)
    && (forall i :: 0 <= i < |counts| ==> counts[i].0 as int in index)
  }

  /** A byte without a position is new: its entry is pushed with count 0. */
  lemma PushIndexed(index: map<int, nat>, counts: seq<Entry>, c: bv8)
    requires Indexed(index, counts) && c as int !in index
    ensures IndexOf(counts, c).None?
    ensures Indexed(index[c as int := |counts|], counts + [(c, 0)])
  {
    var pushed := counts + [(c, 0)];
    forall i, j | 0 <= i < j < |pushed|
      ensures pushed[i].0 != pushed[j].0
    {
      if j == |counts| {
        assert counts[i].0 as int in index;
      }
    }
  }

  /** Bumping the count at the position of `c` keeps the map in agreement. */
  lemma BumpIndexed(index: map<int, nat>, counts: seq<Entry>, c: bv8)
    requires Indexed(index, counts) && c as int in index
    ensures IndexOf(counts, c) == Some(index[c as int])
    ensures Indexed(index, counts[index[c as int] := (c, counts[index[c as int]].1 + 1)])
  {
    var i := index[c as int];
    SameValue(counts[i].0, c);
    IndexOfDistinct(counts, i);
    SameBytesIndexed(index, counts, counts[i := (c, counts[i].1 + 1)]);
  }

  /** Two bytes with the same value are the same byte. */
  lemma SameValue(a: bv8, b: bv8)
    requires a as int == b as int
    ensures a == b
  {
  }

  /** Only the bytes of a table matter to the map's agreement with it. */
  lemma SameBytesIndexed(index: map<int, nat>, counts: seq<Entry>, other: seq<Entry>)
    requires Indexed(index, counts)
    requires |other| == |counts| && forall j :: 0 <= j < |counts| ==> other[j].0 == counts[j].0
    ensures Indexed(index, other)
  {
  }

  /** The table after one iteration is Tally of the table before it. */
  lemma TallyPushBump(before: seq<Entry>, after: seq<Entry>, c: bv8, i: nat)
    requires i < |after| && after[i] == (c, after[i].1)
    requires IndexOf(before, c).Some? ==> IndexOf(before, c) == Some(i) && after == before[i := (c, before[i].1 + 1)]
    requires IndexOf(before, c).None? ==> i == |before| && after == (before + [(c, 0)])[i := (c, 1)]
    ensures after == Tally(before, c)
  {
    if IndexOf(before, c).None? {
      assert after == before + [(c, 1)];
    }
  }

  /** No byte has two entries in the table. */
  predicate Distinct(counts: seq<Entry>)
  {
    forall i, j :: 0 <= i < j < |counts| ==> counts[i].0 != counts[j].0
  }

  /** In a table without repeated bytes, the entry at `i` is the one found
      for its byte. */
  lemma IndexOfDistinct(counts: seq<Entry>, i: nat)
    requires Distinct(counts) && i < |counts|
    ensures IndexOf(counts, counts[i].0) == Some(i)
  {
  }

  /** Counting a byte never repeats a byte in the table. */
  lemma TallyDistinct(counts: seq<Entry>, c: bv8)
    requires Distinct(counts)
    ensures Distinct(Tally(counts, c))
  {
  }

  /** The count a table holds for byte `c`; 0 when it has no entry. */
  function CountOf(counts: seq<Entry>, c: bv8): nat
  {
    match IndexOf(counts, c)
    case Some(i) => counts[i].1
    case None => 0
  }

  /** Replacing an entry by one for the same byte moves no byte. */
  lemma IndexOfUpdate(counts: seq<Entry>, i: nat, e: Entry, d: bv8)
    requires i < |counts| && counts[i].0 == e.0
    ensures IndexOf(counts[i := e], d) == IndexOf(counts, d)
  {
    var r := IndexOf(counts, d);
    if r.Some? {
      assert counts[i := e][r.value].0 == d;
    }
  }

  /** Appending an entry keeps the bytes already listed where they are. */
  lemma IndexOfAppend(counts: seq<Entry>, e: Entry, d: bv8)
    ensures IndexOf(counts + [e], d)
            == if IndexOf(counts, d).Some? then IndexOf(counts, d)
               else if e.0 == d then Some(|counts|) else None
  {
    if IndexOf(counts, d).Some? {
      assert (counts + [e])[IndexOf(counts, d).value].0 == d;
    } else if e.0 == d {
      assert (counts + [e])[|counts|].0 == d;
    }
  }

  /** Counting `c` adds one to the count of `c`, and to nothing else; `c`
      gets an entry if it had none. */
  lemma TallyCount(counts: seq<Entry>, c: bv8, d: bv8)
    ensures IndexOf(Tally(counts, c), d).Some? <==> IndexOf(counts, d).Some? || d == c
    ensures CountOf(Tally(counts, c), d) == CountOf(counts, d) + if d == c then 1 else 0
  {
    match IndexOf(counts, c)
    case Some(i) =>
      IndexOfUpdate(counts, i, (c, counts[i].1 + 1), d);
    case None =>
      IndexOfAppend(counts, (c, 1), d);
  }

  /** The number of positions of `s` that hold `d`. */
  function Occurrences(s: seq<bv8>, d: bv8): (n: nat)
    ensures n <= |s|
    ensures n == 0 <==> d !in s
  {
    if s == [] then 0
    else
      assert s == s[..|s| - 1] + [s[|s| - 1]];
      Occurrences(s[..|s| - 1], d) + if s[|s| - 1] == d then 1 else 0
  }

  /** The table of `s` has an entry for exactly the bytes of `s`, and the
      entry of each byte counts its occurrences. */
  lemma {:induction false} FrequenciesCount(s: seq<bv8>, d: bv8)
    ensures IndexOf(Frequencies(s), d).Some? <==> d in s
    ensures CountOf(Frequencies(s), d) == Occurrences(s, d)
    decreases |s|
  {
    if s != [] {
      var init := s[..|s| - 1];
      var x := s[|s| - 1];
      FrequenciesCount(init, d);
      TallyCount(Frequencies(init), x, d);
      assert s == init + [x];
    }
  }

  /** The table of `s` lists no byte twice, and every count in it is
      positive. */
  lemma {:induction false} FrequenciesDistinct(s: seq<bv8>)
    ensures Distinct(Frequencies(s))
    ensures forall i :: 0 <= i < |Frequencies(s)| ==> Frequencies(s)[i].1 > 0
    decreases |s|
  {
    if s != [] {
      FrequenciesDistinct(s[..|s| - 1]);
      TallyDistinct(Frequencies(s[..|s| - 1]), s[|s| - 1]);
    }
  }

  /** Changing one count changes the total by the difference. */
  lemma {:induction false} TotalUpdate(counts: seq<Entry>, i: nat, e: Entry)
    requires i < |counts|
    ensures Total(counts[i := e]) + counts[i].1 == Total(counts) + e.1
    decreases |counts|
  {
    var n := |counts| - 1;
    if i == n {
      assert counts[i := e][..n] == counts[..n];
    } else {
      assert counts[i := e][..n] == counts[..n][i := e];
      TotalUpdate(counts[..n], i, e);
    }
  }

  /** The counts of the table of `s` add up to the length of `s`: the
      tree's root count is the file size the header records. */
  lemma {:induction false} FrequenciesTotal(s: seq<bv8>)
    ensures Total(Frequencies(s)) == |s|
    decreases |s|
  {
    if s != [] {
      var init := s[..|s| - 1];
      var x := s[|s| - 1];
      var counts := Frequencies(init);
      FrequenciesTotal(init);
      match IndexOf(counts, x)
      case Some(i) =>
        TotalUpdate(counts, i, (x, counts[i].1 + 1));
      case None =>
        assert (counts + [(x, 1)])[..|counts|] == counts;
    }
  }

  /** The position of the first occurrence of `c` in `s`. */
  function First(s: seq<bv8>, c: bv8): (k: nat)
    requires c in s
    ensures k < |s| && s[k] == c && c !in s[..k]
    decreases |s|
  {
    var init := s[..|s| - 1];
    if c in init then
      var k := First(init, c);
      assert s[..k] == init[..k];
      k
    else
      assert s[..|s| - 1] == init;
      |s| - 1
  }

  /** The bytes of `counts` all occur in `s`, listed in the order of
      their first occurrence. */
  predicate InFirstOrder(s: seq<bv8>, counts: seq<Entry>)
  {
    (forall i :: 0 <= i < |counts| ==> counts[i].0 in s)
    && forall i, j :: 0 <= i < j < |counts| ==> First(s, counts[i].0) < First(s, counts[j].0)
  }

  /** The table lists the bytes of `s` in the order of their first
      occurrence. */
  lemma {:induction false} FrequenciesOrder(s: seq<bv8>)
    ensures InFirstOrder(s, Frequencies(s))
    decreases |s|
  {
    if s != [] {
      var init := s[..|s| - 1];
      var x := s[|s| - 1];
      var counts := Frequencies(init);
      FrequenciesOrder(init);
      assert s == init + [x];
      assert Frequencies(s) == Tally(counts, x);
      if IndexOf(counts, x).Some? {
        var i := IndexOf(counts, x).value;
        OrderSameBytes(init, x, counts, counts[i := (x, counts[i].1 + 1)]);
      } else {
        FrequenciesCount(init, x);
        OrderNewByte(init, x, counts);
      }
    }
  }

  /** A count bumped by a byte already seen keeps the order. */
  lemma OrderSameBytes(init: seq<bv8>, x: bv8, counts: seq<Entry>, bumped: seq<Entry>)
    requires InFirstOrder(init, counts)
    requires |bumped| == |counts| && forall j :: 0 <= j < |counts| ==> bumped[j].0 == counts[j].0
    ensures InFirstOrder(init + [x], bumped)
  {
    forall b | b in init
      ensures First(init + [x], b) == First(init, b)
    {
      FirstPrefix(init, x, b);
    }
  }

  /** A new byte pushed at the end occurs first after all the others. */
  lemma OrderNewByte(init: seq<bv8>, x: bv8, counts: seq<Entry>)
    requires InFirstOrder(init, counts) && x !in init
    ensures InFirstOrder(init + [x], counts + [(x, 1)])
  {
    var s := init + [x];
    var t := counts + [(x, 1)];
    forall b | b in init
      ensures First(s, b) == First(init, b)
    {
      FirstPrefix(init, x, b);
    }
    assert First(s, x) == |init|;
    forall i | 0 <= i < |t|
      ensures t[i].0 in s
    {
      if i < |counts| {
        assert t[i] == counts[i];
      }
    }
  }

  /** Appending a byte leaves the first occurrences of the earlier bytes. */
  lemma FirstPrefix(init: seq<bv8>, x: bv8, b: bv8)
    requires b in init
    ensures First(init + [x], b) == First(init, b)
  {
    assert (init + [x])[..|init|] == init;
  }
  /** The table of one byte more is that byte counted into the table. */
  lemma FrequenciesStep(s: seq<bv8>, k: nat)
    requires k < |s|
    ensures Frequencies(s[..k + 1]) == Tally(Frequencies(s[..k]), s[k])
  {
    assert s[..k + 1][..k] == s[..k];
  }

  /** A byte not yet in the table is pushed with count 1. */
  lemma CountNew(s: seq<bv8>, k: nat, before: seq<Entry>)
    requires k < |s| && Frequencies(s[..k]) == before
    requires forall i :: 0 <= i < |before| ==> before[i].0 != s[k]
    ensures Frequencies(s[..k + 1]) == before + [(s[k], 1)]
  {
    FrequenciesStep(s, k);
  }

  /** A byte already at position `i` of the table has its count bumped. */
  lemma CountSeen(s: seq<bv8>, k: nat, before: seq<Entry>, i: nat)
    requires k < |s| && Frequencies(s[..k]) == before
    requires i < |before| && before[i].0 == s[k]
    requires forall j :: 0 <= j < i ==> before[j].0 != s[k]
    ensures Frequencies(s[..k + 1]) == before[i := (s[k], before[i].1 + 1)]
  {
    FrequenciesStep(s, k);
  }

  /** The count of "aa". */
  lemma FrequenciesTwice(s: seq<bv8>)
    requires s == [0x61, 0x61]
    ensures Frequencies(s) == [(0x61, 2)]
  {
    FrequenciesStep(s, 0);
    FrequenciesStep(s, 1);
    assert s[..2] == s;
  }

  /** The counts of "abacba", from which the tests build their tree. */
  lemma FrequenciesAbacba(s: seq<bv8>)
    requires |s| == 6 && s[0] == 0x61 && s[1] == 0x62 && s[2] == 0x61
    requires s[3] == 0x63 && s[4] == 0x62 && s[5] == 0x61
    ensures Frequencies(s) == [(0x61, 3), (0x62, 2), (0x63, 1)]
  {
    AbacbaPrefix(s);
    var t := [(0x61, 2), (0x62, 1), (0x63, 1)];
    CountSeen(s, 4, t, 1);
    CountSeen(s, 5, t[1 := (0x62, 2)], 0);
    assert s[..6] == s;
  }

  /** The counts of "abac". */
  lemma AbacbaPrefix(s: seq<bv8>)
    requires |s| == 6 && s[0] == 0x61 && s[1] == 0x62 && s[2] == 0x61 && s[3] == 0x63
    ensures Frequencies(s[..4]) == [(0x61, 2), (0x62, 1), (0x63, 1)]
  {
    AbacbaHalf(s);
    CountNew(s, 3, [(0x61, 2), (0x62, 1)]);
  }

  /** The counts of "aba". */
  lemma AbacbaHalf(s: seq<bv8>)
    requires |s| == 6 && s[0] == 0x61 && s[1] == 0x62 && s[2] == 0x61
    ensures Frequencies(s[..3]) == [(0x61, 2), (0x62, 1)]
  {
    assert s[..0] == [];
    CountNew(s, 0, []);
    CountNew(s, 1, [(0x61, 1)]);
    CountSeen(s, 2, [(0x61, 1), (0x62, 1)], 0);
  }
  /** Following one more bit from a node reached along `path` reaches the
      child that bit selects. */
  lemma {:induction false} FollowSnoc(t: Tree, path: seq<bv8>, bit: bv8)
    requires Follow(t, path).Some? && Follow(t, path).value.Node?
    ensures Follow(t, path + [bit]) == Some(Move(t, Follow(t, path).value, bit))
    decreases |path|
  {
    if path != [] {
      var next := if path[0] == 0 then t.left else t.right;
      assert (path + [bit])[1..] == path[1..] + [bit];
      FollowSnoc(next, path[1..], bit);
    }
  }

  /** The step-wise decoder of lib.rs: `current` is the subtree reached so
      far; the ghost `path` is the bits that led there from the root. */
  class HuffmanDecoder {
    const tree: Tree
    var current: Tree
    ghost var path: seq<bv8>

    /** `current` is where `path` leads, and it is a leaf only when the
        whole tree is that leaf. */
    ghost predicate Valid()
      reads this
    {
      Follow(tree, path) == Some(current) && (current.Leaf? ==> current == tree && path == [])
    }

    /** new: the walk starts at the root. */
    constructor (tree: Tree)
      ensures this.tree == tree && current == tree && path == []
      ensures Valid()
    {
      this.tree := tree;
      current := tree;
      path := [];
    }

    /** step: moves down the tree by one bit (from a leaf, back to the root
        first); a leaf reached gives its symbol and sends the walk back to
        the root. On a tree with more than one leaf, the bits taken since
        the last symbol then form the path from the root to that leaf. */
    method Step(bit: bv8) returns (r: DecodeResult)
      requires Valid()
      modifies this
      ensures Valid()
      ensures (current, r) == Walk(tree, old(current), bit)
      ensures r.Decoding? ==> path == old(path) + [bit]
      ensures r.Decoded? ==> path == []
      ensures r.Decoded? && tree.Node? ==> LeadsTo(tree, old(path) + [bit], r.symbol)
    {
      match current {
        case Node(_, left, right) =>
          FollowSnoc(tree, path, bit);
          if bit == 0 {
            current := left;
          } else {
            current := right;
          }
          path := path + [bit];
        case Leaf(_, _) =>
          current := tree;
      }
      match current {
        case Node(_, _, _) =>
          r := Decoding;
        case Leaf(_, value) =>
          current := tree;
          path := [];
          r := Decoded(value);
      }
    }
  }

  /** The steps of the lib.rs decoder test on the tree of "abacba": 0 gives
      a; 1 then 1 gives b; 1 then 0 gives c. */
  lemma StepExample(t: Tree)
    requires t == Node(6, Leaf(3, 0x61), Node(3, Leaf(1, 0x63), Leaf(2, 0x62)))
    ensures Walk(t, t, 0) == (t, Decoded(0x61))
    ensures Walk(t, t, 1) == (t.right, Decoding)
    ensures Walk(t, t.right, 1) == (t, Decoded(0x62))
    ensures Walk(t, t.right, 0) == (t, Decoded(0x63))
  {
  }
  /** The tree compress builds for `input`. */
  function TreeOf(input: seq<bv8>): (t: Tree)
    requires |input| > 0
    ensures forall i :: 0 <= i < |input| ==> input[i] in Symbols(t)
  {
    InputInTree(input);
    Build(LeafHeap(Frequencies(input)))
  }

  /** A non-empty input has a non-empty table, and every byte of it is held
      by a leaf of its tree. */
  lemma InputInTree(input: seq<bv8>)
    requires |input| > 0
    ensures |Frequencies(input)| > 0
    ensures forall i :: 0 <= i < |input| ==> input[i] in Symbols(Build(LeafHeap(Frequencies(input))))
  {
    var counts := Frequencies(input);
    FrequenciesCount(input, input[0]);
    var heap := LeafHeap(counts);
    BuildFacts(heap);
    LeafHeapFacts(counts);
    var t := Build(heap);
    forall i | 0 <= i < |input|
      ensures input[i] in Symbols(t)
    {
      FrequenciesCount(input, input[i]);
      var j := IndexOf(counts, input[i]).value;
      assert counts[j] in multiset(counts);
      assert (input[i], counts[j].1) in Leaves(t);
      SymbolsOfLeaves(t, input[i]);
    }
  }

  /** The bytes compress writes for `input`: the header (the table and the
      length of the input), then the codes of its bytes, packed. */
  function Compressed(input: seq<bv8>): seq<bv8>
    requires |input| > 0
  {
    var t := TreeOf(input);
    Serialize(Header(Frequencies(input), |input|)) + Pack(Codes(t, input))
  }

  /** The bytes decompress writes for `data`: the header is read, and the
      bits after it are decoded with the tree of its table until the
      header's file size is written or the bits run out. The table must not
      be empty (the tree construction fails on an empty one). */
  function Decompressed(data: seq<bv8>): seq<bv8>
    requires |Parse(data).0.counts| > 0
  {
    var (h, pos) := Parse(data);
    DecodeBits(Build(LeafHeap(h.counts)), Build(LeafHeap(h.counts)), Unpack(data[pos..]), 0, h.filesize)
  }

  /** How a run of compress or decompress ends: the bytes written to the
      output file, an error returned before the output file is created, or
      a panic (also before the output file is created). */
  datatype Outcome = Written(bytes: seq<bv8>) | Refused | Panicked

  /** The input bytes as the byte values the UTF-8 decoder takes. */
  function ByteValues(input: seq<bv8>): (bs: seq<Utf8.Byte>)
    ensures |bs| == |input| && forall i :: 0 <= i < |input| ==> bs[i] == input[i] as int
  {
    seq(|input|, i requires 0 <= i < |input| => input[i] as int)
  }

  /** `read_to_string` accepts the input: its bytes are well-formed UTF-8. */
  predicate IsText(input: seq<bv8>) {
    Utf8.Decode(ByteValues(input)).Some?
  }

  /** What compress does with the input file's bytes. Input that is not
      UTF-8 makes `read_to_string` return an error; an empty input makes
      the tree construction panic on its empty queue; any other input is
      compressed. */
  function CompressOutcome(input: seq<bv8>): (r: Outcome)
    ensures r.Refused? <==> !IsText(input)
    ensures r.Panicked? <==> IsText(input) && |input| == 0
    ensures r.Written? ==> |input| > 0 && r.bytes == Compressed(input)
  {
    if !IsText(input) then Refused
    else if |input| == 0 then Panicked
    else Written(Compressed(input))
  }

  /** What decompress does with the compressed file's bytes: a header whose
      table is empty makes the tree construction panic, and otherwise the
      bytes are decompressed. */
  function DecompressOutcome(data: seq<bv8>): (r: Outcome)
    ensures !r.Refused?
    ensures r.Panicked? <==> |Parse(data).0.counts| == 0
    ensures r.Written? ==> r.bytes == Decompressed(data)
  {
    if |Parse(data).0.counts| == 0 then Panicked else Written(Decompressed(data))
  }

  /** compress, with the input file's contents as `input` and what it
      writes to the output file, or how it fails, as `r`. The input's
      length is a 64-bit `usize`. */
  method Compress(input: seq<bv8>) returns (r: Outcome)
    requires |input| < U64_LIMIT
    ensures r == CompressOutcome(input)
  {
    if !IsText(input) {
      return Refused;
    }
    if |input| == 0 {
      return Panicked;
    }
    var counts := CountFrequencies(input);
    InputInTree(input);
    var tree := Create(counts);
    var header := Header(counts, |input|);
    var out := Write(header);
    var sink := EncodeInput(tree, input);
    r := Written(out + sink);
  }

  /** The encoding loop of compress: every byte's code through one bit
      writer, flushed at the end. */
  method EncodeInput(tree: Tree, input: seq<bv8>) returns (sink: seq<bv8>)
    requires forall i :: 0 <= i < |input| ==> input[i] in Symbols(tree)
    ensures sink == Pack(Codes(tree, input))
  {
    var writer := new BitWriter();
    for i := 0 to |input|
      invariant writer.Valid()
      invariant writer.Written() == Codes(tree, input[..i])
    {
      var encoded := Encode(tree, input[i]).value;
      HuffmanEncoding.CodesPrefix(tree, input, i);
      var _ := writer.Write(encoded);
    }
    writer.Flush();
    assert input[..|input|] == input;
    sink := writer.sink;
  }

  /** decompress, with the compressed file's contents as `data` and what
      it writes to the output file, or how it fails, as `r`. */
  method Decompress(data: seq<bv8>) returns (r: Outcome)
    ensures r == DecompressOutcome(data)
  {
    var header, pos := Read(data);
    if |header.counts| == 0 {
      return Panicked;
    }
    var tree := Create(header.counts);
    var out := DecodeInput(tree, header.filesize, data[pos..]);
    r := Written(out);
  }

  /** The decoding loop of decompress: one bit at a time through the step
      decoder, each symbol written, until `filesize` bytes are written or
      the bits run out. */
  method DecodeInput(tree: Tree, filesize: nat, source: seq<bv8>) returns (out: seq<bv8>)
    ensures out == DecodeBits(tree, tree, Unpack(source), 0, filesize)
  {
    var reader := new BitReader(source);
    var decoder := new HuffmanDecoder(tree);
    var buf := new bv8[1];
    out := [];
    var written := 0;
    ghost var goal := DecodeBits(tree, tree, Unpack(source), 0, filesize);
    ghost var bits := Unpack(source);
    ghost var current := tree;
    while true
      invariant reader.Valid() && fresh(reader) && fresh(decoder) && buf.Length == 1
      invariant decoder.Valid() && decoder.tree == tree && decoder.current == current
      invariant bits == reader.Remaining()
      invariant written == |out|
      invariant out + DecodeBits(tree, current, bits, written, filesize) == goal
      decreases |bits|
    {
      var count := reader.Read(buf);
      if count == 0 {
        assert out == goal;
        break;
      }
      FirstBit(buf[..], bits, count);
      var bit := buf[0];
      var r := decoder.Step(bit);
      DecodeStep(tree, current, bits, out, written, filesize, goal, decoder.current, r);
      current := decoder.current;
      bits := bits[1..];
      if r.Decoded? {
        out := out + [r.symbol];
        written := written + 1;
        if written >= filesize {
          break;
        }
      }
    }
  }

  /** One bit of the decompress loop, heap-free: the step decoder's move
      advances the decoding of the remaining bits by one bit. */
  lemma DecodeStep(root: Tree, current: Tree, bits: seq<bv8>, out: seq<bv8>, written: nat, filesize: nat,
                   goal: seq<bv8>, next: Tree, r: DecodeResult)
    requires |bits| > 0 && (next, r) == Walk(root, current, bits[0])
    requires out + DecodeBits(root, current, bits, written, filesize) == goal
    ensures var out' := if r.Decoded? then out + [r.symbol] else out;
            var written' := if r.Decoded? then written + 1 else written;
            if r.Decoded? && written' >= filesize then out' == goal
            else out' + DecodeBits(root, next, bits[1..], written', filesize) == goal
  {
  }
  /** A queue of more than one tree is merged into a node. */
  lemma {:induction false} BuildNode(heap: seq<Tree>)
    requires |heap| > 1
    ensures Build(heap).Node?
    decreases |heap|
  {
    var merged := Merged(heap);
    if |merged| > 1 {
      BuildNode(merged);
    } else {
      assert merged[0] == merged[|merged| - 1];
    }
  }

  /** Every count in the table of `input` is at most its length. */
  lemma CountsBounded(input: seq<bv8>)
    ensures forall i :: 0 <= i < |Frequencies(input)| ==> Frequencies(input)[i].1 <= |input|
  {
    var counts := Frequencies(input);
    FrequenciesDistinct(input);
    forall i | 0 <= i < |counts|
      ensures counts[i].1 <= |input|
    {
      IndexOfDistinct(counts, i);
      FrequenciesCount(input, counts[i].0);
    }
  }

  /** The header of compress's output is read back, and the packed codes
      follow it. */
  lemma HeaderOfCompressed(input: seq<bv8>, codes: seq<bv8>)
    requires 0 < |input| < U32_LIMIT && |Frequencies(input)| <= 255
    ensures var data := Serialize(Header(Frequencies(input), |input|)) + codes;
            Parse(data).0 == Header(Frequencies(input), |input|) && data[Parse(data).1..] == codes
  {
    var h := Header(Frequencies(input), |input|);
    CountsBounded(input);
    RoundTrip(h, codes);
  }

  /** Decompressing what compress writes gives the input back, when the
      input holds at least two different bytes (and at most 255, the most
      the header's count byte records) and its length fits the header's
      32-bit counts. */
  lemma CompressRoundTrip(input: seq<bv8>)
    requires 0 < |input| < U32_LIMIT
    requires 2 <= |Frequencies(input)| <= 255
    ensures |Parse(Compressed(input)).0.counts| > 0
    ensures Decompressed(Compressed(input)) == input
  {
    var t := TreeOf(input);
    var codes := Codes(t, input);
    HeaderOfCompressed(input, Pack(codes));
    UnpackPack(codes);
    BuildNode(LeafHeap(Frequencies(input)));
    DecodeCodes(t, input, Zeros(PadLength(|codes|)), 0, |input|);
  }

  /** The program's round trip: a UTF-8 input within the header's bounds is
      compressed, and what compress writes decompresses to the input. */
  lemma RunRoundTrip(input: seq<bv8>)
    requires IsText(input) && |input| < U32_LIMIT
    requires 2 <= |Frequencies(input)| <= 255
    ensures CompressOutcome(input) == Written(Compressed(input))
    ensures DecompressOutcome(Compressed(input)) == Written(input)
  {
    CompressRoundTrip(input);
  }

  /** A byte that starts no UTF-8 character is refused, and the empty file
      panics. */
  lemma CompressFailures()
    ensures CompressOutcome([0xFF]) == Refused
    ensures CompressOutcome([0x80, 0x61]) == Refused
    ensures CompressOutcome([]) == Panicked
  {
    assert Utf8.DecodeChar(ByteValues([0xFF])) == None;
    assert Utf8.DecodeChar(ByteValues([0x80, 0x61])) == None;
    assert ByteValues([]) == [];
  }

  /** A compressed file whose header declares no table entries makes
      decompress panic, whatever follows. */
  lemma EmptyTablePanics(data: seq<bv8>)
    requires |data| >= 9 && data[8] == 0
    ensures DecompressOutcome(data) == Panicked
  {
    ParseComplete(data);
  }

  /** A compressed file too short to hold the entry count leaves the count
      byte at its initial 0, so decompress panics. */
  lemma ShortFilePanics(data: seq<bv8>)
    requires |data| <= 8
    ensures DecompressOutcome(data) == Panicked
  {
    assert Filled([0], data, |data|) == [0];
  }

  /** With a one-leaf tree every byte has the empty code. */
  lemma {:induction false} CodesOfLeaf(t: Tree, s: seq<bv8>)
    requires t.Leaf? && forall i :: 0 <= i < |s| ==> s[i] in Symbols(t)
    ensures Codes(t, s) == []
    decreases |s|
  {
    if s != [] {
      CodesOfLeaf(t, s[1..]);
    }
  }

  /** An input of a single distinct byte compresses to the header alone,
      which decompresses to nothing: the one-leaf tree gives every byte the
      empty code. */
  lemma SingleSymbolLost(input: seq<bv8>)
    requires 0 < |input| < U32_LIMIT && |Frequencies(input)| == 1
    ensures Compressed(input) == Serialize(Header(Frequencies(input), |input|))
    ensures |Parse(Compressed(input)).0.counts| > 0
    ensures Decompressed(Compressed(input)) == []
  {
    var t := TreeOf(input);
    CodesOfLeaf(t, input);
    HeaderOfCompressed(input, []);
    assert Compressed(input) == Serialize(Header(Frequencies(input), |input|)) + [];
  }

  /** "aa" comes back as nothing. */
  lemma SingleSymbolExample(s: seq<bv8>)
    requires s == [0x61, 0x61]
    ensures |Parse(Compressed(s)).0.counts| > 0 && Decompressed(Compressed(s)) == []
  {
    FrequenciesTwice(s);
    SingleSymbolLost(s);
  }

  /** The code stream with one bit per byte for a one-leaf tree, which the
      decoder already reads as that leaf's symbol, and the codes otherwise. */
  function CodesFixed(t: Tree, s: seq<bv8>): (r: seq<bv8>)
    requires forall i :: 0 <= i < |s| ==> s[i] in Symbols(t)
    ensures IsBits(r)
    ensures t.Leaf? ==> |r| == |s|
  {
    if t.Leaf? then Zeros(|s|) else Codes(t, s)
  }

  /** compress with the one-leaf case corrected. */
  function CompressedFixed(input: seq<bv8>): seq<bv8>
    requires |input| > 0
  {
    var t := TreeOf(input);
    Serialize(Header(Frequencies(input), |input|)) + Pack(CodesFixed(t, input))
  }

  /** With the correction every input of 1 to 255 different bytes comes
      back. */
  lemma FixedRoundTrip(input: seq<bv8>)
    requires 0 < |input| < U32_LIMIT
    requires |Frequencies(input)| <= 255
    ensures |Parse(CompressedFixed(input)).0.counts| > 0
    ensures Decompressed(CompressedFixed(input)) == input
  {
    var t := TreeOf(input);
    var codes := CodesFixed(t, input);
    HeaderOfCompressed(input, Pack(codes));
    UnpackPack(codes);
    if t.Leaf? {
      DecodeRepeated(input, t, codes + Zeros(PadLength(|codes|)));
    } else {
      assert |Frequencies(input)| != 1;
      InputInTree(input);
      DecodeCodes(t, input, Zeros(PadLength(|codes|)), 0, |input|);
    }
  }
  /** Decoding at least as many bits as there are bytes with a one-leaf
      tree that holds every byte gives the input back. */
  lemma DecodeRepeated(input: seq<bv8>, t: Tree, bits: seq<bv8>)
    requires |input| > 0 && t.Leaf? && |bits| >= |input|
    requires forall i :: 0 <= i < |input| ==> input[i] in Symbols(t)
    ensures DecodeBits(t, t, bits, 0, |input|) == input
  {
    DecodeSingleLeaf(t.count, t.symbol, bits, 0, |input|);
    assert input == seq(|input|, _ => t.symbol);
  }
}
