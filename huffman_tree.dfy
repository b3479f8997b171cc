/** The Huffman tree of tree.rs, of which lib.rs holds an identical copy:
    building it from a frequency table with a priority queue, the reversed
    ordering that makes that queue hand out the smallest count first, and
    the code of each symbol as its root-to-leaf path. */
module HuffmanCoding {
  import opened Wrappers
  import opened BitManipulation

  /** A frequency table entry: a byte and how often it occurs. */
  type Entry = (bv8, nat)

  datatype Tree =
    | Node(count: nat, left: Tree, right: Tree)
    | Leaf(count: nat, symbol: bv8)

  datatype Ordering = Less | Equal | Greater

  /** The ordering of two counts. */
  function CompareCounts(a: nat, b: nat): Ordering
  {
    if a < b then Less else if a == b then Equal else Greater
  }

  function Flip(o: Ordering): Ordering
  {
    match o
    case Less => Greater
    case Equal => Equal
    case Greater => Less
  }

  /** The ordering of trees: by count only, whatever the constructors, and
      reversed, so that a queue handing out its greatest element hands out
      the one with the smallest count. */
  function Compare(x: Tree, y: Tree): (r: Ordering)
    ensures r == Greater <==> x.count < y.count
    ensures r == Less <==> y.count < x.count
    ensures r == Equal <==> x.count == y.count
  {
    CompareCounts(y.count, x.count)
  }

  /** Swapping the arguments of the ordering flips its result. */
  lemma CompareAntisymmetric(x: Tree, y: Tree)
    ensures Compare(x, y) == Flip(Compare(y, x))
  {
  }

  /** The bytes held by the leaves. */
  function Symbols(t: Tree): set<bv8>
  {
    match t
    case Leaf(_, s) => {s}
    case Node(_, l, r) => Symbols(l) + Symbols(r)
  }

  /** The (symbol, count) pairs of the leaves, as a frequency table lists them. */
  function Leaves(t: Tree): multiset<Entry>
  {
    match t
    case Leaf(c, s) => multiset{(s, c)}
    case Node(_, l, r) => Leaves(l) + Leaves(r)
  }

  /** Every node's count is the sum of its children's counts. */
  predicate WellCounted(t: Tree)
  {
    match t
    case Leaf(_, _) => true
    case Node(c, l, r) => c == l.count + r.count && WellCounted(l) && WellCounted(r)
  }

  /** A symbol is held by a leaf exactly when some leaf pair carries it. */
  lemma {:induction false} SymbolsOfLeaves(t: Tree, v: bv8)
    ensures v in Symbols(t) <==> exists c :: (v, c) in Leaves(t)
  {
    match t
    case Leaf(c, s) =>
      if v == s {
        assert (v, c) in Leaves(t);
      }
    case Node(_, l, r) =>
      SymbolsOfLeaves(l, v);
      SymbolsOfLeaves(r, v);
      if v in Symbols(t) {
        if v in Symbols(l) {
          var c :| (v, c) in Leaves(l);
          assert (v, c) in Leaves(t);
        } else {
          var c :| (v, c) in Leaves(r);
          assert (v, c) in Leaves(t);
        }
      }
  }

  /** The subtree reached from `t` along `path`, a 0 going left and any
      other bit going right; None when the path runs on past a leaf. */
  function Follow(t: Tree, path: seq<bv8>): Option<Tree>
    decreases |path|
  {
    if path == [] then Some(t)
    else
      match t
      case Leaf(_, _) => None
      case Node(_, l, r) => Follow(if path[0] == 0 then l else r, path[1..])
  }

  /** `path` leads from the root of `t` to a leaf holding `v`. */
  predicate LeadsTo(t: Tree, path: seq<bv8>, v: bv8)
  {
    Follow(t, path).Some? && Follow(t, path).value.Leaf? && Follow(t, path).value.symbol == v
  }

  /** The code of `v`: the path to the leftmost leaf holding it, 0 for left
      and 1 for right; None when no leaf holds it. */
  function Encode(t: Tree, v: bv8): (r: Option<seq<bv8>>)
    ensures r.Some? <==> v in Symbols(t)
    ensures r.Some? ==> LeadsTo(t, r.value, v) && IsBits(r.value)
  {
    match t
    case Leaf(_, s) => if s == v then Some([]) else None
    case Node(_, l, r) =>
      match Encode(l, v)
      case Some(p) =>
        assert ([0] + p)[1..] == p;
        Some([0] + p)
      case None =>
        match Encode(r, v)
        case Some(p) =>
          assert ([1] + p)[1..] == p;
          Some([1] + p)
        case None => None
  }

  /** A path that reaches a leaf is a prefix of no other path that stays in
      the tree. */
  lemma {:induction false} LeafPathsPrefixFree(t: Tree, p: seq<bv8>, q: seq<bv8>)
    requires Follow(t, p).Some? && Follow(t, p).value.Leaf?
    requires Follow(t, q).Some?
    requires p <= q
    ensures p == q
    decreases |p|
  {
    if p != [] {
      assert q[0] == p[0];
      var next := if p[0] == 0 then t.left else t.right;
      assert p[1..] <= q[1..];
      LeafPathsPrefixFree(next, p[1..], q[1..]);
      assert p == [p[0]] + p[1..] && q == [q[0]] + q[1..];
    }
  }

  /** The codes of two different symbols are never prefixes of one another. */
  lemma CodesPrefixFree(t: Tree, u: bv8, v: bv8)
    requires u != v
    requires Encode(t, u).Some? && Encode(t, v).Some?
    ensures !(Encode(t, u).value <= Encode(t, v).value)
  {
    if Encode(t, u).value <= Encode(t, v).value {
      LeafPathsPrefixFree(t, Encode(t, u).value, Encode(t, v).value);
    }
  }

  /** The index of the first tree of smallest count: the element the
      priority queue hands out next. */
  function MinIndex(heap: seq<Tree>): (i: nat)
    requires |heap| > 0
    ensures i < |heap|
    ensures forall j :: 0 <= j < |heap| ==> heap[i].count <= heap[j].count
    ensures forall j :: 0 <= j < i ==> heap[i].count < heap[j].count
    decreases |heap|
  {
    if |heap| == 1 then 0
    else
      var k := MinIndex(heap[..|heap| - 1]);
      if heap[|heap| - 1].count < heap[k].count then |heap| - 1 else k
  }

  /** The queue without its element at index `i`. */
  function Without(heap: seq<Tree>, i: nat): (r: seq<Tree>)
    requires i < |heap|
    ensures |r| == |heap| - 1
  {
    heap[..i] + heap[i + 1..]
  }

  /** One round of the loop of create: the two trees of smallest count are
      taken out, the first popped becoming the left child and the second the
      right child of a new node holding the sum of their counts, which is
      queued. */
  function Merged(heap: seq<Tree>): (r: seq<Tree>)
    requires |heap| > 1
    ensures |r| == |heap| - 1
  {
    var i := MinIndex(heap);
    var rest := Without(heap, i);
    var j := MinIndex(rest);
    Without(rest, j) + [Node(heap[i].count + rest[j].count, heap[i], rest[j])]
  }

  /** A round spelled out as the loop of create performs it: two pops and a push. */
  lemma MergedSteps(heap: seq<Tree>, i: nat, j: nat)
    requires |heap| > 1 && i == MinIndex(heap) && j == MinIndex(Without(heap, i))
    ensures Merged(heap) == Without(Without(heap, i), j)
                            + [Node(heap[i].count + Without(heap, i)[j].count, heap[i], Without(heap, i)[j])]
  {
  }

  /** The loop of create: rounds are run until one tree is left. */
  function Build(heap: seq<Tree>): Tree
    requires |heap| > 0
    decreases |heap|
  {
    if |heap| == 1 then heap[0] else Build(Merged(heap))
  }

  /** One leaf per frequency table entry, in table order. */
  function LeafHeap(counts: seq<Entry>): (r: seq<Tree>)
    ensures |r| == |counts|
  {
    seq(|counts|, i requires 0 <= i < |counts| => Leaf(counts[i].1, counts[i].0))
  }

  /** The sum of the counts of a frequency table. */
  function Total(counts: seq<Entry>): nat
  {
    if counts == [] then 0 else Total(counts[..|counts| - 1]) + counts[|counts| - 1].1
  }

  /** All leaf pairs of the queued trees. */
  function HeapLeaves(heap: seq<Tree>): multiset<Entry>
  {
    if heap == [] then multiset{} else HeapLeaves(heap[..|heap| - 1]) + Leaves(heap[|heap| - 1])
  }

  /** The sum of the root counts of the queued trees. */
  function HeapTotal(heap: seq<Tree>): nat
  {
    if heap == [] then 0 else HeapTotal(heap[..|heap| - 1]) + heap[|heap| - 1].count
  }

  lemma {:induction false} HeapAppend(a: seq<Tree>, b: seq<Tree>)
    ensures HeapLeaves(a + b) == HeapLeaves(a) + HeapLeaves(b)
    ensures HeapTotal(a + b) == HeapTotal(a) + HeapTotal(b)
    decreases |b|
  {
    if b != [] {
      assert (a + b)[..|a + b| - 1] == a + b[..|b| - 1];
      HeapAppend(a, b[..|b| - 1]);
    } else {
      assert a + b == a;
    }
  }

  lemma HeapSingle(x: Tree)
    ensures HeapLeaves([x]) == Leaves(x)
    ensures HeapTotal([x]) == x.count
  {
    assert [x][..0] == [];
  }

  /** Taking one tree out of the queue takes out exactly its leaves and count. */
  lemma HeapWithout(heap: seq<Tree>, i: nat)
    requires i < |heap|
    ensures HeapLeaves(heap) == HeapLeaves(Without(heap, i)) + Leaves(heap[i])
    ensures HeapTotal(heap) == HeapTotal(Without(heap, i)) + heap[i].count
  {
    Decompose(heap, i);
    HeapMiddle(heap[..i], heap[i], heap[i + 1..]);
  }

  /** A sequence is its part before `i`, its element at `i` and its part after. */
  lemma Decompose(heap: seq<Tree>, i: nat)
    requires i < |heap|
    ensures heap == (heap[..i] + [heap[i]]) + heap[i + 1..]
  {
  }

  lemma HeapMiddle(a: seq<Tree>, x: Tree, b: seq<Tree>)
    ensures HeapLeaves((a + [x]) + b) == HeapLeaves(a + b) + Leaves(x)
    ensures HeapTotal((a + [x]) + b) == HeapTotal(a + b) + x.count
  {
    HeapAppend(a + [x], b);
    HeapAppend(a, [x]);
    HeapAppend(a, b);
    HeapSingle(x);
    SwapLast(HeapLeaves(a), Leaves(x), HeapLeaves(b));
  }

  lemma SwapLast(p: multiset<Entry>, q: multiset<Entry>, r: multiset<Entry>)
    ensures p + q + r == p + r + q
  {
  }

  /** A round keeps the queued trees well counted, their leaves and their
      total count. */
  lemma MergedFacts(heap: seq<Tree>)
    requires |heap| > 1
    requires forall k :: 0 <= k < |heap| ==> WellCounted(heap[k])
    ensures forall k :: 0 <= k < |Merged(heap)| ==> WellCounted(Merged(heap)[k])
    ensures HeapLeaves(Merged(heap)) == HeapLeaves(heap)
    ensures HeapTotal(Merged(heap)) == HeapTotal(heap)
  {
    var i := MinIndex(heap);
    var rest := Without(heap, i);
    var j := MinIndex(rest);
    var parent := Node(heap[i].count + rest[j].count, heap[i], rest[j]);
    WithoutWellCounted(heap, i);
    WithoutWellCounted(rest, j);
    MergedSums(heap, i, rest, j, parent);
  }

  lemma MergedSums(heap: seq<Tree>, i: nat, rest: seq<Tree>, j: nat, parent: Tree)
    requires i < |heap| && rest == Without(heap, i) && j < |rest|
    requires parent == Node(heap[i].count + rest[j].count, heap[i], rest[j])
    ensures HeapLeaves(Without(rest, j) + [parent]) == HeapLeaves(heap)
    ensures HeapTotal(Without(rest, j) + [parent]) == HeapTotal(heap)
  {
    HeapWithout(heap, i);
    HeapWithout(rest, j);
    HeapAppend(Without(rest, j), [parent]);
    HeapSingle(parent);
  }

  lemma WithoutWellCounted(heap: seq<Tree>, i: nat)
    requires i < |heap|
    requires forall k :: 0 <= k < |heap| ==> WellCounted(heap[k])
    ensures forall k :: 0 <= k < |heap| - 1 ==> WellCounted(Without(heap, i)[k])
  {
    forall k | 0 <= k < |heap| - 1
      ensures WellCounted(Without(heap, i)[k])
    {
      if k < i {
        assert Without(heap, i)[k] == heap[k];
      } else {
        assert Without(heap, i)[k] == heap[k + 1];
      }
    }
  }

  /** The tree built from a queue of well-counted trees is well counted,
      holds all their leaves and has their total count at its root. */
  lemma {:induction false} BuildFacts(heap: seq<Tree>)
    requires |heap| > 0
    requires forall k :: 0 <= k < |heap| ==> WellCounted(heap[k])
    ensures WellCounted(Build(heap))
    ensures Leaves(Build(heap)) == HeapLeaves(heap)
    ensures Build(heap).count == HeapTotal(heap)
    decreases |heap|
  {
    if |heap| == 1 {
      HeapSingle(heap[0]);
      assert heap == [heap[0]];
    } else {
      MergedFacts(heap);
      BuildFacts(Merged(heap));
    }
  }

  lemma {:induction false} LeafHeapFacts(counts: seq<Entry>)
    ensures HeapLeaves(LeafHeap(counts)) == multiset(counts)
    ensures HeapTotal(LeafHeap(counts)) == Total(counts)
    decreases |counts|
  {
    if counts != [] {
      var init := counts[..|counts| - 1];
      assert LeafHeap(counts)[..|counts| - 1] == LeafHeap(init);
      LeafHeapFacts(init);
      assert counts == init + [counts[|counts| - 1]];
    }
  }

  /** create: the tree built by the priority-queue loop from a non-empty
      frequency table (an empty one makes the final pop fail). It is well
      counted, its leaves are exactly the table's entries and its root holds
      the table's total count. */
  method Create(counts: seq<Entry>) returns (t: Tree)
    requires |counts| > 0
    ensures t == Build(LeafHeap(counts))
    ensures WellCounted(t)
    ensures Leaves(t) == multiset(counts)
    ensures t.count == Total(counts)
  {
    var heap: seq<Tree> := [];
    for k := 0 to |counts|
      invariant |heap| == k
      invariant forall m :: 0 <= m < k ==> heap[m] == Leaf(counts[m].1, counts[m].0)
    {
      heap := heap + [Leaf(counts[k].1, counts[k].0)];
    }
    assert heap == LeafHeap(counts);
    ghost var goal := Build(heap);
    while |heap| > 1
      invariant |heap| > 0
      invariant Build(heap) == goal
      decreases |heap|
    {
      BuildStep(heap);
      heap := Round(heap);
    }
    t := heap[0];
    CreateFacts(counts);
  }

  /** The body of create's loop: the two trees of smallest count are popped
      and their parent is pushed. */
  method Round(heap: seq<Tree>) returns (next: seq<Tree>)
    requires |heap| > 1
    ensures next == Merged(heap)
  {
    var i := MinIndex(heap);
    var left := heap[i];
    var rest := Without(heap, i);
    var j := MinIndex(rest);
    var right := rest[j];
    next := Without(rest, j) + [Node(left.count + right.count, left, right)];
    MergedSteps(heap, i, j);
  }

  lemma BuildStep(heap: seq<Tree>)
    requires |heap| > 1
    ensures Build(heap) == Build(Merged(heap))
  {
  }

  lemma CreateFacts(counts: seq<Entry>)
    requires |counts| > 0
    ensures WellCounted(Build(LeafHeap(counts)))
    ensures Leaves(Build(LeafHeap(counts))) == multiset(counts)
    ensures Build(LeafHeap(counts)).count == Total(counts)
  {
    BuildFacts(LeafHeap(counts));
    LeafHeapFacts(counts);
  }

  /** The table of "abacba" gives Node(6, Leaf(3, a), Node(3, Leaf(1, c), Leaf(2, b))). */
  lemma AbacbaTree()
    ensures Build(LeafHeap([(0x61, 3), (0x62, 2), (0x63, 1)]))
            == Node(6, Leaf(3, 0x61), Node(3, Leaf(1, 0x63), Leaf(2, 0x62)))
  {
    var heap := LeafHeap([(0x61, 3), (0x62, 2), (0x63, 1)]);
    assert heap == [Leaf(3, 0x61), Leaf(2, 0x62), Leaf(1, 0x63)];
    assert MinIndex(heap) == 2;
    var rest := [Leaf(3, 0x61), Leaf(2, 0x62)];
    assert Without(heap, 2) == rest;
    assert MinIndex(rest) == 1;
    var next := [Leaf(3, 0x61), Node(3, Leaf(1, 0x63), Leaf(2, 0x62))];
    assert Without(rest, 1) + [Node(3, Leaf(1, 0x63), Leaf(2, 0x62))] == next;
    assert MinIndex(next) == 0;
    assert Without(next, 0) == [Node(3, Leaf(1, 0x63), Leaf(2, 0x62))];
  }

  /** In that tree a, c and b have the codes 0, 10 and 11, and d has none. */
  lemma AbacbaCodes()
    ensures var t := Node(6, Leaf(3, 0x61), Node(3, Leaf(1, 0x63), Leaf(2, 0x62)));
            Encode(t, 0x61) == Some([0]) && Encode(t, 0x63) == Some([1, 0])
            && Encode(t, 0x62) == Some([1, 1]) && Encode(t, 0x64) == None
  {
    var a, c, b := Leaf(3, 0x61), Leaf(1, 0x63), Leaf(2, 0x62);
    var cb := Node(3, c, b);
    assert Encode(a, 0x61) == Some([]) && Encode(a, 0x63) == None && Encode(a, 0x62) == None;
    assert Encode(cb, 0x63) == Some([0]) by {
      assert [0] + [] == [0 as bv8];
    }
    assert Encode(cb, 0x62) == Some([1]) by {
      assert Encode(c, 0x62) == None;
      assert [1] + [] == [1 as bv8];
    }
    assert [0] + [] == [0 as bv8];
    assert [1] + [0 as bv8] == [1, 0];
    assert [1] + [1 as bv8] == [1, 1];
  }

  /** The outcome of one decoding step: still inside the tree, or a leaf's
      symbol. */
  datatype DecodeResult = Decoding | Decoded(symbol: bv8)

  /** One step of the decoder from the subtree `current` of `root`: at a
      node, 0 goes left and any other bit right; at a leaf (only possible
      when the root itself is one) the walk starts again at the root. A
      leaf reached gives its symbol and the walk goes back to the root;
      otherwise the walk stays at the node reached. */
  function Walk(root: Tree, current: Tree, bit: bv8): (r: (Tree, DecodeResult))
    ensures r.1.Decoded? ==> r.0 == root
    ensures r.1.Decoding? ==> r.0.Node?
  {
    var next := Move(root, current, bit);
    match next
    case Leaf(_, v) => (root, Decoded(v))
    case Node(_, _, _) => (next, Decoding)
  }

  /** Where one bit takes the decoder before it looks for a leaf: the
      selected child of a node, or the root from a leaf. */
  function Move(root: Tree, current: Tree, bit: bv8): (next: Tree)
    ensures current.Leaf? ==> next == root
    ensures current.Node? ==> next == current.left || next == current.right
  {
    match current
    case Node(_, l, r) => if bit == 0 then l else r
    case Leaf(_, _) => root
  }

  /** The bytes the decode loop writes for the bit stream `bits`, starting
      at the subtree `current` with `written` bytes already written: every
      decoded symbol is written, and the loop stops as soon as `written`
      reaches `filesize` after a write, or when the bits run out. */
  function DecodeBits(root: Tree, current: Tree, bits: seq<bv8>, written: nat, filesize: nat): (out: seq<bv8>)
    ensures |out| <= |bits|
    decreases |bits|
  {
    if bits == [] then []
    else
      var (next, r) := Walk(root, current, bits[0]);
      match r
      case Decoding => DecodeBits(root, next, bits[1..], written, filesize)
      case Decoded(v) =>
        [v] + if written + 1 >= filesize then [] else DecodeBits(root, next, bits[1..], written + 1, filesize)
  }

  /** Decoding never writes past `filesize`, except that a loop that starts
      with nothing left to write still writes the first symbol it decodes,
      since the bound is checked only after a write. */
  lemma {:induction false} DecodeBound(root: Tree, current: Tree, bits: seq<bv8>, written: nat, filesize: nat)
    ensures written + |DecodeBits(root, current, bits, written, filesize)| <= if written < filesize then filesize else written + 1
    decreases |bits|
  {
    if bits != [] {
      var (next, r) := Walk(root, current, bits[0]);
      if r.Decoding? {
        DecodeBound(root, next, bits[1..], written, filesize);
      } else if written + 1 < filesize {
        DecodeBound(root, next, bits[1..], written + 1, filesize);
      }
    }
  }

  /** With a single leaf as the tree, every bit gives that leaf's symbol,
      until `filesize` bytes are written. */
  lemma {:induction false} DecodeSingleLeaf(count: nat, v: bv8, bits: seq<bv8>, written: nat, filesize: nat)
    requires written < filesize
    ensures var n := if |bits| <= filesize - written then |bits| else filesize - written;
            DecodeBits(Leaf(count, v), Leaf(count, v), bits, written, filesize) == seq(n, _ => v)
    decreases |bits|
  {
    if bits != [] && written + 1 < filesize {
      DecodeSingleLeaf(count, v, bits[1..], written + 1, filesize);
    }
  }

  /** The bit stream the encoder produces for `s`: the codes of its bytes,
      in order. Every byte must be held by a leaf. */
  function Codes(t: Tree, s: seq<bv8>): (r: seq<bv8>)
    requires forall i :: 0 <= i < |s| ==> s[i] in Symbols(t)
    ensures IsBits(r)
  {
    if s == [] then [] else Encode(t, s[0]).value + Codes(t, s[1..])
  }

  /** Appending a byte appends its code. */
  lemma {:induction false} CodesSnoc(t: Tree, s: seq<bv8>, c: bv8)
    requires forall i :: 0 <= i < |s| ==> s[i] in Symbols(t)
    requires c in Symbols(t)
    ensures Codes(t, s + [c]) == Codes(t, s) + Encode(t, c).value
  {
    if s == [] {
      assert [c][1..] == [];
      assert s + [c] == [c];
    } else {
      assert (s + [c])[1..] == s[1..] + [c];
      CodesSnoc(t, s[1..], c);
    }
  }

  /** Decoding from a node along a path to a leaf yields the leaf's symbol
      and goes back to the root for what follows. */
  lemma {:induction false} DecodePath(root: Tree, current: Tree, p: seq<bv8>, v: bv8, rest: seq<bv8>,
                                      written: nat, filesize: nat)
    requires current.Node? && LeadsTo(current, p, v)
    ensures DecodeBits(root, current, p + rest, written, filesize)
            == [v] + if written + 1 >= filesize then [] else DecodeBits(root, root, rest, written + 1, filesize)
    decreases |p|
  {
    assert p != [];
    var child := if p[0] == 0 then current.left else current.right;
    assert (p + rest)[0] == p[0] && (p + rest)[1..] == p[1..] + rest;
    assert Follow(current, p) == Follow(child, p[1..]);
    if child.Leaf? {
      assert p[1..] == [];
      assert p[1..] + rest == rest;
    } else {
      DecodePath(root, child, p[1..], v, rest, written, filesize);
    }
  }

  /** Decoding the codes of `s` with a file size that ends exactly after it
      gives `s` back, whatever bits follow. The tree must be a node: a
      single leaf has the empty code. */
  lemma {:induction false} DecodeCodes(t: Tree, s: seq<bv8>, rest: seq<bv8>, written: nat, filesize: nat)
    requires t.Node?
    requires forall i :: 0 <= i < |s| ==> s[i] in Symbols(t)
    requires |s| > 0 && written + |s| == filesize
    ensures DecodeBits(t, t, Codes(t, s) + rest, written, filesize) == s
    decreases |s|
  {
    var code := Encode(t, s[0]).value;
    var tail := Codes(t, s[1..]) + rest;
    assert Codes(t, s) + rest == code + tail;
    DecodePath(t, t, code, s[0], tail, written, filesize);
    if |s| > 1 {
      DecodeCodes(t, s[1..], rest, written + 1, filesize);
    }
    assert s == [s[0]] + s[1..];
  }
}
