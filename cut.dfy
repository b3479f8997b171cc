/**
 * The `cut` clone's command (04_rcut): a `Cut` selects fields, bytes or
 * characters of one line by the positions its ranges give.
 *
 * `Cut` is a value: none of its operations changes it. `compute_ranges`,
 * which grows a vector in a loop and sorts it, is the method
 * `ComputeRanges`; the other operations are functions. An `unwrap` or an
 * index out of range panics, which is the `Panic` case of `Outcome`.
 */
module CutLines {
  import opened Wrappers
  import opened CutField
  import Utf8

  datatype Command = Fields | Bytes | Chars

  // ---------------------------------------------------------------------
  // Sorting positions (`slice::sort`)
  // ---------------------------------------------------------------------

  predicate Sorted(s: seq<nat>) {
    forall i, j | 0 <= i < j < |s| :: s[i] <= s[j]
  }

  /** `x` put into its place in the sorted `s`. */
  function Insert(x: nat, s: seq<nat>): (r: seq<nat>)
    requires Sorted(s)
    ensures Sorted(r) && multiset(r) == multiset(s) + multiset{x}
    ensures |r| == |s| + 1 && (r[0] == x || (s != [] && r[0] == s[0]))
  {
    if s == [] || x <= s[0] then [x] + s
    else
      assert s == [s[0]] + s[1..];
      [s[0]] + Insert(x, s[1..])
  }

  /** The positions in ascending order, repeats kept. */
  function Sort(s: seq<nat>): (r: seq<nat>)
    ensures Sorted(r) && multiset(r) == multiset(s)
  {
    if s == [] then []
    else
      assert s == [s[0]] + s[1..];
      Insert(s[0], Sort(s[1..]))
  }

  /** The first of sorted positions is the least of them. */
  lemma SortedHead(a: seq<nat>, y: nat)
    requires Sorted(a) && y in multiset(a)
    ensures a[0] <= y
  {
    var i :| 0 <= i < |a| && a[i] == y;
  }

  /** There is only one sorted order of a collection of positions. */
  lemma {:induction false} SortedUnique(a: seq<nat>, b: seq<nat>)
    requires Sorted(a) && Sorted(b) && multiset(a) == multiset(b)
    ensures a == b
    decreases |a|
  {
    if a == [] {
      assert |multiset(b)| == 0;
    } else {
      assert |b| == |multiset(b)| == |a|;
      assert a[0] in multiset(a) && b[0] in multiset(b);
      SortedHead(a, b[0]);
      SortedHead(b, a[0]);
      assert a[0] == b[0];
      MultisetTail(a);
      MultisetTail(b);
      SortedUnique(a[1..], b[1..]);
    }
  }

  lemma MultisetTail(a: seq<nat>)
    requires a != []
    ensures multiset(a[1..]) == multiset(a) - multiset{a[0]}
  {
    assert a == [a[0]] + a[1..];
  }

  lemma SortSorted(s: seq<nat>)
    requires Sorted(s)
    ensures Sort(s) == s
  {
    SortedUnique(Sort(s), s);
  }

  // ---------------------------------------------------------------------
  // The positions a list of ranges selects
  // ---------------------------------------------------------------------

  /** The values of every range, range after range. */
  function AllValues(ranges: seq<Field>, maxFields: nat): seq<nat> {
    if ranges == [] then []
    else AllValues(ranges[..|ranges| - 1], maxFields) + ranges[|ranges| - 1].Values(maxFields)
  }

  /** A position is among the values of the ranges exactly when one of the ranges covers it. */
  lemma {:induction false} AllValuesMembers(ranges: seq<Field>, maxFields: nat, n: nat)
    ensures n in AllValues(ranges, maxFields) <==>
            exists k | 0 <= k < |ranges| :: ranges[k].First() <= n <= ranges[k].Last(maxFields)
    decreases |ranges|
  {
    if ranges != [] {
      var init, last := ranges[..|ranges| - 1], ranges[|ranges| - 1];
      AllValuesMembers(init, maxFields, n);
      assert n in AllValues(ranges, maxFields) <==> n in AllValues(init, maxFields) || n in last.Values(maxFields);
      if n in AllValues(init, maxFields) {
        var k :| 0 <= k < |init| && init[k].First() <= n <= init[k].Last(maxFields);
        assert ranges[k] == init[k];
      } else if n in last.Values(maxFields) {
        assert ranges[|ranges| - 1].First() <= n <= ranges[|ranges| - 1].Last(maxFields);
      } else {
        forall k | 0 <= k < |ranges| ensures !(ranges[k].First() <= n <= ranges[k].Last(maxFields)) {
          if k < |init| {
            assert ranges[k] == init[k];
          }
        }
      }
    }
  }

  lemma {:induction false} AllValuesAppend(a: seq<Field>, b: seq<Field>, maxFields: nat)
    ensures multiset(AllValues(a + b, maxFields)) == multiset(AllValues(a, maxFields)) + multiset(AllValues(b, maxFields))
    decreases |b|
  {
    if b == [] {
      assert a + b == a;
    } else {
      var b' := b[..|b| - 1];
      assert (a + b)[..|a + b| - 1] == a + b';
      AllValuesAppend(a, b', maxFields);
    }
  }

  /** The values of reordered ranges are the same positions, as many times each. */
  lemma {:induction false} PermutedValues(a: seq<Field>, b: seq<Field>, maxFields: nat)
    requires multiset(a) == multiset(b)
    ensures multiset(AllValues(a, maxFields)) == multiset(AllValues(b, maxFields))
    decreases |a|
  {
    if a != [] {
      var x := a[|a| - 1];
      var a' := a[..|a| - 1];
      assert a == a' + [x];
      assert x in multiset(b);
      var j :| 0 <= j < |b| && b[j] == x;
      var b' := b[..j] + b[j + 1..];
      assert b == b[..j] + [x] + b[j + 1..];
      assert multiset(b) == multiset(b[..j]) + multiset{x} + multiset(b[j + 1..]);
      assert multiset(a) == multiset(a') + multiset{x};
      assert multiset(b') == multiset(b[..j]) + multiset(b[j + 1..]);
      assert multiset(a') == multiset(a) - multiset{x};
      assert multiset(b') == multiset(b) - multiset{x};
      PermutedValues(a', b', maxFields);
      assert b == (b[..j] + [x]) + b[j + 1..];
      assert AllValues([x], maxFields) == x.Values(maxFields);
      calc {
        multiset(AllValues(b, maxFields));
        { AllValuesAppend(b[..j] + [x], b[j + 1..], maxFields); }
        multiset(AllValues(b[..j] + [x], maxFields)) + multiset(AllValues(b[j + 1..], maxFields));
        { AllValuesAppend(b[..j], [x], maxFields); }
        multiset(AllValues(b[..j], maxFields)) + multiset(x.Values(maxFields)) + multiset(AllValues(b[j + 1..], maxFields));
        { AllValuesAppend(b[..j], b[j + 1..], maxFields); }
        multiset(AllValues(b', maxFields)) + multiset(x.Values(maxFields));
        multiset(AllValues(a, maxFields));
      }
    }
  }

  // ---------------------------------------------------------------------
  // Splitting a line
  // ---------------------------------------------------------------------

  /** `str::split` on a character: the pieces between its occurrences, empty ones included. */
  function SplitOn(s: seq<char>, d: char): (pieces: seq<seq<char>>)
    ensures |pieces| >= 1
    ensures forall k | 0 <= k < |pieces| :: d !in pieces[k]
    ensures Join(pieces, [d]) == s
    decreases |s|
  {
    if s == [] then [[]]
    else
      var rest := SplitOn(s[1..], d);
      if s[0] == d then
        JoinCons([], rest, [d]);
        [[]] + rest
      else
        JoinFront(s[0], rest, [d]);
        [[s[0]] + rest[0]] + rest[1..]
  }

  lemma JoinCons(p: seq<char>, pieces: seq<seq<char>>, sep: seq<char>)
    requires |pieces| >= 1
    ensures Join([p] + pieces, sep) == p + sep + Join(pieces, sep)
  {
    assert ([p] + pieces)[1..] == pieces;
  }

  lemma JoinFront(c: char, pieces: seq<seq<char>>, sep: seq<char>)
    requires |pieces| >= 1
    ensures Join([[c] + pieces[0]] + pieces[1..], sep) == [c] + Join(pieces, sep)
  {
    if |pieces| > 1 {
      JoinCons(pieces[0], pieces[1..], sep);
      JoinCons([c] + pieces[0], pieces[1..], sep);
      assert pieces == [pieces[0]] + pieces[1..];
    }
  }

  /** Splitting the pieces joined by `d` gives the pieces back. */
  lemma {:induction false} SplitOnJoin(pieces: seq<seq<char>>, d: char)
    requires |pieces| >= 1 && forall k | 0 <= k < |pieces| :: d !in pieces[k]
    ensures SplitOn(Join(pieces, [d]), d) == pieces
    decreases |Join(pieces, [d])|
  {
    var s := Join(pieces, [d]);
    var p := pieces[0];
    assert d !in p;
    if |pieces| == 1 {
      if p != [] {
        assert d !in p[1..];
        SplitOnJoin([p[1..]], d);
        assert s[1..] == p[1..];
        assert [p[0]] + p[1..] == p;
      }
    } else if p == [] {
      JoinCons([], pieces[1..], [d]);
      assert s[1..] == Join(pieces[1..], [d]);
      SplitOnJoin(pieces[1..], d);
      assert [[]] + pieces[1..] == pieces;
    } else {
      var shorter := [p[1..]] + pieces[1..];
      assert shorter[1..] == pieces[1..];
      JoinCons(p, pieces[1..], [d]);
      JoinCons(p[1..], pieces[1..], [d]);
      assert s == [p[0]] + Join(shorter, [d]);
      assert s[1..] == Join(shorter, [d]);
      assert d !in p[1..];
      SplitOnJoin(shorter, d);
      assert [p[0]] + p[1..] == p;
      assert [p] + pieces[1..] == pieces;
    }
  }

  /** A line splits into more than one piece exactly when the delimiter occurs in it. */
  lemma OnePiece(s: seq<char>, d: char)
    ensures |SplitOn(s, d)| <= 1 <==> d !in s
  {
    var pieces := SplitOn(s, d);
    if |pieces| > 1 {
      JoinCons(pieces[0], pieces[1..], [d]);
      assert pieces == [pieces[0]] + pieces[1..];
      assert s[|pieces[0]|] == d;
    }
  }

  /** The end of the word that starts at `i`. */
  function WordEnd(s: seq<char>, i: nat): (j: nat)
    requires i <= |s|
    ensures i <= j <= |s| && (j == |s| || IsSpace(s[j]))
    ensures forall k | i <= k < j :: !IsSpace(s[k])
    decreases |s| - i
  {
    if i < |s| && !IsSpace(s[i]) then WordEnd(s, i + 1) else i
  }

  /** `str::split_whitespace`: the non-empty runs of characters that are not whitespace. */
  function SplitWhitespace(s: seq<char>): (words: seq<seq<char>>)
    ensures forall k | 0 <= k < |words| :: |words[k]| > 0 && forall i | 0 <= i < |words[k]| :: !IsSpace(words[k][i])
    decreases |s|
  {
    if s == [] then []
    else if IsSpace(s[0]) then SplitWhitespace(s[1..])
    else
      var e := WordEnd(s, 0);
      [s[..e]] + SplitWhitespace(s[e..])
  }

  /** The characters of `s` that are not whitespace, in order. */
  function NonSpace(s: seq<char>): seq<char> {
    if s == [] then [] else (if IsSpace(s[0]) then [] else [s[0]]) + NonSpace(s[1..])
  }

  function Concat(words: seq<seq<char>>): seq<char> {
    if words == [] then [] else words[0] + Concat(words[1..])
  }

  lemma {:induction false} NonSpaceAppend(a: seq<char>, b: seq<char>)
    ensures NonSpace(a + b) == NonSpace(a) + NonSpace(b)
    decreases |a|
  {
    if a == [] {
      assert a + b == b;
    } else {
      var head := if IsSpace(a[0]) then [] else [a[0]];
      assert (a + b)[0] == a[0] && (a + b)[1..] == a[1..] + b;
      calc {
        NonSpace(a + b);
        head + NonSpace(a[1..] + b);
        { NonSpaceAppend(a[1..], b); }
        head + (NonSpace(a[1..]) + NonSpace(b));
      }
    }
  }

  lemma {:induction false} NonSpaceWord(w: seq<char>)
    requires forall i | 0 <= i < |w| :: !IsSpace(w[i])
    ensures NonSpace(w) == w
  {
    if w != [] {
      NonSpaceWord(w[1..]);
      assert w == [w[0]] + w[1..];
    }
  }

  /** The words hold every character of the line that is not whitespace, in order, and no other. */
  lemma {:induction false} WordsCover(s: seq<char>)
    ensures Concat(SplitWhitespace(s)) == NonSpace(s)
    decreases |s|
  {
    if s != [] {
      if IsSpace(s[0]) {
        WordsCover(s[1..]);
      } else {
        var e := WordEnd(s, 0);
        WordsCover(s[e..]);
        assert s == s[..e] + s[e..];
        NonSpaceAppend(s[..e], s[e..]);
        NonSpaceWord(s[..e]);
        assert ([s[..e]] + SplitWhitespace(s[e..]))[1..] == SplitWhitespace(s[e..]);
      }
    }
  }

  predicate NoSpace(w: seq<char>) {
    forall k | 0 <= k < |w| :: !IsSpace(w[k])
  }

  predicate AllSpace(sp: seq<char>) {
    forall k | 0 <= k < |sp| :: IsSpace(sp[k])
  }

  lemma {:induction false} WordEndAt(s: seq<char>, i: nat, j: nat)
    requires i <= j <= |s| && (forall k | i <= k < j :: !IsSpace(s[k])) && (j == |s| || IsSpace(s[j]))
    ensures WordEnd(s, i) == j
    decreases j - i
  {
    if i < j {
      WordEndAt(s, i + 1, j);
    }
  }

  /** Whitespace in front of the line does not change its words. */
  lemma {:induction false} SkipSpaces(sp: seq<char>, rest: seq<char>)
    requires AllSpace(sp)
    ensures SplitWhitespace(sp + rest) == SplitWhitespace(rest)
    decreases |sp|
  {
    if sp != [] {
      assert (sp + rest)[0] == sp[0] && (sp + rest)[1..] == sp[1..] + rest;
      assert AllSpace(sp[1..]);
      SkipSpaces(sp[1..], rest);
    } else {
      assert sp + rest == rest;
    }
  }

  /** A word followed by whitespace is the first word of the line. */
  lemma WordThenSpace(w: seq<char>, sp: seq<char>, rest: seq<char>)
    requires |w| > 0 && NoSpace(w) && |sp| > 0 && AllSpace(sp)
    ensures SplitWhitespace(w + sp + rest) == [w] + SplitWhitespace(rest)
  {
    var s := w + sp + rest;
    WordEndAt(s, 0, |w|);
    assert s[..|w|] == w && s[|w|..] == sp + rest;
    SkipSpaces(sp, rest);
  }

  /** A line that is a single word. */
  lemma LastWord(w: seq<char>)
    requires |w| > 0 && NoSpace(w)
    ensures SplitWhitespace(w) == [w]
  {
    WordEndAt(w, 0, |w|);
    assert w[..|w|] == w && w[|w|..] == [];
  }

  /** Words joined by whitespace split back into those words. */
  lemma {:induction false} SplitWhitespaceJoin(words: seq<seq<char>>, sep: seq<char>)
    requires |words| > 0 && forall k | 0 <= k < |words| :: |words[k]| > 0 && NoSpace(words[k])
    requires |sep| > 0 && AllSpace(sep)
    ensures SplitWhitespace(Join(words, sep)) == words
  {
    if |words| == 1 {
      LastWord(words[0]);
    } else {
      JoinCons(words[0], words[1..], sep);
      assert words == [words[0]] + words[1..];
      WordThenSpace(words[0], sep, Join(words[1..], sep));
      SplitWhitespaceJoin(words[1..], sep);
    }
  }

  // ---------------------------------------------------------------------
  // Selecting by position
  // ---------------------------------------------------------------------

  /** The positions of `ns` that are at most `len`, in order. */
  function Kept(ns: seq<nat>, len: nat): (r: seq<nat>)
    ensures forall k | 0 <= k < |r| :: r[k] <= len
  {
    if ns == [] then []
    else if ns[0] <= len then [ns[0]] + Kept(ns[1..], len) else Kept(ns[1..], len)
  }

  /** The positions that survive are those at most `len`, each as often as before. */
  lemma {:induction false} KeptCounts(ns: seq<nat>, len: nat)
    ensures forall n :: multiset(Kept(ns, len))[n] == if n <= len then multiset(ns)[n] else 0
  {
    if ns != [] {
      KeptCounts(ns[1..], len);
      assert ns == [ns[0]] + ns[1..];
    }
  }

  /**
   * The `filter_map` of `execute`: each position `n` at most the number of
   * pieces picks piece `n - 1`, larger positions are dropped, and a
   * position 0 panics on the subtraction.
   */
  function Select<T>(ns: seq<nat>, splits: seq<T>): (r: Outcome<seq<T>>)
    ensures r.Panic? <==> 0 in ns
  {
    if ns == [] then Value([])
    else if ns[0] == 0 then Panic
    else
      match Select(ns[1..], splits)
      case Panic => Panic
      case Value(rest) =>
        assert ns == [ns[0]] + ns[1..];
        if ns[0] <= |splits| then Value([splits[ns[0] - 1]] + rest) else Value(rest)
  }

  /** Without a panic, the k-th piece picked is the piece at the k-th kept position. */
  lemma {:induction false} SelectKept<T>(ns: seq<nat>, splits: seq<T>)
    requires Select(ns, splits).Value?
    ensures var r, kept := Select(ns, splits).value, Kept(ns, |splits|);
            |r| == |kept| && forall k | 0 <= k < |kept| :: 0 < kept[k] && r[k] == splits[kept[k] - 1]
  {
    if ns != [] {
      SelectKept(ns[1..], splits);
    }
  }

  /** The positions from `a` to `b`, all within the pieces, pick the pieces from `a` to `b`. */
  lemma {:induction false} SelectInterval<T>(a: nat, b: nat, splits: seq<T>)
    requires 1 <= a && b <= |splits|
    ensures Select(Interval(a, b), splits) == Value(if a <= b then splits[a - 1..b] else [])
    decreases if a <= b then b - a + 1 else 0
  {
    if a <= b {
      IntervalFront(a, b);
      SelectInterval(a + 1, b, splits);
      SelectFront(a, Interval(a + 1, b), splits);
      SliceFront(splits, a, b);
    }
  }

  lemma IntervalFront(a: nat, b: nat)
    requires a <= b
    ensures Interval(a, b) == [a] + Interval(a + 1, b)
  {
  }

  lemma SliceFront<T>(splits: seq<T>, a: nat, b: nat)
    requires 1 <= a <= b <= |splits|
    ensures splits[a - 1..b] == [splits[a - 1]] + (if a + 1 <= b then splits[a..b] else [])
  {
    if a < b {
      assert splits[a - 1..b] == [splits[a - 1]] + splits[a..b];
    } else {
      assert splits[a - 1..b] == [splits[a - 1]];
    }
  }

  lemma SelectFront<T>(n: nat, rest: seq<nat>, splits: seq<T>)
    requires 1 <= n <= |splits| && Select(rest, splits).Value?
    ensures Select([n] + rest, splits) == Value([splits[n - 1]] + Select(rest, splits).value)
  {
    assert ([n] + rest)[1..] == rest;
  }

  // ---------------------------------------------------------------------
  // The command
  // ---------------------------------------------------------------------

  /** `Cut`: what to select, and how a line is split into fields. */
  datatype Cut = Cut(ranges: seq<Field>, delimiter: char, whitespace: bool, suppress: bool, command: Command)
  {
    /** The positions `compute_ranges` returns: the values of every range, sorted. */
    function Positions(maxSplits: nat): seq<nat> {
      Sort(AllValues(ranges, maxSplits))
    }

    /** `compute_ranges`: collect the values of every range in a vector, then sort it. */
    method ComputeRanges(maxSplits: nat) returns (fields: seq<nat>)
      ensures Sorted(fields) && multiset(fields) == multiset(AllValues(ranges, maxSplits))
      ensures fields == Positions(maxSplits)
    {
      fields := [];
      for i := 0 to |ranges|
        invariant fields == AllValues(ranges[..i], maxSplits)
      {
        assert ranges[..i + 1][..i] == ranges[..i];
        fields := fields + ranges[i].Values(maxSplits);
      }
      assert ranges[..|ranges|] == ranges;
      fields := Sort(fields);
    }

    /** `execute`: the pieces at the positions, in ascending order of position. */
    function Execute<T>(splits: seq<T>): (r: Outcome<seq<T>>)
      ensures r.Panic? <==> 0 in Positions(|splits|)
    {
      Select(Positions(|splits|), splits)
    }

    /**
     * `execute_str`: split on the delimiter, or on runs of whitespace;
     * with `suppress`, a line that does not split is left out; otherwise
     * the selected fields are joined with the delimiter.
     */
    function ExecuteStr(input: seq<char>): (r: Outcome<Option<seq<char>>>)
      ensures r.Value? && r.value.None? ==> suppress
      ensures !suppress ==>
                (r.Panic? <==> 0 in Positions(|if whitespace then SplitWhitespace(input) else SplitOn(input, delimiter)|))
    {
      var split := if whitespace then SplitWhitespace(input) else SplitOn(input, delimiter);
      if |split| <= 1 && suppress then Value(None)
      else
        match Execute(split)
        case Panic => Panic
        case Value(outputs) => Value(Some(Join(outputs, [delimiter])))
    }

    /** `execute_bytes`: select among the UTF-8 bytes; the selection must be UTF-8 again. */
    function ExecuteBytes(input: seq<char>): (r: Outcome<Option<seq<char>>>)
      ensures r.Panic? <==> 0 in Positions(|Utf8.Encode(input)|)
      ensures r.Value? && r.value.Some? ==> |r.value.value| <= |Execute(Utf8.Encode(input)).value|
    {
      match Execute(Utf8.Encode(input))
      case Panic => Panic
      case Value(outputs) => Value(Utf8.Decode(outputs))
    }

    /** `execute_chars`: select among the characters. */
    function ExecuteChars(input: seq<char>): (r: Outcome<Option<seq<char>>>)
      ensures r.Panic? <==> 0 in Positions(|input|)
      ensures r.Value? ==> r.value.Some?
    {
      match Execute(input)
      case Panic => Panic
      case Value(outputs) => Value(Some(outputs))
    }

    /** `execute_line`. */
    function ExecuteLine(input: seq<char>): (r: Outcome<Option<seq<char>>>)
      ensures r.Value? && r.value.None? ==> suppress || command.Bytes?
      ensures command.Chars? ==> (r.Panic? <==> 0 in Positions(|input|))
      ensures command.Bytes? ==> (r.Panic? <==> 0 in Positions(|Utf8.Encode(input)|))
    {
      match command
      case Fields => ExecuteStr(input)
      case Bytes => ExecuteBytes(input)
      case Chars => ExecuteChars(input)
    }
  }

  /** `Cut::default`: fields split on tabs, nothing selected, nothing suppressed. */
  function Default(): (c: Cut)
    ensures forall n :: c.Positions(n) == []
    ensures c.delimiter == '\t' && c.command.Fields? && !c.whitespace && !c.suppress
  {
    Cut([], '\t', false, false, Fields)
  }

  /** The default cut selects no field, so every line comes out empty. */
  lemma DefaultSelectsNothing(input: seq<char>)
    ensures Default().ExecuteLine(input) == Value(Some([]))
  {
    assert Default().Positions(|SplitOn(input, '\t')|) == [];
  }

  // ---------------------------------------------------------------------
  // Properties
  // ---------------------------------------------------------------------

  /** The positions are sorted, and are the values of the ranges, as many times as the ranges give them. */
  lemma PositionsSorted(c: Cut, maxSplits: nat, n: nat)
    ensures Sorted(c.Positions(maxSplits))
    ensures multiset(c.Positions(maxSplits)) == multiset(AllValues(c.ranges, maxSplits))
    ensures n in c.Positions(maxSplits) <==>
            exists k | 0 <= k < |c.ranges| :: c.ranges[k].First() <= n <= c.ranges[k].Last(maxSplits)
  {
    AllValuesMembers(c.ranges, maxSplits, n);
    assert n in c.Positions(maxSplits) <==> n in multiset(c.Positions(maxSplits));
  }

  /** With one range, the positions are that range's values. */
  lemma OneRange(c: Cut, maxSplits: nat)
    requires |c.ranges| == 1
    ensures c.Positions(maxSplits) == c.ranges[0].Values(maxSplits)
  {
    var f := c.ranges[0];
    assert c.ranges[..0] == [];
    assert AllValues(c.ranges, maxSplits) == f.Values(maxSplits);
    assert f.Values(maxSplits) == Interval(f.First(), f.Last(maxSplits));
    SortSorted(f.Values(maxSplits));
  }

  /** The order in which the ranges are given does not change the output. */
  lemma RangeOrder(c: Cut, ranges: seq<Field>, input: seq<char>)
    requires multiset(ranges) == multiset(c.ranges)
    ensures c.(ranges := ranges).ExecuteLine(input) == c.ExecuteLine(input)
  {
    match c.command
    case Fields =>
      RangeOrderSelects(c, ranges, SplitWhitespace(input));
      RangeOrderSelects(c, ranges, SplitOn(input, c.delimiter));
    case Bytes => RangeOrderSelects(c, ranges, Utf8.Encode(input));
    case Chars => RangeOrderSelects(c, ranges, input);
  }

  lemma RangeOrderSelects<T>(c: Cut, ranges: seq<Field>, splits: seq<T>)
    requires multiset(ranges) == multiset(c.ranges)
    ensures c.(ranges := ranges).Execute(splits) == c.Execute(splits)
  {
    var d := c.(ranges := ranges);
    PermutedValues(ranges, c.ranges, |splits|);
    SortedUnique(d.Positions(|splits|), c.Positions(|splits|));
  }

  /** A position 0 panics, whatever the line. */
  lemma ZeroPanics<T>(c: Cut, splits: seq<T>)
    requires exists k | 0 <= k < |c.ranges| :: c.ranges[k].First() == 0
    ensures c.Execute(splits) == Panic
  {
    PositionsSorted(c, |splits|, 0);
  }

  /**
   * In field mode on a delimiter, the line is left out exactly when
   * `suppress` is set and the delimiter does not occur in it.
   */
  lemma Suppressed(c: Cut, input: seq<char>)
    requires !c.whitespace
    ensures c.ExecuteStr(input) == Value(None) <==> c.suppress && c.delimiter !in input
  {
    OnePiece(input, c.delimiter);
  }

  /** The selected fields are joined with the delimiter, in whitespace mode too. */
  lemma FieldsJoined(c: Cut, input: seq<char>)
    requires c.ExecuteStr(input).Value? && c.ExecuteStr(input).value.Some?
    ensures var split := if c.whitespace then SplitWhitespace(input) else SplitOn(input, c.delimiter);
            c.Execute(split).Value? && c.ExecuteStr(input).value.value == Join(c.Execute(split).value, [c.delimiter])
  {
  }

  /** The byte mode gives a line exactly when the selected bytes are well-formed UTF-8, and then the line they encode. */
  lemma BytesDecoded(c: Cut, input: seq<char>)
    requires c.Execute(Utf8.Encode(input)).Value?
    ensures var bytes := c.Execute(Utf8.Encode(input)).value;
            c.ExecuteBytes(input).value.Some? <==> exists s :: Utf8.Encode(s) == bytes
    ensures c.ExecuteBytes(input).value.Some? ==> Utf8.Encode(c.ExecuteBytes(input).value.value) == c.Execute(Utf8.Encode(input)).value
  {
    var bytes := c.Execute(Utf8.Encode(input)).value;
    if exists s :: Utf8.Encode(s) == bytes {
      var s :| Utf8.Encode(s) == bytes;
      Utf8.DecodeEncode(s);
    }
    if c.ExecuteBytes(input).value.Some? {
      Utf8.EncodeDecode(bytes);
    }
  }

  /** The character mode always gives a line, unless a position 0 panics. */
  lemma CharsAlwaysSome(c: Cut, input: seq<char>)
    ensures c.ExecuteChars(input).Value? <==> 0 !in c.Positions(|input|)
    ensures c.ExecuteChars(input).Value? ==> c.ExecuteChars(input).value.Some?
  {
  }
}
