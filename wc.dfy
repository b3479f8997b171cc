/**
 * The `wc` clone (01_rwc): the counts of one input (`CountResult`), their
 * sum (`Add`, `sum_counts`), the loop that reads an input one line at a
 * time and counts it (`count_buf`), and the columns `print` shows for the
 * flags `-c`, `-l`, `-m` and `-w`.
 *
 * The reader is the whole input as a byte sequence; `read_until(b'\n')`
 * hands out the next chunk of it. Words are those of Rust's
 * `str::split_whitespace`, modelled for the `cut` clone as
 * `CutLines.SplitWhitespace`; a failed `expect` is the `Panic` case of
 * `CutField.Outcome`, and `u64::to_string` is `CutField.Decimal`.
 */
module WordCount {
  import opened Wrappers
  import CutField
  import CutLines
  import Utf8

  type Byte = Utf8.Byte

  /** `b'\n'`, where `read_until` stops. */
  const Newline: Byte := 0x0A

  /** The counts of one input, and the name it is shown under. */
  datatype CountResult = CountResult(path: string, bytes: nat, words: nat, chars: nat, lines: nat)

  /** `CountResult::new`: every count zero. */
  function New(path: string): (r: CountResult)
    ensures r.path == path
    ensures forall a :: Add(a, r) == a
  {
    CountResult(path, 0, 0, 0, 0)
  }

  /** `impl Add for CountResult`: the counts added, the left operand's path kept. */
  function Add(a: CountResult, b: CountResult): (r: CountResult)
    ensures r.path == a.path
  {
    CountResult(a.path, a.bytes + b.bytes, a.words + b.words, a.chars + b.chars, a.lines + b.lines)
  }

  /** Adding is associative, so any grouping of a sum gives the same counts. */
  lemma AddAssociative(a: CountResult, b: CountResult, c: CountResult)
    ensures Add(Add(a, b), c) == Add(a, Add(b, c))
  {
  }

  /** The counts add the same either way round; only the path differs. */
  lemma AddCommutes(a: CountResult, b: CountResult)
    ensures Add(a, b) == Add(b, a).(path := a.path)
  {
  }

  /** Fresh counts add nothing, on either side; on the left they give their path. */
  lemma AddNew(a: CountResult, path: string)
    ensures Add(a, New(path)) == a
    ensures Add(New(path), a) == a.(path := path)
  {
  }

  // ---------------------------------------------------------------------
  // sum_counts
  // ---------------------------------------------------------------------

  /** `filter_map(|count| count.as_ref().ok())`: the counts of the inputs that could be read, in order. */
  function Oks<E>(counts: seq<Result<CountResult, E>>): (oks: seq<CountResult>)
    ensures |oks| <= |counts|
  {
    if counts == [] then []
    else (if counts[0].Ok? then [counts[0].value] else []) + Oks(counts[1..])
  }

  /** `Iterator::fold` with `+`, from `acc` on. */
  function Fold(acc: CountResult, cs: seq<CountResult>): (r: CountResult)
    ensures r.path == acc.path
    decreases |cs|
  {
    if cs == [] then acc else Fold(Add(acc, cs[0]), cs[1..])
  }

  /** `sum_counts`: the counts of every input that could be read, added up under the path `total`. */
  function SumCounts<E>(counts: seq<Result<CountResult, E>>): (r: CountResult)
    ensures r.path == "total"
  {
    Fold(New("total"), Oks(counts))
  }

  lemma {:induction false} OksAppend<E>(xs: seq<Result<CountResult, E>>, ys: seq<Result<CountResult, E>>)
    ensures Oks(xs + ys) == Oks(xs) + Oks(ys)
  {
    if xs == [] {
      assert xs + ys == ys;
    } else {
      assert (xs + ys)[0] == xs[0] && (xs + ys)[1..] == xs[1..] + ys;
      OksAppend(xs[1..], ys);
      var head := if xs[0].Ok? then [xs[0].value] else [];
      assert head + (Oks(xs[1..]) + Oks(ys)) == (head + Oks(xs[1..])) + Oks(ys);
    }
  }

  /** Counts already added can be set aside and added at the end. */
  lemma {:induction false} FoldShift(a: CountResult, b: CountResult, cs: seq<CountResult>)
    ensures Fold(Add(a, b), cs) == Add(a, Fold(b, cs))
    decreases |cs|
  {
    if cs != [] {
      AddAssociative(a, b, cs[0]);
      FoldShift(a, Add(b, cs[0]), cs[1..]);
    }
  }

  lemma {:induction false} FoldAppend(acc: CountResult, xs: seq<CountResult>, ys: seq<CountResult>)
    ensures Fold(acc, xs + ys) == Fold(Fold(acc, xs), ys)
    decreases |xs|
  {
    if xs == [] {
      assert xs + ys == ys;
    } else {
      assert (xs + ys)[0] == xs[0] && (xs + ys)[1..] == xs[1..] + ys;
      FoldAppend(Add(acc, xs[0]), xs[1..], ys);
    }
  }

  /** The total of two lists of results is the sum of their totals. */
  lemma SumCountsAppend<E>(xs: seq<Result<CountResult, E>>, ys: seq<Result<CountResult, E>>)
    ensures SumCounts(xs + ys) == Add(SumCounts(xs), SumCounts(ys))
  {
    var total := New("total");
    var sx := SumCounts(xs);
    OksAppend(xs, ys);
    FoldAppend(total, Oks(xs), Oks(ys));
    AddNew(sx, "total");
    FoldShift(sx, total, Oks(ys));
  }

  /** One readable input: its counts, under the path `total`. */
  lemma SumCountsOk<E>(c: CountResult)
    ensures SumCounts<E>([Ok(c)]) == c.(path := "total")
  {
    var counts: seq<Result<CountResult, E>> := [Ok(c)];
    assert counts[1..] == [];
    assert Oks(counts) == [c];
    assert [c][1..] == [];
    assert Fold(New("total"), [c]) == Add(New("total"), c);
  }

  /** An input that could not be read adds nothing. */
  lemma SumCountsErr<E>(e: E)
    ensures SumCounts<E>([Err(e)]) == New("total")
  {
    var counts: seq<Result<CountResult, E>> := [Err(e)];
    assert counts[1..] == [];
    assert Oks(counts) == [];
  }

  // ---------------------------------------------------------------------
  // count_buf
  // ---------------------------------------------------------------------

  /** `read_until(b'\n', ...)`: the length of the next chunk, through the first newline or to the end. */
  function ReadUntil(input: seq<Byte>): (n: nat)
    requires |input| > 0
    ensures 0 < n <= |input|
    ensures forall k | 0 <= k < n - 1 :: input[k] != Newline
    ensures input[n - 1] == Newline || n == |input|
  {
    if input[0] == Newline || |input| == 1 then 1 else 1 + ReadUntil(input[1..])
  }

  /** The newlines of the input, and one more line when the last one has none. */
  function Lines(input: seq<Byte>): nat {
    multiset(input)[Newline] + (if input != [] && input[|input| - 1] != Newline then 1 else 0)
  }

  /**
   * `count_buf` over the whole input `input` under the name `name`: it
   * panics exactly when the input is not UTF-8, and otherwise counts its
   * bytes, its words, its characters and its lines.
   */
  method CountBuf(name: string, input: seq<Byte>) returns (r: CutField.Outcome<CountResult>)
    ensures r.Panic? <==> Utf8.Decode(input) == None
    ensures r.Value? ==> var text := Utf8.Decode(input).value;
              r.value == CountResult(name, |input|, |CutLines.SplitWhitespace(text)|, |text|, Lines(input))
  {
    var res := New(name);
    var rest := input;
    ghost var done: seq<Byte> := [];
    ghost var text: seq<char> := [];
    while rest != []
      invariant done + rest == input
      invariant CountedSoFar(name, done, rest, text, res)
      decreases |rest|
    {
      var n := ReadUntil(rest);
      var decoded := Utf8.Decode(rest[..n]);
      if decoded.None? {
        // `expect("from_utf8 failed")`
        ChunkFails(done, rest);
        return CutField.Panic;
      }
      var line := decoded.value;
      ChunkCounted(name, done, rest, text, res, line);
      res := res.(lines := res.lines + 1, chars := res.chars + |line|, bytes := res.bytes + n,
                  words := res.words + |CutLines.SplitWhitespace(line)|);
      done, text := done + rest[..n], text + line;
      rest := rest[n..];
    }
    assert done == input;
    r := CutField.Value(res);
  }

  /**
   * The loop invariant of `count_buf`: what has been read, `done`, ends
   * where a chunk starts (unless nothing is left), it decodes to `text`,
   * and `res` holds its counts.
   */
  predicate CountedSoFar(name: string, done: seq<Byte>, rest: seq<Byte>, text: seq<char>, res: CountResult) {
    && (AtLineStart(done) || rest == [])
    && Utf8.Decode(done) == Some(text)
    && res == CountResult(name, |done|, |CutLines.SplitWhitespace(text)|, |text|, Lines(done))
  }

  /** A chunk that is not UTF-8 makes the whole input not UTF-8. */
  lemma ChunkFails(done: seq<Byte>, rest: seq<Byte>)
    requires AtLineStart(done) && rest != [] && Utf8.Decode(rest[..ReadUntil(rest)]) == None
    ensures Utf8.Decode(done + rest) == None
  {
    var n := ReadUntil(rest);
    var chunk := rest[..n];
    assert done + rest == done + chunk + rest[n..];
    ChunkDecodes(done, chunk, rest[n..]);
  }

  /** A chunk that decodes to `line` is counted, and the invariant moves past it. */
  lemma ChunkCounted(name: string, done: seq<Byte>, rest: seq<Byte>, text: seq<char>, res: CountResult, line: seq<char>)
    requires CountedSoFar(name, done, rest, text, res) && rest != []
    requires Utf8.Decode(rest[..ReadUntil(rest)]) == Some(line)
    ensures var n := ReadUntil(rest);
            && (done + rest[..n]) + rest[n..] == done + rest
            && CountedSoFar(name, done + rest[..n], rest[n..], text + line,
                         res.(lines := res.lines + 1, chars := res.chars + |line|, bytes := res.bytes + n,
                              words := res.words + |CutLines.SplitWhitespace(line)|))
  {
    var n := ReadUntil(rest);
    var chunk := rest[..n];
    var done' := done + chunk;
    ChunkSlices(done, rest, n);
    assert forall k | 0 <= k < |chunk| - 1 :: chunk[k] != Newline;
    assert Utf8.Decode(done') == Some(text + line)
        && |CutLines.SplitWhitespace(text + line)| == |CutLines.SplitWhitespace(text)| + |CutLines.SplitWhitespace(line)|
        && Lines(done') == Lines(done) + 1 by {
      ChunkStep(done, chunk, text, line);
    }
  }

  /** Moving the first `n` bytes of what is left to what has been read. */
  lemma ChunkSlices(done: seq<Byte>, rest: seq<Byte>, n: nat)
    requires 0 < n <= |rest|
    ensures (done + rest[..n]) + rest[n..] == done + rest
    ensures (done + rest[..n])[|done| + n - 1] == rest[n - 1]
    ensures |done + rest[..n]| == |done| + n
  {
    assert rest == rest[..n] + rest[n..];
  }

  /** Where a chunk may start: at the beginning, or after a newline. */
  predicate AtLineStart(prefix: seq<Byte>) {
    prefix == [] || prefix[|prefix| - 1] == Newline
  }

  /** A chunk of an input that is UTF-8 is UTF-8 on its own. */
  lemma ChunkDecodes(prefix: seq<Byte>, chunk: seq<Byte>, rest: seq<Byte>)
    requires AtLineStart(prefix) && chunk != [] && (chunk[|chunk| - 1] == Newline || rest == [])
    ensures Utf8.Decode(prefix + chunk + rest).Some? ==> Utf8.Decode(chunk).Some?
  {
    if Utf8.Decode(prefix + chunk + rest).Some? {
      if prefix != [] {
        assert prefix + chunk + rest == prefix + (chunk + rest);
        Utf8.DecodeSplit(prefix, chunk + rest);
      } else {
        assert prefix + chunk + rest == chunk + rest;
      }
      if rest != [] {
        Utf8.DecodeSplit(chunk, rest);
      } else {
        assert chunk + rest == chunk;
      }
    }
  }

  /** Counting one more chunk: its text follows, its words and characters add, and it is one line. */
  lemma ChunkStep(prefix: seq<Byte>, chunk: seq<Byte>, text: seq<char>, line: seq<char>)
    requires AtLineStart(prefix) && Utf8.Decode(prefix) == Some(text) && Utf8.Decode(chunk) == Some(line)
    requires chunk != [] && forall k | 0 <= k < |chunk| - 1 :: chunk[k] != Newline
    ensures Utf8.Decode(prefix + chunk) == Some(text + line)
    ensures CutLines.SplitWhitespace(text + line) == CutLines.SplitWhitespace(text) + CutLines.SplitWhitespace(line)
    ensures Lines(prefix + chunk) == Lines(prefix) + 1
  {
    Utf8.DecodeAppend(prefix, chunk);
    if prefix != [] {
      LastNewline(prefix, text);
    }
    WordsAppend(text, line);
    assert Lines(prefix + chunk) == Lines(prefix) + 1 by {
      NewlinesAppend(prefix, chunk);
      ChunkNewlines(chunk);
      assert (prefix + chunk)[|prefix + chunk| - 1] == chunk[|chunk| - 1];
    }
  }

  /** A chunk holds a newline only at its end. */
  lemma ChunkNewlines(line: seq<Byte>)
    requires |line| > 0 && forall k | 0 <= k < |line| - 1 :: line[k] != Newline
    ensures multiset(line)[Newline] == if line[|line| - 1] == Newline then 1 else 0
  {
    var front := line[..|line| - 1];
    assert line == front + [line[|line| - 1]];
    assert Newline !in front;
  }

  lemma NewlinesAppend(a: seq<Byte>, b: seq<Byte>)
    ensures multiset(a + b)[Newline] == multiset(a)[Newline] + multiset(b)[Newline]
  {
  }

  /** A chunk that ends in a newline decodes to a line that ends in one. */
  lemma LastNewline(line: seq<Byte>, x: seq<char>)
    requires |line| > 0 && line[|line| - 1] == Newline && Utf8.Decode(line) == Some(x)
    ensures |x| > 0 && x[|x| - 1] == '\n'
  {
    assert line + [] == line;
    Utf8.DecodeSplit(line, []);
  }

  /** A line ended by whitespace splits into words apart from what follows it. */
  lemma {:induction false} WordsAppend(x: seq<char>, y: seq<char>)
    requires x == [] || CutField.IsSpace(x[|x| - 1])
    ensures CutLines.SplitWhitespace(x + y) == CutLines.SplitWhitespace(x) + CutLines.SplitWhitespace(y)
    decreases |x|
  {
    if x == [] {
      assert x + y == y;
    } else {
      var s := x + y;
      assert s[0] == x[0];
      if CutField.IsSpace(x[0]) {
        assert s[1..] == x[1..] + y;
        WordsAppend(x[1..], y);
      } else {
        var e := CutLines.WordEnd(x, 0);
        assert 0 < e < |x|;
        CutLines.WordEndAt(s, 0, e);
        assert s[..e] == x[..e] && s[e..] == x[e..] + y;
        WordsAppend(x[e..], y);
        var w := [x[..e]];
        assert w + (CutLines.SplitWhitespace(x[e..]) + CutLines.SplitWhitespace(y))
            == (w + CutLines.SplitWhitespace(x[e..])) + CutLines.SplitWhitespace(y);
      }
    }
  }

  // ---------------------------------------------------------------------
  // print
  // ---------------------------------------------------------------------

  /** The flags of `Args` that choose the columns: `-c`, `-l`, `-m` and `-w`. */
  datatype Args = Args(countBytes: bool, countLines: bool, countChars: bool, countWords: bool)

  /**
   * The columns `print` shows: with no flag, lines, words and bytes;
   * otherwise those chosen, chars in place of bytes when both are asked
   * for; the path last.
   */
  function Columns(r: CountResult, options: Args): (columns: seq<string>)
    ensures 2 <= |columns| <= 4 && columns[|columns| - 1] == r.path
  {
    var default := !options.countBytes && !options.countLines && !options.countChars && !options.countWords;
    (if default || options.countLines then [CutField.Decimal(r.lines)] else [])
    + (if default || options.countWords then [CutField.Decimal(r.words)] else [])
    + (if options.countChars then [CutField.Decimal(r.chars)]
       else if default || (options.countBytes && !options.countChars) then [CutField.Decimal(r.bytes)]
       else [])
    + [r.path]
  }

  /** `CountResult::print`: the columns joined by tabs. */
  function Print(r: CountResult, options: Args): (line: string)
    ensures '\t' !in r.path ==> CutLines.SplitOn(line, '\t') == Columns(r, options)
  {
    ColumnsSplit(r, options);
    CutField.Join(Columns(r, options), "\t")
  }

  /** With no flag: lines, words, bytes, then the path. */
  lemma PrintDefault(r: CountResult)
    ensures Columns(r, Args(false, false, false, false))
         == [CutField.Decimal(r.lines), CutField.Decimal(r.words), CutField.Decimal(r.bytes), r.path]
  {
  }

  /** `-m` wins over `-c`: once chars are asked for, asking for bytes changes nothing. */
  lemma CharsOverBytes(r: CountResult, options: Args)
    requires options.countChars
    ensures Columns(r, options) == Columns(r, options.(countBytes := true))
    ensures Columns(r, options) == Columns(r, options.(countBytes := false))
    ensures CutField.Decimal(r.chars) in Columns(r, options)
  {
  }

  /** A path without tabs can be read back: the columns joined with tabs split on them into exactly the columns. */
  lemma ColumnsSplit(r: CountResult, options: Args)
    ensures '\t' !in r.path ==> CutLines.SplitOn(CutField.Join(Columns(r, options), "\t"), '\t') == Columns(r, options)
  {
    if '\t' !in r.path {
      var columns := Columns(r, options);
      DecimalNoTab(r.lines);
      DecimalNoTab(r.words);
      DecimalNoTab(r.chars);
      DecimalNoTab(r.bytes);
      assert forall k | 0 <= k < |columns| :: '\t' !in columns[k];
      CutLines.SplitOnJoin(columns, '\t');
    }
  }

  lemma DecimalNoTab(n: nat)
    ensures '\t' !in CutField.Decimal(n)
  {
    var s := CutField.Decimal(n);
    assert forall k | 0 <= k < |s| :: s[k] != '\t' by {
      assert CutField.AllDigits(s);
    }
  }
}
