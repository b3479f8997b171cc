/**
 * The examples the `cut` clone's tests fix (04_rcut), and the lists of
 * fields on which `parse_ranges` panics as written.
 */
module CutVectors {
  import opened Wrappers
  import opened CutField
  import opened CutLines
  import Utf8

  // ---------------------------------------------------------------------
  // Reading lists of fields
  // ---------------------------------------------------------------------

  /** A list whose first piece parses is that piece's field before the rest. */
  lemma ParseCons(p: seq<char>, pieces: seq<seq<char>>, f: Field, fs: seq<Field>)
    requires Parse(p) == Value(f) && ParseAll(pieces) == Value(fs)
    ensures ParseAll([p] + pieces) == Value([f] + fs)
  {
    assert ([p] + pieces)[0] == p && ([p] + pieces)[1..] == pieces;
  }

  /** A list of one piece that parses. */
  lemma ParseOne(p: seq<char>, f: Field)
    requires Parse(p) == Value(f)
    ensures ParseAll([p]) == Value([f])
  {
    assert ParseAll([]) == Value([]);
    ParseCons(p, [], f, []);
    assert [p] + [] == [p] && [f] + [] == [f];
  }

  /** Four pieces that each parse read as their four fields. */
  lemma ParseFour(p1: seq<char>, p2: seq<char>, p3: seq<char>, p4: seq<char>, f1: Field, f2: Field, f3: Field, f4: Field)
    requires Parse(p1) == Value(f1) && Parse(p2) == Value(f2) && Parse(p3) == Value(f3) && Parse(p4) == Value(f4)
    ensures ParseAll([p1, p2, p3, p4]) == Value([f1, f2, f3, f4])
  {
    ParseOne(p4, f4);
    ParseCons(p3, [p4], f3, [f4]);
    assert [p3] + [p4] == [p3, p4] && [f3] + [f4] == [f3, f4];
    ParseCons(p2, [p3, p4], f2, [f3, f4]);
    assert [p2] + [p3, p4] == [p2, p3, p4] && [f2] + [f3, f4] == [f2, f3, f4];
    ParseCons(p1, [p2, p3, p4], f1, [f2, f3, f4]);
    assert [p1] + [p2, p3, p4] == [p1, p2, p3, p4] && [f1] + [f2, f3, f4] == [f1, f2, f3, f4];
  }

  /** Characters that separate nothing join the first piece of what follows them. */
  lemma {:induction false} SplitPiece(s: seq<char>, i: nat, j: nat)
    requires i <= j <= |s| && Unseparated(s[i..j])
    ensures var rest := SplitList(s[j..]);
            SplitList(s[i..]) == [s[i..j] + rest[0]] + rest[1..]
    decreases j - i
  {
    var rest := SplitList(s[j..]);
    if i < j {
      assert s[i..j][0] == s[i] && s[i..j][1..] == s[i + 1..j];
      SplitPiece(s, i + 1, j);
      assert s[i..][1..] == s[i + 1..];
      assert [s[i]] + (s[i + 1..j] + rest[0]) == s[i..j] + rest[0];
    } else {
      assert s[i..j] == [] && s[i..j] + rest[0] == rest[0];
      assert [rest[0]] + rest[1..] == rest;
    }
  }

  /** A piece ended by a comma. */
  lemma PieceThenComma(s: seq<char>, i: nat, j: nat)
    requires i <= j < |s| && Unseparated(s[i..j]) && s[j] == ','
    ensures SplitList(s[i..]) == [s[i..j]] + SplitList(s[j + 1..])
  {
    SplitPiece(s, i, j);
    var rest := SplitList(s[j..]);
    assert s[j..][0] == ',' && s[j..][1..] == s[j + 1..];
    assert rest == [[]] + SplitList(s[j + 1..]);
    assert rest[1..] == SplitList(s[j + 1..]) && s[i..j] + rest[0] == s[i..j];
  }

  /** A piece ended by the run of whitespace from `j` to `k`. */
  lemma PieceThenSpace(s: seq<char>, i: nat, j: nat, k: nat)
    requires i <= j < k <= |s| && Unseparated(s[i..j])
    requires (forall n | j <= n < k :: IsSpace(s[n])) && (k == |s| || !IsSpace(s[k]))
    ensures SplitList(s[i..]) == [s[i..j]] + SplitList(s[k..])
  {
    SplitPiece(s, i, j);
    var t := s[j..];
    SpaceRunAt(t, 0, k - j);
    assert t[k - j..] == s[k..];
    var rest := SplitList(t);
    assert t[0] == s[j] && IsSpace(t[0]);
    assert rest == [[]] + SplitList(s[k..]);
    assert rest[1..] == SplitList(s[k..]) && s[i..j] + rest[0] == s[i..j];
  }

  /** The last piece. */
  lemma PieceThenEnd(s: seq<char>, i: nat)
    requires i <= |s| && Unseparated(s[i..])
    ensures SplitList(s[i..]) == [s[i..]]
  {
    SplitPiece(s, i, |s|);
    assert s[i..|s|] == s[i..] && s[|s|..] == [];
    assert SplitList(s[|s|..]) == [[]];
    assert s[i..] + [] == s[i..];
  }

  lemma {:induction false} SpaceRunAt(s: seq<char>, i: nat, j: nat)
    requires i <= j <= |s| && (forall k | i <= k < j :: IsSpace(s[k])) && (j == |s| || !IsSpace(s[j]))
    ensures SpaceRun(s, i) == j
    decreases j - i
  {
    if i < j {
      SpaceRunAt(s, i + 1, j);
    }
  }

  lemma ListOne()
    ensures ParseRanges("1") == Value([Single(1)])
  {
    var s := "1";
    PieceThenEnd(s, 0);
    assert s[0..] == s;
    assert Decimal(1) == "1";
    ParseSingle(1);
    OnePiece(s, Single(1));
  }

  lemma ListTwo()
    ensures ParseRanges("1,3") == Value([Single(1), Single(3)])
  {
    var s := "1,3";
    PieceThenEnd(s, 2);
    PieceThenComma(s, 0, 1);
    assert s[0..] == s && s[0..1] == "1" && s[2..] == "3";
    assert SplitList(s) == ["1", "3"];
    assert Decimal(1) == "1" && Decimal(3) == "3";
    ParseSingle(1);
    ParseSingle(3);
    ParseOne("3", Single(3));
    ParseCons("1", ["3"], Single(1), [Single(3)]);
    assert ["1"] + ["3"] == ["1", "3"] && [Single(1)] + [Single(3)] == [Single(1), Single(3)];
  }

  /** Commas and runs of whitespace both separate the fields. */
  lemma ListWhitespace()
    ensures ParseRanges("1,3 4\t  5") == Value([Single(1), Single(3), Single(4), Single(5)])
  {
    var s := "1,3 4\t  5";
    ListWhitespacePieces(s);
    assert Decimal(1) == "1" && Decimal(3) == "3" && Decimal(4) == "4" && Decimal(5) == "5";
    ParseSingle(1);
    ParseSingle(3);
    ParseSingle(4);
    ParseSingle(5);
    ParseFour("1", "3", "4", "5", Single(1), Single(3), Single(4), Single(5));
  }

  lemma ListWhitespacePieces(s: seq<char>)
    requires s == "1,3 4\t  5"
    ensures SplitList(s) == ["1", "3", "4", "5"]
  {
    SpaceTail(s);
    assert s[0..] == s && s[0..1] == "1" && s[1] == ',';
    PieceThenComma(s, 0, 1);
  }

  lemma SpaceTail(s: seq<char>)
    requires s == "1,3 4\t  5"
    ensures SplitList(s[2..]) == ["3", "4", "5"]
  {
    WhitespaceTail(s);
    PieceThenSpace(s, 2, 3, 4);
    assert s[2..3] == "3";
  }

  lemma WhitespaceTail(s: seq<char>)
    requires s == "1,3 4\t  5"
    ensures SplitList(s[4..]) == ["4", "5"]
  {
    PieceThenEnd(s, 8);
    assert s[5] == '\t' && s[6] == ' ' && s[7] == ' ' && IsSpace('\t') && IsSpace(' ') && !IsSpace('5');
    PieceThenSpace(s, 4, 5, 8);
    assert s[4..5] == "4" && s[8..] == "5";
  }

  /** A list of one piece parses as that piece's field. */
  lemma OnePiece(s: seq<char>, f: Field)
    requires Unseparated(s) && Parse(s) == Value(f)
    ensures ParseRanges(s) == Value([f])
  {
    SplitJoin([s]);
    assert Join([s], ",") == s;
    ParseOne(s, f);
  }

  lemma ListRange()
    ensures ParseRanges("1-4") == Value([Range(1, 4)])
  {
    assert Decimal(1) + "-" + Decimal(4) == "1-4";
    ParseRange(1, 4);
    OnePiece("1-4", Range(1, 4));
  }

  lemma ListTo()
    ensures ParseRanges("-4") == Value([Field(None, Some(4))])
  {
    assert "-" + Decimal(4) == "-4";
    ParseTo(4);
    OnePiece("-4", To(4));
  }

  lemma ListFrom()
    ensures ParseRanges("1-") == Value([Field(Some(1), None)])
  {
    assert Decimal(1) + "-" == "1-";
    ParseFrom(1);
    OnePiece("1-", From(1));
  }

  /** An empty piece is not a number, and `Field::parse` unwraps it. */
  lemma EmptyPiecePanics()
    ensures Parse("") == Panic
  {
  }

  /** Two commas in a row leave an empty piece, and the whole list panics. */
  lemma DoubleCommaPanics()
    ensures ParseRanges("1,,3") == Panic
  {
    DoubleCommaPieces();
    EmptyPiecePanics();
    assert ["1", "", "3"][1] == "";
  }

  lemma DoubleCommaPieces()
    ensures SplitList("1,,3") == ["1", "", "3"]
  {
    var s := "1,,3";
    PieceThenEnd(s, 3);
    PieceThenComma(s, 2, 2);
    PieceThenComma(s, 0, 1);
    assert s[0..] == s && s[0..1] == "1" && s[2..2] == "" && s[3..] == "3";
  }

  /** A space after a comma leaves an empty piece as well. */
  lemma CommaSpacePanics()
    ensures ParseRanges("1, 3") == Panic
  {
    var s := "1, 3";
    PieceThenEnd(s, 3);
    PieceThenSpace(s, 2, 2, 3);
    PieceThenComma(s, 0, 1);
    assert s[0..] == s && s[0..1] == "1" && s[2..2] == "" && s[3..] == "3";
    assert SplitList(s) == ["1", "", "3"];
    EmptyPiecePanics();
    assert ["1", "", "3"][1] == "";
  }

  /** The corrected reading leaves the empty piece out. */
  lemma DoubleCommaKept()
    ensures ParseRangesKept("1,,3") == [Single(1), Single(3)]
  {
    DoubleCommaPieces();
    assert Decimal(1) == "1" && Decimal(3) == "3";
    ParseSingle(1);
    ParseSingle(3);
    EmptyPiecePanics();
    var pieces: seq<seq<char>> := ["1", "", "3"];
    assert pieces[1..] == ["", "3"] && pieces[1..][1..] == ["3"] && pieces[1..][1..][1..] == [];
  }

  /** `str::parse::<usize>` takes a leading `+`, so `+5` is field 5. */
  lemma PlusSign()
    ensures Parse("+5") == Value(Single(5))
  {
    assert Decimal(5) == "5";
    ParseDecimal(5);
    assert ['+'] + "5" == "+5";
  }

  // ---------------------------------------------------------------------
  // Cutting lines
  // ---------------------------------------------------------------------

  /** A tab-separated line splits into its three fields. */
  lemma TabFields(s: seq<char>)
    requires s == "test\texpected\tfield"
    ensures SplitOn(s, '\t') == ["test", "expected", "field"]
  {
    var pieces: seq<seq<char>> := ["test", "expected", "field"];
    JoinCons("expected", ["field"], "\t");
    JoinCons("test", ["expected", "field"], "\t");
    assert pieces == ["test"] + ["expected", "field"] && ["expected", "field"] == ["expected"] + ["field"];
    assert Join(pieces, "\t") == s;
    SplitOnJoin(pieces, '\t');
  }

  /** A position within the pieces picks its piece before those the rest pick. */
  lemma SelectCons<T>(n: nat, ns: seq<nat>, splits: seq<T>, rest: seq<T>)
    requires 1 <= n <= |splits| && Select(ns, splits) == Value(rest)
    ensures Select([n] + ns, splits) == Value([splits[n - 1]] + rest)
  {
    assert ([n] + ns)[0] == n && ([n] + ns)[1..] == ns;
  }

  /** One position within the pieces picks that one piece. */
  lemma SelectOne<T>(n: nat, splits: seq<T>)
    requires 1 <= n <= |splits|
    ensures Select([n], splits) == Value([splits[n - 1]])
  {
    assert Select([], splits) == Value([]);
    SelectCons(n, [], splits, []);
    assert [n] + [] == [n] && [splits[n - 1]] + [] == [splits[n - 1]];
  }

  /** Two positions within the pieces pick those two pieces. */
  lemma SelectTwo<T>(m: nat, n: nat, splits: seq<T>)
    requires 1 <= m <= |splits| && 1 <= n <= |splits|
    ensures Select([m, n], splits) == Value([splits[m - 1], splits[n - 1]])
  {
    SelectOne(n, splits);
    SelectCons(m, [n], splits, [splits[n - 1]]);
    assert [m] + [n] == [m, n] && [splits[m - 1]] + [splits[n - 1]] == [splits[m - 1], splits[n - 1]];
  }

  /** Field mode on a delimiter, once the pieces and the selection are known. */
  lemma FieldsOutput(c: Cut, s: seq<char>, splits: seq<seq<char>>, outputs: seq<seq<char>>)
    requires c.command == Fields && !c.whitespace && !c.suppress
    requires SplitOn(s, c.delimiter) == splits && c.Execute(splits) == Value(outputs)
    ensures c.ExecuteLine(s) == Value(Some(Join(outputs, [c.delimiter])))
  {
  }

  /** Field 2 of a tab-separated line. */
  lemma CutSecondField(c: Cut, s: seq<char>)
    requires c == Cut([Single(2)], '\t', false, false, Fields) && s == "test\texpected\tfield"
    ensures c.ExecuteLine(s) == Value(Some("expected"))
  {
    var splits: seq<seq<char>> := ["test", "expected", "field"];
    assert SplitOn(s, '\t') == splits by { TabFields(s); }
    assert c.Execute(splits) == Value(["expected"]) by {
      OneRange(c, 3);
      SingleValues(2, 3);
      SelectOne(2, splits);
    }
    FieldsOutput(c, s, splits, ["expected"]);
  }

  /** A comma-separated line splits into its three fields. */
  lemma CommaFields(s: seq<char>)
    requires s == "test,expected,field"
    ensures SplitOn(s, ',') == ["test", "expected", "field"]
  {
    var pieces: seq<seq<char>> := ["test", "expected", "field"];
    JoinCons("expected", ["field"], ",");
    JoinCons("test", ["expected", "field"], ",");
    assert pieces == ["test"] + ["expected", "field"] && ["expected", "field"] == ["expected"] + ["field"];
    assert Join(pieces, ",") == s;
    SplitOnJoin(pieces, ',');
  }

  /** Field 2 of a comma-separated line. */
  lemma CutOnComma(c: Cut, s: seq<char>)
    requires c == Cut([Single(2)], ',', false, false, Fields) && s == "test,expected,field"
    ensures c.ExecuteLine(s) == Value(Some("expected"))
  {
    var splits: seq<seq<char>> := ["test", "expected", "field"];
    assert SplitOn(s, ',') == splits by { CommaFields(s); }
    assert c.Execute(splits) == Value(["expected"]) by {
      OneRange(c, 3);
      SingleValues(2, 3);
      SelectOne(2, splits);
    }
    FieldsOutput(c, s, splits, ["expected"]);
  }

  /** The values of two ranges, the first range's before the second's. */
  lemma AllValuesTwo(f: Field, g: Field, maxSplits: nat)
    ensures AllValues([f, g], maxSplits) == f.Values(maxSplits) + g.Values(maxSplits)
  {
    assert [f, g][..1] == [f] && [f][..0] == [];
    assert AllValues([f], maxSplits) == f.Values(maxSplits);
  }

  /** Fields 2 and 1, given in that order, are the positions 1 and 2. */
  lemma TwoOnePositions(c: Cut)
    requires c.ranges == [Single(2), Single(1)]
    ensures c.Positions(3) == [1, 2]
  {
    assert AllValues(c.ranges, 3) == [2, 1] by {
      AllValuesTwo(Single(2), Single(1), 3);
      SingleValues(2, 3);
      SingleValues(1, 3);
    }
    assert [2, 1][1..] == [1] && [1][1..] == [];
    assert Sort([1]) == [1] by {
      assert Insert(1, []) == [1] + [];
    }
    assert Insert(2, [1]) == [1, 2] by {
      assert [1][1..] == [] && Insert(2, []) == [2] + [];
      assert [1] + [2] == [1, 2];
    }
  }

  /** Fields 1 and 2 are the positions 1 and 2. */
  lemma OneTwoPositions(c: Cut)
    requires c.ranges == [Single(1), Single(2)]
    ensures c.Positions(3) == [1, 2]
  {
    assert AllValues(c.ranges, 3) == [1, 2] by {
      AllValuesTwo(Single(1), Single(2), 3);
      SingleValues(1, 3);
      SingleValues(2, 3);
    }
    assert Sorted([1, 2]);
    SortSorted([1, 2]);
  }

  /** Fields come out in the order of the line, not of the list. */
  lemma CutFieldsInLineOrder(c: Cut, s: seq<char>)
    requires c == Cut([Single(2), Single(1)], ',', false, false, Fields) && s == "test,expected,field"
    ensures c.ExecuteLine(s) == Value(Some("test,expected"))
  {
    var splits: seq<seq<char>> := ["test", "expected", "field"];
    var outputs: seq<seq<char>> := ["test", "expected"];
    assert Join(outputs, ",") == "test,expected" by {
      JoinCons("test", ["expected"], ",");
      assert ["test"] + ["expected"] == outputs;
    }
    assert SplitOn(s, ',') == splits by { CommaFields(s); }
    assert c.Execute(splits) == Value(outputs) by {
      TwoOnePositions(c);
      SelectTwo(1, 2, splits);
    }
    FieldsOutput(c, s, splits, outputs);
  }

  /** Three words with whitespace between them split into those three words. */
  lemma ThreeWords(w1: seq<char>, sp1: seq<char>, w2: seq<char>, sp2: seq<char>, w3: seq<char>)
    requires |w1| > 0 && |w2| > 0 && |w3| > 0 && NoSpace(w1) && NoSpace(w2) && NoSpace(w3)
    requires |sp1| > 0 && |sp2| > 0 && AllSpace(sp1) && AllSpace(sp2)
    ensures SplitWhitespace(w1 + sp1 + (w2 + sp2 + w3)) == [w1, w2, w3]
  {
    LastWord(w3);
    WordThenSpace(w2, sp2, w3);
    WordThenSpace(w1, sp1, w2 + sp2 + w3);
    assert [w1] + ([w2] + [w3]) == [w1, w2, w3];
  }

  /** A line split on runs of whitespace of different lengths. */
  lemma WhitespaceWords(s: seq<char>)
    requires s == "test\texpected  field"
    ensures SplitWhitespace(s) == ["test", "expected", "field"]
  {
    var w1, w2, w3 := "test", "expected", "field";
    assert s == w1 + "\t" + (w2 + "  " + w3);
    assert NoSpace(w1) && NoSpace(w2) && NoSpace(w3) && AllSpace("\t") && AllSpace("  ");
    ThreeWords(w1, "\t", w2, "  ", w3);
  }

  /** In whitespace mode the fields are split on runs of whitespace and joined with the delimiter. */
  lemma CutOnWhitespace(c: Cut, s: seq<char>)
    requires c == Cut([Single(1), Single(2)], '\t', true, false, Fields) && s == "test\texpected  field"
    ensures c.ExecuteLine(s) == Value(Some("test\texpected"))
  {
    var splits: seq<seq<char>> := ["test", "expected", "field"];
    var outputs: seq<seq<char>> := ["test", "expected"];
    assert Join(outputs, "\t") == "test\texpected" by {
      JoinCons("test", ["expected"], "\t");
      assert ["test"] + ["expected"] == outputs;
    }
    assert SplitWhitespace(s) == splits by { WhitespaceWords(s); }
    assert c.Execute(splits) == Value(outputs) by {
      OneTwoPositions(c);
      SelectTwo(1, 2, splits);
    }
    WhitespaceOutput(c, s, splits, outputs);
  }

  /** Field mode on whitespace, once the words and the selection are known. */
  lemma WhitespaceOutput(c: Cut, s: seq<char>, splits: seq<seq<char>>, outputs: seq<seq<char>>)
    requires c.command == Fields && c.whitespace && !c.suppress
    requires SplitWhitespace(s) == splits && c.Execute(splits) == Value(outputs)
    ensures c.ExecuteLine(s) == Value(Some(Join(outputs, [c.delimiter])))
  {
  }

  /** With `suppress`, a line without the delimiter is left out. */
  lemma CutSuppressed(c: Cut, s: seq<char>)
    requires c == Cut([From(9), To(2), Range(5, 7)], ',', false, true, Fields) && s == "no delimiter in sight"
    ensures c.ExecuteLine(s) == Value(None)
  {
    assert ',' !in s;
    SuppressedOutput(c, s);
  }

  /** A suppressed line, in field mode on a delimiter. */
  lemma SuppressedOutput(c: Cut, s: seq<char>)
    requires c.command == Fields && !c.whitespace && c.suppress && c.delimiter !in s
    ensures c.ExecuteLine(s) == Value(None)
  {
    Suppressed(c, s);
  }

  /** Bytes from the sixth on, of an ASCII line. */
  lemma CutBytes(c: Cut, s: seq<char>)
    requires c == Cut([From(6)], '\t', false, false, Bytes) && s == "test with bytes"
    ensures c.ExecuteLine(s) == Value(Some("with bytes"))
  {
    assert s[5..] == "with bytes" && |s| == 15 && Utf8.IsAscii(s);
    AsciiBytesFrom(c, s, 6);
  }

  /** Byte mode from byte `n` on, of an ASCII line, gives the characters from the `n`-th on. */
  lemma AsciiBytesFrom(c: Cut, s: seq<char>, n: nat)
    requires c.command == Bytes && c.ranges == [From(n)] && Utf8.IsAscii(s) && 1 <= n <= |s|
    ensures c.ExecuteLine(s) == Value(Some(s[n - 1..]))
  {
    var bytes := Utf8.Encode(s);
    AsciiSuffix(s, n - 1);
    var m := |bytes|;
    assert c.Positions(m) == Interval(n, m) by {
      OneRange(c, m);
      ConstructorValues(n, 0, m);
    }
    SelectInterval(n, m, bytes);
    assert c.Execute(bytes) == Value(bytes[n - 1..|s|]);
    Utf8.DecodeEncode(s[n - 1..]);
    SliceToEnd(bytes, n - 1);
    BytesOutput(c, s, bytes[n - 1..|s|]);
  }

  lemma SliceToEnd<T>(a: seq<T>, i: nat)
    requires i <= |a|
    ensures a[i..|a|] == a[i..]
  {
  }

  /** The bytes of an ASCII line from the `i`-th on encode the characters from the `i`-th on. */
  lemma AsciiSuffix(s: seq<char>, i: nat)
    requires Utf8.IsAscii(s) && i <= |s|
    ensures |Utf8.Encode(s)| == |s| && Utf8.Encode(s)[i..] == Utf8.Encode(s[i..])
  {
    Utf8.AsciiEncode(s);
    assert Utf8.IsAscii(s[..i]);
    Utf8.AsciiEncode(s[..i]);
    assert s == s[..i] + s[i..];
    Utf8.EncodeAppend(s[..i], s[i..]);
  }

  /** Byte mode, once the selection is known. */
  lemma BytesOutput(c: Cut, s: seq<char>, outputs: seq<Utf8.Byte>)
    requires c.command == Bytes && c.Execute(Utf8.Encode(s)) == Value(outputs)
    ensures c.ExecuteLine(s) == Value(Utf8.Decode(outputs))
  {
  }

  /** Characters 3 to 6. */
  lemma CutChars(c: Cut, s: seq<char>)
    requires c == Cut([Range(3, 6)], '\t', false, false, Chars) && s == "test with chars"
    ensures c.ExecuteLine(s) == Value(Some("st w"))
  {
    assert s[2..6] == "st w";
    assert c.Execute(s) == Value(s[2..6]) by {
      OneRange(c, |s|);
      ConstructorValues(3, 6, |s|);
      SelectInterval(3, 6, s);
    }
    CharsOutput(c, s, s[2..6]);
  }

  /** Character mode, once the selection is known. */
  lemma CharsOutput(c: Cut, s: seq<char>, outputs: seq<char>)
    requires c.command == Chars && c.Execute(s) == Value(outputs)
    ensures c.ExecuteLine(s) == Value(Some(outputs))
  {
  }

  /**
   * Position 0 panics in every mode, except that a suppressed line is
   * left out before any position is looked at.
   */
  lemma CutZero(c: Cut, input: seq<char>)
    requires c.ranges == [Single(0)]
    ensures !c.suppress ==> c.ExecuteLine(input) == Panic
    ensures c.ExecuteLine(input) == Panic || c.ExecuteLine(input) == Value(None)
  {
    assert c.ranges[0].First() == 0;
    match c.command
    case Fields =>
      var split := if c.whitespace then SplitWhitespace(input) else SplitOn(input, c.delimiter);
      ZeroPanics(c, split);
    case Bytes => ZeroPanics(c, Utf8.Encode(input));
    case Chars => ZeroPanics(c, input);
  }

  /** Cutting the first byte of a two-byte character leaves bytes that are not UTF-8. */
  lemma CutInsideCharacter(c: Cut, s: seq<char>)
    requires c == Cut([Single(1)], '\t', false, false, Bytes) && s == "\U{E4}"
    ensures c.ExecuteLine(s) == Value(None)
  {
    assert Utf8.Decode([0xC3]) == None;
    var bytes := Utf8.Encode(s);
    assert bytes == [0xC3, 0xA4];
    assert c.Execute(bytes) == Value([0xC3]) by {
      OneRange(c, 2);
      SingleValues(1, 2);
      SelectOne(1, bytes);
    }
    BytesOutput(c, s, [0xC3]);
  }
}
