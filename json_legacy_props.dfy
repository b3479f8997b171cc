/**
 * Properties of the older rjson parser, stated on the functions that
 * specify its `Parser` methods, and the cases its unit tests check.
 */
module JsonLegacyProperties {
  import opened Wrappers
  import opened JsonText
  import opened JsonLegacy
  import Common = JsonProperties
  import Vectors = JsonVectors

  // ---------------------------------------------------------------------
  // Dispatch on the first character
  // ---------------------------------------------------------------------

  /** Input holding only whitespace from `i` on reads as `Empty`. */
  lemma EmptyInput(buf: seq<char>, i: nat, closes: bool)
    requires i <= |buf| && forall k | i <= k < |buf| :: IsWhitespace(buf[k])
    ensures ReadValue(buf, i, closes) == Err(Empty)
  {
    SkipWsAll(buf, i);
  }

  /** There is no object reader: a `{` is an invalid character wherever a value is expected. */
  lemma NoObjects(buf: seq<char>, i: nat, closes: bool)
    requires i <= |buf| && SkipWs(buf, i) < |buf| && buf[SkipWs(buf, i)] == '{'
    ensures ReadValue(buf, i, closes) == Err(InvalidChar('{', SkipWs(buf, i)))
  {
  }

  lemma NumberValue(buf: seq<char>, i: nat, closes: bool)
    requires i <= |buf| && SkipWs(buf, i) < |buf|
    requires IsDigit(buf[SkipWs(buf, i)]) || IsSign(buf[SkipWs(buf, i)])
    ensures ReadValue(buf, i, closes) == ReadNumber(buf, SkipWs(buf, i))
  {
  }

  lemma ArrayValue(buf: seq<char>, i: nat, closes: bool)
    requires i <= |buf| && SkipWs(buf, i) < |buf| && buf[SkipWs(buf, i)] == '['
    ensures ReadValue(buf, i, closes) == ReadArray(buf, SkipWs(buf, i), closes)
  {
  }

  // ---------------------------------------------------------------------
  // Numbers
  // ---------------------------------------------------------------------

  /** A collected token that matches the number expression as a whole is read as that number. */
  lemma PatternNumberRead(buf: seq<char>, j: nat)
    requires j < |buf| && (IsDigit(buf[j]) || IsSign(buf[j]))
    requires NumberPattern(buf[j..NumberEnd(buf, j)])
    ensures ReadNumber(buf, j) == Ok((Number(buf[j..NumberEnd(buf, j)]), NumberEnd(buf, j)))
  {
    PatternIsFloat(buf[j..NumberEnd(buf, j)]);
  }

  /** The number expression never matches text that ends on an exponent mark. */
  lemma {:induction false} NoPatternEndsOnMark(t: seq<char>, s: NumberState)
    requires t != [] && IsMark(t[|t| - 1])
    ensures !PatternAccepts(t, s)
    decreases |t|
  {
    if |t| > 1 {
      match PatternStep(s, t[0])
      case None =>
      case Some(s') =>
        assert t[1..][|t[1..]| - 1] == t[|t| - 1];
        NoPatternEndsOnMark(t[1..], s');
    } else {
      assert t[1..] == [];
    }
  }

  /** No suffix of text that ends on an exponent mark matches the number expression. */
  lemma {:induction false} NotFoundEndsOnMark(t: seq<char>)
    requires t != [] && IsMark(t[|t| - 1])
    ensures !PatternFound(t)
    decreases |t|
  {
    NoPatternEndsOnMark(t, Start);
    if |t| > 1 {
      NotFoundEndsOnMark(t[1..]);
    } else {
      assert !NumberPattern(t[1..]);
    }
  }

  /**
   * The exponent takes no sign: the token stops after the mark, and a
   * number with a signed exponent is refused.
   */
  lemma SignedExponent(buf: seq<char>, j: nat)
    requires j < |buf| && (IsDigit(buf[j]) || IsSign(buf[j]))
    requires var c := ExponentStart(buf, j); c + 1 < |buf| && IsMark(buf[c]) && IsSign(buf[c + 1])
    ensures ReadNumber(buf, j) == Err(InvalidNumber)
  {
    var c := ExponentStart(buf, j);
    assert DigitsEnd(buf, c + 1) == c + 1;
    assert NumberEnd(buf, j) == c + 1;
    var t := buf[j..c + 1];
    assert t[|t| - 1] == buf[c];
    NotFoundEndsOnMark(t);
  }

  /** Where the exponent scan of the token at `j` begins: after its sign, integer digits and fraction. */
  function ExponentStart(buf: seq<char>, j: nat): (c: nat)
    requires j < |buf| && (IsDigit(buf[j]) || IsSign(buf[j]))
    ensures j <= c <= |buf| && NumberEnd(buf, j) == ExponentScan(buf, c)
  {
    var a := if IsSign(buf[j]) then j + 1 else j;
    var b := DigitsEnd(buf, a);
    if b < |buf| && buf[b] == '.' then DigitsEnd(buf, b + 1) else b
  }

  lemma SignedExponentValue(buf: seq<char>)
    requires buf == "1e+5"
    ensures ReadValue(buf, 0, false) == Err(InvalidNumber)
  {
    assert SkipWs(buf, 0) == 0;
    assert DigitsEnd(buf, 1) == 1 && DigitsEnd(buf, 0) == 1 && ExponentStart(buf, 0) == 1;
    SignedExponent(buf, 0);
  }

  /** A leading zero is accepted: the expression finds the match `1` at the end of `01`. */
  lemma LeadingZeroAccepted(buf: seq<char>)
    requires buf == "01"
    ensures ReadValue(buf, 0, false) == Ok((Number("01"), 2))
  {
    assert DigitsEnd(buf, 2) == 2 && DigitsEnd(buf, 1) == 2 && DigitsEnd(buf, 0) == 2;
    assert NumberEnd(buf, 0) == 2 && buf[0..2] == "01";
    var t := buf[0..2];
    assert t[1..] == "1" && t[1..][1..] == [];
    assert NumberPattern(t[1..]);
    assert PatternFound(t);
    assert FloatAccepts(t[1..][1..], Integer);
    assert FloatSyntax(t);
    assert SkipWs(buf, 0) == 0;
    NumberValue(buf, 0, false);
  }

  lemma ZeroNumber(buf: seq<char>)
    requires buf == "0"
    ensures ReadValue(buf, 0, false) == Ok((Number("0"), 1))
  {
    assert DigitsEnd(buf, 1) == 1 && DigitsEnd(buf, 0) == 1;
    assert NumberEnd(buf, 0) == 1 && buf[0..1] == "0";
    assert PatternAccepts(buf[0..1][1..], Zero);
    PatternNumberRead(buf, 0);
    assert SkipWs(buf, 0) == 0;
    NumberValue(buf, 0, false);
  }

  lemma ExponentNumber(buf: seq<char>)
    requires buf == "1.2e3"
    ensures ReadValue(buf, 0, false) == Ok((Number("1.2e3"), 5))
  {
    assert DigitsEnd(buf, 1) == 1 && DigitsEnd(buf, 0) == 1;
    assert DigitsEnd(buf, 3) == 3 && DigitsEnd(buf, 2) == 3;
    assert DigitsEnd(buf, 5) == 5 && DigitsEnd(buf, 4) == 5;
    assert NumberEnd(buf, 0) == 5 && buf[0..5] == buf;
    Vectors.ExponentToken(buf[0..5]);
    PatternNumberRead(buf, 0);
    assert SkipWs(buf, 0) == 0;
    NumberValue(buf, 0, false);
  }

  lemma NegativeEnd(buf: seq<char>)
    requires buf == "-4324.6234"
    ensures NumberEnd(buf, 0) == 10 && buf[0..10] == "-4324.6234"
  {
    Common.DigitsEndAt(buf, 1, 5);
    Common.DigitsEndAt(buf, 6, 10);
  }

  lemma NegativeNumber(buf: seq<char>)
    requires buf == "-4324.6234"
    ensures ReadValue(buf, 0, false) == Ok((Number("-4324.6234"), 10))
  {
    NegativeEnd(buf);
    Vectors.NegativeToken(buf[0..10]);
    PatternNumberRead(buf, 0);
    assert SkipWs(buf, 0) == 0;
    NumberValue(buf, 0, false);
  }

  /** The fraction stops at the space, and the token `4324.` is refused. */
  lemma SpaceInFraction(buf: seq<char>)
    requires buf == "4324. 6234"
    ensures ReadValue(buf, 0, false) == Err(InvalidNumber)
  {
    Common.DigitsEndAt(buf, 0, 4);
    assert DigitsEnd(buf, 5) == 5;
    assert NumberEnd(buf, 0) == 5;
    Common.NotFoundEndsOnPoint(buf[0..5]);
    assert SkipWs(buf, 0) == 0;
    NumberValue(buf, 0, false);
  }

  // ---------------------------------------------------------------------
  // Literals and strings
  // ---------------------------------------------------------------------

  lemma FalseLiteral(buf: seq<char>)
    requires buf == "false"
    ensures ReadValue(buf, 0, false) == Ok((Bool(false), 5))
  {
  }

  lemma SpaceInFalse(buf: seq<char>)
    requires buf == "fa lse"
    ensures ReadValue(buf, 0, false) == Err(InvalidChar(' ', 2))
  {
  }

  lemma NullLiteral(buf: seq<char>)
    requires buf == "null"
    ensures ReadValue(buf, 0, false) == Ok((Null, 4))
  {
  }

  lemma WrongTrue(buf: seq<char>)
    requires buf == "treadu"
    ensures ReadValue(buf, 0, false) == Err(InvalidChar('e', 2))
  {
  }

  lemma ShortTrue(buf: seq<char>)
    requires buf == "tru"
    ensures ReadValue(buf, 0, false) == Err(Empty)
  {
  }

  /** A raw line feed inside a literal is taken as it is. */
  lemma RawNewline(buf: seq<char>)
    requires buf == "\"a\nb\""
    ensures ReadValue(buf, 0, false) == Ok((JsonString([97, 10, 98]), 5))
  {
    assert StringTurnAt(buf, 0) == Continue(1, [97]);
    assert StringTurnAt(buf, 1) == Continue(2, [10]);
    assert StringTurnAt(buf, 2) == Continue(3, [98]);
    assert StringTurnAt(buf, 3) == Close(5);
    assert StringLoop(buf, 3, [97, 10, 98]) == Ok((JsonString([97, 10, 98]), 5));
    assert [97, 10] + [98] == [97, 10, 98];
    assert StringLoop(buf, 2, [97, 10]) == Ok((JsonString([97, 10, 98]), 5));
    assert [97] + [10] == [97, 10];
    assert StringLoop(buf, 1, [97]) == Ok((JsonString([97, 10, 98]), 5));
    assert [] + [97] == [97];
  }

  /** `\n` in a literal is the line feed. */
  lemma NewlineEscape(buf: seq<char>)
    requires buf == "\"\\n\""
    ensures ReadValue(buf, 0, false) == Ok((JsonString([10]), 4))
  {
    assert StringTurnAt(buf, 0) == Continue(2, [10]);
    assert StringTurnAt(buf, 2) == Close(4);
    assert StringLoop(buf, 2, [10]) == Ok((JsonString([10]), 4));
    assert [] + [10] == [10];
    assert StringLoop(buf, 0, []) == Ok((JsonString([10]), 4));
    assert SkipWs(buf, 0) == 0;
  }

  /** A literal the input ends inside. */
  lemma OpenString(buf: seq<char>)
    requires buf == "\"ab"
    ensures ReadValue(buf, 0, false) == Err(UnterminatedString)
  {
    assert StringTurnAt(buf, 0) == Continue(1, [97]);
    assert StringTurnAt(buf, 1) == Continue(2, [98]);
    assert StringTurnAt(buf, 2) == Fail(UnterminatedString);
    assert StringLoop(buf, 2, [97, 98]) == Err(UnterminatedString);
    assert [97] + [98] == [97, 98];
    assert StringLoop(buf, 1, [97]) == Err(UnterminatedString);
    assert [] + [97] == [97];
    assert SkipWs(buf, 0) == 0;
  }

  /**
   * The escape a writer for this reader needs: only the quote and the
   * backslash. Raw tabs, line feeds and carriage returns are left as they
   * are, since the reader takes them as themselves.
   */
  function EscapeChar(c: char): (t: seq<char>)
    ensures 1 <= |t| <= 2
    ensures |t| == 1 <==> c != '"' && c != '\\'
    ensures |t| == 1 ==> t == [c]
    ensures |t| == 2 ==> t[0] == '\\' && t[1] == c
  {
    if c == '"' || c == '\\' then ['\\', c] else [c]
  }

  /** The body of a string literal for `s`. */
  function Escaped(s: seq<char>): (t: seq<char>)
    ensures |s| <= |t| <= 2 * |s|
  {
    if s == [] then [] else EscapeChar(s[0]) + Escaped(s[1..])
  }

  /** `s` as a string literal: quoted and escaped. */
  function Quoted(s: seq<char>): seq<char> {
    "\"" + Escaped(s) + "\""
  }

  /** One turn of the string loop over the escaped form of `c`. */
  lemma EscapeStep(buf: seq<char>, k: nat, units: seq<int>, c: char)
    requires k + |EscapeChar(c)| < |buf|
    requires forall i | 0 <= i < |EscapeChar(c)| :: buf[k + 1 + i] == EscapeChar(c)[i]
    ensures StringLoop(buf, k, units) == StringLoop(buf, k + |EscapeChar(c)|, units + Utf16(c))
  {
    if |EscapeChar(c)| == 1 {
      assert buf[k + 1] == c;
    } else {
      assert buf[k + 1] == '\\' && buf[k + 2] == c;
    }
  }

  /**
   * In a buffer holding the text `p`, the escaped form of `s` and a closing
   * quote, the string loop started on the last character of `p` reads the
   * UTF-16 code units of `s` and stops after the quote.
   */
  lemma {:induction false} EscapedRead(buf: seq<char>, p: seq<char>, s: seq<char>, units: seq<int>)
    requires |p| > 0 && buf == p + Escaped(s) + "\""
    ensures StringLoop(buf, |p| - 1, units) == Ok((JsonString(units + Utf16Of(s)), |buf|))
    decreases |s|
  {
    if s != [] {
      var t := EscapeChar(s[0]);
      assert buf == (p + t) + Escaped(s[1..]) + "\"";
      EscapeStep(buf, |p| - 1, units, s[0]);
      EscapedRead(buf, p + t, s[1..], units + Utf16(s[0]));
      Common.UnitsAppend(units, s);
    } else {
      assert Utf16Of(s) == [];
      assert units + [] == units;
      assert StringTurnAt(buf, |p| - 1) == Close(|buf|);
    }
  }

  /**
   * Reading a quoted string gives back its UTF-16 code units and consumes
   * the whole literal, raw control characters included.
   */
  lemma QuotedRoundTrip(s: seq<char>)
    ensures ReadString(Quoted(s), 0) == Ok((JsonString(Utf16Of(s)), |Quoted(s)|))
  {
    EscapedRead(Quoted(s), "\"", s, []);
    assert [] + Utf16Of(s) == Utf16Of(s);
  }

  // ---------------------------------------------------------------------
  // Arrays
  // ---------------------------------------------------------------------

  /**
   * As written, an array loop that succeeds stops with the cursor ON the
   * `]` that ends it: the bracket is left for the caller to read.
   */
  lemma {:induction false} LoopStopsOnBracket(buf: seq<char>, k: nat, elements: seq<JsonObject>)
    requires k <= |buf| && ArrayLoop(buf, k, elements, false).Ok?
    ensures var e := ArrayLoop(buf, k, elements, false).value.1; e < |buf| && buf[e] == ']'
    decreases |buf| - k
  {
    match ArrayTurnAt(buf, k, false)
    case Closed(end) =>
    case Failed(_) =>
    case Skipped(next) => LoopStopsOnBracket(buf, next, elements);
    case Element(v, next) => LoopStopsOnBracket(buf, next, elements + [v]);
  }

  /** With the `]` stepped over, the loop stops just AFTER the bracket that ends it. */
  lemma {:induction false} LoopStopsAfterBracket(buf: seq<char>, k: nat, elements: seq<JsonObject>)
    requires k <= |buf| && ArrayLoop(buf, k, elements, true).Ok?
    ensures var e := ArrayLoop(buf, k, elements, true).value.1; 0 < e && buf[e - 1] == ']'
    decreases |buf| - k
  {
    match ArrayTurnAt(buf, k, true)
    case Closed(end) =>
    case Failed(_) =>
    case Skipped(next) => LoopStopsAfterBracket(buf, next, elements);
    case Element(v, next) => LoopStopsAfterBracket(buf, next, elements + [v]);
  }

  /** As written, a value read as an array leaves the cursor on its closing bracket. */
  lemma ArrayValueStopsOnBracket(buf: seq<char>, i: nat)
    requires i <= |buf| && ReadValue(buf, i, false).Ok? && ReadValue(buf, i, false).value.0.Array?
    ensures var e := ReadValue(buf, i, false).value.1; e < |buf| && buf[e] == ']'
  {
    var j := SkipWs(buf, i);
    if buf[j] == '[' {
      LoopStopsOnBracket(buf, SkipWs(buf, j + 1), []);
    }
  }

  /**
   * Hence, as written, an array that is an element of another array ends
   * the enclosing array too: the next turn of the enclosing loop finds the
   * inner `]` and closes there.
   */
  lemma NestedArrayClosesOuter(buf: seq<char>, k: nat)
    requires k <= |buf| && ArrayTurnAt(buf, k, false).Element? && ArrayTurnAt(buf, k, false).item.Array?
    ensures var e := ArrayTurnAt(buf, k, false).next; ArrayTurnAt(buf, e, false) == Closed(e)
  {
    ArrayValueStopsOnBracket(buf, SkipWs(buf, k));
  }

  /** With the `]` stepped over, an array value ends right after its closing bracket. */
  lemma ArrayValueEndsAfterBracket(buf: seq<char>, i: nat)
    requires i <= |buf| && ReadValue(buf, i, true).Ok? && ReadValue(buf, i, true).value.0.Array?
    ensures var e := ReadValue(buf, i, true).value.1; buf[e - 1] == ']'
  {
    var j := SkipWs(buf, i);
    if buf[j] == '[' {
      LoopStopsAfterBracket(buf, SkipWs(buf, j + 1), []);
    }
  }

  /** A one-digit number followed by a character that cannot continue it. */
  lemma Digit(buf: seq<char>, j: nat)
    requires j + 1 < |buf| && IsDigit(buf[j]) && buf[j] != '0'
    requires !IsDigit(buf[j + 1]) && buf[j + 1] != '.' && !IsMark(buf[j + 1])
    ensures ReadNumber(buf, j) == Ok((Number([buf[j]]), j + 1))
  {
    assert DigitsEnd(buf, j + 1) == j + 1 && DigitsEnd(buf, j) == j + 1;
    assert NumberEnd(buf, j) == j + 1 && buf[j..j + 1] == [buf[j]];
    assert PatternAccepts([buf[j]][1..], Integer);
    PatternNumberRead(buf, j);
  }

  /** `[]` is read, as written, with the cursor left on the `]`. */
  lemma EmptyArray(buf: seq<char>)
    requires buf == "[]"
    ensures ReadValue(buf, 0, false) == Ok((Array([]), 1))
    ensures Parsed(buf) == Ok(Array([]))
  {
    assert SkipWs(buf, 0) == 0 && SkipWs(buf, 1) == 1;
    assert ArrayTurnAt(buf, 1, false) == Closed(1);
    assert ArrayLoop(buf, 1, [], false) == Ok((Array([]), 1));
    ArrayValue(buf, 0, false);
  }

  /** The turns of the array loop over `[1,2]`. */
  lemma TwoNumberTurns(buf: seq<char>)
    requires buf == "[1,2]"
    ensures ArrayTurnAt(buf, 1, false) == Element(Number("1"), 2)
    ensures ArrayTurnAt(buf, 2, false) == Skipped(3)
    ensures ArrayTurnAt(buf, 3, false) == Element(Number("2"), 4)
    ensures ArrayTurnAt(buf, 4, false) == Closed(4)
  {
    assert SkipWs(buf, 1) == 1 && SkipWs(buf, 2) == 2 && SkipWs(buf, 3) == 3 && SkipWs(buf, 4) == 4;
    Digit(buf, 1);
    Digit(buf, 3);
    NumberValue(buf, 1, false);
    NumberValue(buf, 3, false);
  }

  lemma TwoNumbers(buf: seq<char>)
    requires buf == "[1,2]"
    ensures ReadValue(buf, 0, false) == Ok((Array([Number("1"), Number("2")]), 4))
  {
    TwoNumberTurns(buf);
    var one := [Number("1")];
    assert [] + one == one && one + [Number("2")] == [Number("1"), Number("2")];
    assert ArrayLoop(buf, 3, one, false) == Ok((Array([Number("1"), Number("2")]), 4));
    assert ArrayLoop(buf, 1, [], false) == ArrayLoop(buf, 2, one, false);
    assert SkipWs(buf, 0) == 0 && SkipWs(buf, 1) == 1;
    ArrayValue(buf, 0, false);
  }

  /** The first element of `[3,]` and of `[3, , 3.2]`. */
  lemma Three(buf: seq<char>)
    requires |buf| > 2 && buf[0] == '[' && buf[1] == '3' && buf[2] == ','
    ensures ReadValue(buf, 0, false) == ArrayLoop(buf, 2, [Number("3")], false)
  {
    assert SkipWs(buf, 0) == 0 && SkipWs(buf, 1) == 1;
    Digit(buf, 1);
    NumberValue(buf, 1, false);
    assert ArrayTurnAt(buf, 1, false) == Element(Number("3"), 2);
    assert [] + [Number("3")] == [Number("3")];
    ArrayValue(buf, 0, false);
  }

  /** A comma must be followed by an element. */
  lemma TrailingComma(buf: seq<char>)
    requires buf == "[3,]"
    ensures ReadValue(buf, 0, false) == Err(InvalidChar(']', 3))
  {
    Three(buf);
    assert SkipWs(buf, 2) == 2 && SkipWs(buf, 3) == 3;
    assert ArrayTurnAt(buf, 2, false) == Failed(InvalidChar(']', 3));
  }

  /** Two commas in a row, even with whitespace between them, are refused at the second. */
  lemma DoubleComma(buf: seq<char>)
    requires buf == "[3, , 3.2]"
    ensures ReadValue(buf, 0, false) == Err(InvalidChar(',', 4))
  {
    Three(buf);
    assert SkipWs(buf, 2) == 2 && SkipWs(buf, 3) == 4;
    assert ArrayTurnAt(buf, 2, false) == Failed(InvalidChar(',', 4));
  }

  /** A comma before the first element is passed over. */
  lemma LeadingComma(buf: seq<char>)
    requires buf == "[,1]"
    ensures ReadValue(buf, 0, false) == Ok((Array([Number("1")]), 3))
  {
    assert SkipWs(buf, 0) == 0 && SkipWs(buf, 1) == 1 && SkipWs(buf, 2) == 2 && SkipWs(buf, 3) == 3;
    assert ArrayTurnAt(buf, 1, false) == Skipped(2);
    Digit(buf, 2);
    NumberValue(buf, 2, false);
    assert ArrayTurnAt(buf, 2, false) == Element(Number("1"), 3);
    assert [] + [Number("1")] == [Number("1")];
    assert ArrayLoop(buf, 3, [Number("1")], false) == Ok((Array([Number("1")]), 3));
    assert ArrayLoop(buf, 1, [], false) == ArrayLoop(buf, 2, [], false);
    assert ArrayLoop(buf, 1, [], false) == Ok((Array([Number("1")]), 3));
    ArrayValue(buf, 0, false);
  }

  /** An array the input ends inside. */
  lemma OpenArray(buf: seq<char>)
    requires buf == "[1 "
    ensures ReadValue(buf, 0, false) == Err(UnterminatedArray)
  {
    assert SkipWs(buf, 0) == 0 && SkipWs(buf, 1) == 1 && SkipWs(buf, 2) == 3;
    Digit(buf, 1);
    NumberValue(buf, 1, false);
    assert ArrayTurnAt(buf, 1, false) == Element(Number("1"), 2);
    assert ArrayTurnAt(buf, 2, false) == Failed(UnterminatedArray);
    assert ArrayLoop(buf, 1, [], false) == Err(UnterminatedArray);
    ArrayValue(buf, 0, false);
  }

  /** As written, `[[],1]` reads as `[[]]`: the inner `]` also ends the outer array. */
  lemma NestedAsWritten(buf: seq<char>)
    requires buf == "[[],1]"
    ensures ReadValue(buf, 0, false) == Ok((Array([Array([])]), 2))
    ensures Parsed(buf) == Ok(Array([Array([])]))
  {
    assert SkipWs(buf, 0) == 0 && SkipWs(buf, 1) == 1 && SkipWs(buf, 2) == 2;
    ArrayValue(buf, 1, false);
    assert ArrayTurnAt(buf, 2, false) == Closed(2);
    assert ArrayLoop(buf, 2, [], false) == Ok((Array([]), 2));
    assert ReadValue(buf, 1, false) == Ok((Array([]), 2));
    assert ArrayTurnAt(buf, 1, false) == Element(Array([]), 2);
    assert [] + [Array([])] == [Array([])];
    assert ArrayLoop(buf, 2, [Array([])], false) == Ok((Array([Array([])]), 2));
    assert ArrayLoop(buf, 1, [], false) == Ok((Array([Array([])]), 2));
    ArrayValue(buf, 0, false);
  }

  /** The first element of `[[],1]` when each `]` is stepped over. */
  lemma NestedFirst(buf: seq<char>)
    requires buf == "[[],1]"
    ensures ArrayLoop(buf, 1, [], true) == ArrayLoop(buf, 3, [Array([])], true)
  {
    assert SkipWs(buf, 1) == 1 && SkipWs(buf, 2) == 2;
    ArrayValue(buf, 1, true);
    assert ArrayTurnAt(buf, 2, true) == Closed(3);
    assert ReadValue(buf, 1, true) == Ok((Array([]), 3));
    assert ArrayTurnAt(buf, 1, true) == Element(Array([]), 3);
    assert [] + [Array([])] == [Array([])];
  }

  /** With each `]` stepped over, `[[],1]` reads whole. */
  lemma NestedCorrected(buf: seq<char>)
    requires buf == "[[],1]"
    ensures ReadValue(buf, 0, true) == Ok((Array([Array([]), Number("1")]), 6))
  {
    NestedFirst(buf);
    assert SkipWs(buf, 3) == 3 && SkipWs(buf, 4) == 4 && SkipWs(buf, 5) == 5;
    assert ArrayTurnAt(buf, 3, true) == Skipped(4);
    Digit(buf, 4);
    NumberValue(buf, 4, true);
    assert ArrayTurnAt(buf, 4, true) == Element(Number("1"), 5);
    assert ArrayTurnAt(buf, 5, true) == Closed(6);
    var two := [Array([]), Number("1")];
    assert [Array([])] + [Number("1")] == two;
    assert ArrayLoop(buf, 5, two, true) == Ok((Array(two), 6));
    assert SkipWs(buf, 0) == 0;
    ArrayValue(buf, 0, true);
  }

  // ---------------------------------------------------------------------
  // The root value
  // ---------------------------------------------------------------------

  /** Whatever follows the first value is ignored. */
  lemma RootTrailing(buf: seq<char>)
    requires buf == "[] x"
    ensures Parsed(buf) == Ok(Array([]))
  {
    assert SkipWs(buf, 0) == 0 && SkipWs(buf, 1) == 1;
    assert ArrayTurnAt(buf, 1, false) == Closed(1);
    assert ArrayLoop(buf, 1, [], false) == Ok((Array([]), 1));
    ArrayValue(buf, 0, false);
  }

  /** Any value may stand at the root, a number included. */
  lemma RootNumber(buf: seq<char>)
    requires buf == "1 "
    ensures Parsed(buf) == Ok(Number("1"))
  {
    assert SkipWs(buf, 0) == 0;
    Digit(buf, 0);
    NumberValue(buf, 0, false);
  }

  lemma RootObject(buf: seq<char>)
    requires buf == " {}"
    ensures Parsed(buf) == Err(InvalidChar('{', 1))
  {
    assert SkipWs(buf, 0) == 1;
    NoObjects(buf, 0, false);
  }
}
