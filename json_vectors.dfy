/**
 * The cases the unit tests of the 02_rjson parser check, stated on the
 * function `ReadValue(buf, 0, false)` that specifies `partial_read(false)`
 * on a fresh parser. Numbers appear as the token text the parser hands to
 * the float parser.
 */
module JsonVectors {
  import opened Wrappers
  import opened JsonText
  import opened Json
  import opened JsonProperties

  // ---------------------------------------------------------------------
  // Empty input
  // ---------------------------------------------------------------------

  lemma EmptyCases()
    ensures ReadValue("", 0, false) == Err(Empty)
    ensures ReadValue("    ", 0, false) == Err(Empty)
  {
    EmptyInput("    ", 0, false);
  }

  lemma EmptyMixedWhitespace(buf: seq<char>)
    requires buf == "   \n\t \t   "
    ensures ReadValue(buf, 0, false) == Err(Empty)
  {
    EmptyInput(buf, 0, false);
  }

  // ---------------------------------------------------------------------
  // Numbers
  // ---------------------------------------------------------------------

  lemma ZeroNumber(buf: seq<char>)
    requires buf == "0"
    ensures ReadValue(buf, 0, false) == Ok((Number("0"), 1))
  {
    assert DigitsEnd(buf, 1) == 1;
    assert buf[0..1] == "0";
    assert PatternAccepts(buf[0..1][1..], Zero);
    PatternNumberRead(buf, 0);
    assert SkipWs(buf, 0) == 0;
    NumberValue(buf, 0);
  }

  /** `1.2e3` matches the number expression. */
  lemma ExponentToken(t: seq<char>)
    requires t == "1.2e3"
    ensures NumberPattern(t)
  {
    assert t[1..] == ".2e3" && t[2..] == "2e3" && t[3..] == "e3" && t[4..] == "3" && t[5..] == [];
    assert PatternAccepts(t[4..], Mark);
    assert PatternAccepts(t[3..], Fraction);
    assert PatternAccepts(t[2..], Point);
    assert PatternAccepts(t[1..], Integer);
  }

  lemma ExponentEnd(buf: seq<char>)
    requires buf == "1.2e3"
    ensures !LeadingZero(buf, 0) && NumberEnd(buf, 0) == 5 && buf[0..5] == "1.2e3"
  {
    assert DigitsEnd(buf, 1) == 1;
    assert DigitsEnd(buf, 3) == 3;
    assert DigitsEnd(buf, 5) == 5;
  }

  lemma ExponentNumber(buf: seq<char>)
    requires buf == "1.2e3"
    ensures ReadValue(buf, 0, false) == Ok((Number("1.2e3"), 5))
  {
    ExponentEnd(buf);
    ExponentToken(buf[0..5]);
    PatternNumberRead(buf, 0);
    assert SkipWs(buf, 0) == 0;
    NumberValue(buf, 0);
  }

  /** `-4324.6234` matches the number expression. */
  lemma NegativeToken(t: seq<char>)
    requires t == "-4324.6234"
    ensures NumberPattern(t)
  {
    DigitsAccepted(t[7..], Fraction);
    assert PatternAccepts(t[6..], Point);
    assert PatternAccepts(t[5..], Integer);
    assert PatternAccepts(t[4..], Integer);
    assert PatternAccepts(t[3..], Integer);
    assert PatternAccepts(t[2..], Integer);
    assert PatternAccepts(t[1..], Signed);
  }

  lemma NegativeEnd(buf: seq<char>)
    requires buf == "-4324.6234"
    ensures !LeadingZero(buf, 0) && NumberEnd(buf, 0) == 10 && buf[0..10] == "-4324.6234"
  {
    DigitsEndAt(buf, 1, 5);
    DigitsEndAt(buf, 6, 10);
  }

  lemma NegativeNumber(buf: seq<char>)
    requires buf == "-4324.6234"
    ensures ReadValue(buf, 0, false) == Ok((Number("-4324.6234"), 10))
  {
    NegativeEnd(buf);
    NegativeToken(buf[0..10]);
    PatternNumberRead(buf, 0);
    assert SkipWs(buf, 0) == 0;
    NumberValue(buf, 0);
  }

  /** The fraction stops at the space, and the token `4324.`, ending on the point, is refused. */
  lemma SpaceInFraction(buf: seq<char>)
    requires buf == "4324. 6234"
    ensures ReadValue(buf, 0, false) == Err(InvalidNumber)
  {
    DigitsEndAt(buf, 0, 4);
    assert DigitsEnd(buf, 5) == 5;
    assert NumberEnd(buf, 0) == 5;
    NotFoundEndsOnPoint(buf[0..5]);
  }

  /** Leading zeros are refused. */
  lemma LeadingZeros(buf: seq<char>)
    requires buf == "012"
    ensures ReadValue(buf, 0, false) == Err(InvalidNumber)
  {
    assert DigitsEnd(buf, 3) == 3;
    LeadingZeroRejected(buf, 0);
  }

  // ---------------------------------------------------------------------
  // The literals false, true and null
  // ---------------------------------------------------------------------

  lemma FalseLiteral(buf: seq<char>)
    requires buf == "false"
    ensures ReadValue(buf, 0, false) == Ok((Bool(false), 5))
  {
  }

  lemma SpaceInFalse(buf: seq<char>)
    requires buf == "fa lse"
    ensures ReadValue(buf, 0, false) == Err(InvalidChar(' ', 2))
  {
  }

  lemma TrueLiteral(buf: seq<char>)
    requires buf == "true"
    ensures ReadValue(buf, 0, false) == Ok((Bool(true), 4))
  {
  }

  lemma NullLiteral(buf: seq<char>)
    requires buf == "null"
    ensures ReadValue(buf, 0, false) == Ok((Null, 4))
  {
  }

  lemma WrongTrue(buf: seq<char>)
    requires buf == "treadu"
    ensures ReadValue(buf, 0, false) == Err(InvalidChar('e', 2))
  {
  }

  /** A literal cut short by the end of the input reads as `Empty`. */
  lemma ShortTrue(buf: seq<char>)
    requires buf == "tru"
    ensures ReadValue(buf, 0, false) == Err(Empty)
  {
  }

  // ---------------------------------------------------------------------
  // Strings
  // ---------------------------------------------------------------------

  lemma PlainString(buf: seq<char>)
    requires buf == "\"Json\""
    ensures ReadValue(buf, 0, false) == Ok((JsonString(Utf16Of("Json")), 6))
  {
    PlainEscaped("Json");
    assert Quoted("Json") == buf;
    StringValue("Json");
  }

  /** `\n` in a literal is the line feed. */
  lemma NewlineEscape(buf: seq<char>)
    requires buf == "\"\\n\""
    ensures ReadValue(buf, 0, false) == Ok((JsonString([10]), 4))
  {
    assert Escaped("\n") == "\\n";
    assert Quoted("\n") == buf;
    StringValue("\n");
    assert Utf16Of("\n") == [10];
  }

  /** A raw line feed inside a literal is refused. */
  lemma RawNewline(buf: seq<char>)
    requires buf == "\"a\nb\""
    ensures ReadValue(buf, 0, false) == Err(InvalidChar('\n', 2))
  {
    assert StringTurnAt(buf, 0) == Continue(1, [97]);
    assert StringTurnAt(buf, 1) == Fail(InvalidChar('\n', 2));
    assert StringLoop(buf, 1, [97]) == Err(InvalidChar('\n', 2));
    assert StringLoop(buf, 0, []) == Err(InvalidChar('\n', 2));
  }

  /** `\u` must be followed by four hex digits. */
  lemma BadHex(buf: seq<char>)
    requires buf == "\"\\u00g0\""
    ensures ReadValue(buf, 0, false) == Err(InvalidCodepoint)
  {
    assert !IsHexDigit(buf[5]);
    assert Hex4(buf, 2) == None;
    assert StringTurnAt(buf, 0) == Fail(InvalidCodepoint);
  }

  /** A literal the input ends inside. */
  lemma OpenString(buf: seq<char>)
    requires buf == "\"ab"
    ensures ReadValue(buf, 0, false) == Err(UnterminatedString)
  {
    assert buf[1..] == "ab";
    Unterminated(buf, 0, []);
  }

  /** The value of four hex digits, most significant first. */
  lemma HexNumber4(t: seq<char>)
    requires |t| == 4 && forall k | 0 <= k < 4 :: IsHexDigit(t[k])
    ensures HexNumber(t) == 4096 * HexValue(t[0]) + 256 * HexValue(t[1]) + 16 * HexValue(t[2]) + HexValue(t[3])
  {
    var a, b, c := t[..1], t[..2], t[..3];
    assert a[..0] == [] && b[..1] == a && c[..2] == b && t[..3] == c;
    assert HexNumber(a) == HexValue(t[0]);
    assert HexNumber(b) == 16 * HexValue(t[0]) + HexValue(t[1]);
    assert HexNumber(c) == 256 * HexValue(t[0]) + 16 * HexValue(t[1]) + HexValue(t[2]);
  }

  /** `\u00e4` is the code unit 0xE4, the letter ä. */
  lemma UnicodeEscape(buf: seq<char>)
    requires buf == "\"\\u00e4\""
    ensures ReadValue(buf, 0, false) == Ok((JsonString(Utf16('\U{00E4}')), 8))
  {
    HexNumber4(buf[3..7]);
    assert StringTurnAt(buf, 0) == Continue(6, [0xE4]);
    assert StringTurnAt(buf, 6) == Close(8);
    assert StringLoop(buf, 6, [0xE4]) == Ok((JsonString([0xE4]), 8));
    assert [] + [0xE4] == [0xE4];
    assert StringLoop(buf, 0, []) == Ok((JsonString([0xE4]), 8));
  }

  /** A character above the Basic Multilingual Plane, written raw, becomes its surrogate pair. */
  lemma RawAstral(buf: seq<char>)
    requires buf == "\"\U{1D11E}\""
    ensures ReadValue(buf, 0, false) == Ok((JsonString([0xD834, 0xDD1E]), 3))
  {
    assert Utf16('\U{1D11E}') == [0xD834, 0xDD1E];
    assert StringTurnAt(buf, 0) == Continue(1, [0xD834, 0xDD1E]);
    assert StringTurnAt(buf, 1) == Close(3);
    assert StringLoop(buf, 1, [0xD834, 0xDD1E]) == Ok((JsonString([0xD834, 0xDD1E]), 3));
    assert [] + [0xD834, 0xDD1E] == [0xD834, 0xDD1E];
  }

  /** The same character written as an escaped surrogate pair reads to the same code units. */
  lemma EscapedAstral(buf: seq<char>)
    requires buf == "\"\\uD834\\uDD1E\""
    ensures ReadValue(buf, 0, false) == Ok((JsonString([0xD834, 0xDD1E]), 14))
  {
    HexNumber4(buf[3..7]);
    HexNumber4(buf[9..13]);
    assert StringTurnAt(buf, 0) == Continue(6, [0xD834]);
    assert StringTurnAt(buf, 6) == Continue(12, [0xDD1E]);
    assert StringTurnAt(buf, 12) == Close(14);
    assert StringLoop(buf, 12, [0xD834, 0xDD1E]) == Ok((JsonString([0xD834, 0xDD1E]), 14));
    assert [0xD834] + [0xDD1E] == [0xD834, 0xDD1E];
    assert StringLoop(buf, 6, [0xD834]) == Ok((JsonString([0xD834, 0xDD1E]), 14));
    assert [] + [0xD834] == [0xD834];
  }

  // ---------------------------------------------------------------------
  // Arrays
  // ---------------------------------------------------------------------

  /** A one-digit number followed by a character that cannot continue it. */
  lemma Digit(buf: seq<char>, j: nat)
    requires j + 1 < |buf| && IsDigit(buf[j])
    requires !IsDigit(buf[j + 1]) && buf[j + 1] != '.' && !IsMark(buf[j + 1])
    ensures ReadNumber(buf, j) == Ok((Number([buf[j]]), j + 1))
  {
    assert DigitsEnd(buf, j + 1) == j + 1;
    assert NumberEnd(buf, j) == j + 1 && buf[j..j + 1] == [buf[j]];
    if buf[j] == '0' {
      assert PatternAccepts([buf[j]][1..], Zero);
    } else {
      assert PatternAccepts([buf[j]][1..], Integer);
    }
    PatternNumberRead(buf, j);
  }

  /** A turn of the array loop that reads an element. */
  lemma ElementTurn(buf: seq<char>, k: nat, first: bool, v: JsonObject, e: nat)
    requires k <= |buf| && SkipWs(buf, k) < |buf|
    requires buf[SkipWs(buf, k)] != ',' && buf[SkipWs(buf, k)] != ']'
    requires ReadValue(buf, SkipWs(buf, k), false) == Ok((v, e))
    ensures ArrayTurnAt(buf, k, first) == Element(v, e)
  {
  }

  /** A turn of the array loop that passes a comma. */
  lemma CommaTurn(buf: seq<char>, k: nat)
    requires k + 1 < |buf| && buf[k] == ',' && buf[k + 1] != ',' && buf[k + 1] != ']'
    requires !IsWhitespace(buf[k + 1])
    ensures ArrayTurnAt(buf, k, false) == Skipped(k + 1)
  {
  }

  /** A turn of the array loop that closes it. */
  lemma CloseTurn(buf: seq<char>, k: nat, first: bool)
    requires k < |buf| && buf[k] == ']' && k + 1 == |buf|
    ensures ArrayTurnAt(buf, k, first) == Closed(k + 1)
  {
  }

  lemma EmptyArray(buf: seq<char>)
    requires buf == "[]"
    ensures ReadValue(buf, 0, false) == Ok((Array([]), 2))
  {
    assert SkipWs(buf, 0) == 0 && SkipWs(buf, 1) == 1;
    ArrayValue(buf, 0);
    CloseTurn(buf, 1, true);
  }

  /** The two elements of `[1,2]` and of `[1 2]`. */
  lemma OneAndTwo(buf: seq<char>, k: nat)
    requires buf == "[1,2]" || buf == "[1 2]"
    requires k == 2 || k == 3
    ensures ArrayTurnAt(buf, 1, true) == Element(Number("1"), 2)
    ensures buf == "[1 2]" || k == 3 ==> ArrayTurnAt(buf, k, false) == Element(Number("2"), 4)
  {
    assert SkipWs(buf, 1) == 1 && SkipWs(buf, 3) == 3 && (buf == "[1 2]" ==> SkipWs(buf, 2) == 3);
    Digit(buf, 1);
    Digit(buf, 3);
    NumberValue(buf, 1);
    NumberValue(buf, 3);
    ElementTurn(buf, 1, true, Number("1"), 2);
    ElementTurn(buf, 3, false, Number("2"), 4);
    if buf == "[1 2]" {
      ElementTurn(buf, 2, false, Number("2"), 4);
    }
  }

  lemma TwoNumbers(buf: seq<char>)
    requires buf == "[1,2]"
    ensures ReadValue(buf, 0, false) == Ok((Array([Number("1"), Number("2")]), 5))
  {
    OneAndTwo(buf, 3);
    CommaTurn(buf, 2);
    CloseTurn(buf, 4, false);
    var one := [Number("1")];
    assert [] + one == one && one + [Number("2")] == [Number("1"), Number("2")];
    assert ArrayLoop(buf, 3, one, false) == Ok((Array([Number("1"), Number("2")]), 5));
    assert ArrayLoop(buf, 1, [], true) == ArrayLoop(buf, 2, one, false);
    assert SkipWs(buf, 0) == 0 && SkipWs(buf, 1) == 1;
    ArrayValue(buf, 0);
  }

  /** A comma must be followed by an element. */
  lemma TrailingComma(buf: seq<char>)
    requires buf == "[3,]"
    ensures ReadValue(buf, 0, false) == Err(InvalidChar(']', 3))
  {
    Three(buf);
    assert SkipWs(buf, 2) == 2 && SkipWs(buf, 3) == 3;
    assert ArrayTurnAt(buf, 2, false) == Failed(InvalidChar(']', 3));
    assert SkipWs(buf, 0) == 0;
    ArrayValue(buf, 0);
  }

  /** The first element of `[3,]` and of `[3, , 3.2]`. */
  lemma Three(buf: seq<char>)
    requires |buf| > 2 && buf[0] == '[' && buf[1] == '3' && buf[2] == ','
    ensures ArrayLoop(buf, 1, [], true) == ArrayLoop(buf, 2, [Number("3")], false)
  {
    assert SkipWs(buf, 1) == 1;
    Digit(buf, 1);
    NumberValue(buf, 1);
    ElementTurn(buf, 1, true, Number("3"), 2);
    assert [] + [Number("3")] == [Number("3")];
  }

  /** Two commas in a row, even with whitespace between them, are refused at the second. */
  lemma DoubleComma(buf: seq<char>)
    requires buf == "[3, , 3.2]"
    ensures ReadValue(buf, 0, false) == Err(InvalidChar(',', 4))
  {
    Three(buf);
    assert SkipWs(buf, 2) == 2 && SkipWs(buf, 3) == 4;
    assert ArrayTurnAt(buf, 2, false) == Failed(InvalidChar(',', 4));
    assert SkipWs(buf, 0) == 0;
    ArrayValue(buf, 0);
  }

  /** A comma before the first element is refused. */
  lemma LeadingComma(buf: seq<char>)
    requires buf == "[,1]"
    ensures ReadValue(buf, 0, false) == Err(InvalidChar(',', 1))
  {
    assert SkipWs(buf, 0) == 0 && SkipWs(buf, 1) == 1;
    assert ArrayTurnAt(buf, 1, true) == Failed(InvalidChar(',', 1));
    ArrayValue(buf, 0);
  }

  /** Elements need no comma between them: whitespace is enough. */
  lemma MissingComma(buf: seq<char>)
    requires buf == "[1 2]"
    ensures ReadValue(buf, 0, false) == Ok((Array([Number("1"), Number("2")]), 5))
  {
    OneAndTwo(buf, 2);
    CloseTurn(buf, 4, false);
    var one := [Number("1")];
    assert [] + one == one && one + [Number("2")] == [Number("1"), Number("2")];
    assert ArrayLoop(buf, 2, one, false) == Ok((Array([Number("1"), Number("2")]), 5));
    assert SkipWs(buf, 0) == 0 && SkipWs(buf, 1) == 1;
    ArrayValue(buf, 0);
  }

  /** An array the input ends inside. */
  lemma OpenArray(buf: seq<char>)
    requires buf == "[1 "
    ensures ReadValue(buf, 0, false) == Err(UnterminatedArray)
  {
    assert SkipWs(buf, 1) == 1;
    Digit(buf, 1);
    NumberValue(buf, 1);
    ElementTurn(buf, 1, true, Number("1"), 2);
    assert SkipWs(buf, 2) == 3;
    assert ArrayTurnAt(buf, 2, false) == Failed(UnterminatedArray);
    assert ArrayLoop(buf, 1, [], true) == ArrayLoop(buf, 2, [] + [Number("1")], false);
    assert SkipWs(buf, 0) == 0;
    ArrayValue(buf, 0);
  }

  // ---------------------------------------------------------------------
  // Objects
  // ---------------------------------------------------------------------

  /** A one-character string literal starting at `k`. */
  lemma ShortString(buf: seq<char>, k: nat)
    requires k + 2 < |buf| && buf[k] == '"' && buf[k + 2] == '"' && Plain([buf[k + 1]])
    ensures ReadString(buf, k) == Ok((JsonString(Utf16(buf[k + 1])), k + 3))
  {
    assert [buf[k + 1]][0] == buf[k + 1];
    assert StringTurnAt(buf, k) == Continue(k + 1, Utf16(buf[k + 1]));
    assert StringTurnAt(buf, k + 1) == Close(k + 3);
    assert StringLoop(buf, k + 1, Utf16(buf[k + 1])) == Ok((JsonString(Utf16(buf[k + 1])), k + 3));
    assert [] + Utf16(buf[k + 1]) == Utf16(buf[k + 1]);
  }

  lemma EmptyObject(buf: seq<char>)
    requires buf == "{}"
    ensures ReadValue(buf, 0, false) == Ok((Object([]), 2))
  {
    assert SkipWs(buf, 0) == 0 && SkipWs(buf, 1) == 1;
    ObjectValue(buf, 0);
    assert ObjectTurnAt(buf, 1) == Closed(2);
  }

  /** The member of `{"a": true}`. */
  lemma MemberTurn(buf: seq<char>)
    requires buf == "{\"a\": true}"
    ensures ObjectTurnAt(buf, 1) == Element(([97], Bool(true)), 10)
  {
    ShortString(buf, 1);
    assert SkipWs(buf, 5) == 6 && SkipWs(buf, 6) == 6;
    assert buf[6..10] == "true";
    assert ReadValue(buf, 6, false) == Ok((Bool(true), 10));
  }

  lemma OneMember(buf: seq<char>)
    requires buf == "{\"a\": true}"
    ensures ReadValue(buf, 0, false) == Ok((Object([([97], Bool(true))]), 11))
  {
    MemberTurn(buf);
    var m := [([97], Bool(true))];
    assert ObjectTurnAt(buf, 10) == Closed(11);
    assert ObjectLoop(buf, 10, m) == Ok((Object(m), 11));
    assert [] + m == m;
    assert ObjectLoop(buf, 1, []) == Ok((Object(m), 11));
    assert SkipWs(buf, 0) == 0 && SkipWs(buf, 1) == 1;
    ObjectValue(buf, 0);
  }

  /** A key must be followed by a colon, after at most one whitespace character. */
  lemma MissingColon(buf: seq<char>)
    requires buf == "{\"a\" 1}"
    ensures ReadValue(buf, 0, false) == Err(NonStringAsKey)
  {
    ShortString(buf, 1);
    assert SkipWs(buf, 5) == 5;
    assert ObjectTurnAt(buf, 1) == Failed(NonStringAsKey);
    assert SkipWs(buf, 0) == 0 && SkipWs(buf, 1) == 1;
    ObjectValue(buf, 0);
  }

  /** A member must start with a string. */
  lemma NumberAsKey(buf: seq<char>)
    requires buf == "{1}"
    ensures ReadValue(buf, 0, false) == Err(InvalidChar('1', 1))
  {
    assert SkipWs(buf, 0) == 0 && SkipWs(buf, 1) == 1;
    assert ObjectTurnAt(buf, 1) == Failed(InvalidChar('1', 1));
    ObjectValue(buf, 0);
  }

  /** A comma may not close the members. */
  lemma CommaBeforeBrace(buf: seq<char>)
    requires buf == "{,}"
    ensures ReadValue(buf, 0, false) == Err(InvalidChar('}', 2))
  {
    assert SkipWs(buf, 0) == 0 && SkipWs(buf, 1) == 1 && SkipWs(buf, 2) == 2;
    assert ObjectTurnAt(buf, 1) == Failed(InvalidChar('}', 2));
    ObjectValue(buf, 0);
  }

  /** An object the input ends inside. */
  lemma OpenObject(buf: seq<char>)
    requires buf == "{ "
    ensures ReadValue(buf, 0, false) == Err(UnterminatedObject)
  {
    assert SkipWs(buf, 0) == 0 && SkipWs(buf, 1) == 2;
    assert ObjectLoop(buf, 2, []) == Err(UnterminatedObject);
    ObjectValue(buf, 0);
  }

  // ---------------------------------------------------------------------
  // The root value
  // ---------------------------------------------------------------------

  /** At the root only an object or an array may start. */
  lemma RootNumber(buf: seq<char>)
    requires buf == "1"
    ensures Parsed(buf) == Err(InvalidChar('1', 0))
  {
    assert SkipWs(buf, 0) == 0;
    RootRead(buf);
  }

  /** At the root the value must end the input. */
  lemma RootTrailing(buf: seq<char>)
    requires buf == "[] x"
    ensures Parsed(buf) == Err(InvalidChar('x', 3))
  {
    assert SkipWs(buf, 0) == 0 && SkipWs(buf, 1) == 1 && SkipWs(buf, 2) == 3;
    ArrayValue(buf, 0);
    assert ArrayTurnAt(buf, 1, true) == Closed(3);
    RootRead(buf);
  }
}
