/**
 * Properties of the 02_rjson parser, stated on the functions that specify
 * its methods: how empty input and the root rule are handled, what strings
 * decode to, and the behaviour the crate's unit tests pin down.
 */
module JsonProperties {
  import opened Wrappers
  import opened JsonText
  import opened Json

  // ---------------------------------------------------------------------
  // Empty input and the root value
  // ---------------------------------------------------------------------

  /** Input that is empty or only whitespace from `i` on reads as `Empty`, at the root or not. */
  lemma EmptyInput(buf: seq<char>, i: nat, root: bool)
    requires i <= |buf| && forall k | i <= k < |buf| :: IsWhitespace(buf[k])
    ensures ReadValue(buf, i, root) == Err(Empty)
  {
    SkipWsAll(buf, i);
  }

  /**
   * `JsonObject::read` is the ordinary read of a value with two extra
   * checks: the first character must open an object or an array, and the
   * value must end the input; otherwise the offending character and its
   * index are reported.
   */
  lemma RootRead(buf: seq<char>)
    ensures Parsed(buf) ==
              var j := SkipWs(buf, 0);
              if j == |buf| then Err(Empty)
              else if buf[j] != '{' && buf[j] != '[' then Err(InvalidChar(buf[j], j))
              else
                var r := ReadValue(buf, 0, false);
                if r.Err? then Err(r.error)
                else if r.value.1 < |buf| then Err(InvalidChar(buf[r.value.1], r.value.1))
                else Ok(r.value.0)
  {
  }

  /** A successful root read is an object or an array. */
  lemma RootIsContainer(buf: seq<char>)
    requires Parsed(buf).Ok?
    ensures Parsed(buf).value.Array? || Parsed(buf).value.Object?
  {
  }

  // ---------------------------------------------------------------------
  // Strings
  // ---------------------------------------------------------------------

  /** The escaped form of one character inside a string literal. */
  function EscapeChar(c: char): (t: seq<char>)
    ensures 1 <= |t| <= 2
    ensures |t| == 1 ==> t == [c] && c != '"' && c != '\\' && c != '\n' && c != '\r' && c != '\t'
    ensures |t| == 2 ==> t[0] == '\\' && t[1] != 'u'
  {
    if c == '"' then "\\\""
    else if c == '\\' then "\\\\"
    else if c == '\n' then "\\n"
    else if c == '\r' then "\\r"
    else if c == '\t' then "\\t"
    else [c]
  }

  /** The body of a string literal for `s`, with the characters the reader refuses raw escaped. */
  function Escaped(s: seq<char>): (t: seq<char>)
    ensures |s| <= |t| <= 2 * |s|
  {
    if s == [] then [] else EscapeChar(s[0]) + Escaped(s[1..])
  }

  /** `s` as a string literal: quoted and escaped. */
  function Quoted(s: seq<char>): seq<char> {
    "\"" + Escaped(s) + "\""
  }

  /** One turn of the string loop over the escaped form of `c`. */
  lemma EscapeStep(buf: seq<char>, k: nat, units: seq<int>, c: char)
    requires k + |EscapeChar(c)| < |buf|
    requires forall i | 0 <= i < |EscapeChar(c)| :: buf[k + 1 + i] == EscapeChar(c)[i]
    ensures StringLoop(buf, k, units) == StringLoop(buf, k + |EscapeChar(c)|, units + Utf16(c))
  {
    var t := EscapeChar(c);
    if |t| == 1 {
      assert buf[k + 1] == c;
    } else {
      EscapeInverse(c);
      assert buf[k + 1] == '\\' && buf[k + 2] == t[1];
    }
  }

  /** The escape the reader decodes back to the character it stands for. */
  lemma EscapeInverse(c: char)
    requires |EscapeChar(c)| == 2
    ensures Unescape(EscapeChar(c)[1]) == Some(c)
  {
  }

  /**
   * In a buffer holding the text `p`, the escaped form of `s` and a closing
   * quote, the string loop started on the last character of `p` reads the
   * UTF-16 code units of `s` and stops after the quote.
   */
  lemma {:induction false} EscapedRead(buf: seq<char>, p: seq<char>, s: seq<char>, units: seq<int>)
    requires |p| > 0 && buf == p + Escaped(s) + "\""
    ensures StringLoop(buf, |p| - 1, units) == Ok((JsonString(units + Utf16Of(s)), |buf|))
    decreases |s|
  {
    if s != [] {
      var t := EscapeChar(s[0]);
      assert buf == (p + t) + Escaped(s[1..]) + "\"";
      EscapeStep(buf, |p| - 1, units, s[0]);
      EscapedRead(buf, p + t, s[1..], units + Utf16(s[0]));
      UnitsAppend(units, s);
    } else {
      assert Utf16Of(s) == [];
      assert units + [] == units;
      CloseQuote(buf, |p| - 1, units);
    }
  }

  /** Code units appended one character at a time. */
  lemma UnitsAppend(units: seq<int>, s: seq<char>)
    requires s != []
    ensures units + Utf16(s[0]) + Utf16Of(s[1..]) == units + Utf16Of(s)
  {
    var a, b := Utf16(s[0]), Utf16Of(s[1..]);
    assert Utf16Of(s) == a + b;
    assert units + a + b == units + (a + b);
  }

  /** The string loop on the closing quote. */
  lemma CloseQuote(buf: seq<char>, k: nat, units: seq<int>)
    requires k + 1 < |buf| && buf[k + 1] == '"'
    ensures StringLoop(buf, k, units) == Ok((JsonString(units), k + 2))
  {
  }

  /** Reading a quoted string gives back its UTF-16 code units and consumes the whole literal. */
  lemma QuotedRoundTrip(s: seq<char>)
    ensures ReadString(Quoted(s), 0) == Ok((JsonString(Utf16Of(s)), |Quoted(s)|))
  {
    EscapedRead(Quoted(s), "\"", s, []);
    assert [] + Utf16Of(s) == Utf16Of(s);
  }

  /** A quoted string read as a value. */
  lemma StringValue(s: seq<char>)
    ensures ReadValue(Quoted(s), 0, false) == Ok((JsonString(Utf16Of(s)), |Quoted(s)|))
  {
    QuotedRoundTrip(s);
  }

  /** A string whose characters are neither a quote, a backslash nor a raw tab, line feed or carriage return. */
  predicate Plain(s: seq<char>) {
    forall k | 0 <= k < |s| :: s[k] != '"' && s[k] != '\\' && s[k] != '\n' && s[k] != '\r' && s[k] != '\t'
  }

  /** Plain characters stand for themselves in a literal. */
  lemma {:induction false} PlainEscaped(s: seq<char>)
    requires Plain(s)
    ensures Escaped(s) == s
  {
    if s != [] {
      PlainEscaped(s[1..]);
    }
  }

  /** A string literal with no closing quote, and nothing else to stop the loop, is unterminated. */
  lemma {:induction false} Unterminated(buf: seq<char>, k: nat, units: seq<int>)
    requires k < |buf| && Plain(buf[k + 1..])
    ensures StringLoop(buf, k, units) == Err(UnterminatedString)
    decreases |buf| - k
  {
    if k + 1 < |buf| {
      assert buf[k + 1] == buf[k + 1..][0];
      assert buf[k + 2..] == buf[k + 1..][1..];
      Unterminated(buf, k + 1, units + Utf16(buf[k + 1]));
    }
  }

  /**
   * The reader never reports `EndedOnEscape`: its test for a backslash at
   * the end of the input looks at the backslash itself, which is never
   * past the end, and the input ending right after the backslash gives
   * `Empty` instead.
   */
  lemma {:induction false} NeverEndedOnEscape(buf: seq<char>, k: nat, units: seq<int>)
    requires k < |buf|
    ensures StringLoop(buf, k, units) != Err(EndedOnEscape)
    decreases |buf| - k
  {
    if k + 1 < |buf| {
      var c := buf[k + 1];
      if c == '\\' && k + 2 < |buf| {
        var e := buf[k + 2];
        if e == 'u' {
          match Hex4(buf, k + 2)
          case None =>
          case Some(u) => NeverEndedOnEscape(buf, k + 6, units + [u]);
        } else {
          match Unescape(e)
          case None =>
          case Some(x) => NeverEndedOnEscape(buf, k + 2, units + Utf16(x));
        }
      } else if c != '\\' && c != '"' && c != '\n' && c != '\r' && c != '\t' {
        NeverEndedOnEscape(buf, k + 1, units + Utf16(c));
      }
    }
  }

  // ---------------------------------------------------------------------
  // Numbers
  // ---------------------------------------------------------------------

  /** More than one integer digit starting with `0` is refused, whatever follows. */
  lemma LeadingZeroRejected(buf: seq<char>, j: nat)
    requires j < |buf| && (IsDigit(buf[j]) || IsSign(buf[j])) && LeadingZero(buf, j)
    ensures ReadNumber(buf, j) == Err(InvalidNumber)
  {
  }

  /**
   * A collected token that matches the number expression as a whole is
   * read as that number: the expression accepts it and so does the float
   * parser.
   */
  lemma PatternNumberRead(buf: seq<char>, j: nat)
    requires j < |buf| && (IsDigit(buf[j]) || IsSign(buf[j])) && !LeadingZero(buf, j)
    requires NumberPattern(buf[j..NumberEnd(buf, j)])
    ensures ReadNumber(buf, j) == Ok((Number(buf[j..NumberEnd(buf, j)]), NumberEnd(buf, j)))
  {
    PatternIsFloat(buf[j..NumberEnd(buf, j)]);
  }

  /**
   * The number reader as it is meant to be: the collected token must match
   * the number expression from its first character to its last.
   */
  function ReadNumberAnchored(buf: seq<char>, j: nat): (r: Parse<JsonObject>)
    requires j < |buf| && (IsDigit(buf[j]) || IsSign(buf[j]))
    ensures r.Ok? ==> j < r.value.1 <= |buf| && r.value.0 == Number(buf[j..r.value.1])
    ensures r.Ok? ==> NumberPattern(r.value.0.token) && FloatSyntax(r.value.0.token)
    ensures r.Err? ==> r.error == InvalidNumber
  {
    if LeadingZero(buf, j) then Err(InvalidNumber)
    else
      var d := NumberEnd(buf, j);
      var token := buf[j..d];
      if NumberPattern(token) then PatternIsFloat(token); Ok((Number(token), d))
      else Err(InvalidNumber)
  }

  /** Every number the anchored reader accepts is read the same way by the parser as written. */
  lemma AnchoredAgrees(buf: seq<char>, j: nat)
    requires j < |buf| && (IsDigit(buf[j]) || IsSign(buf[j]))
    requires ReadNumberAnchored(buf, j).Ok?
    ensures ReadNumber(buf, j) == ReadNumberAnchored(buf, j)
  {
    PatternNumberRead(buf, j);
  }

  /** `-.5` has no digit before the point, which the number expression requires. */
  lemma MissingIntegerDigit(t: seq<char>)
    requires t == "-.5"
    ensures !NumberPattern(t) && PatternFound(t) && FloatSyntax(t)
  {
    assert PatternAccepts(t[1..], Signed) == false;
    var u := t[1..][1..];
    assert u == "5" && u[1..] == [];
    assert PatternStep(Start, u[0]) == Some(Integer);
    assert NumberPattern(u);
    assert PatternFound(t[1..]);
    assert FloatAccepts(u, Point);
  }

  /** The token the reader collects from `-.5`. */
  lemma MissingIntegerEnd(buf: seq<char>)
    requires buf == "-.5"
    ensures !LeadingZero(buf, 0) && NumberEnd(buf, 0) == 3 && buf[0..3] == "-.5"
  {
    assert DigitsEnd(buf, 1) == 1;
    assert DigitsEnd(buf, 3) == 3;
  }

  /** As written, `-.5` is read as a number, because the expression is not anchored at the start. */
  lemma UnanchoredNumber(buf: seq<char>)
    requires buf == "-.5"
    ensures ReadNumber(buf, 0) == Ok((Number("-.5"), 3))
    ensures ReadNumberAnchored(buf, 0) == Err(InvalidNumber)
  {
    MissingIntegerEnd(buf);
    MissingIntegerDigit(buf[0..3]);
  }

  /** A run of digits is accepted from any state that reads digits and may stop after them. */
  lemma {:induction false} DigitsAccepted(t: seq<char>, s: NumberState)
    requires s == Integer || s == Fraction || s == Exponent
    requires forall k | 0 <= k < |t| :: IsDigit(t[k])
    ensures PatternAccepts(t, s)
    decreases |t|
  {
    if t != [] {
      assert PatternStep(s, t[0]) == Some(s);
      DigitsAccepted(t[1..], s);
    }
  }

  /** The number expression never matches text that ends on a `.`. */
  lemma {:induction false} NoPatternEndsOnPoint(t: seq<char>, s: NumberState)
    requires t != [] && t[|t| - 1] == '.'
    ensures !PatternAccepts(t, s)
    decreases |t|
  {
    if |t| > 1 {
      match PatternStep(s, t[0])
      case None =>
      case Some(s') =>
        assert t[1..][|t[1..]| - 1] == '.';
        NoPatternEndsOnPoint(t[1..], s');
    }
  }

  /** No suffix of text that ends on a `.` matches the number expression. */
  lemma {:induction false} NotFoundEndsOnPoint(t: seq<char>)
    requires t != [] && t[|t| - 1] == '.'
    ensures !PatternFound(t)
    decreases |t|
  {
    NoPatternEndsOnPoint(t, Start);
    if |t| > 1 {
      NotFoundEndsOnPoint(t[1..]);
    } else {
      assert !NumberPattern(t[1..]);
    }
  }

  /** A run of digits from `i` to `j` followed by a non-digit or the end of the input. */
  lemma {:induction false} DigitsEndAt(buf: seq<char>, i: nat, j: nat)
    requires i <= j <= |buf| && forall k | i <= k < j :: IsDigit(buf[k])
    requires j == |buf| || !IsDigit(buf[j])
    ensures DigitsEnd(buf, i) == j
    decreases j - i
  {
    if i < j {
      DigitsEndAt(buf, i + 1, j);
    }
  }

  /** A value that starts with a digit or a sign, inside an array or an object, is a number. */
  lemma NumberValue(buf: seq<char>, i: nat)
    requires i <= |buf| && SkipWs(buf, i) < |buf|
    requires IsDigit(buf[SkipWs(buf, i)]) || IsSign(buf[SkipWs(buf, i)])
    ensures ReadValue(buf, i, false) == ReadNumber(buf, SkipWs(buf, i))
  {
  }

  /** A value that starts with `[` is an array. */
  lemma ArrayValue(buf: seq<char>, i: nat)
    requires i <= |buf| && SkipWs(buf, i) < |buf| && buf[SkipWs(buf, i)] == '['
    ensures ReadValue(buf, i, false) == ReadArray(buf, SkipWs(buf, i))
  {
  }

  /** A value that starts with `{` is an object. */
  lemma ObjectValue(buf: seq<char>, i: nat)
    requires i <= |buf| && SkipWs(buf, i) < |buf| && buf[SkipWs(buf, i)] == '{'
    ensures ReadValue(buf, i, false) == ReadObject(buf, SkipWs(buf, i))
  {
  }
}
