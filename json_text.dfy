/**
 * Character-level building blocks shared by the two JSON parsers: Unicode
 * whitespace, digits and escapes, UTF-16 encoding, the cursor moves of a
 * parser over a sequence of characters, and the two syntaxes a number
 * token is checked against (the parsers' regular expression, and the
 * grammar Rust's `f64::from_str` accepts).
 */
module JsonText {
  import opened Wrappers

  /** Rust's `char::is_whitespace`: the Unicode White_Space property. */
  predicate IsWhitespace(c: char) {
    ('\U{0009}' <= c <= '\U{000D}') || c == ' ' || c == '\U{0085}' || c == '\U{00A0}'
    || c == '\U{1680}' || ('\U{2000}' <= c <= '\U{200A}') || c == '\U{2028}'
    || c == '\U{2029}' || c == '\U{202F}' || c == '\U{205F}' || c == '\U{3000}'
  }

  predicate IsDigit(c: char) {
    '0' <= c <= '9'
  }

  predicate IsSign(c: char) {
    c == '+' || c == '-'
  }

  /** The characters `char::to_digit(16)` accepts. */
  predicate IsHexDigit(c: char) {
    IsDigit(c) || ('a' <= c <= 'f') || ('A' <= c <= 'F')
  }

  function HexValue(c: char): (v: nat)
    requires IsHexDigit(c)
    ensures v < 16
    ensures IsDigit(c) ==> v == c as int - '0' as int
  {
    if IsDigit(c) then c as int - '0' as int
    else if 'a' <= c <= 'f' then c as int - 'a' as int + 10
    else c as int - 'A' as int + 10
  }

  function Pow16(n: nat): (p: nat)
    ensures p > 0
  {
    if n == 0 then 1 else 16 * Pow16(n - 1)
  }

  /** The value of a run of hex digits, most significant first. */
  function HexNumber(s: seq<char>): (v: nat)
    requires forall k | 0 <= k < |s| :: IsHexDigit(s[k])
    ensures v < Pow16(|s|)
  {
    if s == [] then 0 else HexNumber(s[..|s| - 1]) * 16 + HexValue(s[|s| - 1])
  }

  /**
   * The character a one-letter escape stands for: `\\ \/ \" \b \f \n \r \t`.
   * The `u` escape is handled separately.
   */
  function Unescape(e: char): (r: Option<char>)
    ensures r.Some? <==> e in "\\/\"bfnrt"
    ensures r.Some? ==> r.value as int < 0x80
  {
    match e
    case '\\' => Some('\\')
    case '/' => Some('/')
    case '"' => Some('"')
    case 'b' => Some('\U{0008}')
    case 'f' => Some('\U{000C}')
    case 'n' => Some('\n')
    case 'r' => Some('\r')
    case 't' => Some('\t')
    case _ => None
  }

  /** `char::encode_utf16`: one code unit in the Basic Multilingual Plane, a surrogate pair above it. */
  function Utf16(c: char): (units: seq<int>)
    ensures 1 <= |units| <= 2
    ensures forall k | 0 <= k < |units| :: 0 <= units[k] < 0x10000
    ensures |units| == 1 <==> c as int < 0x10000
    ensures |units| == 1 ==> units[0] == c as int
    ensures |units| == 2 ==> 0xD800 <= units[0] < 0xDC00 <= units[1] < 0xE000
  {
    var v := c as int;
    if v < 0x10000 then [v]
    else [0xD800 + (v - 0x10000) / 0x400, 0xDC00 + (v - 0x10000) % 0x400]
  }

  /** Decoding of one UTF-16 encoded code point, the inverse of `Utf16`. */
  function FromUtf16(units: seq<int>): int
    requires 1 <= |units| <= 2
  {
    if |units| == 1 then units[0]
    else 0x10000 + (units[0] - 0xD800) * 0x400 + (units[1] - 0xDC00)
  }

  lemma Utf16RoundTrip(c: char)
    ensures FromUtf16(Utf16(c)) == c as int
  {
    var v := c as int;
    if v >= 0x10000 {
      var w := v - 0x10000;
      assert w == (w / 0x400) * 0x400 + w % 0x400;
    }
  }

  /** The concatenated UTF-16 encoding of a character sequence. */
  function Utf16Of(s: seq<char>): (units: seq<int>)
    ensures |s| <= |units| <= 2 * |s|
  {
    if s == [] then [] else Utf16(s[0]) + Utf16Of(s[1..])
  }

  // ---------------------------------------------------------------------
  // Cursor moves over a character buffer; each returns the new index.
  // ---------------------------------------------------------------------

  /** `skip_whitespace`: the first position at or after `i` that is not whitespace. */
  function SkipWs(buf: seq<char>, i: nat): (j: nat)
    requires i <= |buf|
    ensures i <= j <= |buf|
    ensures forall k | i <= k < j :: IsWhitespace(buf[k])
    ensures j == |buf| || !IsWhitespace(buf[j])
    decreases |buf| - i
  {
    if i < |buf| && IsWhitespace(buf[i]) then SkipWs(buf, i + 1) else i
  }

  /** `peek`: the character under the cursor, if any. */
  function PeekAt(buf: seq<char>, i: nat): Option<char> {
    if i < |buf| then Some(buf[i]) else None
  }

  /** `next_no_skip`: step over one character and look at the following one. */
  function NextNoSkipAt(buf: seq<char>, i: nat): (Option<char>, nat)
    requires i <= |buf|
  {
    if i >= |buf| then (None, i) else (PeekAt(buf, i + 1), i + 1)
  }

  /** `next`: step over one character, then over whitespace, and look at the character reached. */
  function NextAt(buf: seq<char>, i: nat): (Option<char>, nat)
    requires i <= |buf|
  {
    if i >= |buf| then (None, i)
    else var j := SkipWs(buf, i + 1); (PeekAt(buf, j), j)
  }

  lemma SkipWsIdempotent(buf: seq<char>, i: nat)
    requires i <= |buf|
    ensures SkipWs(buf, SkipWs(buf, i)) == SkipWs(buf, i)
  {
  }

  lemma {:induction false} SkipWsAll(buf: seq<char>, i: nat)
    requires i <= |buf|
    ensures SkipWs(buf, i) == |buf| <==> forall k | i <= k < |buf| :: IsWhitespace(buf[k])
    decreases |buf| - i
  {
    if i < |buf| && IsWhitespace(buf[i]) {
      SkipWsAll(buf, i + 1);
    }
  }

  lemma NextMoves(buf: seq<char>, i: nat)
    requires i < |buf|
    ensures var (c, j) := NextAt(buf, i);
            i < j <= |buf| && (c.Some? <==> j < |buf|) && (c.Some? ==> c.value == buf[j] && !IsWhitespace(c.value))
            && forall k | i < k < j :: IsWhitespace(buf[k])
  {
  }

  /** The end of the run of decimal digits starting at `i`. */
  function DigitsEnd(buf: seq<char>, i: nat): (j: nat)
    requires i <= |buf|
    ensures i <= j <= |buf|
    ensures forall k | i <= k < j :: IsDigit(buf[k])
    ensures j == |buf| || !IsDigit(buf[j])
    decreases |buf| - i
  {
    if i < |buf| && IsDigit(buf[i]) then DigitsEnd(buf, i + 1) else i
  }

  /**
   * The four characters after the `u` at position `p` read as hex digits:
   * `None` when the input ends or one of them is not a hex digit.
   */
  function Hex4(buf: seq<char>, p: nat): (r: Option<int>)
    ensures r.Some? ==> 0 <= r.value < 0x10000
  {
    if p + 4 < |buf| && forall k | p < k <= p + 4 :: IsHexDigit(buf[k])
    then assert Pow16(4) == 0x10000; Some(HexNumber(buf[p + 1..p + 5]))
    else None
  }

  /**
   * Where the literal `goal` placed at position `j` first differs from the
   * buffer, scanning from offset `t`.
   */
  function Mismatch(buf: seq<char>, j: nat, goal: seq<char>, t: nat): (r: Option<nat>)
    requires j + |goal| <= |buf| && t <= |goal|
    ensures r.None? <==> forall i | t <= i < |goal| :: buf[j + i] == goal[i]
    ensures r.Some? ==> t <= r.value < |goal| && buf[j + r.value] != goal[r.value]
                        && forall i | t <= i < r.value :: buf[j + i] == goal[i]
    decreases |goal| - t
  {
    if t == |goal| then None
    else if buf[j + t] != goal[t] then Some(t)
    else Mismatch(buf, j, goal, t + 1)
  }

  // ---------------------------------------------------------------------
  // Number syntaxes, each as a deterministic automaton over the token
  // ---------------------------------------------------------------------

  /** The states of the two number automata: which part of a number has been read. */
  datatype NumberState =
    | Start        // nothing yet
    | Signed       // a sign
    | Zero         // a lone leading 0
    | Integer      // integer digits
    | Point        // a `.` with no digit after it yet
    | IntegerPoint // integer digits and a `.`
    | Fraction     // digits after the `.`
    | Mark         // `e` or `E`
    | MarkSign     // the exponent's sign
    | Exponent     // exponent digits

  predicate IsMark(c: char) {
    c == 'e' || c == 'E'
  }

  /**
   * The automaton of `[+-]?(?:0|[1-9]\d*)(?:\.\d+)?(?:[eE][+-]?\d+)?`;
   * `None` is the dead state.
   */
  function PatternStep(s: NumberState, c: char): Option<NumberState> {
    match s
    case Start => if IsSign(c) then Some(Signed) else if c == '0' then Some(Zero) else if IsDigit(c) then Some(Integer) else None
    case Signed => if c == '0' then Some(Zero) else if IsDigit(c) then Some(Integer) else None
    case Zero => if c == '.' then Some(Point) else if IsMark(c) then Some(Mark) else None
    case Integer => if IsDigit(c) then Some(Integer) else if c == '.' then Some(Point) else if IsMark(c) then Some(Mark) else None
    case Point => if IsDigit(c) then Some(Fraction) else None
    case Fraction => if IsDigit(c) then Some(Fraction) else if IsMark(c) then Some(Mark) else None
    case Mark => if IsSign(c) then Some(MarkSign) else if IsDigit(c) then Some(Exponent) else None
    case MarkSign => if IsDigit(c) then Some(Exponent) else None
    case Exponent => if IsDigit(c) then Some(Exponent) else None
    case IntegerPoint => None
  }

  predicate PatternFinal(s: NumberState) {
    s == Zero || s == Integer || s == Fraction || s == Exponent
  }

  /** The pattern automaton, run from state `s`, accepts all of `t`. */
  predicate PatternAccepts(t: seq<char>, s: NumberState)
    decreases |t|
  {
    if t == [] then PatternFinal(s)
    else match PatternStep(s, t[0])
      case None => false
      case Some(s') => PatternAccepts(t[1..], s')
  }

  /** The number regular expression matched against the whole of `t`. */
  predicate NumberPattern(t: seq<char>) {
    PatternAccepts(t, Start)
  }

  /**
   * `Regex::is_match` for that expression followed by `$` and without `^`:
   * some suffix of `t` matches the pattern.
   */
  predicate PatternFound(t: seq<char>)
    decreases |t|
  {
    NumberPattern(t) || (0 < |t| && PatternFound(t[1..]))
  }

  lemma {:induction false} PatternFoundSuffix(t: seq<char>)
    ensures PatternFound(t) <==> exists k :: 0 <= k <= |t| && NumberPattern(t[k..])
    decreases |t|
  {
    if NumberPattern(t) {
      assert t[0..] == t;
    } else if 0 < |t| {
      PatternFoundSuffix(t[1..]);
      if PatternFound(t[1..]) {
        var k :| 0 <= k <= |t| - 1 && NumberPattern(t[1..][k..]);
        assert t[1..][k..] == t[k + 1..];
      }
      if exists k :: 0 <= k <= |t| && NumberPattern(t[k..]) {
        var k :| 0 <= k <= |t| && NumberPattern(t[k..]);
        assert k != 0;
        assert t[1..][k - 1..] == t[k..];
      }
    } else {
      assert forall k | 0 <= k <= |t| :: t[k..] == t;
    }
  }

  /**
   * The automaton of the decimal syntax `f64::from_str` accepts, for tokens
   * made of digits, signs, `.`, `e` and `E`: an optional sign, a mantissa
   * with at least one digit and at most one `.`, and an optional exponent
   * with at least one digit.
   */
  function FloatStep(s: NumberState, c: char): Option<NumberState> {
    match s
    case Start => if IsSign(c) then Some(Signed) else if IsDigit(c) then Some(Integer) else if c == '.' then Some(Point) else None
    case Signed => if IsDigit(c) then Some(Integer) else if c == '.' then Some(Point) else None
    case Integer => if IsDigit(c) then Some(Integer) else if c == '.' then Some(IntegerPoint) else if IsMark(c) then Some(Mark) else None
    case Point => if IsDigit(c) then Some(Fraction) else None
    case IntegerPoint => if IsDigit(c) then Some(Fraction) else if IsMark(c) then Some(Mark) else None
    case Fraction => if IsDigit(c) then Some(Fraction) else if IsMark(c) then Some(Mark) else None
    case Mark => if IsSign(c) then Some(MarkSign) else if IsDigit(c) then Some(Exponent) else None
    case MarkSign => if IsDigit(c) then Some(Exponent) else None
    case Exponent => if IsDigit(c) then Some(Exponent) else None
    case Zero => None
  }

  predicate FloatFinal(s: NumberState) {
    s == Integer || s == IntegerPoint || s == Fraction || s == Exponent
  }

  predicate FloatAccepts(t: seq<char>, s: NumberState)
    decreases |t|
  {
    if t == [] then FloatFinal(s)
    else match FloatStep(s, t[0])
      case None => false
      case Some(s') => FloatAccepts(t[1..], s')
  }

  /** `f64::from_str` accepts `t`. */
  predicate FloatSyntax(t: seq<char>) {
    FloatAccepts(t, Start)
  }

  /** The float state that simulates a pattern state. */
  function FloatOf(s: NumberState): NumberState {
    match s
    case Zero => Integer
    case Point => IntegerPoint
    case _ => s
  }

  lemma {:induction false} PatternIsFloatFrom(t: seq<char>, s: NumberState)
    requires PatternAccepts(t, s) && s != IntegerPoint
    ensures FloatAccepts(t, FloatOf(s))
    decreases |t|
  {
    if t != [] {
      var s' := PatternStep(s, t[0]).value;
      assert FloatStep(FloatOf(s), t[0]) == Some(FloatOf(s'));
      PatternIsFloatFrom(t[1..], s');
    }
  }

  /** A token that matches the pattern whole is always accepted by the float parser. */
  lemma PatternIsFloat(t: seq<char>)
    requires NumberPattern(t)
    ensures FloatSyntax(t)
  {
    PatternIsFloatFrom(t, Start);
  }
}
