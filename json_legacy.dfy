/**
 * The older JSON parser of the repository (rjson). It has the same `Parser`
 * with a character buffer and a cursor as the 02_rjson parser, but reads no
 * objects, has no rule for the root value, takes no sign in an exponent,
 * accepts leading zeros and raw control characters in strings, and leaves
 * the cursor on the `]` that closes an array.
 *
 * As for the newer parser, the functions `ReadValue`, `ReadNumber`, ...
 * state, for a start index, what each method returns and where it leaves
 * the cursor. The array functions take a flag `closes`: `false` is the
 * parser as written, `true` the parser that steps over the `]` it stops on.
 */
module JsonLegacy {
  import opened Wrappers
  import opened JsonText

  datatype JsonObject =
    | Array(elements: seq<JsonObject>)
    | Obj(members: seq<(seq<int>, JsonObject)>)
    | Number(token: seq<char>)
    | JsonString(units: seq<int>)
    | Bool(b: bool)
    | Null

  datatype JsonError =
    | Empty
    | InvalidChar(c: char, at: nat)
    | UnterminatedString
    | EndedOnEscape
    | UnknownEscapeSequence(e: char)
    | NonStringAsKey
    | InvalidCodepoint
    | InvalidNumber
    | UnterminatedArray

  /** The outcome of reading from a start index: a value and the index after it, or an error. */
  type Parse<T> = Result<(T, nat), JsonError>

  /** A method's result `r` and final cursor `index` are those the parse `p` describes. */
  predicate Agrees<T(==)>(r: Result<T, JsonError>, index: nat, p: Parse<T>) {
    match p
    case Ok((v, e)) => r == Ok(v) && index == e
    case Err(err) => r == Err(err)
  }

  // ---------------------------------------------------------------------
  // The parser as functions of the buffer and a start index
  // ---------------------------------------------------------------------

  /** `partial_read`: skip whitespace and dispatch on the next character; there is no object branch. */
  function ReadValue(buf: seq<char>, i: nat, closes: bool): (r: Parse<JsonObject>)
    requires i <= |buf|
    ensures r.Ok? ==> i < r.value.1 <= |buf|
    ensures r.Ok? ==> !r.value.0.Obj?
    decreases |buf| - i, 1
  {
    var j := SkipWs(buf, i);
    if j == |buf| then Err(Empty)
    else
      var c := buf[j];
      if c == '[' then ReadArray(buf, j, closes)
      else if IsDigit(c) || IsSign(c) then ReadNumber(buf, j)
      else if c == '"' then ReadString(buf, j)
      else if c == 'f' then ReadGiven(buf, j, "false", Bool(false))
      else if c == 't' then ReadGiven(buf, j, "true", Bool(true))
      else if c == 'n' then ReadGiven(buf, j, "null", Null)
      else Err(InvalidChar(c, j))
  }

  /** Where the exponent ends: after `e` or `E`, only digits are taken. */
  function ExponentScan(buf: seq<char>, c: nat): (d: nat)
    requires c <= |buf|
    ensures c <= d <= |buf|
  {
    if c < |buf| && IsMark(buf[c]) then DigitsEnd(buf, c + 1) else c
  }

  /** Where the token `partial_read_number` collects from `j` ends. */
  function NumberEnd(buf: seq<char>, j: nat): (d: nat)
    requires j < |buf| && (IsDigit(buf[j]) || IsSign(buf[j]))
    ensures j < d <= |buf|
  {
    var a := if IsSign(buf[j]) then j + 1 else j;
    var b := DigitsEnd(buf, a);
    var c := if b < |buf| && buf[b] == '.' then DigitsEnd(buf, b + 1) else b;
    ExponentScan(buf, c)
  }

  /**
   * `partial_read_number`: collect an optional sign, integer digits, a
   * fraction and an exponent; the token must satisfy the regular
   * expression (anchored only at its end) and Rust's float syntax.
   */
  function ReadNumber(buf: seq<char>, j: nat): (r: Parse<JsonObject>)
    requires j < |buf| && (IsDigit(buf[j]) || IsSign(buf[j]))
    ensures r.Ok? ==> r.value == (Number(buf[j..NumberEnd(buf, j)]), NumberEnd(buf, j))
    ensures r.Ok? <==> PatternFound(buf[j..NumberEnd(buf, j)]) && FloatSyntax(buf[j..NumberEnd(buf, j)])
    ensures r.Err? ==> r.error == InvalidNumber
  {
    var d := NumberEnd(buf, j);
    var token := buf[j..d];
    if PatternFound(token) && FloatSyntax(token) then Ok((Number(token), d))
    else Err(InvalidNumber)
  }

  /** The phases of `partial_read_number` put together: the sign ends at `a`, the integer digits at `b`, the fraction at `c` and the exponent at `d`. */
  lemma NumberScan(buf: seq<char>, j: nat, a: nat, b: nat, c: nat, d: nat)
    requires j < |buf| && (IsDigit(buf[j]) || IsSign(buf[j]))
    requires a == if IsSign(buf[j]) then j + 1 else j
    requires a <= |buf| && b == DigitsEnd(buf, a)
    requires c == if b < |buf| && buf[b] == '.' then DigitsEnd(buf, b + 1) else b
    requires c <= |buf| && d == ExponentScan(buf, c)
    ensures d == NumberEnd(buf, j) && j < d
  {
  }

  /** `partial_read_given_string`: the literal `goal` must follow, character by character. */
  function ReadGiven(buf: seq<char>, j: nat, goal: seq<char>, value: JsonObject): (r: Parse<JsonObject>)
    requires j <= |buf| && |goal| > 0
    ensures r.Ok? ==> j < r.value.1 <= |buf|
    ensures r.Ok? <==> j + |goal| <= |buf| && buf[j..j + |goal|] == goal
    ensures r.Ok? ==> r.value == (value, j + |goal|)
    ensures |buf| < j + |goal| ==> r == Err(Empty)
    ensures r.Err? && j + |goal| <= |buf| ==>
              exists t | 0 <= t < |goal| :: r.error == InvalidChar(buf[j + t], j + t)
                && buf[j + t] != goal[t] && buf[j..j + t] == goal[..t]
  {
    if |buf| < j + |goal| then Err(Empty)
    else
      match Mismatch(buf, j, goal, 0)
      case Some(t) =>
        assert buf[j..j + t] == goal[..t];
        Err(InvalidChar(buf[j + t], j + t))
      case None =>
        assert buf[j..j + |goal|] == goal;
        Ok((value, j + |goal|))
  }

  /** `partial_read_string`, started on the opening quote. */
  function ReadString(buf: seq<char>, j: nat): (r: Parse<JsonObject>)
    requires j < |buf|
    ensures r.Ok? ==> j + 1 < r.value.1 <= |buf| && r.value.0.JsonString?
  {
    StringLoop(buf, j, [])
  }

  /** What one turn of the string loop does: close the string, fail, or go on with more code units. */
  datatype StringTurn = Close(end: nat) | Fail(error: JsonError) | Continue(next: nat, units: seq<int>)

  /**
   * One turn of the string loop with the cursor on position `k`, the last
   * character consumed. Any character other than a backslash or a quote,
   * control characters included, stands for itself.
   */
  function StringTurnAt(buf: seq<char>, k: nat): (t: StringTurn)
    requires k < |buf|
    ensures t.Close? ==> t.end == k + 2 <= |buf|
    ensures t.Continue? ==> k < t.next < |buf|
  {
    if k + 1 == |buf| then Fail(UnterminatedString)
    else
      var c := buf[k + 1];
      if c == '\\' then
        if k + 2 == |buf| then Fail(Empty)
        else
          var e := buf[k + 2];
          if e == 'u' then
            match Hex4(buf, k + 2)
            case None => Fail(InvalidCodepoint)
            case Some(u) => Continue(k + 6, [u])
          else
            match Unescape(e)
            case Some(x) => Continue(k + 2, Utf16(x))
            case None => Fail(InvalidChar(e, k + 2))
      else if c == '"' then Close(k + 2)
      else Continue(k + 1, Utf16(c))
  }

  /** The string loop from position `k`, with the code units read so far. */
  function StringLoop(buf: seq<char>, k: nat, units: seq<int>): (r: Parse<JsonObject>)
    requires k < |buf|
    ensures r.Ok? ==> k + 1 < r.value.1 <= |buf| && r.value.0.JsonString?
    decreases |buf| - k
  {
    match StringTurnAt(buf, k)
    case Close(end) => Ok((JsonString(units), end))
    case Fail(e) => Err(e)
    case Continue(next, u) => StringLoop(buf, next, units + u)
  }

  /** What one turn of the array loop does. */
  datatype Turn =
    | Closed(end: nat)
    | Failed(error: JsonError)
    | Skipped(next: nat)
    | Element(item: JsonObject, next: nat)

  /** `partial_read_array`, started on the `[`. */
  function ReadArray(buf: seq<char>, j: nat, closes: bool): (r: Parse<JsonObject>)
    requires j < |buf| && buf[j] == '['
    ensures r.Ok? ==> j < r.value.1 <= |buf| && r.value.0.Array?
    decreases |buf| - j, 0
  {
    ArrayLoop(buf, SkipWs(buf, j + 1), [], closes)
  }

  /**
   * One turn of the array loop at index `k`: skip whitespace, then a `]`
   * ends the array (stepped over only when `closes`), a `,` must not be
   * followed by another `,` or by `]`, and anything else is read as an
   * element.
   */
  function ArrayTurnAt(buf: seq<char>, k: nat, closes: bool): (t: Turn)
    requires k <= |buf|
    ensures t.Closed? ==> k <= t.end <= |buf|
    ensures t.Skipped? || t.Element? ==> k < t.next <= |buf|
    decreases |buf| - k, 2
  {
    var k0 := SkipWs(buf, k);
    if k0 == |buf| then Failed(UnterminatedArray)
    else if buf[k0] == ',' then
      var (d, k1) := NextAt(buf, k0);
      if d == Some(',') || d == Some(']') then Failed(InvalidChar(d.value, k1))
      else Skipped(k1)
    else if buf[k0] == ']' then Closed(if closes then k0 + 1 else k0)
    else
      match ReadValue(buf, k0, closes)
      case Err(e) => Failed(e)
      case Ok((v, k1)) => Element(v, k1)
  }

  /** The array loop from index `k`, with the elements read so far. */
  function ArrayLoop(buf: seq<char>, k: nat, elements: seq<JsonObject>, closes: bool): (r: Parse<JsonObject>)
    requires k <= |buf|
    ensures r.Ok? ==> k <= r.value.1 <= |buf| && r.value.0.Array? && elements <= r.value.0.elements
    decreases |buf| - k, 3
  {
    match ArrayTurnAt(buf, k, closes)
    case Closed(end) => Ok((Array(elements), end))
    case Failed(e) => Err(e)
    case Skipped(next) => ArrayLoop(buf, next, elements, closes)
    case Element(v, next) => ArrayLoop(buf, next, elements + [v], closes)
  }

  /** `JsonObject::read`: the first value of the input; whatever follows it is ignored. */
  function Parsed(s: seq<char>): Result<JsonObject, JsonError> {
    match ReadValue(s, 0, false)
    case Ok((v, _)) => Ok(v)
    case Err(e) => Err(e)
  }

  // ---------------------------------------------------------------------
  // The parser
  // ---------------------------------------------------------------------

  /** `Parser`: the input characters and the cursor into them. */
  class Parser {
    const buf: seq<char>
    var index: nat

    predicate Valid()
      reads this
    {
      index <= |buf|
    }

    /** `Parser::new`: the cursor starts at the first character. */
    constructor (s: seq<char>)
      ensures buf == s && index == 0 && Valid()
    {
      buf := s;
      index := 0;
    }

    method SkipWhitespace()
      requires Valid()
      modifies this
      ensures Valid() && index == SkipWs(buf, old(index))
    {
      while index < |buf| && IsWhitespace(buf[index])
        invariant old(index) <= index <= |buf|
        invariant SkipWs(buf, index) == SkipWs(buf, old(index))
        decreases |buf| - index
      {
        index := index + 1;
      }
    }

    function EndReached(): (b: bool)
      reads this
      ensures b <==> index >= |buf|
    {
      index >= |buf|
    }

    function Peek(): (c: Option<char>)
      reads this
      ensures c.Some? <==> index < |buf|
      ensures c.Some? ==> c.value == buf[index]
    {
      if EndReached() then None else Some(buf[index])
    }

    method Next() returns (c: Option<char>)
      requires Valid()
      modifies this
      ensures Valid() && (c, index) == NextAt(buf, old(index))
    {
      if EndReached() {
        return None;
      }
      index := index + 1;
      while Peek().Some?
        invariant old(index) < index <= |buf|
        invariant SkipWs(buf, index) == SkipWs(buf, old(index) + 1)
        decreases |buf| - index
      {
        var d := Peek().value;
        if !IsWhitespace(d) {
          return Some(d);
        }
        index := index + 1;
      }
      return None;
    }

    method NextNoSkip() returns (c: Option<char>)
      requires Valid()
      modifies this
      ensures Valid() && (c, index) == NextNoSkipAt(buf, old(index))
    {
      if EndReached() {
        return None;
      }
      index := index + 1;
      return Peek();
    }

    /** `partial_read`. */
    method PartialRead() returns (r: Result<JsonObject, JsonError>)
      requires Valid()
      modifies this
      ensures Valid() && Agrees(r, index, ReadValue(buf, old(index), false))
      decreases |buf| - index, 3
    {
      SkipWhitespace();
      var p := Peek();
      if p.None? {
        return Err(Empty);
      }
      var c := p.value;
      if c == '[' {
        r := PartialReadArray();
      } else if IsDigit(c) || IsSign(c) {
        r := PartialReadNumber();
      } else if c == '"' {
        r := PartialReadString();
      } else if c == 'f' {
        r := PartialReadGivenString("false", Bool(false));
      } else if c == 't' {
        r := PartialReadGivenString("true", Bool(true));
      } else if c == 'n' {
        r := PartialReadGivenString("null", Null);
      } else {
        r := Err(InvalidChar(buf[index], index));
      }
    }

    /** `partial_read_number`. */
    method PartialReadNumber() returns (r: Result<JsonObject, JsonError>)
      requires Valid() && index < |buf| && (IsDigit(buf[index]) || IsSign(buf[index]))
      modifies this
      ensures Valid() && Agrees(r, index, ReadNumber(buf, old(index)))
    {
      var token: seq<char> := [];
      SkipWhitespace();
      var p := Peek();
      if p == Some('+') || p == Some('-') {
        token := token + [p.value];
        var _ := NextNoSkip();
      }
      ghost var a := index;
      assert a == if IsSign(buf[old(index)]) then old(index) + 1 else old(index);
      token := ReadDigits(old(index), token);
      ghost var b := index;
      token := ReadFraction(old(index), token);
      ghost var c := index;
      token := ReadExponent(old(index), token);
      NumberScan(buf, old(index), a, b, c, index);
      if !PatternFound(token) {
        return Err(InvalidNumber);
      }
      if !FloatSyntax(token) {
        return Err(InvalidNumber);
      }
      return Ok(Number(token));
    }

    /** The fraction part of `partial_read_number`: a `.` and the digits after it. */
    method ReadFraction(ghost start: nat, token: seq<char>) returns (token': seq<char>)
      requires Valid() && start <= index && token == buf[start..index]
      modifies this
      ensures Valid() && index == if old(index) < |buf| && buf[old(index)] == '.' then DigitsEnd(buf, old(index) + 1) else old(index)
      ensures token' == buf[start..index]
    {
      token' := token;
      if Peek() == Some('.') {
        token' := ReadMarked(start, token');
      }
    }

    /** The exponent part of `partial_read_number`: `e` or `E` and the digits after it. */
    method ReadExponent(ghost start: nat, token: seq<char>) returns (token': seq<char>)
      requires Valid() && start <= index && token == buf[start..index]
      modifies this
      ensures Valid() && index == ExponentScan(buf, old(index)) && token' == buf[start..index]
    {
      token' := token;
      if Peek() == Some('e') || Peek() == Some('E') {
        token' := ReadMarked(start, token');
      }
    }

    /** The integer digits under the cursor, appended to the token collected since `start`. */
    method ReadDigits(ghost start: nat, token: seq<char>) returns (token': seq<char>)
      requires Valid() && start <= index && token == buf[start..index]
      modifies this
      ensures Valid() && index == DigitsEnd(buf, old(index)) && token' == buf[start..index]
    {
      token' := token;
      while Peek().Some? && IsDigit(Peek().value)
        invariant old(index) <= index <= |buf| && token' == buf[start..index]
        invariant DigitsEnd(buf, index) == DigitsEnd(buf, old(index))
        decreases |buf| - index
      {
        assert buf[start..index + 1] == buf[start..index] + [buf[index]];
        token' := token' + [Peek().value];
        var _ := NextNoSkip();
      }
    }

    /**
     * The fraction or the exponent: the `.`, `e` or `E` under the cursor and
     * the digits that follow it, read with `next_no_skip`.
     */
    method ReadMarked(ghost start: nat, token: seq<char>) returns (token': seq<char>)
      requires Valid() && start <= index < |buf| && token == buf[start..index]
      modifies this
      ensures Valid() && index == DigitsEnd(buf, old(index) + 1) && token' == buf[start..index]
    {
      assert buf[start..index + 1] == buf[start..index] + [buf[index]];
      token' := token + [buf[index]];
      var f := NextNoSkip();
      while f.Some? && IsDigit(f.value)
        invariant old(index) < index <= |buf| && token' == buf[start..index]
        invariant f == PeekAt(buf, index)
        invariant DigitsEnd(buf, index) == DigitsEnd(buf, old(index) + 1)
        decreases |buf| - index
      {
        assert buf[start..index + 1] == buf[start..index] + [f.value];
        token' := token' + [f.value];
        f := NextNoSkip();
      }
    }

    /** `partial_read_given_string`; `partial_read_false`, `_true` and `_null` call it with their literal. */
    method PartialReadGivenString(goal: seq<char>, value: JsonObject) returns (r: Result<JsonObject, JsonError>)
      requires Valid() && |goal| > 0
      modifies this
      ensures Valid() && Agrees(r, index, ReadGiven(buf, old(index), goal, value))
    {
      if |buf| < index + |goal| {
        return Err(Empty);
      }
      for t := 0 to |goal|
        invariant index == old(index) + t <= |buf|
        invariant Mismatch(buf, old(index), goal, t) == Mismatch(buf, old(index), goal, 0)
      {
        var p := Peek();
        if p.Some? {
          if p.value != goal[t] {
            return Err(InvalidChar(p.value, index));
          }
          var _ := NextNoSkip();
        }
      }
      return Ok(value);
    }

    /** `partial_read_string`. */
    method PartialReadString() returns (r: Result<JsonObject, JsonError>)
      requires Valid() && index < |buf| && buf[index] == '"'
      modifies this
      ensures Valid() && Agrees(r, index, ReadString(buf, old(index)))
    {
      SkipWhitespace();
      var utf16: seq<int> := [];
      while true
        invariant Valid() && index < |buf|
        invariant StringLoop(buf, index, utf16) == ReadString(buf, old(index))
        decreases |buf| - index
      {
        var turn := StringTurn();
        match turn
        case Close(_) =>
          return Ok(JsonString(utf16));
        case Fail(e) =>
          return Err(e);
        case Continue(_, u) =>
          utf16 := utf16 + u;
      }
    }

    /** One turn of the loop of `partial_read_string`, with the cursor on the last character consumed. */
    method StringTurn() returns (turn: StringTurn)
      requires Valid() && index < |buf|
      modifies this
      ensures Valid() && turn == StringTurnAt(buf, old(index))
      ensures turn.Continue? ==> index == turn.next
      ensures turn.Close? ==> index == turn.end
    {
      var next := NextNoSkip();
      if next.None? {
        return Fail(UnterminatedString);
      }
      var c := next.value;
      if c == '\\' {
        var e := NextNoSkip();
        if e.None? {
          return Fail(Empty);
        }
        if e.value == 'u' {
          var u := ReadCodepoint();
          if u.None? {
            return Fail(InvalidCodepoint);
          }
          return Continue(index, [u.value]);
        }
        var x := Unescape(e.value);
        if x.None? {
          return Fail(InvalidChar(e.value, index));
        }
        return Continue(index, Utf16(x.value));
      } else if c == '"' {
        var _ := NextNoSkip();
        return Close(index);
      }
      return Continue(index, Utf16(c));
    }

    /** The `\uXXXX` branch, with the cursor on the `u`: four hex digits folded into one code unit. */
    method ReadCodepoint() returns (u: Option<int>)
      requires Valid() && index < |buf|
      modifies this
      ensures Valid() && u == Hex4(buf, old(index))
      ensures u.Some? ==> index == old(index) + 4
    {
      var value := 0;
      for n := 0 to 4
        invariant index == old(index) + n < |buf|
        invariant forall k | old(index) < k <= old(index) + n :: IsHexDigit(buf[k])
        invariant value == HexNumber(buf[old(index) + 1..old(index) + n + 1])
      {
        var h := NextNoSkip();
        if h.None? || !IsHexDigit(h.value) {
          return None;
        }
        assert buf[old(index) + 1..old(index) + n + 2][..n] == buf[old(index) + 1..old(index) + n + 1];
        value := value * 16 + HexValue(h.value);
      }
      return Some(value);
    }

    /** `partial_read_array`. */
    method PartialReadArray() returns (r: Result<JsonObject, JsonError>)
      requires Valid() && index < |buf| && buf[index] == '['
      modifies this
      ensures Valid() && Agrees(r, index, ReadArray(buf, old(index), false))
      decreases |buf| - index, 2
    {
      var elements: seq<JsonObject> := [];
      var _ := NextNoSkip();
      SkipWhitespace();
      while true
        invariant Valid() && old(index) < index
        invariant ArrayLoop(buf, index, elements, false) == ReadArray(buf, old(index), false)
        decreases |buf| - index
      {
        var turn := ArrayTurn();
        match turn
        case Closed(_) =>
          return Ok(Array(elements));
        case Failed(e) =>
          return Err(e);
        case Skipped(_) =>
        case Element(v, _) =>
          elements := elements + [v];
      }
    }

    /** One turn of the loop of `partial_read_array`; the `]` that ends it is left under the cursor. */
    method ArrayTurn() returns (turn: Turn)
      requires Valid()
      modifies this
      ensures Valid() && turn == ArrayTurnAt(buf, old(index), false)
      ensures turn.Closed? ==> index == turn.end
      ensures turn.Skipped? || turn.Element? ==> index == turn.next
      decreases |buf| - index, 4
    {
      SkipWhitespace();
      var p := Peek();
      if p == Some(',') {
        var d := Next();
        if d == Some(',') || d == Some(']') {
          return Failed(InvalidChar(d.value, index));
        }
        return Skipped(index);
      } else if p == Some(']') {
        return Closed(index);
      } else if p.Some? {
        var element := PartialRead();
        if element.Err? {
          return Failed(element.error);
        }
        return Element(element.value, index);
      }
      return Failed(UnterminatedArray);
    }
  }

  /** `JsonObject::read`. */
  method Read(s: seq<char>) returns (r: Result<JsonObject, JsonError>)
    ensures r == Parsed(s)
  {
    var parser := new Parser(s);
    r := parser.PartialRead();
  }
}
