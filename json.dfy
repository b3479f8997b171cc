/**
 * The recursive-descent JSON parser of 02_rjson. A `Parser` holds the input
 * as a sequence of characters and a cursor `index` that every operation
 * advances. The functions `ReadValue`, `ReadNumber`, ... state, for a start
 * index, what the parser's methods return and where they leave the cursor;
 * each method is proved to agree with its function, and the properties of
 * the parser are lemmas about the functions.
 *
 * Numbers are kept as the validated token (the text of the number); strings
 * as their UTF-16 code units.
 */
module Json {
  import opened Wrappers
  import opened JsonText

  datatype JsonObject =
    | Array(elements: seq<JsonObject>)
    | Object(members: seq<(seq<int>, JsonObject)>)
    | Number(token: seq<char>)
    | JsonString(units: seq<int>)
    | Bool(b: bool)
    | Null

  datatype JsonError =
    | Empty
    | InvalidChar(c: char, at: nat)
    | UnterminatedString
    | EndedOnEscape
    | UnknownEscapeSequence(e: char)
    | NonStringAsKey
    | InvalidCodepoint
    | InvalidNumber
    | UnterminatedArray
    | UnterminatedObject

  /** The outcome of reading from a start index: a value and the index after it, or an error. */
  type Parse<T> = Result<(T, nat), JsonError>

  /** The value of a parse, without the index. */
  function Value<T>(p: Parse<T>): Result<T, JsonError> {
    match p
    case Ok((v, _)) => Ok(v)
    case Err(e) => Err(e)
  }

  /** A method's result `r` and final cursor `index` are those the parse `p` describes. */
  predicate Agrees<T(==)>(r: Result<T, JsonError>, index: nat, p: Parse<T>) {
    match p
    case Ok((v, e)) => r == Ok(v) && index == e
    case Err(err) => r == Err(err)
  }

  /** The whitespace the object reader tests for by hand: space, tab, carriage return, line feed. */
  predicate IsJsonSpace(c: char) {
    c == ' ' || c == '\t' || c == '\r' || c == '\n'
  }

  // ---------------------------------------------------------------------
  // The parser as functions of the buffer and a start index
  // ---------------------------------------------------------------------

  /**
   * `partial_read(root)`: skip whitespace and dispatch on the next
   * character. At the root only `{` and `[` may start the value, and the
   * value must reach the end of the input.
   */
  function ReadValue(buf: seq<char>, i: nat, root: bool): (r: Parse<JsonObject>)
    requires i <= |buf|
    ensures r.Ok? ==> i < r.value.1 <= |buf|
    ensures r.Ok? && root ==> r.value.1 == |buf| && (r.value.0.Array? || r.value.0.Object?)
    decreases |buf| - i, 1
  {
    var j := SkipWs(buf, i);
    if j == |buf| then Err(Empty)
    else
      var c := buf[j];
      if root && c != '{' && c != '[' then Err(InvalidChar(c, j))
      else
        var result :=
          if c == '{' then ReadObject(buf, j)
          else if c == '[' then ReadArray(buf, j)
          else if IsDigit(c) || IsSign(c) then ReadNumber(buf, j)
          else if c == '"' then ReadString(buf, j)
          else if c == 'f' then ReadGiven(buf, j, "false", Bool(false))
          else if c == 't' then ReadGiven(buf, j, "true", Bool(true))
          else if c == 'n' then ReadGiven(buf, j, "null", Null)
          else Err(InvalidChar(c, j));
        match result
        case Err(_) => result
        case Ok((_, e)) => if root && e < |buf| then Err(InvalidChar(buf[e], e)) else result
  }

  /**
   * Where the exponent read by `partial_read_number` ends: after `e`/`E`,
   * an optional sign and the digits that follow, however many.
   */
  function ExponentScan(buf: seq<char>, c: nat): (d: nat)
    requires c <= |buf|
    ensures c <= d <= |buf|
  {
    if c < |buf| && (buf[c] == 'e' || buf[c] == 'E') then
      DigitsEnd(buf, if c + 1 < |buf| && IsSign(buf[c + 1]) then c + 2 else c + 1)
    else c
  }

  /** Where the token `partial_read_number` collects from `j` ends, when no leading zero stops it. */
  function NumberEnd(buf: seq<char>, j: nat): (d: nat)
    requires j < |buf| && (IsDigit(buf[j]) || IsSign(buf[j]))
    ensures j < d <= |buf|
  {
    var a := if IsSign(buf[j]) then j + 1 else j;
    var b := DigitsEnd(buf, a);
    var c := if b < |buf| && buf[b] == '.' then DigitsEnd(buf, b + 1) else b;
    ExponentScan(buf, c)
  }

  /** The integer digits of the token start with `0` and there is more than one of them. */
  predicate LeadingZero(buf: seq<char>, j: nat)
    requires j < |buf|
  {
    var a := if IsSign(buf[j]) then j + 1 else j;
    DigitsEnd(buf, a) - a > 1 && buf[a] == '0'
  }

  /**
   * `partial_read_number`: collect an optional sign, integer digits, a
   * fraction and an exponent; reject a leading zero; then the token must
   * satisfy the regular expression (anchored only at its end) and Rust's
   * float syntax.
   */
  function ReadNumber(buf: seq<char>, j: nat): (r: Parse<JsonObject>)
    requires j < |buf| && (IsDigit(buf[j]) || IsSign(buf[j]))
    ensures r.Ok? ==> j < r.value.1 <= |buf| && r.value.0 == Number(buf[j..r.value.1])
    ensures r.Ok? ==> PatternFound(r.value.0.token) && FloatSyntax(r.value.0.token)
    ensures r.Err? ==> r.error == InvalidNumber
  {
    if LeadingZero(buf, j) then Err(InvalidNumber)
    else
      var d := NumberEnd(buf, j);
      var token := buf[j..d];
      if PatternFound(token) && FloatSyntax(token) then Ok((Number(token), d))
      else Err(InvalidNumber)
  }

  /**
   * The phases of `partial_read_number` put together: the sign ends at `a`,
   * the integer digits at `b`, the fraction at `c` and the exponent at `d`.
   */
  lemma NumberScan(buf: seq<char>, j: nat, a: nat, b: nat, c: nat, d: nat)
    requires j < |buf| && (IsDigit(buf[j]) || IsSign(buf[j]))
    requires a == if IsSign(buf[j]) then j + 1 else j
    requires a <= |buf| && b == DigitsEnd(buf, a) && !(b - a > 1 && buf[a] == '0')
    requires c == if b < |buf| && buf[b] == '.' then DigitsEnd(buf, b + 1) else b
    requires c <= |buf| && d == ExponentScan(buf, c)
    ensures d == NumberEnd(buf, j) && j < d
    ensures ReadNumber(buf, j) ==
              if PatternFound(buf[j..d]) && FloatSyntax(buf[j..d]) then Ok((Number(buf[j..d]), d)) else Err(InvalidNumber)
  {
  }

  /** `partial_read_given_string`: the literal `goal` must follow, character by character. */
  function ReadGiven(buf: seq<char>, j: nat, goal: seq<char>, value: JsonObject): (r: Parse<JsonObject>)
    requires j <= |buf| && |goal| > 0
    ensures r.Ok? ==> j < r.value.1 <= |buf|
    ensures r.Ok? <==> j + |goal| <= |buf| && buf[j..j + |goal|] == goal
    ensures r.Ok? ==> r.value == (value, j + |goal|)
    ensures |buf| < j + |goal| ==> r == Err(Empty)
    ensures r.Err? && j + |goal| <= |buf| ==>
              exists t | 0 <= t < |goal| :: r.error == InvalidChar(buf[j + t], j + t)
                && buf[j + t] != goal[t] && buf[j..j + t] == goal[..t]
  {
    if |buf| < j + |goal| then Err(Empty)
    else
      match Mismatch(buf, j, goal, 0)
      case Some(t) =>
        assert buf[j..j + t] == goal[..t];
        Err(InvalidChar(buf[j + t], j + t))
      case None =>
        assert buf[j..j + |goal|] == goal;
        Ok((value, j + |goal|))
  }

  /** `partial_read_string`, started on the opening quote. */
  function ReadString(buf: seq<char>, j: nat): (r: Parse<JsonObject>)
    requires j < |buf|
    ensures r.Ok? ==> j + 1 < r.value.1 <= |buf| && r.value.0.JsonString?
  {
    StringLoop(buf, j, [])
  }

  /** What one turn of the string loop does: close the string, fail, or go on with more code units. */
  datatype StringTurn = Close(end: nat) | Fail(error: JsonError) | Continue(next: nat, units: seq<int>)

  /**
   * One turn of the string loop with the cursor on position `k`, the last
   * character consumed. The source's test for an input ending on the
   * backslash never fires (the cursor is then on the backslash itself), so
   * a string cut off after a backslash fails with `Empty`.
   */
  function StringTurnAt(buf: seq<char>, k: nat): (t: StringTurn)
    requires k < |buf|
    ensures t.Close? ==> t.end == k + 2 <= |buf|
    ensures t.Continue? ==> k < t.next < |buf|
  {
    if k + 1 == |buf| then Fail(UnterminatedString)
    else
      var c := buf[k + 1];
      if c == '\\' then
        if k + 2 == |buf| then Fail(Empty)
        else
          var e := buf[k + 2];
          if e == 'u' then
            match Hex4(buf, k + 2)
            case None => Fail(InvalidCodepoint)
            case Some(u) => Continue(k + 6, [u])
          else
            match Unescape(e)
            case Some(x) => Continue(k + 2, Utf16(x))
            case None => Fail(InvalidChar(e, k + 2))
      else if c == '"' then Close(k + 2)
      else if c == '\n' || c == '\r' || c == '\t' then Fail(InvalidChar(c, k + 1))
      else Continue(k + 1, Utf16(c))
  }

  /** The string loop from position `k`, with the code units read so far. */
  function StringLoop(buf: seq<char>, k: nat, units: seq<int>): (r: Parse<JsonObject>)
    requires k < |buf|
    ensures r.Ok? ==> k + 1 < r.value.1 <= |buf| && r.value.0.JsonString?
    decreases |buf| - k
  {
    match StringTurnAt(buf, k)
    case Close(end) => Ok((JsonString(units), end))
    case Fail(e) => Err(e)
    case Continue(next, u) => StringLoop(buf, next, units + u)
  }

  /** What one turn of the array or the object loop does. */
  datatype Turn<T> =
    | Closed(end: nat)
    | Failed(error: JsonError)
    | Skipped(next: nat)
    | Element(item: T, next: nat)

  /** `partial_read_array`, started on the `[`. */
  function ReadArray(buf: seq<char>, j: nat): (r: Parse<JsonObject>)
    requires j < |buf| && buf[j] == '['
    ensures r.Ok? ==> j < r.value.1 <= |buf| && r.value.0.Array?
    decreases |buf| - j, 0
  {
    ArrayLoop(buf, SkipWs(buf, j + 1), [], true)
  }

  /**
   * One turn of the array loop at index `k`: skip whitespace, then a `]`
   * closes the array, a `,` must follow an element and precede another,
   * and anything else is read as an element. `first` says whether no
   * element has been read yet.
   */
  function ArrayTurnAt(buf: seq<char>, k: nat, first: bool): (t: Turn<JsonObject>)
    requires k <= |buf|
    ensures t.Closed? ==> k < t.end <= |buf|
    ensures t.Skipped? || t.Element? ==> k < t.next <= |buf|
    decreases |buf| - k, 2
  {
    var k0 := SkipWs(buf, k);
    if k0 == |buf| then Failed(UnterminatedArray)
    else if buf[k0] == ',' then
      if first then Failed(InvalidChar(',', k0))
      else
        var (d, k1) := NextAt(buf, k0);
        if d == Some(',') || d == Some(']') then Failed(InvalidChar(d.value, k1))
        else Skipped(k1)
    else if buf[k0] == ']' then Closed(NextAt(buf, k0).1)
    else
      match ReadValue(buf, k0, false)
      case Err(e) => Failed(e)
      case Ok((v, k1)) => Element(v, k1)
  }

  /** The array loop from index `k`, with the elements read so far. */
  function ArrayLoop(buf: seq<char>, k: nat, elements: seq<JsonObject>, first: bool): (r: Parse<JsonObject>)
    requires k <= |buf|
    ensures r.Ok? ==> k < r.value.1 <= |buf| && r.value.0.Array? && elements <= r.value.0.elements
    decreases |buf| - k, 3
  {
    match ArrayTurnAt(buf, k, first)
    case Closed(end) => Ok((Array(elements), end))
    case Failed(e) => Err(e)
    case Skipped(next) => ArrayLoop(buf, next, elements, first)
    case Element(v, next) => ArrayLoop(buf, next, elements + [v], false)
  }

  /** `partial_read_object`, started on the `{`. */
  function ReadObject(buf: seq<char>, j: nat): (r: Parse<JsonObject>)
    requires j < |buf| && buf[j] == '{'
    ensures r.Ok? ==> j < r.value.1 <= |buf| && r.value.0.Object?
    decreases |buf| - j, 0
  {
    ObjectLoop(buf, NextAt(buf, j).1, [])
  }

  /**
   * One turn of the object loop at index `k`: a key string, at most one
   * whitespace step, a `:` and a value make a member; `}` closes the
   * object; a `,` may not be followed by `}`; JSON whitespace is passed
   * over one character at a time.
   */
  function ObjectTurnAt(buf: seq<char>, k: nat): (t: Turn<(seq<int>, JsonObject)>)
    requires k <= |buf|
    ensures t.Closed? ==> k < t.end <= |buf|
    ensures t.Skipped? || t.Element? ==> k < t.next <= |buf|
    decreases |buf| - k, 2
  {
    if k == |buf| then Failed(UnterminatedObject)
    else if buf[k] == '"' then
      match ReadString(buf, k)
      case Err(e) => Failed(e)
      case Ok((key, k1)) =>
        var k2 := if k1 < |buf| && IsJsonSpace(buf[k1]) then NextAt(buf, k1).1 else k1;
        if k2 < |buf| && buf[k2] == ':' then
          match ReadValue(buf, NextAt(buf, k2).1, false)
          case Err(e) => Failed(e)
          case Ok((v, k3)) => Element((key.units, v), k3)
        else Failed(NonStringAsKey)
    else if buf[k] == '}' then Closed(NextAt(buf, k).1)
    else if buf[k] == ',' then
      var k1 := NextAt(buf, k).1;
      if k1 < |buf| && buf[k1] == '}' then Failed(InvalidChar('}', k1))
      else Skipped(k1)
    else if IsJsonSpace(buf[k]) then Skipped(k + 1)
    else Failed(InvalidChar(buf[k], k))
  }

  /** The object loop from index `k`, with the members read so far. */
  function ObjectLoop(buf: seq<char>, k: nat, members: seq<(seq<int>, JsonObject)>): (r: Parse<JsonObject>)
    requires k <= |buf|
    ensures r.Ok? ==> k < r.value.1 <= |buf| && r.value.0.Object? && members <= r.value.0.members
    decreases |buf| - k, 3
  {
    match ObjectTurnAt(buf, k)
    case Closed(end) => Ok((Object(members), end))
    case Failed(e) => Err(e)
    case Skipped(next) => ObjectLoop(buf, next, members)
    case Element(m, next) => ObjectLoop(buf, next, members + [m])
  }

  /** `JsonObject::read`: the whole input read as a root value. */
  function Parsed(s: seq<char>): Result<JsonObject, JsonError> {
    Value(ReadValue(s, 0, true))
  }

  // ---------------------------------------------------------------------
  // The parser object
  // ---------------------------------------------------------------------

  /** `Parser`: the input characters and the cursor into them. */
  class Parser {
    const buf: seq<char>
    var index: nat

    predicate Valid()
      reads this
    {
      index <= |buf|
    }

    /** `Parser::new`: the cursor starts at the first character. */
    constructor (s: seq<char>)
      ensures buf == s && index == 0 && Valid()
    {
      buf := s;
      index := 0;
    }

    method SkipWhitespace()
      requires Valid()
      modifies this
      ensures Valid() && index == SkipWs(buf, old(index))
    {
      while index < |buf| && IsWhitespace(buf[index])
        invariant old(index) <= index <= |buf|
        invariant SkipWs(buf, index) == SkipWs(buf, old(index))
        decreases |buf| - index
      {
        index := index + 1;
      }
    }

    function EndReached(): (b: bool)
      reads this
      ensures b <==> index >= |buf|
    {
      index >= |buf|
    }

    function Peek(): (c: Option<char>)
      reads this
      ensures c.Some? <==> index < |buf|
      ensures c.Some? ==> c.value == buf[index]
    {
      if EndReached() then None else Some(buf[index])
    }

    method Next() returns (c: Option<char>)
      requires Valid()
      modifies this
      ensures Valid() && (c, index) == NextAt(buf, old(index))
    {
      if EndReached() {
        return None;
      }
      index := index + 1;
      while Peek().Some?
        invariant old(index) < index <= |buf|
        invariant SkipWs(buf, index) == SkipWs(buf, old(index) + 1)
        decreases |buf| - index
      {
        var d := Peek().value;
        if !IsWhitespace(d) {
          return Some(d);
        }
        index := index + 1;
      }
      return None;
    }

    method NextNoSkip() returns (c: Option<char>)
      requires Valid()
      modifies this
      ensures Valid() && (c, index) == NextNoSkipAt(buf, old(index))
    {
      if EndReached() {
        return None;
      }
      index := index + 1;
      return Peek();
    }

    /** `partial_read(root)`. */
    method PartialRead(root: bool) returns (r: Result<JsonObject, JsonError>)
      requires Valid()
      modifies this
      ensures Valid() && Agrees(r, index, ReadValue(buf, old(index), root))
      decreases |buf| - index, 3
    {
      SkipWhitespace();
      var p := Peek();
      if p.None? {
        return Err(Empty);
      }
      var c := p.value;
      if root && c != '{' && c != '[' {
        return Err(InvalidChar(buf[index], index));
      }
      var result;
      if c == '{' {
        result := PartialReadObject();
      } else if c == '[' {
        result := PartialReadArray();
      } else if IsDigit(c) || IsSign(c) {
        result := PartialReadNumber();
      } else if c == '"' {
        result := PartialReadString();
      } else if c == 'f' {
        result := PartialReadGivenString("false", Bool(false));
      } else if c == 't' {
        result := PartialReadGivenString("true", Bool(true));
      } else if c == 'n' {
        result := PartialReadGivenString("null", Null);
      } else {
        result := Err(InvalidChar(buf[index], index));
      }
      if result.Err? {
        return result;
      }
      if root {
        var q := Peek();
        if q.Some? {
          return Err(InvalidChar(q.value, index));
        }
      }
      return result;
    }

    /** `partial_read_number`. */
    method PartialReadNumber() returns (r: Result<JsonObject, JsonError>)
      requires Valid() && index < |buf| && (IsDigit(buf[index]) || IsSign(buf[index]))
      modifies this
      ensures Valid() && Agrees(r, index, ReadNumber(buf, old(index)))
    {
      var token: seq<char> := [];
      SkipWhitespace();
      var p := Peek();
      if p == Some('+') || p == Some('-') {
        token := token + [p.value];
        var _ := NextNoSkip();
      }
      ghost var a := index;
      assert a == if IsSign(buf[old(index)]) then old(index) + 1 else old(index);
      var firstDigit, digitsSize;
      token, firstDigit, digitsSize := ReadInteger(old(index), token);
      if firstDigit == 0 && digitsSize > 1 {
        return Err(InvalidNumber);
      }
      r := ReadNumberTail(old(index), token);
    }

    /**
     * `partial_read_number` after the integer digits: the fraction, the
     * exponent, and the checks of the collected token.
     */
    method ReadNumberTail(ghost start: nat, token: seq<char>) returns (r: Result<JsonObject, JsonError>)
      requires Valid() && start < index && token == buf[start..index]
      requires IsDigit(buf[start]) || IsSign(buf[start])
      requires index == DigitsEnd(buf, if IsSign(buf[start]) then start + 1 else start)
      requires !LeadingZero(buf, start)
      modifies this
      ensures Valid() && Agrees(r, index, ReadNumber(buf, start))
    {
      ghost var a := if IsSign(buf[start]) then start + 1 else start;
      ghost var b := index;
      var token' := ReadFraction(start, token);
      ghost var c := index;
      token' := ReadExponent(start, token');
      NumberScan(buf, start, a, b, c, index);
      if !PatternFound(token') {
        return Err(InvalidNumber);
      }
      if !FloatSyntax(token') {
        return Err(InvalidNumber);
      }
      return Ok(Number(token'));
    }

    /**
     * The integer part of `partial_read_number`: the digits under the cursor,
     * the value of the first one (-1 when there is none) and their number.
     * The token collected since `start` grows by the digits.
     */
    method ReadInteger(ghost start: nat, token: seq<char>) returns (token': seq<char>, firstDigit: int, digitsSize: nat)
      requires Valid() && start <= index && token == buf[start..index]
      modifies this
      ensures Valid() && index == DigitsEnd(buf, old(index)) && token' == buf[start..index]
      ensures digitsSize == index - old(index)
      ensures firstDigit == if digitsSize == 0 then -1 else buf[old(index)] as int - '0' as int
    {
      token' := token;
      firstDigit := -1;
      digitsSize := 0;
      while Peek().Some? && IsDigit(Peek().value)
        invariant old(index) <= index <= |buf| && token' == buf[start..index]
        invariant DigitsEnd(buf, index) == DigitsEnd(buf, old(index))
        invariant digitsSize == index - old(index)
        invariant firstDigit == if digitsSize == 0 then -1 else buf[old(index)] as int - '0' as int
        decreases |buf| - index
      {
        var c := Peek().value;
        assert buf[start..index + 1] == buf[start..index] + [c];
        token' := token' + [c];
        if firstDigit == -1 {
          firstDigit := c as int - '0' as int;
        }
        digitsSize := digitsSize + 1;
        var _ := NextNoSkip();
      }
    }

    /** The fraction part of `partial_read_number`: a `.` and the digits after it. */
    method ReadFraction(ghost start: nat, token: seq<char>) returns (token': seq<char>)
      requires Valid() && start <= index && token == buf[start..index]
      modifies this
      ensures Valid() && index == if old(index) < |buf| && buf[old(index)] == '.' then DigitsEnd(buf, old(index) + 1) else old(index)
      ensures token' == buf[start..index]
    {
      token' := token;
      if Peek() == Some('.') {
        assert buf[start..index + 1] == buf[start..index] + ['.'];
        token' := token' + ['.'];
        var f := NextNoSkip();
        while f.Some? && IsDigit(f.value)
          invariant old(index) < index <= |buf| && token' == buf[start..index]
          invariant f == PeekAt(buf, index)
          invariant DigitsEnd(buf, index) == DigitsEnd(buf, old(index) + 1)
          decreases |buf| - index
        {
          assert buf[start..index + 1] == buf[start..index] + [f.value];
          token' := token' + [f.value];
          f := NextNoSkip();
        }
      }
    }

    /** The exponent part of `partial_read_number`: `e` or `E`, an optional sign, digits. */
    method ReadExponent(ghost start: nat, token: seq<char>) returns (token': seq<char>)
      requires Valid() && start <= index && token == buf[start..index]
      modifies this
      ensures Valid() && index == ExponentScan(buf, old(index)) && token' == buf[start..index]
    {
      token' := token;
      if Peek() == Some('e') || Peek() == Some('E') {
        assert buf[start..index + 1] == buf[start..index] + [buf[index]];
        token' := token' + [Peek().value];
        var _ := NextNoSkip();
        if Peek() == Some('+') || Peek() == Some('-') {
          assert buf[start..index + 1] == buf[start..index] + [buf[index]];
          token' := token' + [Peek().value];
          var _ := NextNoSkip();
        }
        assert index == if old(index) + 1 < |buf| && IsSign(buf[old(index) + 1]) then old(index) + 2 else old(index) + 1;
        token' := ReadDigits(start, token');
      }
    }

    /** The digits under the cursor, appended to the token collected since `start`. */
    method ReadDigits(ghost start: nat, token: seq<char>) returns (token': seq<char>)
      requires Valid() && start <= index && token == buf[start..index]
      modifies this
      ensures Valid() && index == DigitsEnd(buf, old(index)) && token' == buf[start..index]
    {
      token' := token;
      while Peek().Some? && IsDigit(Peek().value)
        invariant old(index) <= index <= |buf| && token' == buf[start..index]
        invariant DigitsEnd(buf, index) == DigitsEnd(buf, old(index))
        decreases |buf| - index
      {
        assert buf[start..index + 1] == buf[start..index] + [buf[index]];
        token' := token' + [Peek().value];
        var _ := NextNoSkip();
      }
    }

    /** `partial_read_given_string`; `partial_read_false`, `_true` and `_null` call it with their literal. */
    method PartialReadGivenString(goal: seq<char>, value: JsonObject) returns (r: Result<JsonObject, JsonError>)
      requires Valid() && |goal| > 0
      modifies this
      ensures Valid() && Agrees(r, index, ReadGiven(buf, old(index), goal, value))
    {
      if |buf| < index + |goal| {
        return Err(Empty);
      }
      for t := 0 to |goal|
        invariant index == old(index) + t <= |buf|
        invariant Mismatch(buf, old(index), goal, t) == Mismatch(buf, old(index), goal, 0)
      {
        var p := Peek();
        if p.Some? {
          if p.value != goal[t] {
            return Err(InvalidChar(p.value, index));
          }
          var _ := NextNoSkip();
        }
      }
      return Ok(value);
    }

    /** `partial_read_string`. */
    method PartialReadString() returns (r: Result<JsonObject, JsonError>)
      requires Valid() && index < |buf| && buf[index] == '"'
      modifies this
      ensures Valid() && Agrees(r, index, ReadString(buf, old(index)))
    {
      SkipWhitespace();
      var utf16: seq<int> := [];
      while true
        invariant Valid() && index < |buf|
        invariant StringLoop(buf, index, utf16) == ReadString(buf, old(index))
        decreases |buf| - index
      {
        var turn := StringTurn();
        match turn
        case Close(_) =>
          return Ok(JsonString(utf16));
        case Fail(e) =>
          return Err(e);
        case Continue(_, u) =>
          utf16 := utf16 + u;
      }
    }

    /** One turn of the loop of `partial_read_string`, with the cursor on the last character consumed. */
    method StringTurn() returns (turn: StringTurn)
      requires Valid() && index < |buf|
      modifies this
      ensures Valid() && turn == StringTurnAt(buf, old(index))
      ensures turn.Continue? ==> index == turn.next
      ensures turn.Close? ==> index == turn.end
    {
      var next := NextNoSkip();
      if next.None? {
        return Fail(UnterminatedString);
      }
      var c := next.value;
      if c == '\\' {
        var e := NextNoSkip();
        if e.None? {
          return Fail(Empty);
        }
        if e.value == 'u' {
          var u := ReadCodepoint();
          if u.None? {
            return Fail(InvalidCodepoint);
          }
          return Continue(index, [u.value]);
        }
        var x := Unescape(e.value);
        if x.None? {
          return Fail(InvalidChar(e.value, index));
        }
        return Continue(index, Utf16(x.value));
      } else if c == '"' {
        var _ := NextNoSkip();
        return Close(index);
      } else if c == '\n' || c == '\r' || c == '\t' {
        return Fail(InvalidChar(c, index));
      }
      return Continue(index, Utf16(c));
    }

    /**
     * The `\uXXXX` branch of `partial_read_string`, with the cursor on the
     * `u`: four hex digits folded into one UTF-16 code unit, most
     * significant first.
     */
    method ReadCodepoint() returns (u: Option<int>)
      requires Valid() && index < |buf|
      modifies this
      ensures Valid() && u == Hex4(buf, old(index))
      ensures u.Some? ==> index == old(index) + 4
    {
      var value := 0;
      for n := 0 to 4
        invariant index == old(index) + n < |buf|
        invariant forall k | old(index) < k <= old(index) + n :: IsHexDigit(buf[k])
        invariant value == HexNumber(buf[old(index) + 1..old(index) + n + 1])
      {
        var h := NextNoSkip();
        if h.None? || !IsHexDigit(h.value) {
          return None;
        }
        assert buf[old(index) + 1..old(index) + n + 2][..n] == buf[old(index) + 1..old(index) + n + 1];
        value := value * 16 + HexValue(h.value);
      }
      return Some(value);
    }

    /** `partial_read_array`. */
    method PartialReadArray() returns (r: Result<JsonObject, JsonError>)
      requires Valid() && index < |buf| && buf[index] == '['
      modifies this
      ensures Valid() && Agrees(r, index, ReadArray(buf, old(index)))
      decreases |buf| - index, 2
    {
      var elements: seq<JsonObject> := [];
      var _ := NextNoSkip();
      SkipWhitespace();
      var first := true;
      while true
        invariant Valid() && old(index) < index
        invariant ArrayLoop(buf, index, elements, first) == ReadArray(buf, old(index))
        decreases |buf| - index
      {
        var turn := ArrayTurn(first);
        match turn
        case Closed(_) =>
          return Ok(Array(elements));
        case Failed(e) =>
          return Err(e);
        case Skipped(_) =>
        case Element(v, _) =>
          elements := elements + [v];
          first := false;
      }
    }

    /** One turn of the loop of `partial_read_array`. */
    method ArrayTurn(first: bool) returns (turn: Turn<JsonObject>)
      requires Valid()
      modifies this
      ensures Valid() && turn == ArrayTurnAt(buf, old(index), first)
      ensures turn.Closed? ==> index == turn.end
      ensures turn.Skipped? || turn.Element? ==> index == turn.next
      decreases |buf| - index, 4
    {
      SkipWhitespace();
      var p := Peek();
      if p == Some(',') {
        if first {
          return Failed(InvalidChar(',', index));
        }
        var d := Next();
        if d == Some(',') || d == Some(']') {
          return Failed(InvalidChar(d.value, index));
        }
        return Skipped(index);
      } else if p == Some(']') {
        var _ := Next();
        return Closed(index);
      } else if p.Some? {
        var element := PartialRead(false);
        if element.Err? {
          return Failed(element.error);
        }
        return Element(element.value, index);
      }
      return Failed(UnterminatedArray);
    }

    /** `partial_read_object`. */
    method PartialReadObject() returns (r: Result<JsonObject, JsonError>)
      requires Valid() && index < |buf| && buf[index] == '{'
      modifies this
      ensures Valid() && Agrees(r, index, ReadObject(buf, old(index)))
      decreases |buf| - index, 2
    {
      var members: seq<(seq<int>, JsonObject)> := [];
      var _ := Next();
      while true
        invariant Valid() && old(index) < index
        invariant ObjectLoop(buf, index, members) == ReadObject(buf, old(index))
        decreases |buf| - index
      {
        var turn := ObjectTurn();
        match turn
        case Closed(_) =>
          return Ok(Object(members));
        case Failed(e) =>
          return Err(e);
        case Skipped(_) =>
        case Element(m, _) =>
          members := members + [m];
      }
    }

    /** One turn of the loop of `partial_read_object`. */
    method ObjectTurn() returns (turn: Turn<(seq<int>, JsonObject)>)
      requires Valid()
      modifies this
      ensures Valid() && turn == ObjectTurnAt(buf, old(index))
      ensures turn.Closed? ==> index == turn.end
      ensures turn.Skipped? || turn.Element? ==> index == turn.next
      decreases |buf| - index, 4
    {
      var p := Peek();
      if p == Some('"') {
        var key := PartialReadString();
        if key.Err? {
          return Failed(key.error);
        }
        var q := Peek();
        if q.Some? && IsJsonSpace(q.value) {
          var _ := Next();
        }
        if Peek() != Some(':') {
          return Failed(NonStringAsKey);
        }
        var _ := Next();
        var element := PartialRead(false);
        if element.Err? {
          return Failed(element.error);
        }
        return Element((key.value.units, element.value), index);
      } else if p == Some('}') {
        var _ := Next();
        return Closed(index);
      } else if p == Some(',') {
        var _ := Next();
        if Peek() == Some('}') {
          return Failed(InvalidChar('}', index));
        }
        return Skipped(index);
      } else if p.Some? && IsJsonSpace(p.value) {
        index := index + 1;
        return Skipped(index);
      } else if p.Some? {
        return Failed(InvalidChar(p.value, index));
      }
      return Failed(UnterminatedObject);
    }
  }

  /** `JsonObject::read`. */
  method Read(s: seq<char>) returns (r: Result<JsonObject, JsonError>)
    ensures r == Parsed(s)
  {
    var parser := new Parser(s);
    r := parser.PartialRead(true);
  }
}
