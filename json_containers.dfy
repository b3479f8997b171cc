/**
 * The order and the separator rules of the 02_rjson array and object
 * readers, lifted from one turn of their loops to a whole container: the
 * elements laid out at given positions of the buffer are the elements read,
 * in that order, and what follows the last of them decides between the
 * closed container and each of the errors.
 *
 * Elements are placed by position in one buffer rather than cut out as
 * texts of their own, because a value's read depends on what follows it (a
 * number ends at the first character that cannot continue it) and the
 * closing bracket's end index depends on the whitespace after it.
 */
module JsonContainers {
  import opened Wrappers
  import opened JsonText
  import opened Json

  // ---------------------------------------------------------------------
  // Arrays
  // ---------------------------------------------------------------------

  /** A character at which the array loop reads an element. */
  predicate StartsElement(c: char) {
    !IsWhitespace(c) && c != ',' && c != ']'
  }

  /**
   * What may separate two elements: whitespace, then either the next
   * element or one comma, whitespace and the next element.
   */
  ghost predicate Separated(buf: seq<char>, a: nat, b: nat)
    requires a <= |buf|
  {
    var s := SkipWs(buf, a);
    s == b || (s < |buf| && buf[s] == ',' && SkipWs(buf, s + 1) == b)
  }

  /** The value `v` is read at `p`, which starts an element, and ends at `e`. */
  ghost predicate ElementAt(buf: seq<char>, p: nat, v: JsonObject, e: nat) {
    p < |buf| && StartsElement(buf[p]) && ReadValue(buf, p, false) == Ok((v, e))
  }

  /**
   * The array opened at `j` holds the values `vs`: `vs[i]` is read at
   * `ps[i]` and ends at `es[i]`, the first one follows the `[` after
   * whitespace, and each later one is separated from the one before.
   */
  ghost predicate ArrayLaidOut(buf: seq<char>, j: nat, vs: seq<JsonObject>, ps: seq<nat>, es: seq<nat>)
  {
    j < |buf| && buf[j] == '['
    && |ps| == |vs| && |es| == |vs|
    && (forall i {:trigger ElementAt(buf, ps[i], vs[i], es[i])} | 0 <= i < |vs| :: ElementAt(buf, ps[i], vs[i], es[i]))
    && (|vs| == 0 || SkipWs(buf, j + 1) == ps[0])
    && (forall i | 0 <= i < |vs| - 1 :: es[i] <= |buf| && Separated(buf, es[i], ps[i + 1]))
  }

  /** Where the array loop stands after the first `n` elements. */
  ghost function ArrayAfter(buf: seq<char>, j: nat, vs: seq<JsonObject>, ps: seq<nat>, es: seq<nat>, n: nat): (k: nat)
    requires ArrayLaidOut(buf, j, vs, ps, es) && n <= |vs|
    ensures k <= |buf|
  {
    if n == 0 then SkipWs(buf, j + 1)
    else assert ElementAt(buf, ps[n - 1], vs[n - 1], es[n - 1]); es[n - 1]
  }

  /** A turn of the loop that reads the element at `p`, after whitespace from `k`. */
  lemma ElementRead(buf: seq<char>, k: nat, elements: seq<JsonObject>, first: bool, p: nat, v: JsonObject, e: nat)
    requires k <= |buf| && SkipWs(buf, k) == p && p < |buf| && StartsElement(buf[p])
    requires ReadValue(buf, p, false) == Ok((v, e))
    ensures ArrayLoop(buf, k, elements, first) == ArrayLoop(buf, e, elements + [v], false)
  {
    assert ArrayTurnAt(buf, k, first) == Element(v, e);
  }

  /** A separator and then the element at `p`, read after element `n - 1`. */
  lemma SeparatedRead(buf: seq<char>, k: nat, elements: seq<JsonObject>, p: nat, v: JsonObject, e: nat)
    requires k <= |buf| && Separated(buf, k, p) && p < |buf| && StartsElement(buf[p])
    requires ReadValue(buf, p, false) == Ok((v, e))
    ensures ArrayLoop(buf, k, elements, false) == ArrayLoop(buf, e, elements + [v], false)
  {
    assert SkipWs(buf, p) == p;
    if SkipWs(buf, k) == p {
      ElementRead(buf, k, elements, false, p, v, e);
    } else {
      assert ArrayTurnAt(buf, k, false) == Skipped(p);
      ElementRead(buf, p, elements, false, p, v, e);
    }
  }

  /** Element `n` is read right after element `n - 1`, or first. */
  lemma ElementStep(buf: seq<char>, j: nat, vs: seq<JsonObject>, ps: seq<nat>, es: seq<nat>, n: nat)
    requires ArrayLaidOut(buf, j, vs, ps, es) && n < |vs|
    ensures ArrayLoop(buf, ArrayAfter(buf, j, vs, ps, es, n), vs[..n], n == 0)
         == ArrayLoop(buf, ArrayAfter(buf, j, vs, ps, es, n + 1), vs[..n + 1], n + 1 == 0)
  {
    var k := ArrayAfter(buf, j, vs, ps, es, n);
    var p, v, e := ps[n], vs[n], es[n];
    assert ElementAt(buf, p, v, e);
    assert vs[..n] + [v] == vs[..n + 1];
    if n == 0 {
      assert SkipWs(buf, p) == p;
      SkipWsIdempotent(buf, j + 1);
      ElementRead(buf, k, vs[..n], true, p, v, e);
    } else {
      assert Separated(buf, es[n - 1], p);
      SeparatedRead(buf, k, vs[..n], p, v, e);
    }
  }

  /** After the first `n` elements, the array read goes on from their end with them collected in order. */
  lemma {:induction false} ArraySteps(buf: seq<char>, j: nat, vs: seq<JsonObject>, ps: seq<nat>, es: seq<nat>, n: nat)
    requires ArrayLaidOut(buf, j, vs, ps, es) && n <= |vs|
    ensures ReadArray(buf, j) == ArrayLoop(buf, ArrayAfter(buf, j, vs, ps, es, n), vs[..n], n == 0)
  {
    if n == 0 {
      assert vs[..0] == [];
    } else {
      var m := n - 1;
      ArraySteps(buf, j, vs, ps, es, m);
      ElementStep(buf, j, vs, ps, es, m);
      assert m + 1 == n;
    }
  }

  /** The array read after all of `vs`. */
  lemma ArrayPrefix(buf: seq<char>, j: nat, vs: seq<JsonObject>, ps: seq<nat>, es: seq<nat>)
    requires ArrayLaidOut(buf, j, vs, ps, es)
    ensures ReadArray(buf, j) == ArrayLoop(buf, ArrayAfter(buf, j, vs, ps, es, |vs|), vs, |vs| == 0)
  {
    ArraySteps(buf, j, vs, ps, es, |vs|);
    assert vs[..|vs|] == vs;
  }

  /** Elements laid out in order and then a `]` read as the array of exactly those elements, in that order. */
  lemma ArrayOrder(buf: seq<char>, j: nat, vs: seq<JsonObject>, ps: seq<nat>, es: seq<nat>)
    requires ArrayLaidOut(buf, j, vs, ps, es)
    requires var c := SkipWs(buf, ArrayAfter(buf, j, vs, ps, es, |vs|)); c < |buf| && buf[c] == ']'
    ensures var c := SkipWs(buf, ArrayAfter(buf, j, vs, ps, es, |vs|));
            ReadArray(buf, j) == Ok((Array(vs), NextAt(buf, c).1))
  {
    ArrayPrefix(buf, j, vs, ps, es);
  }

  /** Input that ends after the elements, or after a comma that follows them, leaves the array unterminated. */
  lemma ArrayUnterminated(buf: seq<char>, j: nat, vs: seq<JsonObject>, ps: seq<nat>, es: seq<nat>)
    requires ArrayLaidOut(buf, j, vs, ps, es)
    requires var c := SkipWs(buf, ArrayAfter(buf, j, vs, ps, es, |vs|));
             c == |buf| || (|vs| > 0 && buf[c] == ',' && SkipWs(buf, c + 1) == |buf|)
    ensures ReadArray(buf, j) == Err(UnterminatedArray)
  {
    ArrayPrefix(buf, j, vs, ps, es);
    var k := ArrayAfter(buf, j, vs, ps, es, |vs|);
    var c := SkipWs(buf, k);
    if c < |buf| {
      assert ArrayTurnAt(buf, k, false) == Skipped(|buf|);
      assert ArrayTurnAt(buf, |buf|, false) == Failed(UnterminatedArray);
    }
  }

  /** A comma before any element is refused where it stands. */
  lemma ArrayLeadingComma(buf: seq<char>, j: nat)
    requires j < |buf| && buf[j] == '['
    requires var c := SkipWs(buf, j + 1); c < |buf| && buf[c] == ','
    ensures ReadArray(buf, j) == Err(InvalidChar(',', SkipWs(buf, j + 1)))
  {
    SkipWsIdempotent(buf, j + 1);
    assert ArrayTurnAt(buf, SkipWs(buf, j + 1), true) == Failed(InvalidChar(',', SkipWs(buf, j + 1)));
  }

  /** After any run of elements, a comma followed by another comma or by `]` is refused at the second character. */
  lemma ArrayCommaRefused(buf: seq<char>, j: nat, vs: seq<JsonObject>, ps: seq<nat>, es: seq<nat>)
    requires ArrayLaidOut(buf, j, vs, ps, es) && |vs| > 0
    requires var c := SkipWs(buf, ArrayAfter(buf, j, vs, ps, es, |vs|));
             c < |buf| && buf[c] == ',' && SkipWs(buf, c + 1) < |buf| && buf[SkipWs(buf, c + 1)] in {',', ']'}
    ensures var k1 := SkipWs(buf, SkipWs(buf, ArrayAfter(buf, j, vs, ps, es, |vs|)) + 1);
            ReadArray(buf, j) == Err(InvalidChar(buf[k1], k1))
  {
    ArrayPrefix(buf, j, vs, ps, es);
  }

  /** After any run of elements, an element that fails to read, with or without a comma before it, fails the array with its error. */
  lemma ArrayElementFails(buf: seq<char>, j: nat, vs: seq<JsonObject>, ps: seq<nat>, es: seq<nat>, p: nat, e: JsonError)
    requires ArrayLaidOut(buf, j, vs, ps, es)
    requires var c := SkipWs(buf, ArrayAfter(buf, j, vs, ps, es, |vs|));
             p == c || (|vs| > 0 && c < |buf| && buf[c] == ',' && SkipWs(buf, c + 1) == p)
    requires p < |buf| && StartsElement(buf[p]) && ReadValue(buf, p, false) == Err(e)
    ensures ReadArray(buf, j) == Err(e)
  {
    ArrayPrefix(buf, j, vs, ps, es);
    var k := ArrayAfter(buf, j, vs, ps, es, |vs|);
    var c := SkipWs(buf, k);
    assert SkipWs(buf, p) == p;
    if p == c {
      assert ArrayTurnAt(buf, k, |vs| == 0) == Failed(e);
    } else {
      assert ArrayTurnAt(buf, k, false) == Skipped(p);
      assert ArrayTurnAt(buf, p, false) == Failed(e);
    }
  }

  // ---------------------------------------------------------------------
  // Objects
  // ---------------------------------------------------------------------

  /**
   * A run of turns of the object loop that skip: JSON whitespace one
   * character at a time, and commas (with the whitespace after them) that
   * are not followed by `}`.
   */
  ghost predicate Gap(buf: seq<char>, a: nat, b: nat)
    requires a <= |buf|
    decreases |buf| - a
  {
    a == b
    || (a < |buf| && IsJsonSpace(buf[a]) && Gap(buf, a + 1, b))
    || (a < |buf| && buf[a] == ',' &&
        var k1 := NextAt(buf, a).1; (k1 == |buf| || buf[k1] != '}') && Gap(buf, k1, b))
  }

  /** Where the one whitespace step after a key ends. */
  function ColonAt(buf: seq<char>, k: nat): (c: nat)
    requires k <= |buf|
    ensures k <= c <= |buf|
  {
    if k < |buf| && IsJsonSpace(buf[k]) then NextAt(buf, k).1 else k
  }

  /**
   * The member `m` is laid out at `p` and ends at `e`: a string key, at
   * most one whitespace step, a `:` and the value.
   */
  ghost predicate MemberAt(buf: seq<char>, p: nat, m: (seq<int>, JsonObject), e: nat)
  {
    p < |buf| && buf[p] == '"' &&
    match ReadString(buf, p)
    case Err(_) => false
    case Ok((key, k1)) =>
      var k2 := ColonAt(buf, k1);
      key == JsonString(m.0) && k2 < |buf| && buf[k2] == ':'
      && ReadValue(buf, NextAt(buf, k2).1, false) == Ok((m.1, e))
  }

  /** The object opened at `j` holds the members `ms`, at `ps` and ending at `es`, with gaps between them. */
  ghost predicate ObjectLaidOut(buf: seq<char>, j: nat, ms: seq<(seq<int>, JsonObject)>, ps: seq<nat>, es: seq<nat>)
  {
    j < |buf| && buf[j] == '{'
    && |ps| == |ms| && |es| == |ms|
    && (forall i {:trigger MemberAt(buf, ps[i], ms[i], es[i])} | 0 <= i < |ms| :: MemberAt(buf, ps[i], ms[i], es[i]))
    && (|ms| == 0 || Gap(buf, NextAt(buf, j).1, ps[0]))
    && (forall i | 0 <= i < |ms| - 1 :: es[i] <= |buf| && Gap(buf, es[i], ps[i + 1]))
  }

  /** Where the object loop stands after the first `n` members. */
  ghost function ObjectAfter(buf: seq<char>, j: nat, ms: seq<(seq<int>, JsonObject)>, ps: seq<nat>, es: seq<nat>, n: nat): (k: nat)
    requires ObjectLaidOut(buf, j, ms, ps, es) && n <= |ms|
    ensures k <= |buf|
  {
    if n == 0 then NextAt(buf, j).1
    else assert MemberAt(buf, ps[n - 1], ms[n - 1], es[n - 1]); es[n - 1]
  }

  /** A gap changes neither the members collected nor the outcome. */
  lemma {:induction false} GapSkipped(buf: seq<char>, a: nat, b: nat, members: seq<(seq<int>, JsonObject)>)
    requires a <= |buf| && Gap(buf, a, b)
    ensures b <= |buf|
    ensures ObjectLoop(buf, a, members) == ObjectLoop(buf, b, members)
    decreases |buf| - a
  {
    if a == b {
    } else if a < |buf| && IsJsonSpace(buf[a]) && Gap(buf, a + 1, b) {
      assert ObjectTurnAt(buf, a) == Skipped(a + 1);
      GapSkipped(buf, a + 1, b, members);
    } else {
      var k1 := NextAt(buf, a).1;
      assert ObjectTurnAt(buf, a) == Skipped(k1);
      GapSkipped(buf, k1, b, members);
    }
  }

  /** A turn of the object loop that reads the member laid out at `p`. */
  lemma MemberRead(buf: seq<char>, p: nat, m: (seq<int>, JsonObject), e: nat, members: seq<(seq<int>, JsonObject)>)
    requires MemberAt(buf, p, m, e)
    ensures e <= |buf|
    ensures ObjectLoop(buf, p, members) == ObjectLoop(buf, e, members + [m])
  {
    assert ObjectTurnAt(buf, p) == Element(m, e);
  }

  /** Member `n` is read right after member `n - 1`, or first. */
  lemma MemberStep(buf: seq<char>, j: nat, ms: seq<(seq<int>, JsonObject)>, ps: seq<nat>, es: seq<nat>, n: nat)
    requires ObjectLaidOut(buf, j, ms, ps, es) && n < |ms|
    ensures ObjectLoop(buf, ObjectAfter(buf, j, ms, ps, es, n), ms[..n])
         == ObjectLoop(buf, ObjectAfter(buf, j, ms, ps, es, n + 1), ms[..n + 1])
  {
    var k := ObjectAfter(buf, j, ms, ps, es, n);
    assert MemberAt(buf, ps[n], ms[n], es[n]);
    assert ms[..n] + [ms[n]] == ms[..n + 1];
    assert Gap(buf, k, ps[n]);
    GapSkipped(buf, k, ps[n], ms[..n]);
    MemberRead(buf, ps[n], ms[n], es[n], ms[..n]);
  }

  /** After the first `n` members, the object read goes on from their end with them collected in order. */
  lemma {:induction false} ObjectSteps(buf: seq<char>, j: nat, ms: seq<(seq<int>, JsonObject)>, ps: seq<nat>, es: seq<nat>, n: nat)
    requires ObjectLaidOut(buf, j, ms, ps, es) && n <= |ms|
    ensures ReadObject(buf, j) == ObjectLoop(buf, ObjectAfter(buf, j, ms, ps, es, n), ms[..n])
  {
    if n == 0 {
      assert ms[..0] == [];
    } else {
      var m := n - 1;
      ObjectSteps(buf, j, ms, ps, es, m);
      MemberStep(buf, j, ms, ps, es, m);
      assert m + 1 == n;
    }
  }

  /** The object read after all of `ms` and a gap up to `c`. */
  lemma ObjectPrefix(buf: seq<char>, j: nat, ms: seq<(seq<int>, JsonObject)>, ps: seq<nat>, es: seq<nat>, c: nat)
    requires ObjectLaidOut(buf, j, ms, ps, es)
    requires Gap(buf, ObjectAfter(buf, j, ms, ps, es, |ms|), c)
    ensures c <= |buf|
    ensures ReadObject(buf, j) == ObjectLoop(buf, c, ms)
  {
    ObjectSteps(buf, j, ms, ps, es, |ms|);
    assert ms[..|ms|] == ms;
    GapSkipped(buf, ObjectAfter(buf, j, ms, ps, es, |ms|), c, ms);
  }

  /** Members laid out in order and then a `}` read as the object of exactly those members, in that order. */
  lemma ObjectOrder(buf: seq<char>, j: nat, ms: seq<(seq<int>, JsonObject)>, ps: seq<nat>, es: seq<nat>, c: nat)
    requires ObjectLaidOut(buf, j, ms, ps, es)
    requires Gap(buf, ObjectAfter(buf, j, ms, ps, es, |ms|), c) && c < |buf| && buf[c] == '}'
    ensures ReadObject(buf, j) == Ok((Object(ms), NextAt(buf, c).1))
  {
    ObjectPrefix(buf, j, ms, ps, es, c);
  }

  /** Input that ends after the members and a gap leaves the object unterminated. */
  lemma ObjectUnterminated(buf: seq<char>, j: nat, ms: seq<(seq<int>, JsonObject)>, ps: seq<nat>, es: seq<nat>)
    requires ObjectLaidOut(buf, j, ms, ps, es)
    requires Gap(buf, ObjectAfter(buf, j, ms, ps, es, |ms|), |buf|)
    ensures ReadObject(buf, j) == Err(UnterminatedObject)
  {
    ObjectPrefix(buf, j, ms, ps, es, |buf|);
  }

  /** After any run of members, a comma followed by `}` is refused at the `}`. */
  lemma ObjectTrailingComma(buf: seq<char>, j: nat, ms: seq<(seq<int>, JsonObject)>, ps: seq<nat>, es: seq<nat>, c: nat)
    requires ObjectLaidOut(buf, j, ms, ps, es)
    requires Gap(buf, ObjectAfter(buf, j, ms, ps, es, |ms|), c) && c < |buf| && buf[c] == ','
    requires NextAt(buf, c).1 < |buf| && buf[NextAt(buf, c).1] == '}'
    ensures ReadObject(buf, j) == Err(InvalidChar('}', NextAt(buf, c).1))
  {
    ObjectPrefix(buf, j, ms, ps, es, c);
  }

  /** After any run of members, a string key not followed by `:` (after at most one whitespace step) is refused. */
  lemma ObjectMissingColon(buf: seq<char>, j: nat, ms: seq<(seq<int>, JsonObject)>, ps: seq<nat>, es: seq<nat>, c: nat)
    requires ObjectLaidOut(buf, j, ms, ps, es)
    requires Gap(buf, ObjectAfter(buf, j, ms, ps, es, |ms|), c) && c < |buf| && buf[c] == '"'
    requires ReadString(buf, c).Ok?
    requires var k2 := ColonAt(buf, ReadString(buf, c).value.1); !(k2 < |buf| && buf[k2] == ':')
    ensures ReadObject(buf, j) == Err(NonStringAsKey)
  {
    ObjectPrefix(buf, j, ms, ps, es, c);
  }

  /** After any run of members, a character that starts neither a key, a gap nor the close is refused where it stands. */
  lemma ObjectStrayChar(buf: seq<char>, j: nat, ms: seq<(seq<int>, JsonObject)>, ps: seq<nat>, es: seq<nat>, c: nat)
    requires ObjectLaidOut(buf, j, ms, ps, es)
    requires Gap(buf, ObjectAfter(buf, j, ms, ps, es, |ms|), c) && c < |buf|
    requires buf[c] != '"' && buf[c] != '}' && buf[c] != ',' && !IsJsonSpace(buf[c])
    ensures ReadObject(buf, j) == Err(InvalidChar(buf[c], c))
  {
    ObjectPrefix(buf, j, ms, ps, es, c);
  }

  /** After any run of members, a key or a value that fails to read fails the object with its error. */
  lemma ObjectMemberFails(buf: seq<char>, j: nat, ms: seq<(seq<int>, JsonObject)>, ps: seq<nat>, es: seq<nat>, c: nat, e: JsonError)
    requires ObjectLaidOut(buf, j, ms, ps, es)
    requires Gap(buf, ObjectAfter(buf, j, ms, ps, es, |ms|), c) && c < |buf| && buf[c] == '"'
    requires match ReadString(buf, c)
             case Err(e1) => e1 == e
             case Ok((_, k1)) =>
               var k2 := ColonAt(buf, k1);
               k2 < |buf| && buf[k2] == ':' && ReadValue(buf, NextAt(buf, k2).1, false) == Err(e)
    ensures ReadObject(buf, j) == Err(e)
  {
    ObjectPrefix(buf, j, ms, ps, es, c);
  }
}
