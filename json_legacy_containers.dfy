/**
 * The order and the separator rules of the rjson array reader, lifted from
 * one turn of its loop to a whole array, for either reading of the closing
 * bracket. Unlike the 02_rjson reader, a comma may come before the first
 * element. The elements are values read at the given positions; as written
 * (`closes` false) an element that is itself an array ends on its `]`,
 * which no separator can follow, so the lemmas below are about arrays
 * whose elements are not arrays.
 */
module JsonLegacyContainers {
  import opened Wrappers
  import opened JsonText
  import opened JsonLegacy
  import Containers = JsonContainers

  /** The value `v` is read at `p`, which starts an element, and ends at `e`. */
  ghost predicate ElementAt(buf: seq<char>, p: nat, v: JsonObject, e: nat, closes: bool) {
    p < |buf| && Containers.StartsElement(buf[p]) && ReadValue(buf, p, closes) == Ok((v, e))
  }

  /**
   * The array opened at `j` holds the values `vs`: `vs[i]` is read at
   * `ps[i]` and ends at `es[i]`, and each is separated from the `[` or from
   * the element before it by whitespace and at most one comma.
   */
  ghost predicate ArrayLaidOut(buf: seq<char>, j: nat, vs: seq<JsonObject>, ps: seq<nat>, es: seq<nat>, closes: bool)
  {
    j < |buf| && buf[j] == '['
    && |ps| == |vs| && |es| == |vs|
    && (forall i {:trigger ElementAt(buf, ps[i], vs[i], es[i], closes)} | 0 <= i < |vs| ::
          ElementAt(buf, ps[i], vs[i], es[i], closes))
    && (|vs| == 0 || Containers.Separated(buf, j + 1, ps[0]))
    && (forall i | 0 <= i < |vs| - 1 :: es[i] <= |buf| && Containers.Separated(buf, es[i], ps[i + 1]))
  }

  /** Where the array loop stands after the first `n` elements. */
  ghost function ArrayAfter(buf: seq<char>, j: nat, vs: seq<JsonObject>, ps: seq<nat>, es: seq<nat>, closes: bool, n: nat): (k: nat)
    requires ArrayLaidOut(buf, j, vs, ps, es, closes) && n <= |vs|
    ensures k <= |buf|
  {
    if n == 0 then j + 1
    else assert ElementAt(buf, ps[n - 1], vs[n - 1], es[n - 1], closes); es[n - 1]
  }

  /** A separator and then the element at `p`, read in one or two turns. */
  lemma SeparatedRead(buf: seq<char>, k: nat, elements: seq<JsonObject>, p: nat, v: JsonObject, e: nat, closes: bool)
    requires k <= |buf| && Containers.Separated(buf, k, p) && ElementAt(buf, p, v, e, closes)
    ensures ArrayLoop(buf, k, elements, closes) == ArrayLoop(buf, e, elements + [v], closes)
  {
    assert SkipWs(buf, p) == p;
    assert ArrayTurnAt(buf, p, closes) == Element(v, e);
    if SkipWs(buf, k) != p {
      assert ArrayTurnAt(buf, k, closes) == Skipped(p);
    }
  }

  /** Element `n` is read right after element `n - 1`, or first. */
  lemma ElementStep(buf: seq<char>, j: nat, vs: seq<JsonObject>, ps: seq<nat>, es: seq<nat>, closes: bool, n: nat)
    requires ArrayLaidOut(buf, j, vs, ps, es, closes) && n < |vs|
    ensures ArrayLoop(buf, ArrayAfter(buf, j, vs, ps, es, closes, n), vs[..n], closes)
         == ArrayLoop(buf, ArrayAfter(buf, j, vs, ps, es, closes, n + 1), vs[..n + 1], closes)
  {
    var k := ArrayAfter(buf, j, vs, ps, es, closes, n);
    assert ElementAt(buf, ps[n], vs[n], es[n], closes);
    assert vs[..n] + [vs[n]] == vs[..n + 1];
    if n > 0 {
      assert Containers.Separated(buf, es[n - 1], ps[n]);
    }
    SeparatedRead(buf, k, vs[..n], ps[n], vs[n], es[n], closes);
  }

  /** After the first `n` elements, the array read goes on from their end with them collected in order. */
  lemma {:induction false} ArraySteps(buf: seq<char>, j: nat, vs: seq<JsonObject>, ps: seq<nat>, es: seq<nat>, closes: bool, n: nat)
    requires ArrayLaidOut(buf, j, vs, ps, es, closes) && n <= |vs|
    ensures ReadArray(buf, j, closes) == ArrayLoop(buf, ArrayAfter(buf, j, vs, ps, es, closes, n), vs[..n], closes)
  {
    if n == 0 {
      assert vs[..0] == [];
      SkipWsIdempotent(buf, j + 1);
      assert ArrayTurnAt(buf, SkipWs(buf, j + 1), closes) == ArrayTurnAt(buf, j + 1, closes);
    } else {
      var m := n - 1;
      ArraySteps(buf, j, vs, ps, es, closes, m);
      ElementStep(buf, j, vs, ps, es, closes, m);
      assert m + 1 == n;
    }
  }

  /** The array read after all of `vs`. */
  lemma ArrayPrefix(buf: seq<char>, j: nat, vs: seq<JsonObject>, ps: seq<nat>, es: seq<nat>, closes: bool)
    requires ArrayLaidOut(buf, j, vs, ps, es, closes)
    ensures ReadArray(buf, j, closes) == ArrayLoop(buf, ArrayAfter(buf, j, vs, ps, es, closes, |vs|), vs, closes)
  {
    ArraySteps(buf, j, vs, ps, es, closes, |vs|);
    assert vs[..|vs|] == vs;
  }

  /**
   * Elements laid out in order and then a `]` read as the array of exactly
   * those elements, in that order, ending on the `]` as written and after
   * it when `closes`.
   */
  lemma ArrayOrder(buf: seq<char>, j: nat, vs: seq<JsonObject>, ps: seq<nat>, es: seq<nat>, closes: bool)
    requires ArrayLaidOut(buf, j, vs, ps, es, closes)
    requires var c := SkipWs(buf, ArrayAfter(buf, j, vs, ps, es, closes, |vs|)); c < |buf| && buf[c] == ']'
    ensures var c := SkipWs(buf, ArrayAfter(buf, j, vs, ps, es, closes, |vs|));
            ReadArray(buf, j, closes) == Ok((Array(vs), if closes then c + 1 else c))
  {
    ArrayPrefix(buf, j, vs, ps, es, closes);
  }

  /** Input that ends after the elements, or after a comma that follows them, leaves the array unterminated. */
  lemma ArrayUnterminated(buf: seq<char>, j: nat, vs: seq<JsonObject>, ps: seq<nat>, es: seq<nat>, closes: bool)
    requires ArrayLaidOut(buf, j, vs, ps, es, closes)
    requires var c := SkipWs(buf, ArrayAfter(buf, j, vs, ps, es, closes, |vs|));
             c == |buf| || (buf[c] == ',' && SkipWs(buf, c + 1) == |buf|)
    ensures ReadArray(buf, j, closes) == Err(UnterminatedArray)
  {
    ArrayPrefix(buf, j, vs, ps, es, closes);
    var k := ArrayAfter(buf, j, vs, ps, es, closes, |vs|);
    if SkipWs(buf, k) < |buf| {
      assert ArrayTurnAt(buf, k, closes) == Skipped(|buf|);
      assert ArrayTurnAt(buf, |buf|, closes) == Failed(UnterminatedArray);
    }
  }

  /** After any run of elements, or none, a comma followed by another comma or by `]` is refused at the second character. */
  lemma ArrayCommaRefused(buf: seq<char>, j: nat, vs: seq<JsonObject>, ps: seq<nat>, es: seq<nat>, closes: bool)
    requires ArrayLaidOut(buf, j, vs, ps, es, closes)
    requires var c := SkipWs(buf, ArrayAfter(buf, j, vs, ps, es, closes, |vs|));
             c < |buf| && buf[c] == ',' && SkipWs(buf, c + 1) < |buf| && buf[SkipWs(buf, c + 1)] in {',', ']'}
    ensures var k1 := SkipWs(buf, SkipWs(buf, ArrayAfter(buf, j, vs, ps, es, closes, |vs|)) + 1);
            ReadArray(buf, j, closes) == Err(InvalidChar(buf[k1], k1))
  {
    ArrayPrefix(buf, j, vs, ps, es, closes);
  }

  /** After any run of elements, an element that fails to read, with or without a comma before it, fails the array with its error. */
  lemma ArrayElementFails(buf: seq<char>, j: nat, vs: seq<JsonObject>, ps: seq<nat>, es: seq<nat>, closes: bool, p: nat, e: JsonError)
    requires ArrayLaidOut(buf, j, vs, ps, es, closes)
    requires Containers.Separated(buf, ArrayAfter(buf, j, vs, ps, es, closes, |vs|), p)
    requires p < |buf| && Containers.StartsElement(buf[p]) && ReadValue(buf, p, closes) == Err(e)
    ensures ReadArray(buf, j, closes) == Err(e)
  {
    ArrayPrefix(buf, j, vs, ps, es, closes);
    var k := ArrayAfter(buf, j, vs, ps, es, closes, |vs|);
    assert SkipWs(buf, p) == p;
    assert ArrayTurnAt(buf, p, closes) == Failed(e);
    if SkipWs(buf, k) != p {
      assert ArrayTurnAt(buf, k, closes) == Skipped(p);
    }
  }
}
