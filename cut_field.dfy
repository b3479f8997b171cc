/**
 * The field lists of the `cut` clone (04_rcut): a `Field` is a range of
 * 1-based positions whose ends may be left open, `Field::parse` reads one
 * range from text, and `parse_ranges` reads a list of them separated by
 * commas or whitespace.
 *
 * The regular expressions of the source become explicit scanners: the
 * capture expression for one range is `DigitRun` plus a test for `-`, and
 * the splitting expression for a list is `SplitList`. An `unwrap` on an
 * error panics; that outcome is the `Panic` case of `Outcome`.
 */
module CutField {
  import opened Wrappers

  /** The largest `usize` on a 64-bit target. */
  const UsizeMax: nat := 0xFFFF_FFFF_FFFF_FFFF

  /** A computation that returns a value or panics. */
  datatype Outcome<T> = Value(value: T) | Panic

  // ---------------------------------------------------------------------
  // Characters and decimal numbers
  // ---------------------------------------------------------------------

  /** The characters with the Unicode White_Space property, which `\s` and `split_whitespace` use. */
  predicate IsSpace(c: char) {
    ('\t' <= c <= '\r') || c == ' ' || c == '\U{0085}' || c == '\U{00A0}' || c == '\U{1680}'
    || ('\U{2000}' <= c <= '\U{200A}') || c == '\U{2028}' || c == '\U{2029}' || c == '\U{202F}'
    || c == '\U{205F}' || c == '\U{3000}'
  }

  predicate IsDigit(c: char) {
    '0' <= c <= '9'
  }

  predicate AllDigits(s: seq<char>) {
    forall k | 0 <= k < |s| :: IsDigit(s[k])
  }

  /** The end of the run of digits that starts at `i`. */
  function DigitRun(s: seq<char>, i: nat): (j: nat)
    requires i <= |s|
    ensures i <= j <= |s| && AllDigits(s[i..j])
    ensures j == |s| || !IsDigit(s[j])
    decreases |s| - i
  {
    if i < |s| && IsDigit(s[i]) then DigitRun(s, i + 1) else i
  }

  /** The value of a string of decimal digits, most significant first. */
  function DecimalValue(s: seq<char>): nat
    requires AllDigits(s)
  {
    if s == [] then 0
    else 10 * DecimalValue(s[..|s| - 1]) + (s[|s| - 1] as int - '0' as int)
  }

  /** The decimal numeral of `n`, without leading zeros. */
  function Decimal(n: nat): (s: seq<char>)
    ensures |s| > 0 && AllDigits(s) && DecimalValue(s) == n
    ensures s[0] != '0' || n == 0
  {
    var last := ['0' + (n % 10) as char];
    if n < 10 then last
    else
      var s := Decimal(n / 10) + last;
      assert s[..|s| - 1] == Decimal(n / 10);
      s
  }

  /**
   * `str::parse::<usize>`: an optional `+` and then at least one digit,
   * with a value that fits a `usize`.
   */
  function ParseUsize(s: seq<char>): (r: Option<nat>)
    ensures r.Some? ==> r.value <= UsizeMax && 0 < |s| && (s[0] == '+' || IsDigit(s[0]))
    ensures r.Some? ==> '-' !in s
  {
    var digits := if 0 < |s| && s[0] == '+' then s[1..] else s;
    if digits != [] && AllDigits(digits) && DecimalValue(digits) <= UsizeMax then
      assert forall k | 0 < k < |s| :: s[k] in digits;
      Some(DecimalValue(digits))
    else None
  }

  lemma ParseDecimal(n: nat)
    requires n <= UsizeMax
    ensures ParseUsize(Decimal(n)) == Some(n)
    ensures ParseUsize(['+'] + Decimal(n)) == Some(n)
  {
    assert (['+'] + Decimal(n))[1..] == Decimal(n);
  }

  // ---------------------------------------------------------------------
  // Fields
  // ---------------------------------------------------------------------

  /** The ascending run of positions from `lo` to `hi` inclusive; empty when `lo > hi`. */
  function Interval(lo: nat, hi: nat): (r: seq<nat>)
    ensures |r| == if lo <= hi then hi - lo + 1 else 0
    ensures forall k | 0 <= k < |r| :: r[k] == lo + k
    decreases if lo <= hi then hi - lo + 1 else 0
  {
    if lo > hi then [] else [lo] + Interval(lo + 1, hi)
  }

  lemma IntervalMembers(lo: nat, hi: nat)
    ensures forall n :: n in Interval(lo, hi) <==> lo <= n <= hi
  {
    forall n | lo <= n <= hi ensures n in Interval(lo, hi) {
      assert Interval(lo, hi)[n - lo] == n;
    }
  }

  /** `Field`: a range of 1-based positions; a missing end is open. */
  datatype Field = Field(from: Option<nat>, to: Option<nat>)
  {
    /** The first position: `from`, or 1 when the range is open at the start. */
    function First(): nat {
      match from
      case Some(n) => n
      case None => 1
    }

    /** The last position: `to`, or `maxFields` when the range is open at the end. */
    function Last(maxFields: nat): nat {
      match to
      case Some(n) => n
      case None => maxFields
    }

    /** `values`: the positions of the range, in ascending order. */
    function Values(maxFields: nat): (r: seq<nat>)
      ensures forall n :: n in r <==> First() <= n <= Last(maxFields)
      ensures forall k | 0 < k < |r| :: r[k - 1] < r[k]
    {
      IntervalMembers(First(), Last(maxFields));
      Interval(First(), Last(maxFields))
    }

    /** `is_from_start`: the range is open at the start. */
    predicate IsFromStart()
      ensures IsFromStart() ==> forall m: nat :: Values(m) == Interval(1, Last(m))
    {
      from.None?
    }

    /** `is_till_end`: the range is open at the end. */
    predicate IsTillEnd()
      ensures IsTillEnd() ==> forall m: nat :: Values(m) == Interval(First(), m)
    {
      to.None?
    }
  }

  /** `Field::single`. */
  function Single(n: nat): (f: Field)
    ensures f.First() == n && forall m: nat :: f.Last(m) == n
  {
    Field(Some(n), Some(n))
  }

  /** `Field::from`. */
  function From(n: nat): (f: Field)
    ensures !f.IsFromStart() && f.IsTillEnd() && f.First() == n
  {
    Field(Some(n), None)
  }

  /** `Field::to`. */
  function To(n: nat): (f: Field)
    ensures f.IsFromStart() && !f.IsTillEnd() && forall m: nat :: f.Last(m) == n
  {
    Field(None, Some(n))
  }

  /** `Field::range`. */
  function Range(a: nat, b: nat): (f: Field)
    ensures !f.IsFromStart() && !f.IsTillEnd() && f.First() == a && forall m: nat :: f.Last(m) == b
  {
    Field(Some(a), Some(b))
  }

  /** A single field stands for its own position, whatever the number of fields. */
  lemma SingleValues(n: nat, maxFields: nat)
    ensures Single(n).Values(maxFields) == [n]
  {
  }

  /** A range open at the start begins at 1, one open at the end stops at the number of fields. */
  lemma OpenEnds(f: Field, maxFields: nat)
    ensures f.IsFromStart() ==> f.Values(maxFields) == Interval(1, f.Last(maxFields))
    ensures f.IsTillEnd() ==> f.Values(maxFields) == Interval(f.First(), maxFields)
    ensures !f.IsFromStart() && !f.IsTillEnd() ==> f.Values(maxFields) == Interval(f.from.value, f.to.value)
  {
  }

  lemma ConstructorValues(a: nat, b: nat, maxFields: nat)
    ensures From(a).Values(maxFields) == Interval(a, maxFields)
    ensures To(b).Values(maxFields) == Interval(1, b)
    ensures Range(a, b).Values(maxFields) == Interval(a, b)
    ensures a > b ==> Range(a, b).Values(maxFields) == []
  {
  }

  // ---------------------------------------------------------------------
  // Reading one field
  // ---------------------------------------------------------------------

  /** The capture expression finds a `-` right after the leading run of digits. */
  predicate HasRange(input: seq<char>) {
    var a := DigitRun(input, 0);
    a < |input| && input[a] == '-'
  }

  /**
   * `Field::parse`. With a `-` after the leading digits, each side is the
   * digits next to it, or open when there are none or they overflow a
   * `usize`. Without one, the whole text must be a `usize` (the `unwrap`
   * panics otherwise). The capture always matches, at least the empty
   * text, so the error result is never returned.
   */
  function Parse(input: seq<char>): (r: Outcome<Field>)
    ensures r.Panic? ==> ParseUsize(input).None?
    ensures ParseUsize(input).Some? ==> r == Value(Single(ParseUsize(input).value))
  {
    var a := DigitRun(input, 0);
    if a < |input| && input[a] == '-' then
      var b := DigitRun(input, a + 1);
      Value(Field(if a == 0 then None else ParseUsize(input[..a]),
                  if b == a + 1 then None else ParseUsize(input[a + 1..b])))
    else
      match ParseUsize(input)
      case Some(n) => Value(Single(n))
      case None => Panic
  }

  /** The numeral of a position reads as that single position. */
  lemma ParseSingle(n: nat)
    requires n <= UsizeMax
    ensures Parse(Decimal(n)) == Value(Single(n))
  {
    ParseDecimal(n);
  }

  /** `a-b` reads as the range from `a` to `b`. */
  lemma ParseRange(a: nat, b: nat)
    requires a <= UsizeMax && b <= UsizeMax
    ensures Parse(Decimal(a) + "-" + Decimal(b)) == Value(Range(a, b))
  {
    ParseDecimal(a);
    ParseDecimal(b);
    ParseDashed(Decimal(a), Decimal(b));
  }

  /** `-b` reads as the range open at the start. */
  lemma ParseTo(b: nat)
    requires b <= UsizeMax
    ensures Parse("-" + Decimal(b)) == Value(To(b))
  {
    ParseOpenStart(Decimal(b));
    ParseDecimal(b);
  }

  /** Digits after a dash read as a range open at the start. */
  lemma ParseOpenStart(t: seq<char>)
    requires AllDigits(t) && t != []
    ensures Parse("-" + t) == Value(Field(None, ParseUsize(t)))
  {
    ParseDashed([], t);
    assert [] + "-" + t == "-" + t;
  }

  /** `a-` reads as the range open at the end. */
  lemma ParseFrom(a: nat)
    requires a <= UsizeMax
    ensures Parse(Decimal(a) + "-") == Value(From(a))
  {
    ParseDecimal(a);
    ParseDashed(Decimal(a), []);
    assert Decimal(a) + "-" + [] == Decimal(a) + "-";
  }

  /** Digits, a dash and digits read as a range whose missing ends are open. */
  lemma ParseDashed(s: seq<char>, t: seq<char>)
    requires AllDigits(s) && AllDigits(t)
    ensures Parse(s + "-" + t) == Value(Field(if s == [] then None else ParseUsize(s),
                                              if t == [] then None else ParseUsize(t)))
  {
    DashBetween(s, t);
    var u := s + "-" + t;
    ParseDash(u, |s|, |u|);
    assert u[|s| + 1..|u|] == t;
    assert (|u| == |s| + 1) == (t == []);
  }

  /** Where the two runs of digits around a dash end. */
  lemma DashBetween(s: seq<char>, t: seq<char>)
    requires AllDigits(s) && AllDigits(t)
    ensures var u := s + "-" + t;
            DigitRun(u, 0) == |s| && u[|s|] == '-' && DigitRun(u, |s| + 1) == |u| &&
            u[..|s|] == s && u[|s| + 1..] == t
  {
    var u := s + "-" + t;
    DigitRunAt(u, 0, |s|);
    DigitRunAt(u, |s| + 1, |u|);
    assert u[..|s|] == s;
    assert u[|s| + 1..] == t;
  }

  /** The range branch of `Parse`, once the two runs of digits are known. */
  lemma ParseDash(input: seq<char>, a: nat, b: nat)
    requires a < |input| && DigitRun(input, 0) == a && input[a] == '-' && DigitRun(input, a + 1) == b
    ensures Parse(input) == Value(Field(if a == 0 then None else ParseUsize(input[..a]),
                                        if b == a + 1 then None else ParseUsize(input[a + 1..b])))
  {
  }

  lemma {:induction false} DigitRunAt(s: seq<char>, i: nat, j: nat)
    requires i <= j <= |s| && forall k | i <= k < j :: IsDigit(s[k])
    requires j == |s| || !IsDigit(s[j])
    ensures DigitRun(s, i) == j
    decreases j - i
  {
    if i < j {
      DigitRunAt(s, i + 1, j);
    }
  }

  // ---------------------------------------------------------------------
  // Reading a list of fields
  // ---------------------------------------------------------------------

  /** No separator of the list occurs in `p`. */
  predicate Unseparated(p: seq<char>) {
    forall k | 0 <= k < |p| :: p[k] != ',' && !IsSpace(p[k])
  }

  /** The end of the run of whitespace that starts at `i`. */
  function SpaceRun(s: seq<char>, i: nat): (j: nat)
    requires i <= |s|
    ensures i <= j <= |s| && (j == |s| || !IsSpace(s[j]))
    decreases |s| - i
  {
    if i < |s| && IsSpace(s[i]) then SpaceRun(s, i + 1) else i
  }

  /**
   * The split on `(\s+)|,`: the pieces between the separators, which are
   * single commas and whole runs of whitespace. Two separators in a row
   * leave an empty piece between them.
   */
  function SplitList(s: seq<char>): (pieces: seq<seq<char>>)
    ensures |pieces| >= 1
    ensures forall k | 0 <= k < |pieces| :: Unseparated(pieces[k])
    decreases |s|
  {
    if s == [] then [[]]
    else if s[0] == ',' then [[]] + SplitList(s[1..])
    else if IsSpace(s[0]) then [[]] + SplitList(s[SpaceRun(s, 0)..])
    else
      var rest := SplitList(s[1..]);
      [[s[0]] + rest[0]] + rest[1..]
  }

  /** The pieces put back together with `sep` between each two. */
  function Join(pieces: seq<seq<char>>, sep: seq<char>): (s: seq<char>)
    ensures |pieces| == 1 ==> s == pieces[0]
  {
    if pieces == [] then []
    else if |pieces| == 1 then pieces[0]
    else pieces[0] + sep + Join(pieces[1..], sep)
  }

  /** Splitting a comma-separated list gives back the pieces it was made of, in order. */
  lemma {:induction false} SplitJoin(pieces: seq<seq<char>>)
    requires |pieces| >= 1 && forall k | 0 <= k < |pieces| :: Unseparated(pieces[k])
    ensures SplitList(Join(pieces, ",")) == pieces
    decreases |Join(pieces, ",")|
  {
    var s := Join(pieces, ",");
    var p := pieces[0];
    assert Unseparated(p);
    if |pieces| == 1 {
      if p != [] {
        assert p[0] != ',' && !IsSpace(p[0]);
        assert Unseparated(p[1..]);
        SplitJoin([p[1..]]);
        assert s[1..] == p[1..];
        assert [p[0]] + p[1..] == p;
      }
    } else if p == [] {
      assert s == "," + Join(pieces[1..], ",");
      assert s[1..] == Join(pieces[1..], ",");
      SplitJoin(pieces[1..]);
      assert [[]] + pieces[1..] == pieces;
    } else {
      var shorter := [p[1..]] + pieces[1..];
      assert shorter[1..] == pieces[1..];
      assert Join(shorter, ",") == p[1..] + "," + Join(pieces[1..], ",");
      assert s == [p[0]] + Join(shorter, ",");
      assert s[1..] == Join(shorter, ",");
      assert p[0] != ',' && !IsSpace(p[0]);
      assert Unseparated(p[1..]);
      SplitJoin(shorter);
      assert [p[0]] + p[1..] == p;
      assert [p] + pieces[1..] == pieces;
    }
  }

  /** `Field::parse` on every piece, in order; a piece that panics makes the whole list panic. */
  function ParseAll(pieces: seq<seq<char>>): (r: Outcome<seq<Field>>)
    ensures r.Value? <==> forall k | 0 <= k < |pieces| :: Parse(pieces[k]).Value?
    ensures r.Value? ==> |r.value| == |pieces| && forall k | 0 <= k < |pieces| :: Parse(pieces[k]) == Value(r.value[k])
  {
    if pieces == [] then Value([])
    else
      match Parse(pieces[0])
      case Panic => Panic
      case Value(f) =>
        match ParseAll(pieces[1..])
        case Panic => Panic
        case Value(fs) => Value([f] + fs)
  }

  /** `parse_ranges`. */
  function ParseRanges(list: seq<char>): (r: Outcome<seq<Field>>)
    ensures r.Value? <==> forall k | 0 <= k < |SplitList(list)| :: Parse(SplitList(list)[k]).Value?
    ensures r.Value? ==> |r.value| == |SplitList(list)|
    ensures r.Value? ==> forall k | 0 <= k < |SplitList(list)| :: Parse(SplitList(list)[k]) == Value(r.value[k])
  {
    var pieces := SplitList(list);
    assert pieces == SplitList(list);
    ParseAll(pieces)
  }

  /**
   * `parse_ranges` as its `filter_map` over `ok()` means it: a piece that
   * is not a field is left out of the list instead of panicking.
   */
  function ParseKept(pieces: seq<seq<char>>): (r: seq<Field>)
    ensures |r| <= |pieces|
    ensures forall f | f in r :: exists k | 0 <= k < |pieces| :: Parse(pieces[k]) == Value(f)
  {
    if pieces == [] then []
    else
      var rest := ParseKept(pieces[1..]);
      assert forall f | f in rest :: exists k | 0 <= k < |pieces| :: Parse(pieces[k]) == Value(f) by {
        forall f | f in rest ensures exists k | 0 <= k < |pieces| :: Parse(pieces[k]) == Value(f) {
          var k :| 0 <= k < |pieces[1..]| && Parse(pieces[1..][k]) == Value(f);
          assert Parse(pieces[k + 1]) == Value(f);
        }
      }
      match Parse(pieces[0])
      case Panic => rest
      case Value(f) => [f] + rest
  }

  function ParseRangesKept(list: seq<char>): seq<Field> {
    ParseKept(SplitList(list))
  }

  /** Where the parser as written returns a list, the corrected one returns the same list. */
  lemma {:induction false} KeptAgrees(pieces: seq<seq<char>>)
    requires ParseAll(pieces).Value?
    ensures ParseKept(pieces) == ParseAll(pieces).value
  {
    if pieces != [] {
      assert forall k | 0 <= k < |pieces[1..]| :: Parse(pieces[1..][k]).Value? by {
        forall k | 0 <= k < |pieces[1..]| ensures Parse(pieces[1..][k]).Value? {
          assert pieces[1..][k] == pieces[k + 1];
        }
      }
      KeptAgrees(pieces[1..]);
    }
  }
}
