/**
 * The two value types of the core: SetElement, a trimmed text value tagged with
 * the name of its set, and CartesianPair, an ordered pair of elements.
 * Java's equals and hashCode are modelled as functions, because the datatype's
 * own equality also compares set names while SetElement.equals does not.
 */
module Model {
  import opened Outcomes
  import opened JavaText

  // ---------------------------------------------------------------------------
  // SetElement
  // ---------------------------------------------------------------------------

  /**
   * A value and the name of its set. Every element the core builds comes from
   * NewSetElement, whose value is trimmed; the datatype itself does not require
   * it, and the lemmas that need it say IsTrimmed in their requires.
   */
  datatype SetElement = SetElement(value: string, setName: string)

  /**
   * The SetElement(value, setName) constructor: a null value becomes the empty
   * string, any other value is stored trimmed; the set name is stored unchanged.
   */
  function NewSetElement(value: Option<string>, setName: string): (e: SetElement)
    ensures e.setName == setName
    ensures IsTrimmed(e.value)
    ensures value.None? ==> e.value == ""
    ensures value.Some? ==> e.value == Trim(value.value)
  {
    SetElement(if value.Some? then Trim(value.value) else "", setName)
  }

  /** A value that is already trimmed is stored exactly as given. */
  lemma NewSetElementKeepsTrimmed(value: string, setName: string)
    requires IsTrimmed(value)
    ensures NewSetElement(Some(value), setName) == SetElement(value, setName)
  {
    TrimTrimmed(value);
  }

  /** SetElement.equals: equal values, whatever the set names. */
  predicate ElementEquals(a: SetElement, b: SetElement) {
    a.value == b.value
  }

  /** Elements from different sets with the same text are equal; elements with different text never are. */
  lemma ElementEqualsIgnoresSetName(a: SetElement, b: SetElement)
    ensures ElementEquals(a, b) <==> a == SetElement(b.value, a.setName)
  {
  }

  /** SetElement.equals is an equivalence relation. */
  lemma ElementEqualsIsEquivalence(a: SetElement, b: SetElement, c: SetElement)
    ensures ElementEquals(a, a)
    ensures ElementEquals(a, b) ==> ElementEquals(b, a)
    ensures ElementEquals(a, b) && ElementEquals(b, c) ==> ElementEquals(a, c)
  {
  }

  /** SetElement.hashCode, which is Objects.hash(value): 31 + value.hashCode() in int arithmetic. */
  function ElementHashCode(e: SetElement): (h: int)
    ensures IsInt(h)
  {
    WrapInt(31 + StringHash(e.value))
  }

  /** Equal elements have equal hash codes. */
  lemma ElementHashAgreesWithEquals(a: SetElement, b: SetElement)
    requires ElementEquals(a, b)
    ensures ElementHashCode(a) == ElementHashCode(b)
  {
  }

  /** SetElement.toString: the value. */
  function ElementToString(e: SetElement): string
  {
    e.value
  }

  /** Two elements display alike exactly when they are equal. */
  lemma ElementToStringIsEqualityKey(a: SetElement, b: SetElement)
    ensures ElementToString(a) == ElementToString(b) <==> ElementEquals(a, b)
  {
  }

  // ---------------------------------------------------------------------------
  // Numeric coercion (Double.parseDouble and double arithmetic, uninterpreted)
  // ---------------------------------------------------------------------------

  /**
   * The floating-point operations the core calls, as parameters: whether a text
   * is accepted by Double.parseDouble, the double it denotes, and double + and *.
   */
  datatype Numerics<!D> = Numerics(
    isNumeric: string -> bool,
    parse: string -> D,
    add: (D, D) -> D,
    multiply: (D, D) -> D)

  /** SetElement.isNumeric: the value parses as a double. */
  predicate IsNumeric(e: SetElement, isNumeric: string -> bool) {
    isNumeric(e.value)
  }

  /** SetElement.getNumericValue: the parsed value, or null when the value is not numeric. */
  function GetNumericValue<D>(e: SetElement, num: Numerics<D>): (r: Option<D>)
    ensures r.None? <==> !IsNumeric(e, num.isNumeric)
    ensures r.Some? ==> r.value == num.parse(e.value)
  {
    if IsNumeric(e, num.isNumeric) then Some(num.parse(e.value)) else None
  }

  // ---------------------------------------------------------------------------
  // CartesianPair
  // ---------------------------------------------------------------------------

  /** An ordered pair (first, second). */
  datatype CartesianPair = CartesianPair(first: SetElement, second: SetElement)

  /** The CartesianPair constructor: IllegalArgumentException when either member is null. */
  function NewPair(first: Option<SetElement>, second: Option<SetElement>): (r: Result<CartesianPair>)
    ensures r.Success? <==> first.Some? && second.Some?
    ensures r.Success? ==> r.value.first == first.value && r.value.second == second.value
    ensures r.Failure? ==> r.message == "Pair elements cannot be null"
  {
    if first.None? || second.None? then Failure("Pair elements cannot be null")
    else Success(CartesianPair(first.value, second.value))
  }

  /** CartesianPair.isNumericPair: both members are numeric. */
  predicate IsNumericPair(p: CartesianPair, isNumeric: string -> bool) {
    IsNumeric(p.first, isNumeric) && IsNumeric(p.second, isNumeric)
  }

  /** CartesianPair.getSum: the double sum of the members, or null unless the pair is numeric. */
  function GetSum<D>(p: CartesianPair, num: Numerics<D>): (r: Option<D>)
    ensures r.None? <==> !IsNumericPair(p, num.isNumeric)
    ensures r.Some? ==> r.value == num.add(num.parse(p.first.value), num.parse(p.second.value))
  {
    if IsNumericPair(p, num.isNumeric) then
      Some(num.add(GetNumericValue(p.first, num).value, GetNumericValue(p.second, num).value))
    else None
  }

  /** CartesianPair.getProduct: the double product of the members, or null unless the pair is numeric. */
  function GetProduct<D>(p: CartesianPair, num: Numerics<D>): (r: Option<D>)
    ensures r.None? <==> !IsNumericPair(p, num.isNumeric)
    ensures r.Some? ==> r.value == num.multiply(num.parse(p.first.value), num.parse(p.second.value))
  {
    if IsNumericPair(p, num.isNumeric) then
      Some(num.multiply(GetNumericValue(p.first, num).value, GetNumericValue(p.second, num).value))
    else None
  }

  /** CartesianPair.equals: member by member, with SetElement's value-only equality. */
  predicate PairEquals(p: CartesianPair, q: CartesianPair) {
    ElementEquals(p.first, q.first) && ElementEquals(p.second, q.second)
  }

  /** Order matters: (a, b) equals (b, a) only when a equals b. */
  lemma PairEqualsIsOrdered(a: SetElement, b: SetElement)
    ensures PairEquals(CartesianPair(a, b), CartesianPair(b, a)) <==> ElementEquals(a, b)
  {
  }

  /** CartesianPair.equals is an equivalence relation. */
  lemma PairEqualsIsEquivalence(p: CartesianPair, q: CartesianPair, r: CartesianPair)
    ensures PairEquals(p, p)
    ensures PairEquals(p, q) ==> PairEquals(q, p)
    ensures PairEquals(p, q) && PairEquals(q, r) ==> PairEquals(p, r)
  {
  }

  /** CartesianPair.hashCode, which is Objects.hash(first, second): 31 * (31 + h1) + h2 in int arithmetic. */
  function PairHashCode(p: CartesianPair): (h: int)
    ensures IsInt(h)
  {
    WrapInt(31 * WrapInt(31 + ElementHashCode(p.first)) + ElementHashCode(p.second))
  }

  /** Equal pairs have equal hash codes. */
  lemma PairHashAgreesWithEquals(p: CartesianPair, q: CartesianPair)
    requires PairEquals(p, q)
    ensures PairHashCode(p) == PairHashCode(q)
  {
  }

  /** CartesianPair.toString: "(first, second)" over the values. */
  function PairToString(p: CartesianPair): (r: string)
    ensures |r| == |p.first.value| + |p.second.value| + 4
    ensures r[0] == '(' && r[|r| - 1] == ')'
  {
    "(" + p.first.value + ", " + p.second.value + ")"
  }

  /**
   * When the first values hold no comma (as every value the parser accepts),
   * the display form determines the pair up to equality.
   */
  lemma PairToStringInjective(p: CartesianPair, q: CartesianPair)
    requires ',' !in p.first.value && ',' !in q.first.value
    requires PairToString(p) == PairToString(q)
    ensures PairEquals(p, q)
  {
    var s, t := PairToString(p), PairToString(q);
    var a, c := p.first.value, q.first.value;
    assert s[1 + |a|] == ',';
    assert t[1 + |c|] == ',';
    assert forall k :: 0 <= k < |a| ==> s[1 + k] == a[k];
    assert forall k :: 0 <= k < |c| ==> t[1 + k] == c[k];
    assert |a| == |c|;
    assert a == s[1..1 + |a|] == t[1..1 + |c|] == c;
    assert p.second.value == s[3 + |a|..|s| - 1];
    assert q.second.value == t[3 + |c|..|t| - 1];
  }

  /** CartesianPair.toDetailedString: "(v1 ∈ s1, v2 ∈ s2)", naming each member's set. */
  function PairToDetailedString(p: CartesianPair): (r: string)
    ensures |r| == |p.first.value| + |p.first.setName| + |p.second.value| + |p.second.setName| + 10
    ensures r[0] == '(' && r[|r| - 1] == ')'
  {
    "(" + p.first.value + " ∈ " + p.first.setName + ", " + p.second.value + " ∈ " + p.second.setName + ")"
  }
}
