/**
 * The tree xml2js hands to the descriptor normaliser when attributes are
 * merged into their element, prefixes are stripped and `explicitArray` is
 * off, together with the JavaScript value semantics the normaliser applies
 * to it: property reads, truthiness, string and number coercion.
 */
module Xml {
  import opened Wrappers
  import opened Strings

  /** An element: bare text, or an object of attributes and child elements. */
  datatype XValue = Text(text: string) | Element(fields: map<string, XField>)

  /** Reading a key: undefined, a single child, or an array of repeated children. */
  datatype XField = Absent | One(value: XValue) | Many(values: seq<XValue>)

  /** `v.key` on an element; text has none of the keys the descriptor uses. */
  function Field(v: XValue, key: string): XField {
    match v
    case Element(fields) => if key in fields then fields[key] else Absent
    case Text(_) => Absent
  }

  /** `f.key` on a value that is not undefined; an array has none of the keys either. */
  function Member(f: XField, key: string): XField {
    match f
    case One(v) => Field(v, key)
    case _ => Absent
  }

  /** The TypeError a property read or a method call on the wrong kind of value throws. */
  datatype TypeError = TypeError(key: string)

  /** `f.key` where `f` may be undefined, which throws a TypeError naming the key. */
  function Get(f: XField, key: string): (r: Result<XField, TypeError>)
    ensures r.Failure? <==> f.Absent?
    ensures r.Success? ==> r.value == Member(f, key)
  {
    if f.Absent? then Failure(TypeError(key)) else Success(Member(f, key))
  }

  /** `ensureArray`: the children a repeatable element stands for, in document order. */
  function EnsureArray(f: XField): seq<XValue> {
    match f
    case Absent => []
    case One(v) => [v]
    case Many(vs) => vs
  }

  /** What xml2js builds without `explicitArray`: nothing, a lone child, or an array of two or more. */
  function Collapse(vs: seq<XValue>): XField {
    if |vs| == 0 then Absent else if |vs| == 1 then One(vs[0]) else Many(vs)
  }

  predicate Canonical(f: XField) {
    f.Many? ==> |f.values| >= 2
  }

  /** `ensureArray` undoes the collapsing of repeated children. */
  lemma EnsureArrayUndoesCollapse(vs: seq<XValue>)
    ensures Canonical(Collapse(vs))
    ensures EnsureArray(Collapse(vs)) == vs
  {
  }

  /** ... and on everything xml2js can produce, collapsing again gives the field back. */
  lemma CollapseUndoesEnsureArray(f: XField)
    requires Canonical(f)
    ensures Collapse(EnsureArray(f)) == f
  {
  }

  /** JavaScript truthiness: undefined and the empty string are falsy, objects and arrays are not. */
  predicate Truthy(f: XField) {
    match f
    case Absent => false
    case One(Text(s)) => s != ""
    case One(Element(_)) => true
    case Many(_) => true
  }

  function ValueString(v: XValue): string {
    match v
    case Text(s) => s
    case Element(_) => "[object Object]"
  }

  function Join(vs: seq<XValue>): string {
    if vs == [] then "" else if |vs| == 1 then ValueString(vs[0]) else ValueString(vs[0]) + "," + Join(vs[1..])
  }

  /** `String(f)`, the key a value names when it indexes an object. */
  function JsString(f: XField): string {
    match f
    case Absent => "undefined"
    case One(v) => ValueString(v)
    case Many(vs) => Join(vs)
  }

  /** `a === b` on two values read from different places of the tree. */
  predicate StrictEquals(a: XField, b: XField) {
    match (a, b)
    case (Absent, Absent) => true
    case (One(Text(s)), One(Text(t))) => s == t
    case _ => false
  }

  /** The JavaScript numbers this model follows: the naturals, and NaN. */
  datatype Num = Nat(n: nat) | NaN

  /** `Number(s)` for the empty string and strings of decimal digits; anything else is NaN here. */
  function NumberOf(s: string): Num {
    if s == "" then Nat(0) else if AllDigits(s) then Nat(DecimalValue(s)) else NaN
  }

  /** The unary plus `+f`. */
  function ToNumber(f: XField): Num {
    NumberOf(JsString(f))
  }

  function Mul(a: Num, b: Num): (r: Num)
    ensures r.NaN? <==> a.NaN? || b.NaN?
  {
    if a.Nat? && b.Nat? then Nat(a.n * b.n) else NaN
  }

  /** `n` in decimal, without leading zeros. */
  function DecimalString(n: nat): (s: string)
    ensures s != [] && AllDigits(s)
  {
    var last := ['0' + (n % 10) as char];
    if n < 10 then last else DecimalString(n / 10) + last
  }

  lemma {:induction false} DecimalRoundTrip(n: nat)
    ensures DecimalValue(DecimalString(n)) == n
  {
    if n >= 10 {
      var s := DecimalString(n);
      DecimalRoundTrip(n / 10);
      assert s[..|s| - 1] == DecimalString(n / 10);
    }
  }

  /** A number written out in decimal, as an OVF attribute holds it, is read back by the unary plus. */
  lemma NumberRoundTrip(n: nat)
    ensures ToNumber(One(Text(DecimalString(n)))) == Nat(n)
  {
    DecimalRoundTrip(n);
  }

  /** `+undefined` is NaN: a missing quantity gives NaN, never a number. */
  lemma MissingIsNaN()
    ensures ToNumber(Absent) == NaN
  {
    assert !IsDigit("undefined"[0]);
  }
}
