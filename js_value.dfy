/**
  JavaScript values as the adapter sees them: primitives, null, and objects.
  An array is an object whose `isArray` flag is set and whose own keys are the
  decimal strings of its indices, which is how JavaScript itself stores it; a
  `for-in` loop over either kind visits its own properties in order.
  Numbers are integers here; floating point is not modelled.
 */
module JsValue {
  import opened Wrappers
  import opened OrderedMap

  datatype Value =
    | Undefined
    | Null
    | Bool(b: bool)
    | Num(n: int)
    | Str(s: string)
    | Obj(isArray: bool, props: Dict<Value>)

  /** `{}` */
  const EmptyObject: Value := Obj(false, [])

  /** `[]` */
  const EmptyArray: Value := Obj(true, [])

  /** An `Error` object of the given kind, reduced to its name and message. */
  function ErrorValue(name: string, message: string): Value {
    Obj(false, [("name", Str(name)), ("message", Str(message))])
  }

  /** JavaScript truthiness: `!!v`. */
  predicate Truthy(v: Value) {
    match v
    case Undefined => false
    case Null => false
    case Bool(b) => b
    case Num(n) => n != 0
    case Str(s) => s != ""
    case Obj(_, _) => true
  }

  /** `typeof v == "object"`, which holds of null too. */
  predicate IsObjectType(v: Value) {
    v.Null? || v.Obj?
  }

  /**
    `v == s` for a string `s` that does not read as a number: a string equal to
    `s`, or an object whose string form is `s`; no other value matches.
   */
  predicate LooseEqualsWord(v: Value, s: string) {
    match v
    case Str(x) => x == s
    case Obj(_, _) => ToJsString(v) == s
    case _ => false
  }

  /** `v == null` under loose equality: null or undefined. */
  predicate IsNullish(v: Value) {
    v.Null? || v.Undefined?
  }

  /** The decimal digit for `d`. */
  function DigitChar(d: nat): char
    requires d < 10
  {
    "0123456789"[d]
  }

  predicate IsDigit(c: char) {
    '0' <= c <= '9'
  }

  /** `String(n)` for a natural number. */
  function NatToString(n: nat): (s: string)
    ensures |s| > 0
    ensures forall i :: 0 <= i < |s| ==> IsDigit(s[i])
    ensures n >= 10 ==> s[0] != '0'
    ensures n > 0 ==> s[0] != '0'
  {
    if n < 10 then [DigitChar(n)] else NatToString(n / 10) + [DigitChar(n % 10)]
  }

  /** `String(n)` for an integer. */
  function IntToString(n: int): string {
    if n < 0 then "-" + NatToString(-n) else NatToString(n)
  }

  /** The number a string of decimal digits denotes. */
  function DigitsValue(s: string): nat
    requires forall i :: 0 <= i < |s| ==> IsDigit(s[i])
  {
    if s == [] then 0
    else
      assert IsDigit(s[|s| - 1]);
      DigitsValue(s[..|s| - 1]) * 10 + (s[|s| - 1] as int - '0' as int)
  }

  /** A canonical array index: digits without a leading zero. */
  predicate IsIndexKey(k: string) {
    && |k| > 0
    && (forall i :: 0 <= i < |k| ==> IsDigit(k[i]))
    && (k[0] == '0' ==> |k| == 1)
  }

  /** Reading back the digits of `n` gives `n`. */
  lemma {:induction false} NatToStringRoundTrip(n: nat)
    ensures IsIndexKey(NatToString(n))
    ensures DigitsValue(NatToString(n)) == n
  {
    var s := NatToString(n);
    if n < 10 {
      assert s[..|s| - 1] == [];
    } else {
      NatToStringRoundTrip(n / 10);
      assert s[..|s| - 1] == NatToString(n / 10);
    }
  }

  /** Distinct indices have distinct keys. */
  lemma NatToStringInjective(m: nat, n: nat)
    requires NatToString(m) == NatToString(n)
    ensures m == n
  {
    NatToStringRoundTrip(m);
    NatToStringRoundTrip(n);
  }

  /** The one-character strings of `s`, keyed by index: what `for-in` visits in a string. */
  function StringProps(s: string): Dict<Value> {
    seq(|s|, i requires 0 <= i < |s| => (NatToString(i), Str([s[i]])))
  }

  /** The properties a `for (key in v)` loop visits, with their values. */
  function ForIn(v: Value): Dict<Value> {
    match v
    case Obj(_, ps) => ps
    case Str(s) => StringProps(s)
    case _ => []
  }

  /** `v[k]`; None where reading a property of null or undefined throws a TypeError. */
  function Prop(v: Value, k: string): (r: Option<Value>)
    ensures r.None? <==> IsNullish(v)
  {
    if IsNullish(v) then None else Some(Get(ForIn(v), k).GetOr(Undefined))
  }

  /** `a.length` for an array: one more than its largest index key. */
  function ArrayLength(ps: Dict<Value>): nat {
    if ps == [] then 0
    else
      var rest := ArrayLength(ps[..|ps| - 1]);
      var k := ps[|ps| - 1].0;
      if IsIndexKey(k) && DigitsValue(k) + 1 > rest then DigitsValue(k) + 1 else rest
  }

  /** The array literal `[items[0], items[1], ...]`. */
  function ArrayOf(items: seq<Value>): Value {
    Obj(true, seq(|items|, i requires 0 <= i < |items| => (NatToString(i), items[i])))
  }

  /** An array literal has as many elements as items, each at its own index. */
  lemma ArrayOfIndexing(items: seq<Value>)
    ensures NoDupKeys(ArrayOf(items).props)
    ensures ArrayLength(ArrayOf(items).props) == |items|
    ensures forall i :: 0 <= i < |items| ==> Prop(ArrayOf(items), NatToString(i)) == Some(items[i])
  {
    ArrayOfNoDup(items);
    ArrayOfLength(items);
    var ps := ArrayOf(items).props;
    forall i | 0 <= i < |items| ensures Prop(ArrayOf(items), NatToString(i)) == Some(items[i]) {
      var f := Find(ps, NatToString(i));
      assert ps[i].0 == NatToString(i);
      assert f.Some? && f.value == i;
    }
  }

  /** The index keys of an array literal are distinct. */
  lemma ArrayOfNoDup(items: seq<Value>)
    ensures NoDupKeys(ArrayOf(items).props)
  {
    var ps := ArrayOf(items).props;
    forall i, j | 0 <= i < j < |ps| ensures ps[i].0 != ps[j].0 {
      if ps[i].0 == ps[j].0 { NatToStringInjective(i, j); }
    }
  }

  /** An array whose last key reads `n` and whose other keys give length `n` has length `n + 1`. */
  lemma ArrayLengthLast(ps: Dict<Value>, n: nat)
    requires |ps| > 0 && ArrayLength(ps[..|ps| - 1]) == n
    requires IsIndexKey(ps[|ps| - 1].0) && DigitsValue(ps[|ps| - 1].0) == n
    ensures ArrayLength(ps) == n + 1
  {
  }

  /** The length of an array literal is its number of items. */
  lemma {:induction false} ArrayOfLength(items: seq<Value>)
    ensures ArrayLength(ArrayOf(items).props) == |items|
  {
    if items != [] {
      var n := |items| - 1;
      var ps := ArrayOf(items).props;
      ArrayOfLength(items[..n]);
      assert ps[..n] == ArrayOf(items[..n]).props;
      NatToStringRoundTrip(n);
      ArrayLengthLast(ps, n);
    }
  }

  /** `String(v)`; an object that is not an array shows as "[object Object]". */
  function ToJsString(v: Value): string {
    match v
    case Undefined => "undefined"
    case Null => "null"
    case Bool(b) => if b then "true" else "false"
    case Num(n) => IntToString(n)
    case Str(s) => s
    case Obj(isArray, ps) =>
      if isArray then JoinElements(ps, v) else "[object Object]"
  }

  /** `Array.prototype.join(",")` over the elements of an array; null and undefined show as "". */
  function JoinElements(ps: Dict<Value>, ghost whole: Value): string
    requires forall i :: 0 <= i < |ps| ==> ps[i].1 < whole
    decreases whole, |ps|
  {
    if ps == [] then ""
    else
      var item := if IsNullish(ps[0].1) then "" else ToJsString(ps[0].1);
      if |ps| == 1 then item else item + "," + JoinElements(ps[1..], whole)
  }
}
