/** The handful of JavaScript value semantics that both page scripts rely on:
    strict equality on strings, `null` and `undefined`, the string a value
    becomes when it is used as a property key or an element id, the
    truncating remainder operator, and `Array.prototype.findIndex` /
    `indexOf` / reading an array element out of range. */
module Js {

  datatype Option<T> = None | Some(value: T)

  /** What a DOM lookup can hand back to the scripts: a string, `null`
      (`getAttribute` of a missing attribute) or `undefined` (a missing
      `dataset` entry, an array read out of range). Datatype equality is
      JavaScript's `===` on these values. */
  datatype JsValue = Str(s: string) | Null | Undefined

  /** `String(v)`: the key JavaScript uses when `v` indexes an object
      (`photoPositions[v]`) or is passed to `document.getElementById(v)`. */
  function ToKey(v: JsValue): (r: string)
    ensures v.Str? <==> Str(r) == v
    ensures v == Null ==> r == "null"
    ensures v == Undefined ==> r == "undefined"
  {
    match v
    case Str(s) => s
    case Null => "null"
    case Undefined => "undefined"
  }

  /** `a % b` as JavaScript evaluates it on integers: the quotient is
      truncated toward zero, so the remainder carries the dividend's sign
      (Dafny's own `%` is Euclidean and never negative). */
  function JsRem(a: int, b: int): (r: int)
    requires b > 0
    ensures -b < r < b
    ensures a >= 0 ==> r == a % b
    ensures a < 0 ==> r <= 0 && -r == (-a) % b
  {
    if a >= 0 then a % b else -((-a) % b)
  }

  /** `xs.findIndex(p)`: the first index whose element satisfies `p`, or -1. */
  function FindIndex<T>(xs: seq<T>, p: T -> bool): (r: int)
    ensures -1 <= r < |xs|
    ensures 0 <= r ==> p(xs[r])
    ensures forall j :: 0 <= j < |xs| && (r == -1 || j < r) ==> !p(xs[j])
  {
    if |xs| == 0 then -1
    else if p(xs[0]) then 0
    else
      var rest := FindIndex(xs[1..], p);
      assert forall j :: 1 <= j < |xs| ==> xs[j] == xs[1..][j - 1];
      if rest == -1 then -1 else rest + 1
  }

  /** `xs.indexOf(v)` on an array of strings: `===` never equates a string
      with `null` or `undefined`. */
  function IndexOf(xs: seq<string>, v: JsValue): (r: int)
    ensures -1 <= r < |xs|
    ensures 0 <= r ==> v == Str(xs[r])
    ensures forall j :: 0 <= j < |xs| && (r == -1 || j < r) ==> v != Str(xs[j])
    ensures r == -1 <==> (v.Str? ==> v.s !in xs)
  {
    FindIndex(xs, x => Str(x) == v)
  }

  /** `xs[i]` in JavaScript: `undefined` outside the array. */
  function ElementAt(xs: seq<string>, i: int): (v: JsValue)
    ensures v.Str? <==> 0 <= i < |xs|
    ensures 0 <= i < |xs| ==> v == Str(xs[i])
    ensures !(0 <= i < |xs|) ==> v == Undefined
    ensures v.Str? ==> v.s in xs
  {
    if 0 <= i < |xs| then Str(xs[i]) else Undefined
  }

  ghost predicate Distinct(xs: seq<string>)
  {
    forall i, j :: 0 <= i < j < |xs| ==> xs[i] != xs[j]
  }

  /** Reading the element at an index and looking it up again gives the
      index back, as long as no string repeats. */
  lemma IndexOfElementAt(xs: seq<string>, i: int)
    requires Distinct(xs)
    requires 0 <= i < |xs|
    ensures IndexOf(xs, ElementAt(xs, i)) == i
  {
  }

  /** Looking a string up and reading that index gives the string back;
      an absent value reads back as `undefined`. */
  lemma ElementAtIndexOf(xs: seq<string>, v: JsValue)
    ensures ElementAt(xs, IndexOf(xs, v)) == if v.Str? && v.s in xs then v else Undefined
  {
  }
}
