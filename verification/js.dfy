/**
 * The slice of JavaScript's value semantics that the clothing API relies on:
 * primitive values, truthiness, `Number()` conversion, plain objects read
 * through `Object.keys` order, `Array.prototype.join`, `toLowerCase` and the
 * decimal rendering of array indexes.
 */
module Js {
  import opened Outcomes

  /** A JavaScript number: finite, or one of the IEEE special values. */
  datatype JsNumber = Finite(r: real) | NaN | PosInf | NegInf

  /** A primitive value as it appears in a request payload or a stored attribute. */
  datatype JsVal = Str(s: string) | Num(n: JsNumber) | Bool(b: bool) | Null | Undef

  /** `!!v`: the empty string, 0, NaN, false, null and undefined are falsy. */
  predicate Truthy(v: JsVal)
  {
    match v
    case Str(s) => s != ""
    case Num(n) => n != NaN && n != Finite(0.0)
    case Bool(b) => b
    case Null => false
    case Undef => false
  }

  /** `Number(s)` for a string `s`; the host engine's string grammar is not modelled. */
  type NumberParser = string -> JsNumber

  /** `Number(v)`. */
  function ToNumber(v: JsVal, parseNumber: NumberParser): JsNumber
  {
    match v
    case Str(s) => parseNumber(s)
    case Num(x) => x
    case Bool(b) => if b then Finite(1.0) else Finite(0.0)
    case Null => Finite(0.0)
    case Undef => NaN
  }

  /** `n < 0`: false for NaN, true for -Infinity. */
  predicate IsNegative(n: JsNumber)
  {
    (n.Finite? && n.r < 0.0) || n == NegInf
  }

  /**
   * A plain object, listed in `Object.keys` order. JSON objects and object
   * literals have distinct keys; `DistinctKeys` says so where it matters.
   */
  type Payload = seq<(string, JsVal)>

  /** `Object.keys(p)`. */
  function Keys(p: Payload): seq<string>
  {
    seq(|p|, i requires 0 <= i < |p| => p[i].0)
  }

  predicate HasKey(p: Payload, k: string)
  {
    k in Keys(p)
  }

  predicate DistinctKeys(p: Payload)
  {
    forall i, j :: 0 <= i < j < |p| ==> p[i].0 != p[j].0
  }

  /** `p[k]`: `undefined` when the key is absent; with a repeated key, the last entry wins. */
  function Get(p: Payload, k: string): JsVal
  {
    if p == [] then Undef
    else if p[|p| - 1].0 == k then p[|p| - 1].1
    else Get(p[..|p| - 1], k)
  }

  /** The object as a dictionary, forgetting the key order. */
  function AsMap(p: Payload): map<string, JsVal>
  {
    if p == [] then map[] else AsMap(p[..|p| - 1])[p[|p| - 1].0 := p[|p| - 1].1]
  }

  /** The dictionary view holds exactly the payload's keys, each with the value `p[k]` reads. */
  lemma {:induction false} AsMapLookup(p: Payload, k: string)
    ensures k in AsMap(p) <==> HasKey(p, k)
    ensures k in AsMap(p) ==> AsMap(p)[k] == Get(p, k)
    ensures !HasKey(p, k) ==> Get(p, k) == Undef
  {
    if p != [] {
      var q := p[..|p| - 1];
      AsMapLookup(q, k);
      assert Keys(p) == Keys(q) + [p[|p| - 1].0];
    }
  }

  /** With distinct keys, the last key does not occur earlier. */
  lemma LastKeyFresh(p: Payload)
    requires DistinctKeys(p) && p != []
    ensures !HasKey(p[..|p| - 1], p[|p| - 1].0)
    ensures Get(p[..|p| - 1], p[|p| - 1].0) == Undef
  {
    var init := p[..|p| - 1];
    forall i | 0 <= i < |init|
      ensures Keys(init)[i] != p[|p| - 1].0
    {
      assert init[i] == p[i];
    }
    AsMapLookup(init, p[|p| - 1].0);
  }

  /** With distinct keys, reading the key of entry `i` yields the value of entry `i`. */
  lemma {:induction false} GetEntry(p: Payload, i: nat)
    requires DistinctKeys(p) && i < |p|
    ensures Get(p, p[i].0) == p[i].1
  {
    if i < |p| - 1 {
      GetEntry(p[..|p| - 1], i);
    }
  }

  /** `xs.join(sep)`. */
  function Join(xs: seq<string>, sep: string): string
  {
    if xs == [] then ""
    else if |xs| == 1 then xs[0]
    else xs[0] + sep + Join(xs[1..], sep)
  }

  function AsciiLowerChar(c: char): char
  {
    if 'A' <= c <= 'Z' then (c as int + 32) as char else c
  }

  /**
   * `s.toLowerCase()`, restricted to the ASCII letters: the result has the
   * same length, no capital letter, a small letter wherever `s` has a
   * capital, and every other character of `s` where it was.
   */
  function AsciiLower(s: string): (t: string)
    ensures |t| == |s|
    ensures forall i :: 0 <= i < |t| ==> !('A' <= t[i] <= 'Z')
    ensures forall i :: 0 <= i < |s| && 'A' <= s[i] <= 'Z' ==> t[i] as int == s[i] as int + 32
    ensures forall i :: 0 <= i < |s| && !('A' <= s[i] <= 'Z') ==> t[i] == s[i]
  {
    seq(|s|, i requires 0 <= i < |s| => AsciiLowerChar(s[i]))
  }

  /** Lowering a string twice is the same as lowering it once. */
  lemma AsciiLowerIdempotent(s: string)
    ensures AsciiLower(AsciiLower(s)) == AsciiLower(s)
  {
  }

  function DigitChar(d: nat): char
    requires d < 10
  {
    "0123456789"[d]
  }

  /** The decimal text of `n`, as a template literal renders an array index. */
  function NatToString(n: nat): (s: string)
    ensures |s| >= 1
    ensures n >= 10 ==> |s| >= 2
  {
    if n < 10 then [DigitChar(n)] else NatToString(n / 10) + [DigitChar(n % 10)]
  }

  /** Different indexes have different decimal texts. */
  lemma {:induction false} NatToStringInjective(a: nat, b: nat)
    ensures NatToString(a) == NatToString(b) ==> a == b
  {
    var s := NatToString(a);
    if NatToString(a) != NatToString(b) {
    } else if a < 10 && b < 10 {
      assert DigitChar(a) == s[0] == DigitChar(b);
    } else if a >= 10 && b >= 10 {
      assert DigitChar(a % 10) == s[|s| - 1] == DigitChar(b % 10);
      assert NatToString(a / 10) == s[..|s| - 1] == NatToString(b / 10);
      NatToStringInjective(a / 10, b / 10);
    }
  }
}
