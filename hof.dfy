/*
 * `Array.prototype.calculateTax(cb)`: a higher-order method that walks the
 * array it is called on with a `for` loop, applies the callback to each
 * element and pushes the result onto a new local array, which it returns.
 * The callback is any total function; the array the method is called on is
 * the `array` parameter `a`, and the array being built is a sequence value.
 */
module Hof {

  /** Reference definition: `cb` applied to every element of `s`, in order. */
  function Map<T, U>(s: seq<T>, cb: T -> U): (r: seq<U>)
    ensures |r| == |s|
    decreases |s|
  {
    if s == [] then [] else Map(s[..|s| - 1], cb) + [cb(s[|s| - 1])]
  }

  /** Element `i` of the mapped sequence is the callback's value at element `i`. */
  lemma {:induction false} MapAt<T, U>(s: seq<T>, cb: T -> U, i: int)
    requires 0 <= i < |s|
    ensures Map(s, cb)[i] == cb(s[i])
    decreases |s|
  {
    if i < |s| - 1 {
      MapAt(s[..|s| - 1], cb, i);
    }
  }

  /** Mapping commutes with concatenation: each part is mapped on its own. */
  lemma {:induction false} MapAppend<T, U>(s: seq<T>, t: seq<T>, cb: T -> U)
    ensures Map(s + t, cb) == Map(s, cb) + Map(t, cb)
    decreases |t|
  {
    if t == [] {
      assert s + t == s;
    } else {
      var t' := t[..|t| - 1];
      assert (s + t)[..|s + t| - 1] == s + t';
      assert (s + t)[|s + t| - 1] == t[|t| - 1];
      MapAppend(s, t', cb);
      assert Map(s + t, cb) == Map(s, cb) + Map(t', cb) + [cb(t[|t| - 1])];
    }
  }

  /**
   * The method body: after `i` rounds of the loop, `res` holds the callback's
   * values at the first `i` elements. No `modifies` clause: `a` is only read.
   */
  method CalculateTax<T, U>(a: array<T>, cb: T -> U) returns (res: seq<U>)
    ensures res == Map(a[..], cb)
    ensures |res| == a.Length
    ensures forall i :: 0 <= i < a.Length ==> res[i] == cb(a[i])
  {
    res := [];
    for i := 0 to a.Length
      invariant res == Map(a[..i], cb)
    {
      assert a[..i + 1][..i] == a[..i];
      res := res + [cb(a[i])];
    }
    assert a[..a.Length] == a[..];
    forall i | 0 <= i < a.Length ensures res[i] == cb(a[i]) {
      MapAt(a[..], cb, i);
    }
  }
}
