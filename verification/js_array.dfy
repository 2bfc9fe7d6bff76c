/**
 JavaScript array slicing as the history store uses it, and the bounded
 "newest n" window that the slicing is meant to compute.

 `SliceFrom` follows ECMAScript's `Array.prototype.slice(start)` for an
 integer `start`; `Last` is an independent reference definition of FIFO
 eviction (drop the oldest element until what is left fits). The lemmas
 connect the two and describe how windows compose.
 */
module JsArray {

  /** `Math.min` on integers. */
  function Min(a: int, b: int): (r: int)
    ensures r <= a && r <= b
    ensures r == a || r == b
  {
    if a <= b then a else b
  }

  /** `Math.max` on integers. */
  function Max(a: int, b: int): (r: int)
    ensures a <= r && b <= r
    ensures r == a || r == b
  {
    if a >= b then a else b
  }

  /** `s.slice(start)`: a negative `start` counts back from the end and stops
      at the first element; a non-negative one is capped at the length. */
  function SliceFrom<T>(s: seq<T>, start: int): (r: seq<T>)
    ensures start < 0 ==> |r| == Min(-start, |s|)
    ensures 0 <= start ==> |r| == Max(|s| - start, 0)
  {
    if start < 0 then s[Max(|s| + start, 0)..] else s[Min(start, |s|)..]
  }

  /** Whatever the start, `slice` keeps a suffix of the array in order. */
  lemma SliceFromIsSuffix<T>(s: seq<T>, start: int)
    ensures SliceFrom(s, start) == s[|s| - |SliceFrom(s, start)|..]
  {
  }

  /** The newest `n` elements of `s`, oldest first: evict the front element
      until at most `n` remain. */
  function Last<T>(s: seq<T>, n: nat): (r: seq<T>)
    ensures |r| == Min(n, |s|)
    decreases |s|
  {
    if |s| <= n then s else Last(s[1..], n)
  }

  /** The window is the suffix of `s` of its own length: eviction keeps the
      newest elements and their order. */
  lemma {:induction false} LastIsSuffix<T>(s: seq<T>, n: nat)
    ensures Last(s, n) == s[|s| - Min(n, |s|)..]
    decreases |s|
  {
    if n < |s| {
      LastIsSuffix(s[1..], n);
      assert s[1..][|s| - 1 - n..] == s[|s| - n..];
    }
  }

  /** For every positive window size, `slice(-n)` is exactly FIFO eviction
      down to `n` elements. */
  lemma SliceNegativeIsLast<T>(s: seq<T>, n: nat)
    requires 1 <= n
    ensures SliceFrom(s, -(n as int)) == Last(s, n)
  {
    LastIsSuffix(s, n);
  }

  /** A window that already fits is left alone. */
  lemma LastOfShort<T>(s: seq<T>, n: nat)
    requires |s| <= n
    ensures Last(s, n) == s
  {
  }

  /** A non-empty window ends with the newest element. */
  lemma LastKeepsNewest<T>(s: seq<T>, n: nat)
    requires s != [] && 1 <= n
    ensures Last(s, n) != []
    ensures Last(s, n)[|Last(s, n)| - 1] == s[|s| - 1]
  {
    LastIsSuffix(s, n);
  }

  /** Trimming before appending more elements changes nothing once the
      result is trimmed again: the newest `n` of `Last(a, n) + b` are the
      newest `n` of `a + b`. */
  lemma LastOfLastConcat<T>(a: seq<T>, b: seq<T>, n: nat)
    ensures Last(Last(a, n) + b, n) == Last(a + b, n)
  {
    var m := Min(n, |a|);
    var c := Last(a, n) + b;
    assert c == (a + b)[|a| - m..] by {
      LastIsSuffix(a, n);
    }
    var len := Min(n, |a| + |b|);
    assert Last(c, n) == c[|c| - len..] by {
      LastIsSuffix(c, n);
    }
    assert c[|c| - len..] == (a + b)[|a| + |b| - len..];
    LastIsSuffix(a + b, n);
  }

  /** Appending one element to a window that is full drops exactly its
      oldest element. */
  lemma LastAppendFull<T>(s: seq<T>, x: T, n: nat)
    requires |s| == n
    requires 1 <= n
    ensures Last(s + [x], n) == s[1..] + [x]
  {
    LastIsSuffix(s + [x], n);
    assert (s + [x])[1..] == s[1..] + [x];
  }
}
