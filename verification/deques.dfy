/** Python's `collections.deque` with a `maxlen`, as sequences: left end first. */
module Deques {

  function Min(a: int, b: int): int {
    if a <= b then a else b
  }

  /** `append(x)` on a deque bounded by `maxlen`: `x` joins at the right end and, once the deque
      would be longer than `maxlen`, entries fall off the left end (with `maxlen` 0 nothing is kept). */
  function PushRight<T>(q: seq<T>, maxlen: nat, x: T): (r: seq<T>)
    ensures |r| == Min(|q| + 1, maxlen)
    ensures |q| < maxlen ==> r == q + [x]
    ensures 0 < maxlen <= |q| ==> r == q[|q| + 1 - maxlen..] + [x]
    ensures maxlen == 0 ==> r == []
  {
    var s := q + [x];
    if |s| <= maxlen then s else s[|s| - maxlen..]
  }

  /** `appendleft(x)` on a deque bounded by `maxlen`: `x` joins at the left end and entries fall off
      the right end. */
  function PushLeft<T>(x: T, q: seq<T>, maxlen: nat): (r: seq<T>)
    ensures |r| == Min(|q| + 1, maxlen)
    ensures |q| < maxlen ==> r == [x] + q
    ensures 0 < maxlen <= |q| ==> r == [x] + q[..maxlen - 1]
    ensures maxlen == 0 ==> r == []
  {
    var s := [x] + q;
    if |s| <= maxlen then s else s[..maxlen]
  }

  /** Appending on the right and then popping the right end gives back the deque, less the entry
      evicted from the left when it was already full. */
  lemma PushRightThenPop<T>(q: seq<T>, maxlen: nat, x: T)
    requires 0 < maxlen && |q| <= maxlen
    ensures var r := PushRight(q, maxlen, x);
      r[|r| - 1] == x && r[..|r| - 1] == (if |q| == maxlen then q[1..] else q)
  {
    var r := PushRight(q, maxlen, x);
    var e := if |q| == maxlen then q[1..] else q;
    assert r == e + [x];
  }

  /** Appending on the left and then popping the left end gives back the deque, less the entry
      evicted from the right when it was already full. */
  lemma PushLeftThenPop<T>(x: T, q: seq<T>, maxlen: nat)
    requires 0 < maxlen && |q| <= maxlen
    ensures var r := PushLeft(x, q, maxlen);
      r[0] == x && r[1..] == (if |q| == maxlen then q[..|q| - 1] else q)
  {
    var r := PushLeft(x, q, maxlen);
    var e := if |q| == maxlen then q[..|q| - 1] else q;
    assert r == [x] + e;
  }
}
