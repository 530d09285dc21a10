/** Small shared vocabulary: optional values, bytes and a few sequence helpers. */
module Common {

  /** A value that may be missing; `None` stands for a thrown exception or a JS `null`. */
  datatype Option<+T> = None | Some(value: T)

  /** One element of a `Uint8Array`. */
  type Byte = x: int | 0 <= x < 256

  /** `n` copies of `c`. */
  function Repeat<T>(c: T, n: nat): (r: seq<T>)
    ensures |r| == n
    ensures forall i :: 0 <= i < n ==> r[i] == c
  {
    if n == 0 then [] else Repeat(c, n - 1) + [c]
  }

  /** One more copy at the end of a prefix followed by copies. */
  lemma RepeatSnoc<T>(t: seq<T>, c: T, n: nat)
    ensures (t + Repeat(c, n)) + [c] == t + Repeat(c, n + 1)
  {
    assert Repeat(c, n + 1) == Repeat(c, n) + [c];
    assert (t + Repeat(c, n)) + [c] == t + (Repeat(c, n) + [c]);
  }

  /** `s` begins with `p` (JS `startsWith`, and `every((x, i) => s[i] === x)`). */
  predicate StartsWith<T(==)>(s: seq<T>, p: seq<T>) {
    |p| <= |s| && s[..|p|] == p
  }

  /** `s` holds `p` at position `off`; false when `s` is too short. */
  predicate HasAt<T(==)>(s: seq<T>, p: seq<T>, off: nat) {
    off + |p| <= |s| && s[off..off + |p|] == p
  }

  /** The first `n` elements of `s`, or all of them when `s` is shorter (`slice(0, n)`). */
  function Take<T>(s: seq<T>, n: nat): (r: seq<T>)
    ensures |r| == if |s| < n then |s| else n
    ensures r <= s
  {
    if |s| <= n then s else s[..n]
  }
}
