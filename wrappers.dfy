/** Small shared vocabulary: NULL-able pointers, C strings and C integer division. */
module Wrappers {

  /** A C pointer that may be NULL: `None` is NULL. */
  datatype Option<+T> = None | Some(value: T)

  /** A NUL-terminated C string, given by the characters before its terminator. */
  type CString = s: seq<char> | '\0' !in s

  /** `*(s + i)` for a C string: reading at or past the end yields the terminator. */
  function At(s: seq<char>, i: nat): (c: char)
    ensures i < |s| ==> c == s[i]
  {
    if i < |s| then s[i] else '\0'
  }

  /** Index of the first occurrence of `c` in `s` at or after `from`, as `strchr` finds it. */
  function IndexFrom(s: seq<char>, from: nat, c: char): (r: Option<nat>)
    decreases |s| - from
    ensures r.Some? ==> from <= r.value < |s| && s[r.value] == c
    ensures r.Some? ==> forall k :: from <= k < r.value ==> s[k] != c
    ensures r.None? ==> forall k :: from <= k < |s| ==> s[k] != c
  {
    if from >= |s| then None
    else if s[from] == c then Some(from)
    else IndexFrom(s, from + 1, c)
  }

  /** Index of the first true entry of `bs` at or after `from`. */
  function FirstTrue(bs: seq<bool>, from: nat): (r: Option<nat>)
    decreases |bs| - from
    ensures r.Some? ==> from <= r.value < |bs| && bs[r.value]
    ensures r.Some? ==> forall j :: from <= j < r.value ==> !bs[j]
    ensures r.None? ==> forall j :: from <= j < |bs| ==> !bs[j]
  {
    if from >= |bs| then None
    else if bs[from] then Some(from)
    else FirstTrue(bs, from + 1)
  }

  /** C's `/` on signed integers: the quotient is truncated toward zero. */
  function CDiv(a: int, b: int): (q: int)
    requires b > 0
    ensures a >= 0 ==> q == a / b
    ensures a < 0 ==> q == -((-a) / b)
  {
    if a >= 0 then a / b else -((-a) / b)
  }

  /** C's `%` on signed integers: the remainder takes the sign of the dividend. */
  function CMod(a: int, b: int): (r: int)
    requires b > 0
    ensures a >= 0 ==> r == a % b
    ensures a < 0 ==> r == -((-a) % b)
  {
    if a >= 0 then a % b else -((-a) % b)
  }

  /** C's division identity: `(a / b) * b + a % b == a`, with `|a % b| < b`. */
  lemma CDivMod(a: int, b: int)
    requires b > 0
    ensures CDiv(a, b) * b + CMod(a, b) == a
    ensures -b < CMod(a, b) < b
    ensures a >= 0 ==> CMod(a, b) >= 0
    ensures a <= 0 ==> CMod(a, b) <= 0
  {
    if a < 0 {
      assert (-a) / b * b + (-a) % b == -a;
    }
  }
}
