/**
  C string primitives the updater relies on: NUL-terminated byte strings,
  possibly-NULL pointers to them, and the libc routines `strncpy`, `strnlen`,
  `strcasecmp` and `snprintf` restricted to what the updater asks of them.
 */
module CStrings {

  /** An 8-bit `char` value, read as unsigned. */
  newtype Byte = x: int | 0 <= x < 256

  /** A `char *` that may be NULL. */
  datatype Option<+T> = None | Some(value: T)

  predicate NulFree(s: seq<Byte>) {
    forall i :: 0 <= i < |s| ==> s[i] != 0
  }

  /** The bytes of a NUL-terminated C string, without the terminator. */
  type CStr = s: seq<Byte> | NulFree(s)

  function Min(a: int, b: int): int {
    if a <= b then a else b
  }

  function Zeros(n: nat): (z: seq<Byte>)
    ensures |z| == n
    ensures forall i :: 0 <= i < n ==> z[i] == 0
  {
    if n == 0 then [] else Zeros(n - 1) + [0]
  }

  /**
    `strncpy(buf, src, n)` on a buffer whose previous contents are `buf`:
    the first min(|src|, n) bytes of `src`, then NUL padding up to `n`
    bytes; bytes from `n` on are left as they were.
   */
  function StrNCpy(buf: seq<Byte>, src: CStr, n: nat): (r: seq<Byte>)
    requires n <= |buf|
    ensures |r| == |buf|
    ensures r[..Min(|src|, n)] == src[..Min(|src|, n)]
    ensures forall i :: Min(|src|, n) <= i < n ==> r[i] == 0
    ensures r[n..] == buf[n..]
  {
    var k := Min(|src|, n);
    src[..k] + Zeros(n - k) + buf[n..]
  }

  /**
    `strnlen(buf, max)`: the index of the first NUL among the first `max`
    bytes, or `max` when there is none.
   */
  function StrNLen(buf: seq<Byte>, max: nat): (n: nat)
    requires max <= |buf|
    ensures n <= max
    ensures NulFree(buf[..n])
    ensures n < max ==> buf[n] == 0
  {
    StrNLenFrom(buf, max, 0)
  }

  function StrNLenFrom(buf: seq<Byte>, max: nat, i: nat): (n: nat)
    requires i <= max <= |buf|
    requires NulFree(buf[..i])
    ensures i <= n <= max
    ensures NulFree(buf[..n])
    ensures n < max ==> buf[n] == 0
    decreases max - i
  {
    if i == max || buf[i] == 0 then i
    else
      assert buf[..i + 1] == buf[..i] + [buf[i]];
      StrNLenFrom(buf, max, i + 1)
  }

  /** `strnlen` stops at the first NUL, or at the bound when there is none. */
  lemma StrNLenIsFirstNul(buf: seq<Byte>, max: nat, k: nat)
    requires k <= max <= |buf|
    requires NulFree(buf[..k])
    requires k < max ==> buf[k] == 0
    ensures StrNLen(buf, max) == k
  {
  }

  /** ASCII `tolower`, as used by `strcasecmp` in the C locale. */
  function ToLower(b: Byte): Byte {
    if 0x41 <= b <= 0x5a then b + 0x20 else b
  }

  /** Equality up to ASCII case: the reference meaning of a zero `strcasecmp`. */
  predicate CaseInsensitiveEq(a: seq<Byte>, b: seq<Byte>) {
    |a| == |b| && forall i :: 0 <= i < |a| ==> ToLower(a[i]) == ToLower(b[i])
  }

  /**
    `strcasecmp(a, b)`: walks both strings until the lowered bytes differ
    or a terminator is reached, and returns the difference of the lowered
    bytes at that point (the terminator counts as 0).
   */
  function StrCaseCmp(a: CStr, b: CStr): int
    decreases |a|
  {
    if a == [] && b == [] then 0
    else if a == [] then 0 - ToLower(b[0]) as int
    else if b == [] then ToLower(a[0]) as int
    else if ToLower(a[0]) != ToLower(b[0]) then ToLower(a[0]) as int - ToLower(b[0]) as int
    else StrCaseCmp(a[1..], b[1..])
  }

  /** `strcasecmp` reports equality exactly for strings equal up to ASCII case. */
  lemma {:induction false} StrCaseCmpZeroIff(a: CStr, b: CStr)
    ensures StrCaseCmp(a, b) == 0 <==> CaseInsensitiveEq(a, b)
    decreases |a|
  {
    if a == [] || b == [] {
      if a != [] {
        assert a[0] != 0;
      }
      if b != [] {
        assert b[0] != 0;
      }
    } else if ToLower(a[0]) != ToLower(b[0]) {
    } else {
      StrCaseCmpZeroIff(a[1..], b[1..]);
      if CaseInsensitiveEq(a[1..], b[1..]) {
        forall i | 0 <= i < |a|
          ensures ToLower(a[i]) == ToLower(b[i])
        {
          if i > 0 {
            assert a[i] == a[1..][i - 1] && b[i] == b[1..][i - 1];
          }
        }
      }
      if CaseInsensitiveEq(a, b) {
        forall i | 0 <= i < |a| - 1
          ensures ToLower(a[1..][i]) == ToLower(b[1..][i])
        {
          assert a[1..][i] == a[i + 1] && b[1..][i] == b[i + 1];
        }
      }
    }
  }

  /**
    `snprintf(out, cap, ...)` given the fully formatted text `s`: at most
    cap - 1 bytes are stored (then a terminator), and the return value is
    the length the whole text would have had.
   */
  datatype Printed = Printed(stored: seq<Byte>, returned: nat)

  function Snprintf(s: seq<Byte>, cap: nat): (r: Printed)
    requires 1 <= cap
    ensures |r.stored| < cap
    ensures r.stored <= s
    ensures |s| < cap ==> r.stored == s
    ensures r.returned == |s|
  {
    Printed(s[..Min(|s|, cap - 1)], |s|)
  }
}
