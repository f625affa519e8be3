/** Bytes and the one piece of the C string library the receive loop relies on: strlen. */
module CString {

  /** An unsigned 8-bit value (uint8_t, and char as the firmware uses it). */
  type byte = b: int | 0 <= b < 0x100

  const NUL: byte := 0
  const LF: byte := 10   // '\n'
  const CR: byte := 13   // '\r'

  datatype Option<+T> = None | Some(value: T)

  /** No byte of `s` at an index in [lo, hi) is NUL. */
  predicate NulFree(s: seq<byte>, lo: int, hi: int) {
    forall i | lo <= i < hi && 0 <= i < |s| :: s[i] != NUL
  }

  /**
   * strlen(&s[from]): the distance from `from` to the first NUL of `s`.
   * None when `s` holds no NUL at or after `from`, where the C function would
   * keep reading past the end of the buffer.
   */
  function Strlen(s: seq<byte>, from: nat): (r: Option<nat>)
    decreases |s| - from
    ensures r.Some? ==> from + r.value < |s| && s[from + r.value] == NUL && NulFree(s, from, from + r.value)
    ensures r.None? ==> NulFree(s, from, |s|)
  {
    if from >= |s| then None
    else if s[from] == NUL then Some(0)
    else match Strlen(s, from + 1)
      case None => None
      case Some(n) => Some(n + 1)
  }

  /** A NUL at index k bounds strlen from any offset at or before k. */
  lemma StrlenBounded(s: seq<byte>, from: nat, k: nat)
    requires from <= k < |s| && s[k] == NUL
    ensures Strlen(s, from).Some? && from + Strlen(s, from).value <= k
  {
  }

  /** strlen only looks at the bytes up to and including the first NUL. */
  lemma StrlenOfString(s: seq<byte>, from: nat, n: nat)
    requires from + n < |s| && s[from + n] == NUL && NulFree(s, from, from + n)
    ensures Strlen(s, from) == Some(n)
  {
    StrlenBounded(s, from, from + n);
  }

  /** strlen from `from` depends only on the bytes from `from` up to the first NUL. */
  lemma {:induction false} StrlenAgree(s: seq<byte>, t: seq<byte>, from: nat, k: nat)
    requires from <= k < |s| && k < |t| && s[k] == NUL
    requires forall i | from <= i <= k :: s[i] == t[i]
    ensures Strlen(s, from) == Strlen(t, from)
    decreases k - from
  {
    if s[from] != NUL {
      StrlenAgree(s, t, from + 1, k);
    }
  }

  /** strlen from `from` depends only on the bytes at and after `from`. */
  lemma {:induction false} StrlenSuffix(s: seq<byte>, t: seq<byte>, from: nat)
    requires |s| == |t|
    requires forall i | from <= i < |s| :: s[i] == t[i]
    ensures Strlen(s, from) == Strlen(t, from)
    decreases |s| - from
  {
    if from < |s| && s[from] != NUL {
      StrlenSuffix(s, t, from + 1);
    }
  }
}
