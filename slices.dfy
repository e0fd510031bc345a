/**
 * The byte-slice helpers `expandLeft` and `unshift`.
 *
 * Every slice these helpers see starts at the first element of its backing
 * array, so a Go `[]byte` is the pair of that array and a length: the array
 * is the slice's storage and its `Length` is the slice's capacity. A helper
 * returns the (possibly new) array and the new length, as the Go functions
 * return the new slice header.
 */
module Slices {
  import opened Bytes

  /** `after` agrees with `before` from index `from` on. */
  ghost predicate SameFrom(before: seq<Byte>, after: seq<Byte>, from: nat)
    requires from <= |before|
  {
    |after| == |before| && after[from..] == before[from..]
  }

  /** Every byte of `s` from index `from` on is zero. */
  ghost predicate ZeroFrom(s: seq<Byte>, from: nat) {
    forall i | from <= i < |s| :: s[i] == 0
  }

  /** The first `shift` bytes of an array that `expandLeft` allocated: where
      the old bytes were copied before being moved up, and zero beyond them. */
  ghost predicate FreshPrefix(before: seq<Byte>, after: seq<Byte>, len: nat, shift: nat)
    requires len <= |before| && shift <= |after|
  {
    forall i | 0 <= i < shift :: after[i] == if i < len then before[i] else 0
  }

  /** `expandLeft(slice, shift)`: grows the slice by `shift` bytes on the left,
      moving the old bytes up by `shift`. When the capacity does not exceed the
      new length, a zero-filled array of capacity `2 * len + shift + 1`
      replaces the old one; otherwise the bytes move inside the same array and
      the bytes outside the moved range stay as they were. Either way the
      capacity ends up above the new length. */
  method ExpandLeft(s: array<Byte>, len: nat, shift: nat) returns (t: array<Byte>, tlen: nat)
    requires len <= s.Length
    modifies s
    ensures tlen == len + shift && tlen < t.Length
    ensures t[shift..tlen] == old(s[..len])
    ensures s.Length > len + shift ==>
      && t == s
      && t[..shift] == old(s[..shift])
      && SameFrom(old(s[..]), t[..], tlen)
    ensures s.Length <= len + shift ==>
      && fresh(t)
      && s[..] == old(s[..])
      && t.Length == 2 * len + shift + 1
      && FreshPrefix(old(s[..]), t[..], len, shift)
      && ZeroFrom(t[..], tlen)
  {
    t := s;
    if s.Length <= len + shift {
      t := new Byte[2 * len + shift + 1](_ => 0);
      forall i | 0 <= i < len {
        t[i] := s[i];
      }
    }
    tlen := len + shift;
    if len > 0 {
      // Go's `copy` is a memmove: every byte is read before any is written.
      forall i | 0 <= i < len {
        t[shift + i] := t[i];
      }
    }
  }

  /** `unshift(buf, data)`: the slice `data ++ buf`, grown in place when the
      capacity allows it. */
  method Unshift(buf: array<Byte>, len: nat, data: seq<Byte>) returns (t: array<Byte>, tlen: nat)
    requires len <= buf.Length
    modifies buf
    ensures tlen == len + |data| && tlen < t.Length
    ensures t[..tlen] == data + old(buf[..len])
    ensures buf.Length > len + |data| ==> t == buf && SameFrom(old(buf[..]), t[..], tlen)
    ensures buf.Length <= len + |data| ==>
      && fresh(t)
      && buf[..] == old(buf[..])
      && t.Length == 2 * len + |data| + 1
      && ZeroFrom(t[..], tlen)
  {
    t, tlen := ExpandLeft(buf, len, |data|);
    forall i | 0 <= i < |data| {
      t[i] := data[i];
    }
  }
}
