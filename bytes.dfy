/**
 * Byte strings and the handful of Go library operations on them that the
 * core relies on: `strings.HasPrefix`/`HasSuffix`, `bytes.Count`,
 * `bytes.LastIndex`, `strconv.FormatInt(n, 10)` and a simplified
 * `filepath.Join`.
 */
module Bytes {

  /** A Go `byte`. */
  type Byte = b: int | 0 <= b < 256

  /** The bytes of an ASCII string literal (Go stores string literals as UTF-8,
      which is the identity on ASCII). */
  function Ascii(s: string): (r: seq<Byte>)
    requires forall i | 0 <= i < |s| :: s[i] as int < 128
    ensures |r| == |s|
    ensures forall i | 0 <= i < |s| :: r[i] == s[i] as int
  {
    seq(|s|, i requires 0 <= i < |s| => s[i] as int)
  }

  const Newline: seq<Byte> := Ascii("\n")
  const Slash: Byte := '/' as int

  /** `sep` occurs in `s` starting at index `i`. */
  predicate OccursAt(s: seq<Byte>, sep: seq<Byte>, i: int) {
    0 <= i && i + |sep| <= |s| && s[i..i + |sep|] == sep
  }

  ghost predicate Occurs(s: seq<Byte>, sep: seq<Byte>) {
    exists i :: OccursAt(s, sep, i)
  }

  /** Two occurrences of `sep` in `s` that do not overlap. */
  ghost predicate TwoApart(s: seq<Byte>, sep: seq<Byte>) {
    exists i, j :: OccursAt(s, sep, i) && OccursAt(s, sep, j) && i + |sep| <= j
  }

  /** `strings.HasPrefix`. */
  predicate HasPrefix(s: seq<Byte>, prefix: seq<Byte>) {
    |prefix| <= |s| && s[..|prefix|] == prefix
  }

  /** `strings.HasSuffix`. */
  predicate HasSuffix(s: seq<Byte>, suffix: seq<Byte>) {
    |suffix| <= |s| && s[|s| - |suffix|..] == suffix
  }

  /** Dropping the first `k` bytes moves every occurrence `k` to the left. */
  lemma OccursAtDrop(s: seq<Byte>, sep: seq<Byte>, k: nat, i: int)
    requires k <= |s| && 0 <= i
    ensures OccursAt(s[k..], sep, i) <==> OccursAt(s, sep, i + k)
  {
  }

  /** `bytes.Count`: the number of non-overlapping occurrences of `sep`,
      taken greedily from the left. */
  function Count(s: seq<Byte>, sep: seq<Byte>): nat
    requires |sep| > 0
    decreases |s|
  {
    if |s| < |sep| then 0
    else if s[..|sep|] == sep then 1 + Count(s[|sep|..], sep)
    else Count(s[1..], sep)
  }

  /** The count is zero exactly when `sep` does not occur at all. */
  lemma {:induction false} CountZero(s: seq<Byte>, sep: seq<Byte>)
    requires |sep| > 0
    ensures Count(s, sep) == 0 <==> !Occurs(s, sep)
    decreases |s|
  {
    if |s| < |sep| {
      assert forall i :: !OccursAt(s, sep, i);
    } else if s[..|sep|] == sep {
      assert OccursAt(s, sep, 0);
    } else {
      CountZero(s[1..], sep);
      assert !OccursAt(s, sep, 0);
      if Occurs(s, sep) {
        var i :| OccursAt(s, sep, i);
        OccursAtDrop(s, sep, 1, i - 1);
      }
      if Occurs(s[1..], sep) {
        var i :| OccursAt(s[1..], sep, i);
        OccursAtDrop(s, sep, 1, i);
      }
    }
  }

  /** A count of two or more comes from two occurrences that do not overlap. */
  lemma {:induction false} CountTwoApart(s: seq<Byte>, sep: seq<Byte>)
    requires |sep| > 0 && Count(s, sep) >= 2
    ensures TwoApart(s, sep)
    decreases |s|
  {
    var n := |sep|;
    if s[..n] == sep {
      var rest := s[n..];
      CountZero(rest, sep);
      var j :| OccursAt(rest, sep, j);
      OccursAtDrop(s, sep, n, j);
      assert OccursAt(s, sep, 0) && OccursAt(s, sep, j + n);
    } else {
      var rest := s[1..];
      CountTwoApart(rest, sep);
      var i, j :| OccursAt(rest, sep, i) && OccursAt(rest, sep, j) && i + n <= j;
      OccursAtDrop(s, sep, 1, i);
      OccursAtDrop(s, sep, 1, j);
      assert OccursAt(s, sep, i + 1) && OccursAt(s, sep, j + 1);
    }
  }

  /** Two occurrences that do not overlap make the count at least two. */
  lemma {:induction false} TwoApartCount(s: seq<Byte>, sep: seq<Byte>)
    requires |sep| > 0 && TwoApart(s, sep)
    ensures Count(s, sep) >= 2
    decreases |s|
  {
    var n := |sep|;
    var i, j :| OccursAt(s, sep, i) && OccursAt(s, sep, j) && i + n <= j;
    if s[..n] == sep {
      var rest := s[n..];
      OccursAtDrop(s, sep, n, j - n);
      assert OccursAt(rest, sep, j - n);
      CountZero(rest, sep);
    } else {
      var rest := s[1..];
      assert s[0..n] == s[..n];
      assert i != 0;
      OccursAtDrop(s, sep, 1, i - 1);
      OccursAtDrop(s, sep, 1, j - 1);
      assert OccursAt(rest, sep, i - 1) && OccursAt(rest, sep, j - 1);
      TwoApartCount(rest, sep);
    }
  }

  /** The count is at least two exactly when two occurrences that do not
      overlap exist. */
  lemma CountTwo(s: seq<Byte>, sep: seq<Byte>)
    requires |sep| > 0
    ensures Count(s, sep) >= 2 <==> TwoApart(s, sep)
  {
    if Count(s, sep) >= 2 { CountTwoApart(s, sep); }
    if TwoApart(s, sep) { TwoApartCount(s, sep); }
  }

  /** The rightmost occurrence of `sep` at or before index `k`, or -1. */
  function LastAtOrBefore(s: seq<Byte>, sep: seq<Byte>, k: int): (r: int)
    requires k <= |s| - |sep|
    ensures r == -1 ==> forall j :: j <= k ==> !OccursAt(s, sep, j)
    ensures r != -1 ==> r <= k && OccursAt(s, sep, r)
    ensures r != -1 ==> forall j :: r < j <= k ==> !OccursAt(s, sep, j)
    decreases k + 1
  {
    if k < 0 then -1
    else if s[k..k + |sep|] == sep then k
    else LastAtOrBefore(s, sep, k - 1)
  }

  /** `bytes.LastIndex`: the index of the rightmost occurrence of `sep`, or -1
      when there is none. */
  function LastIndex(s: seq<Byte>, sep: seq<Byte>): (r: int)
    ensures r == -1 <==> !Occurs(s, sep)
    ensures r != -1 ==> OccursAt(s, sep, r)
    ensures r != -1 ==> forall j :: r < j ==> !OccursAt(s, sep, j)
  {
    LastAtOrBefore(s, sep, |s| - |sep|)
  }

  predicate IsDigit(b: Byte) {
    '0' as int <= b <= '9' as int
  }

  /** `strconv.FormatInt(n, 10)` for a non-negative `n`. */
  function Decimal(n: nat): (r: seq<Byte>)
    ensures |r| > 0
    ensures forall i | 0 <= i < |r| :: IsDigit(r[i])
    decreases n
  {
    if n < 10 then ['0' as int + n] else Decimal(n / 10) + ['0' as int + n % 10]
  }

  /** The value of a string of decimal digits. */
  function ParseDecimal(s: seq<Byte>): nat
    requires forall i | 0 <= i < |s| :: IsDigit(s[i])
  {
    if s == [] then 0
    else
      assert IsDigit(s[|s| - 1]);
      10 * ParseDecimal(s[..|s| - 1]) + (s[|s| - 1] - '0' as int)
  }

  /** `Decimal` is read back as the number it renders, and it has no
      leading zero. */
  lemma {:induction false} DecimalRoundTrip(n: nat)
    ensures ParseDecimal(Decimal(n)) == n
    ensures Decimal(n)[0] == '0' as int ==> n == 0
    decreases n
  {
    if n >= 10 {
      DecimalRoundTrip(n / 10);
      var d := Decimal(n / 10);
      assert Decimal(n)[..|Decimal(n)| - 1] == d;
      assert Decimal(n)[0] == d[0];
    }
  }

  /** `filepath.Join(dir, name)` for a directory and a base name, without the
      path cleaning the library performs. */
  function Join(dir: seq<Byte>, name: seq<Byte>): seq<Byte> {
    if dir == [] then name else dir + [Slash] + name
  }
}
