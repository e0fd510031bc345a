/**
 * `fileSums`: the checksum block of a package, one `"<Label>: <hex>\n"` line
 * per algorithm the mask selects, in the fixed order MD5sum, SHA1, SHA256.
 *
 * The hash algorithms themselves are a parameter (`Hasher`): only the size of
 * each digest matters here.
 */
module Checksums {
  import opened Results
  import opened Bytes
  import opened Hex
  import opened Slices
  import opened Streams

  /** The mask bits, `SumMd5 = 1 << iota` and so on. */
  const SumMd5: bv8 := 1
  const SumSha1: bv8 := 2
  const SumSha256: bv8 := 4

  datatype Algorithm = MD5 | SHA1 | SHA256

  /** The mask bit that selects an algorithm. */
  function Flag(a: Algorithm): bv8 {
    match a
    case MD5 => SumMd5
    case SHA1 => SumSha1
    case SHA256 => SumSha256
  }

  /** Position of an algorithm in the block. */
  function Rank(a: Algorithm): nat {
    match a
    case MD5 => 0
    case SHA1 => 1
    case SHA256 => 2
  }

  /** `hash.Size()`: the digest length in bytes. */
  function DigestSize(a: Algorithm): nat {
    match a
    case MD5 => 16
    case SHA1 => 20
    case SHA256 => 32
  }

  /** The field name of an algorithm's line in a `Packages` stanza. */
  function Label(a: Algorithm): seq<Byte> {
    match a
    case MD5 => Ascii("MD5sum")
    case SHA1 => Ascii("SHA1")
    case SHA256 => Ascii("SHA256")
  }

  /** What follows a field name on a stanza line. */
  const Separator: seq<Byte> := Ascii(": ")

  /** A hash function for each algorithm: the digest of the given bytes. */
  type Hasher = (Algorithm, seq<Byte>) -> seq<Byte>

  ghost predicate FixedSizes(hash: Hasher) {
    forall a, data :: |hash(a, data)| == DigestSize(a)
  }

  /** The hashers `fileSums` creates for a mask, in the order it appends them. */
  function Selected(mask: bv8): seq<Algorithm> {
    (if mask & SumMd5 != 0 then [MD5] else [])
    + (if mask & SumSha1 != 0 then [SHA1] else [])
    + (if mask & SumSha256 != 0 then [SHA256] else [])
  }

  /** An algorithm is selected exactly when its bit is set, each at most once
      and in the fixed order; no bit of the three set means nothing is. */
  lemma SelectedInOrder(mask: bv8)
    ensures forall a :: a in Selected(mask) <==> mask & Flag(a) != 0
    ensures forall i, j | 0 <= i < j < |Selected(mask)| ::
      Rank(Selected(mask)[i]) < Rank(Selected(mask)[j])
    ensures Selected(mask) == [] <==> mask & 7 == 0
  {
  }

  /** One line of the block. */
  function Line(a: Algorithm, digest: seq<Byte>): seq<Byte> {
    Label(a) + Separator + HexOf(digest) + Newline
  }

  /** The lines of the algorithms `hh` with digests `sums`, in that order. */
  function Block(hh: seq<Algorithm>, sums: seq<seq<Byte>>): seq<Byte>
    requires |hh| == |sums|
    decreases |hh|
  {
    if hh == [] then [] else Line(hh[0], sums[0]) + Block(hh[1..], sums[1..])
  }

  /** The digests of `data` for the algorithms `hh`. */
  function Digests(hh: seq<Algorithm>, hash: Hasher, data: seq<Byte>): (d: seq<seq<Byte>>)
    ensures |d| == |hh|
  {
    seq(|hh|, i requires 0 <= i < |hh| => hash(hh[i], data))
  }

  /** The block `fileSums` returns for a mask when the file reads as `data`. */
  function Sums(mask: bv8, hash: Hasher, data: seq<Byte>): seq<Byte> {
    Block(Selected(mask), Digests(Selected(mask), hash, data))
  }

  /** The switch on the hex length: 32, 40 and 64 characters name MD5sum,
      SHA1 and SHA256; any other length gets no label. */
  function LabelForHexLen(hexLen: nat): (r: seq<Byte>)
    ensures forall a :: hexLen == 2 * DigestSize(a) ==> r == Label(a) + Separator
    ensures (forall a :: hexLen != 2 * DigestSize(a)) ==> r == []
  {
    if hexLen == 32 then assert hexLen == 2 * DigestSize(MD5); Label(MD5) + Separator
    else if hexLen == 40 then assert hexLen == 2 * DigestSize(SHA1); Label(SHA1) + Separator
    else if hexLen == 64 then assert hexLen == 2 * DigestSize(SHA256); Label(SHA256) + Separator
    else []
  }

  /** `expandLeft(b, hexLen)` then `hex.Encode(b, digest)`: writes the hex
      digest in front of the slice. */
  method EncodeLeft(b: array<Byte>, len: nat, digest: seq<Byte>)
    returns (t: array<Byte>, tlen: nat)
    requires len <= b.Length
    modifies b
    ensures tlen <= t.Length && (t == b || fresh(t))
    ensures t[..tlen] == HexOf(digest) + old(b[..len])
  {
    var hexLen := 2 * |digest|;
    t, tlen := ExpandLeft(b, len, hexLen);
    ghost var moved := t[hexLen..tlen];
    Encode(t, digest);
    assert t[hexLen..tlen] == t[hexLen..][..tlen - hexLen];
    assert t[hexLen..tlen] == moved;
    assert t[..tlen] == t[..hexLen] + t[hexLen..tlen];
  }

  /** The first half of a turn of the loop at the end of `fileSums`:
      prepends "\n", then makes room for the hex digest and writes it there. */
  method PrependHex(b: array<Byte>, len: nat, digest: seq<Byte>)
    returns (t: array<Byte>, tlen: nat)
    requires len <= b.Length
    modifies b
    ensures tlen <= t.Length && (t == b || fresh(t))
    ensures t[..tlen] == HexOf(digest) + (Newline + old(b[..len]))
  {
    t, tlen := Unshift(b, len, Newline);
    t, tlen := EncodeLeft(t, tlen, digest);
  }

  /** The `switch` on the hex length: prepends the label it names, and
      leaves the slice alone for a length it does not know. */
  method PrependLabel(b: array<Byte>, len: nat, hexLen: nat)
    returns (t: array<Byte>, tlen: nat)
    requires len <= b.Length
    modifies b
    ensures tlen <= t.Length && (t == b || fresh(t))
    ensures t[..tlen] == LabelForHexLen(hexLen) + old(b[..len])
  {
    var prefix := LabelForHexLen(hexLen);
    if prefix != [] {
      t, tlen := Unshift(b, len, prefix);
    } else {
      t, tlen := b, len;
      assert prefix + b[..len] == b[..len];
    }
  }

  /** One turn of the loop at the end of `fileSums`: the digest line, then
      the label the hex length names. */
  method PrependLine(b: array<Byte>, len: nat, a: Algorithm, digest: seq<Byte>)
    returns (t: array<Byte>, tlen: nat)
    requires len <= b.Length && |digest| == DigestSize(a)
    modifies b
    ensures tlen <= t.Length && (t == b || fresh(t))
    ensures t[..tlen] == Line(a, digest) + old(b[..len])
  {
    ghost var tail := b[..len];
    var hexLen := 2 * DigestSize(a);
    t, tlen := PrependHex(b, len, digest);
    ghost var hexLine := t[..tlen];
    t, tlen := PrependLabel(t, tlen, hexLen);
    assert t[..tlen] == (Label(a) + Separator) + (HexOf(digest) + (Newline + tail));
  }

  /** The loop at the end of `fileSums`: the block is built from its last
      line to its first, starting from `make([]byte, 0, 256)`. */
  method RenderBlock(hh: seq<Algorithm>, sums: seq<seq<Byte>>) returns (block: seq<Byte>)
    requires |hh| == |sums|
    requires forall i | 0 <= i < |hh| :: |sums[i]| == DigestSize(hh[i])
    ensures block == Block(hh, sums)
  {
    var b := new Byte[256](_ => 0);
    var len: nat := 0;
    var i := |hh| - 1;
    while i >= 0
      invariant -1 <= i < |hh|
      invariant fresh(b) && len <= b.Length
      invariant b[..len] == Block(hh[i + 1..], sums[i + 1..])
      decreases i
    {
      b, len := PrependLine(b, len, hh[i], sums[i]);
      assert hh[i..][1..] == hh[i + 1..] && sums[i..][1..] == sums[i + 1..];
      i := i - 1;
    }
    block := b[..len];
  }

  /** `fileSums(file, mask)`: hashes the rest of the file once with every
      selected algorithm and renders the block; when the mask selects nothing
      it returns an empty block without reading the file. */
  method FileSums(file: ArchiveFile, sumMask: bv8, hash: Hasher) returns (b: seq<Byte>)
    requires file.Valid() && FixedSizes(hash)
    modifies file
    ensures file.Valid()
    ensures b == Sums(sumMask, hash, old(file.Unread()))
    ensures file.pos == if Selected(sumMask) == [] then old(file.pos) else |file.content|
  {
    var hh: seq<Algorithm> := [];
    if sumMask & SumMd5 != 0 {
      hh := hh + [MD5];
    }
    if sumMask & SumSha1 != 0 {
      hh := hh + [SHA1];
    }
    if sumMask & SumSha256 != 0 {
      hh := hh + [SHA256];
    }
    assert hh == Selected(sumMask);
    if |hh| == 0 {
      return [];
    }
    var data := file.ReadAll();
    var sums := Digests(hh, hash, data);
    b := RenderBlock(hh, sums);
  }

  // Reading a block back: each line is recognised by its label, and the
  // label fixes how many hex characters follow.

  function LineLength(a: Algorithm): nat {
    |Label(a)| + 2 + 2 * DigestSize(a) + 1
  }

  /** `b` starts with a well-formed line for `a`. */
  predicate StartsWithLine(b: seq<Byte>, a: Algorithm) {
    var k := |Label(a)| + 2;
    && LineLength(a) <= |b|
    && b[..k] == Label(a) + Separator
    && b[LineLength(a) - 1] == '\n' as int
    && forall i | k <= i < LineLength(a) - 1 :: IsHexDigit(b[i])
  }

  /** The digest on the line for `a` that `b` starts with. */
  function DigestOnLine(b: seq<Byte>, a: Algorithm): seq<Byte>
    requires StartsWithLine(b, a)
  {
    Unhex(b[|Label(a)| + 2..LineLength(a) - 1])
  }

  /** The algorithms and digests of a block, or `None` if some line is not
      a checksum line. */
  function ParseBlock(b: seq<Byte>): Option<(seq<Algorithm>, seq<seq<Byte>>)>
    decreases |b|
  {
    if b == [] then Some(([], []))
    else
      var next :=
        if StartsWithLine(b, MD5) then Some(MD5)
        else if StartsWithLine(b, SHA1) then Some(SHA1)
        else if StartsWithLine(b, SHA256) then Some(SHA256)
        else None;
      match next
      case None => None
      case Some(a) =>
        match ParseBlock(b[LineLength(a)..])
        case None => None
        case Some(rest) => Some(([a] + rest.0, [DigestOnLine(b, a)] + rest.1))
  }

  /** Where the parts of `head + h + "\n" + rest` sit. */
  lemma LineLayout(head: seq<Byte>, h: seq<Byte>, rest: seq<Byte>)
    ensures var b := head + h + Newline + rest;
      && |b| == |head| + |h| + 1 + |rest|
      && b[..|head|] == head
      && b[|head|..|head| + |h|] == h
      && b[|head| + |h|] == '\n' as int
      && b[|head| + |h| + 1..] == rest
  {
  }

  /** A line followed by anything starts with a well-formed line for its own
      algorithm, which carries its digest. */
  lemma LineRecognised(a: Algorithm, d: seq<Byte>, rest: seq<Byte>)
    requires |d| == DigestSize(a)
    ensures StartsWithLine(Line(a, d) + rest, a)
    ensures DigestOnLine(Line(a, d) + rest, a) == d
    ensures (Line(a, d) + rest)[LineLength(a)..] == rest
  {
    var head := Label(a) + Separator;
    var h := HexOf(d);
    LineLayout(head, h, rest);
    var b := Line(a, d) + rest;
    assert b == head + h + Newline + rest;
    var k := |head|;
    assert k == |Label(a)| + 2 && LineLength(a) == k + |h| + 1;
    assert b[k..LineLength(a) - 1] == h;
    UnhexHex(d);
  }

  /** No earlier algorithm's line is recognised at the start of a line. */
  lemma LineNotEarlier(a: Algorithm, d: seq<Byte>, rest: seq<Byte>)
    ensures forall a' | Rank(a') < Rank(a) :: !StartsWithLine(Line(a, d) + rest, a')
  {
    var b := Line(a, d) + rest;
    assert b[0] == Label(a)[0];
    if a == SHA256 {
      assert b[3] == '2' as int;
    }
  }

  /** Parsing a block that starts with a line reads that line and goes on
      with the rest. */
  lemma ParseLine(a: Algorithm, d: seq<Byte>, rest: seq<Byte>)
    requires |d| == DigestSize(a)
    ensures ParseBlock(Line(a, d) + rest) ==
      match ParseBlock(rest)
      case None => None
      case Some(r) => Some(([a] + r.0, [d] + r.1))
  {
    var b := Line(a, d) + rest;
    LineRecognised(a, d, rest);
    LineNotEarlier(a, d, rest);
    assert b != [];
  }

  /** Parsing a rendered block gives back its algorithms and digests. */
  lemma {:induction false} ParseRenderedBlock(hh: seq<Algorithm>, sums: seq<seq<Byte>>)
    requires |hh| == |sums|
    requires forall i | 0 <= i < |hh| :: |sums[i]| == DigestSize(hh[i])
    ensures ParseBlock(Block(hh, sums)) == Some((hh, sums))
    decreases |hh|
  {
    if hh != [] {
      ParseRenderedBlock(hh[1..], sums[1..]);
      ParseLine(hh[0], sums[0], Block(hh[1..], sums[1..]));
      assert [hh[0]] + hh[1..] == hh && [sums[0]] + sums[1..] == sums;
    }
  }

  /** The block for a mask consists of exactly one line per selected
      algorithm, in the fixed order, each carrying that algorithm's digest of
      the file. */
  lemma SumsLines(mask: bv8, hash: Hasher, data: seq<Byte>)
    requires FixedSizes(hash)
    ensures ParseBlock(Sums(mask, hash, data)) ==
      Some((Selected(mask), Digests(Selected(mask), hash, data)))
  {
    var hh := Selected(mask);
    ParseRenderedBlock(hh, Digests(hh, hash, data));
  }
}
