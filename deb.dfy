/**
 * `FileMetaData`: the `Packages` stanza of a Debian binary package. The
 * control file is extracted from `control.tar.gz` inside the `ar` archive,
 * checked to hold exactly one "Package", and the `Filename:`, `Size:` and
 * checksum lines are spliced in before the last "Section", else the last
 * "Priority", else the last "Description"; every other byte is kept.
 */
module Deb {
  import opened Results
  import opened Bytes
  import opened Streams
  import opened Members
  import opened Checksums

  const ControlTarGz: seq<Byte> := Ascii("control.tar.gz")
  const Control: seq<Byte> := Ascii("control")
  const Package: seq<Byte> := Ascii("Package")
  const Section: seq<Byte> := Ascii("Section")
  const Priority: seq<Byte> := Ascii("Priority")
  const Description: seq<Byte> := Ascii("Description")
  const FilenameKey: seq<Byte> := Ascii("Filename: ")
  const SizeKey: seq<Byte> := Ascii("Size: ")

  /** The insertion markers, in the order they are searched. */
  const Markers: seq<seq<Byte>> := [Section, Priority, Description]

  // ---------------------------------------------------------------------
  // Extracting the control file: `controlFile`

  /** What the callback chain of `controlFile` reaches: the `control` entry
      of the decompressed `control.tar.gz`, no such entry or member before a
      clean end, or the error met first. */
  function LocateControl(codecs: Codecs, stream: seq<Byte>): Located {
    match ArLocate(codecs, stream, ControlTarGz)
    case Failed(e) => Failed(e)
    case Missing => Missing
    case Found(tarStream) =>
      var listing := codecs.tar(tarStream);
      Locate(listing.members, listing.end, Suffix, Control)
  }

  /** The bytes `controlFile` copies into its buffer: everything the
      `control` entry delivers, also when reading it then fails. */
  function CopiedControl(codecs: Codecs, stream: seq<Byte>): seq<Byte> {
    match LocateControl(codecs, stream)
    case Found(body) => body.bytes
    case Missing => []
    case Failed(_) => []
  }

  /** The error `controlFile` returns. A missing `control.tar.gz` member or a
      missing `control` entry inside it is not an error here. */
  function ControlError(codecs: Codecs, stream: seq<Byte>): Option<Error> {
    match LocateControl(codecs, stream)
    case Found(body) => body.fault
    case Missing => None
    case Failed(e) => Some(e)
  }

  /** The control file `FileMetaData` goes on with, or the error it returns. */
  function ExtractControl(codecs: Codecs, stream: seq<Byte>): Result<seq<Byte>> {
    match ControlError(codecs, stream)
    case Some(e) => Err(e)
    case None => Ok(CopiedControl(codecs, stream))
  }

  /** When the first `ar` member named like "control.tar.gz" decompresses,
      the control file is what the first `tar` entry whose name ends in
      "control" delivers, and a failure while reading that entry is the error
      returned; the `ar` members and `tar` entries after the matches, and how
      either listing ends, do not matter. */
  lemma ExtractControlFound(codecs: Codecs, stream: seq<Byte>, k: int, tarStream: Stream, j: int)
    requires FirstMatchAt(codecs.ar(stream).members, Prefix, ControlTarGz, k)
    requires codecs.gunzip(codecs.ar(stream).members[k].body) == Ok(tarStream)
    requires FirstMatchAt(codecs.tar(tarStream).members, Suffix, Control, j)
    ensures CopiedControl(codecs, stream) == codecs.tar(tarStream).members[j].body.bytes
    ensures ExtractControl(codecs, stream) ==
      match codecs.tar(tarStream).members[j].body.fault
      case None => Ok(codecs.tar(tarStream).members[j].body.bytes)
      case Some(e) => Err(e)
  {
    var listing := codecs.ar(stream);
    LocateFirstMatch(listing.members, listing.end, Prefix, ControlTarGz, k);
    assert HasSuffix(ControlTarGz, Gz);
    var inner := codecs.tar(tarStream);
    LocateFirstMatch(inner.members, inner.end, Suffix, Control, j);
  }

  /** A gzip header error in the first matching `ar` member is the error
      returned, and nothing is copied. */
  lemma ExtractControlCorrupt(codecs: Codecs, stream: seq<Byte>, k: int, e: Error)
    requires FirstMatchAt(codecs.ar(stream).members, Prefix, ControlTarGz, k)
    requires codecs.gunzip(codecs.ar(stream).members[k].body) == Err(e)
    ensures CopiedControl(codecs, stream) == []
    ensures ExtractControl(codecs, stream) == Err(e)
  {
    var listing := codecs.ar(stream);
    LocateFirstMatch(listing.members, listing.end, Prefix, ControlTarGz, k);
    assert HasSuffix(ControlTarGz, Gz);
  }

  /** `controlFile(file, buf)`: the callback `arFile` runs on the
      decompressed `control.tar.gz` is `tarFile` for "control", whose own
      callback is `io.Copy` into `buf`: it writes what the entry delivers and
      then returns the read error, if any. */
  method ControlFile(file: ArchiveFile, codecs: Codecs, buf: Buffer) returns (err: Option<Error>)
    requires file.Valid()
    modifies file, buf
    ensures file.Valid()
    ensures err == ControlError(codecs, old(file.Unread()))
    ensures buf.data == old(buf.data) + CopiedControl(codecs, old(file.Unread()))
  {
    var outer := ArFile(file, codecs, ControlTarGz);
    match outer
    case Failed(e) =>
      return Some(e);
    case Missing =>
      return None;
    case Found(tarStream) =>
      var inner := TarFile(tarStream, codecs.tar, Control);
      match inner
      case Failed(e) =>
        return Some(e);
      case Missing =>
        return None;
      case Found(body) =>
        buf.Write(body.bytes);
        return body.fault;
  }

  // ---------------------------------------------------------------------
  // Validation: the raw count of "Package"

  /** Every "Package" in a text starts at least seven bytes after any earlier
      one: no suffix of the word is a prefix of it. */
  lemma PackageOccurrencesApart(s: seq<Byte>, i: int, j: int)
    requires OccursAt(s, Package, i) && OccursAt(s, Package, j) && i < j
    ensures i + |Package| <= j
  {
    assert s[j] == s[j..j + |Package|][0] == Package[0];
    assert forall d | 0 < d < |Package| :: Package[d] != Package[0];
  }

  ghost predicate OccursTwice(s: seq<Byte>, sep: seq<Byte>) {
    exists i, j :: i < j && OccursAt(s, sep, i) && OccursAt(s, sep, j)
  }

  ghost predicate OccursOnce(s: seq<Byte>, sep: seq<Byte>) {
    exists i :: OccursAt(s, sep, i) && forall j :: OccursAt(s, sep, j) ==> j == i
  }

  /** For "Package", the greedy count of `bytes.Count` is zero, one, or more
      exactly when the word occurs nowhere, at one index, or at two. */
  lemma PackageCount(s: seq<Byte>)
    ensures Count(s, Package) == 0 <==> !Occurs(s, Package)
    ensures Count(s, Package) == 1 <==> OccursOnce(s, Package)
    ensures Count(s, Package) > 1 <==> OccursTwice(s, Package)
  {
    CountZero(s, Package);
    CountTwo(s, Package);
    if OccursTwice(s, Package) {
      var i, j :| i < j && OccursAt(s, Package, i) && OccursAt(s, Package, j);
      PackageOccurrencesApart(s, i, j);
      assert TwoApart(s, Package);
    }
    if TwoApart(s, Package) {
      var i, j :| OccursAt(s, Package, i) && OccursAt(s, Package, j) && i + |Package| <= j;
      assert OccursTwice(s, Package);
    }
    if Occurs(s, Package) && !OccursTwice(s, Package) {
      var i :| OccursAt(s, Package, i);
      assert forall j :: OccursAt(s, Package, j) ==> j == i;
      assert OccursOnce(s, Package);
    }
  }

  // ---------------------------------------------------------------------
  // The insertion point: a priority search over the markers

  /** The rightmost occurrence of the first of `markers` that occurs in `s`;
      the markers after it are not looked at. */
  function FirstMarkerPoint(s: seq<Byte>, markers: seq<seq<Byte>>): (p: Option<nat>)
    ensures p.Some? ==> p.value <= |s|
    decreases |markers|
  {
    if markers == [] then None
    else
      var point := LastIndex(s, markers[0]);
      if point > -1 then Some(point) else FirstMarkerPoint(s, markers[1..])
  }

  /** Where `FileMetaData` inserts the new fields, if anywhere. */
  function InsertionPoint(s: seq<Byte>): (p: Option<nat>)
    ensures p.Some? ==> p.value <= |s|
  {
    FirstMarkerPoint(s, Markers)
  }

  /** Marker `k` is the first of `markers` that occurs in `s`, and `p` is
      where it occurs last. */
  ghost predicate ChosenMarker(s: seq<Byte>, markers: seq<seq<Byte>>, k: int, p: int) {
    && 0 <= k < |markers|
    && (forall j | 0 <= j < k :: !Occurs(s, markers[j]))
    && OccursAt(s, markers[k], p)
    && (forall q | p < q :: !OccursAt(s, markers[k], q))
  }

  /** The search finds nothing exactly when no marker occurs. */
  lemma {:induction false} FirstMarkerPointNone(s: seq<Byte>, markers: seq<seq<Byte>>)
    ensures FirstMarkerPoint(s, markers) == None <==> forall k | 0 <= k < |markers| :: !Occurs(s, markers[k])
    decreases |markers|
  {
    if markers != [] {
      FirstMarkerPointNone(s, markers[1..]);
      assert forall k | 1 <= k < |markers| :: markers[k] == markers[1..][k - 1];
    }
  }

  /** The rightmost occurrence of the first marker that occurs is the point
      the search returns. */
  lemma {:induction false} ChosenMarkerIsPoint(s: seq<Byte>, markers: seq<seq<Byte>>, k: int, p: int)
    requires ChosenMarker(s, markers, k, p)
    ensures FirstMarkerPoint(s, markers) == Some(p)
    decreases |markers|
  {
    var point := LastIndex(s, markers[0]);
    if k == 0 {
      assert point != -1;
      assert !(point < p) && !(p < point);
    } else {
      assert !Occurs(s, markers[0]);
      assert ChosenMarker(s, markers[1..], k - 1, p);
      ChosenMarkerIsPoint(s, markers[1..], k - 1, p);
    }
  }

  /** Whatever point the search returns is the rightmost occurrence of the
      first marker that occurs. */
  lemma {:induction false} PointIsChosenMarker(s: seq<Byte>, markers: seq<seq<Byte>>)
    requires FirstMarkerPoint(s, markers).Some?
    ensures exists k :: ChosenMarker(s, markers, k, FirstMarkerPoint(s, markers).value)
    decreases |markers|
  {
    var p := FirstMarkerPoint(s, markers).value;
    var point := LastIndex(s, markers[0]);
    if point > -1 {
      assert ChosenMarker(s, markers, 0, p);
    } else {
      PointIsChosenMarker(s, markers[1..]);
      var k :| ChosenMarker(s, markers[1..], k, p);
      assert ChosenMarker(s, markers, k + 1, p);
    }
  }

  // ---------------------------------------------------------------------
  // The splice

  /** The lines `FileMetaData` inserts: `Filename:`, `Size:`, then the
      checksum block. */
  function Fields(filePrefix: seq<Byte>, name: seq<Byte>, size: nat, sums: seq<Byte>): seq<Byte> {
    FilenameKey + Join(filePrefix, name) + Newline + SizeKey + Decimal(size) + Newline + sums
  }

  /** The stanza for an extracted control file, given the lines to insert. */
  function Splice(control: seq<Byte>, fields: seq<Byte>): Result<seq<Byte>> {
    var n := Count(control, Package);
    if n == 0 then Err(PackageFieldRequired)
    else if n > 1 then Err(PackageFieldMultiple)
    else
      match InsertionPoint(control)
      case None => Ok(control)
      case Some(p) => Ok(control[..p] + fields + control[p..])
  }

  /** The result of `FileMetaData` on an archive called `name` holding
      `content`, whose reader starts at `unread`: the checksums are of the
      whole file. */
  function ScanPackage(
    codecs: Codecs, hash: Hasher, sumMask: bv8, filePrefix: seq<Byte>,
    name: seq<Byte>, content: seq<Byte>, unread: seq<Byte>): Result<seq<Byte>>
  {
    match ExtractControl(codecs, unread)
    case Err(e) => Err(e)
    case Ok(control) =>
      Splice(control, Fields(filePrefix, name, |content|, Sums(sumMask, hash, content)))
  }

  /** The validation outcome depends only on where "Package" occurs: nowhere,
      twice or more, or exactly once. */
  lemma SpliceValidation(control: seq<Byte>, fields: seq<Byte>)
    ensures Splice(control, fields) == Err(PackageFieldRequired) <==> !Occurs(control, Package)
    ensures Splice(control, fields) == Err(PackageFieldMultiple) <==> OccursTwice(control, Package)
    ensures Splice(control, fields).Ok? <==> OccursOnce(control, Package)
  {
    PackageCount(control);
  }

  /** With one "Package" and a marker, the fields go right before the
      rightmost occurrence of the first marker found, and both halves of the
      control file are kept byte for byte. */
  lemma SpliceAtMarker(control: seq<Byte>, fields: seq<Byte>, k: int, p: int)
    requires OccursOnce(control, Package)
    requires ChosenMarker(control, Markers, k, p)
    ensures Splice(control, fields).Ok?
    ensures Splice(control, fields).value == control[..p] + fields + control[p..]
    ensures var out := Splice(control, fields).value;
      && |out| == |control| + |fields|
      && out[..p] == control[..p]
      && out[p..p + |fields|] == fields
      && out[p + |fields|..] == control[p..]
  {
    PackageCount(control);
    ChosenMarkerIsPoint(control, Markers, k, p);
  }

  /** With one "Package" and none of the markers, the control file comes back
      unchanged: no fields are added. */
  lemma SpliceWithoutMarker(control: seq<Byte>, fields: seq<Byte>)
    requires OccursOnce(control, Package)
    requires forall k | 0 <= k < |Markers| :: !Occurs(control, Markers[k])
    ensures Splice(control, fields) == Ok(control)
  {
    PackageCount(control);
    FirstMarkerPointNone(control, Markers);
  }

  /** A package whose `ar` listing ends cleanly without a member named like
      `control.tar.gz` is rejected for having no "Package" field. */
  lemma MissingControlRejected(
    codecs: Codecs, hash: Hasher, sumMask: bv8, filePrefix: seq<Byte>,
    name: seq<Byte>, content: seq<Byte>, unread: seq<Byte>)
    requires NoMatch(codecs.ar(unread).members, Prefix, ControlTarGz)
    requires codecs.ar(unread).end == None
    ensures ScanPackage(codecs, hash, sumMask, filePrefix, name, content, unread) == Err(PackageFieldRequired)
  {
    var listing := codecs.ar(unread);
    LocateNoMatch(listing.members, listing.end, Prefix, ControlTarGz);
  }

  /** So is one whose `control.tar.gz` decompresses to a `tar` listing that
      ends cleanly without an entry named like "control". */
  lemma MissingControlEntryRejected(
    codecs: Codecs, hash: Hasher, sumMask: bv8, filePrefix: seq<Byte>,
    name: seq<Byte>, content: seq<Byte>, unread: seq<Byte>, k: int, tarStream: Stream)
    requires FirstMatchAt(codecs.ar(unread).members, Prefix, ControlTarGz, k)
    requires codecs.gunzip(codecs.ar(unread).members[k].body) == Ok(tarStream)
    requires NoMatch(codecs.tar(tarStream).members, Suffix, Control)
    requires codecs.tar(tarStream).end == None
    ensures ScanPackage(codecs, hash, sumMask, filePrefix, name, content, unread) == Err(PackageFieldRequired)
  {
    var listing := codecs.ar(unread);
    LocateFirstMatch(listing.members, listing.end, Prefix, ControlTarGz, k);
    assert HasSuffix(ControlTarGz, Gz);
    var inner := codecs.tar(tarStream);
    LocateNoMatch(inner.members, inner.end, Suffix, Control);
  }

  // ---------------------------------------------------------------------
  // `FileMetaData`

  lemma Regroup(left: seq<Byte>, a: seq<Byte>, b: seq<Byte>, c: seq<Byte>)
    ensures left + a + b + c == left + (a + b + c)
  {
  }

  /** The fields as the two lines and the checksum block written one by one. */
  lemma FieldsLines(filePrefix: seq<Byte>, name: seq<Byte>, size: nat, sums: seq<Byte>)
    ensures Fields(filePrefix, name, size, sums)
      == (FilenameKey + Join(filePrefix, name) + Newline) + (SizeKey + Decimal(size) + Newline) + sums
  {
  }

  /** The branch of `FileMetaData` that found a marker at `point`: cut the
      buffer there, write the `Filename:` and `Size:` lines and the checksums
      of the rewound file, then the cut-off tail. */
  method InsertFields(
    buf: Buffer, point: nat, file: ArchiveFile, hash: Hasher, sumMask: bv8, filePrefix: seq<Byte>)
    requires point <= |buf.data|
    requires file.Valid() && file.pos == 0 && FixedSizes(hash)
    modifies buf, file
    ensures file.Valid()
    ensures file.pos == if Selected(sumMask) == [] then 0 else |file.content|
    ensures buf.data ==
      old(buf.data)[..point]
      + Fields(filePrefix, file.name, |file.content|, Sums(sumMask, hash, file.content))
      + old(buf.data)[point..]
  {
    ghost var left := buf.data[..point];
    var right := buf.Bytes()[point..];
    buf.Truncate(point);

    var name, size := file.Stat();
    var filenameLine := FilenameKey + Join(filePrefix, name) + Newline;
    var sizeLine := SizeKey + Decimal(size) + Newline;
    buf.Write(filenameLine);
    buf.Write(sizeLine);

    assert file.Unread() == file.content;
    var sums := FileSums(file, sumMask, hash);
    buf.Write(sums);
    Regroup(left, filenameLine, sizeLine, sums);
    FieldsLines(filePrefix, name, size, sums);
    ghost var fields := filenameLine + sizeLine + sums;
    assert buf.data == left + fields;

    buf.Write(right);
  }

  /** `FileMetaData(file, sumMask, filePrefix)`: the stanza, or the first
      error met. On success the file was rewound before the checksums were
      taken, and is read to the end exactly when they were. */
  method FileMetaData(file: ArchiveFile, codecs: Codecs, hash: Hasher, sumMask: bv8, filePrefix: seq<Byte>)
    returns (r: Result<seq<Byte>>)
    requires file.Valid() && FixedSizes(hash)
    modifies file
    ensures file.Valid()
    ensures r == ScanPackage(codecs, hash, sumMask, filePrefix, file.name, file.content, old(file.Unread()))
    ensures r.Ok? ==>
      && ExtractControl(codecs, old(file.Unread())).Ok?
      && file.pos ==
        if InsertionPoint(ExtractControl(codecs, old(file.Unread())).value) == None || Selected(sumMask) == []
        then 0 else |file.content|
  {
    ghost var extracted := ExtractControl(codecs, file.Unread());
    var buf := new Buffer();
    var err := ControlFile(file, codecs, buf);
    if err.Some? {
      return Err(err.value);
    }
    assert [] + CopiedControl(codecs, old(file.Unread())) == CopiedControl(codecs, old(file.Unread()));
    assert extracted.Ok? && buf.data == extracted.value;
    ghost var control := buf.Bytes();
    ghost var fields := Fields(filePrefix, file.name, |file.content|, Sums(sumMask, hash, file.content));

    var l := Count(buf.Bytes(), Package);
    if l == 0 {
      return Err(PackageFieldRequired);
    } else if l > 1 {
      return Err(PackageFieldMultiple);
    }

    file.Rewind();

    var breakPoint := Markers;
    var i := 0;
    while i < |breakPoint|
      invariant 0 <= i <= |breakPoint|
      invariant buf.data == control
      invariant file.Valid() && file.pos == 0
      invariant FirstMarkerPoint(control, breakPoint[i..]) == InsertionPoint(control)
    {
      var point := LastIndex(buf.Bytes(), breakPoint[i]);
      if point > -1 {
        InsertFields(buf, point, file, hash, sumMask, filePrefix);
        assert InsertionPoint(control) == Some(point);
        return Ok(buf.Bytes());
      }
      assert breakPoint[i..][1..] == breakPoint[i + 1..];
      i := i + 1;
    }

    return Ok(buf.Bytes());
  }
}
