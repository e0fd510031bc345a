/**
 * `arFile` and `tarFile`: find the first member of a sequential container
 * whose name matches, and hand its body to a callback.
 *
 * The `ar` and `tar` framings and gzip decompression are library code; they
 * are parameters here (`Codecs`). A decoded container is a `Listing`: its
 * members in order, then either a clean end (`io.EOF`) or an error.
 *
 * Go's `fileCallback` is passed a reader over the matched body. A Dafny
 * method cannot be passed as a value, so a locator returns what it would have
 * passed (`Found(body)`), or why it found nothing, and its caller runs the
 * callback on a `Found` result: once, on the first match, returning the
 * callback's own result.
 */
module Members {
  import opened Results
  import opened Bytes
  import opened Streams

  /** A byte stream as a reader delivers it: the bytes read before any
      failure, then how reading ends (`None` for `io.EOF`, `Some(e)` when a
      read fails with `e`, such as a truncated entry). */
  datatype Stream = Stream(bytes: seq<Byte>, fault: Option<Error>)

  datatype Member = Member(name: seq<Byte>, body: Stream)

  /** The members a container reader yields, in order, and how the sequence
      ends: `None` for `io.EOF`, `Some(e)` when `Next()` fails with `e`. */
  datatype Listing = Listing(members: seq<Member>, end: Option<Error>)

  /** The library decoders: `ar` and `tar` framing, and gzip decompression.
      `gunzip` fails when `gzip.NewReader` rejects the header; otherwise it
      gives the stream the decompressing reader delivers, whose fault is the
      error it reports once the reading gets there (a corrupt block, or the
      CRC-32 and size trailer, which is only checked at the end). `tar` is
      expected to follow `tar.Reader`: it lists an entry once the entry's
      header was delivered; the entry's body is the delivered bytes up to the
      entry's declared end, and it carries the stream's fault only when that
      fault comes before that end; a fault met while looking for a later
      header ends the listing. Nothing in the model enforces this. */
  datatype Codecs = Codecs(
    ar: seq<Byte> -> Listing,
    tar: Stream -> Listing,
    gunzip: Stream -> Result<Stream>)

  /** `ar` members are matched by name prefix, `tar` members by name suffix. */
  datatype Rule = Prefix | Suffix

  predicate NameMatches(rule: Rule, name: seq<Byte>, target: seq<Byte>) {
    match rule
    case Prefix => HasPrefix(name, target)
    case Suffix => HasSuffix(name, target)
  }

  /** The outcome of a locator: the body the callback is given, no matching
      member before a clean end, or the error that stopped the scan. */
  datatype Located = Found(body: Stream) | Missing | Failed(error: Error)

  /** What `reader.Next()` returns. */
  datatype Step = Header(member: Member) | Eof | Fail(error: Error)

  /** An `ar.Reader` or `tar.Reader`: a cursor over a listing. */
  class MemberReader {
    var pending: seq<Member>
    const end: Option<Error>

    constructor (listing: Listing)
      ensures pending == listing.members && end == listing.end
    {
      pending := listing.members;
      end := listing.end;
    }

    /** `reader.Next()`: the next member, or the way the listing ends. */
    method Next() returns (step: Step)
      modifies this
      ensures old(pending) != [] ==> step == Header(old(pending)[0]) && pending == old(pending)[1..]
      ensures old(pending) == [] ==> pending == [] && step == if end == None then Eof else Fail(end.value)
    {
      if pending != [] {
        step := Header(pending[0]);
        pending := pending[1..];
      } else if end == None {
        step := Eof;
      } else {
        step := Fail(end.value);
      }
    }
  }

  /** The result of scanning `members` (then `end`) for the first name that
      matches `target`. */
  function Locate(members: seq<Member>, end: Option<Error>, rule: Rule, target: seq<Byte>): Located
    decreases |members|
  {
    if members == [] then (if end == None then Missing else Failed(end.value))
    else if NameMatches(rule, members[0].name, target) then Found(members[0].body)
    else Locate(members[1..], end, rule, target)
  }

  /** Member `k` is the first whose name matches. */
  ghost predicate FirstMatchAt(members: seq<Member>, rule: Rule, target: seq<Byte>, k: int) {
    && 0 <= k < |members|
    && NameMatches(rule, members[k].name, target)
    && forall j | 0 <= j < k :: !NameMatches(rule, members[j].name, target)
  }

  ghost predicate NoMatch(members: seq<Member>, rule: Rule, target: seq<Byte>) {
    forall k | 0 <= k < |members| :: !NameMatches(rule, members[k].name, target)
  }

  /** The body of the first matching member is what is found, whatever
      follows it, including a broken remainder. */
  lemma {:induction false} LocateFirstMatch(members: seq<Member>, end: Option<Error>, rule: Rule, target: seq<Byte>, k: int)
    requires FirstMatchAt(members, rule, target, k)
    ensures Locate(members, end, rule, target) == Found(members[k].body)
    decreases |members|
  {
    if k > 0 {
      assert !NameMatches(rule, members[0].name, target);
      LocateFirstMatch(members[1..], end, rule, target, k - 1);
    }
  }

  /** With no matching member, the scan reports how the listing ends: a clean
      end is success with nothing found. */
  lemma {:induction false} LocateNoMatch(members: seq<Member>, end: Option<Error>, rule: Rule, target: seq<Byte>)
    requires NoMatch(members, rule, target)
    ensures Locate(members, end, rule, target) == if end == None then Missing else Failed(end.value)
    decreases |members|
  {
    if members != [] {
      assert !NameMatches(rule, members[0].name, target);
      LocateNoMatch(members[1..], end, rule, target);
    }
  }

  /** A body is found only if it is the body of the first matching member. */
  lemma {:induction false} LocateFoundIsFirst(members: seq<Member>, end: Option<Error>, rule: Rule, target: seq<Byte>)
    requires Locate(members, end, rule, target).Found?
    ensures exists k ::
      FirstMatchAt(members, rule, target, k) && members[k].body == Locate(members, end, rule, target).body
    decreases |members|
  {
    if NameMatches(rule, members[0].name, target) {
      assert FirstMatchAt(members, rule, target, 0);
    } else {
      LocateFoundIsFirst(members[1..], end, rule, target);
      var k :|
        FirstMatchAt(members[1..], rule, target, k) && members[1..][k].body == Locate(members[1..], end, rule, target).body;
      assert FirstMatchAt(members, rule, target, k + 1);
    }
  }

  /** The scan loop shared by `arFile` and `tarFile`: read headers until a
      name matches, the listing ends (no error) or `Next()` fails. */
  method Scan(reader: MemberReader, rule: Rule, target: seq<Byte>) returns (r: Located)
    modifies reader
    ensures r == Locate(old(reader.pending), reader.end, rule, target)
  {
    while true
      invariant Locate(reader.pending, reader.end, rule, target)
        == Locate(old(reader.pending), reader.end, rule, target)
      decreases |reader.pending|
    {
      var step := reader.Next();
      match step
      case Eof =>
        return Missing;
      case Fail(e) =>
        return Failed(e);
      case Header(m) =>
        if NameMatches(rule, m.name, target) {
          return Found(m.body);
        }
    }
  }

  const Gz: seq<Byte> := Ascii(".gz")

  /** What `arFile` hands its callback: the first member whose name starts
      with `target`, decompressed when `target` ends in ".gz". */
  function ArLocate(codecs: Codecs, stream: seq<Byte>, target: seq<Byte>): Located {
    var listing := codecs.ar(stream);
    match Locate(listing.members, listing.end, Prefix, target)
    case Found(body) =>
      if HasSuffix(target, Gz) then
        match codecs.gunzip(body)
        case Ok(data) => Found(data)
        case Err(e) => Failed(e)
      else Found(body)
    case Missing => Missing
    case Failed(e) => Failed(e)
  }

  /** `arFile(file, sFile, cb)` up to the callback: scans the `ar` members of
      the rest of the file by name prefix and wraps the body of the first
      match in a gzip reader when `sFile` ends in ".gz". The file has been
      read some way further. */
  method ArFile(file: ArchiveFile, codecs: Codecs, sFile: seq<Byte>) returns (r: Located)
    requires file.Valid()
    modifies file
    ensures file.Valid() && old(file.pos) <= file.pos
    ensures r == ArLocate(codecs, old(file.Unread()), sFile)
  {
    var reader := new MemberReader(codecs.ar(file.Unread()));
    r := Scan(reader, Prefix, sFile);
    if r.Found? && HasSuffix(sFile, Gz) {
      match codecs.gunzip(r.body)
      case Ok(data) =>
        r := Found(data);
      case Err(e) =>
        r := Failed(e);
    }
    file.Consume();
  }

  /** `tarFile(r, sFile, cb)` up to the callback: scans the `tar` members of
      `stream` for the first name ending in `sFile`. */
  method TarFile(stream: Stream, tar: Stream -> Listing, sFile: seq<Byte>) returns (r: Located)
    ensures r == Locate(tar(stream).members, tar(stream).end, Suffix, sFile)
  {
    var reader := new MemberReader(tar(stream));
    r := Scan(reader, Suffix, sFile);
  }
}
