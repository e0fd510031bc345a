# go-dpkg-scanpackages: the `Packages` stanza of a `.deb`, in Dafny

This project models `deb.go`, which builds the `Packages` index entry for one
Debian binary package, and proves properties of that model.

- **Control file.** `controlFile` finds the first member whose name starts with `control.tar.gz` in the outer `ar` archive. It decompresses that member and copies the first `tar` entry whose name ends in `control` into a buffer; a read error while copying is returned after the bytes read so far.
- **Validation.** `FileMetaData` requires the raw text `Package` to occur exactly once in that buffer.
- **Splice.** `FileMetaData` rewinds the file and searches the markers `Section`, `Priority` and `Description` in that order. At the rightmost occurrence of the first marker found it inserts three things:
  - a `Filename:` line (the path prefix joined to the file name);
  - a `Size:` line;
  - the checksum block.
- **Checksums.** `fileSums` builds the checksum block. It has one `MD5sum:`/`SHA1:`/`SHA256:` line per bit of the mask (1, 2, 4), always in that order. It renders the lines back to front into a byte slice with spare capacity, using `unshift` and `expandLeft`.

Modules:

- `Results`: the errors, plus `Option` and `Result`.
- `Bytes`: bytes and ASCII literals, and substring occurrence. It defines `bytes.Count` and `bytes.LastIndex`, decimal rendering, and the path join.
- `Hex`: `hex.Encode` as a loop over an array, with the rendering function and its inverse.
- `Slices`: `expandLeft` and `unshift` over an array with capacity. The array is the slice's storage and its length is `cap`.
- `Streams`: the archive file as a class with a read position, and `bytes.Buffer` as a class holding a byte sequence.
- `Members`: the `ar`/`tar` readers as a cursor class, the shared scan loop, `arFile` and `tarFile`.
- `Checksums`: the mask, the block, `fileSums`, and a parser that reads a block back.
- `Deb`: `controlFile`, validation, the marker search, the splice and `FileMetaData`.

Every method is proved against a function of its inputs or old state, except for one thing it leaves open: the read position. `Streams.ArchiveFile.Consume` moves it forward by an unspecified amount, standing for how far the `ar` reader reads. `Members.ArFile`, `Deb.ControlFile` and `Deb.FileMetaData` (on its error paths) call it, so the position they leave is unspecified too.

- `FileMetaData` returns exactly `ScanPackage(...)`.
- `FileSums` returns `Sums(mask, hash, bytes read)`.
- `Unshift` leaves `data ++ old slice` in the first `len + |data|` cells.

Lemmas then state what those functions mean:

- the validation outcome holds if and only if "Package" occurs nowhere, twice, or once;
- the marker search picks the rightmost occurrence of the first marker present, in both directions;
- the splice keeps both halves of the control file byte for byte;
- a rendered checksum block parses back to its algorithms and digests;
- hex decoding undoes hex rendering.

Two behaviours of the code are modelled as written:

- **Raw-substring validation.** "Package" is counted as a raw substring. It is not matched as a field key.
- **No marker, no fields.** A stanza with none of the three markers comes back with no `Filename`/`Size`/checksum fields (`Deb.SpliceWithoutMarker`).

Inputs the model takes as parameters:

- the `ar` and `tar` framings and gzip decompression, as `Members.Codecs`, over `Members.Stream` values: the bytes a reader delivers, then the error that stops it, if any;
- the hash functions, as `Checksums.Hasher`, with a fixed digest size per algorithm;
- the file's name and contents, as constants of `Streams.ArchiveFile`.

## Model

| member | source | states |
|---|---|---|
| Deb.FileMetaData | deb.go:39-98 | The result is exactly `ScanPackage` of the file's name, full contents and unread bytes: the control-file error, the validation error, or the spliced stanza. On success the file was rewound, and it ends at EOF exactly when a marker was found and the mask selects an algorithm. |
| Deb.InsertFields | deb.go:74-91 | The buffer becomes its first `point` bytes, then `Filename:`/`Size:`/checksum lines of the rewound file, then the cut-off tail. The file is read to the end exactly when the mask selects something. |
| Deb.ControlFile | deb.go:101-120 | It returns `ControlError` of the unread bytes and appends exactly `CopiedControl` to the buffer: the bytes the `control` entry delivers, then the read error of the copy (deb.go:109), or nothing and the locator's error. |
| Deb.ExtractControlFound | deb.go:107-115 | If the first `ar` member whose name starts with "control.tar.gz" decompresses, the copied bytes are what the first `tar` entry ending in "control" delivers. The result is those bytes, or that entry's read error. Later `ar` members and `tar` entries, and how either listing ends, do not affect the result. |
| Deb.ExtractControlCorrupt | deb.go:239-244 | A gzip header error on the first matching `ar` member is the error returned, and nothing is copied. |
| Deb.MissingControlRejected | deb.go:46-51 | An `ar` listing that ends cleanly with no member starting with "control.tar.gz" yields `PackageFieldRequired`. |
| Deb.MissingControlEntryRejected | deb.go:46-51 | A `control.tar.gz` whose `tar` listing ends cleanly with no entry ending in "control" yields `PackageFieldRequired`. |
| Deb.PackageOccurrencesApart | deb.go:50 | Two occurrences of "Package" at different indices are at least seven bytes apart, since the word has no border. |
| Deb.PackageCount | deb.go:50-54 | The greedy count of "Package" is 0, 1, or more than 1 exactly when the word occurs nowhere, at exactly one index, or at two distinct indices. |
| Deb.SpliceValidation | deb.go:50-54 | `PackageFieldRequired` if and only if "Package" does not occur. `PackageFieldMultiple` if and only if it occurs at two indices. Success if and only if it occurs exactly once. |
| Deb.FirstMarkerPoint | deb.go:65-68 | A found insertion point lies within the text. |
| Deb.InsertionPoint | deb.go:58-68 | A found insertion point lies within the control text. |
| Deb.FirstMarkerPointNone | deb.go:65-95 | The search finds no point if and only if none of the markers occurs. |
| Deb.ChosenMarkerIsPoint | deb.go:58-68 | If marker `k` is the first one present and `p` is its rightmost occurrence, the search returns `p`. |
| Deb.PointIsChosenMarker | deb.go:58-68 | Any point the search returns is the rightmost occurrence of the first marker present. |
| Deb.SpliceAtMarker | deb.go:74-91 | With one "Package" and a chosen marker at `p`, the stanza has the following layout: `control[..p]`, then the fields, then `control[p..]`. Its length is the sum of both parts. |
| Deb.SpliceWithoutMarker | deb.go:65-97 | With one "Package" and no marker, the stanza is the control file unchanged. |
| Bytes.CountZero | deb.go:50-51 | `bytes.Count` is zero if and only if the separator occurs nowhere. |
| Bytes.CountTwo | deb.go:52-53 | `bytes.Count` is at least two if and only if two non-overlapping occurrences exist. |
| Bytes.LastIndex | deb.go:66-68 | `bytes.LastIndex` is -1 if and only if the separator does not occur. Otherwise it is an occurrence with no occurrence after it. |
| Bytes.Decimal | deb.go:83 | `strconv.FormatInt(size, 10)` is a non-empty string of decimal digits. |
| Bytes.DecimalRoundTrip | deb.go:83 | Parsing the decimal rendering gives back the size. It has no leading zero unless the size is 0. |
| Hex.HexOf | deb.go:163-168 | The hex rendering is twice as long as the digest (`hex.EncodedLen`) and uses only lowercase hex digits. |
| Hex.UnhexHex | deb.go:168 | Decoding the hex rendering gives back the digest. |
| Hex.HexUnhex | deb.go:168 | Every even-length string of hex digits is the rendering of its decoding. |
| Hex.Encode | deb.go:168 | `hex.Encode` writes the rendering of `src` into the first 2n cells of `dst`, where n is the length of `src`, and leaves the other cells unchanged. |
| Slices.ExpandLeft | deb.go:188-207 | The new length is `len + shift` and stays below the capacity. The old bytes now sit at `shift..`. In place: the bytes before `shift` and after the new length are unchanged. Grown: a fresh array of capacity `2*len+shift+1`, zero beyond the new length, and the old array untouched. |
| Slices.Unshift | deb.go:210-218 | The slice becomes `data ++ old slice`. It is grown exactly when the capacity does not exceed the new length; otherwise it stays in place with the tail unchanged. |
| Checksums.SelectedInOrder | deb.go:129-146 | An algorithm is selected if and only if its mask bit is set. The selection is in strict MD5, SHA1, SHA256 order, and is empty if and only if none of bits 1, 2, 4 is set. |
| Checksums.Digests | deb.go:154-158 | There is one digest per selected hasher. |
| Checksums.LabelForHexLen | deb.go:170-180 | A hex length of twice an algorithm's digest size gets that algorithm's label. Any other length gets no label. |
| Checksums.PrependHex | deb.go:163-168 | After the `unshift("\n")`, `expandLeft(hexLen)` and `hex.Encode` steps, the slice is `hex(digest) ++ "\n" ++ old slice`. |
| Checksums.EncodeLeft | deb.go:167-168 | `expandLeft(b, hexLen)` followed by `hex.Encode` leaves the slice as `hex(digest) ++ old slice`. |
| Checksums.PrependLabel | deb.go:170-180 | The `switch` prepends exactly the label `LabelForHexLen` names, and leaves the slice unchanged for any other length. |
| Checksums.PrependLine | deb.go:162-181 | One turn of the loop prepends exactly the line `Label: hex\n` of that algorithm. |
| Checksums.RenderBlock | deb.go:160-182 | The back-to-front loop returns the lines of all hashers in their original order. |
| Checksums.FileSums | deb.go:123-185 | The result is the block of the selected algorithms' digests of the bytes read. With no algorithm selected it is empty and the file is not read; otherwise the file is read to EOF. |
| Checksums.ParseRenderedBlock | deb.go:160-182 | A rendered block parses back to exactly its algorithms and digests. |
| Checksums.SumsLines | deb.go:123-185 | The block for a mask is one line per selected algorithm, in order, carrying that algorithm's digest of the file. |
| Members.MemberReader.Next | deb.go:230 | `Next()` yields the next header, or at the end `io.EOF` or the listing's error. |
| Members.Scan | deb.go:229-251 | The scan loop returns `Locate` of the pending members: the first match, `Missing` at a clean end, or the error. |
| Members.LocateFirstMatch | deb.go:238-250 | The body of the first matching member is found, whatever follows it. |
| Members.LocateNoMatch | deb.go:230-236 | With no match, a clean end is success with nothing found, and any other end is that error. |
| Members.LocateFoundIsFirst | deb.go:238-250 | Whatever is found is the body of the first matching member. |
| Members.ArFile | deb.go:221-254 | The result is the first `ar` member whose name starts with `sFile`. It is passed through gzip exactly when `sFile` ends in ".gz", and a gzip error is returned. |
| Members.TarFile | deb.go:257-280 | The result is the first `tar` member whose name ends with `sFile`, or how the listing ended. |
| Streams.ArchiveFile.Stat | deb.go:79 | `file.Stat()` gives the file's name and its full size. |
| Streams.ArchiveFile.Rewind | deb.go:56 | `file.Seek(0, 0)` moves the read position to the start. |
| Streams.ArchiveFile.ReadAll | deb.go:156 | `io.Copy` from the file returns the unread bytes and leaves the file at EOF. |
| Streams.Buffer.Write | deb.go:82-91 | `buf.Write(p)` appends `p`. |
| Streams.Buffer.Truncate | deb.go:76 | `buf.Truncate(n)` keeps the first `n` bytes. |

## Left out

- The `ar` and `tar` framings, gzip decompression and the MD5/SHA-1/SHA-256 functions are library code. They are parameters (`Members.Codecs`, `Checksums.Hasher`).
- Errors from `file.Stat()` and from reading the archive file itself are not modelled, because the archive file is an in-memory byte sequence. This includes the `io.Copy` into the hashers (deb.go:156). An error from the output buffer is not modelled either. The result of `file.Seek` is ignored by the code itself.
- Reading through the `ar`, gzip and `tar` readers is modelled by `Members.Stream` values. The `io.Copy` of the control entry (deb.go:109) writes what the entry delivers and returns its read error, such as a truncated entry.
- How far each library reader reads is an assumption about the `Codecs` parameters, and the model does not enforce it. `gunzip` gives the stream as far as it is decoded, with the error met later (a corrupt block, or a bad CRC-32 or size trailer) as its fault. `tar` is expected to list an entry once its header is delivered. An entry's body is the decoded bytes up to the entry's declared end, and it carries the stream's fault only when that fault comes before that end. A codec that puts a later fault, such as the trailer's, on the `control` entry makes the result an error where the code succeeds. `gunzip` is not a check of the whole stream.
- The callbacks (`fileCallback`) are not passed as values. The locators return the body they would hand on, and `Deb.ControlFile` applies the callback to it once, on a match.
- Bytes.Join: `filepath.Join` also cleans the path (doubled or trailing separators, `.` and `..`). The model joins with a single `/` when the prefix is non-empty.
- Bytes.Count: `bytes.Count` with an empty separator is not modelled. The code only counts "Package".
- Checksums.FileSums: `io.MultiWriter` is modelled as computing each digest of the same bytes. The incremental hashing is not modelled.
- Members.ArFile: how far the `ar` reader advances the file is left unspecified (it only moves forward). That is why the rewind before hashing matters.
- Deb.FileMetaData: the file position is stated only on success. On error it is left unspecified.
- Deb.FileMetaData: aliasing between the returned slice and the buffer's storage is not modelled. The buffer is a sequence value.
- The size is an unbounded `nat`. `info.Size()` is an `int64` that a regular file never makes negative.
- The tests and the benchmark in `deb_test.go` are not modelled. They depend on a fixture archive and its real digests.
