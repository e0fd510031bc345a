/**
 * The two stateful library objects the core works on: the archive `*os.File`
 * (read sequentially, rewound, read again) and the `bytes.Buffer` the stanza
 * is assembled in.
 */
module Streams {
  import opened Bytes

  /** An open archive file: the base name `Stat` reports, its bytes, and the
      offset the next read starts at. */
  class ArchiveFile {
    const name: seq<Byte>
    const content: seq<Byte>
    var pos: nat

    ghost predicate Valid()
      reads this
    {
      pos <= |content|
    }

    constructor Open(name: seq<Byte>, content: seq<Byte>)
      ensures Valid()
      ensures this.name == name && this.content == content && pos == 0
    {
      this.name := name;
      this.content := content;
      pos := 0;
    }

    /** The bytes a reader of the file sees from the current offset on. */
    function Unread(): seq<Byte>
      reads this
      requires Valid()
    {
      content[pos..]
    }

    /** `file.Stat()`: the base name and the size in bytes. */
    method Stat() returns (name: seq<Byte>, size: nat)
      ensures name == this.name && size == |content|
    {
      name, size := this.name, |content|;
    }

    /** `file.Seek(0, 0)`. */
    method Rewind()
      modifies this
      ensures Valid() && pos == 0
    {
      pos := 0;
    }

    /** `io.Copy(w, file)`: everything from the current offset to the end. */
    method ReadAll() returns (data: seq<Byte>)
      requires Valid()
      modifies this
      ensures Valid()
      ensures data == old(Unread()) && pos == |content|
    {
      data := content[pos..];
      pos := |content|;
    }

    /** A decoding reader over the file consumed some of its bytes (how many
        is up to the library's buffering). */
    method Consume()
      requires Valid()
      modifies this
      ensures Valid() && old(pos) <= pos
    {
      var p :| pos <= p <= |content|;
      pos := p;
    }
  }

  /** A `bytes.Buffer` that is only written to and truncated. */
  class Buffer {
    var data: seq<Byte>

    /** `bytes.NewBuffer(nil)`. */
    constructor ()
      ensures data == []
    {
      data := [];
    }

    /** `buf.Bytes()`. */
    function Bytes(): seq<Byte>
      reads this
    {
      data
    }

    /** `buf.Write(p)`. */
    method Write(p: seq<Byte>)
      modifies this
      ensures data == old(data) + p
    {
      data := data + p;
    }

    /** `buf.Truncate(n)`, which panics unless `n` is at most the length. */
    method Truncate(n: nat)
      requires n <= |data|
      modifies this
      ensures data == old(data)[..n]
    {
      data := data[..n];
    }
  }
}
