/** The database file as the core sees it through its descriptor: the bytes
    of the file and the descriptor's offset. lseek, read and write act on
    these; a write may be short, as write(2) may. */
module Store {
  import opened Bytes

  /** The file after `bytes` are written at offset `at`: what was there is
      overwritten and the file grows if the write runs past its end. Nothing
      is truncated. */
  function Overwrite(data: seq<uint8>, at: nat, bytes: seq<uint8>): (r: seq<uint8>)
    requires at <= |data|
    ensures |r| == if at + |bytes| > |data| then at + |bytes| else |data|
    ensures r[..at] == data[..at] && r[at..at + |bytes|] == bytes
    ensures forall k :: at + |bytes| <= k < |data| ==> r[k] == data[k]
  {
    if at + |bytes| < |data| then data[..at] + bytes + data[at + |bytes|..] else data[..at] + bytes
  }

  /** Two writes one after the other leave the file as one write of both. */
  lemma WritesCompose(data: seq<uint8>, at: nat, a: seq<uint8>, b: seq<uint8>)
    requires at <= |data|
    ensures Overwrite(Overwrite(data, at, a), at + |a|, b) == Overwrite(data, at, a + b)
  {
    var lhs, rhs := Overwrite(Overwrite(data, at, a), at + |a|, b), Overwrite(data, at, a + b);
    assert |lhs| == |rhs|;
    forall k | 0 <= k < |lhs|
      ensures lhs[k] == rhs[k]
    {
      if k < at {
        assert lhs[k] == lhs[..at][k];
        assert rhs[k] == rhs[..at][k];
      } else if k < at + |a| {
        assert lhs[k] == Overwrite(data, at, a)[..at + |a|][k];
        assert Overwrite(data, at, a)[at..at + |a|][k - at] == a[k - at];
        assert rhs[at..at + |a| + |b|][k - at] == (a + b)[k - at];
      } else if k < at + |a| + |b| {
        assert lhs[at + |a|..at + |a| + |b|][k - at - |a|] == b[k - at - |a|];
        assert rhs[at..at + |a| + |b|][k - at] == (a + b)[k - at];
      }
    }
  }

  /** Writing from offset 0 leaves the written bytes as a prefix of the file,
      followed by whatever of the old file lies beyond them. */
  lemma OverwriteFromStart(data: seq<uint8>, bytes: seq<uint8>)
    ensures Overwrite(data, 0, bytes) == bytes + (if |bytes| < |data| then data[|bytes|..] else [])
  {
  }

  class DbFile {
    var data: seq<uint8>
    var pos: nat

    ghost predicate Valid()
      reads this
    {
      pos <= |data|
    }

    /** An open descriptor on a file holding `contents`, at offset 0. */
    constructor (contents: seq<uint8>)
      ensures Valid() && data == contents && pos == 0
    {
      data := contents;
      pos := 0;
    }

    /** lseek(fd, 0, SEEK_SET), which cannot fail on a regular file. */
    method Rewind()
      requires Valid()
      modifies this`pos
      ensures Valid() && pos == 0
    {
      pos := 0;
    }

    /** read(fd, buf, n): at most `n` bytes from the offset; fewer at the end of the file. */
    method Read(n: nat) returns (bytes: seq<uint8>)
      requires Valid()
      modifies this`pos
      ensures Valid()
      ensures bytes == data[old(pos)..Min(old(pos) + n, |data|)]
      ensures pos == old(pos) + |bytes|
    {
      var end := Min(pos + n, |data|);
      bytes := data[pos..end];
      pos := end;
    }

    /** write(fd, buf, |bytes|): the system may accept only a prefix of the
        bytes; the count written is returned. */
    method Write(bytes: seq<uint8>) returns (written: nat)
      requires Valid()
      modifies this
      ensures Valid() && written <= |bytes|
      ensures data == Overwrite(old(data), old(pos), bytes[..written])
      ensures pos == old(pos) + written
    {
      written :| written <= |bytes|;
      data := Overwrite(data, pos, bytes[..written]);
      pos := pos + written;
    }
  }
}
