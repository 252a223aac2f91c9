/** The reads and writes the source performs on an `*os.File`, modelled on
    the file's content as a byte sequence: a read of `n` bytes at an offset
    and a write of a slice at an offset. */
module Files {
  import opened Codec

  /** `n` zero bytes: what a freshly made Go buffer holds. */
  function Zeros(n: nat): (z: seq<byte>)
    ensures |z| == n
  {
    if n == 0 then [] else Zeros(n - 1) + [0]
  }

  /** Every byte of `Zeros(n)` is zero. */
  lemma {:induction false} ZerosAreZero(n: nat)
    ensures forall i :: 0 <= i < n ==> Zeros(n)[i] == 0
  {
    if n > 0 {
      ZerosAreZero(n - 1);
    }
  }

  /** What `Read(buf)` with `len(buf) == n` gives: the bytes read (the tail of
      the fresh buffer left at zero after a short read) and the new offset,
      or end of file. */
  datatype ReadOutcome = Bytes(data: seq<byte>, next: nat) | Eof

  /** `os.File.Read` at offset `pos`: an empty read always succeeds; a
      non-empty read at end of file is `io.EOF`; otherwise it returns what is
      available, up to `n` bytes, without error, even if that is short. */
  function ReadAt(file: seq<byte>, pos: nat, n: nat): (r: ReadOutcome)
    requires pos <= |file|
    ensures r.Eof? <==> n > 0 && pos == |file|
    ensures r.Bytes? ==> |r.data| == n && pos <= r.next <= |file|
    ensures r.Bytes? && n > 0 ==> pos < r.next
  {
    if n == 0 then Bytes([], pos)
    else if pos == |file| then Eof
    else if pos + n <= |file| then Bytes(file[pos..pos + n], pos + n)
    else Bytes(file[pos..] + Zeros(pos + n - |file|), |file|)
  }

  /** What a read returns: the next `n` bytes when they are all there;
      otherwise the rest of the file followed by zeros, the offset moving to
      the end of the file. */
  lemma ReadAtContents(file: seq<byte>, pos: nat, n: nat)
    requires pos <= |file|
    ensures var r := ReadAt(file, pos, n);
      && (r.Bytes? && pos + n <= |file| ==> r.data == file[pos..pos + n] && r.next == pos + n)
      && (r.Bytes? && pos + n > |file| ==>
            r.next == |file| && r.data == file[pos..] + Zeros(pos + n - |file|))
  {
  }

  /** A read of `n` bytes that are all in the file returns them. */
  lemma ReadWithin(file: seq<byte>, pos: nat, n: nat)
    requires pos + n <= |file|
    ensures ReadAt(file, pos, n) == Bytes(file[pos..pos + n], pos + n)
  {
  }

  /** Reading the bytes `x` that the file holds at `pos`, ahead of `rest`,
      returns them and leaves `rest` to be read. */
  lemma ReadPrefix(file: seq<byte>, pos: nat, x: seq<byte>, rest: seq<byte>)
    requires pos <= |file| && file[pos..] == x + rest
    ensures pos + |x| <= |file|
    ensures ReadAt(file, pos, |x|) == Bytes(x, pos + |x|)
    ensures file[pos + |x|..] == rest
  {
    assert file[pos..pos + |x|] == file[pos..][..|x|];
    assert file[pos + |x|..] == file[pos..][|x|..];
  }

  /** `Seek(off, io.SeekStart)` followed by `Write(data)`: `data` replaces
      the bytes at `off`, the file grows if the write runs past its end, and
      a gap between the old end and `off` reads as zeros. */
  function WriteAt(file: seq<byte>, off: nat, data: seq<byte>): (r: seq<byte>)
    ensures |r| == if off + |data| > |file| then off + |data| else |file|
    ensures forall i :: off <= i < off + |data| ==> r[i] == data[i - off]
    ensures forall i :: 0 <= i < |file| && !(off <= i < off + |data|) ==> r[i] == file[i]
    ensures forall i :: |file| <= i < off ==> r[i] == 0
  {
    if off + |data| <= |file| then file[..off] + data + file[off + |data|..]
    else if off <= |file| then file[..off] + data
    else ZerosAreZero(off - |file|); file + Zeros(off - |file|) + data
  }

  /** Two consecutive writes from offset 0 leave the file as one write of
      both pieces would: the second write continues where the first ended. */
  lemma WriteAtThen(file: seq<byte>, a: seq<byte>, b: seq<byte>)
    ensures WriteAt(WriteAt(file, 0, a), |a|, b) == WriteAt(file, 0, a + b)
  {
    var r, s := WriteAt(WriteAt(file, 0, a), |a|, b), WriteAt(file, 0, a + b);
    assert |r| == |s|;
    forall i | 0 <= i < |r| ensures r[i] == s[i] {
      if i < |a| {
        assert s[i] == (a + b)[i];
      } else if i < |a| + |b| {
        assert s[i] == (a + b)[i];
      }
    }
  }
}
