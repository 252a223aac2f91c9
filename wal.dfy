/** The write-ahead log of wal.go. The log file is its content as a byte
    sequence; writes go to its end, as the log file is opened in append
    mode. A record is a 4-byte big-endian command (0 = Set, 1 = Del), a
    4-byte key length, the key, a 4-byte value length and the value; the
    9-byte token "WATERMARK" marks the point up to which the log has been
    flushed, and only what follows the last one is replayed. */
module WriteAheadLog {
  import opened Wrappers
  import opened Codec
  import opened Files
  import opened Index

  /** `watermarkSize` (main.go). */
  const WatermarkSize: nat := 9

  /** The bytes of "WATERMARK". */
  const Watermark: seq<byte> := [87, 65, 84, 69, 82, 77, 65, 82, 75]

  /** The command codes `Set` and `Del` of type `Cmd`. */
  const CmdSet: int := 0
  const CmdDel: int := 1

  /** An `*Entry`: a nil key or value is `None`; the command is any `Cmd`. */
  datatype Entry = Entry(key: Option<seq<byte>>, value: Option<seq<byte>>, command: int)

  /** The bytes of a slice that may be nil (a nil slice has no bytes). */
  function BytesOf(b: Option<seq<byte>>): (r: seq<byte>)
    ensures b.None? ==> r == []
    ensures b.Some? ==> r == b.value
  {
    if b.Some? then b.value else []
  }

  /** The log, as the `Wal` handle sees it through its file. */
  class Wal {
    var file: seq<byte>
    const name: string

    /** `NewWal`. */
    constructor (file: seq<byte>, name: string)
      ensures this.file == file && this.name == name
    {
      this.file := file;
      this.name := name;
    }

    /** `WaterMark`: appends the token at the end of the log. */
    method WaterMark()
      modifies this
      ensures file == old(file) + Watermark
    {
      file := file + Watermark;
    }

    /** `findLastWatermarkPosition`: scans the 9-byte windows from the end of
        the file backwards and stops at the first that equals "WATERMARK"
        ignoring case. Returns its start, -1 if there is none, and the file
        offset its reads leave behind (untouched, 0, if it read nothing). */
    method FindLastWatermarkPosition() returns (pos: int, left: nat)
      ensures pos == LastWatermark(file)
      ensures left == ReadStartAsWritten(file)
    {
      pos, left := -1, 0;
      var size := |file|;
      var offset := 0;
      while offset <= size - WatermarkSize
        invariant 0 <= offset && (size >= 9 ==> offset <= size - 8)
        invariant size < 9 ==> offset == 0
        invariant forall i :: size - offset - 9 < i && i + 9 <= size ==> !Matches(file, i)
        invariant left == if offset == 0 then 0 else size - offset + 1
        decreases size - offset
      {
        var start := size - offset - WatermarkSize;
        left := start + WatermarkSize;
        if Matches(file, start) {
          pos := start;
          LastWatermarkIs(file, start);
          return;
        }
        offset := offset + 1;
      }
      LastWatermarkNone(file);
    }
  }

  // ------------------------------------------------------- AppendCommand

  /** The bytes `AppendCommand` writes for an entry it accepts. */
  function Record(key: seq<byte>, value: seq<byte>, command: int): (r: seq<byte>)
    ensures |r| == |key| + |value| + 12
  {
    EncodeInt(if command == CmdSet then 0 else 1) + EncodeInt(|key|) + key
      + EncodeInt(|value|) + value
  }

  /** The record of an entry, a nil key or value written as empty. */
  function RecordOf(e: Entry): (r: seq<byte>)
    ensures |r| == |BytesOf(e.key)| + |BytesOf(e.value)| + 12
  {
    Record(BytesOf(e.key), BytesOf(e.value), e.command)
  }

  /** Whether `AppendCommand` accepts the entry: present, a known command, a
      key, and a value unless it is a Del. */
  predicate Accepted(e: Option<Entry>)
  {
    && e.Some?
    && (e.value.command == CmdSet || e.value.command == CmdDel)
    && e.value.key.Some?
    && (e.value.value.Some? || e.value.command == CmdDel)
  }

  /** `Wal.AppendCommand`: checks, in order, the handle, the entry, the
      command, the key and (for a Set) the value, and on success appends the
      entry's record to the log. A refused entry leaves the log as it was. */
  method AppendCommand(w: Wal?, e: Option<Entry>) returns (err: Outcome)
    modifies w
    ensures w == null ==> err == Fail("wal closed")
    ensures w != null ==> (err.Pass? <==> Accepted(e))
    ensures w != null && e.None? ==> err == Fail("nil entry")
    ensures w != null && e.Some? && e.value.command != CmdSet && e.value.command != CmdDel ==>
              err == Fail("invalid command")
    ensures w != null && e.Some? && (e.value.command == CmdSet || e.value.command == CmdDel) ==>
              && (e.value.key.None? ==> err == Fail("nil key"))
              && (e.value.key.Some? && e.value.value.None? && e.value.command == CmdSet ==>
                    err == Fail("nil value"))
    ensures w != null && err.Fail? ==> w.file == old(w.file)
    ensures w != null && err.Pass? ==>
              w.file == old(w.file) + RecordOf(e.value)
  {
    if w == null {
      return Fail("wal closed");
    }
    if e.None? {
      return Fail("nil entry");
    }
    var x := e.value;
    if x.command != CmdSet && x.command != CmdDel {
      return Fail("invalid command");
    }
    if x.key.None? {
      return Fail("nil key");
    }
    if x.value.None? && x.command == CmdSet {
      return Fail("nil value");
    }
    w.file := w.file + RecordOf(x);
    err := Pass;
  }

  // ------------------------------------------------------------ Watermark

  /** `strings.EqualFold` of one byte with an upper-case ASCII letter. */
  predicate FoldEq(b: byte, upper: byte)
  {
    b == upper || b == upper + 32
  }

  /** The 9-byte window at `i` equals "WATERMARK" ignoring case. (Only ASCII
      letters fold onto these letters within one byte, so the comparison is
      byte by byte.) */
  predicate Matches(file: seq<byte>, i: int)
  {
    0 <= i && i + 9 <= |file| && forall j :: 0 <= j < 9 ==> FoldEq(file[i + j], Watermark[j])
  }

  /** The greatest window start below `k` that matches, or -1. */
  function LastBelow(file: seq<byte>, k: nat): (r: int)
    ensures -1 <= r < k
    ensures r >= 0 ==> Matches(file, r)
    ensures forall i :: r < i < k ==> !Matches(file, i)
  {
    if k == 0 then -1 else if Matches(file, k - 1) then k - 1 else LastBelow(file, k - 1)
  }

  /** The start of the last window that matches, or -1 if none does. */
  function LastWatermark(file: seq<byte>): (r: int)
    ensures r == -1 || Matches(file, r)
    ensures forall i :: r < i ==> !Matches(file, i)
  {
    if |file| < 9 then -1 else LastBelow(file, |file| - 8)
  }

  lemma LastWatermarkIs(file: seq<byte>, i: int)
    requires Matches(file, i)
    requires forall k :: i < k ==> !Matches(file, k)
    ensures LastWatermark(file) == i
  {
  }

  lemma LastWatermarkNone(file: seq<byte>)
    requires forall k :: !Matches(file, k)
    ensures LastWatermark(file) == -1
  {
  }

  /** No window matches in a file without 'W' or 'w'. */
  lemma NoWatermarkWithoutW(file: seq<byte>)
    requires forall i :: 0 <= i < |file| ==> file[i] != 87 && file[i] != 119
    ensures forall i :: !Matches(file, i)
  {
    forall i ensures !Matches(file, i) {
      if 0 <= i && i + 9 <= |file| {
        assert !FoldEq(file[i + 0], Watermark[0]);
      }
    }
  }

  // ----------------------------------------------------------------- Read

  /** Where `Read` starts decoding: just after the last watermark, or at the
      beginning of the file if there is none. */
  function ReadStart(file: seq<byte>): (p: nat)
    ensures p <= |file|
    ensures LastWatermark(file) >= 0 ==> p == LastWatermark(file) + WatermarkSize
    ensures LastWatermark(file) < 0 ==> p == 0
  {
    if LastWatermark(file) >= 0 then LastWatermark(file) + WatermarkSize else 0
  }

  /** Where `Read` as written starts decoding: after the last watermark if
      there is one; otherwise wherever the scan's last read left the file
      offset, which is 9 once the file holds a 9-byte window. */
  function ReadStartAsWritten(file: seq<byte>): (p: nat)
    ensures p <= |file|
    ensures LastWatermark(file) >= 0 ==> p == ReadStart(file)
    ensures LastWatermark(file) < 0 && |file| >= 9 ==> p == 9 != ReadStart(file)
  {
    if LastWatermark(file) >= 0 then LastWatermark(file) + WatermarkSize
    else if |file| >= WatermarkSize then WatermarkSize
    else 0
  }

  /** Where a read of `n` bytes at `pos` leaves the offset: `n` bytes on,
      or the end of the file when fewer remain. */
  function After(file: seq<byte>, pos: nat, n: nat): (p: nat)
    ensures p <= |file| || pos + n <= p
  {
    if pos + n <= |file| then pos + n else |file|
  }

  /** The outcome of one pass of `Read`'s loop body. */
  datatype Step = End | Failed(msg: string) | Got(entry: Entry, next: nat)

  /** One pass of `Read`'s loop at offset `pos`: end of file on the command
      ends the log; end of file on any later field is an error ("EOF"); a
      short read is zero-padded and accepted. The command is read here, the
      key and value by `ReadKey` and `ReadValue`. */
  function ReadEntry(file: seq<byte>, pos: nat): (r: Step)
    requires pos <= |file|
    ensures r.End? <==> pos == |file|
    ensures r.Failed? ==> r.msg == "EOF"
    ensures r.Got? ==> pos < r.next <= |file|
    ensures pos < |file| ==>
      (r.Failed? <==> ReadKey(file, 0, After(file, pos, 4)).Failed?)
  {
    match ReadAt(file, pos, 4)
    case Eof => End
    case Bytes(c, p1) => ReadKey(file, DecodeInt(c), p1)
  }

  /** The key length and the key of an entry whose command has been read. */
  function ReadKey(file: seq<byte>, command: int, pos: nat): (r: Step)
    requires pos <= |file|
    ensures !r.End?
    ensures r.Failed? ==> r.msg == "EOF"
    ensures r.Got? ==> pos <= r.next <= |file|
    ensures r.Got? ==> r.entry.command == command && r.entry.key.Some?
    ensures pos == |file| ==> r.Failed?
    ensures pos < |file| ==>
      var n := DecodeInt(ReadAt(file, pos, 4).data);
      var p2 := After(file, pos, 4);
      (r.Failed? <==> (p2 == |file| && n > 0) || ReadValue(file, 0, [], After(file, p2, n)).Failed?)
  {
    match ReadAt(file, pos, 4)
    case Eof => Failed("EOF")
    case Bytes(kl, p2) =>
      match ReadAt(file, p2, DecodeInt(kl))
      case Eof => Failed("EOF")
      case Bytes(key, p3) => ReadValue(file, command, key, p3)
  }

  /** The value length and the value, which complete the entry. */
  function ReadValue(file: seq<byte>, command: int, key: seq<byte>, pos: nat): (r: Step)
    requires pos <= |file|
    ensures !r.End?
    ensures r.Failed? ==> r.msg == "EOF"
    ensures r.Got? ==> pos <= r.next <= |file|
    ensures r.Failed? <==>
      pos == |file| || (After(file, pos, 4) == |file| && DecodeInt(ReadAt(file, pos, 4).data) > 0)
    ensures r.Got? ==>
      && r.entry == Entry(Some(key), r.entry.value, command)
      && r.entry.value.Some? && |r.entry.value.value| == DecodeInt(ReadAt(file, pos, 4).data)
  {
    match ReadAt(file, pos, 4)
    case Eof => Failed("EOF")
    case Bytes(vl, p4) =>
      match ReadAt(file, p4, DecodeInt(vl))
      case Eof => Failed("EOF")
      case Bytes(value, p5) => Got(Entry(Some(key), Some(value), command), p5)
  }

  /** The entries `Read`'s loop decodes from `pos` to the end of the file,
      or the error that stops it. */
  function ParseFrom(file: seq<byte>, pos: nat): (r: Result<seq<Entry>>)
    requires pos <= |file|
    decreases |file| - pos
  {
    match ReadEntry(file, pos)
    case End => Ok([])
    case Failed(m) => Err(m)
    case Got(e, next) => Then([e], ParseFrom(file, next))
  }

  /** `prefix` put in front of a successful parse. */
  function Then(prefix: seq<Entry>, r: Result<seq<Entry>>): (t: Result<seq<Entry>>)
    ensures t.Ok? <==> r.Ok?
    ensures r.Ok? ==> t.value == prefix + r.value
    ensures r.Err? ==> t == r
  {
    if r.Ok? then Ok(prefix + r.value) else r
  }

  /** `Wal.Read`: a nil handle is closed; otherwise the entries from just
      after the last watermark (from the start if there is none) up to the
      end of the file, or the error of the first entry cut short. */
  method Read(w: Wal?) returns (r: Result<seq<Entry>>)
    ensures w == null ==> r == Err("wal closed")
    ensures w != null ==> r == ParseFrom(w.file, ReadStart(w.file))
  {
    if w == null {
      return Err("wal closed");
    }
    var file := w.file;
    var pos := SeekStart(w);
    ghost var start := pos;
    var entries: seq<Entry> := [];
    assert Then(entries, ParseFrom(file, pos)) == ParseFrom(file, pos) by {
      if ParseFrom(file, pos).Ok? { assert [] + ParseFrom(file, pos).value == ParseFrom(file, pos).value; }
    }
    while true
      invariant pos <= |file|
      invariant ParseFrom(file, start) == Then(entries, ParseFrom(file, pos))
      decreases |file| - pos
    {
      var step := ReadOne(file, pos);
      match step
      case End =>
        assert entries + [] == entries;
        return Ok(entries);
      case Failed(m) =>
        return Err(m);
      case Got(e, next) =>
        if ParseFrom(file, next).Ok? {
          var rest := ParseFrom(file, next).value;
          assert entries + ([e] + rest) == (entries + [e]) + rest;
        }
        entries, pos := entries + [e], next;
    }
  }

  /** The positioning at the top of `Read`: just after the last watermark,
      or back at the start of the file when there is none. (As written, the
      no-watermark case keeps the offset the scan left behind; see
      `ReadStartAsWritten`.) */
  method SeekStart(w: Wal) returns (pos: nat)
    ensures pos == ReadStart(w.file)
  {
    var last, _ := w.FindLastWatermarkPosition();
    pos := if last >= 0 then last + WatermarkSize else 0;
  }

  /** One pass of `Read`'s loop body: the command, the key length, the key,
      the value length and the value, each read in turn; end of file on the
      command ends the log, on any later field it is an error. */
  method ReadOne(file: seq<byte>, pos: nat) returns (step: Step)
    requires pos <= |file|
    ensures step == ReadEntry(file, pos)
  {
    var c := ReadAt(file, pos, 4);
    if c.Eof? {
      return End;
    }
    var kl := ReadAt(file, c.next, 4);
    if kl.Eof? {
      return Failed("EOF");
    }
    var key := ReadAt(file, kl.next, DecodeInt(kl.data));
    if key.Eof? {
      return Failed("EOF");
    }
    var vl := ReadAt(file, key.next, 4);
    if vl.Eof? {
      return Failed("EOF");
    }
    var value := ReadAt(file, vl.next, DecodeInt(vl.data));
    if value.Eof? {
      return Failed("EOF");
    }
    return Got(Entry(Some(key.data), Some(value.data), DecodeInt(c.data)), value.next);
  }

  // --------------------------------------------------------- Round trip

  /** What reading back an accepted entry gives: its command, key and value,
      with a nil value (a Del's) read as empty. */
  function Normalize(e: Entry): (n: Entry)
    ensures e.key.Some? ==> n.key == e.key
    ensures n.command == e.command && n.value == Some(BytesOf(e.value))
  {
    Entry(Some(BytesOf(e.key)), Some(BytesOf(e.value)), e.command)
  }

  /** An entry `AppendCommand` accepts and whose lengths fit the 4-byte
      length fields. */
  predicate Loggable(e: Entry)
  {
    && e.key.Some?
    && Accepted(Some(e))
    && |e.key.value| < TwoTo32
    && |BytesOf(e.value)| < TwoTo32
  }

  /** The log bytes of a sequence of accepted entries. */
  function Serialize(es: seq<Entry>): (r: seq<byte>)
  {
    if es == [] then [] else RecordOf(es[0]) + Serialize(es[1..])
  }

  /** The entries as `Read` returns them: a nil value becomes empty. */
  function NormalizeAll(es: seq<Entry>): (r: seq<Entry>)
    ensures |r| == |es|
  {
    if es == [] then [] else [Normalize(es[0])] + NormalizeAll(es[1..])
  }

  /** Each entry read back is the corresponding appended entry, normalized. */
  lemma {:induction false} NormalizeAllEach(es: seq<Entry>, i: nat)
    requires i < |es|
    ensures NormalizeAll(es)[i] == Normalize(es[i])
    decreases |es|
  {
    if i > 0 {
      NormalizeAllEach(es[1..], i - 1);
    }
  }

  /** A key length field followed by that many key bytes, then the value
      length field and the value. */
  lemma ReadKeyAt(file: seq<byte>, pos: nat, command: int, key: seq<byte>, value: seq<byte>,
                  rest: seq<byte>)
    requires |key| < TwoTo32 && |value| < TwoTo32
    requires pos <= |file|
    requires file[pos..] == EncodeInt(|key|) + (key + (EncodeInt(|value|) + (value + rest)))
    ensures pos + 8 + |key| + |value| <= |file| && file[pos + 8 + |key| + |value|..] == rest
    ensures ReadKey(file, command, pos) ==
              Got(Entry(Some(key), Some(value), command), pos + 8 + |key| + |value|)
  {
    var tail := EncodeInt(|value|) + (value + rest);
    ReadPrefix(file, pos, EncodeInt(|key|), key + tail);
    ReadPrefix(file, pos + 4, key, tail);
    DecodeEncodeInt(|key|);
    var q := pos + 4 + |key|;
    ReadValueAt(file, q, command, key, value, rest);
    assert q + 4 + |value| == pos + 8 + |key| + |value|;
  }

  /** A value length field followed by that many value bytes. */
  lemma ReadValueAt(file: seq<byte>, pos: nat, command: int, key: seq<byte>, value: seq<byte>,
                    rest: seq<byte>)
    requires |value| < TwoTo32
    requires pos <= |file| && file[pos..] == EncodeInt(|value|) + (value + rest)
    ensures pos + 4 + |value| <= |file| && file[pos + 4 + |value|..] == rest
    ensures ReadValue(file, command, key, pos) ==
              Got(Entry(Some(key), Some(value), command), pos + 4 + |value|)
  {
    ReadPrefix(file, pos, EncodeInt(|value|), value + rest);
    ReadPrefix(file, pos + 4, value, rest);
    DecodeEncodeInt(|value|);
  }

  /** A command field. */
  lemma ReadCommandAt(file: seq<byte>, pos: nat, command: int, rest: seq<byte>)
    requires 0 <= command < TwoTo32
    requires pos <= |file| && file[pos..] == EncodeInt(command) + rest
    ensures pos + 4 <= |file| && file[pos + 4..] == rest
    ensures ReadEntry(file, pos) == ReadKey(file, command, pos + 4)
  {
    ReadPrefix(file, pos, EncodeInt(command), rest);
    DecodeEncodeInt(command);
  }

  /** The fields of an accepted entry's record, nested as they are read. */
  lemma RecordFields(e: Entry, rest: seq<byte>)
    requires Loggable(e)
    ensures RecordOf(e) + rest ==
              EncodeInt(e.command) + (EncodeInt(|e.key.value|) + (e.key.value
                + (EncodeInt(|BytesOf(e.value)|) + (BytesOf(e.value) + rest))))
  {
  }

  /** The five fields of a record, found at `p` ahead of `rest`, are read
      as one entry. */
  lemma ReadFieldsAt(file: seq<byte>, p: nat, command: int, key: seq<byte>, value: seq<byte>,
                     rest: seq<byte>)
    requires 0 <= command < TwoTo32 && |key| < TwoTo32 && |value| < TwoTo32
    requires p <= |file|
    requires file[p..] ==
               EncodeInt(command) + (EncodeInt(|key|) + (key + (EncodeInt(|value|) + (value + rest))))
    ensures p + 12 + |key| + |value| <= |file| && file[p + 12 + |key| + |value|..] == rest
    ensures ReadEntry(file, p) == Got(Entry(Some(key), Some(value), command), p + 12 + |key| + |value|)
  {
    var tail := EncodeInt(|key|) + (key + (EncodeInt(|value|) + (value + rest)));
    ReadCommandAt(file, p, command, tail);
    ReadKeyAt(file, p + 4, command, key, value, rest);
    assert p + 4 + 8 + |key| + |value| == p + 12 + |key| + |value|;
  }

  /** One record, found at `p` ahead of `rest`, decodes to its entry and
      ends where it ends. */
  lemma ReadRecord(file: seq<byte>, p: nat, e: Entry, rest: seq<byte>)
    requires Loggable(e)
    requires p <= |file| && file[p..] == RecordOf(e) + rest
    ensures p + |RecordOf(e)| <= |file| && file[p + |RecordOf(e)|..] == rest
    ensures ReadEntry(file, p) == Got(Normalize(e), p + |RecordOf(e)|)
  {
    RecordFields(e, rest);
    ReadFieldsAt(file, p, e.command, e.key.value, BytesOf(e.value), rest);
  }

  /** One decoded entry followed by a successful parse of the rest. */
  lemma ParseCons(file: seq<byte>, pos: nat, e: Entry, next: nat, rest: seq<Entry>)
    requires pos <= |file| && ReadEntry(file, pos) == Got(e, next)
    requires ParseFrom(file, next) == Ok(rest)
    ensures ParseFrom(file, pos) == Ok([e] + rest)
  {
  }

  /** The first entry of a non-empty sequence and the rest. */
  lemma LoggableCons(es: seq<Entry>)
    requires es != [] && forall i :: 0 <= i < |es| ==> Loggable(es[i])
    ensures Loggable(es[0]) && forall i :: 0 <= i < |es[1..]| ==> Loggable(es[1..][i])
    ensures Serialize(es) == RecordOf(es[0]) + Serialize(es[1..])
    ensures NormalizeAll(es) == [Normalize(es[0])] + NormalizeAll(es[1..])
  {
    forall i | 0 <= i < |es[1..]| ensures Loggable(es[1..][i]) {
      assert es[1..][i] == es[i + 1];
    }
  }

  /** Entries appended one after another at `p` are decoded back in
      order, each with its command, key and value. */
  lemma {:induction false} ParseSerialized(file: seq<byte>, p: nat, es: seq<Entry>)
    decreases |es|
    requires forall i :: 0 <= i < |es| ==> Loggable(es[i])
    requires p + |Serialize(es)| == |file| && file[p..] == Serialize(es)
    ensures ParseFrom(file, p) == Ok(NormalizeAll(es))
  {
    if es == [] {
      assert ReadAt(file, p, 4).Eof?;
      assert ReadEntry(file, p) == End;
    } else {
      var e, tail := es[0], es[1..];
      LoggableCons(es);
      var q := p + |RecordOf(e)|;
      ReadRecord(file, p, e, Serialize(tail));
      ParseSerialized(file, q, tail);
      ParseCons(file, p, Normalize(e), q, NormalizeAll(tail));
    }
  }

  /** The scan finds a watermark followed by log bytes that hold no 9-byte
      window equal to "WATERMARK" ignoring case. */
  lemma WatermarkFound(pre: seq<byte>, s: seq<byte>)
    requires forall i :: !Matches(s, i)
    ensures LastWatermark(pre + Watermark + s) == |pre|
  {
    var file := pre + Watermark + s;
    assert Matches(file, |pre|) by {
      forall j | 0 <= j < 9 ensures FoldEq(file[|pre| + j], Watermark[j]) {
        assert file[|pre| + j] == Watermark[j];
      }
    }
    forall i | |pre| < i ensures !Matches(file, i) {
      if i + 9 <= |file| {
        if i < |pre| + 9 {
          assert file[i + 0] == Watermark[i - |pre|];
          assert !FoldEq(file[i + 0], Watermark[0]);
        } else {
          var k := i - |pre| - 9;
          assert !Matches(s, k);
          var j :| 0 <= j < 9 && !FoldEq(s[k + j], Watermark[j]);
          assert file[i + j] == s[k + j];
        }
      }
    }
    LastWatermarkIs(file, |pre|);
  }

  /** Round trip: after a watermark, entries appended with `AppendCommand`
      are read back in order with the same command, key and value (a nil
      value as empty), provided the appended bytes do not themselves spell
      the watermark. */
  lemma LogRoundTrip(pre: seq<byte>, es: seq<Entry>)
    requires forall i :: 0 <= i < |es| ==> Loggable(es[i])
    requires forall i :: !Matches(Serialize(es), i)
    ensures ParseFrom(pre + Watermark + Serialize(es), ReadStart(pre + Watermark + Serialize(es)))
            == Ok(NormalizeAll(es))
  {
    var file := pre + Watermark + Serialize(es);
    WatermarkFound(pre, Serialize(es));
    assert file[|pre + Watermark|..] == Serialize(es);
    ParseSerialized(file, |pre + Watermark|, es);
  }

  /** Round trip for a log that has never been watermarked. */
  lemma FreshLogRoundTrip(es: seq<Entry>)
    requires forall i :: 0 <= i < |es| ==> Loggable(es[i])
    requires forall i :: !Matches(Serialize(es), i)
    ensures ParseFrom(Serialize(es), ReadStart(Serialize(es))) == Ok(NormalizeAll(es))
  {
    LastWatermarkNone(Serialize(es));
    ParseSerialized(Serialize(es), 0, es);
  }

  /** A log holding the single record Set("a", "b") is decoded from offset 9
      as written: a Del command, then a key length read short as
      [98, 0, 0, 0], then end of file inside the key, so `Read` (and with it
      `Recover`) fails; decoding from the start gives the entry back. */
  lemma ReadStartAsWrittenFails()
    ensures var file := Record([97], [98], CmdSet);
      && LastWatermark(file) == -1
      && ReadStartAsWritten(file) == 9
      && ParseFrom(file, ReadStartAsWritten(file)) == Err("EOF")
      && ParseFrom(file, ReadStart(file)) == Ok([Entry(Some([97]), Some([98]), CmdSet)])
  {
    var e := Entry(Some([97]), Some([98]), CmdSet);
    var file := Record([97], [98], CmdSet);
    SmallRecord(97, 98);
    assert Serialize([e]) == RecordOf(e) + Serialize([]);
    assert file == Serialize([e]);
    NoWatermarkWithoutW(file);
    FreshLogRoundTrip([e]);
    assert NormalizeAll([e]) == [Normalize(e)];
    ReadFromNine(file);
  }

  /** A record cut short inside its value length is not an error: the two
      bytes left are read as a zero-padded length, the empty value after
      them is read at the end of the file, and the entry comes back with an
      empty value. */
  lemma TruncatedRecordAccepted()
    ensures ParseFrom([0, 0, 0, 0, 0, 0, 0, 1, 97, 0, 0], 0)
         == Ok([Entry(Some([97]), Some([]), CmdSet)])
  {
    var file: seq<byte> := [0, 0, 0, 0, 0, 0, 0, 1, 97, 0, 0];
    var e := Entry(Some([97]), Some([]), CmdSet);
    ReadWithin(file, 0, 4);
    ReadWithin(file, 4, 4);
    ReadWithin(file, 8, 1);
    assert file[0..4] == [0, 0, 0, 0] && file[4..8] == [0, 0, 0, 1] && file[8..9] == [97];
    assert DecodeInt([0, 0, 0, 0]) == 0 && DecodeInt([0, 0, 0, 1]) == 1;
    var pad := [0, 0] + Zeros(2);
    assert ReadAt(file, 9, 4) == Bytes(file[9..] + Zeros(2), 11);
    assert file[9..] + Zeros(2) == pad == [0, 0, 0, 0];
    assert ReadValue(file, 0, [97], 9) == Got(e, 11);
    assert ReadKey(file, 0, 4) == Got(e, 11);
    assert ReadEntry(file, 0) == Got(e, 11);
    assert ParseFrom(file, 11) == Ok([]);
    assert ParseFrom(file, 0) == Then([e], Ok([]));
    assert [e] + [] == [e];
  }

  /** The record of a Set with a one-byte key and value, byte by byte. */
  lemma SmallRecord(k: byte, v: byte)
    ensures Record([k], [v], CmdSet) == [0, 0, 0, 0, 0, 0, 0, 1, k, 0, 0, 0, 1, v]
  {
    assert EncodeInt(0) == [0, 0, 0, 0];
    assert EncodeInt(1) == [0, 0, 0, 1];
  }

  /** Decoding that record from offset 9 runs off the end of the file. */
  lemma ReadFromNine(file: seq<byte>)
    requires file == [0, 0, 0, 0, 0, 0, 0, 1, 97, 0, 0, 0, 1, 98]
    ensures ParseFrom(file, 9) == Err("EOF")
  {
    ReadWithin(file, 9, 4);
    var short := ReadAt(file, 13, 4);
    assert short.data == [98, 0, 0, 0] && short.next == 14;
    assert DecodeInt(short.data) == 98 * 0x100_0000;
    assert ReadAt(file, 14, 98 * 0x100_0000).Eof?;
    assert ReadEntry(file, 9) == Failed("EOF");
  }

  // ------------------------------------------------------------- Recover

  /** One replayed entry: Set inserts, Del tombstones (its error ignored),
      any other command is skipped. A nil key is the empty key. */
  function Apply(root: Node, e: Entry): (r: Node)
    ensures Ordered(root) ==> Ordered(r)
  {
    if e.command == CmdSet then Insert(root, BytesOf(e.key), BytesOf(e.value))
    else if e.command == CmdDel then
      match Delete(root, BytesOf(e.key))
      case Ok(n) => DeleteKeepsShape(root, BytesOf(e.key)); n
      case Err(_) => root
    else root
  }

  /** The tree after replaying `es` in order onto `root`. */
  function Replay(root: Node, es: seq<Entry>): (r: Node)
  {
    if es == [] then root else Apply(Replay(root, es[..|es| - 1]), es[|es| - 1])
  }

  /** The keys of the Set entries of `es`. */
  function SetKeys(es: seq<Entry>): set<Key>
  {
    set i | 0 <= i < |es| && es[i].command == CmdSet :: BytesOf(es[i].key)
  }

  /** The Set keys of a sequence with one more entry. */
  lemma SetKeysSnoc(init: seq<Entry>, e: Entry)
    ensures SetKeys(init + [e]) == SetKeys(init) + (if e.command == CmdSet then {BytesOf(e.key)} else {})
  {
    var es := init + [e];
    forall k | k in SetKeys(es) ensures k in SetKeys(init) || (e.command == CmdSet && k == BytesOf(e.key)) {
      var i :| 0 <= i < |es| && es[i].command == CmdSet && BytesOf(es[i].key) == k;
      if i < |init| { assert init[i] == es[i]; }
    }
    forall k | k in SetKeys(init) ensures k in SetKeys(es) {
      var i :| 0 <= i < |init| && init[i].command == CmdSet && BytesOf(init[i].key) == k;
      assert es[i] == init[i];
    }
    if e.command == CmdSet {
      assert es[|init|] == e;
    }
  }

  /** One replayed entry adds its key if it is a Set and no key otherwise. */
  lemma ApplyKeys(root: Node, e: Entry)
    requires Ordered(root)
    ensures Keys(Apply(root, e)) == Keys(root) + (if e.command == CmdSet then {BytesOf(e.key)} else {})
  {
    if e.command == CmdDel && Delete(root, BytesOf(e.key)).Ok? {
      DeleteKeepsShape(root, BytesOf(e.key));
    }
  }

  /** Replay keeps the search-tree invariant, never removes a node, and adds
      exactly the keys that Set entries bring. */
  lemma {:induction false} ReplayKeys(root: Node, es: seq<Entry>)
    requires Ordered(root)
    ensures Ordered(Replay(root, es))
    ensures Keys(Replay(root, es)) == Keys(root) + SetKeys(es)
  {
    if es != [] {
      var init, e := es[..|es| - 1], es[|es| - 1];
      ReplayKeys(root, init);
      ApplyKeys(Replay(root, init), e);
      assert es == init + [e];
      SetKeysSnoc(init, e);
    }
  }

  /** `Recover`: reads the log and, if that succeeds, replays its entries
      onto the tree in order; a read error leaves the tree untouched. */
  method Recover(w: Wal?, t: Tree) returns (err: Outcome)
    requires t.Valid()
    modifies t
    ensures t.Valid()
    ensures w == null ==> err == Fail("wal closed") && t.root == old(t.root)
    ensures w != null ==>
              match ParseFrom(w.file, ReadStart(w.file))
              case Err(m) => err == Fail(m) && t.root == old(t.root)
              case Ok(es) => err == Pass && t.root == Replay(old(t.root), es)
  {
    var entries := Read(w);
    if entries.Err? {
      return Fail(entries.msg);
    }
    ReplayAll(t, entries.value);
    err := Pass;
  }

  /** `Recover`'s loop: the entries replayed onto the tree one by one. */
  method ReplayAll(t: Tree, es: seq<Entry>)
    requires t.Valid()
    modifies t
    ensures t.Valid() && t.root == Replay(old(t.root), es)
  {
    var i := 0;
    while i < |es|
      invariant 0 <= i <= |es|
      invariant t.Valid()
      invariant t.root == Replay(old(t.root), es[..i])
    {
      var e := es[i];
      Replay1(t, e);
      assert es[..i + 1][..i] == es[..i] && es[..i + 1][i] == e;
      i := i + 1;
    }
    assert es[..i] == es;
  }

  /** The body of `Recover`'s loop: the `switch` on the entry's command. */
  method Replay1(t: Tree, e: Entry)
    requires t.Valid()
    modifies t
    ensures t.Valid() && t.root == Apply(old(t.root), e)
  {
    if e.command == CmdSet {
      t.Set(BytesOf(e.key), BytesOf(e.value));
    } else if e.command == CmdDel {
      DeleteOutcome(t.root, BytesOf(e.key));
      var _ := t.Del(BytesOf(e.key));
    }
  }

  /** The recovery example: Set(a,1), Set(b,2), watermark, Set(c,3) on a
      fresh log. Only the entry after the watermark is read back. */
  lemma RecoveryExampleLog()
    ensures var a, b, c := Entry(Some([97]), Some([49]), CmdSet), Entry(Some([98]), Some([50]), CmdSet),
                          Entry(Some([99]), Some([51]), CmdSet);
      var file := Serialize([a, b]) + Watermark + Serialize([c]);
      ParseFrom(file, ReadStart(file)) == Ok([c])
  {
    var c := Entry(Some([99]), Some([51]), CmdSet);
    SmallRecord(99, 51);
    assert Serialize([c]) == RecordOf(c) + Serialize([]);
    NoWatermarkWithoutW(Serialize([c]));
    var a, b := Entry(Some([97]), Some([49]), CmdSet), Entry(Some([98]), Some([50]), CmdSet);
    LogRoundTrip(Serialize([a, b]), [c]);
    assert NormalizeAll([c]) == [Normalize(c)] == [c];
  }

  /** Replayed into an empty tree, that log leaves only c, holding 3. */
  lemma RecoveryExampleTree()
    ensures var c := Entry(Some([99]), Some([51]), CmdSet);
      && Replay(Nil, [c]) == Node(Nil, [99], [51], true, Nil)
      && Size(Replay(Nil, [c])) == 1
      && Search(Replay(Nil, [c]), [99]) == Some([51])
      && Search(Replay(Nil, [c]), [97]) == None
      && Search(Replay(Nil, [c]), [98]) == None
  {
    var c := Entry(Some([99]), Some([51]), CmdSet);
    assert [c][..0] == [];
  }
}
