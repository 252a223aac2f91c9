/** The block file store of filedb.go: the file is a row of fixed-size
    blocks, each holding `key=value`, a terminator byte and '0' padding, or,
    when free, the terminator first. Lookups scan the blocks from the start;
    writes overwrite one whole block. The file is a byte sequence that the
    store's methods reassign. */
module FileStore {
  import opened Wrappers
  import opened Codec
  import opened Files

  /** `NewFileDB`'s block size and terminator. */
  const BlockSize: nat := 100
  const Term: byte := 35    // '#'
  const Sep: byte := 61     // '='
  const Pad: byte := 48     // '0'

  /** What `findBlock` returns: the block to write to, the block holding the
      key (-1 if none) and its value (nil if none); or a panic. */
  datatype Lookup = Lookup(writeBlock: int, keyBlock: int, value: Option<seq<byte>>) | Panic(msg: string)

  /** The outcome of a store operation: a result, a returned error, or a
      panic that aborts the program. */
  datatype Reply<T> = Done(value: T) | Failed(msg: string) | Panicked(msg: string)

  // ------------------------------------------------------------ Searching

  /** Reference for `findFirst`: the index of the first `t` in `s`, or -1. */
  function IndexOf(s: seq<byte>, t: byte): (r: int)
    ensures -1 <= r < |s|
    ensures r == -1 <==> t !in s
    ensures r >= 0 ==> s[r] == t && t !in s[..r]
  {
    if s == [] then -1
    else if s[0] == t then 0
    else
      var r := IndexOf(s[1..], t);
      assert s[1..][..if r < 0 then 0 else r] == s[1..if r < 0 then 1 else r + 1];
      if r < 0 then -1 else r + 1
  }

  /** `findFirst`: scans `buf` for the first byte equal to `term`. */
  method FindFirst(buf: seq<byte>, term: byte) returns (r: int)
    ensures r == IndexOf(buf, term)
  {
    for i := 0 to |buf|
      invariant term !in buf[..i]
    {
      if buf[i] == term {
        IndexOfFirst(buf, term, i);
        return i;
      }
      assert buf[..i + 1] == buf[..i] + [buf[i]];
    }
    assert buf[..|buf|] == buf;
    return -1;
  }

  /** The first occurrence is the one `IndexOf` finds. */
  lemma IndexOfFirst(s: seq<byte>, t: byte, i: nat)
    requires i < |s| && s[i] == t && t !in s[..i]
    ensures IndexOf(s, t) == i
  {
  }

  /** `bytes.Split(line, "=")` when it gives exactly two parts: the bytes
      before and after the only '='; nothing when there is no '=' or more
      than one. */
  function SplitPair(line: seq<byte>): (r: Option<(seq<byte>, seq<byte>)>)
    ensures r.Some? ==> line == r.value.0 + [Sep] + r.value.1 && Sep !in r.value.0 && Sep !in r.value.1
    ensures r.None? ==> Sep !in line || Sep in line[IndexOf(line, Sep) + 1..]
  {
    var e := IndexOf(line, Sep);
    if e < 0 || Sep in line[e + 1..] then None
    else
      assert line == line[..e] + [Sep] + line[e + 1..];
      Some((line[..e], line[e + 1..]))
  }

  /** Joining two parts that hold no '=' and splitting again gives them back. */
  lemma SplitJoin(k: seq<byte>, v: seq<byte>)
    requires Sep !in k && Sep !in v
    ensures SplitPair(k + [Sep] + v) == Some((k, v))
  {
    var line := k + [Sep] + v;
    assert line[..|k|] == k;
    IndexOfFirst(line, Sep, |k|);
    assert line[|k| + 1..] == v;
  }

  // ---------------------------------------------------------------- Blocks

  /** What one block holds: a free slot (terminator first), a key and a
      value, or a malformed block that makes a scan panic. */
  datatype Slot = Free | Pair(key: seq<byte>, value: seq<byte>) | Bad(msg: string)

  /** How `findBlock` reads a block: up to the first terminator, which must
      exist; at position 0 the block is free; otherwise the bytes before it
      must split into exactly a key and a value. */
  function SlotOf(block: seq<byte>): (s: Slot)
    ensures s.Pair? ==> Sep !in s.key && Sep !in s.value && Term !in s.key && Term !in s.value
  {
    var oin := IndexOf(block, Term);
    if oin < 0 then Bad("Unexpected: block with no terminator character")
    else if oin == 0 then Free
    else
      match SplitPair(block[..oin])
      case None => Bad("Unexpected: key value pair malformed")
      case Some((k, v)) =>
        assert block[..oin] == k + [Sep] + v;
        assert forall i :: 0 <= i < |k| ==> k[i] == block[..oin][i];
        assert forall i :: 0 <= i < |v| ==> v[i] == block[..oin][|k| + 1 + i];
        Pair(k, v)
  }

  /** A key and a value `Set` can store and read back: no '=' and no
      terminator in either. */
  predicate Clean(key: seq<byte>, value: seq<byte>)
  {
    Sep !in key && Sep !in value && Term !in key && Term !in value
  }

  /** `n` padding bytes. */
  function Padding(n: nat): (p: seq<byte>)
    ensures |p| == n
  {
    seq(n, i => Pad)
  }

  /** The block `Set` writes: key, '=', value, terminator, '0' padding to
      the block size. */
  function EntryBytes(key: seq<byte>, value: seq<byte>): (e: seq<byte>)
    requires |key| + |value| <= BlockSize - 2
    ensures |e| == BlockSize
  {
    key + [Sep] + value + [Term] + Padding(BlockSize - |key| - |value| - 2)
  }

  /** The block `Del` writes: terminator, then '0' padding. */
  function TombstoneBytes(): (e: seq<byte>)
    ensures |e| == BlockSize
  {
    [Term] + Padding(BlockSize - 1)
  }

  /** A stored entry reads back as its key and value when both are clean. */
  lemma EntryReadsBack(key: seq<byte>, value: seq<byte>)
    requires |key| + |value| <= BlockSize - 2 && Clean(key, value)
    ensures SlotOf(EntryBytes(key, value)) == Pair(key, value)
  {
    var e := EntryBytes(key, value);
    var n := |key| + 1 + |value|;
    assert e[..n] == key + [Sep] + value;
    assert Term !in e[..n];
    IndexOfFirst(e, Term, n);
    SplitJoin(key, value);
  }

  /** A key with '=' in it is stored, but the block then makes every scan
      that reaches it panic. */
  lemma EntryWithSepPanics(key: seq<byte>, value: seq<byte>)
    requires |key| + |value| <= BlockSize - 2 && Sep in key && Term !in key && Term !in value
    ensures SlotOf(EntryBytes(key, value)) == Bad("Unexpected: key value pair malformed")
  {
    var e := EntryBytes(key, value);
    var n := |key| + 1 + |value|;
    assert e[..n] == key + [Sep] + value;
    assert Term !in e[..n];
    IndexOfFirst(e, Term, n);
    var line := e[..n];
    var i := IndexOf(key, Sep);
    IndexOfFirst(line, Sep, i) by {
      assert line[..i] == key[..i];
    }
    assert line[i + 1..][|key| - i - 1] == Sep;
  }

  /** A tombstone reads as a free slot. */
  lemma TombstoneIsFree()
    ensures SlotOf(TombstoneBytes()) == Free
  {
  }

  /** `Set`'s entry buffer: a fresh block, the key copied in, '=', the value
      copied in, the terminator, then the padding loop. */
  method MakeEntry(key: seq<byte>, value: seq<byte>) returns (entry: seq<byte>)
    requires |key| + |value| <= BlockSize - 2
    ensures entry == EntryBytes(key, value)
  {
    var e := new byte[BlockSize](_ => 0);
    var kl, vl := |key|, |value|;
    forall i | 0 <= i < kl {
      e[i] := key[i];
    }
    e[kl] := Sep;
    forall i | 0 <= i < vl {
      e[kl + 1 + i] := value[i];
    }
    e[kl + 1 + vl] := Term;
    var i := kl + vl + 2;
    while i < BlockSize
      invariant kl + vl + 2 <= i <= BlockSize
      invariant e[..kl + vl + 2] == key + [Sep] + value + [Term]
      invariant forall j :: kl + vl + 2 <= j < i ==> e[j] == Pad
    {
      e[i] := Pad;
      i := i + 1;
    }
    entry := e[..];
    assert entry == e[..kl + vl + 2] + e[kl + vl + 2..];
  }

  /** `Del`'s entry buffer: the terminator, then the padding loop. */
  method MakeTombstone() returns (entry: seq<byte>)
    ensures entry == TombstoneBytes()
  {
    var e := new byte[BlockSize](_ => 0);
    e[0] := Term;
    for i := 1 to BlockSize
      invariant e[0] == Term
      invariant forall j :: 1 <= j < i ==> e[j] == Pad
    {
      e[i] := Pad;
    }
    entry := e[..];
    assert entry == [e[0]] + e[1..];
  }

  // ------------------------------------------------------------ The scan

  /** `Read(buf)` at `pos` into the reused block buffer `prev`: a full
      block when there is one, otherwise the rest of the file followed by
      what the buffer held from the previous read. */
  function Fill(prev: seq<byte>, file: seq<byte>, pos: nat): (buf: seq<byte>)
    requires |prev| == BlockSize && pos < |file|
    ensures |buf| == BlockSize
  {
    if pos + BlockSize <= |file| then file[pos..pos + BlockSize] else file[pos..] + prev[|file| - pos..]
  }

  /** The `findBlock` loop from block `b`, with `wb` the last free block
      seen so far and `prev` the buffer's content: stops at end of file
      (returning the last free block, or else the block just past the end),
      panics on a malformed block, and returns the first block whose key
      matches. */
  function Scan(file: seq<byte>, key: seq<byte>, b: nat, wb: int, prev: seq<byte>): (r: Lookup)
    requires |prev| == BlockSize && wb >= -1
    ensures r.Lookup? ==> r.writeBlock >= 0 && r.keyBlock >= -1
    decreases |file| - b * BlockSize
  {
    if b * BlockSize >= |file| then Lookup(if wb >= 0 then wb else b, -1, None)
    else
      var buf := Fill(prev, file, b * BlockSize);
      match SlotOf(buf)
      case Bad(m) => Panic(m)
      case Free => Scan(file, key, b + 1, b, buf)
      case Pair(k, v) => if k == key then Lookup(b, b, Some(v)) else Scan(file, key, b + 1, wb, buf)
  }

  /** The scan of a whole file from its start, with a fresh buffer. */
  function FindBlockSpec(file: seq<byte>, key: seq<byte>): Lookup
  {
    Scan(file, key, 0, -1, Zeros(BlockSize))
  }

  // ------------------------------------------------- Whole-block view

  /** The file holds whole blocks only. */
  predicate WholeBlocks(file: seq<byte>)
  {
    |file| % BlockSize == 0
  }

  /** Block `b` of a file. */
  function Block(file: seq<byte>, b: nat): seq<byte>
    requires (b + 1) * BlockSize <= |file|
  {
    file[b * BlockSize..(b + 1) * BlockSize]
  }

  /** The slots of a file of whole blocks. */
  function Slots(file: seq<byte>): (s: seq<Slot>)
    requires WholeBlocks(file)
    ensures |s| == |file| / BlockSize
  {
    seq(|file| / BlockSize, b requires 0 <= b < |file| / BlockSize => SlotOf(Block(file, b)))
  }

  /** The scan on slots: `Scan` for a file of whole blocks. */
  function Find(slots: seq<Slot>, key: seq<byte>, b: nat, wb: int): Lookup
    requires b <= |slots|
    decreases |slots| - b
  {
    if b == |slots| then Lookup(if wb >= 0 then wb else b, -1, None)
    else
      match slots[b]
      case Bad(m) => Panic(m)
      case Free => Find(slots, key, b + 1, b)
      case Pair(k, v) => if k == key then Lookup(b, b, Some(v)) else Find(slots, key, b + 1, wb)
  }

  /** On a file of whole blocks every read fills the buffer with one block,
      so the scan depends on the slots only. */
  lemma {:induction false} ScanSlots(file: seq<byte>, key: seq<byte>, b: nat, wb: int, prev: seq<byte>)
    requires WholeBlocks(file) && |prev| == BlockSize && wb >= -1 && b <= |file| / BlockSize
    ensures Scan(file, key, b, wb, prev) == Find(Slots(file), key, b, wb)
    decreases |file| / BlockSize - b
  {
    var n := |file| / BlockSize;
    assert |file| == n * BlockSize;
    if b < n {
      assert (b + 1) * BlockSize <= |file|;
      var buf := Fill(prev, file, b * BlockSize);
      assert buf == Block(file, b);
      ScanSlots(file, key, b + 1, b, buf);
      ScanSlots(file, key, b + 1, wb, buf);
    }
  }

  /** The value a key has in a row of slots: that of the first pair with
      the key. */
  function Stored(slots: seq<Slot>, key: seq<byte>): Option<seq<byte>>
  {
    if slots == [] then None
    else if slots[0].Pair? && slots[0].key == key then Some(slots[0].value)
    else Stored(slots[1..], key)
  }

  /** The slot holds `key`. */
  predicate Holds(s: Slot, key: seq<byte>)
  {
    s.Pair? && s.key == key
  }

  /** No slot is malformed. */
  predicate NoBad(slots: seq<Slot>)
  {
    forall i :: 0 <= i < |slots| ==> !slots[i].Bad?
  }

  /** No key is held by two slots. */
  predicate Unique(slots: seq<Slot>)
  {
    forall i, j :: 0 <= i < j < |slots| && slots[i].Pair? && slots[j].Pair? ==> slots[i].key != slots[j].key
  }

  /** A key has no value exactly when no slot holds it. */
  lemma {:induction false} StoredNone(slots: seq<Slot>, key: seq<byte>)
    ensures Stored(slots, key).None? <==> forall i :: 0 <= i < |slots| ==> !Holds(slots[i], key)
  {
    if slots != [] {
      StoredNone(slots[1..], key);
      assert forall i :: 1 <= i < |slots| ==> slots[i] == slots[1..][i - 1];
    }
  }

  /** The first slot holding a key gives its value. */
  lemma {:induction false} StoredFirst(slots: seq<Slot>, key: seq<byte>, i: nat)
    requires i < |slots| && Holds(slots[i], key)
    requires forall j :: 0 <= j < i ==> !Holds(slots[j], key)
    ensures Stored(slots, key) == Some(slots[i].value)
  {
    if i > 0 {
      assert forall j :: 0 <= j < i - 1 ==> slots[1..][j] == slots[j + 1];
      StoredFirst(slots[1..], key, i - 1);
    }
  }

  /** Replacing a slot that does not hold a key by another that does not
      leaves the key's value alone. */
  lemma {:induction false} StoredReplace(slots: seq<Slot>, i: nat, s: Slot, key: seq<byte>)
    requires i < |slots| && !Holds(slots[i], key) && !Holds(s, key)
    ensures Stored(slots[i := s], key) == Stored(slots, key)
  {
    if i > 0 {
      assert slots[i := s][1..] == slots[1..][i - 1 := s];
      StoredReplace(slots[1..], i - 1, s, key);
    }
  }

  /** Appending a slot changes a key's value only if the key had none. */
  lemma {:induction false} StoredAppend(slots: seq<Slot>, s: Slot, key: seq<byte>)
    ensures Stored(slots + [s], key) ==
              if Stored(slots, key).Some? then Stored(slots, key)
              else if Holds(s, key) then Some(s.value) else None
  {
    if slots == [] {
      assert [s][1..] == [];
    } else {
      assert (slots + [s])[1..] == slots[1..] + [s];
      StoredAppend(slots[1..], s, key);
    }
  }

  /** The scan on slots that hold no malformed block: it finds the first
      slot holding the key with its value; failing that, it points at the
      last free slot or, if none, just past the end. */
  lemma {:induction false} FindSpec(slots: seq<Slot>, key: seq<byte>, b: nat, wb: int)
    requires b <= |slots| && NoBad(slots)
    requires wb == -1 || (0 <= wb < b && slots[wb].Free?)
    ensures var r := Find(slots, key, b, wb);
      && r.Lookup?
      && r.value == Stored(slots[b..], key)
      && (r.keyBlock >= 0 ==>
            && b <= r.keyBlock < |slots| && r.writeBlock == r.keyBlock
            && Holds(slots[r.keyBlock], key) && r.value == Some(slots[r.keyBlock].value)
            && forall j :: b <= j < r.keyBlock ==> !Holds(slots[j], key))
      && (r.keyBlock < 0 ==>
            && r.keyBlock == -1 && r.value.None?
            && (r.writeBlock == |slots| ==> wb == -1 && forall j :: b <= j < |slots| ==> !slots[j].Free?)
            && (r.writeBlock == |slots| || (0 <= r.writeBlock < |slots| && slots[r.writeBlock].Free?))
            && (r.writeBlock == wb || b <= r.writeBlock)
            && forall j :: b <= j < |slots| && r.writeBlock < j ==> !slots[j].Free?)
    decreases |slots| - b
  {
    if b < |slots| {
      assert slots[b..][1..] == slots[b + 1..];
      match slots[b]
      case Free => FindSpec(slots, key, b + 1, b);
      case Pair(k, v) =>
        if k != key {
          FindSpec(slots, key, b + 1, wb);
        }
    }
  }

  /** Writing one block over block `bl` of a file of whole blocks, or just
      past its end, replaces or appends that slot only. */
  lemma WriteBlockSlots(file: seq<byte>, bl: nat, entry: seq<byte>)
    requires WholeBlocks(file) && bl <= |file| / BlockSize && |entry| == BlockSize
    ensures WholeBlocks(WriteAt(file, bl * BlockSize, entry))
    ensures var n := |file| / BlockSize;
      Slots(WriteAt(file, bl * BlockSize, entry)) ==
        if bl < n then Slots(file)[bl := SlotOf(entry)] else Slots(file) + [SlotOf(entry)]
  {
    var n := |file| / BlockSize;
    var r := WriteAt(file, bl * BlockSize, entry);
    assert |file| == n * BlockSize;
    assert |r| == if bl < n then |file| else |file| + BlockSize;
    assert WholeBlocks(r);
    var want := if bl < n then Slots(file)[bl := SlotOf(entry)] else Slots(file) + [SlotOf(entry)];
    forall b | 0 <= b < |r| / BlockSize
      ensures Slots(r)[b] == want[b]
    {
      BlockAfterWrite(file, bl, entry, b);
    }
  }

  /** One block of the file after a block write. */
  lemma BlockAfterWrite(file: seq<byte>, bl: nat, entry: seq<byte>, b: nat)
    requires WholeBlocks(file) && bl <= |file| / BlockSize && |entry| == BlockSize
    requires b <= |file| / BlockSize && (b < |file| / BlockSize || b == bl)
    ensures var r := WriteAt(file, bl * BlockSize, entry);
      (b + 1) * BlockSize <= |r| &&
      Block(r, b) == if b == bl then entry else Block(file, b)
  {
    var r := WriteAt(file, bl * BlockSize, entry);
    assert |file| == |file| / BlockSize * BlockSize;
    if b == bl {
      assert Block(r, b) == entry;
    } else {
      assert (b + 1) * BlockSize <= bl * BlockSize || bl * BlockSize + BlockSize <= b * BlockSize;
      assert Block(r, b) == Block(file, b);
    }
  }

  // --------------------------------------------------------------- The store

  /** `fileDB`: the file, as the bytes it holds. */
  class FileDB {
    var file: seq<byte>

    /** `NewFileDB`: a store over an existing file, with block size 100 and
        terminator '#'. */
    constructor (f: seq<byte>)
      ensures file == f
    {
      file := f;
    }

    /** `findBlock`: reads the blocks in turn into one buffer from the start
        of the file until end of file. A block with no terminator or with a
        malformed pair panics; a free block is remembered as the place to
        write; the first block whose key matches ends the scan. */
    method FindBlock(key: seq<byte>) returns (r: Lookup)
      ensures r == FindBlockSpec(file, key)
    {
      var buf := Zeros(BlockSize);
      var block, writeBlock := 0, -1;
      while block * BlockSize < |file|
        invariant |buf| == BlockSize && writeBlock >= -1
        invariant Scan(file, key, block, writeBlock, buf) == FindBlockSpec(file, key)
        decreases |file| - block * BlockSize
      {
        buf := Fill(buf, file, block * BlockSize);
        var oin := FindFirst(buf, Term);
        if oin < 0 {
          return Panic("Unexpected: block with no terminator character");
        }
        if oin == 0 {
          writeBlock := block;
          block := block + 1;
          continue;
        }
        var parts := SplitPair(buf[..oin]);
        if parts.None? {
          return Panic("Unexpected: key value pair malformed");
        }
        if parts.value.0 == key {
          return Lookup(block, block, Some(parts.value.1));
        }
        block := block + 1;
      }
      if writeBlock >= 0 {
        return Lookup(writeBlock, -1, None);
      }
      return Lookup(block, -1, None);
    }

    /** `Writetoblock`: seeks to the block's offset and writes the entry
        there, growing the file if the block lies at or past its end. */
    method Writetoblock(entry: seq<byte>, bl: nat)
      modifies this
      ensures file == WriteAt(old(file), bl * BlockSize, entry)
    {
      file := WriteAt(file, bl * BlockSize, entry);
    }

    /** `Set`: refuses a key and value longer together than the block size
        less two, writing nothing; otherwise writes the entry into the key's
        block, else the last free block, else the block past the end. */
    method Set(key: seq<byte>, value: seq<byte>) returns (r: Reply<()>)
      modifies this
      ensures |key| + |value| > BlockSize - 2 ==>
                r == Failed("key and value combination length is too long for the block size") && file == old(file)
      ensures |key| + |value| <= BlockSize - 2 ==>
                match FindBlockSpec(old(file), key)
                case Panic(m) => r == Panicked(m) && file == old(file)
                case Lookup(bl, _, _) =>
                  bl >= 0 && r == Done(()) && file == WriteAt(old(file), bl * BlockSize, EntryBytes(key, value))
      ensures Good(old(file)) && Clean(key, value) && |key| + |value| <= BlockSize - 2 ==>
                && Good(file) && Stored(Slots(file), key) == Some(value)
                && OthersKept(old(file), file, key)
    {
      if |key| + |value| > BlockSize - 2 {
        return Failed("key and value combination length is too long for the block size");
      }
      if Good(file) && Clean(key, value) {
        SetStoresAll(file, key, value);
      }
      var found := FindBlock(key);
      if found.Panic? {
        return Panicked(found.msg);
      }
      var entry := MakeEntry(key, value);
      Writetoblock(entry, found.writeBlock);
      r := Done(());
    }

    /** `Get`: the value of the first block whose key matches, else "key not
        found". */
    method Get(key: seq<byte>) returns (r: Reply<seq<byte>>)
      ensures match FindBlockSpec(file, key)
              case Panic(m) => r == Panicked(m)
              case Lookup(_, _, v) => r == if v.Some? then Done(v.value) else Failed("key not found")
      ensures Good(file) ==> r == match Stored(Slots(file), key)
                                  case Some(v) => Done(v)
                                  case None => Failed("key not found")
    {
      if Good(file) {
        GetStored(file, key);
      }
      var found := FindBlock(key);
      if found.Panic? {
        return Panicked(found.msg);
      }
      if found.value.Some? {
        return Done(found.value.value);
      }
      return Failed("key not found");
    }

    /** `Del`: overwrites the key's block with a tombstone and returns the
        key; "key not found" without writing if no block holds it. */
    method Del(key: seq<byte>) returns (r: Reply<seq<byte>>)
      modifies this
      ensures match FindBlockSpec(old(file), key)
              case Panic(m) => r == Panicked(m) && file == old(file)
              case Lookup(_, kb, _) =>
                if kb < 0 then r == Failed("key not found") && file == old(file)
                else r == Done(key) && file == WriteAt(old(file), kb * BlockSize, TombstoneBytes())
      ensures Good(old(file)) ==>
                && Good(file) && Stored(Slots(file), key).None?
                && (r.Done? <==> Stored(Slots(old(file)), key).Some?)
                && OthersKept(old(file), file, key)
    {
      if Good(file) {
        DelRemoves(file, key, key);
        DelRemovesAll(file, key);
      }
      var found := FindBlock(key);
      if found.Panic? {
        return Panicked(found.msg);
      }
      if found.keyBlock == -1 {
        return Failed("key not found");
      }
      var entry := MakeTombstone();
      Writetoblock(entry, found.keyBlock);
      r := Done(key);
    }
  }

  // ------------------------------------------------ Store-level properties

  /** A well-formed store: whole blocks, no malformed block, no key twice. */
  predicate Good(file: seq<byte>)
  {
    WholeBlocks(file) && NoBad(Slots(file)) && Unique(Slots(file))
  }

  /** On a well-formed store `Get` answers with the key's stored value, and
      "key not found" exactly when there is none. */
  lemma GetStored(file: seq<byte>, key: seq<byte>)
    requires Good(file)
    ensures var r := FindBlockSpec(file, key);
      r.Lookup? && r.value == Stored(Slots(file), key)
  {
    ScanSlots(file, key, 0, -1, Zeros(BlockSize));
    FindSpec(Slots(file), key, 0, -1);
    assert Slots(file)[0..] == Slots(file);
  }

  /** `Set` of a clean key and value that fit: the store stays well formed,
      the key now has the new value, and every other key keeps its own. */
  lemma SetStores(file: seq<byte>, key: seq<byte>, value: seq<byte>, other: seq<byte>)
    requires Good(file) && Clean(key, value) && |key| + |value| <= BlockSize - 2
    ensures var r := FindBlockSpec(file, key);
      && r.Lookup? && 0 <= r.writeBlock <= |file| / BlockSize
      && var f := WriteAt(file, r.writeBlock * BlockSize, EntryBytes(key, value));
      && Good(f)
      && Stored(Slots(f), key) == Some(value)
      && (other != key ==> Stored(Slots(f), other) == Stored(Slots(file), other))
  {
    var slots := Slots(file);
    ScanSlots(file, key, 0, -1, Zeros(BlockSize));
    SetSlots(slots, key, value, other);
    var bl := Find(slots, key, 0, -1).writeBlock;
    WriteBlockSlots(file, bl, EntryBytes(key, value));
    EntryReadsBack(key, value);
  }

  /** Every key other than `key` has the same value in both stores. */
  ghost predicate OthersKept(before: seq<byte>, after: seq<byte>, key: seq<byte>)
    requires WholeBlocks(before) && WholeBlocks(after)
  {
    forall other :: other != key ==> Stored(Slots(after), other) == Stored(Slots(before), other)
  }

  /** `SetStores` for every other key at once. */
  lemma SetStoresAll(file: seq<byte>, key: seq<byte>, value: seq<byte>)
    requires Good(file) && Clean(key, value) && |key| + |value| <= BlockSize - 2
    ensures var r := FindBlockSpec(file, key);
      && r.Lookup? && 0 <= r.writeBlock
      && var f := WriteAt(file, r.writeBlock * BlockSize, EntryBytes(key, value));
      && Good(f) && Stored(Slots(f), key) == Some(value)
      && OthersKept(file, f, key)
  {
    SetStores(file, key, value, key);
    forall other | other != key
      ensures var f := WriteAt(file, FindBlockSpec(file, key).writeBlock * BlockSize, EntryBytes(key, value));
        Stored(Slots(f), other) == Stored(Slots(file), other)
    {
      SetStores(file, key, value, other);
    }
  }

  /** `Set` on the slots: the pair lands in the key's slot, else the last
      free slot, else a new slot at the end. */
  lemma SetSlots(slots: seq<Slot>, key: seq<byte>, value: seq<byte>, other: seq<byte>)
    requires NoBad(slots) && Unique(slots)
    ensures var r := Find(slots, key, 0, -1);
      && r.Lookup? && 0 <= r.writeBlock <= |slots|
      && var s := Pair(key, value);
      && var t := if r.writeBlock < |slots| then slots[r.writeBlock := s] else slots + [s];
      && NoBad(t) && Unique(t) && Stored(t, key) == Some(value)
      && (other != key ==> Stored(t, other) == Stored(slots, other))
  {
    FindSpec(slots, key, 0, -1);
    var r := Find(slots, key, 0, -1);
    var bl := r.writeBlock;
    var s := Pair(key, value);
    if r.keyBlock >= 0 {
      PlaceFirst(slots, bl, key, value, other);
    } else {
      assert slots[0..] == slots;
      StoredNone(slots, key);
      if bl < |slots| {
        PlaceFirst(slots, bl, key, value, other);
      } else {
        StoredAppend(slots, s, key);
        StoredAppend(slots, s, other);
        UniqueAppend(slots, s);
      }
    }
  }

  /** Putting the pair into a slot that holds the key or is free, with no
      earlier slot holding the key. */
  lemma PlaceFirst(slots: seq<Slot>, bl: nat, key: seq<byte>, value: seq<byte>, other: seq<byte>)
    requires bl < |slots| && NoBad(slots) && Unique(slots)
    requires Holds(slots[bl], key) || slots[bl].Free?
    requires forall j :: 0 <= j < bl ==> !Holds(slots[j], key)
    requires slots[bl].Free? ==> forall j :: 0 <= j < |slots| ==> !Holds(slots[j], key)
    ensures var t := slots[bl := Pair(key, value)];
      && NoBad(t) && Unique(t) && Stored(t, key) == Some(value)
      && (other != key ==> Stored(t, other) == Stored(slots, other))
  {
    var t := slots[bl := Pair(key, value)];
    StoredFirst(t, key, bl);
    if other != key {
      StoredReplace(slots, bl, Pair(key, value), other);
    }
    forall i, j | 0 <= i < j < |t| && t[i].Pair? && t[j].Pair?
      ensures t[i].key != t[j].key
    {
      if i == bl {
        assert !Holds(slots[j], key);
      } else if j == bl {
        assert !Holds(slots[i], key);
      }
    }
  }

  lemma UniqueAppend(slots: seq<Slot>, s: Slot)
    requires Unique(slots) && s.Pair?
    requires forall j :: 0 <= j < |slots| ==> !Holds(slots[j], s.key)
    ensures Unique(slots + [s])
  {
  }

  /** `Del` on a well-formed store: a stored key loses its value, every
      other key keeps its own and the store stays well formed; a key with
      no value is "key not found". */
  lemma DelRemoves(file: seq<byte>, key: seq<byte>, other: seq<byte>)
    requires Good(file)
    ensures var r := FindBlockSpec(file, key);
      && r.Lookup?
      && (r.keyBlock < 0 <==> Stored(Slots(file), key).None?)
      && (r.keyBlock >= 0 ==>
            && r.keyBlock < |file| / BlockSize
            && var f := WriteAt(file, r.keyBlock * BlockSize, TombstoneBytes());
            && Good(f)
            && Stored(Slots(f), key).None?
            && (other != key ==> Stored(Slots(f), other) == Stored(Slots(file), other)))
  {
    var slots := Slots(file);
    ScanSlots(file, key, 0, -1, Zeros(BlockSize));
    DelSlots(slots, key, other);
    var kb := Find(slots, key, 0, -1).keyBlock;
    if kb >= 0 {
      WriteBlockSlots(file, kb, TombstoneBytes());
      TombstoneIsFree();
    }
  }

  /** `DelRemoves` for every other key at once. */
  lemma DelRemovesAll(file: seq<byte>, key: seq<byte>)
    requires Good(file)
    ensures var r := FindBlockSpec(file, key);
      && r.Lookup? && 0 <= r.keyBlock
      ==> var f := WriteAt(file, r.keyBlock * BlockSize, TombstoneBytes());
          Good(f) && OthersKept(file, f, key)
  {
    DelRemoves(file, key, key);
    var r := FindBlockSpec(file, key);
    if r.Lookup? && 0 <= r.keyBlock {
      var f := WriteAt(file, r.keyBlock * BlockSize, TombstoneBytes());
      forall other | other != key
        ensures Stored(Slots(f), other) == Stored(Slots(file), other)
      {
        DelRemoves(file, key, other);
      }
    }
  }

  /** `Del` on the slots: the key's slot becomes free. */
  lemma DelSlots(slots: seq<Slot>, key: seq<byte>, other: seq<byte>)
    requires NoBad(slots) && Unique(slots)
    ensures var r := Find(slots, key, 0, -1);
      && r.Lookup?
      && (r.keyBlock < 0 <==> Stored(slots, key).None?)
      && (r.keyBlock >= 0 ==>
            && r.keyBlock < |slots|
            && var t := slots[r.keyBlock := Free];
            && NoBad(t) && Unique(t) && Stored(t, key).None?
            && (other != key ==> Stored(t, other) == Stored(slots, other)))
  {
    FindSpec(slots, key, 0, -1);
    assert slots[0..] == slots;
    var r := Find(slots, key, 0, -1);
    if r.keyBlock >= 0 {
      var kb := r.keyBlock;
      var t := slots[kb := Free];
      assert forall j :: 0 <= j < |t| ==> !Holds(t[j], key);
      StoredNone(t, key);
      if other != key {
        StoredReplace(slots, kb, Free, other);
      }
    }
  }

  /** A free block is reused: with any free block in a well-formed store,
      `Set` of a key that is not stored writes into the last free block of
      the file instead of growing it. */
  lemma SetReusesFree(file: seq<byte>, key: seq<byte>, i: nat)
    requires Good(file) && Stored(Slots(file), key).None?
    requires i < |Slots(file)| && Slots(file)[i].Free?
    ensures var r := FindBlockSpec(file, key);
      && r.Lookup? && i <= r.writeBlock < |file| / BlockSize && Slots(file)[r.writeBlock].Free?
      && forall j :: r.writeBlock < j < |Slots(file)| ==> !Slots(file)[j].Free?
  {
    ScanSlots(file, key, 0, -1, Zeros(BlockSize));
    FindSpec(Slots(file), key, 0, -1);
    assert Slots(file)[0..] == Slots(file);
  }

  /** `Writetoblock` changes the bytes of its block and no others. */
  lemma WriteBlockFrame(file: seq<byte>, bl: nat, entry: seq<byte>, i: nat)
    requires |entry| == BlockSize && i < |file|
    requires i < bl * BlockSize || (bl + 1) * BlockSize <= i
    ensures WriteAt(file, bl * BlockSize, entry)[i] == file[i]
  {
  }
}
