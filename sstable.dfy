/** The sorted-string-table manager of sstables.go: the header read when a
    table file is opened, the loading of a directory of tables, and `Flush`,
    which writes the in-memory tree to a new table file. Files are byte
    sequences; a directory listing is a sequence of entries; the working
    directory that `Flush` writes into is a map from file name to content. */
module SSTable {
  import opened Wrappers
  import opened Codec
  import opened Files
  import opened Index

  /** The magic number at the start of every table. */
  const Magic: seq<byte> := [0, 0, 0, 0]

  /** The format version `Flush` writes. */
  const FormatVersion: int := 1

  /** The header bytes written by `Flush`: magic, entry count, smallest key,
      largest key and version. */
  const HeaderSize: nat := 18

  /** `SStable`: the header fields read from a table file. */
  datatype Header = Header(magicNumber: seq<byte>, entryCount: seq<byte>,
                           smallestKey: seq<byte>, largestKey: seq<byte>, version: seq<byte>)

  /** One entry of a directory listing and, for a regular file, its content. */
  datatype DirEntry = DirEntry(name: string, isDir: bool, content: seq<byte>)

  // ------------------------------------------------------------- Opening

  /** `openSStable` from the magic number on: the 4-byte magic must be all
      zero, then entry count, smallest key, largest key and version are read
      in turn (any of these reads can hit end of file), and finally the
      checksum stage `verify` runs on the whole content. */
  function OpenSSTable(content: seq<byte>, verify: seq<byte> -> Outcome): (r: Result<Header>)
    ensures content == [] ==> r == Err("EOF")
    ensures r.Ok? ==> r.value.magicNumber == Magic && verify(content) == Pass
  {
    match ReadAt(content, 0, 4)
    case Eof => Err("EOF")
    case Bytes(magic, p) =>
      if magic != Magic then Err("corrupt sstable")
      else
        match ReadCount(content, p)
        case Err(m) => Err(m)
        case Ok(h) =>
          match verify(content)
          case Pass => Ok(h)
          case Fail(m) => Err(m)
  }

  /** Reads the entry count, then the rest of the header. */
  function ReadCount(content: seq<byte>, pos: nat): (r: Result<Header>)
    requires pos <= |content|
    ensures r.Err? ==> r.msg == "EOF"
    ensures r.Ok? ==> pos < |content|
  {
    match ReadAt(content, pos, 4)
    case Eof => Err("EOF")
    case Bytes(count, p) => ReadBounds(content, p, count)
  }

  /** Reads the smallest and largest key, then the version. */
  function ReadBounds(content: seq<byte>, pos: nat, count: seq<byte>): (r: Result<Header>)
    requires pos <= |content|
    ensures r.Err? ==> r.msg == "EOF"
    ensures r.Ok? ==> pos < |content| && r.value.entryCount == count
  {
    match ReadAt(content, pos, 4)
    case Eof => Err("EOF")
    case Bytes(small, p) =>
      match ReadAt(content, p, 4)
      case Eof => Err("EOF")
      case Bytes(large, q) => ReadVersion(content, q, count, small, large)
  }

  /** Reads the 2-byte version. */
  function ReadVersion(content: seq<byte>, pos: nat, count: seq<byte>, small: seq<byte>, large: seq<byte>): (r: Result<Header>)
    requires pos <= |content|
    ensures r.Err? <==> pos == |content|
    ensures r.Err? ==> r.msg == "EOF"
    ensures r.Ok? ==> r.value.entryCount == count && r.value.smallestKey == small && r.value.largestKey == large
  {
    match ReadAt(content, pos, 2)
    case Eof => Err("EOF")
    case Bytes(version, _) => Ok(Header(Magic, count, small, large, version))
  }

  /** Opening rejects a table whose first four bytes are not all zero as
      corrupt, before anything else is read; an empty file is end of file. */
  lemma OpenChecksMagic(content: seq<byte>, verify: seq<byte> -> Outcome)
    ensures |content| >= 4 && content[..4] != Magic ==>
              OpenSSTable(content, verify) == Err("corrupt sstable")
  {
    if |content| >= 4 {
      ReadWithin(content, 0, 4);
    }
  }

  /** Every read of the header must start before the end of the file, so a
      file that opens has more than 16 bytes (the version read starts at
      offset 16) and starts with the magic. */
  lemma OpenNeedsHeader(content: seq<byte>, verify: seq<byte> -> Outcome)
    requires OpenSSTable(content, verify).Ok?
    ensures |content| > 16 && content[..4] == Magic
  {
    var r0 := ReadAt(content, 0, 4);
    ReadAtContents(content, 0, 4);
    assert r0.Bytes? && r0.data == Magic && ReadCount(content, r0.next).Ok?;
    assert r0.next == 4;
    var r1 := ReadAt(content, 4, 4);
    ReadAtContents(content, 4, 4);
    assert r1.Bytes? && ReadBounds(content, r1.next, r1.data).Ok?;
    assert r1.next == 8;
    var r2 := ReadAt(content, 8, 4);
    ReadAtContents(content, 8, 4);
    assert r2.Bytes? && ReadAt(content, r2.next, 4).Bytes?;
    assert r2.next == 12;
    var r3 := ReadAt(content, 12, 4);
    ReadAtContents(content, 12, 4);
    assert r3.Bytes? && ReadVersion(content, r3.next, r1.data, r2.data, r3.data).Ok?;
    assert r3.next == 16;
  }

  /** Lines 190-211 as written: seek to four bytes before the end and read
      those four bytes, then read four more from where that read stopped. */
  function ChecksumAsWritten(content: seq<byte>): (r: Outcome)
  {
    if |content| < 4 then Fail("invalid argument")
    else
      match ReadAt(content, |content| - 4, 4)
      case Eof => Fail("EOF")
      case Bytes(_, p) =>
        match ReadAt(content, p, 4)
        case Eof => Fail("EOF")
        case Bytes(_, _) => Pass
  }

  /** As written, the second checksum read starts at the end of the file, so
      the checksum stage fails on every file and no table ever opens. */
  lemma ChecksumAsWrittenFails(content: seq<byte>)
    ensures ChecksumAsWritten(content).Fail?
    ensures OpenSSTable(content, ChecksumAsWritten).Err?
  {
    if |content| >= 4 {
      ReadWithin(content, |content| - 4, 4);
    }
  }

  // ------------------------------------------------------------- Loading

  /** The number of regular files in a listing. */
  function FileCount(entries: seq<DirEntry>): nat
  {
    if entries == [] then 0
    else FileCount(entries[..|entries| - 1]) + if entries[|entries| - 1].isDir then 0 else 1
  }

  /** The count never exceeds the listing and is zero exactly when every
      entry is a directory. */
  lemma {:induction false} FileCountBounds(entries: seq<DirEntry>)
    ensures FileCount(entries) <= |entries|
    ensures FileCount(entries) == 0 <==> forall i :: 0 <= i < |entries| ==> entries[i].isDir
  {
    if entries != [] {
      var init := entries[..|entries| - 1];
      FileCountBounds(init);
      assert forall i :: 0 <= i < |init| ==> init[i] == entries[i];
    }
  }

  /** The `NewSST` counting loop: directories are skipped. */
  method CountFiles(entries: seq<DirEntry>) returns (n: nat)
    ensures n == FileCount(entries)
  {
    n := 0;
    var i := 0;
    while i < |entries|
      invariant 0 <= i <= |entries|
      invariant n == FileCount(entries[..i])
    {
      assert entries[..i + 1][..i] == entries[..i];
      if !entries[i].isDir {
        n := n + 1;
      }
      i := i + 1;
    }
    assert entries[..i] == entries;
  }

  /** Reference for `loadSStable`: the listing's regular files are opened
      in order and the first failure is the result. */
  function Load(entries: seq<DirEntry>, verify: seq<byte> -> Outcome): Result<seq<Header>>
  {
    if entries == [] then Ok([])
    else
      var e := entries[|entries| - 1];
      match Load(entries[..|entries| - 1], verify)
      case Err(m) => Err(m)
      case Ok(hs) =>
        if e.isDir then Ok(hs)
        else
          match OpenSSTable(e.content, verify)
          case Err(m) => Err(m)
          case Ok(h) => Ok(hs + [h])
  }

  /** Loading is all or nothing: it succeeds exactly when every regular
      file opens, and then holds one header per regular file, in order. */
  lemma {:induction false} LoadAllOrNothing(entries: seq<DirEntry>, verify: seq<byte> -> Outcome)
    ensures Load(entries, verify).Ok? <==>
              forall i :: 0 <= i < |entries| && !entries[i].isDir ==> OpenSSTable(entries[i].content, verify).Ok?
    ensures Load(entries, verify).Ok? ==> |Load(entries, verify).value| == FileCount(entries)
  {
    if entries != [] {
      var init := entries[..|entries| - 1];
      LoadAllOrNothing(init, verify);
      assert forall i :: 0 <= i < |init| ==> init[i] == entries[i];
    }
  }

  /** `loadSStable`: opens each regular file of the listing in turn,
      appending its header, and gives up on the first failure. */
  method LoadSSTables(entries: seq<DirEntry>, verify: seq<byte> -> Outcome) returns (r: Result<seq<Header>>)
    ensures r == Load(entries, verify)
  {
    var tables: seq<Header> := [];
    var i := 0;
    while i < |entries|
      invariant 0 <= i <= |entries|
      invariant Load(entries[..i], verify) == Ok(tables)
    {
      assert entries[..i + 1][..i] == entries[..i];
      if !entries[i].isDir {
        match OpenSSTable(entries[i].content, verify)
        case Err(m) =>
          LoadKeepsError(entries, i + 1, verify);
          return Err(m);
        case Ok(h) =>
          tables := tables + [h];
      }
      i := i + 1;
    }
    assert entries[..i] == entries;
    r := Ok(tables);
  }

  /** Once a prefix of the listing fails to load, the whole listing fails
      with the same error. */
  lemma {:induction false} LoadKeepsError(entries: seq<DirEntry>, i: nat, verify: seq<byte> -> Outcome)
    requires i <= |entries| && Load(entries[..i], verify).Err?
    ensures Load(entries, verify) == Load(entries[..i], verify)
    decreases |entries| - i
  {
    if i < |entries| {
      assert entries[..i + 1][..i] == entries[..i];
      LoadKeepsError(entries, i + 1, verify);
    } else {
      assert entries[..i] == entries;
    }
  }

  // --------------------------------------------------------------- Names

  /** The ASCII digit for `d`. */
  function DigitChar(d: nat): char
    requires d < 10
  {
    (48 + d) as char
  }

  /** `%d` of a non-negative number: its decimal digits. */
  function Decimal(n: nat): (s: string)
    ensures |s| >= 1
  {
    if n < 10 then [DigitChar(n)] else Decimal(n / 10) + [DigitChar(n % 10)]
  }

  /** Reads a string of decimal digits back as a number. */
  function ParseDecimal(s: string): int
  {
    if s == [] then 0 else ParseDecimal(s[..|s| - 1]) * 10 + (s[|s| - 1] as int - 48)
  }

  /** Decimal printing loses nothing: parsing gives the number back. */
  lemma {:induction false} ParseDecimalOf(n: nat)
    ensures ParseDecimal(Decimal(n)) == n
  {
    var s := Decimal(n);
    if n >= 10 {
      ParseDecimalOf(n / 10);
      assert s[..|s| - 1] == Decimal(n / 10);
    } else {
      assert s[..0] == [];
    }
  }

  /** `Name`'s format: "file", the count in decimal, ".sst". */
  function FileName(n: nat): (name: string)
    ensures |name| == |Decimal(n)| + 8
    ensures name[..4] == "file" && name[|name| - 4..] == ".sst"
    ensures ParseDecimal(name[4..|name| - 4]) == n
  {
    var name := "file" + Decimal(n) + ".sst";
    assert name[4..|name| - 4] == Decimal(n);
    ParseDecimalOf(n);
    name
  }

  /** Different counts give different file names. */
  lemma FileNameInjective(a: nat, b: nat)
    requires FileName(a) == FileName(b)
    ensures a == b
  {
  }

  // -------------------------------------------------------- Flush layout

  /** The header: magic, `uint32(tree.Len())`, the smallest and the largest
      key each cut to its first 4 bytes as a big-endian uint32 and written
      back, and the version as a uint16. */
  function HeaderBytes(count: int, minKey: Key, maxKey: Key): (h: seq<byte>)
    requires |minKey| >= 4 && |maxKey| >= 4
    ensures |h| == HeaderSize
  {
    Magic + EncodeInt(count) + EncodeInt(DecodeInt(minKey)) + EncodeInt(DecodeInt(maxKey))
      + EncodeNum(FormatVersion)
  }

  /** One record: key length and value length each as a single byte (the
      length modulo 256), then the key and the value. */
  function RecordBytes(key: Key, value: Value): (r: seq<byte>)
    ensures |r| == 2 + |key| + |value|
    ensures r[0] == |key| % 256 && r[1] == |value| % 256
    ensures r[2..2 + |key|] == key && r[2 + |key|..] == value
  {
    [|key| % 256, |value| % 256] + key + value
  }

  /** The records of a list of pairs, in list order. */
  function Records(ps: seq<(Key, Value)>): seq<byte>
  {
    if ps == [] then [] else RecordBytes(ps[0].0, ps[0].1) + Records(ps[1..])
  }

  /** A table image: header, one record per pair, and the 4-byte
      big-endian checksum. */
  function FlushImage(count: int, minKey: Key, maxKey: Key, ps: seq<(Key, Value)>, checksum: int): seq<byte>
    requires |minKey| >= 4 && |maxKey| >= 4
  {
    HeaderBytes(count, minKey, maxKey) + Records(ps) + EncodeInt(checksum)
  }

  /** The (key, value) pairs of a list of items, in order. */
  function Pairs(items: seq<Item>): (ps: seq<(Key, Value)>)
    ensures |ps| == |items|
  {
    seq(|items|, i requires 0 <= i < |items| => (items[i].key, items[i].value))
  }

  /** A visitor that accepts every pair: `Flush`'s visitor when no write fails. */
  function AcceptAll(key: Key, value: Value): bool
  {
    true
  }

  /** Ascending with a visitor that never refuses offers every item, in
      order, tombstones included. */
  lemma AscendAll(t: Tree)
    requires t.Valid()
    ensures t.Ascend(AcceptAll) == Pairs(t.Items())
  {
    VisitPrefixSpec(t.Items(), AcceptAll);
  }

  /** Appending a pair appends its record. */
  lemma {:induction false} RecordsSnoc(ps: seq<(Key, Value)>, p: (Key, Value))
    ensures Records(ps + [p]) == Records(ps) + RecordBytes(p.0, p.1)
  {
    if ps == [] {
      assert [] + [p] == [p];
      assert [p][1..] == [];
    } else {
      assert (ps + [p])[0] == ps[0] && (ps + [p])[1..] == ps[1..] + [p];
      RecordsSnoc(ps[1..], p);
    }
  }

  /** The fields of the header, read back. */
  lemma HeaderLayout(count: int, minKey: Key, maxKey: Key)
    requires |minKey| >= 4 && |maxKey| >= 4
    ensures var h := HeaderBytes(count, minKey, maxKey);
      && h[..4] == Magic
      && DecodeInt(h[4..8]) == count % TwoTo32
      && h[8..12] == minKey[..4]
      && h[12..16] == maxKey[..4]
      && DecodeNum(h[16..]) == FormatVersion
  {
    var h := HeaderBytes(count, minKey, maxKey);
    assert h[4..8] == EncodeInt(count);
    assert h[8..12] == EncodeInt(DecodeInt(minKey));
    assert h[12..16] == EncodeInt(DecodeInt(maxKey));
    assert h[16..] == EncodeNum(FormatVersion);
    EncodeIntWraps(count);
    KeyPrefix(minKey);
    KeyPrefix(maxKey);
    DecodeEncodeNum(FormatVersion);
  }

  /** Decoding a key as a uint32 and encoding it again keeps its first four
      bytes. */
  lemma KeyPrefix(k: Key)
    requires |k| >= 4
    ensures EncodeInt(DecodeInt(k)) == k[..4]
  {
    assert DecodeInt(k) == DecodeInt(k[..4]);
    EncodeDecodeInt(k[..4]);
  }

  /** Reference decoder for the body: reads `n` records from the front of
      `b`, each a key length byte, a value length byte, then the key and the
      value; nothing if the bytes run out. */
  function ParseRecords(b: seq<byte>, n: nat): Option<seq<(Key, Value)>>
  {
    if n == 0 then Some([])
    else if |b| < 2 then None
    else
      var kl, vl := b[0] as nat, b[1] as nat;
      if |b| < 2 + kl + vl then None
      else
        var k, v := b[2..2 + kl], b[2 + kl..2 + kl + vl];
        match ParseRecords(b[2 + kl + vl..], n - 1)
        case None => None
        case Some(rest) => Some([(k, v)] + rest)
  }

  /** Every key and value is shorter than 256 bytes, so its length fits
      its length byte. */
  ghost predicate ShortPairs(ps: seq<(Key, Value)>)
  {
    forall i :: 0 <= i < |ps| ==> |ps[i].0| < 256 && |ps[i].1| < 256
  }

  /** The body decodes back to the pairs it was written from, whatever
      follows it, as long as every length fits in a byte. */
  lemma {:induction false} RecordsRoundTrip(ps: seq<(Key, Value)>, rest: seq<byte>)
    requires ShortPairs(ps)
    ensures ParseRecords(Records(ps) + rest, |ps|) == Some(ps)
  {
    if ps != [] {
      var k, v := ps[0].0, ps[0].1;
      var tail := Records(ps[1..]) + rest;
      assert Records(ps) + rest == RecordBytes(k, v) + tail;
      assert ShortPairs(ps[1..]) by {
        forall i | 0 <= i < |ps[1..]| ensures |ps[1..][i].0| < 256 && |ps[1..][i].1| < 256 {
          assert ps[1..][i] == ps[i + 1];
        }
      }
      RecordsRoundTrip(ps[1..], rest);
      ParseRecordFront(k, v, tail, |ps| - 1);
      assert [(k, v)] + ps[1..] == ps;
    }
  }

  /** Decoding one record from the front, then the rest. */
  lemma ParseRecordFront(k: Key, v: Value, tail: seq<byte>, n: nat)
    requires |k| < 256 && |v| < 256
    ensures ParseRecords(RecordBytes(k, v) + tail, n + 1) ==
              match ParseRecords(tail, n)
              case None => None
              case Some(r) => Some([(k, v)] + r)
  {
    var b := RecordBytes(k, v) + tail;
    assert b == [|k| as byte, |v| as byte] + (k + (v + tail));
    assert b[0] == |k| && b[1] == |v|;
    assert b[2..2 + |k|] == k;
    assert b[2 + |k|..2 + |k| + |v|] == v;
    assert b[2 + |k| + |v|..] == tail;
  }

  /** A 256-byte key gets length byte 0: its record no longer says how long
      it is. */
  lemma RecordLengthWraps(value: Value)
    ensures RecordBytes(Zeros(256), value)[0] == 0
  {
  }

  /** A table `Flush` writes opens with the header it wrote: the magic, the
      entry count, and the first four bytes of the smallest and the largest
      key. */
  lemma FlushImageOpens(count: int, minKey: Key, maxKey: Key, ps: seq<(Key, Value)>, checksum: int,
                        verify: seq<byte> -> Outcome)
    requires |minKey| >= 4 && |maxKey| >= 4
    requires verify(FlushImage(count, minKey, maxKey, ps, checksum)) == Pass
    ensures OpenSSTable(FlushImage(count, minKey, maxKey, ps, checksum), verify) ==
              Ok(Header(Magic, EncodeInt(count), minKey[..4], maxKey[..4], EncodeNum(FormatVersion)))
  {
    var img := FlushImage(count, minKey, maxKey, ps, checksum);
    var body := Records(ps) + EncodeInt(checksum);
    assert img[..HeaderSize] == HeaderBytes(count, minKey, maxKey);
    assert |img| > HeaderSize;
    HeaderLayout(count, minKey, maxKey);
    ReadWithin(img, 0, 4);
    assert img[0..4] == Magic;
    HeaderFieldsRead(img, EncodeInt(count), minKey[..4], maxKey[..4]);
  }

  /** Reading the four header fields that follow the magic. */
  lemma HeaderFieldsRead(img: seq<byte>, count: seq<byte>, small: seq<byte>, large: seq<byte>)
    requires |img| > HeaderSize && |count| == 4 && |small| == 4 && |large| == 4
    requires img[4..8] == count && img[8..12] == small && img[12..16] == large
    ensures ReadCount(img, 4) == Ok(Header(Magic, count, small, large, img[16..18]))
  {
    ReadWithin(img, 4, 4);
    ReadWithin(img, 8, 4);
    ReadWithin(img, 12, 4);
    ReadWithin(img, 16, 2);
  }

  /** The table's last four bytes are the checksum, as a big-endian uint32. */
  lemma FlushImageTrailer(count: int, minKey: Key, maxKey: Key, ps: seq<(Key, Value)>, checksum: int)
    requires |minKey| >= 4 && |maxKey| >= 4
    ensures var img := FlushImage(count, minKey, maxKey, ps, checksum);
      |img| >= HeaderSize + 4 && DecodeInt(img[|img| - 4..]) == checksum % TwoTo32
  {
    var img := FlushImage(count, minKey, maxKey, ps, checksum);
    assert img[|img| - 4..] == EncodeInt(checksum);
    EncodeIntWraps(checksum);
  }

  /** Between header and trailer lie the records of the pairs, in order. */
  lemma FlushImageBody(count: int, minKey: Key, maxKey: Key, ps: seq<(Key, Value)>, checksum: int)
    requires |minKey| >= 4 && |maxKey| >= 4 && ShortPairs(ps)
    ensures ParseRecords(FlushImage(count, minKey, maxKey, ps, checksum)[HeaderSize..], |ps|) == Some(ps)
  {
    FlushImageParts(count, minKey, maxKey, ps, checksum);
    RecordsRoundTrip(ps, EncodeInt(checksum));
  }

  /** The image cut after the header. */
  lemma FlushImageParts(count: int, minKey: Key, maxKey: Key, ps: seq<(Key, Value)>, checksum: int)
    requires |minKey| >= 4 && |maxKey| >= 4
    ensures FlushImage(count, minKey, maxKey, ps, checksum)[HeaderSize..] == Records(ps) + EncodeInt(checksum)
  {
    DropPrefix(HeaderBytes(count, minKey, maxKey), Records(ps), EncodeInt(checksum));
  }

  lemma DropPrefix(h: seq<byte>, b: seq<byte>, e: seq<byte>)
    ensures (h + b + e)[|h|..] == b + e
  {
  }

  // ----------------------------------------------------------- The manager

  /** The directory `Flush` creates its files in (the process's working
      directory), by file name. */
  class WorkDir {
    var files: map<string, seq<byte>>

    constructor (files: map<string, seq<byte>>)
      ensures this.files == files
    {
      this.files := files;
    }
  }

  /** What `os.OpenFile` with `O_CREATE|O_RDWR` and no truncation finds. */
  function Existing(files: map<string, seq<byte>>, name: string): seq<byte>
  {
    if name in files then files[name] else []
  }

  /** `SStables`: the loaded table headers, the directory they came from
      and the table counter. */
  class SStables {
    var sstables: seq<Header>
    const path: string
    var numOfSStable: nat

    constructor (path: string, count: nat, tables: seq<Header>)
      ensures this.path == path && numOfSStable == count && sstables == tables
    {
      this.path := path;
      numOfSStable := count;
      sstables := tables;
    }

    /** `Name`: "file<n>.sst" for the current count `n`. */
    function Name(): (name: string)
      reads this
      ensures |name| > 8
      ensures name[..4] == "file" && name[|name| - 4..] == ".sst"
      ensures ParseDecimal(name[4..|name| - 4]) == numOfSStable
    {
      FileName(numOfSStable)
    }

    /** `Flush`: bumps the counter, creates (or reopens without truncating)
        the file named after it in the working directory, writes the header,
        one record per item of the tree in ascending order through `Ascend`,
        and the checksum `crc` of the file name, then bumps the counter
        again. The tree must be non-empty with smallest and largest key of
        at least four bytes. */
    method Flush(tree: Tree, dir: WorkDir, crc: string -> int)
      requires tree.Valid() && tree.root.Node?
      requires |MinKey(tree.root)| >= 4 && |MaxKey(tree.root)| >= 4
      modifies this, dir
      ensures numOfSStable == old(numOfSStable) + 2
      ensures sstables == old(sstables)
      ensures var name := FileName(old(numOfSStable) + 1);
        dir.files == old(dir.files)[name := WriteAt(Existing(old(dir.files), name), 0,
          FlushImage(tree.Len(), MinKey(tree.root), MaxKey(tree.root), Pairs(tree.Items()), crc(name)))]
    {
      numOfSStable := numOfSStable + 1;
      var name := Name();
      var count := tree.Len();
      var minKey := tree.Min().value;
      var maxKey := tree.Max().value;
      var pairs := tree.Ascend(AcceptAll);
      AscendAll(tree);
      var file := WriteTable(Existing(dir.files, name), count, minKey, maxKey, pairs, crc(name));
      dir.files := dir.files[name := file];
      numOfSStable := numOfSStable + 1;
    }
  }

  /** The writes of `Flush` to the table file: the header, a record per
      pair, then the checksum. */
  method WriteTable(file: seq<byte>, count: int, minKey: Key, maxKey: Key, pairs: seq<(Key, Value)>, sum: int)
      returns (file': seq<byte>)
    requires |minKey| >= 4 && |maxKey| >= 4
    ensures file' == WriteAt(file, 0, FlushImage(count, minKey, maxKey, pairs, sum))
  {
    var off;
    file', off := WriteHeader(file, count, minKey, maxKey);
    ghost var header := HeaderBytes(count, minKey, maxKey);
    file', off := WriteBody(file', off, pairs, file, header);
    file', off := Write(file', off, EncodeInt(sum), file, header + Records(pairs));
    assert header + Records(pairs) + EncodeInt(sum) == FlushImage(count, minKey, maxKey, pairs, sum);
  }

  /** The five header writes of `Flush`, from the start of the file. */
  method WriteHeader(file: seq<byte>, count: int, minKey: Key, maxKey: Key) returns (file': seq<byte>, off': nat)
    requires |minKey| >= 4 && |maxKey| >= 4
    ensures file' == WriteAt(file, 0, HeaderBytes(count, minKey, maxKey)) && off' == HeaderSize
  {
    ghost var w: seq<byte> := [];
    WriteNothing(file);
    file', off' := Write(file, 0, Magic, file, w);
    w := w + Magic;
    file', off' := Write(file', off', EncodeInt(count), file, w);
    w := w + EncodeInt(count);
    file', off' := Write(file', off', EncodeInt(DecodeInt(minKey)), file, w);
    w := w + EncodeInt(DecodeInt(minKey));
    file', off' := Write(file', off', EncodeInt(DecodeInt(maxKey)), file, w);
    w := w + EncodeInt(DecodeInt(maxKey));
    file', off' := Write(file', off', EncodeNum(FormatVersion), file, w);
    w := w + EncodeNum(FormatVersion);
    assert w == HeaderBytes(count, minKey, maxKey);
  }

  /** `Flush`'s visitor applied to each pair `Ascend` offers: the pair's
      record is written at the current offset. */
  method WriteBody(file: seq<byte>, off: nat, pairs: seq<(Key, Value)>, ghost orig: seq<byte>, ghost written: seq<byte>)
      returns (file': seq<byte>, off': nat)
    requires file == WriteAt(orig, 0, written) && off == |written|
    ensures file' == WriteAt(orig, 0, written + Records(pairs)) && off' == off + |Records(pairs)|
  {
    file', off' := file, off;
    ghost var w := written;
    for i := 0 to |pairs|
      invariant file' == WriteAt(orig, 0, w) && off' == |w|
      invariant w == written + Records(pairs[..i])
    {
      var (key, value) := pairs[i];
      file', off' := WriteRecord(file', off', key, value, orig, w);
      RecordsSnoc(pairs[..i], pairs[i]);
      assert pairs[..i + 1] == pairs[..i] + [pairs[i]];
      w := w + RecordBytes(key, value);
    }
    assert pairs[..|pairs|] == pairs;
  }

  /** Writing nothing at the start leaves a file as it is. */
  lemma WriteNothing(file: seq<byte>)
    ensures WriteAt(file, 0, []) == file
  {
    assert file[..0] + [] + file[0..] == file;
  }

  /** `file.Write(data)` at the offset `off` reached by writing `written`
      from the start of a file that held `orig`: the file then holds
      `written + data` from its start. */
  method Write(file: seq<byte>, off: nat, data: seq<byte>, ghost orig: seq<byte>, ghost written: seq<byte>)
      returns (file': seq<byte>, off': nat)
    requires file == WriteAt(orig, 0, written) && off == |written|
    ensures file' == WriteAt(orig, 0, written + data) && off' == off + |data|
  {
    WriteAtThen(orig, written, data);
    file', off' := WriteAt(file, off, data), off + |data|;
  }

  /** The four writes of one record, at the offset `off` reached by writing
      `written`: key length, value length, key, value. */
  method WriteRecord(file: seq<byte>, off: nat, key: Key, value: Value, ghost orig: seq<byte>, ghost written: seq<byte>)
      returns (file': seq<byte>, off': nat)
    requires file == WriteAt(orig, 0, written) && off == |written|
    ensures file' == WriteAt(orig, 0, written + RecordBytes(key, value))
    ensures off' == off + |RecordBytes(key, value)|
  {
    ghost var w := written;
    file', off' := Write(file, off, [|key| % 256], orig, w);
    w := w + [|key| % 256];
    file', off' := Write(file', off', [|value| % 256], orig, w);
    w := w + [|value| % 256];
    file', off' := Write(file', off', key, orig, w);
    w := w + key;
    file', off' := Write(file', off', value, orig, w);
    w := w + value;
    assert w == written + RecordBytes(key, value);
  }

  /** `NewSST`: lists the directory (an error there is returned); counts its
      regular files; with none, an empty manager with count 0; otherwise
      the headers of all of them, or the first error opening one. */
  method NewSST(path: string, listing: Result<seq<DirEntry>>, verify: seq<byte> -> Outcome)
      returns (r: Result<SStables>)
    ensures listing.Err? ==> r == Err(listing.msg)
    ensures listing.Ok? && FileCount(listing.value) == 0 ==>
              r.Ok? && r.value.numOfSStable == 0 && r.value.sstables == []
    ensures listing.Ok? && FileCount(listing.value) > 0 ==>
              match Load(listing.value, verify)
              case Err(m) => r == Err(m)
              case Ok(hs) => r.Ok? && r.value.numOfSStable == FileCount(listing.value) && r.value.sstables == hs
    ensures r.Ok? ==> fresh(r.value) && r.value.path == path
  {
    if listing.Err? {
      return Err(listing.msg);
    }
    var n := CountFiles(listing.value);
    if n == 0 {
      var s := new SStables(path, 0, []);
      return Ok(s);
    }
    var tables := LoadSSTables(listing.value, verify);
    if tables.Err? {
      return Err(tables.msg);
    }
    var s := new SStables(path, n, tables.value);
    r := Ok(s);
  }
}
