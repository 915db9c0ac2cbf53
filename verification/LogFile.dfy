/** The log file: [checksum of all records] then [size][checksum][data] for each
    record, possibly with a torn record at the end. */
module LogFile {
  import opened Bytes

  const SEED := 13331
  const OF_CHECKSUM := 4
  const OF_DATA := 8
  const START := 4

  function Signed(b: byte): int {
    if b >= 128 then b - 256 else b
  }

  /** calChecksum: continues a rolling checksum over more bytes. */
  function Checksum(x: int, bytes: seq<byte>): int {
    if bytes == [] then x
    else Wrap32(Checksum(x, bytes[..|bytes| - 1]) * SEED + Signed(bytes[|bytes| - 1]))
  }

  lemma {:induction false} ChecksumGoesOn(x: int, a: seq<byte>, b: seq<byte>)
    ensures Checksum(x, a + b) == Checksum(Checksum(x, a), b)
  {
    if b == [] {
      assert a + b == a;
    } else {
      var init := b[..|b| - 1];
      assert (a + b)[..|a + b| - 1] == a + init;
      ChecksumGoesOn(x, a, init);
    }
  }

  lemma ChecksumFits(x: int, bytes: seq<byte>)
    requires Fits(x, 4)
    ensures Fits(Checksum(x, bytes), 4)
  {
    assert Half(2) == 256 * Half(1);
    assert Half(3) == 256 * Half(2);
    assert Half(4) == 256 * Half(3);
  }

  /** Each byte moves what went before up by 13331. */
  lemma ChecksumOfTwo(a: byte, b: byte)
    ensures Checksum(0, [a]) == Signed(a) && Checksum(0, [a, b]) == 13331 * Signed(a) + Signed(b)
  {
    assert [a][..0] == [] && [a, b][..1] == [a];
  }

  /** Multiplying by 13331 can be undone in 32 bits: 1171764763 is its inverse. */
  lemma SeedInverts(d: int, k: int)
    requires d * 13331 == k * 0x1_0000_0000 && -0x1_0000_0000 < d < 0x1_0000_0000
    ensures d == 0
  {
    var q := k * 1171764763 - d * 3637;
    assert 13331 * 1171764763 == 1 + 3637 * 0x1_0000_0000;
    assert d * 13331 * 1171764763 == d + d * 3637 * 0x1_0000_0000;
    assert d == q * 0x1_0000_0000;
  }

  lemma WrapApart(v: int, w: int)
    requires Wrap32(v) == Wrap32(w)
    ensures exists k :: v - w == k * 0x1_0000_0000
  {
    var a, b := v + 0x8000_0000, w + 0x8000_0000;
    assert a - b == (a / 0x1_0000_0000 - b / 0x1_0000_0000) * 0x1_0000_0000;
  }

  /** Different checksums stay different when the same byte is added. */
  lemma StaysApart(x: int, y: int, b: byte)
    requires Fits(x, 4) && Fits(y, 4) && x != y
    ensures Wrap32(x * SEED + Signed(b)) != Wrap32(y * SEED + Signed(b))
  {
    assert Half(4) == 0x8000_0000 by { assert Half(2) == 256 * Half(1) && Half(3) == 256 * Half(2) && Half(4) == 256 * Half(3); }
    if Wrap32(x * SEED + Signed(b)) == Wrap32(y * SEED + Signed(b)) {
      WrapApart(x * SEED + Signed(b), y * SEED + Signed(b));
      var k :| (x * SEED + Signed(b)) - (y * SEED + Signed(b)) == k * 0x1_0000_0000;
      SeedInverts(x - y, k);
    }
  }

  lemma {:induction false} ChecksumsStayApart(x: int, y: int, bytes: seq<byte>)
    requires Fits(x, 4) && Fits(y, 4) && x != y
    ensures Checksum(x, bytes) != Checksum(y, bytes)
  {
    if bytes != [] {
      var init := bytes[..|bytes| - 1];
      ChecksumsStayApart(x, y, init);
      ChecksumFits(x, init);
      ChecksumFits(y, init);
      hide Checksum, Fits;
      StaysApart(Checksum(x, init), Checksum(y, init), bytes[|bytes| - 1]);
      LastByte(x, bytes);
      LastByte(y, bytes);
    }
  }

  lemma LastByte(x: int, bytes: seq<byte>)
    requires bytes != []
    ensures Checksum(x, bytes) == Wrap32(Checksum(x, bytes[..|bytes| - 1]) * SEED + Signed(bytes[|bytes| - 1]))
  {
  }

  ghost predicate OneByteApart(bytes: seq<byte>, other: seq<byte>) {
    |bytes| == |other| && exists i: nat :: i < |bytes| && other == bytes[i := other[i]] && other[i] != bytes[i]
  }

  /** Changing one byte always changes the checksum. */
  lemma ChangeIsNoticed(x: int, bytes: seq<byte>, i: nat, b: byte)
    requires Fits(x, 4) && i < |bytes| && b != bytes[i]
    ensures Checksum(x, bytes[i := b]) != Checksum(x, bytes)
  {
    var p, s := bytes[..i], bytes[i + 1..];
    assert bytes == (p + [bytes[i]]) + s && bytes[i := b] == (p + [b]) + s;
    ChecksumGoesOn(x, p + [bytes[i]], s);
    ChecksumGoesOn(x, p + [b], s);
    LastByte(x, p + [bytes[i]]);
    LastByte(x, p + [b]);
    assert (p + [bytes[i]])[..i] == p && (p + [b])[..i] == p;
    ChecksumFits(x, p + [bytes[i]]);
    ChecksumFits(x, p + [b]);
    BytesApart(Checksum(x, p), bytes[i], b);
    ChecksumsStayApart(Checksum(x, p + [bytes[i]]), Checksum(x, p + [b]), s);
  }

  lemma BytesApart(x: int, b: byte, c: byte)
    requires b != c
    ensures Wrap32(x * SEED + Signed(b)) != Wrap32(x * SEED + Signed(c))
  {
    if Wrap32(x * SEED + Signed(b)) == Wrap32(x * SEED + Signed(c)) {
      WrapApart(x * SEED + Signed(b), x * SEED + Signed(c));
    }
  }

  /** wrapLog */
  function WrapLog(data: seq<byte>): seq<byte> {
    Encode(|data|, 4) + Encode(Checksum(0, data), 4) + data
  }

  function Wraps(list: seq<seq<byte>>): seq<byte> {
    if list == [] then [] else WrapLog(list[0]) + Wraps(list[1..])
  }

  /** The file after the records of `list` were logged. */
  function FileOf(list: seq<seq<byte>>): seq<byte> {
    Encode(Checksum(0, Wraps(list)), 4) + Wraps(list)
  }

  /** What reading n bytes into a zeroed buffer gives; nothing is read beyond the
      end of the file. */
  function ReadAt(file: seq<byte>, pos: nat, n: nat): (buf: seq<byte>)
    ensures |buf| == n
  {
    seq(n, i requires 0 <= i < n => if pos + i < |file| then file[pos + i] else 0)
  }

  datatype Outcome = Data(log: seq<byte>) | End | Thrown

  /** internNext, with the log's own eight bytes left out of the result. */
  function NextLog(file: seq<byte>, fileSize: int, pos: nat): (r: Outcome)
    ensures r.Data? ==> pos + OF_DATA + |r.log| <= fileSize
  {
    if pos + OF_DATA >= fileSize then End
    else
      var size := Decode(ReadAt(file, pos, 4));
      if pos + size + OF_DATA > fileSize then End
      else if size < 0 then Thrown
      else
        var log := ReadAt(file, pos, OF_DATA + size);
        if Checksum(0, log[OF_DATA..]) != Decode(log[OF_CHECKSUM..OF_DATA]) then End else Data(log[OF_DATA..])
  }

  /** The records read from `pos` on, and where reading stops. */
  function Scan(file: seq<byte>, fileSize: int, pos: nat): (r: (seq<seq<byte>>, nat, Outcome))
    decreases fileSize - pos
  {
    match NextLog(file, fileSize, pos)
    case Data(log) =>
      var rest := Scan(file, fileSize, pos + OF_DATA + |log|);
      ([log] + rest.0, rest.1, rest.2)
    case End => ([], pos, End)
    case Thrown => ([], pos, Thrown)
  }

  predicate Loggable(data: seq<byte>) {
    data != [] && Fits(|data|, 4)
  }

  ghost predicate AllLoggable(list: seq<seq<byte>>) {
    forall i | 0 <= i < |list| :: Loggable(list[i])
  }

  lemma {:induction false} WrapsMore(list: seq<seq<byte>>, data: seq<byte>)
    ensures Wraps(list + [data]) == Wraps(list) + WrapLog(data)
  {
    if list == [] {
      assert list + [data] == [data];
      assert Wraps([data]) == WrapLog(data) + Wraps([data][1..]);
      assert [data][1..] == [];
    } else {
      assert (list + [data])[1..] == list[1..] + [data];
      WrapsMore(list[1..], data);
    }
  }

  lemma WrapParts(data: seq<byte>)
    ensures var w := WrapLog(data);
            |w| == OF_DATA + |data| && w[..4] == Encode(|data|, 4) && w[4..8] == Encode(Checksum(0, data), 4) && w[8..] == data
  {
  }

  /** A whole record is read back, whatever follows it. */
  lemma ReadsWhole(file: seq<byte>, fileSize: int, pos: nat, data: seq<byte>)
    requires Loggable(data) && pos + OF_DATA + |data| <= fileSize && pos + OF_DATA + |data| <= |file|
    requires file[pos..pos + OF_DATA + |data|] == WrapLog(data)
    ensures NextLog(file, fileSize, pos) == Data(data)
  {
    hide Encode, Decode, Fits, Half, Checksum, WrapLog;
    ZeroFits(4);
    WrapParts(data);
    var w := WrapLog(data);
    assert ReadAt(file, pos, OF_DATA + |data|) == w;
    assert ReadAt(file, pos, 4) == w[..4];
    EncodeDecode(|data|, 4);
    ChecksumFits(0, data);
    EncodeDecode(Checksum(0, data), 4);
  }

  /** A torn record is not read. */
  lemma SkipsTorn(file: seq<byte>, pos: nat, data: seq<byte>, tail: seq<byte>)
    requires Loggable(data) && pos + |tail| == |file| && file[pos..] == tail
    requires tail <= WrapLog(data) && |tail| < |WrapLog(data)|
    ensures NextLog(file, |file|, pos) == End
  {
    hide Encode, Decode, Fits, Half, Checksum, WrapLog;
    WrapParts(data);
    if |tail| > OF_DATA {
      assert ReadAt(file, pos, 4) == tail[..4] == WrapLog(data)[..4];
      EncodeDecode(|data|, 4);
    }
  }

  lemma Peel(file: seq<byte>, pos: nat, first: seq<byte>, rest: seq<byte>)
    requires pos <= |file| && file[pos..] == first + rest
    ensures pos + |first| <= |file| && file[pos..pos + |first|] == first && file[pos + |first|..] == rest
  {
    assert file[pos..][..|first|] == first;
    assert file[pos..][|first|..] == rest;
  }

  /** Reading returns a record exactly when its whole wrapping is found where the file is
      taken to go on for as long. */
  lemma ReadsExactly(file: seq<byte>, fileSize: int, pos: nat, data: seq<byte>)
    requires Fits(|data|, 4)
    ensures NextLog(file, fileSize, pos) == Data(data) <==>
            && pos + OF_DATA < fileSize && pos + OF_DATA + |data| <= fileSize
            && ReadAt(file, pos, OF_DATA + |data|) == WrapLog(data)
  {
    hide Encode, Decode, Half, Checksum, Fits, WrapLog, ReadAt;
    var log := ReadAt(file, pos, OF_DATA + |data|);
    ReadParts(file, pos, |data|);
    WrapParts(data);
    ZeroFits(4);
    ChecksumFits(0, data);
    EncodeDecode(|data|, 4);
    EncodeDecode(Checksum(0, data), 4);
    if NextLog(file, fileSize, pos) == Data(data) {
      DecodesOnce(log[..4], Encode(|data|, 4));
      DecodesOnce(log[4..8], Encode(Checksum(0, data), 4));
      assert log == log[..4] + log[4..8] + log[8..];
      assert WrapLog(data) == WrapLog(data)[..4] + WrapLog(data)[4..8] + WrapLog(data)[8..];
    }
  }

  /** Only a negative size is an exception. */
  lemma ThrowsExactly(file: seq<byte>, fileSize: int, pos: nat)
    ensures NextLog(file, fileSize, pos).Thrown? <==> pos + OF_DATA < fileSize && Decode(ReadAt(file, pos, 4)) < 0
  {
    hide Decode, ReadAt, Checksum;
  }

  lemma ReadParts(file: seq<byte>, pos: nat, n: nat)
    ensures ReadAt(file, pos, OF_DATA + n)[..4] == ReadAt(file, pos, 4)
  {
  }

  /** Scanning whole records and then something that ends it finds the whole ones. */
  lemma {:induction false} ScanStops(file: seq<byte>, pos: nat, list: seq<seq<byte>>, tail: seq<byte>)
    requires AllLoggable(list) && pos <= |file| && file[pos..] == Wraps(list) + tail
    requires NextLog(file, |file|, pos + |Wraps(list)|) == End
    ensures Scan(file, |file|, pos) == (list, pos + |Wraps(list)|, End)
    decreases |list|
  {
    hide WrapLog, Loggable, NextLog, Wraps, AllLoggable, Scan;
    FirstWrapped(list);
    if list == [] {
      ScanEnds(file, pos);
    } else {
      var first := list[0];
      var next := pos + OF_DATA + |first|;
      assert WrapLog(first) + Wraps(list[1..]) + tail == WrapLog(first) + (Wraps(list[1..]) + tail);
      Peel(file, pos, WrapLog(first), Wraps(list[1..]) + tail);
      ReadsWhole(file, |file|, pos, first);
      ScanStops(file, next, list[1..], tail);
      ScanOne(file, pos, first);
      assert list == [first] + list[1..];
    }
  }

  lemma FirstWrapped(list: seq<seq<byte>>)
    requires AllLoggable(list)
    ensures list == [] ==> Wraps(list) == []
    ensures list != [] ==>
              && Wraps(list) == WrapLog(list[0]) + Wraps(list[1..]) && |WrapLog(list[0])| == OF_DATA + |list[0]|
              && Loggable(list[0]) && AllLoggable(list[1..])
  {
  }

  lemma ScanEnds(file: seq<byte>, pos: nat)
    requires NextLog(file, |file|, pos) == End
    ensures Scan(file, |file|, pos) == ([], pos, End)
  {
  }

  lemma ScanOne(file: seq<byte>, pos: nat, first: seq<byte>)
    requires NextLog(file, |file|, pos) == Data(first)
    ensures var rest := Scan(file, |file|, pos + OF_DATA + |first|);
            Scan(file, |file|, pos) == ([first] + rest.0, rest.1, rest.2)
  {
  }

  /** So does a torn record, or none. */
  lemma ScanFinds(file: seq<byte>, pos: nat, list: seq<seq<byte>>, data: seq<byte>, tail: seq<byte>)
    requires AllLoggable(list) && Loggable(data) && pos <= |file|
    requires file[pos..] == Wraps(list) + tail && tail <= WrapLog(data) && |tail| < |WrapLog(data)|
    ensures Scan(file, |file|, pos) == (list, pos + |Wraps(list)|, End)
  {
    hide WrapLog, Loggable, NextLog, Scan;
    Peel(file, pos, Wraps(list), tail);
    SkipsTorn(file, pos + |Wraps(list)|, data, tail);
    ScanStops(file, pos, list, tail);
  }

  /** A record of which one data byte was changed is not read. */
  lemma SkipsChanged(file: seq<byte>, pos: nat, data: seq<byte>, i: nat, b: byte, rest: seq<byte>)
    requires Loggable(data) && i < |data| && b != data[i] && pos <= |file|
    requires file[pos..] == Encode(|data|, 4) + Encode(Checksum(0, data), 4) + data[i := b] + rest
    ensures NextLog(file, |file|, pos) == End
  {
    hide Encode, Decode, Fits, Half, Checksum, NextLog;
    ZeroFits(4);
    ChecksumFits(0, data);
    EncodeDecode(|data|, 4);
    EncodeDecode(Checksum(0, data), 4);
    ChangeIsNoticed(0, data, i, b);
    var size, sum, bad := Encode(|data|, 4), Encode(Checksum(0, data), 4), data[i := b];
    assert size + sum + bad + rest == size + (sum + bad + rest);
    Peel(file, pos, size, sum + bad + rest);
    assert ReadAt(file, pos, 4) == size;
    assert size + sum + bad + rest == (size + sum + bad) + rest;
    Peel(file, pos, size + sum + bad, rest);
    assert ReadAt(file, pos, OF_DATA + |data|) == size + sum + bad;
    assert (size + sum + bad)[OF_CHECKSUM..OF_DATA] == sum && (size + sum + bad)[OF_DATA..] == bad;
    NotRead(file, pos, |data|);
  }

  lemma NotRead(file: seq<byte>, pos: nat, size: nat)
    requires Decode(ReadAt(file, pos, 4)) == size && pos + OF_DATA + size <= |file|
    requires var log := ReadAt(file, pos, OF_DATA + size); Checksum(0, log[OF_DATA..]) != Decode(log[OF_CHECKSUM..OF_DATA])
    ensures NextLog(file, |file|, pos) == End
  {
    hide ReadAt, Decode, Checksum;
  }

  // Reading on with a file size that is out of date.

  /** How many empty records are read past the end of the file when it is taken to
      be `extra` bytes longer than it is. */
  function Spurious(extra: nat): nat {
    if extra <= OF_DATA then 0 else 1 + Spurious(extra - OF_DATA)
  }

  function Empties(n: nat): (list: seq<seq<byte>>)
    ensures |list| == n
  {
    seq(n, _ => [])
  }

  lemma ZerosDecode(n: nat)
    requires n <= 4
    ensures Decode(seq(n, _ => 0)) == 0
  {
    UnsignedZeros(n);
  }

  lemma {:induction false} UnsignedZeros(n: nat)
    ensures Unsigned(seq(n, _ => 0)) == 0
  {
    if n > 0 {
      UnsignedZeros(n - 1);
      var s: seq<byte> := seq(n, _ => 0);
      assert s[..n - 1] == seq(n - 1, _ => 0);
    }
  }

  /** Beyond the end of the file the zeros read as an empty record whose checksum
      is right. */
  lemma {:induction false} ScanBeyond(file: seq<byte>, pos: nat, extra: nat)
    requires pos >= |file|
    ensures Scan(file, pos + extra, pos).0 == Empties(Spurious(extra)) && Scan(file, pos + extra, pos).2 == End
    decreases extra
  {
    hide Decode, Unsigned;
    if extra > OF_DATA {
      assert ReadAt(file, pos, 4) == seq(4, _ => 0);
      ZerosDecode(4);
      var log := ReadAt(file, pos, OF_DATA);
      assert log[OF_CHECKSUM..OF_DATA] == seq(4, _ => 0);
      assert log[OF_DATA..] == [];
      ScanBeyond(file, pos + OF_DATA, extra - OF_DATA);
      assert Empties(Spurious(extra)) == [[]] + Empties(Spurious(extra - OF_DATA));
    }
  }

  lemma {:induction false} ScanGoesBeyond(file: seq<byte>, pos: nat, list: seq<seq<byte>>, extra: nat)
    requires AllLoggable(list) && pos <= |file| && file[pos..] == Wraps(list)
    ensures Scan(file, |file| + extra, pos).0 == list + Empties(Spurious(extra))
    ensures Scan(file, |file| + extra, pos).2 == End
    decreases |list|
  {
    hide WrapLog, Loggable, NextLog, Spurious;
    if list == [] {
      ScanBeyond(file, pos, extra);
      assert list + Empties(Spurious(extra)) == Empties(Spurious(extra));
    } else {
      var first := list[0];
      WrapParts(first);
      var next := pos + OF_DATA + |first|;
      Peel(file, pos, WrapLog(first), Wraps(list[1..]));
      ReadsWhole(file, |file| + extra, pos, first);
      ScanGoesBeyond(file, next, list[1..], extra);
      assert list == [first] + list[1..];
    }
  }

  lemma {:induction false} SpuriousCount(extra: nat)
    requires extra > 0
    ensures Spurious(extra) == (extra - 1) / 8
  {
    if extra > OF_DATA {
      SpuriousCount(extra - OF_DATA);
      assert (extra - 1) / 8 == (extra - OF_DATA - 1) / 8 + 1;
    }
  }

  // Opening a log.

  /** Opening succeeds on this file. */
  ghost predicate Opens(file: seq<byte>) {
    && |file| >= START
    && Scan(file, |file|, START).2.End?
    && START <= Scan(file, |file|, START).1 <= |file|
    && Checksum(0, file[START..Scan(file, |file|, START).1]) == Decode(file[..START])
  }

  ghost function Opened(file: seq<byte>): seq<byte>
    requires Opens(file)
  {
    file[..Scan(file, |file|, START).1]
  }

  lemma HeaderReads(list: seq<seq<byte>>, tail: seq<byte>)
    ensures Decode((FileOf(list) + tail)[..START]) == Checksum(0, Wraps(list))
    ensures (FileOf(list) + tail)[START..] == Wraps(list) + tail
  {
    hide Encode, Decode, Checksum, Fits, Half;
    ZeroFits(4);
    ChecksumFits(0, Wraps(list));
    EncodeDecode(Checksum(0, Wraps(list)), 4);
    assert (FileOf(list) + tail)[..START] == Encode(Checksum(0, Wraps(list)), 4);
  }

  /** A log torn in the middle of a record opens, keeps every whole record and loses
      the torn one. Reading it right after opening gives exactly its records if and
      only if the torn part was at most eight bytes long: the file size noted before
      the cut is not corrected, and reading past the end finds an empty record in
      every further eight bytes. */
  lemma TornLog(list: seq<seq<byte>>, data: seq<byte>, tail: seq<byte>)
    requires AllLoggable(list) && Loggable(data) && tail <= WrapLog(data) && |tail| < |WrapLog(data)|
    ensures var file := FileOf(list) + tail;
            && Opens(file) && Opened(file) == FileOf(list)
            && Scan(Opened(file), |file|, START).0 == list + Empties(if |tail| == 0 then 0 else (|tail| - 1) / 8)
            && (Scan(Opened(file), |file|, START).0 == list <==> |tail| <= OF_DATA)
  {
    hide WrapLog, Loggable, NextLog, Scan, Encode, Decode, Checksum, Wraps;
    var file := FileOf(list) + tail;
    HeaderReads(list, tail);
    HeaderReads(list, []);
    assert FileOf(list) + [] == FileOf(list);
    ScanFinds(file, START, list, data, tail);
    var end := START + |Wraps(list)|;
    assert |FileOf(list)| == end;
    assert file[START..end] == Wraps(list);
    assert file[..end] == FileOf(list);
    ScanGoesBeyond(FileOf(list), START, list, |tail|);
    if |tail| > 0 {
      SpuriousCount(|tail|);
    }
    var n := Spurious(|tail|);
    assert n == 0 ==> list + Empties(n) == list;
    assert n != 0 ==> |list + Empties(n)| != |list|;
  }

  lemma OneByteLoggable()
    ensures Loggable([1])
  {
    assert Half(4) == 256 * Half(3);
  }

  /** A log whose last record is complete but not yet counted in the header is
      refused, unless the record happens to leave the checksum unchanged. */
  lemma UncountedRecord(list: seq<seq<byte>>, data: seq<byte>)
    requires AllLoggable(list) && Loggable(data)
    ensures var x := Checksum(0, Wraps(list));
            Opens(FileOf(list) + WrapLog(data)) <==> Checksum(x, WrapLog(data)) == x
  {
    hide WrapLog, NextLog, Scan, Encode, Decode, Checksum, Wraps, Fits, Loggable;
    OneByteLoggable();
    var more := list + [data];
    var file := FileOf(list) + WrapLog(data);
    HeaderReads(list, WrapLog(data));
    WrapsMore(list, data);
    WrapParts([1]);
    assert Wraps(more) + [] == Wraps(more);
    ScanFinds(file, START, more, [1], []);
    ChecksumGoesOn(0, Wraps(list), WrapLog(data));
    assert file[START..|file|] == Wraps(more);
  }

  /** A log in which one data byte of one record was changed: reading stops before that
      record, so it is never returned, and the log opens only if the records before it
      happen to have the checksum of all. */
  lemma ChangedRecord(list: seq<seq<byte>>, data: seq<byte>, rest: seq<seq<byte>>, i: nat, b: byte)
    requires AllLoggable(list) && Loggable(data) && i < |data| && b != data[i]
    ensures var all := list + [data] + rest;
            var file := Encode(Checksum(0, Wraps(all)), 4) + Wraps(list)
                        + (Encode(|data|, 4) + Encode(Checksum(0, data), 4) + data[i := b] + Wraps(rest));
            && Scan(file, |file|, START).0 == list
            && (Opens(file) <==> Checksum(0, Wraps(list)) == Checksum(0, Wraps(all)))
  {
    hide Encode, Decode, Fits, Half, Checksum, Loggable, Wraps, NextLog, Scan;
    var all := list + [data] + rest;
    var tail := Encode(|data|, 4) + Encode(Checksum(0, data), 4) + data[i := b] + Wraps(rest);
    var header := Encode(Checksum(0, Wraps(all)), 4);
    var file := header + Wraps(list) + tail;
    ZeroFits(4);
    ChecksumFits(0, Wraps(all));
    EncodeDecode(Checksum(0, Wraps(all)), 4);
    var end := START + |Wraps(list)|;
    assert file[..START] == header && file[START..] == Wraps(list) + tail && file[end..] == tail;
    SkipsChanged(file, end, data, i, b, Wraps(rest));
    ScanStops(file, START, list, tail);
    assert file[START..end] == Wraps(list);
  }

  /** The log as an object over its file. */
  class Logger {
    var file: seq<byte>
    var position: nat
    var fileSize: int
    var xChecksum: int

    constructor Create()
      ensures file == FileOf([]) && xChecksum == Checksum(0, Wraps([])) && fileSize == 0
    {
      file, position, fileSize, xChecksum := Encode(0, 4), 0, 0, 0;
    }

    constructor Open(contents: seq<byte>)
      ensures file == contents
    {
      file, position, fileSize, xChecksum := contents, 0, 0, 0;
    }

    /** A checksum that notices every change of a single byte. */
    static method CalChecksum(x: int, log: seq<byte>) returns (sum: int)
      ensures sum == Checksum(x, log)
      ensures Fits(x, 4) ==> forall other | OneByteApart(log, other) :: Checksum(x, other) != sum
    {
      if Fits(x, 4) {
        forall other | OneByteApart(log, other) ensures Checksum(x, other) != Checksum(x, log) {
          var i: nat :| i < |log| && other == log[i := other[i]] && other[i] != log[i];
          ChangeIsNoticed(x, log, i, other[i]);
        }
      }
      sum := x;
      var i := 0;
      while i < |log|
        invariant i <= |log| && sum == Checksum(x, log[..i])
      {
        sum := Wrap32(sum * SEED + Signed(log[i]));
        assert log[..i + 1][..i] == log[..i];
        i := i + 1;
      }
      assert log[..|log|] == log;
    }

    method Rewind()
      modifies `position
      ensures position == START
    {
      position := START;
    }

    method InternNext() returns (r: Outcome)
      modifies `position
      ensures r == NextLog(file, fileSize, old(position))
      ensures position == if r.Data? then old(position) + OF_DATA + |r.log| else old(position)
    {
      if position + OF_DATA >= fileSize {
        return End;
      }
      var size := Decode(ReadAt(file, position, 4));
      if position + size + OF_DATA > fileSize {
        return End;
      }
      if size < 0 {
        return Thrown;
      }
      var log := ReadAt(file, position, OF_DATA + size);
      var checksum1 := CalChecksum(0, log[OF_DATA..]);
      var checksum2 := Decode(log[OF_CHECKSUM..OF_DATA]);
      if checksum1 != checksum2 {
        return End;
      }
      position := position + |log|;
      r := Data(log[OF_DATA..]);
    }

    /** init and checkAndRemoveTail: a bad file is reported, a torn tail cut off. */
    method Init() returns (ok: bool)
      modifies this
      ensures ok <==> Opens(old(file))
      ensures ok ==> file == Opened(old(file)) && fileSize == |old(file)| && position == START && xChecksum == Decode(old(file)[..START])
    {
      hide NextLog, Decode;
      if |file| < START {
        return false;
      }
      fileSize := |file|;
      xChecksum := Decode(file[..START]);
      Rewind();
      var xCheck := 0;
      while true
        invariant START <= position <= |file| && file == old(file) && fileSize == |file| && xChecksum == Decode(file[..START])
        invariant Scan(file, fileSize, START).1 == Scan(file, fileSize, position).1
        invariant Scan(file, fileSize, START).2 == Scan(file, fileSize, position).2
        invariant xCheck == Checksum(0, file[START..position])
        decreases |file| - position
      {
        var at := position;
        var log := InternNext();
        if log.Thrown? {
          return false;
        }
        if log.End? {
          break;
        }
        xCheck := CalChecksum(xCheck, file[at..position]);
        ChecksumGoesOn(0, file[START..at], file[at..position]);
        assert file[START..position] == file[START..at] + file[at..position];
      }
      if xCheck != xChecksum {
        return false;
      }
      file := file[..position];
      Rewind();
      ok := true;
    }

    /** Reading every record, the way recovery does. */
    method ReadAll() returns (list: seq<seq<byte>>, r: Outcome)
      modifies `position
      ensures list == Scan(file, fileSize, START).0 && r == Scan(file, fileSize, START).2
    {
      hide NextLog;
      Rewind();
      list := [];
      r := InternNext();
      while r.Data?
        invariant r.Data? ==> position <= fileSize
        invariant r.Data? ==> Scan(file, fileSize, START).0 == list + [r.log] + Scan(file, fileSize, position).0
        invariant r.Data? ==> Scan(file, fileSize, START).2 == Scan(file, fileSize, position).2
        invariant !r.Data? ==> Scan(file, fileSize, START).0 == list && Scan(file, fileSize, START).2 == r
        decreases r.Data?, fileSize - position
      {
        list := list + [r.log];
        r := InternNext();
      }
    }

    /** Appends a record and then counts it in the header. */
    method Log(data: seq<byte>, ghost list: seq<seq<byte>>)
      requires file == FileOf(list) && xChecksum == Checksum(0, Wraps(list))
      modifies `file, `xChecksum
      ensures file == FileOf(list + [data]) && xChecksum == Checksum(0, Wraps(list + [data]))
    {
      hide Encode, WrapLog, Checksum;
      var log := WrapLog(data);
      file := file + log;
      WrapsMore(list, data);
      ChecksumGoesOn(0, Wraps(list), log);
      xChecksum := CalChecksum(xChecksum, log);
      file := Encode(xChecksum, 4) + file[4..];
    }
  }
}
