/** Log records, the addresses they name, and their bytes. */
module LogRecords {
  import opened Bytes

  const LOG_TYPE_INSERT := 0
  const LOG_TYPE_UPDATE := 1
  const TWO32 := 0x1_0000_0000
  const TWO16 := 0x1_0000

  /** A change of one item, with the bytes to write when redoing and undoing it. */
  datatype Record =
    | Insert(xid: int, pgno: int, offset: int, raw: seq<byte>)
    | Update(xid: int, pgno: int, offset: int, oldRaw: seq<byte>, newRaw: seq<byte>)

  datatype Address = Address(pgno: int, offset: int)

  function AddressOf(r: Record): Address {
    Address(r.pgno, r.offset)
  }

  /** `pgno << 32 | offset` on 64 bits: a negative offset is sign-extended and
      its upper 48 one-bits swallow the page number. */
  function AddressToUid(pgno: int, offset: int): int {
    if offset < 0 then offset else pgno * TWO32 + offset
  }

  /** `(short)(uid & 0xFFFF)` and `(int)(uid >>> 32)`. */
  function UidToAddress(uid: int): Address {
    var low := uid % TWO16;
    Address(uid / TWO32, if low >= TWO16 / 2 then low - TWO16 else low)
  }

  /** An address survives the trip through its uid exactly when its offset is
      not negative, page -1 aside. */
  lemma AddressRoundTrip(pgno: int, offset: int)
    requires Fits(pgno, 4) && Fits(offset, 2)
    ensures Fits(AddressToUid(pgno, offset), 8)
    ensures UidToAddress(AddressToUid(pgno, offset)) == Address(pgno, offset) <==> offset >= 0 || pgno == -1
  {
    Halves();
    var uid := AddressToUid(pgno, offset);
    if offset >= 0 {
      assert uid / TWO32 == pgno;
      assert uid == TWO16 * (TWO16 * pgno) + offset;
    } else {
      assert uid / TWO32 == -1;
      assert uid % TWO16 == offset + TWO16;
    }
  }

  lemma Halves()
    ensures Half(2) == 0x8000 && Half(4) == 0x8000_0000 && Half(8) == 0x8000_0000_0000_0000
  {
    assert Half(2) == 256 * Half(1);
    assert Half(3) == 256 * Half(2);
    assert Half(4) == 256 * Half(3);
    assert Half(5) == 256 * Half(4);
    assert Half(6) == 256 * Half(5);
    assert Half(7) == 256 * Half(6);
    assert Half(8) == 256 * Half(7);
  }

  /** The fields fit their places, and an update replaces an item by one of the
      same length. */
  predicate WellFormed(r: Record) {
    && Fits(r.xid, 8) && Fits(r.pgno, 4) && Fits(r.offset, 2) && r.offset >= 0
    && (r.Update? ==> |r.oldRaw| == |r.newRaw|)
  }

  /** [type][xid][pgno][offset][raw] or [type][xid][uid][oldRaw][newRaw] */
  function EncodeRecord(r: Record): seq<byte> {
    match r
    case Insert(xid, pgno, offset, raw) =>
      [LOG_TYPE_INSERT] + Encode(xid, 8) + Encode(pgno, 4) + Encode(offset, 2) + raw
    case Update(xid, pgno, offset, oldRaw, newRaw) =>
      [LOG_TYPE_UPDATE] + Encode(xid, 8) + Encode(AddressToUid(pgno, offset), 8) + oldRaw + newRaw
  }

  /** Where the fields of a record stand. */
  lemma RecordBytes(r: Record)
    ensures var log := EncodeRecord(r);
            && |log| >= 15 && log[1..9] == Encode(r.xid, 8)
            && (r.Insert? ==>
                  log[0] == 0 && log[9..13] == Encode(r.pgno, 4) && log[13..15] == Encode(r.offset, 2) && log[15..] == r.raw)
            && (r.Update? ==>
                  && |log| >= 17 && log[0] == 1 && log[17..] == r.oldRaw + r.newRaw
                  && log[9..17] == Encode(if r.offset < 0 then r.offset else r.pgno * 0x1_0000_0000 + r.offset, 8))
  {
    hide Encode;
    match r
    case Insert(xid, pgno, offset, raw) =>
      Parts([LOG_TYPE_INSERT], Encode(xid, 8), Encode(pgno, 4), Encode(offset, 2), raw);
    case Update(xid, pgno, offset, oldRaw, newRaw) =>
      Parts([LOG_TYPE_UPDATE], Encode(xid, 8), Encode(AddressToUid(pgno, offset), 8), oldRaw, newRaw);
      assert EncodeRecord(r)[17..] == oldRaw + newRaw;
  }

  predicate IsInsertLog(log: seq<byte>)
    requires log != []
  {
    log[0] == LOG_TYPE_INSERT
  }

  predicate LongEnough(log: seq<byte>) {
    |log| >= 15 && (log[0] != LOG_TYPE_INSERT ==> |log| >= 17)
  }

  function ParseInsertLog(log: seq<byte>): Record
    requires |log| >= 15
  {
    Insert(Decode(log[1..9]), Decode(log[9..13]), Decode(log[13..15]), log[15..])
  }

  function ParseUpdateLog(log: seq<byte>): Record
    requires |log| >= 17
  {
    var a := UidToAddress(Decode(log[9..17]));
    var length := (|log| - 17) / 2;
    Update(Decode(log[1..9]), a.pgno, a.offset, log[17..17 + length], log[17 + length..17 + length * 2])
  }

  function ParseRecord(log: seq<byte>): Record
    requires LongEnough(log)
  {
    if IsInsertLog(log) then ParseInsertLog(log) else ParseUpdateLog(log)
  }

  /** Where the parts of a concatenation are found again. */
  lemma Parts(head: seq<byte>, x: seq<byte>, y: seq<byte>, z: seq<byte>, w: seq<byte>)
    requires |head| == 1
    ensures var all := head + x + y + z + w;
            var i, j, k := 1 + |x|, 1 + |x| + |y|, 1 + |x| + |y| + |z|;
            all[0] == head[0] && all[1..i] == x && all[i..j] == y && all[j..k] == z && all[k..] == w
  {
  }

  /** Recovery reads back exactly the change that was logged. */
  lemma RecordRoundTrip(r: Record)
    requires WellFormed(r)
    ensures LongEnough(EncodeRecord(r)) && ParseRecord(EncodeRecord(r)) == r
  {
    hide Encode, Decode, Fits, Half;
    EncodeDecode(r.xid, 8);
    EncodeDecode(r.pgno, 4);
    EncodeDecode(r.offset, 2);
    match r
    case Insert(xid, pgno, offset, raw) =>
      Parts([LOG_TYPE_INSERT], Encode(xid, 8), Encode(pgno, 4), Encode(offset, 2), raw);
    case Update(xid, pgno, offset, oldRaw, newRaw) =>
      AddressRoundTrip(pgno, offset);
      EncodeDecode(AddressToUid(pgno, offset), 8);
      Parts([LOG_TYPE_UPDATE], Encode(xid, 8), Encode(AddressToUid(pgno, offset), 8), oldRaw, newRaw);
      var log := EncodeRecord(r);
      assert log[17 + |oldRaw|..17 + |oldRaw| * 2] == newRaw;
  }
}
