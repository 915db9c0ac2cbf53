/** The transaction file: a counter, then one status byte for each transaction. */
module XidFile {
  import opened Bytes
  import opened LogRecords
  import opened Visibility

  const HEADER_LENGTH := 8

  function GetXidPosition(xid: int): int {
    HEADER_LENGTH + (xid - 1)
  }

  function StatusByte(s: Status): byte {
    match s
    case Active => 0
    case Committed => 1
    case Aborted => 2
  }

  /** checkXIDCounter: the file is as long as its counter says. */
  predicate Opens(file: seq<byte>) {
    |file| >= HEADER_LENGTH && |file| == GetXidPosition(Decode(file[..HEADER_LENGTH]) + 1)
  }

  /** The statuses the file holds; any byte but 1 and 2 counts as neither committed nor
      aborted. */
  function Statuses(file: seq<byte>): map<int, Status>
    requires |file| >= HEADER_LENGTH
  {
    map xid: int | 1 <= xid <= |file| - HEADER_LENGTH ::
      var b := file[GetXidPosition(xid)];
      if b == 1 then Committed else if b == 2 then Aborted else Active
  }

  ghost predicate FileOk(file: seq<byte>) {
    && Opens(file) && |file| < 0x4000_0000_0000_0000
    && forall i | HEADER_LENGTH <= i < |file| :: file[i] <= 2
  }

  lemma HeaderWritten(file: seq<byte>, counter: int)
    requires |file| >= HEADER_LENGTH && 0 <= counter < 0x4000_0000_0000_0000
    ensures Decode(Put(file, 0, Encode(counter, 8))[..HEADER_LENGTH]) == counter
    ensures Statuses(Put(file, 0, Encode(counter, 8))) == Statuses(file)
  {
    hide Encode, Decode;
    Halves();
    EncodeDecode(counter, 8);
    PutReads(file, 0, Encode(counter, 8), 0, HEADER_LENGTH);
    assert forall i | HEADER_LENGTH <= i < |file| :: Put(file, 0, Encode(counter, 8))[i] == file[i];
  }

  /** A crash between the two writes of begin leaves a file one byte longer than its
      counter says, which is refused when it is opened again. */
  lemma InterruptedBegin(file: seq<byte>)
    requires FileOk(file)
    ensures !Opens(file + [StatusByte(Active)])
  {
    assert (file + [StatusByte(Active)])[..HEADER_LENGTH] == file[..HEADER_LENGTH];
  }

  class TransactionManager {
    var file: seq<byte>
    var xidCounter: int

    ghost predicate Valid()
      reads this
    {
      FileOk(file) && xidCounter == Decode(file[..HEADER_LENGTH]) == |file| - HEADER_LENGTH
    }

    constructor Create()
      ensures Valid() && Statuses(file) == map[] && xidCounter == 0
    {
      file, xidCounter := Put(seq(HEADER_LENGTH, _ => 0), 0, Encode(0, 8)), 0;
      new;
      HeaderWritten(seq(HEADER_LENGTH, _ => 0), 0);
    }

    constructor Open(contents: seq<byte>)
      ensures file == contents
    {
      file, xidCounter := contents, 0;
    }

    /** Reads the counter; a file of another length than it says is bad. */
    method CheckXidCounter() returns (ok: bool)
      modifies `xidCounter
      ensures ok <==> Opens(file)
      ensures ok && FileOk(file) ==> Valid()
    {
      if |file| < HEADER_LENGTH {
        return false;
      }
      xidCounter := Decode(file[..HEADER_LENGTH]);
      var end := GetXidPosition(xidCounter + 1);
      ok := end == |file|;
    }

    method UpdateXid(xid: int, status: Status)
      requires |file| >= HEADER_LENGTH && 1 <= xid <= |file| - HEADER_LENGTH + 1
      modifies `file
      ensures |file| == if xid <= |old(file)| - HEADER_LENGTH then |old(file)| else |old(file)| + 1
      ensures file[..HEADER_LENGTH] == old(file)[..HEADER_LENGTH]
      ensures Statuses(file) == Statuses(old(file))[xid := status]
      ensures forall i | HEADER_LENGTH <= i < |file| :: file[i] == if i == GetXidPosition(xid) then StatusByte(status) else old(file)[i]
    {
      var offset := GetXidPosition(xid);
      if offset < |file| {
        file := file[offset := StatusByte(status)];
      } else {
        file := file + [StatusByte(status)];
      }
    }

    method IncrXidCounter()
      requires |file| >= HEADER_LENGTH && 0 <= xidCounter < 0x4000_0000_0000_0000 - 1
      modifies this
      ensures |file| == |old(file)| && xidCounter == old(xidCounter) + 1 == Decode(file[..HEADER_LENGTH])
      ensures Statuses(file) == Statuses(old(file)) && forall i | HEADER_LENGTH <= i < |file| :: file[i] == old(file)[i]
    {
      xidCounter := xidCounter + 1;
      HeaderWritten(file, xidCounter);
      file := Put(file, 0, Encode(xidCounter, 8));
    }

    /** A new transaction gets the next number and is active; nobody else changes. */
    method Begin() returns (xid: int)
      requires Valid() && xidCounter < 0x4000_0000_0000_0000 - HEADER_LENGTH - 1
      modifies this
      ensures Valid() && xid == old(xidCounter) + 1 && xid !in Statuses(old(file))
      ensures Statuses(file) == Statuses(old(file))[xid := Active] && |file| == xid + 8 && file[xid + 7] == 0
    {
      xid := xidCounter + 1;
      UpdateXid(xid, Active);
      IncrXidCounter();
    }

    method Commit(xid: int)
      requires Valid() && 1 <= xid <= xidCounter
      modifies `file
      ensures Valid() && Statuses(file) == Statuses(old(file))[xid := Committed] && file == old(file)[xid + 7 := 1]
    {
      UpdateXid(xid, Committed);
    }

    method Abort(xid: int)
      requires Valid() && 1 <= xid <= xidCounter
      modifies `file
      ensures Valid() && Statuses(file) == Statuses(old(file))[xid := Aborted] && file == old(file)[xid + 7 := 2]
    {
      UpdateXid(xid, Aborted);
    }

    /** The super transaction is always committed and has no byte in the file. */
    method CheckCommitted(xid: int) returns (r: bool)
      requires Valid() && 0 <= xid <= xidCounter
      ensures r == IsCommitted(Statuses(file), xid)
    {
      if xid == SUPER_XID {
        return true;
      }
      r := file[GetXidPosition(xid)] == StatusByte(Committed);
    }

    method CheckActive(xid: int) returns (r: bool)
      requires Valid() && 0 <= xid <= xidCounter
      ensures r <==> xid != SUPER_XID && Statuses(file)[xid] == Active
    {
      if xid == SUPER_XID {
        return false;
      }
      r := file[GetXidPosition(xid)] == StatusByte(Active);
    }

    method CheckAborted(xid: int) returns (r: bool)
      requires Valid() && 0 <= xid <= xidCounter
      ensures r <==> xid != SUPER_XID && Statuses(file)[xid] == Aborted
    {
      if xid == SUPER_XID {
        return false;
      }
      r := file[GetXidPosition(xid)] == StatusByte(Aborted);
    }
  }
}
