/** The node as the program stores it: 1067 bytes inside a page, changed in
    place. Each operation is proved against the list form of the node. */
module NodeBytes {
  import opened Bytes
  import opened BLinkNode

  const IS_LEAF_OFFSET := 0
  const NO_KEYS_OFFSET := 1
  const SIBLING_OFFSET := 3
  const NODE_HEADER_SIZE := 11
  const SLOTS := 2 * BALANCE_NUMBER + 2
  const NODE_SIZE := NODE_HEADER_SIZE + 16 * SLOTS

  /** All that a node buffer says, its unused slots included. */
  datatype View = View(leaf: bool, noKeys: int, sibling: int, slots: seq<Pair>)

  type Buffer = b: seq<byte> | |b| == NODE_SIZE witness seq(NODE_SIZE, _ => 0)

  function SonOffset(k: nat): nat { NODE_HEADER_SIZE + 16 * k }

  function KeyOffset(k: nat): nat { NODE_HEADER_SIZE + 16 * k + 8 }

  function LongAt(b: Buffer, off: nat): int
    requires off + 8 <= NODE_SIZE
  {
    Decode(b[off..off + 8])
  }

  function SlotAt(b: Buffer, k: nat): Pair
    requires k < SLOTS
  {
    Pair(LongAt(b, SonOffset(k)), LongAt(b, KeyOffset(k)))
  }

  function ViewOf(b: Buffer): View {
    View(b[IS_LEAF_OFFSET] == 1, Decode(b[NO_KEYS_OFFSET..NO_KEYS_OFFSET + 2]), LongAt(b, SIBLING_OFFSET),
         seq(SLOTS, k requires 0 <= k < SLOTS => SlotAt(b, k)))
  }

  /** Where a node's fields stand: the leaf flag, the number of keys, the sibling, and 66
      slots of a son and a key. */
  lemma NodeLayout(b: Buffer, k: nat)
    requires k < 66
    ensures var v := ViewOf(b);
            && |b| == 1067 && v.leaf == (b[0] == 1) && v.noKeys == Decode(b[1..3]) && v.sibling == Decode(b[3..11])
            && |v.slots| == 66
            && v.slots[k] == Pair(Decode(b[11 + 16 * k..19 + 16 * k]), Decode(b[19 + 16 * k..27 + 16 * k]))
  {
  }

  predicate Sized(v: View) {
    0 <= v.noKeys < SLOTS && |v.slots| == SLOTS
  }

  /** The list form: the slots in use. */
  function NodeOf(v: View): Node
    requires Sized(v)
  {
    Node(v.leaf, v.sibling, v.slots[..v.noKeys])
  }

  /** Insertion on slots, unused ones included: an internal node without room
      for the key below its last one takes over whatever the next slot held. */
  function InsertSlots(v: View, uid: int, key: int): View
    requires Sized(v) && v.noKeys <= 2 * BALANCE_NUMBER
  {
    var k := FirstAtLeast(v.slots[..v.noKeys], key);
    var slots' := if v.leaf then v.slots[..k] + [Pair(uid, key)] + v.slots[k..SLOTS - 1]
                  else v.slots[..k] + [Pair(v.slots[k].son, key), Pair(uid, v.slots[k].key)] + v.slots[k + 1..SLOTS - 1];
    v.(slots := slots', noKeys := v.noKeys + 1)
  }

  /** On the slots in use this is insertion into the list. */
  lemma InsertSlotsInserts(v: View, uid: int, key: int)
    requires Sized(v) && v.noKeys <= 2 * BALANCE_NUMBER
    requires Accepts(NodeOf(v), key) && InsertPair(NodeOf(v), uid, key).Some?
    ensures Sized(InsertSlots(v, uid, key))
    ensures Some(NodeOf(InsertSlots(v, uid, key))) == InsertPair(NodeOf(v), uid, key)
  {
    var n := v.noKeys;
    var k := FirstAtLeast(v.slots[..n], key);
    if v.leaf {
      TakeInserted(v.slots, n, k, [Pair(uid, key)], k);
    } else {
      TakeInserted(v.slots, n, k, [Pair(v.slots[k].son, key), Pair(uid, v.slots[k].key)], k + 1);
    }
  }

  lemma TakeInserted(slots: seq<Pair>, n: nat, k: nat, mid: seq<Pair>, rest: nat)
    requires |slots| == SLOTS && n < SLOTS && k <= rest <= n && k + |mid| == rest + 1
    ensures (slots[..k] + mid + slots[rest..SLOTS - 1])[..n + 1] == slots[..n][..k] + mid + slots[..n][rest..]
  {
    assert slots[..n][..k] == slots[..k];
    assert slots[..n][rest..] == slots[rest..n];
    assert slots[rest..SLOTS - 1][..n - rest] == slots[rest..n];
  }

  /** Splitting on slots: the upper half moves to the front of an empty buffer. */
  function SplitSlots(v: View): (View, int)
    requires Sized(v)
  {
    (View(v.leaf, BALANCE_NUMBER, v.sibling,
          v.slots[BALANCE_NUMBER..] + seq(BALANCE_NUMBER, _ => Pair(0, 0))),
     v.slots[BALANCE_NUMBER].key)
  }

  lemma SplitSlotsSplits(v: View, newUid: int)
    requires Sized(v) && NeedSplit(NodeOf(v))
    ensures var (right, newKey) := SplitSlots(v);
            var s := SplitNode(NodeOf(v), newUid);
            && Sized(right) && NodeOf(right) == s.right && newKey == s.newKey
            && NodeOf(v.(noKeys := BALANCE_NUMBER, sibling := newUid)) == s.left
  {
    var (right, newKey) := SplitSlots(v);
    assert right.slots[..BALANCE_NUMBER] == v.slots[..v.noKeys][BALANCE_NUMBER..];
  }

  // ---------------------------------------------------------- bytes under writes

  lemma LongAfterPut(b: Buffer, off: nat, data: seq<byte>, at: nat)
    requires off + |data| <= NODE_SIZE && at + 8 <= NODE_SIZE
    requires at + 8 <= off || off + |data| <= at
    ensures LongAt(Put(b, off, data), at) == LongAt(b, at)
  {
    PutReads(b, off, data, at, at + 8);
  }

  lemma OtherLongs(b: Buffer, off: nat, data: seq<byte>, at: nat)
    requires |data| == 8 && off + 8 <= NODE_SIZE && at + 8 <= NODE_SIZE && (at + 8 <= off || off + 8 <= at)
    ensures LongAt(Put(b, off, data), at) == LongAt(b, at)
  {
    LongAfterPut(b, off, data, at);
  }

  lemma SlotChanged(b: Buffer, after: Buffer, k: nat, p: Pair)
    requires k < SLOTS && ViewOf(after).(slots := []) == ViewOf(b).(slots := [])
    requires forall i | 0 <= i < SLOTS :: SlotAt(after, i) == if i == k then p else SlotAt(b, i)
    ensures ViewOf(b).slots[k] == SlotAt(b, k) && ViewOf(after) == ViewOf(b).(slots := ViewOf(b).slots[k := p])
  {
    hide SlotAt;
    assert ViewOf(after).slots == ViewOf(b).slots[k := p];
  }

  lemma WrittenLong(b: Buffer, off: nat, v: int)
    requires off + 8 <= NODE_SIZE && Fits(v, 8)
    ensures LongAt(Put(b, off, Encode(v, 8)), off) == v
  {
    hide Encode, Decode, Fits, Half;
    PutReads(b, off, Encode(v, 8), off, off + 8);
    EncodeDecode(v, 8);
  }

  lemma PutKey(b: Buffer, k: nat, key: int)
    requires k < SLOTS && Fits(key, 8)
    ensures ViewOf(Put(b, KeyOffset(k), Encode(key, 8))) ==
            ViewOf(b).(slots := ViewOf(b).slots[k := ViewOf(b).slots[k].(key := key)])
  {
    hide Encode, Decode, Put, Fits, Half, ViewOf, LongAt;
    var b' := Put(b, KeyOffset(k), Encode(key, 8));
    WrittenLong(b, KeyOffset(k), key);
    HeaderAfterPut(b, KeyOffset(k), Encode(key, 8));
    forall i | 0 <= i < SLOTS ensures SlotAt(b', i) == if i == k then SlotAt(b, k).(key := key) else SlotAt(b, i) {
      OtherLongs(b, KeyOffset(k), Encode(key, 8), SonOffset(i));
      if i != k {
        OtherLongs(b, KeyOffset(k), Encode(key, 8), KeyOffset(i));
      }
    }
    SlotChanged(b, b', k, SlotAt(b, k).(key := key));
  }

  lemma PutSon(b: Buffer, k: nat, son: int)
    requires k < SLOTS && Fits(son, 8)
    ensures ViewOf(Put(b, SonOffset(k), Encode(son, 8))) ==
            ViewOf(b).(slots := ViewOf(b).slots[k := ViewOf(b).slots[k].(son := son)])
  {
    hide Encode, Decode, Put, Fits, Half, ViewOf, LongAt;
    var b' := Put(b, SonOffset(k), Encode(son, 8));
    WrittenLong(b, SonOffset(k), son);
    HeaderAfterPut(b, SonOffset(k), Encode(son, 8));
    forall i | 0 <= i < SLOTS ensures SlotAt(b', i) == if i == k then SlotAt(b, k).(son := son) else SlotAt(b, i) {
      OtherLongs(b, SonOffset(k), Encode(son, 8), KeyOffset(i));
      if i != k {
        OtherLongs(b, SonOffset(k), Encode(son, 8), SonOffset(i));
      }
    }
    SlotChanged(b, b', k, SlotAt(b, k).(son := son));
  }

  lemma HeaderAfterPut(b: Buffer, off: nat, data: seq<byte>)
    requires NODE_HEADER_SIZE <= off && off + |data| <= NODE_SIZE
    ensures ViewOf(Put(b, off, data)).(slots := []) == ViewOf(b).(slots := [])
  {
    PutReads(b, off, data, NO_KEYS_OFFSET, NO_KEYS_OFFSET + 2);
    LongAfterPut(b, off, data, SIBLING_OFFSET);
  }

  lemma SlotsAfterHeader(b: Buffer, off: nat, data: seq<byte>)
    requires off + |data| <= NODE_HEADER_SIZE
    ensures ViewOf(Put(b, off, data)).slots == ViewOf(b).slots
  {
    var b' := Put(b, off, data);
    forall i | 0 <= i < SLOTS ensures SlotAt(b', i) == SlotAt(b, i) {
      LongAfterPut(b, off, data, SonOffset(i));
      LongAfterPut(b, off, data, KeyOffset(i));
    }
  }

  lemma PutNoKeys(b: Buffer, n: int)
    requires Fits(n, 2)
    ensures ViewOf(Put(b, NO_KEYS_OFFSET, Encode(n, 2))) == ViewOf(b).(noKeys := n)
  {
    SlotsAfterHeader(b, NO_KEYS_OFFSET, Encode(n, 2));
    PutReads(b, NO_KEYS_OFFSET, Encode(n, 2), NO_KEYS_OFFSET, NO_KEYS_OFFSET + 2);
    EncodeDecode(n, 2);
    LongAfterPut(b, NO_KEYS_OFFSET, Encode(n, 2), SIBLING_OFFSET);
  }

  lemma PutSibling(b: Buffer, uid: int)
    requires Fits(uid, 8)
    ensures ViewOf(Put(b, SIBLING_OFFSET, Encode(uid, 8))) == ViewOf(b).(sibling := uid)
  {
    SlotsAfterHeader(b, SIBLING_OFFSET, Encode(uid, 8));
    PutReads(b, SIBLING_OFFSET, Encode(uid, 8), SIBLING_OFFSET, SIBLING_OFFSET + 8);
    PutReads(b, SIBLING_OFFSET, Encode(uid, 8), NO_KEYS_OFFSET, NO_KEYS_OFFSET + 2);
    EncodeDecode(uid, 8);
  }

  lemma PutLeaf(b: Buffer, leaf: bool)
    ensures ViewOf(Put(b, IS_LEAF_OFFSET, [if leaf then 1 else 0])) == ViewOf(b).(leaf := leaf)
  {
    var data: seq<byte> := [if leaf then 1 else 0];
    SlotsAfterHeader(b, IS_LEAF_OFFSET, data);
    PutReads(b, IS_LEAF_OFFSET, data, NO_KEYS_OFFSET, NO_KEYS_OFFSET + 2);
    LongAfterPut(b, IS_LEAF_OFFSET, data, SIBLING_OFFSET);
  }

  /** shiftRawKth on bytes: everything from slot `kth` on moves one slot up. */
  function Shifted(b: Buffer, kth: nat): Buffer
    requires kth < SLOTS
  {
    b[..SonOffset(kth + 1)] + b[SonOffset(kth)..NODE_SIZE - 16]
  }

  lemma ShiftReads(b: Buffer, kth: nat, i: nat, j: nat)
    requires kth < SLOTS && i <= j <= NODE_SIZE
    ensures j <= SonOffset(kth + 1) ==> Shifted(b, kth)[i..j] == b[i..j]
    ensures SonOffset(kth + 1) <= i ==> Shifted(b, kth)[i..j] == b[i - 16..j - 16]
  {
    var b' := Shifted(b, kth);
    assert forall x | 0 <= x < SonOffset(kth + 1) :: b'[x] == b[x];
    assert forall x | SonOffset(kth + 1) <= x < NODE_SIZE :: b'[x] == b[x - 16];
  }

  lemma ShiftSlots(b: Buffer, kth: nat)
    requires kth < SLOTS
    ensures var v := ViewOf(b);
            ViewOf(Shifted(b, kth)) == v.(slots := v.slots[..kth + 1] + v.slots[kth..SLOTS - 1])
  {
    var b' := Shifted(b, kth);
    ShiftReads(b, kth, NO_KEYS_OFFSET, NO_KEYS_OFFSET + 2);
    ShiftReads(b, kth, SIBLING_OFFSET, SIBLING_OFFSET + 8);
    ShiftReads(b, kth, IS_LEAF_OFFSET, IS_LEAF_OFFSET + 1);
    assert b'[IS_LEAF_OFFSET..IS_LEAF_OFFSET + 1][0] == b[IS_LEAF_OFFSET..IS_LEAF_OFFSET + 1][0];
    hide Decode, Shifted;
    forall i | 0 <= i < SLOTS ensures SlotAt(b', i) == SlotAt(b, if i <= kth then i else i - 1) {
      ShiftReads(b, kth, SonOffset(i), SonOffset(i) + 8);
      ShiftReads(b, kth, KeyOffset(i), KeyOffset(i) + 8);
    }
    var slots := ViewOf(b).slots;
    assert ViewOf(b').slots == slots[..kth + 1] + slots[kth..SLOTS - 1];
  }

  // ------------------------------------------------------------------ in place

  /** A node inside the bytes of its page. */
  class RawNode {
    const raw: array<byte>
    const start: nat

    constructor (raw: array<byte>, start: nat)
      requires start + NODE_SIZE <= raw.Length
      ensures this.raw == raw && this.start == start && Valid()
    {
      this.raw := raw;
      this.start := start;
    }

    predicate Valid() {
      start + NODE_SIZE <= raw.Length
    }

    function Buf(): Buffer
      requires Valid()
      reads raw
    {
      raw[start..start + NODE_SIZE]
    }

    /** Nothing outside the node has changed. */
    twostate predicate OnlyNode()
      requires Valid()
      reads raw
    {
      raw[..start] == old(raw[..start]) && raw[start + NODE_SIZE..] == old(raw[start + NODE_SIZE..])
    }

    method Write(off: nat, data: seq<byte>)
      requires Valid() && off + |data| <= NODE_SIZE
      modifies raw
      ensures Buf() == Put(old(Buf()), off, data) && OnlyNode()
    {
      forall i | 0 <= i < |data| {
        raw[start + off + i] := data[i];
      }
      assert forall i | 0 <= i < NODE_SIZE :: Buf()[i] == if off <= i < off + |data| then data[i - off] else old(Buf())[i];
    }

    method SetRawNoKeys(noKeys: int)
      requires Valid() && Fits(noKeys, 2)
      modifies raw
      ensures ViewOf(Buf()) == ViewOf(old(Buf())).(noKeys := noKeys) && OnlyNode()
    {
      PutNoKeys(Buf(), noKeys);
      Write(NO_KEYS_OFFSET, Encode(noKeys, 2));
    }

    method SetRawSibling(sibling: int)
      requires Valid() && Fits(sibling, 8)
      modifies raw
      ensures ViewOf(Buf()) == ViewOf(old(Buf())).(sibling := sibling) && OnlyNode()
    {
      PutSibling(Buf(), sibling);
      Write(SIBLING_OFFSET, Encode(sibling, 8));
    }

    method SetRawIsLeaf(leaf: bool)
      requires Valid()
      modifies raw
      ensures ViewOf(Buf()) == ViewOf(old(Buf())).(leaf := leaf) && OnlyNode()
    {
      PutLeaf(Buf(), leaf);
      Write(IS_LEAF_OFFSET, [if leaf then 1 else 0]);
    }

    method SetRawKthKey(key: int, kth: nat)
      requires Valid() && kth < SLOTS && Fits(key, 8)
      modifies raw
      ensures var v := ViewOf(old(Buf()));
              ViewOf(Buf()) == v.(slots := v.slots[kth := v.slots[kth].(key := key)]) && OnlyNode()
    {
      PutKey(Buf(), kth, key);
      Write(KeyOffset(kth), Encode(key, 8));
    }

    method SetRawKthSon(son: int, kth: nat)
      requires Valid() && kth < SLOTS && Fits(son, 8)
      modifies raw
      ensures var v := ViewOf(old(Buf()));
              ViewOf(Buf()) == v.(slots := v.slots[kth := v.slots[kth].(son := son)]) && OnlyNode()
    {
      PutSon(Buf(), kth, son);
      Write(SonOffset(kth), Encode(son, 8));
    }

    /** The byte loop that opens a gap: from the end down, each byte is taken from
        one slot below. */
    method ShiftRawKth(kth: nat)
      requires Valid() && kth < SLOTS
      modifies raw
      ensures var v := ViewOf(old(Buf()));
              ViewOf(Buf()) == v.(slots := v.slots[..kth + 1] + v.slots[kth..SLOTS - 1]) && OnlyNode()
    {
      ghost var b, all := Buf(), raw[..];
      var begin := start + SonOffset(kth + 1);
      var i := start + NODE_SIZE;
      while i > begin
        invariant begin <= i <= start + NODE_SIZE
        invariant forall j | 0 <= j < raw.Length && !(i <= j < start + NODE_SIZE) :: raw[j] == all[j]
        invariant forall j | i <= j < start + NODE_SIZE :: raw[j] == all[j - 16]
      {
        i := i - 1;
        raw[i] := raw[i - 16];
      }
      forall j | 0 <= j < NODE_SIZE ensures Buf()[j] == Shifted(b, kth)[j] {
        if j < SonOffset(kth + 1) {
          assert raw[start + j] == all[start + j] == b[j];
        } else {
          assert raw[start + j] == all[start + j - 16] == b[j - 16];
        }
      }
      assert Buf() == Shifted(b, kth);
      ShiftSlots(b, kth);
    }

    /** The slot loop of insert: the first key not below the new one. */
    method FindSlot(key: int) returns (kth: nat)
      requires Valid() && Sized(ViewOf(Buf()))
      ensures kth == FirstAtLeast(NodeOf(ViewOf(Buf())).pairs, key)
    {
      ghost var ps := NodeOf(ViewOf(Buf())).pairs;
      var noKeys := ViewOf(Buf()).noKeys;
      kth := 0;
      while kth < noKeys
        invariant kth <= noKeys && FirstAtLeast(ps, key) == FirstAtLeast(ps, key, kth)
      {
        var ik := LongAt(Buf(), KeyOffset(kth));
        assert ps[kth].key == ik;
        if ik < key {
          kth := kth + 1;
        } else {
          break;
        }
      }
    }

    /** Insertion into the bytes is insertion into the slots. */
    method Insert(uid: int, key: int) returns (ok: bool)
      requires Valid() && Sized(ViewOf(Buf())) && ViewOf(Buf()).noKeys <= 2 * BALANCE_NUMBER
      requires Fits(uid, 8) && Fits(key, 8)
      modifies raw
      ensures var v := ViewOf(old(Buf()));
              && ok == !(FirstAtLeast(NodeOf(v).pairs, key) == v.noKeys && v.sibling != NO_UID)
              && ViewOf(Buf()) == (if ok then InsertSlots(v, uid, key) else v)
      ensures OnlyNode()
    {
      ghost var v := ViewOf(Buf());
      var noKeys := ViewOf(Buf()).noKeys;
      var kth := FindSlot(key);
      if kth == noKeys && LongAt(Buf(), SIBLING_OFFSET) != NO_UID {
        return false;
      }
      if Buf()[IS_LEAF_OFFSET] == 1 {
        InsertIntoLeaf(uid, key, kth, noKeys);
      } else {
        InsertIntoInner(uid, key, kth, noKeys);
      }
      ok := true;
    }

    method InsertIntoLeaf(uid: int, key: int, kth: nat, noKeys: nat)
      requires Valid() && kth <= noKeys <= 2 * BALANCE_NUMBER && Fits(uid, 8) && Fits(key, 8)
      modifies raw
      ensures var v := ViewOf(old(Buf()));
              && |v.slots| == SLOTS
              && ViewOf(Buf()) == v.(slots := v.slots[..kth] + [Pair(uid, key)] + v.slots[kth..SLOTS - 1], noKeys := noKeys + 1)
      ensures OnlyNode()
    {
      ghost var v := ViewOf(Buf());
      hide ViewOf;
      ShiftRawKth(kth);
      SetRawKthKey(key, kth);
      SetRawKthSon(uid, kth);
      SetRawNoKeys(noKeys + 1);
      LeafSlots(v.slots, kth, uid, key);
    }

    method InsertIntoInner(uid: int, key: int, kth: nat, noKeys: nat)
      requires Valid() && kth <= noKeys <= 2 * BALANCE_NUMBER && Fits(uid, 8) && Fits(key, 8)
      modifies raw
      ensures var v := ViewOf(old(Buf()));
              && |v.slots| == SLOTS
              && ViewOf(Buf()) == v.(slots := v.slots[..kth] + [Pair(v.slots[kth].son, key), Pair(uid, v.slots[kth].key)]
                                              + v.slots[kth + 1..SLOTS - 1],
                                     noKeys := noKeys + 1)
      ensures OnlyNode()
    {
      ghost var v := ViewOf(Buf());
      var kk := LongAt(Buf(), KeyOffset(kth));
      assert kk == v.slots[kth].key;
      DecodeFits(Buf()[KeyOffset(kth)..KeyOffset(kth) + 8]);
      hide ViewOf;
      SetRawKthKey(key, kth);
      ShiftRawKth(kth + 1);
      SetRawKthKey(kk, kth + 1);
      SetRawKthSon(uid, kth + 1);
      SetRawNoKeys(noKeys + 1);
      InnerSlots(v.slots, kth, uid, key);
    }

    /** searchNext's loop over the bytes. */
    method SearchNextUid(key: int) returns (res: SearchNextRes)
      requires Valid() && Sized(ViewOf(Buf()))
      ensures res == SearchNext(NodeOf(ViewOf(Buf())), key)
    {
      ghost var ps := NodeOf(ViewOf(Buf())).pairs;
      var noKeys := ViewOf(Buf()).noKeys;
      var i := 0;
      while i < noKeys
        invariant i <= noKeys && FirstAbove(ps, key) == FirstAbove(ps, key, i)
      {
        var ik := LongAt(Buf(), KeyOffset(i));
        assert ps[i].key == ik;
        if key < ik {
          return SearchNextRes(LongAt(Buf(), SonOffset(i)), NO_UID);
        }
        i := i + 1;
      }
      res := SearchNextRes(NO_UID, LongAt(Buf(), SIBLING_OFFSET));
    }

    /** leafSearchRange's second loop: the pairs up to the right bound. */
    method TakeUpTo(right: int, from: nat) returns (kth: nat, found: seq<Pair>)
      requires Valid() && Sized(ViewOf(Buf())) && from <= ViewOf(Buf()).noKeys
      ensures var ps := NodeOf(ViewOf(Buf())).pairs;
              kth == FirstAbove(ps, right, from) && found == ps[from..kth]
    {
      var b := Buf();
      var noKeys := ViewOf(b).noKeys;
      ghost var ps := NodeOf(ViewOf(b)).pairs;
      assert |ps| == noKeys && forall i | 0 <= i < noKeys :: ps[i] == SlotAt(b, i);
      hide ViewOf, NodeOf, SlotAt, Sized;
      kth, found := from, [];
      while kth < noKeys
        invariant from <= kth <= noKeys && FirstAbove(ps, right, from) == FirstAbove(ps, right, kth)
        invariant found == ps[from..kth]
      {
        var pair := SlotAt(b, kth);
        if pair.key <= right {
          OneLonger(ps, from, kth);
          found := found + [pair];
          kth := kth + 1;
        } else {
          break;
        }
      }
    }

    /** leafSearchRange over the bytes. */
    method LeafSearch(left: int, right: int) returns (res: RangeRes)
      requires Valid() && Sized(ViewOf(Buf()))
      ensures res == LeafSearchRange(NodeOf(ViewOf(Buf())), left, right)
    {
      var first := FindSlot(left);
      var kth, found := TakeUpTo(right, first);
      res := RangeRes(found, if kth == ViewOf(Buf()).noKeys then LongAt(Buf(), SIBLING_OFFSET) else NO_UID);
    }

    /** copyRawFromKth: the rest of another node's slots, from `kth` on. */
    method CopyRawFromKth(from: RawNode, kth: nat)
      requires Valid() && from.Valid() && raw != from.raw && kth <= SLOTS
      modifies raw
      ensures var v, w := ViewOf(old(Buf())), ViewOf(from.Buf());
              ViewOf(Buf()) == v.(slots := w.slots[kth..] + v.slots[SLOTS - kth..])
      ensures OnlyNode()
    {
      var data := from.raw[from.start + SonOffset(kth)..from.start + NODE_SIZE];
      assert data == from.Buf()[SonOffset(kth)..];
      CopySlots(Buf(), from.Buf(), kth);
      Write(NODE_HEADER_SIZE, data);
    }

    /** A new buffer with the upper half of the slots in front. */
    method UpperHalf() returns (nodeRaw: array<byte>, newKey: int)
      requires Valid() && Sized(ViewOf(Buf()))
      ensures fresh(nodeRaw) && nodeRaw.Length == NODE_SIZE
      ensures (ViewOf(nodeRaw[..]), newKey) == SplitSlots(ViewOf(Buf()))
    {
      ghost var v := ViewOf(Buf());
      var leaf := Buf()[IS_LEAF_OFFSET] == 1;
      var sibling := LongAt(Buf(), SIBLING_OFFSET);
      assert leaf == v.leaf && sibling == v.sibling;
      DecodeFits(Buf()[SIBLING_OFFSET..SIBLING_OFFSET + 8]);
      nodeRaw := NewNode(leaf, sibling);
      var node := new RawNode(nodeRaw, 0);
      assert nodeRaw[..] == node.Buf();
      hide ViewOf;
      node.CopyRawFromKth(this, BALANCE_NUMBER);
      newKey := node.FirstKey();
      assert nodeRaw[..] == node.Buf();
      assert v.slots[BALANCE_NUMBER..] + seq(SLOTS, _ => Pair(0, 0))[SLOTS - BALANCE_NUMBER..] ==
             SplitSlots(v).0.slots;
    }

    /** split: the new node's bytes, and this node cut to its lower half. */
    method Split(son: int) returns (nodeRaw: array<byte>, newKey: int)
      requires Valid() && Sized(ViewOf(Buf())) && Fits(son, 8)
      modifies raw
      ensures fresh(nodeRaw) && nodeRaw.Length == NODE_SIZE
      ensures var v := ViewOf(old(Buf()));
              && (ViewOf(nodeRaw[..]), newKey) == SplitSlots(v)
              && ViewOf(Buf()) == v.(noKeys := BALANCE_NUMBER, sibling := son)
      ensures OnlyNode()
    {
      hide ViewOf, SplitSlots;
      nodeRaw, newKey := UpperHalf();
      ghost var copied := nodeRaw[..];
      SetRawNoKeys(BALANCE_NUMBER);
      SetRawSibling(son);
      assert nodeRaw[..] == copied;
    }

    method FirstKey() returns (key: int)
      requires Valid()
      ensures |ViewOf(Buf()).slots| == SLOTS && key == ViewOf(Buf()).slots[0].key
    {
      key := LongAt(Buf(), KeyOffset(0));
    }
  }

  /** A blank buffer with the header of a split-off node. */
  method NewNode(leaf: bool, sibling: int) returns (nodeRaw: array<byte>)
    requires Fits(sibling, 8)
    ensures fresh(nodeRaw) && nodeRaw.Length == NODE_SIZE
    ensures ViewOf(nodeRaw[..]) == View(leaf, BALANCE_NUMBER, sibling, seq(SLOTS, _ => Pair(0, 0)))
  {
    nodeRaw := new byte[NODE_SIZE](_ => 0);
    var node := new RawNode(nodeRaw, 0);
    BlankSlots(node.Buf());
    hide ViewOf;
    node.SetRawIsLeaf(leaf);
    node.SetRawNoKeys(BALANCE_NUMBER);
    node.SetRawSibling(sibling);
    assert nodeRaw[..] == node.Buf();
  }

  lemma OneLonger(ps: seq<Pair>, i: nat, j: nat)
    requires i <= j < |ps|
    ensures ps[i..j] + [ps[j]] == ps[i..j + 1]
  {
  }

  lemma CopySlots(b: Buffer, from: Buffer, kth: nat)
    requires kth <= SLOTS
    ensures var v, w := ViewOf(b), ViewOf(from);
            ViewOf(Put(b, NODE_HEADER_SIZE, from[SonOffset(kth)..])) ==
            v.(slots := w.slots[kth..] + v.slots[SLOTS - kth..])
  {
    hide Decode, Put, ViewOf;
    var data := from[SonOffset(kth)..];
    var b' := Put(b, NODE_HEADER_SIZE, data);
    HeaderAfterPut(b, NODE_HEADER_SIZE, data);
    forall i | 0 <= i < SLOTS ensures SlotAt(b', i) == if i < SLOTS - kth then SlotAt(from, kth + i) else SlotAt(b, i) {
      if i < SLOTS - kth {
        PutCopies(b, from, kth, SonOffset(i), SonOffset(i) + 8);
        PutCopies(b, from, kth, KeyOffset(i), KeyOffset(i) + 8);
      } else {
        LongAfterPut(b, NODE_HEADER_SIZE, data, SonOffset(i));
        LongAfterPut(b, NODE_HEADER_SIZE, data, KeyOffset(i));
      }
    }
    SlotsReplaced(b, from, b', kth);
  }

  lemma SlotsReplaced(b: Buffer, from: Buffer, after: Buffer, kth: nat)
    requires kth <= SLOTS && ViewOf(after).(slots := []) == ViewOf(b).(slots := [])
    requires forall i | 0 <= i < SLOTS :: SlotAt(after, i) == if i < SLOTS - kth then SlotAt(from, kth + i) else SlotAt(b, i)
    ensures ViewOf(after) == ViewOf(b).(slots := ViewOf(from).slots[kth..] + ViewOf(b).slots[SLOTS - kth..])
  {
    hide SlotAt;
    assert ViewOf(after).slots == ViewOf(from).slots[kth..] + ViewOf(b).slots[SLOTS - kth..];
  }

  lemma PutCopies(b: Buffer, from: Buffer, kth: nat, i: nat, j: nat)
    requires kth <= SLOTS && NODE_HEADER_SIZE <= i <= j <= NODE_SIZE - 16 * kth
    ensures Put(b, NODE_HEADER_SIZE, from[SonOffset(kth)..])[i..j] == from[i + 16 * kth..j + 16 * kth]
  {
  }

  lemma {:induction false} ZeroBytes(bytes: seq<byte>)
    requires forall i | 0 <= i < |bytes| :: bytes[i] == 0
    ensures Unsigned(bytes) == 0 && Decode(bytes) == 0
  {
    if bytes != [] {
      ZeroBytes(bytes[..|bytes| - 1]);
    }
  }

  lemma BlankSlots(b: Buffer)
    requires forall i | 0 <= i < NODE_SIZE :: b[i] == 0
    ensures ViewOf(b) == View(false, 0, 0, seq(SLOTS, _ => Pair(0, 0)))
  {
    ZeroBytes(b[NO_KEYS_OFFSET..NO_KEYS_OFFSET + 2]);
    ZeroBytes(b[SIBLING_OFFSET..SIBLING_OFFSET + 8]);
    forall k | 0 <= k < SLOTS ensures SlotAt(b, k) == Pair(0, 0) {
      ZeroBytes(b[SonOffset(k)..SonOffset(k) + 8]);
      ZeroBytes(b[KeyOffset(k)..KeyOffset(k) + 8]);
    }
  }

  lemma LeafSlots(slots: seq<Pair>, k: nat, uid: int, key: int)
    requires |slots| == SLOTS && k < SLOTS
    ensures var shifted := slots[..k + 1] + slots[k..SLOTS - 1];
            var keyed := shifted[k := shifted[k].(key := key)];
            keyed[k := keyed[k].(son := uid)] == slots[..k] + [Pair(uid, key)] + slots[k..SLOTS - 1]
  {
  }

  lemma InnerSlots(slots: seq<Pair>, k: nat, uid: int, key: int)
    requires |slots| == SLOTS && k + 1 < SLOTS
    ensures var first := slots[k := slots[k].(key := key)];
            var shifted := first[..k + 2] + first[k + 1..SLOTS - 1];
            var keyed := shifted[k + 1 := shifted[k + 1].(key := slots[k].key)];
            keyed[k + 1 := keyed[k + 1].(son := uid)] ==
            slots[..k] + [Pair(slots[k].son, key), Pair(uid, slots[k].key)] + slots[k + 1..SLOTS - 1]
  {
  }
}
