/** Rows as bytes: the columns one after the other, numbers big-endian and strings
    behind their length. */
module RowCodec {
  import opened Bytes

  datatype FieldType = INT | LONG | VARCHAR | STRING
  datatype Field = Field(name: string, fieldType: FieldType)
  datatype Value = IntValue(i: int) | LongValue(l: int) | StringValue(s: string)
  datatype Parsed = Value(v: Value, shift: nat) | Thrown
  datatype ParsedEntry = Entry(entry: map<string, Value>) | Broken

  /** The value is of the column's type; strings are ASCII, one byte a character. */
  predicate HasType(v: Value, t: FieldType) {
    match t
    case INT => v.IntValue? && Fits(v.i, 4)
    case LONG => v.LongValue? && Fits(v.l, 8)
    case VARCHAR => v.StringValue? && Ascii(v.s) && Fits(|v.s|, 4)
    case STRING => v.StringValue? && Ascii(v.s) && Fits(|v.s|, 4)
  }

  predicate Ascii(s: string) {
    forall i | 0 <= i < |s| :: s[i] as int < 128
  }

  function GetBytes(s: string): (bytes: seq<byte>)
    requires Ascii(s)
    ensures |bytes| == |s|
  {
    seq(|s|, i requires 0 <= i < |s| => s[i] as int)
  }

  /** A string from bytes; bytes above 127 do not occur in ASCII and read as the
      replacement character. */
  function NewString(bytes: seq<byte>): (s: string)
    ensures |s| == |bytes|
  {
    seq(|bytes|, i requires 0 <= i < |bytes| => if bytes[i] < 128 then bytes[i] as char else '?')
  }

  lemma StringRoundTrip(s: string)
    requires Ascii(s)
    ensures NewString(GetBytes(s)) == s
  {
  }

  /** Arrays.copyOfRange(raw, from, from + n): past the end it reads zeros. */
  function CopyOfRange(raw: seq<byte>, from: nat, n: nat): (r: seq<byte>)
    ensures |r| == n
  {
    seq(n, i requires 0 <= i < n => if from + i < |raw| then raw[from + i] else 0)
  }

  /** value2Raw */
  function ValueRaw(v: Value, t: FieldType): seq<byte>
    requires HasType(v, t)
  {
    match v
    case IntValue(i) => Encode(i, 4)
    case LongValue(l) => Encode(l, 8)
    case StringValue(s) => Encode(|s|, 4) + GetBytes(s)
  }

  /** How long a value is, and where a string's characters stand. */
  lemma ValueBytes(v: Value, t: FieldType)
    requires HasType(v, t)
    ensures var raw := ValueRaw(v, t);
            match v
            case IntValue(i) => |raw| == 4 && raw == Encode(i, 4)
            case LongValue(l) => |raw| == 8 && raw == Encode(l, 8)
            case StringValue(s) =>
              |raw| == 4 + |s| && raw[..4] == Encode(|s|, 4) && forall k | 0 <= k < |s| :: raw[4 + k] == s[k] as int
  {
    hide Encode;
  }

  /** parserValue, at a position of the row. */
  function ParseValue(raw: seq<byte>, pos: nat, t: FieldType): Parsed {
    match t
    case INT => Value(IntValue(Decode(CopyOfRange(raw, pos, 4))), 4)
    case LONG => Value(LongValue(Decode(CopyOfRange(raw, pos, 8))), 8)
    case VARCHAR => ParseString(raw, pos)
    case STRING => ParseString(raw, pos)
  }

  function ParseString(raw: seq<byte>, pos: nat): Parsed {
    var length := Decode(CopyOfRange(raw, pos, 4));
    if length < 0 then Thrown
    else Value(StringValue(NewString(CopyOfRange(raw, pos + 4, length))), length + 4)
  }

  /** A value is read back from anywhere in a row, and consumes exactly its bytes. */
  lemma ValueRoundTrip(before: seq<byte>, v: Value, t: FieldType, rest: seq<byte>)
    requires HasType(v, t)
    ensures ParseValue(before + ValueRaw(v, t) + rest, |before|, t) == Value(v, |ValueRaw(v, t)|)
  {
    hide Encode, Decode, Fits, Half;
    var raw, pos := before + ValueRaw(v, t) + rest, |before|;
    match v
    case IntValue(i) =>
      assert CopyOfRange(raw, pos, 4) == Encode(i, 4);
      EncodeDecode(i, 4);
    case LongValue(l) =>
      assert CopyOfRange(raw, pos, 8) == Encode(l, 8);
      EncodeDecode(l, 8);
    case StringValue(s) =>
      assert CopyOfRange(raw, pos, 4) == Encode(|s|, 4);
      EncodeDecode(|s|, 4);
      assert CopyOfRange(raw, pos + 4, |s|) == GetBytes(s);
      StringRoundTrip(s);
  }

  ghost predicate RowOk(fields: seq<Field>, entry: map<string, Value>) {
    forall i | 0 <= i < |fields| :: fields[i].name in entry && HasType(entry[fields[i].name], fields[i].fieldType)
  }

  ghost predicate DistinctNames(fields: seq<Field>) {
    forall i, j | 0 <= i < j < |fields| :: fields[i].name != fields[j].name
  }

  /** The bytes of the first n columns. */
  ghost function RowRaw(fields: seq<Field>, entry: map<string, Value>, n: nat): seq<byte>
    requires RowOk(fields, entry) && n <= |fields|
  {
    if n == 0 then [] else RowRaw(fields, entry, n - 1) + ValueRaw(entry[fields[n - 1].name], fields[n - 1].fieldType)
  }

  lemma {:induction false} RowRawPrefix(fields: seq<Field>, entry: map<string, Value>, m: nat, n: nat) returns (rest: seq<byte>)
    requires RowOk(fields, entry) && m <= n <= |fields|
    ensures RowRaw(fields, entry, n) == RowRaw(fields, entry, m) + rest
  {
    hide ValueRaw, HasType;
    if m == n {
      rest := [];
    } else {
      rest := RowRawPrefix(fields, entry, m, n - 1);
      rest := rest + ValueRaw(entry[fields[n - 1].name], fields[n - 1].fieldType);
    }
  }

  /** entry2Raw */
  method Entry2Raw(fields: seq<Field>, entry: map<string, Value>) returns (raw: seq<byte>)
    requires RowOk(fields, entry)
    ensures raw == RowRaw(fields, entry, |fields|)
  {
    hide ValueRaw, HasType;
    raw := [];
    var i := 0;
    while i < |fields|
      invariant i <= |fields| && raw == RowRaw(fields, entry, i)
    {
      raw := raw + ValueRaw(entry[fields[i].name], fields[i].fieldType);
      i := i + 1;
    }
  }

  /** Parsing gives back every row that was written, whatever its strings and
      numbers: of the bytes of a row of these columns, exactly the row. */
  method ParseEntry(fields: seq<Field>, raw: seq<byte>) returns (r: ParsedEntry)
    requires DistinctNames(fields)
    ensures forall row: map<string, Value> :: Writes(fields, row, raw) ==> r == Entry(row)
  {
    hide ParseValue, RowRaw, HasType, Names;
    var entry: map<string, Value>, pos, i := map[], 0, 0;
    forall row: map<string, Value> | Writes(fields, row, raw) ensures ParsedSoFar(fields, row, 0, 0, entry) {
      NothingParsed(fields, row, raw);
    }
    while i < |fields|
      invariant i <= |fields| && pos >= 0
      invariant forall row: map<string, Value> :: Writes(fields, row, raw) ==> ParsedSoFar(fields, row, i, pos, entry)
    {
      var parsed := ParseValue(raw, pos, fields[i].fieldType);
      forall row: map<string, Value> | Writes(fields, row, raw)
        ensures ParsedSoFar(fields, row, i, pos, entry) && parsed.Value? && parsed.v == row[fields[i].name]
        ensures ParsedSoFar(fields, row, i + 1, pos + parsed.shift, entry[fields[i].name := parsed.v])
      {
        NextField(fields, row, raw, i, pos, entry);
      }
      if parsed.Thrown? {
        return Broken;
      }
      entry := entry[fields[i].name := parsed.v];
      pos := pos + parsed.shift;
      i := i + 1;
    }
    r := Entry(entry);
    forall row: map<string, Value> | Writes(fields, row, raw) ensures entry == row {
      AllParsed(fields, row, raw, pos, entry);
    }
  }

  ghost function Names(fields: seq<Field>): set<string> {
    set i | 0 <= i < |fields| :: fields[i].name
  }

  ghost predicate Writes(fields: seq<Field>, row: map<string, Value>, raw: seq<byte>) {
    RowOk(fields, row) && row.Keys == Names(fields) && raw == RowRaw(fields, row, |fields|)
  }

  /** The first n columns of the row have been read, and no bytes but theirs. */
  ghost predicate ParsedSoFar(fields: seq<Field>, row: map<string, Value>, n: nat, pos: nat, entry: map<string, Value>) {
    && n <= |fields| && RowOk(fields, row)
    && pos == |RowRaw(fields, row, n)|
    && entry.Keys == Names(fields[..n])
    && forall k | 0 <= k < n :: fields[k].name in entry && entry[fields[k].name] == row[fields[k].name]
  }

  lemma NextField(fields: seq<Field>, row: map<string, Value>, raw: seq<byte>, n: nat, pos: nat, entry: map<string, Value>)
    requires Writes(fields, row, raw) && n < |fields| && ParsedSoFar(fields, row, n, pos, entry) && DistinctNames(fields)
    ensures var parsed := ParseValue(raw, pos, fields[n].fieldType);
            && parsed.Value? && parsed.v == row[fields[n].name]
            && ParsedSoFar(fields, row, n + 1, pos + parsed.shift, entry[fields[n].name := parsed.v])
  {
    hide ParseValue, ValueRaw, HasType, Names;
    var f := fields[n];
    var value := ValueRaw(row[f.name], f.fieldType);
    var rest := RowRawPrefix(fields, row, n + 1, |fields|);
    assert RowRaw(fields, row, n + 1) == RowRaw(fields, row, n) + value;
    ValueRoundTrip(RowRaw(fields, row, n), row[f.name], f.fieldType, rest);
    OneMoreName(fields, n);
  }

  lemma OneMoreName(fields: seq<Field>, n: nat)
    requires n < |fields|
    ensures Names(fields[..n + 1]) == Names(fields[..n]) + {fields[n].name}
  {
    assert fields[..n + 1][n] == fields[n];
    assert forall k | 0 <= k < n :: fields[..n + 1][k] == fields[..n][k];
  }

  lemma NothingParsed(fields: seq<Field>, row: map<string, Value>, raw: seq<byte>)
    requires Writes(fields, row, raw)
    ensures ParsedSoFar(fields, row, 0, 0, map[])
  {
    assert Names(fields[..0]) == {};
    var nothing: map<string, Value> := map[];
    assert nothing.Keys == Names(fields[..0]);
  }

  lemma AllParsed(fields: seq<Field>, row: map<string, Value>, raw: seq<byte>, pos: nat, entry: map<string, Value>)
    requires Writes(fields, row, raw) && ParsedSoFar(fields, row, |fields|, pos, entry)
    ensures entry == row && pos == |raw|
  {
    assert fields[..|fields|] == fields;
    forall c | c in row ensures entry[c] == row[c] {
      var k :| 0 <= k < |fields| && fields[k].name == c;
    }
  }
}
