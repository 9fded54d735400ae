/**
 The binary parser (`parser.rs`, `EdtParser`) on what the writer emits.

 `None` stands for a nom error or a panic.  UTF-8 validity of sliced names is not checked here.
 */
module EdtParser {
  import opened Prelude
  import opened EdtBytes
  import opened EdtIr
  import opened EdtTransform
  import opened EdtWriter
  import opened EdtLayout

  datatype EdtHeader = EdtHeader(fileType: Byte, apiVersion: Byte, endian: Byte, offset: seq<Byte>, size: seq<Byte>)
  datatype EdtTableEntry = EdtTableEntry(name: seq<Byte>, kind: Byte, offset: seq<Byte>, size: seq<Byte>, count: seq<Byte>)
  datatype EdtData = EdtData(kind: Byte, length: seq<Byte>, value: seq<Byte>)
  datatype EdtEntry = EdtEntry(key: Str, value: EdtData)

  // ---------- header and table entries ----------

  /** `header_parser`. */
  function HeaderParser(b: seq<Byte>): Option<(EdtHeader, seq<Byte>)> {
    if |b| < 24 || b[..4] != MAGIC || b[4] != 0 || b[5] != 0 || (b[6] != 0 && b[6] != 1) || b[23] != 0 then None
    else Some((EdtHeader(b[4], b[5], b[6], b[7..15], b[15..23]), b[24..]))
  }

  /** `section_entry_parser`. */
  function TableEntryParser(b: seq<Byte>): Option<(EdtTableEntry, seq<Byte>)> {
    if |b| < 38 then None
    else Some((EdtTableEntry(b[..17], b[17], b[18..26], b[26..34], b[34..38]), b[38..]))
  }

  /** The header comes back: 24 is where the table starts, then the byte order and the table size. */
  lemma HeaderRoundTrip(n: nat, big: bool, rest: seq<Byte>)
    requires 1 + 38 * (n + 1) < 0x1_0000_0000_0000_0000
    ensures var r := HeaderParser(HeaderBytes(n, big) + rest);
            && r.Some? && r.value.1 == rest
            && r.value.0.endian == (if big then 1 else 0)
            && FromNum(r.value.0.offset, big) == 24 && FromNum(r.value.0.size, big) == 1 + 38 * (n + 1)
    ensures HeaderBytes(n, big)[..7] == [101, 100, 116, 102, 0, 0, if big then 1 else 0]
  {
    hide Num, FromNum;
    var b := HeaderBytes(n, big) + rest;
    var offset, size := Num(24, 8, big), Num(1 + 38 * (n + 1), 8, big);
    assert b == MAGIC + [0, 0, if big then 1 else 0] + offset + size + [0] + rest;
    assert b[..4] == MAGIC && b[7..15] == offset && b[15..23] == size && b[24..] == rest;
    Widths();
    NumRoundTrip(24, 8, big);
    NumRoundTrip(1 + 38 * (n + 1), 8, big);
  }

  lemma TableEntryRoundTrip(t: TableEntry, big: bool, rest: seq<Byte>)
    requires |t.name| <= NAME_FIELD && t.count < 0x1_0000_0000
    requires t.offset < 0x1_0000_0000_0000_0000 && t.size < 0x1_0000_0000_0000_0000
    ensures var r := TableEntryParser(TableEntryBytes(t, big) + rest);
            && r.Some? && r.value.1 == rest
            && r.value.0.name == Padded(t.name) && r.value.0.kind == t.kind
            && FromNum(r.value.0.offset, big) == t.offset
            && FromNum(r.value.0.size, big) == t.size && FromNum(r.value.0.count, big) == t.count
  {
    hide Num, FromNum, Padded;
    var name := Padded(t.name);
    var offset, size, count := Num(t.offset, 8, big), Num(t.size, 8, big), Num(t.count, 4, big);
    var b := TableEntryBytes(t, big) + rest;
    assert b == name + [t.kind] + offset + size + count + rest;
    assert b[..17] == name && b[18..26] == offset && b[26..34] == size && b[34..38] == count && b[38..] == rest;
    Widths();
    NumRoundTrip(t.offset, 8, big);
    NumRoundTrip(t.size, 8, big);
    NumRoundTrip(t.count, 4, big);
  }

  // ---------- records ----------

  /** The types in a record, at fixed places: 2 for the key and any other string, 0 for an integer and
      1 for a floating number, each of these with its width next. */
  lemma TypesInPlace(r: Record, pre: nat, big: bool)
    ensures var b := RecordBytes(r, pre, big);
            && |b| > 18 && b[0] == 2
            && b[17] == (match r.value case EInt(_, _) => 0 case EFloat(_, _) => 1 case ESeq(_, _) => 2)
            && match r.value case EInt(len, _) => b[18] == len case EFloat(len, _) => b[18] == len case ESeq(_, _) => true
  {
    hide Num;
    var key := [2] + Num(r.key.len, 8, big) + Num(r.key.offset + pre, 8, big);
    var value := ValueBytes(r.value, pre, big);
    assert RecordBytes(r, pre, big) == key + value && |key| == 17 && |value| > 1;
    assert (key + value)[17] == value[0] && (key + value)[18] == value[1];
  }

  /** `data_parser`. */
  function DataParser(b: seq<Byte>): Option<(EdtData, seq<Byte>)> {
    if |b| < 1 then None
    else if b[0] == 0 || b[0] == 1 then
      if |b| < 2 then None
      else
        var len := b[1];
        if !(len == 4 || len == 8 || (b[0] == 0 && (len == 1 || len == 2))) || |b| < 2 + len then None
        else Some((EdtData(b[0], [len], b[2..2 + len]), b[2 + len..]))
    else if b[0] == 2 then
      if |b| < 17 then None else Some((EdtData(2, b[1..9], b[9..17]), b[17..]))
    else None
  }

  /** `section_parser`. */
  function SectionParser(b: seq<Byte>, data: seq<Byte>, big: bool): Option<(EdtEntry, seq<Byte>)> {
    match DataParser(b)
    case None => None
    case Some((key, rest)) =>
      if key.kind != 2 then None
      else
        var begin, length := FromNum(key.value, big), FromNum(key.length, big);
        if begin + length > |data| then None
        else
          match DataParser(rest)
          case None => None
          case Some((value, rest)) => Some((EdtEntry(data[begin..begin + length], value), rest))
  }

  function ParseRecords(count: nat, b: seq<Byte>, data: seq<Byte>, big: bool): Option<(seq<EdtEntry>, seq<Byte>)>
    decreases count
  {
    if count == 0 then Some(([], b))
    else
      match SectionParser(b, data, big)
      case None => None
      case Some((entry, rest)) =>
        match ParseRecords(count - 1, rest, data, big)
        case None => None
        case Some((entries, rest)) => Some(([entry] + entries, rest))
  }

  /** The raw type, length and value the parser should report for a value. */
  function DataOf(v: EdtValue, pre: nat, big: bool): EdtData {
    match v
    case EInt(len, i) => EdtData(0, [len], Num(i.Number(), i.Width(), big))
    case EFloat(len, f) => EdtData(1, [len], Num(f.Bits(), f.Width(), big))
    case ESeq(len, offset) => EdtData(2, Num(len, 8, big), Num(offset + pre, 8, big))
  }

  lemma KeyParses(r: Record, pre: nat, big: bool, rest: seq<Byte>)
    ensures DataParser(RecordBytes(r, pre, big) + rest)
         == Some((EdtData(2, Num(r.key.len, 8, big), Num(r.key.offset + pre, 8, big)), ValueBytes(r.value, pre, big) + rest))
  {
    hide Num, ValueBytes;
    var len, off := Num(r.key.len, 8, big), Num(r.key.offset + pre, 8, big);
    var tail := ValueBytes(r.value, pre, big) + rest;
    var b := RecordBytes(r, pre, big) + rest;
    assert b == [2] + len + off + tail;
    assert b[1..9] == len && b[9..17] == off && b[17..] == tail;
  }

  lemma ValueParses(v: EdtValue, pre: nat, big: bool, rest: seq<Byte>)
    requires WellSized(v) && !IsByte(v)
    ensures DataParser(ValueBytes(v, pre, big) + rest) == Some((DataOf(v, pre, big), rest))
  {
    hide Num;
    var b := ValueBytes(v, pre, big) + rest;
    if v.ESeq? {
      var len, off := Num(v.len, 8, big), Num(v.offset + pre, 8, big);
      assert b == [2] + len + off + rest;
      assert b[1..9] == len && b[9..17] == off && b[17..] == rest;
    } else {
      var d := DataOf(v, pre, big);
      assert b == [d.kind, d.length[0]] + d.value + rest;
      assert b[2..2 + |d.value|] == d.value && b[2 + |d.value|..] == rest;
    }
  }

  /** Only a one-byte integer is written wider than it is read: eight bytes against one. */
  lemma ByteMisparses(v: EdtValue, pre: nat, big: bool, rest: seq<Byte>)
    requires WellSized(v) && IsByte(v)
    ensures DataParser(ValueBytes(v, pre, big) + rest)
         == Some((EdtData(0, [1], [0]), Big(v.i.b, 8)[1..] + rest))
    ensures DataParser(Big(v.i.b, 8)[1..] + rest).None?
  {
    hide Big, Num;
    SmallBig(v.i.b, 8);
    var eight := Big(v.i.b, 8);
    var b := ValueBytes(v, pre, big) + rest;
    assert b == [0, 1] + eight + rest;
    assert b[2..3] == [0] && b[3..] == eight[1..] + rest;
    var more := eight[1..] + rest;
    assert more[0] == 0 && more[1] == 0;
  }

  /** The key of a record names a string of the blob. */
  ghost predicate KeyIn(r: Record, pre: nat, data: seq<Byte>, key: Str) {
    r.key.len == |key| && At(data, r.key.offset + pre, key)
  }

  ghost predicate KeysIn(records: seq<Record>, pre: nat, data: seq<Byte>, keys: seq<Str>) {
    |keys| == |records| && forall i :: 0 <= i < |records| ==> KeyIn(records[i], pre, data, keys[i])
  }

  lemma RecordParses(r: Record, pre: nat, big: bool, rest: seq<Byte>, data: seq<Byte>, key: Str)
    requires KeyIn(r, pre, data, key) && |data| < 0x1_0000_0000_0000_0000
    ensures SectionParser(RecordBytes(r, pre, big) + rest, data, big)
         == match DataParser(ValueBytes(r.value, pre, big) + rest)
            case None => None
            case Some((value, rest)) => Some((EdtEntry(key, value), rest))
  {
    hide DataParser, RecordBytes, ValueBytes, Num, FromNum;
    KeyParses(r, pre, big, rest);
    Widths();
    NumRoundTrip(r.key.len, 8, big);
    NumRoundTrip(r.key.offset + pre, 8, big);
  }

  lemma StreamFront(records: seq<Record>, pre: nat, big: bool)
    requires records != []
    ensures Stream(records, pre, big) == RecordBytes(records[0], pre, big) + Stream(records[1..], pre, big)
  {
    hide RecordBytes, Stream;
    OneRecord(records[0], pre, big);
    StreamConcat([records[0]], records[1..], pre, big);
    assert [records[0]] + records[1..] == records;
  }

  lemma OneRecord(r: Record, pre: nat, big: bool)
    ensures Stream([r], pre, big) == RecordBytes(r, pre, big)
  {
    hide RecordBytes;
    assert [r][..0] == [];
    EmptyStream(pre, big);
  }

  function Parsed(records: seq<Record>, pre: nat, big: bool, keys: seq<Str>): seq<EdtEntry>
    requires |keys| == |records|
  {
    if records == [] then []
    else [EdtEntry(keys[0], DataOf(records[0].value, pre, big))] + Parsed(records[1..], pre, big, keys[1..])
  }

  /** The emitted records parse back: exactly their bytes are consumed, and the keys, types,
      lengths and raw values come out in order. */
  ghost predicate StreamParsesBack(records: seq<Record>, pre: nat, big: bool, data: seq<Byte>, keys: seq<Str>, rest: seq<Byte>)
    requires |keys| == |records|
  {
    ParseRecords(|records|, Stream(records, pre, big) + rest, data, big) == Some((Parsed(records, pre, big, keys), rest))
  }

  lemma {:induction false} RecordStream(
    records: seq<Record>, pre: nat, big: bool, data: seq<Byte>, keys: seq<Str>, rest: seq<Byte>)
    requires AllSized(records) && KeysIn(records, pre, data, keys) && |data| < 0x1_0000_0000_0000_0000
    requires forall i :: 0 <= i < |records| ==> !IsByte(records[i].value)
    ensures StreamParsesBack(records, pre, big, data, keys, rest)
  {
    hide Stream, RecordBytes, ValueBytes, SectionParser, DataParser, DataOf;
    if records == [] {
      assert Stream(records, pre, big) == [] by { EmptyStream(pre, big); }
      assert [] + rest == rest;
    } else {
      var r := records[0];
      var more := Stream(records[1..], pre, big) + rest;
      StreamFront(records, pre, big);
      Assoc(RecordBytes(r, pre, big), Stream(records[1..], pre, big), rest);
      RecordParses(r, pre, big, more, data, keys[0]);
      ValueParses(r.value, pre, big, more);
      RecordStream(records[1..], pre, big, data, keys[1..], rest);
    }
  }

  lemma EmptyStream(pre: nat, big: bool)
    ensures Stream([], pre, big) == []
  {
  }

  /** A one-byte integer among the records stops the parser or leaves seven bytes behind. */
  lemma {:induction false} ByteBreaksStream(
    records: seq<Record>, pre: nat, big: bool, data: seq<Byte>, keys: seq<Str>, i: nat)
    requires AllSized(records) && KeysIn(records, pre, data, keys) && |data| < 0x1_0000_0000_0000_0000
    requires i < |records| && IsByte(records[i].value)
    ensures var r := ParseRecords(|records|, Stream(records, pre, big) + [], data, big); r.Some? ==> r.value.1 != []
  {
    hide Stream, RecordBytes, ValueBytes, DataParser, DataOf, KeyIn;
    var r := records[0];
    var more := Stream(records[1..], pre, big) + [];
    StreamFront(records, pre, big);
    Assoc(RecordBytes(r, pre, big), Stream(records[1..], pre, big), []);
    RecordParses(r, pre, big, more, data, keys[0]);
    if IsByte(r.value) {
      ByteMisparses(r.value, pre, big, more);
      if |records| == 1 {
        assert |Big(r.value.i.b, 8)[1..] + more| >= 7;
      }
    } else {
      ValueParses(r.value, pre, big, more);
      ByteBreaksStream(records[1..], pre, big, data, keys[1..], i - 1);
    }
  }

  /** In either byte order the record stream parses back, whatever follows it, if and only if it
      holds no one-byte integer. */
  lemma RecordStreamExactly(records: seq<Record>, pre: nat, big: bool, data: seq<Byte>, keys: seq<Str>)
    requires AllSized(records) && KeysIn(records, pre, data, keys) && |data| < 0x1_0000_0000_0000_0000
    ensures (forall rest :: StreamParsesBack(records, pre, big, data, keys, rest))
       <==> forall i :: 0 <= i < |records| ==> !IsByte(records[i].value)
  {
    if i :| 0 <= i < |records| && IsByte(records[i].value) {
      ByteBreaksStream(records, pre, big, data, keys, i);
      assert !StreamParsesBack(records, pre, big, data, keys, []);
    } else {
      forall rest ensures StreamParsesBack(records, pre, big, data, keys, rest) {
        RecordStream(records, pre, big, data, keys, rest);
      }
    }
  }
}
