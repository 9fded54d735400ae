/**
 The binary writer (`writer.rs`): header, section table, records and string blob.

 A section reaches the writer with its hash table; `Listed` carries that table as the list of
 its entries in iteration order, which does not change while the file is written.  The record
 size is kept in a `u8`, so it wraps at 256 as a release build does.
 */
module EdtWriter {
  import opened Prelude
  import opened EdtBytes
  import opened EdtIr
  import opened EdtTransform

  /** Names and keys are string references; the writer panics on anything else. */
  type Ref = v: EdtValue | v.ESeq? witness ESeq(0, 0)

  datatype Listed = Listed(name: Ref, entries: seq<(Ref, seq<EdtValue>)>, strings: seq<Str>)

  /** `l` is the section `e` with its table listed in some order. */
  ghost predicate ListingOf(l: Listed, e: EdtSection) {
    && l.name == e.name && l.strings == e.strings
    && Enumerates(KeysOf(l.entries), e.entries.Keys)
    && forall i :: 0 <= i < |l.entries| ==> l.entries[i].0 in e.entries && l.entries[i].1 == e.entries[l.entries[i].0]
  }

  ghost function KeysOf(entries: seq<(Ref, seq<EdtValue>)>): (keys: seq<EdtValue>)
    ensures |keys| == |entries| && forall i :: 0 <= i < |keys| ==> keys[i] == entries[i].0
  {
    seq(|entries|, i requires 0 <= i < |entries| => entries[i].0)
  }

  /** One key with one of its values: the unit the writer emits. */
  datatype Record = Record(key: Ref, value: EdtValue)

  function RecordsOf(key: Ref, values: seq<EdtValue>): seq<Record> {
    if values == [] then [] else RecordsOf(key, values[..|values| - 1]) + [Record(key, values[|values| - 1])]
  }

  function Records(entries: seq<(Ref, seq<EdtValue>)>): seq<Record> {
    if entries == [] then []
    else Records(entries[..|entries| - 1]) + RecordsOf(entries[|entries| - 1].0, entries[|entries| - 1].1)
  }

  function Joined(strings: seq<Str>): (s: Str)
    ensures |s| == TotalLen(strings)
  {
    if strings == [] then [] else Joined(strings[..|strings| - 1]) + strings[|strings| - 1]
  }

  /** The name is sliced out of the section's own strings; out of bounds is a panic. */
  predicate NameInBounds(l: Listed) {
    l.name.offset + l.name.len <= TotalLen(l.strings)
  }

  // ---------- header ----------

  const MAGIC: seq<Byte> := [101, 100, 116, 102]  // "edtf"

  function HeaderBytes(n: nat, big: bool): (b: seq<Byte>)
    ensures |b| == 24
  {
    MAGIC + [0, 0, if big then 1 else 0] + Num(24, 8, big) + Num(1 + 38 * (n + 1), 8, big) + [0]
  }

  // ---------- section table ----------

  function NameOf(l: Listed): Str {
    if NameInBounds(l) then Joined(l.strings)[l.name.offset..l.name.offset + l.name.len] else []
  }

  function AccountedFor(v: EdtValue): nat {
    18 + match v case EInt(len, _) => 1 + len case EFloat(len, _) => 1 + len case ESeq(_, _) => 17
  }

  /** The bytes the section table believes the records take, before the `u8` wraps. */
  function Accounted(records: seq<Record>): nat {
    if records == [] then 0
    else Accounted(records[..|records| - 1]) + AccountedFor(records[|records| - 1].value)
  }

  function Size(l: Listed): Byte { Accounted(Records(l.entries)) % 256 }

  /** The offset stored for the section after `before`, in a file of `n` sections. */
  function StoredOffset(before: seq<Listed>, n: nat): nat {
    if before == [] then 24 + 1 + 38 * (n + 1)
    else StoredOffset(before[..|before| - 1], n) + Size(before[|before| - 1])
  }

  const META: Str := [109, 101, 116, 97]
  const DATA: Str := [100, 97, 116, 97]
  const NAME_FIELD := 17

  function Padded(name: Str): (p: seq<Byte>)
    ensures |p| == (if |name| < NAME_FIELD then NAME_FIELD else |name|) && name <= p
    decreases NAME_FIELD - |name|
  {
    if |name| < NAME_FIELD then Padded(name + [32]) else name
  }

  /** A name field is the name and then spaces. */
  lemma {:induction false} PaddedExactly(name: Str, i: nat)
    requires i < |Padded(name)|
    ensures Padded(name)[i] == if i < |name| then name[i] else 32
    decreases NAME_FIELD - |name|
  {
    if |name| < NAME_FIELD { PaddedExactly(name + [32], i); }
  }

  datatype TableEntry = TableEntry(name: Str, kind: Byte, offset: nat, size: nat, count: nat)

  function TableEntryBytes(t: TableEntry, big: bool): seq<Byte> {
    Padded(t.name) + ([t.kind] + Num(t.offset, 8, big) + Num(t.size, 8, big) + Num(t.count, 4, big))
  }

  function EntryOf(l: Listed, before: seq<Listed>, n: nat): TableEntry {
    TableEntry(NameOf(l), if NameOf(l) == META then 0 else 1, StoredOffset(before, n), Size(l), |Records(l.entries)|)
  }

  /** The table entries of the sections before index `k`. */
  function TableBytes(sections: seq<Listed>, k: nat, big: bool): seq<Byte>
    requires k <= |sections|
  {
    if k == 0 then []
    else
      var entry := EntryOf(sections[k - 1], sections[..k - 1], |sections|);
      TableBytes(sections, k - 1, big) + TableEntryBytes(entry, big)
  }

  function Pre(sections: seq<Listed>): nat {
    if sections == [] then 0 else Pre(sections[..|sections| - 1]) + TotalLen(sections[|sections| - 1].strings)
  }

  function SectionHeaderBytes(sections: seq<Listed>, big: bool): seq<Byte> {
    var n := |sections|;
    var count: seq<Byte> := [(n + 1) % 256];
    (if big then count + count else count)
    + (TableBytes(sections, n, big)
       + TableEntryBytes(TableEntry(DATA, 2, StoredOffset(sections, n), Pre(sections), 0), big))
  }

  // ---------- records and blob ----------

  function ValueBytes(v: EdtValue, pre: nat, big: bool): seq<Byte> {
    match v
    case EInt(len, i) =>
      [0, len] + (if len == 1 then Big(i.Number(), 8)
                  else Num(i.Number(), if len == 2 then 2 else if len == 4 then 4 else 8, big))
    case EFloat(len, f) => [1, len] + Num(f.Bits(), if len == 4 then 4 else 8, big)
    case ESeq(len, offset) => [2] + Num(len, 8, big) + Num(offset + pre, 8, big)
  }

  function RecordBytes(r: Record, pre: nat, big: bool): seq<Byte> {
    ([2] + Num(r.key.len, 8, big) + Num(r.key.offset + pre, 8, big)) + ValueBytes(r.value, pre, big)
  }

  function Stream(records: seq<Record>, pre: nat, big: bool): seq<Byte> {
    if records == [] then []
    else Stream(records[..|records| - 1], pre, big) + RecordBytes(records[|records| - 1], pre, big)
  }

  function SectionStream(l: Listed, pre: nat, big: bool): seq<Byte> {
    Stream(Records(l.entries), pre, big)
  }

  function AllStreams(sections: seq<Listed>, big: bool): seq<Byte> {
    if sections == [] then []
    else
      var front, last := sections[..|sections| - 1], sections[|sections| - 1];
      AllStreams(front, big) + SectionStream(last, Pre(front), big)
  }

  function Blob(sections: seq<Listed>): (b: seq<Byte>)
    ensures |b| == Pre(sections)
  {
    if sections == [] then [] else Blob(sections[..|sections| - 1]) + Joined(sections[|sections| - 1].strings)
  }

  function FileBytes(sections: seq<Listed>, big: bool): seq<Byte> {
    HeaderBytes(|sections|, big) + SectionHeaderBytes(sections, big) + AllStreams(sections, big) + Blob(sections)
  }

  lemma {:induction false} StreamConcat(a: seq<Record>, b: seq<Record>, pre: nat, big: bool)
    ensures Stream(a + b, pre, big) == Stream(a, pre, big) + Stream(b, pre, big)
  {
    if b == [] {
      assert a + b == a;
      assert Stream(a, pre, big) + [] == Stream(a, pre, big);
    } else {
      var front, last := b[..|b| - 1], b[|b| - 1];
      assert (a + b)[..|a + b| - 1] == a + front;
      StreamConcat(a, front, pre, big);
      Assoc(Stream(a, pre, big), Stream(front, pre, big), RecordBytes(last, pre, big));
    }
  }

  lemma StreamPush(records: seq<Record>, r: Record, pre: nat, big: bool)
    ensures Stream(records + [r], pre, big) == Stream(records, pre, big) + RecordBytes(r, pre, big)
  {
    assert (records + [r])[..|records|] == records;
  }

  lemma StreamStep(entries: seq<(Ref, seq<EdtValue>)>, i: nat, pre: nat, big: bool)
    requires i < |entries|
    ensures Stream(Records(entries[..i + 1]), pre, big)
         == Stream(Records(entries[..i]), pre, big) + Stream(RecordsOf(entries[i].0, entries[i].1), pre, big)
  {
    assert entries[..i + 1][..i] == entries[..i];
    StreamConcat(Records(entries[..i]), RecordsOf(entries[i].0, entries[i].1), pre, big);
  }

  lemma AccountedPush(records: seq<Record>, r: Record)
    ensures Accounted(records + [r]) == Accounted(records) + AccountedFor(r.value)
  {
    assert (records + [r])[..|records|] == records;
  }

  lemma WrapAdd(x: nat, y: nat)
    ensures (x % 256 + y) % 256 == (x + y) % 256
  {
  }

  class Writer {
    var file: seq<Byte>
    const isBigEndian: bool

    constructor (isBigEndian: bool)
      ensures file == [] && this.isBigEndian == isBigEndian
    {
      file, this.isBigEndian := [], isBigEndian;
    }

    method Write(sections: seq<Listed>)
      requires forall l :: l in sections ==> NameInBounds(l)
      modifies this
      ensures file == old(file) + FileBytes(sections, isBigEndian)
    {
      ghost var header := HeaderBytes(|sections|, isBigEndian);
      ghost var table := SectionHeaderBytes(sections, isBigEndian);
      ghost var streams := AllStreams(sections, isBigEndian);
      Assoc(file, header, table);
      Assoc(file, header + table, streams);
      Assoc(file, header + table + streams, Blob(sections));
      WriteHeader(|sections|);
      WriteSectionHeader(sections);
      WriteSection(sections);
    }

    method WriteHeader(n: nat)
      modifies this
      ensures file == old(file) + HeaderBytes(n, isBigEndian)
    {
      var header := MAGIC + [0, 0];
      header := header + [if isBigEndian then 1 else 0];
      var headerLen := 1 + 38 * (n + 1);
      header := header + Num(24, 8, isBigEndian) + Num(headerLen, 8, isBigEndian);
      header := header + [0];
      file := file + header;
    }

    /** The two inner loops of `write_section_header`: records counted, and bytes counted in a `u8`. */
    method CountRecords(l: Listed) returns (entryCount: nat, entryLen: Byte)
      ensures entryCount == |Records(l.entries)| && entryLen == Size(l)
    {
      entryCount, entryLen := 0, 0;
      for i := 0 to |l.entries|
        invariant entryCount == |Records(l.entries[..i])|
        invariant entryLen == Accounted(Records(l.entries[..i])) % 256
      {
        var key, values := l.entries[i].0, l.entries[i].1;
        ghost var done := Records(l.entries[..i]);
        assert done + [] == done;
        for j := 0 to |values|
          invariant entryCount == |done| + |RecordsOf(key, values[..j])|
          invariant entryLen == Accounted(done + RecordsOf(key, values[..j])) % 256
        {
          assert values[..j + 1][..j] == values[..j];
          Assoc(done, RecordsOf(key, values[..j]), [Record(key, values[j])]);
          AccountedPush(done + RecordsOf(key, values[..j]), Record(key, values[j]));
          WrapAdd(Accounted(done + RecordsOf(key, values[..j])), AccountedFor(values[j]));
          entryCount := entryCount + 1;
          entryLen := CountBytes(values[j], entryLen);
        }
        assert values[..|values|] == values;
        assert l.entries[..i + 1][..i] == l.entries[..i];
      }
      assert l.entries[..|l.entries|] == l.entries;
    }

    /** One turn of the loop: the additions wrap, so only the sum matters. */
    method CountBytes(v: EdtValue, entryLen: Byte) returns (r: Byte)
      ensures r == (entryLen + AccountedFor(v)) % 256
    {
      var sum := entryLen + 17 + 1;
      match v {
        case EInt(len, _) => sum := sum + 1 + len;
        case EFloat(len, _) => sum := sum + 1 + len;
        case ESeq(_, _) => sum := sum + 17;
      }
      r := sum % 256;
    }

    method PutPadded(name: Str)
      modifies this
      ensures file == old(file) + Padded(name)
    {
      var field := name;
      while |field| < NAME_FIELD
        invariant Padded(field) == Padded(name)
        decreases NAME_FIELD - |field|
      {
        field := field + [32];
      }
      file := file + field;
    }

    method PutTableEntry(t: TableEntry)
      modifies this
      ensures file == old(file) + TableEntryBytes(t, isBigEndian)
    {
      var body := [t.kind];
      body := body + Num(t.offset, 8, isBigEndian) + Num(t.size, 8, isBigEndian) + Num(t.count, 4, isBigEndian);
      Assoc(file, Padded(t.name), body);
      PutPadded(t.name);
      file := file + body;
    }

    method WriteSectionHeader(sections: seq<Listed>)
      requires forall l :: l in sections ==> NameInBounds(l)
      modifies this
      ensures file == old(file) + SectionHeaderBytes(sections, isBigEndian)
    {
      var count: seq<Byte> := [(|sections| + 1) % 256];
      if isBigEndian {
        file := file + count;
      }
      file := file + count;
      Assoc(old(file), count, count);
      ghost var counts := if isBigEndian then count + count else count;
      assert file == old(file) + counts;
      PutTable(sections);
      Assoc(old(file), counts, SectionHeaderBytes(sections, isBigEndian)[|counts|..]);
    }

    /** The body of the loop over the sections: one table entry. */
    method PutSectionEntry(l: Listed, tmpOffset: nat, ghost before: seq<Listed>, ghost n: nat)
      returns (entryLen: Byte, datasetLen: nat)
      requires NameInBounds(l) && tmpOffset == StoredOffset(before, n)
      modifies this
      ensures entryLen == Size(l) && datasetLen == TotalLen(l.strings)
      ensures file == old(file) + TableEntryBytes(EntryOf(l, before, n), isBigEndian)
    {
      var entryCount;
      entryCount, entryLen := CountRecords(l);
      var dataset := Joined(l.strings);
      var name := dataset[l.name.offset..l.name.offset + l.name.len];
      var kind := if name == META then 0 else 1;
      datasetLen := |dataset|;
      PutTableEntry(TableEntry(name, kind, tmpOffset, entryLen, entryCount));
    }

    method PutTable(sections: seq<Listed>)
      requires forall l :: l in sections ==> NameInBounds(l)
      modifies this
      ensures var n := |sections|;
              file == old(file) + (TableBytes(sections, n, isBigEndian)
                + TableEntryBytes(TableEntry(DATA, 2, StoredOffset(sections, n), Pre(sections), 0), isBigEndian))
    {
      var n := |sections|;
      var totalOffset := 24 + (1 + 38 * (n + 1));
      var dataLen: nat := 0;
      assert file == file + [];
      for i := 0 to n
        invariant totalOffset == StoredOffset(sections[..i], n) && dataLen == Pre(sections[..i])
        invariant file == old(file) + TableBytes(sections, i, isBigEndian)
      {
        assert sections[..i + 1][..i] == sections[..i];
        ghost var t := EntryOf(sections[i], sections[..i], n);
        Assoc(old(file), TableBytes(sections, i, isBigEndian), TableEntryBytes(t, isBigEndian));
        var entryLen, datasetLen := PutSectionEntry(sections[i], totalOffset, sections[..i], n);
        totalOffset := totalOffset + entryLen;
        dataLen := dataLen + datasetLen;
      }
      assert sections[..n] == sections;
      var last := TableEntry(DATA, 2, totalOffset, dataLen, 0);
      Assoc(old(file), TableBytes(sections, n, isBigEndian), TableEntryBytes(last, isBigEndian));
      PutTableEntry(last);
    }

    method PutValue(v: EdtValue, pre: nat)
      modifies this
      ensures file == old(file) + ValueBytes(v, pre, isBigEndian)
    {
      var b: seq<Byte>;
      match v {
        case EInt(len, i) =>
          b := [0, len];
          if len == 1 {
            b := b + Big(i.Number(), 8);
          } else if len == 2 {
            b := b + Num(i.Number(), 2, isBigEndian);
          } else if len == 4 {
            b := b + Num(i.Number(), 4, isBigEndian);
          } else {
            b := b + Num(i.Number(), 8, isBigEndian);
          }
        case EFloat(len, f) =>
          b := [1, len];
          if len == 4 {
            b := b + Num(f.Bits(), 4, isBigEndian);
          } else {
            b := b + Num(f.Bits(), 8, isBigEndian);
          }
        case ESeq(len, offset) =>
          b := [2];
          b := b + Num(len, 8, isBigEndian);
          b := b + Num(offset + pre, 8, isBigEndian);
      }
      file := file + b;
    }

    method PutRecord(r: Record, pre: nat)
      modifies this
      ensures file == old(file) + RecordBytes(r, pre, isBigEndian)
    {
      var b: seq<Byte> := [2];
      b := b + Num(r.key.len, 8, isBigEndian);
      b := b + Num(r.key.offset + pre, 8, isBigEndian);
      Assoc(file, b, ValueBytes(r.value, pre, isBigEndian));
      file := file + b;
      PutValue(r.value, pre);
    }

    method PutEntry(key: Ref, values: seq<EdtValue>, pre: nat)
      modifies this
      ensures file == old(file) + Stream(RecordsOf(key, values), pre, isBigEndian)
    {
      assert file == file + [];
      for j := 0 to |values|
        invariant file == old(file) + Stream(RecordsOf(key, values[..j]), pre, isBigEndian)
      {
        assert values[..j + 1][..j] == values[..j];
        ghost var done := RecordsOf(key, values[..j]);
        StreamPush(done, Record(key, values[j]), pre, isBigEndian);
        Assoc(old(file), Stream(done, pre, isBigEndian), RecordBytes(Record(key, values[j]), pre, isBigEndian));
        PutRecord(Record(key, values[j]), pre);
      }
      assert values[..|values|] == values;
    }

    method PutEntries(l: Listed, pre: nat)
      modifies this
      ensures file == old(file) + SectionStream(l, pre, isBigEndian)
    {
      assert file == file + [];
      for i := 0 to |l.entries|
        invariant file == old(file) + Stream(Records(l.entries[..i]), pre, isBigEndian)
      {
        var key, values := l.entries[i].0, l.entries[i].1;
        ghost var done, more := Records(l.entries[..i]), RecordsOf(key, values);
        StreamStep(l.entries, i, pre, isBigEndian);
        Assoc(old(file), Stream(done, pre, isBigEndian), Stream(more, pre, isBigEndian));
        PutEntry(key, values, pre);
      }
      assert l.entries[..|l.entries|] == l.entries;
    }

    method WriteSection(sections: seq<Listed>)
      modifies this
      ensures file == old(file) + AllStreams(sections, isBigEndian) + Blob(sections)
    {
      var preOffset: nat := 0;
      assert file == file + [];
      for i := 0 to |sections|
        invariant preOffset == Pre(sections[..i])
        invariant file == old(file) + AllStreams(sections[..i], isBigEndian)
      {
        assert sections[..i + 1][..i] == sections[..i];
        Assoc(old(file), AllStreams(sections[..i], isBigEndian), SectionStream(sections[i], preOffset, isBigEndian));
        PutEntries(sections[i], preOffset);
        var strings := sections[i].strings;
        ghost var before := preOffset;
        for j := 0 to |strings|
          invariant preOffset == before + TotalLen(strings[..j])
        {
          assert strings[..j + 1][..j] == strings[..j];
          preOffset := preOffset + |strings[j]|;
        }
        assert strings[..|strings|] == strings;
      }
      assert sections[..|sections|] == sections;
      PutBlob(sections);
    }

    method PutBlob(sections: seq<Listed>)
      modifies this
      ensures file == old(file) + Blob(sections)
    {
      var combined: seq<Byte> := [];
      for i := 0 to |sections|
        invariant combined == Blob(sections[..i])
      {
        assert sections[..i + 1][..i] == sections[..i];
        var strings := sections[i].strings;
        ghost var before := combined;
        for j := 0 to |strings|
          invariant combined == before + Joined(strings[..j])
        {
          assert strings[..j + 1][..j] == strings[..j];
          combined := combined + strings[j];
        }
        assert strings[..|strings|] == strings;
      }
      assert sections[..|sections|] == sections;
      file := file + combined;
    }
  }
}
