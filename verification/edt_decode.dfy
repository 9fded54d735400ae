/**
 Typed decoding in `EdtParser::parse`, and the sections that survive writing and parsing.
 */
module EdtDecode {
  import opened Prelude
  import opened EdtBytes
  import opened EdtIr
  import opened EdtTransform
  import opened EdtWriter
  import opened EdtLayout
  import opened EdtParser

  // ---------- one value ----------

  lemma {:induction false} FromLittleBound(b: seq<Byte>)
    ensures FromLittle(b) < Pow256(|b|)
  {
    if b != [] { FromLittleBound(b[1..]); }
  }

  lemma FromNumBound(b: seq<Byte>, big: bool)
    ensures FromNum(b, big) < Pow256(|b|)
    ensures |b| == 2 ==> FromNum(b, big) < 0x1_0000
    ensures |b| == 4 ==> FromNum(b, big) < 0x1_0000_0000
    ensures |b| == 8 ==> FromNum(b, big) < 0x1_0000_0000_0000_0000
  {
    FromLittleBound(b);
    FromBigBound(b);
    Widths();
  }

  /** The match on type and length.  An eight-byte float is always read big-endian, and a string
      value ends at its own offset. */
  function DecodeValue(d: EdtData, data: seq<Byte>, big: bool): Option<IRValue> {
    FromNumBound(d.value, big);
    FromNumBound(d.value, true);
    if d.kind == 0 then
      if d.length == [1] && |d.value| == 1 then Some(Integer(IByte(d.value[0])))
      else if d.length == [2] && |d.value| == 2 then Some(Integer(IWord(FromNum(d.value, big))))
      else if d.length == [4] && |d.value| == 4 then Some(Integer(IDouble(FromNum(d.value, big))))
      else if d.length == [8] && |d.value| == 8 then Some(Integer(IQuad(FromNum(d.value, big))))
      else None
    else if d.kind == 1 then
      if d.length == [4] && |d.value| == 4 then Some(Floating(FSingle(FromNum(d.value, big))))
      else if d.length == [8] && |d.value| == 8 then Some(Floating(FDouble(FromNum(d.value, true))))
      else None
    else
      var begin := FromNum(d.value, big);
      var end := FromNum(d.value, big);
      if begin + end > |data| then None else Some(Text(data[begin..begin + end]))
  }

  /** The values whose decoding is the value written. */
  predicate Decodable(v: EdtValue, pre: nat, big: bool) {
    match v
    case EInt(_, _) => true
    case EFloat(_, f) => f.FDouble? ==> big || Little(f.double, 8) == Big(f.double, 8)
    case ESeq(len, offset) => offset + pre == len
  }

  /** `v` stands for `ir`, with string values found in the blob. */
  ghost predicate Written(v: EdtValue, ir: IRValue, pre: nat, data: seq<Byte>) {
    match v
    case EInt(_, i) => ir == Integer(i)
    case EFloat(_, f) => ir == Floating(f)
    case ESeq(len, offset) => ir.Text? && len == |ir.s| && At(data, offset + pre, ir.s)
  }

  lemma NumbersDecode(v: EdtValue, pre: nat, big: bool, data: seq<Byte>)
    requires WellSized(v) && !v.ESeq? && !IsByte(v) && (v.EFloat? ==> v.f.FSingle?)
    ensures DecodeValue(DataOf(v, pre, big), data, big) == Some(if v.EInt? then Integer(v.i) else Floating(v.f))
  {
    hide Num, FromNum;
    Widths();
    if v.EInt? {
      NumRoundTrip(v.i.Number(), v.i.Width(), big);
    } else {
      NumRoundTrip(v.f.Bits(), 4, big);
    }
  }

  lemma DoublesDecode(v: EdtValue, pre: nat, big: bool, data: seq<Byte>)
    requires WellSized(v) && v.EFloat? && v.f.FDouble?
    ensures DecodeValue(DataOf(v, pre, big), data, big) == Some(Floating(v.f)) <==> Decodable(v, pre, big)
  {
    hide Little, Big, FromBig, FromLittle;
    Widths();
    NumRoundTrip(v.f.double, 8, true);
    if !big && FromBig(Little(v.f.double, 8)) == v.f.double {
      FromBigInjective(Little(v.f.double, 8), Big(v.f.double, 8));
    }
  }

  lemma StringsDecode(v: EdtValue, s: Str, pre: nat, big: bool, data: seq<Byte>)
    requires v.ESeq? && v.len == |s| && At(data, v.offset + pre, s) && |data| < 0x1_0000_0000_0000_0000
    ensures DecodeValue(DataOf(v, pre, big), data, big) == Some(Text(s)) <==> Decodable(v, pre, big)
  {
    hide Num, FromNum;
    Widths();
    NumRoundTrip(v.offset + pre, 8, big);
  }

  /** A value other than a one-byte integer decodes to what was written if and only if it is an
      integer, a single, a double written big-endian (or with symmetric bytes), or a string whose
      rebased offset happens to equal its length. */
  lemma DecodeExactly(v: EdtValue, ir: IRValue, pre: nat, big: bool, data: seq<Byte>)
    requires WellSized(v) && !IsByte(v) && Written(v, ir, pre, data) && |data| < 0x1_0000_0000_0000_0000
    ensures DecodeValue(DataOf(v, pre, big), data, big) == Some(ir) <==> Decodable(v, pre, big)
  {
    if v.ESeq? {
      StringsDecode(v, ir.s, pre, big, data);
    } else if v.EFloat? && v.f.FDouble? {
      DoublesDecode(v, pre, big, data);
    } else {
      NumbersDecode(v, pre, big, data);
    }
  }

  // ---------- the entry loop of parse ----------

  /** The loop `while times < count`, adding each decoded entry to the section. */
  function ParseLoop(count: nat, b: seq<Byte>, data: seq<Byte>, big: bool, acc: Entries): Option<(Entries, seq<Byte>)>
    decreases count
  {
    if count == 0 then Some((acc, b))
    else
      match SectionParser(b, data, big)
      case None => None
      case Some((entry, rest)) =>
        match DecodeValue(entry.value, data, big)
        case None => None
        case Some(v) => ParseLoop(count - 1, rest, data, big, Pushed(acc, entry.key, v))
  }

  method ParseSection(name: Str, count: nat, position: seq<Byte>, data: seq<Byte>, big: bool)
    returns (section: Option<Section>, rest: seq<Byte>)
    ensures match ParseLoop(count, position, data, big, map[])
            case None => section.None?
            case Some((entries, after)) =>
              section.Some? && fresh(section.value) && section.value.Value() == SectionValue(name, entries) && rest == after
  {
    hide SectionParser, DecodeValue;
    var s := new Section(name);
    var entryParsed := position;
    var times := 0;
    while times < count
      invariant times <= count && fresh(s)
      invariant ParseLoop(count - times, entryParsed, data, big, s.entries) == ParseLoop(count, position, data, big, map[])
    {
      var r := SectionParser(entryParsed, data, big);
      if r.None? { return None, entryParsed; }
      var (entry, parsed) := r.value;
      entryParsed := parsed;
      var v := DecodeValue(entry.value, data, big);
      if v.None? { return None, entryParsed; }
      s.AddEntry(entry.key, v.value);
      times := times + 1;
    }
    section, rest := Some(s), entryParsed;
  }

  // ---------- a whole section ----------

  /** Adding the records one by one, with keys and strings looked up in the section's own table. */
  function Replay(acc: Entries, records: seq<Record>, strings: seq<Str>): Entries {
    if records == [] then acc
    else
      var r := records[|records| - 1];
      Pushed(Replay(acc, records[..|records| - 1], strings), KeyName(r.key, strings), ValueOr(r.value, strings))
  }

  function KeyName(q: Ref, strings: seq<Str>): Str {
    match Search(strings, 0, q.offset, q.len) case Some(s) => s case None => []
  }

  function ValueOr(v: EdtValue, strings: seq<Str>): IRValue {
    match RestoreValue(v, strings) case Some(ir) => ir case None => Text([])
  }

  lemma {:induction false} ReplayConcat(acc: Entries, a: seq<Record>, b: seq<Record>, strings: seq<Str>)
    ensures Replay(acc, a + b, strings) == Replay(Replay(acc, a, strings), b, strings)
  {
    hide Pushed, KeyName, ValueOr;
    if b == [] {
      assert a + b == a;
    } else {
      assert (a + b)[..|a + b| - 1] == a + b[..|b| - 1];
      ReplayConcat(acc, a, b[..|b| - 1], strings);
    }
  }

  lemma ReplayFront(acc: Entries, records: seq<Record>, strings: seq<Str>)
    requires records != []
    ensures Replay(acc, records, strings)
         == Replay(Pushed(acc, KeyName(records[0].key, strings), ValueOr(records[0].value, strings)), records[1..], strings)
  {
    hide Pushed, KeyName, ValueOr;
    assert records == [records[0]] + records[1..];
    assert [records[0]][..0] == [];
    ReplayConcat(acc, [records[0]], records[1..], strings);
  }

  /** The parser reads this record as the key and value it was made from. */
  ghost predicate Faithful(r: Record, pre: nat, big: bool, data: seq<Byte>, strings: seq<Str>) {
    && WellSized(r.value) && !IsByte(r.value)
    && KeyIn(r, pre, data, KeyName(r.key, strings))
    && DecodeValue(DataOf(r.value, pre, big), data, big) == Some(ValueOr(r.value, strings))
  }

  lemma {:induction false} LoopReplays(
    records: seq<Record>, pre: nat, big: bool, data: seq<Byte>, strings: seq<Str>, acc: Entries, rest: seq<Byte>)
    requires |data| < 0x1_0000_0000_0000_0000
    requires forall i :: 0 <= i < |records| ==> Faithful(records[i], pre, big, data, strings)
    ensures ParseLoop(|records|, Stream(records, pre, big) + rest, data, big, acc)
         == Some((Replay(acc, records, strings), rest))
  {
    hide Stream, RecordBytes, ValueBytes, SectionParser, DataParser, DataOf, DecodeValue, KeyIn, KeyName, ValueOr, Pushed;
    if records == [] {
      EmptyStream(pre, big);
      assert [] + rest == rest;
    } else {
      var r := records[0];
      var more := Stream(records[1..], pre, big) + rest;
      StreamFront(records, pre, big);
      Assoc(RecordBytes(r, pre, big), Stream(records[1..], pre, big), rest);
      assert Faithful(r, pre, big, data, strings);
      RecordParses(r, pre, big, more, data, KeyName(r.key, strings));
      ValueParses(r.value, pre, big, more);
      ReplayFront(acc, records, strings);
      LoopReplays(records[1..], pre, big, data, strings, Pushed(acc, KeyName(r.key, strings), ValueOr(r.value, strings)), rest);
    }
  }

  lemma {:induction false} EntryReplays(acc: Entries, key: Ref, values: seq<EdtValue>, strings: seq<Str>)
    requires RestoreValues(values, strings).Some?
    ensures Replay(acc, RecordsOf(key, values), strings)
         == PushedAll(acc, KeyName(key, strings), RestoreValues(values, strings).value)
  {
    hide Pushed, KeyName;
    if values != [] {
      var front, last := values[..|values| - 1], values[|values| - 1];
      EntryReplays(acc, key, front, strings);
      var more := RecordsOf(key, front);
      assert (more + [Record(key, last)])[..|more|] == more;
      var vs, v := RestoreValues(front, strings).value, RestoreValue(last, strings).value;
      assert (vs + [v])[..|vs|] == vs;
    }
  }

  lemma {:induction false} EntriesReplay(l: Listed, e: EdtSection, n: nat)
    requires ListingOf(l, e) && n <= |l.entries|
    requires (forall r :: r in KeysOf(l.entries)[..n] ==> r in e.entries)
    requires RestoreEntries(KeysOf(l.entries)[..n], e).Some?
    ensures Replay(map[], Records(l.entries[..n]), l.strings) == RestoreEntries(KeysOf(l.entries)[..n], e).value
  {
    hide Pushed, PushedAll, RestoreValues, RecordsOf, Search;
    if n > 0 {
      var order := KeysOf(l.entries);
      assert order[..n][..n - 1] == order[..n - 1] && l.entries[..n][..n - 1] == l.entries[..n - 1];
      EntriesReplay(l, e, n - 1);
      var (key, values) := l.entries[n - 1];
      assert order[..n][n - 1] == key;
      ReplayConcat(map[], Records(l.entries[..n - 1]), RecordsOf(key, values), l.strings);
      EntryReplays(Replay(map[], Records(l.entries[..n - 1]), l.strings), key, values, l.strings);
    }
  }

  /** The records the writer makes of a section replay to the section's entries. */
  lemma SectionReplays(l: Listed, e: EdtSection, s: SectionValue)
    requires Encodes(e, s) && Reachable(s.entries) && ListingOf(l, e)
    ensures Replay(map[], Records(l.entries), l.strings) == s.entries
  {
    hide Replay, Records, RestoreEntries;
    var order := KeysOf(l.entries);
    SectionComesBack(e, s, order);
    assert order[..|order|] == order && l.entries[..|order|] == l.entries;
    EntriesReplay(l, e, |order|);
  }

  /** No one-byte integer, and every value one that decodes. */
  ghost predicate Survives(l: Listed, pre: nat, big: bool) {
    forall r :: r in Records(l.entries) ==> !IsByte(r.value) && Decodable(r.value, pre, big)
  }

  lemma {:induction false} RecordsCome(entries: seq<(Ref, seq<EdtValue>)>, r: Record)
    requires r in Records(entries)
    ensures exists i :: 0 <= i < |entries| && entries[i].0 == r.key && r.value in entries[i].1
  {
    var n := |entries| - 1;
    if r in Records(entries[..n]) {
      RecordsCome(entries[..n], r);
      var i :| 0 <= i < |entries[..n]| && entries[..n][i].0 == r.key && r.value in entries[..n][i].1;
      assert entries[i] == entries[..n][i];
    } else {
      RecordsOfCome(entries[n].0, entries[n].1, r);
    }
  }

  lemma {:induction false} RecordsOfCome(key: Ref, values: seq<EdtValue>, r: Record)
    requires r in RecordsOf(key, values)
    ensures r.key == key && r.value in values
  {
    if r in RecordsOf(key, values[..|values| - 1]) {
      RecordsOfCome(key, values[..|values| - 1], r);
    }
  }

  /** A written record stands for one key of the section and one of its values. */
  lemma RecordStands(l: Listed, e: EdtSection, s: SectionValue, r: Record) returns (k: Str, ir: IRValue)
    requires Encodes(e, s) && ListingOf(l, e) && r in Records(l.entries)
    ensures RefersTo(r.key, l.strings, k) && Represents(r.value, ir, l.strings)
  {
    hide Records, RefersTo, Represents, Search;
    RecordsCome(l.entries, r);
    var j :| 0 <= j < |l.entries| && l.entries[j].0 == r.key && r.value in l.entries[j].1;
    var values := l.entries[j].1;
    k := KeyOf(r.key, e.strings);
    assert EntryFor(r.key, e.entries[r.key], k, s.entries, e.strings);
    var m :| 0 <= m < |values| && values[m] == r.value;
    ir := s.entries[k][m];
  }

  /** What the writer is given for a converted section is well sized, and names it right. */
  lemma ConvertedIsWritable(l: Listed, e: EdtSection, s: SectionValue)
    requires Encodes(e, s) && ListingOf(l, e)
    ensures NameInBounds(l) && NameOf(l) == s.name && AllSized(Records(l.entries))
  {
    hide Records, Search, Joined, TotalLen;
    forall i | 0 <= i < |Records(l.entries)| ensures WellSized(Records(l.entries)[i].value) {
      var k, ir := RecordStands(l, e, s, Records(l.entries)[i]);
    }
    var at :| 0 <= at < |l.strings| && IsAt(l.name, l.strings, s.name, at);
    JoinedAt(l.strings, at);
  }

  /** Every written record has its key and its value in the blob, where the parser looks. */
  lemma RecordInBlob(sections: seq<Listed>, i: nat, e: EdtSection, s: SectionValue, r: Record)
    requires i < |sections| && Encodes(e, s) && ListingOf(sections[i], e)
    requires r in Records(sections[i].entries)
    ensures var strings, pre := sections[i].strings, Pre(sections[..i]);
            && WellSized(r.value) && KeyIn(r, pre, Blob(sections), KeyName(r.key, strings))
            && Written(r.value, ValueOr(r.value, strings), pre, Blob(sections))
  {
    hide Blob, Pre, At, Search, RefersTo, Records, Encodes, ListingOf;
    var k, ir := RecordStands(sections[i], e, s, r);
    RebasedReference(sections, i, r.key, k);
    if ir.Text? {
      RebasedReference(sections, i, r.value, ir.s);
    }
  }

  /** The parser reads a record as it was made if and only if its value decodes. */
  lemma RecordFaithfulExactly(sections: seq<Listed>, i: nat, e: EdtSection, s: SectionValue, r: Record, big: bool)
    requires i < |sections| && Encodes(e, s) && ListingOf(sections[i], e)
    requires |Blob(sections)| < 0x1_0000_0000_0000_0000
    requires r in Records(sections[i].entries) && !IsByte(r.value)
    ensures Faithful(r, Pre(sections[..i]), big, Blob(sections), sections[i].strings)
       <==> Decodable(r.value, Pre(sections[..i]), big)
  {
    hide Blob, Pre, Search, DecodeValue, DataOf, Decodable, Records, Encodes, ListingOf, Written, KeyIn, KeyName, ValueOr;
    RecordInBlob(sections, i, e, s, r);
    DecodeExactly(r.value, ValueOr(r.value, sections[i].strings), Pre(sections[..i]), big, Blob(sections));
  }

  /** The entries of the loop, once the records are parsed. */
  function Collected(acc: Entries, entries: seq<EdtEntry>, data: seq<Byte>, big: bool): Option<Entries>
    decreases |entries|
  {
    if entries == [] then Some(acc)
    else
      match DecodeValue(entries[0].value, data, big)
      case None => None
      case Some(v) => Collected(Pushed(acc, entries[0].key, v), entries[1..], data, big)
  }

  lemma {:induction false} LoopCollects(count: nat, b: seq<Byte>, data: seq<Byte>, big: bool, acc: Entries)
    requires ParseLoop(count, b, data, big, acc).Some?
    ensures var r := ParseRecords(count, b, data, big);
            && r.Some? && r.value.1 == ParseLoop(count, b, data, big, acc).value.1
            && Collected(acc, r.value.0, data, big) == Some(ParseLoop(count, b, data, big, acc).value.0)
  {
    hide SectionParser, DecodeValue, Pushed;
    if count > 0 {
      var (entry, rest) := SectionParser(b, data, big).value;
      LoopCollects(count - 1, rest, data, big, Pushed(acc, entry.key, DecodeValue(entry.value, data, big).value));
      var more := ParseRecords(count - 1, rest, data, big).value.0;
      assert ([entry] + more)[1..] == more;
    }
  }

  lemma PushedInjective(m: Entries, m': Entries, k: Str, v: IRValue, v': IRValue)
    requires Reachable(m) && Reachable(m') && Pushed(m, k, v) == Pushed(m', k, v')
    ensures m == m' && v == v'
  {
    var a, b := Pushed(m, k, v), Pushed(m', k, v');
    assert a[k] == (if k in m then m[k] else []) + [v] && b[k] == (if k in m' then m'[k] else []) + [v'];
    assert a[k][..|a[k]| - 1] == (if k in m then m[k] else []);
    assert b[k][..|b[k]| - 1] == (if k in m' then m'[k] else []);
    assert v == a[k][|a[k]| - 1];
    assert k in m <==> k in m';
    forall x | x in m ensures x in m' && m[x] == m'[x] { assert x in a; }
    forall x | x in m' ensures x in m { assert x in b; }
  }

  lemma PushedReachable(m: Entries, k: Str, v: IRValue)
    requires Reachable(m)
    ensures Reachable(Pushed(m, k, v))
  {
  }

  /** The same keys with any other value do not fold to the same entries. */
  lemma {:induction false} OnlyTheValuesFold(
    records: seq<Record>, pre: nat, big: bool, data: seq<Byte>, strings: seq<Str>, keys: seq<Str>, acc: Entries, acc': Entries)
    requires |keys| == |records| && forall i :: 0 <= i < |keys| ==> keys[i] == KeyName(records[i].key, strings)
    requires Reachable(acc) && Reachable(acc')
    requires Collected(acc, Parsed(records, pre, big, keys), data, big) == Some(Replay(acc', records, strings))
    ensures acc == acc'
    ensures forall i :: 0 <= i < |records| ==>
              DecodeValue(DataOf(records[i].value, pre, big), data, big) == Some(ValueOr(records[i].value, strings))
  {
    hide Pushed, KeyName, ValueOr, DecodeValue, DataOf, Reachable, Replay;
    if records == [] {
      assert Replay(acc', [], strings) == acc' by { NoReplay(acc', strings); }
    } else {
      var k, v := keys[0], ValueOr(records[0].value, strings);
      var got := DecodeValue(DataOf(records[0].value, pre, big), data, big).value;
      ReplayFront(acc', records, strings);
      assert Parsed(records, pre, big, keys)[1..] == Parsed(records[1..], pre, big, keys[1..]);
      PushedReachable(acc, k, got);
      PushedReachable(acc', k, v);
      OnlyTheValuesFold(records[1..], pre, big, data, strings, keys[1..], Pushed(acc, k, got), Pushed(acc', k, v));
      PushedInjective(acc, acc', k, got, v);
      forall i | 0 <= i < |records|
        ensures DecodeValue(DataOf(records[i].value, pre, big), data, big) == Some(ValueOr(records[i].value, strings))
      {
        if i > 0 { assert records[i] == records[1..][i - 1]; }
      }
    }
  }

  lemma NoReplay(acc: Entries, strings: seq<Str>)
    ensures Replay(acc, [], strings) == acc
  {
  }

  /** The records parse back to the section's entries, with this text after them. */
  ghost predicate ComesBack(sections: seq<Listed>, i: nat, s: SectionValue, big: bool, rest: seq<Byte>)
    requires i < |sections|
  {
    ParseLoop(|Records(sections[i].entries)|, StreamAt(sections, i, big) + rest, Blob(sections), big, map[])
      == Some((s.entries, rest))
  }

  lemma SectionSurvives(sections: seq<Listed>, i: nat, e: EdtSection, s: SectionValue, big: bool, rest: seq<Byte>)
    requires i < |sections| && Encodes(e, s) && Reachable(s.entries) && ListingOf(sections[i], e)
    requires |Blob(sections)| < 0x1_0000_0000_0000_0000 && Survives(sections[i], Pre(sections[..i]), big)
    ensures ComesBack(sections, i, s, big, rest)
  {
    hide Blob, Pre, Faithful, Replay, ParseLoop, Stream, Records, Decodable;
    var l, records := sections[i], Records(sections[i].entries);
    forall j | 0 <= j < |records| ensures Faithful(records[j], Pre(sections[..i]), big, Blob(sections), l.strings) {
      RecordFaithfulExactly(sections, i, e, s, records[j], big);
    }
    LoopReplays(records, Pre(sections[..i]), big, Blob(sections), l.strings, map[], rest);
    SectionReplays(l, e, s);
  }

  lemma OnlySurvivorsComeBack(sections: seq<Listed>, i: nat, e: EdtSection, s: SectionValue, big: bool)
    requires i < |sections| && Encodes(e, s) && Reachable(s.entries) && ListingOf(sections[i], e)
    requires |Blob(sections)| < 0x1_0000_0000_0000_0000 && ComesBack(sections, i, s, big, [])
    ensures Survives(sections[i], Pre(sections[..i]), big)
  {
    hide Blob, Pre, Faithful, Replay, ParseLoop, ParseRecords, Collected, Stream, Records, Decodable, KeyIn, Encodes, ListingOf;
    hide KeyName, ValueOr, DecodeValue, DataOf, Parsed, IsByte, WellSized, Search, Reachable;
    var l, records, pre, data := sections[i], Records(sections[i].entries), Pre(sections[..i]), Blob(sections);
    var keys := seq(|records|, j requires 0 <= j < |records| => KeyName(records[j].key, l.strings));
    forall j | 0 <= j < |records|
      ensures WellSized(records[j].value) && KeyIn(records[j], pre, data, keys[j])
    {
      RecordInBlob(sections, i, e, s, records[j]);
    }
    LoopCollects(|records|, StreamAt(sections, i, big) + [], data, big, map[]);
    forall j | 0 <= j < |records| ensures !IsByte(records[j].value) {
      if IsByte(records[j].value) { ByteBreaksStream(records, pre, big, data, keys, j); }
    }
    RecordStream(records, pre, big, data, keys, []);
    SectionReplays(l, e, s);
    assert Reachable(map[]) by { NothingReachable(); }
    OnlyTheValuesFold(records, pre, big, data, l.strings, keys, map[], map[]);
    forall r | r in records ensures !IsByte(r.value) && Decodable(r.value, pre, big) {
      var j :| 0 <= j < |records| && records[j] == r;
      assert Faithful(r, pre, big, data, l.strings) by { FaithfulIs(r, pre, big, data, l.strings); }
      RecordFaithfulExactly(sections, i, e, s, r, big);
    }
  }

  lemma NothingReachable()
    ensures Reachable(map[])
  {
  }

  lemma FaithfulIs(r: Record, pre: nat, big: bool, data: seq<Byte>, strings: seq<Str>)
    requires WellSized(r.value) && !IsByte(r.value) && KeyIn(r, pre, data, KeyName(r.key, strings))
    requires DecodeValue(DataOf(r.value, pre, big), data, big) == Some(ValueOr(r.value, strings))
    ensures Faithful(r, pre, big, data, strings)
  {
  }

  /** Writing a section among others and parsing its records gives back its entries, whatever follows
      them, if and only if every value survives; the parser stops exactly at the end of the records. */
  lemma SectionSurvivesExactly(sections: seq<Listed>, i: nat, e: EdtSection, s: SectionValue, big: bool)
    requires i < |sections| && Encodes(e, s) && Reachable(s.entries) && ListingOf(sections[i], e)
    requires |Blob(sections)| < 0x1_0000_0000_0000_0000
    ensures (forall rest :: ComesBack(sections, i, s, big, rest)) <==> Survives(sections[i], Pre(sections[..i]), big)
  {
    hide ComesBack, Survives, Encodes, ListingOf, Blob, Pre;
    if Survives(sections[i], Pre(sections[..i]), big) {
      forall rest ensures ComesBack(sections, i, s, big, rest) { SectionSurvives(sections, i, e, s, big, rest); }
    }
    if forall rest :: ComesBack(sections, i, s, big, rest) {
      assert ComesBack(sections, i, s, big, []);
      OnlySurvivorsComeBack(sections, i, e, s, big);
    }
  }

  // ---------- from the table to the records ----------

  /** Parsing at `at` gives a table entry: the name, then spaces, to 17 bytes, and the five fields. */
  ghost predicate EntryAt(file: seq<Byte>, at: nat, name: Str, kind: Byte, offset: nat, size: nat, count: nat) {
    && at <= |file|
    && var r := TableEntryParser(file[at..]);
    && r.Some?
    && var e := r.value.0;
    && |e.name| == 17 && (forall k :: 0 <= k < 17 ==> e.name[k] == if k < |name| then name[k] else 32)
    && e.kind == kind && FromNum(e.offset, false) == offset
    && FromNum(e.size, false) == size && FromNum(e.count, false) == count
  }

  lemma EntryParses(file: seq<Byte>, at: nat, t: TableEntry)
    requires At(file, at, TableEntryBytes(t, false))
    requires |t.name| <= NAME_FIELD && t.count < 0x1_0000_0000
    requires t.offset < 0x1_0000_0000_0000_0000 && t.size < 0x1_0000_0000_0000_0000
    ensures EntryAt(file, at, t.name, t.kind, t.offset, t.size, t.count)
  {
    hide TableEntryBytes, Num, FromNum, Padded, TableEntryParser;
    var bytes := TableEntryBytes(t, false);
    assert file[at..] == bytes + file[at + |bytes|..];
    TableEntryRoundTrip(t, false, file[at + |bytes|..]);
    forall k | 0 <= k < 17 ensures Padded(t.name)[k] == if k < |t.name| then t.name[k] else 32 {
      PaddedExactly(t.name, k);
    }
  }

  lemma {:induction false} TableHolds(sections: seq<Listed>, i: nat, k: nat, big: bool)
    requires i < k <= |sections| && Excess(sections[..i]) == 0
    ensures At(TableBytes(sections, k, big), 38 * i, TableEntryBytes(EntryOf(sections[i], sections[..i], |sections|), big))
  {
    hide TableEntryBytes, EntryOf, Excess, At;
    var front := TableBytes(sections, k - 1, big);
    var last := TableEntryBytes(EntryOf(sections[k - 1], sections[..k - 1], |sections|), big);
    if i < k - 1 {
      TableHolds(sections, i, k - 1, big);
      AtLeft(front, last, 38 * i, TableEntryBytes(EntryOf(sections[i], sections[..i], |sections|), big));
    } else {
      TableLength(sections, i, big);
      AtAll(last);
      AtRight(front, last, 0, last);
    }
  }

  lemma {:induction false} PrefixFits(sections: seq<Listed>, i: nat)
    requires i <= |sections| && Excess(sections) == 0
    ensures Excess(sections[..i]) == 0
    decreases |sections| - i
  {
    hide NameLen;
    if i < |sections| {
      PrefixFits(sections, i + 1);
      assert sections[..i + 1][..i] == sections[..i];
    } else {
      assert sections[..i] == sections;
    }
  }

  lemma InTable(
    header: seq<Byte>, count: seq<Byte>, table: seq<Byte>, last: seq<Byte>, streams: seq<Byte>, blob: seq<Byte>,
    pos: nat, entry: seq<Byte>)
    requires At(table, pos, entry)
    ensures At(header + (count + (table + last)) + streams + blob, |header| + |count| + pos, entry)
  {
    hide At;
    AtLeft(table, last, pos, entry);
    AtRight(count, table + last, pos, entry);
    AtRight(header, count + (table + last), |count| + pos, entry);
    AtLeft(header + (count + (table + last)), streams, |header| + |count| + pos, entry);
    AtLeft(header + (count + (table + last)) + streams, blob, |header| + |count| + pos, entry);
  }

  lemma FileHoldsTable(sections: seq<Listed>, i: nat)
    requires i < |sections| && Excess(sections) == 0
    ensures At(FileBytes(sections, false), 25 + 38 * i,
               TableEntryBytes(EntryOf(sections[i], sections[..i], |sections|), false))
  {
    hide At, TableBytes, TableEntryBytes, EntryOf, Excess, HeaderBytes, AllStreams, Blob, StoredOffset, Pre;
    var n := |sections|;
    PrefixFits(sections, i);
    TableHolds(sections, i, n, false);
    InTable(HeaderBytes(n, false), [(n + 1) % 256], TableBytes(sections, n, false),
            TableEntryBytes(TableEntry(DATA, 2, StoredOffset(sections, n), Pre(sections), 0), false),
            AllStreams(sections, false), Blob(sections), 38 * i,
            TableEntryBytes(EntryOf(sections[i], sections[..i], n), false));
  }

  /** In a file with a right table, parsing the table entry of section `i` leads to its records: the
      offset is where they start, the size and the count are theirs.  The kind is 0 for "meta" and
      1 for any other name. */
  lemma TableFindsRecords(sections: seq<Listed>, i: nat)
    requires i < |sections| && LayoutRight(sections, false) && Excess(sections) == 0
    requires AllSized(Records(sections[i].entries))
    requires |FileBytes(sections, false)| < 0x1_0000_0000_0000_0000
    ensures EntryAt(FileBytes(sections, false), 25 + 38 * i, NameOf(sections[i]),
                    if NameOf(sections[i]) == [109, 101, 116, 97] then 0 else 1,
                    RecordStart(sections, i, false), |StreamAt(sections, i, false)|, |Records(sections[i].entries)|)
    ensures At(FileBytes(sections, false), RecordStart(sections, i, false), StreamAt(sections, i, false))
  {
    hide TableEntryBytes, FileBytes, RecordStart, StreamAt, StoredOffset, Size, Records, NameOf, Excess, LayoutRight, EntryAt, At;
    FileHoldsTable(sections, i);
    FileHolds(sections, i, false);
    AtEnds(FileBytes(sections, false), RecordStart(sections, i, false), StreamAt(sections, i, false));
    assert EntryRight(sections, i, false) by { LayoutEntry(sections, i, false); }
    EntryFits(sections, i);
    EntryParses(FileBytes(sections, false), 25 + 38 * i, EntryOf(sections[i], sections[..i], |sections|));
  }

  lemma AtEnds(whole: seq<Byte>, pos: nat, piece: seq<Byte>)
    requires At(whole, pos, piece)
    ensures pos + |piece| <= |whole|
  {
  }

  lemma FileHoldsDataEntry(sections: seq<Listed>)
    requires Excess(sections) == 0
    ensures At(FileBytes(sections, false), 25 + 38 * |sections|,
               TableEntryBytes(TableEntry(DATA, 2, StoredOffset(sections, |sections|), Pre(sections), 0), false))
  {
    hide At, TableBytes, TableEntryBytes, Excess, HeaderBytes, AllStreams, Blob, StoredOffset, Pre;
    var n := |sections|;
    var table := TableBytes(sections, n, false);
    var last := TableEntryBytes(TableEntry(DATA, 2, StoredOffset(sections, n), Pre(sections), 0), false);
    assert |table| == 38 * n by {
      TableLength(sections, n, false);
      assert sections[..n] == sections;
    }
    LastInTable(HeaderBytes(n, false), [(n + 1) % 256], table, last, AllStreams(sections, false), Blob(sections));
  }

  lemma LastInTable(
    header: seq<Byte>, count: seq<Byte>, table: seq<Byte>, last: seq<Byte>, streams: seq<Byte>, blob: seq<Byte>)
    ensures At(header + (count + (table + last)) + streams + blob, |header| + |count| + |table|, last)
  {
    hide At;
    AtAll(last);
    AtRight(table, last, 0, last);
    InTable(header, count, table + last, [], streams, blob, |table|, last);
    assert table + last + [] == table + last;
  }

  /** The entry after those of the sections is "data", of kind 2, and leads to the blob; it is the
      only entry of that kind, by which the parser looks for it. */
  lemma TableFindsBlob(sections: seq<Listed>)
    requires LayoutRight(sections, false) && Excess(sections) == 0
    requires |FileBytes(sections, false)| < 0x1_0000_0000_0000_0000
    ensures EntryAt(FileBytes(sections, false), 25 + 38 * |sections|, [100, 97, 116, 97], 2,
                    RecordStart(sections, |sections|, false), |Blob(sections)|, 0)
    ensures At(FileBytes(sections, false), RecordStart(sections, |sections|, false), Blob(sections))
  {
    hide TableEntryBytes, FileBytes, RecordStart, StoredOffset, Blob, Excess, LayoutRight, EntryAt, At, Pre;
    var n := |sections|;
    FileHoldsDataEntry(sections);
    FileHolds(sections, n, false);
    AtEnds(FileBytes(sections, false), RecordStart(sections, n, false), Blob(sections));
    assert sections[..n] == sections;
    assert EntryRight(sections, n, false) by { LayoutEntry(sections, n, false); }
    EntryParses(FileBytes(sections, false), 25 + 38 * n, TableEntry(DATA, 2, StoredOffset(sections, n), Pre(sections), 0));
  }

  /** The number of entries, modulo 256, stands where the header ends, twice in a big-endian file. */
  lemma CountByteExactly(sections: seq<Listed>, big: bool)
    ensures At<Byte>(FileBytes(sections, big), 24, if big then [(|sections| + 1) % 256, (|sections| + 1) % 256]
                                             else [(|sections| + 1) % 256])
  {
    hide At, TableBytes, TableEntryBytes, HeaderBytes, AllStreams, Blob, StoredOffset, Pre;
    var n := |sections|;
    var count: seq<Byte> := if big then [(n + 1) % 256, (n + 1) % 256] else [(n + 1) % 256];
    var table := TableBytes(sections, n, big)
                 + TableEntryBytes(TableEntry(DATA, 2, StoredOffset(sections, n), Pre(sections), 0), big);
    assert SectionHeaderBytes(sections, big) == count + table;
    CountFirst(HeaderBytes(n, big), count, table, AllStreams(sections, big), Blob(sections));
  }

  lemma CountFirst(header: seq<Byte>, count: seq<Byte>, table: seq<Byte>, streams: seq<Byte>, blob: seq<Byte>)
    ensures At(header + (count + table) + streams + blob, |header|, count)
  {
    hide At;
    AtAll(count);
    InTable(header, [], count, table, streams, blob, 0, count);
    assert [] + (count + table) == count + table;
  }

  lemma LayoutEntry(sections: seq<Listed>, i: nat, big: bool)
    requires LayoutRight(sections, big) && i <= |sections|
    ensures EntryRight(sections, i, big)
  {
  }

  /** The fields of a right table entry fit their widths. */
  lemma EntryFits(sections: seq<Listed>, i: nat)
    requires i < |sections| && Excess(sections) == 0 && EntryRight(sections, i, false)
    requires AllSized(Records(sections[i].entries))
    requires RecordStart(sections, i, false) < 0x1_0000_0000_0000_0000
    ensures |NameOf(sections[i])| <= NAME_FIELD && |Records(sections[i].entries)| < 0x1_0000_0000
  {
    hide RecordStart, StoredOffset, AllSized;
    NoExcess(sections);
    assert |NameOf(sections[i])| == NameLen(sections[i]);
    ManyBytes(Records(sections[i].entries), Pre(sections[..i]), false);
  }

  lemma {:induction false} ManyBytes(records: seq<Record>, pre: nat, big: bool)
    requires AllSized(records)
    ensures |Stream(records, pre, big)| >= |records|
  {
    hide RecordBytes;
    if records != [] {
      ManyBytes(records[..|records| - 1], pre, big);
      RecordLength(records[|records| - 1], pre, big);
    }
  }
}
