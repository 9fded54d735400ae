/**
 Flattening a section to an offset-addressed string table and back (`transform.rs`).

 A reference is the length of a string and the total length of the strings before it.  The
 iteration order of a hash table is unspecified: conversion to the table takes the keys in an
 arbitrary order, conversion back is proved for every order.
 */
module EdtTransform {
  import opened Prelude
  import opened EdtIr

  datatype EdtValue =
    | EInt(ilen: Byte, i: IntegerValue)
    | EFloat(flen: Byte, f: FloatingValue)
    | ESeq(len: nat, offset: nat)

  datatype EdtSection = EdtSection(name: EdtValue, entries: map<EdtValue, seq<EdtValue>>, strings: seq<Str>)

  function TotalLen(strings: seq<Str>): nat {
    if strings == [] then 0 else TotalLen(strings[..|strings| - 1]) + |strings[|strings| - 1]|
  }

  lemma TotalLenPush(strings: seq<Str>, s: Str)
    ensures TotalLen(strings + [s]) == TotalLen(strings) + |s|
  {
    assert (strings + [s])[..|strings|] == strings;
  }

  lemma {:induction false} TotalLenFront(strings: seq<Str>)
    requires strings != []
    ensures TotalLen(strings) == |strings[0]| + TotalLen(strings[1..])
  {
    var front, last := strings[..|strings| - 1], strings[|strings| - 1];
    if front != [] {
      TotalLenFront(front);
      assert strings[1..] == front[1..] + [last];
      TotalLenPush(front[1..], last);
    }
  }

  /** The reference names the string at some index of the table. */
  ghost predicate RefersTo(r: EdtValue, strings: seq<Str>, s: Str) {
    r.ESeq? && exists i :: 0 <= i < |strings| && IsAt(r, strings, s, i)
  }

  ghost predicate IsAt(r: EdtValue, strings: seq<Str>, s: Str, i: nat)
    requires r.ESeq? && i < |strings|
  {
    strings[i] == s && r.len == |s| && r.offset == TotalLen(strings[..i])
  }

  ghost predicate Represents(e: EdtValue, v: IRValue, strings: seq<Str>) {
    match v
    case Integer(i) => e == EInt(i.Width(), i)
    case Floating(f) => e == EFloat(f.Width(), f)
    case Text(s) => RefersTo(e, strings, s)
  }

  ghost predicate RepresentAll(es: seq<EdtValue>, vs: seq<IRValue>, strings: seq<Str>) {
    |es| == |vs| && forall i :: 0 <= i < |es| ==> Represents(es[i], vs[i], strings)
  }

  /** One entry of the table stands for one entry of the section. */
  ghost predicate EntryFor(r: EdtValue, es: seq<EdtValue>, k: Str, entries: Entries, strings: seq<Str>) {
    k in entries && RefersTo(r, strings, k) && RepresentAll(es, entries[k], strings)
  }

  /** The string `search_string` finds for a reference. */
  ghost function KeyOf(q: EdtValue, strings: seq<Str>): Str {
    if q.ESeq? && Search(strings, 0, q.offset, q.len).Some? then Search(strings, 0, q.offset, q.len).value else []
  }

  ghost predicate Sound(table: map<EdtValue, seq<EdtValue>>, entries: Entries, strings: seq<Str>) {
    forall r :: r in table ==> EntryFor(r, table[r], KeyOf(r, strings), entries, strings)
  }

  ghost predicate OneEach(table: map<EdtValue, seq<EdtValue>>, strings: seq<Str>) {
    forall r, r' :: r in table && r' in table && KeyOf(r, strings) == KeyOf(r', strings) ==> r == r'
  }

  ghost predicate Complete(table: map<EdtValue, seq<EdtValue>>, entries: Entries, strings: seq<Str>) {
    forall k :: k in entries ==> exists r :: r in table && KeyOf(r, strings) == k
  }

  /** `table` holds exactly the entries of `entries`: each under one reference, and nothing else. */
  ghost predicate EncodesEntries(table: map<EdtValue, seq<EdtValue>>, entries: Entries, strings: seq<Str>) {
    Sound(table, entries, strings) && OneEach(table, strings) && Complete(table, entries, strings)
  }

  ghost predicate Encodes(e: EdtSection, s: SectionValue) {
    RefersTo(e.name, e.strings, s.name) && EncodesEntries(e.entries, s.entries, e.strings)
  }

  // ---------- search_string ----------

  function Search(strings: seq<Str>, cursor: nat, offset: nat, len: nat): Option<Str> {
    if strings == [] then None
    else if cursor == offset && |strings[0]| == len then Some(strings[0])
    else Search(strings[1..], cursor + |strings[0]|, offset, len)
  }

  /** `search_string`. */
  method SearchString(strings: seq<Str>, offset: nat, len: nat) returns (r: Option<Str>)
    ensures r == Search(strings, 0, offset, len)
  {
    var cursor: nat := 0;
    for i := 0 to |strings|
      invariant Search(strings[i..], cursor, offset, len) == Search(strings, 0, offset, len)
    {
      if cursor == offset && |strings[i]| == len {
        return Some(strings[i]);
      }
      cursor := cursor + |strings[i]|;
      assert strings[i..][1..] == strings[i + 1..];
    }
    r := None;
  }

  lemma {:induction false} SearchFrom(strings: seq<Str>, cursor: nat, i: nat)
    requires i < |strings|
    ensures Search(strings, cursor, cursor + TotalLen(strings[..i]), |strings[i]|) == Some(strings[i])
  {
    var offset, len := cursor + TotalLen(strings[..i]), |strings[i]|;
    if i > 0 {
      TotalLenFront(strings[..i]);
      assert strings[..i][1..] == strings[1..][..i - 1];
      SearchFrom(strings[1..], cursor + |strings[0]|, i - 1);
      if cursor == offset && |strings[0]| == len {
        assert strings[0] == strings[i] == [];  // nothing lies between them
      }
    }
  }

  /** A reference determines its string, empty strings included. */
  lemma SearchFindsReferent(r: EdtValue, strings: seq<Str>, s: Str)
    requires RefersTo(r, strings, s)
    ensures Search(strings, 0, r.offset, r.len) == Some(s)
  {
    var i :| 0 <= i < |strings| && IsAt(r, strings, s, i);
    SearchFrom(strings, 0, i);
  }

  // ---------- From<Section> for EdtSection ----------

  lemma RefersToGrows(r: EdtValue, strings: seq<Str>, more: seq<Str>, s: Str)
    requires RefersTo(r, strings, s)
    ensures RefersTo(r, strings + more, s)
  {
    var i :| 0 <= i < |strings| && IsAt(r, strings, s, i);
    assert (strings + more)[..i] == strings[..i];
    assert IsAt(r, strings + more, s, i);
  }

  lemma PushedIsReferred(strings: seq<Str>, s: Str)
    ensures RefersTo(ESeq(|s|, TotalLen(strings)), strings + [s], s)
  {
    assert (strings + [s])[..|strings|] == strings;
    assert IsAt(ESeq(|s|, TotalLen(strings)), strings + [s], s, |strings|);
  }

  lemma RepresentAllGrows(es: seq<EdtValue>, vs: seq<IRValue>, strings: seq<Str>, more: seq<Str>)
    requires RepresentAll(es, vs, strings)
    ensures RepresentAll(es, vs, strings + more)
  {
    forall i | 0 <= i < |es| ensures Represents(es[i], vs[i], strings + more) {
      if vs[i].Text? { RefersToGrows(es[i], strings, more, vs[i].s); }
    }
  }

  /** The values of one key: every string value goes to the end of the table. */
  method ConvertValues(values: seq<IRValue>, strings: seq<Str>, offset: nat)
    returns (es: seq<EdtValue>, strings': seq<Str>, offset': nat)
    requires offset == TotalLen(strings)
    ensures strings <= strings' && offset' == TotalLen(strings')
    ensures RepresentAll(es, values, strings')
  {
    es, strings', offset' := [], strings, offset;
    for i := 0 to |values|
      invariant strings <= strings' && offset' == TotalLen(strings')
      invariant RepresentAll(es, values[..i], strings')
    {
      ghost var before := strings';
      var e: EdtValue;
      match values[i] {
        case Integer(v) =>
          e := match v
            case IByte(_) => EInt(1, v)
            case IWord(_) => EInt(2, v)
            case IDouble(_) => EInt(4, v)
            case IQuad(_) => EInt(8, v);
        case Floating(v) =>
          e := match v
            case FSingle(_) => EFloat(4, v)
            case FDouble(_) => EFloat(8, v);
        case Text(s) =>
          PushedIsReferred(strings', s);
          TotalLenPush(strings', s);
          strings' := strings' + [s];
          e := ESeq(|s|, offset');
          offset' := offset' + |s|;
      }
      assert strings' == before + strings'[|before|..];
      RepresentAllGrows(es, values[..i], before, strings'[|before|..]);
      es := es + [e];
      assert values[..i + 1] == values[..i] + [values[i]];
    }
    assert values[..|values|] == values;
  }

  ghost function Sub(entries: Entries, keys: set<Str>): Entries {
    map k | k in entries && k in keys :: entries[k]
  }

  /** An entry met earlier still stands for its key after the table of strings has grown. */
  lemma EntryKept(
    q: EdtValue, es: seq<EdtValue>, k: Str, entries: Entries, done: set<Str>, done': set<Str>,
    strings: seq<Str>, strings': seq<Str>)
    requires EntryFor(q, es, k, Sub(entries, done), strings) && strings <= strings' && done <= done'
    ensures EntryFor(q, es, k, Sub(entries, done'), strings')
    ensures Search(strings', 0, q.offset, q.len) == Some(k)
  {
    var more := strings'[|strings|..];
    assert strings' == strings + more;
    RefersToGrows(q, strings, more, k);
    RepresentAllGrows(es, entries[k], strings, more);
    SearchFindsReferent(q, strings', k);
  }

  /** Entries met earlier still stand for the same keys. */
  lemma EntriesKept(
    table: map<EdtValue, seq<EdtValue>>, entries: Entries, done: set<Str>, done': set<Str>,
    strings: seq<Str>, strings': seq<Str>)
    requires Sound(table, Sub(entries, done), strings) && strings <= strings' && done <= done'
    ensures Sound(table, Sub(entries, done'), strings')
    ensures forall q :: q in table ==> KeyOf(q, strings') == KeyOf(q, strings) && KeyOf(q, strings) in done
  {
    forall q | q in table
      ensures EntryFor(q, table[q], KeyOf(q, strings'), Sub(entries, done'), strings')
      ensures KeyOf(q, strings') == KeyOf(q, strings) && KeyOf(q, strings) in done
    {
      EntryKept(q, table[q], KeyOf(q, strings), entries, done, done', strings, strings');
    }
  }

  lemma StillOneEach(
    table: map<EdtValue, seq<EdtValue>>, strings: seq<Str>, strings': seq<Str>, r: EdtValue, es: seq<EdtValue>)
    requires OneEach(table, strings)
    requires forall q :: q in table ==> KeyOf(q, strings') == KeyOf(q, strings) && KeyOf(q, strings) != KeyOf(r, strings')
    ensures OneEach(table[r := es], strings')
  {
  }

  lemma StillComplete(
    table: map<EdtValue, seq<EdtValue>>, entries: Entries, done: set<Str>, strings: seq<Str>,
    r: EdtValue, es: seq<EdtValue>, strings': seq<Str>)
    requires Complete(table, Sub(entries, done), strings)
    requires forall q :: q in table ==> KeyOf(q, strings') == KeyOf(q, strings)
    ensures Complete(table[r := es], Sub(entries, done + {KeyOf(r, strings')}), strings')
  {
    var k := KeyOf(r, strings');
    forall x | x in Sub(entries, done + {k}) ensures exists q :: q in table[r := es] && KeyOf(q, strings') == x {
      if x == k {
        assert r in table[r := es];
      } else {
        assert x in Sub(entries, done);
        var q :| q in table && KeyOf(q, strings) == x;
        assert q in table[r := es];
      }
    }
  }

  /** The table grows by one entry under a fresh reference. */
  lemma EntryAdded(
    table: map<EdtValue, seq<EdtValue>>, entries: Entries, done: set<Str>, strings: seq<Str>,
    k: Str, r: EdtValue, es: seq<EdtValue>, strings': seq<Str>)
    requires EncodesEntries(table, Sub(entries, done), strings) && strings <= strings'
    requires k in entries && k !in done && RefersTo(r, strings', k) && RepresentAll(es, entries[k], strings')
    ensures EncodesEntries(table[r := es], Sub(entries, done + {k}), strings')
  {
    SearchFindsReferent(r, strings', k);
    EntriesKept(table, entries, done, done + {k}, strings, strings');
    StillOneEach(table, strings, strings', r, es);
    StillComplete(table, entries, done, strings, r, es, strings');
  }

  /** `From<Section> for EdtSection`; the keys come in whatever order the hash table has. */
  method ToEdt(section: Section) returns (e: EdtSection)
    ensures Encodes(e, section.Value())
  {
    var strings: seq<Str> := [section.name];
    var offset := |section.name|;
    PushedIsReferred([], section.name);
    TotalLenPush([], section.name);
    assert [] + [section.name] == strings;
    var name := ESeq(|section.name|, 0);
    var table: map<EdtValue, seq<EdtValue>> := map[];
    var todo, entries := section.entries.Keys, section.entries;
    ghost var done: set<Str> := {};
    while todo != {}
      invariant todo + done == entries.Keys && todo !! done
      invariant offset == TotalLen(strings) && RefersTo(name, strings, section.name)
      invariant EncodesEntries(table, Sub(entries, done), strings)
      decreases todo
    {
      ghost var before := strings;
      var key :| key in todo;
      PushedIsReferred(strings, key);
      TotalLenPush(strings, key);
      strings := strings + [key];
      var entryKey := ESeq(|key|, offset);
      ghost var pushed := strings;
      offset := offset + |key|;
      var values;
      values, strings, offset := ConvertValues(entries[key], strings, offset);
      RefersToGrows(entryKey, pushed, strings[|pushed|..], key);
      RefersToGrows(name, before, strings[|before|..], section.name);
      assert pushed + strings[|pushed|..] == strings && before + strings[|before|..] == strings;
      EntryAdded(table, entries, done, before, key, entryKey, values, strings);
      table := table[entryKey := values];
      todo, done := todo - {key}, done + {key};
    }
    assert Sub(entries, done) == entries;
    e := EdtSection(name, table, strings);
  }

  // ---------- From<EdtSection> for Section ----------

  function RestoreValue(e: EdtValue, strings: seq<Str>): Option<IRValue> {
    match e
    case EInt(_, i) => Some(Integer(i))
    case EFloat(_, f) => Some(Floating(f))
    case ESeq(len, offset) =>
      match Search(strings, 0, offset, len)
      case None => None
      case Some(s) => Some(Text(s))
  }

  function RestoreValues(es: seq<EdtValue>, strings: seq<Str>): Option<seq<IRValue>> {
    if es == [] then Some([])
    else
      match (RestoreValues(es[..|es| - 1], strings), RestoreValue(es[|es| - 1], strings))
      case (Some(vs), Some(v)) => Some(vs + [v])
      case _ => None
  }

  /** The entries met so far, `None` when the source panics. */
  function RestoreEntries(order: seq<EdtValue>, e: EdtSection): Option<Entries>
    requires forall r :: r in order ==> r in e.entries
  {
    if order == [] then Some(map[])
    else
      var r := order[|order| - 1];
      match RestoreEntries(order[..|order| - 1], e)
      case None => None
      case Some(acc) =>
        if !r.ESeq? then None
        else
          match (Search(e.strings, 0, r.offset, r.len), RestoreValues(e.entries[r], e.strings))
          case (Some(k), Some(vs)) => Some(PushedAll(acc, k, vs))
          case _ => None
  }

  function Restore(e: EdtSection, order: seq<EdtValue>): Option<SectionValue>
    requires forall r :: r in order ==> r in e.entries
  {
    if !e.name.ESeq? then None
    else
      match (Search(e.strings, 0, e.name.offset, e.name.len), RestoreEntries(order, e))
      case (Some(name), Some(entries)) => Some(SectionValue(name, entries))
      case _ => None
  }

  /** The inner loop: every value of one entry is added under its key. */
  method AddValues(section: Section, key: Str, es: seq<EdtValue>, strings: seq<Str>) returns (ok: bool)
    modifies section
    ensures ok <==> RestoreValues(es, strings).Some?
    ensures ok ==> section.entries == PushedAll(old(section.entries), key, RestoreValues(es, strings).value)
  {
    ghost var restored: seq<IRValue> := [];
    for j := 0 to |es|
      invariant RestoreValues(es[..j], strings) == Some(restored)
      invariant section.entries == PushedAll(old(section.entries), key, restored)
    {
      assert es[..j + 1][..j] == es[..j];
      var v: IRValue;
      match es[j] {
        case EInt(_, n) => v := Integer(n);
        case EFloat(_, f) => v := Floating(f);
        case ESeq(len, offset) =>
          var s := SearchString(strings, offset, len);
          if s.None? {
            ValuesFail(es, j + 1, strings);
            return false;
          }
          v := Text(s.value);
      }
      section.AddEntry(key, v);
      assert (restored + [v])[..|restored|] == restored;
      restored := restored + [v];
    }
    assert es[..|es|] == es;
    ok := true;
  }

  /** `From<EdtSection> for Section`, visiting the entries in the given order. */
  method FromEdt(e: EdtSection, order: seq<EdtValue>) returns (r: Option<Section>)
    requires forall k :: k in order ==> k in e.entries
    ensures r.None? <==> Restore(e, order).None?
    ensures r.Some? ==> fresh(r.value) && r.value.Value() == Restore(e, order).value
  {
    if !e.name.ESeq? { return None; }
    var name := SearchString(e.strings, e.name.offset, e.name.len);
    if name.None? { return None; }
    var section := new Section(name.value);
    for i := 0 to |order|
      invariant fresh(section) && RestoreEntries(order[..i], e) == Some(section.entries)
    {
      assert order[..i + 1][..i] == order[..i];
      if !order[i].ESeq? {
        RestoreFails(order, i + 1, e);
        return None;
      }
      var key := SearchString(e.strings, order[i].offset, order[i].len);
      if key.None? {
        RestoreFails(order, i + 1, e);
        return None;
      }
      var ok := AddValues(section, key.value, e.entries[order[i]], e.strings);
      if !ok {
        RestoreFails(order, i + 1, e);
        return None;
      }
    }
    assert order[..|order|] == order;
    r := Some(section);
  }

  lemma {:induction false} ValuesFail(es: seq<EdtValue>, n: nat, strings: seq<Str>)
    requires n <= |es| && RestoreValues(es[..n], strings).None?
    ensures RestoreValues(es, strings).None?
    decreases |es| - n
  {
    if n < |es| {
      assert es[..n + 1][..n] == es[..n];
      ValuesFail(es, n + 1, strings);
    } else {
      assert es[..n] == es;
    }
  }

  lemma {:induction false} RestoreFails(order: seq<EdtValue>, n: nat, e: EdtSection)
    requires n <= |order| && (forall r :: r in order ==> r in e.entries)
    requires RestoreEntries(order[..n], e).None?
    ensures RestoreEntries(order, e).None?
    decreases |order| - n
  {
    if n < |order| {
      assert order[..n + 1][..n] == order[..n];
      RestoreFails(order, n + 1, e);
    } else {
      assert order[..n] == order;
    }
  }

  // ---------- there and back ----------

  lemma {:induction false} ValuesComeBack(es: seq<EdtValue>, vs: seq<IRValue>, strings: seq<Str>)
    requires RepresentAll(es, vs, strings)
    ensures RestoreValues(es, strings) == Some(vs)
  {
    if es != [] {
      var n := |es| - 1;
      ValuesComeBack(es[..n], vs[..n], strings);
      assert Represents(es[n], vs[n], strings);
      if vs[n].Text? { SearchFindsReferent(es[n], strings, vs[n].s); }
      assert vs == vs[..n] + [vs[n]];
    }
  }

  /** The keys named by a list of references. */
  ghost function Named(order: seq<EdtValue>, strings: seq<Str>): set<Str> {
    set r | r in order :: KeyOf(r, strings)
  }

  /** `acc` holds what `entries` holds, for the given keys only. */
  ghost predicate Part(acc: Entries, entries: Entries, keys: set<Str>) {
    acc.Keys == keys && forall k :: k in acc ==> k in entries && acc[k] == entries[k]
  }

  /** Visiting one more entry adds its key and values. */
  lemma EntryComesBack(r: EdtValue, es: seq<EdtValue>, strings: seq<Str>, entries: Entries, acc: Entries)
    requires EntryFor(r, es, KeyOf(r, strings), entries, strings) && Reachable(entries)
    requires KeyOf(r, strings) !in acc
    ensures r.ESeq? && Search(strings, 0, r.offset, r.len) == Some(KeyOf(r, strings))
    ensures RestoreValues(es, strings) == Some(entries[KeyOf(r, strings)])
    ensures PushedAll(acc, KeyOf(r, strings), entries[KeyOf(r, strings)])
         == acc[KeyOf(r, strings) := entries[KeyOf(r, strings)]]
  {
    var k := KeyOf(r, strings);
    SearchFindsReferent(r, strings, k);
    ValuesComeBack(es, entries[k], strings);
    PushedAllIsOneList(acc, k, entries[k]);
  }

  lemma {:induction false} EntriesComeBack(order: seq<EdtValue>, e: EdtSection, entries: Entries)
    requires EncodesEntries(e.entries, entries, e.strings) && Reachable(entries)
    requires forall r :: r in order ==> r in e.entries
    requires forall i, j :: 0 <= i < j < |order| ==> order[i] != order[j]
    ensures RestoreEntries(order, e).Some?
    ensures Part(RestoreEntries(order, e).value, entries, Named(order, e.strings))
  {
    if order != [] {
      var n := |order| - 1;
      var front, r := order[..n], order[n];
      EntriesComeBack(front, e, entries);
      assert order == front + [r];
      NamedSnoc(front, r, e.strings);
      var acc := RestoreEntries(front, e).value;
      assert KeyOf(r, e.strings) !in Named(front, e.strings);
      EntryComesBack(r, e.entries[r], e.strings, entries, acc);
    }
  }

  lemma NamedSnoc(front: seq<EdtValue>, r: EdtValue, strings: seq<Str>)
    ensures Named(front + [r], strings) == Named(front, strings) + {KeyOf(r, strings)}
  {
    assert r in front + [r];
  }

  /** Every section `add_entry` can build comes back unchanged, in whatever order it is visited. */
  lemma SectionComesBack(e: EdtSection, s: SectionValue, order: seq<EdtValue>)
    requires Encodes(e, s) && Reachable(s.entries) && Enumerates(order, e.entries.Keys)
    ensures Restore(e, order) == Some(s)
  {
    SearchFindsReferent(e.name, e.strings, s.name);
    EntriesComeBack(order, e, s.entries);
    forall k | k in s.entries ensures k in Named(order, e.strings) {
      var r :| r in e.entries && KeyOf(r, e.strings) == k;
      assert r in order;
    }
    PartOfAll(RestoreEntries(order, e).value, s.entries, Named(order, e.strings));
  }

  lemma PartOfAll(acc: Entries, entries: Entries, keys: set<Str>)
    requires Part(acc, entries, keys) && forall k :: k in entries ==> k in keys
    ensures acc == entries
  {
    assert acc.Keys == entries.Keys;
  }

  /** The two conversions one after the other. */
  method RoundTrip(section: Section) returns (back: Option<Section>)
    ensures Reachable(section.entries) ==> back.Some? && back.value.Value() == section.Value()
  {
    var e := ToEdt(section);
    var todo := e.entries.Keys;
    var order: seq<EdtValue> := [];
    while todo != {}
      invariant todo <= e.entries.Keys && Enumerates(order, e.entries.Keys - todo)
      decreases todo
    {
      var r :| r in todo;
      order, todo := order + [r], todo - {r};
    }
    back := FromEdt(e, order);
    if Reachable(section.entries) {
      SectionComesBack(e, section.Value(), order);
    }
  }
}
