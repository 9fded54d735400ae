/**
 Parsing EDC text into sections (`EdcParser::parse` and `parse_section` in `parser.rs`), and the
 canonical text of a section.
 */
module Edc {
  import opened Prelude
  import opened EdtIr
  import opened EdcSyntax
  import opened EdcCheck
  import Utf8

  /** A parser accepts, fails with a recoverable error, or panics. */
  datatype Outcome<+T> = Accepted(value: T) | Rejected | Panicked

  // ---------- typing of properties ----------

  predicate CountKey(key: Str) { key == Ascii("outputs") || key == Ascii("inputs") }

  predicate FlagKey(key: Str) {
    key == Ascii("lazy") || key == Ascii("persistent") || key == Ascii("lazypar") || key == Ascii("persistentpar")
  }

  predicate AllDigits(value: Str) { forall i :: 0 <= i < |value| ==> 48 <= value[i] < 58 }

  type Digits = s: Str | AllDigits(s)

  function Number(digits: Digits): nat {
    if digits == [] then 0 else Number(digits[..|digits| - 1]) * 10 + (digits[|digits| - 1] - 48)
  }

  /** `parse::<u32>` of digits overflows, or has nothing to parse: the `unwrap` panics. */
  function TypedValue(p: Property): Outcome<IRValue> {
    if CountKey(p.key) then
      if !AllDigits(p.value) then Rejected
      else if p.value == [] || Number(p.value) >= 0x1_0000_0000 then Panicked
      else Accepted(Integer(IDouble(Number(p.value))))
    else if FlagKey(p.key) then
      if p.value == Ascii("true") then Accepted(Integer(IByte(1)))
      else if p.value == Ascii("false") then Accepted(Integer(IByte(0)))
      else Rejected
    else Accepted(Text(p.value))
  }

  /** The entries of a property list; its first bad property decides. */
  function Typed(ps: seq<Property>): Outcome<Entries> {
    if ps == [] then Accepted(map[])
    else
      match Typed(ps[..|ps| - 1])
      case Rejected => Rejected
      case Panicked => Panicked
      case Accepted(entries) =>
        var last := ps[|ps| - 1];
        match TypedValue(last)
        case Rejected => Rejected
        case Panicked => Panicked
        case Accepted(v) => Accepted(Pushed(entries, last.key, v))
  }

  function Keys(ps: seq<Property>): seq<Str> {
    seq(|ps|, i requires 0 <= i < |ps| => ps[i].key)
  }

  lemma TypedPush(ps: seq<Property>, p: Property)
    ensures Typed(ps + [p]) == match Typed(ps)
                               case Rejected => Rejected
                               case Panicked => Panicked
                               case Accepted(entries) =>
                                 match TypedValue(p)
                                 case Rejected => Rejected
                                 case Panicked => Panicked
                                 case Accepted(v) => Accepted(Pushed(entries, p.key, v))
  {
    assert (ps + [p])[..|ps|] == ps;
  }

  /** A bad property stays bad whatever follows. */
  lemma {:induction false} TypedStops(ps: seq<Property>, more: seq<Property>)
    requires !Typed(ps).Accepted?
    ensures Typed(ps + more) == Typed(ps)
  {
    if more == [] {
      assert ps + more == ps;
    } else {
      var n := |more| - 1;
      TypedStops(ps, more[..n]);
      assert ps + more == (ps + more[..n]) + [more[n]];
      TypedPush(ps + more[..n], more[n]);
    }
  }

  // ---------- parse_section ----------

  /** What a syntactically complete section means. */
  function Interpret(raw: RawSection): Outcome<SectionValue> {
    match Typed(raw.properties)
    case Rejected => Rejected
    case Panicked => Panicked
    case Accepted(entries) =>
      match CheckVerdict(raw.name, entries, Keys(raw.properties))
      case Pass => Accepted(SectionValue(raw.name, Defaults(raw.name, entries)))
      case Fail => Rejected
      case Panic => Panicked
  }

  lemma {:induction false} KeysAre(ps: seq<Property>)
    requires Typed(ps).Accepted?
    ensures forall k :: k in Keys(ps) <==> k in Typed(ps).value
  {
    hide TypedValue;
    if ps != [] {
      var n := |ps| - 1;
      KeysAre(ps[..n]);
      assert Keys(ps) == Keys(ps[..n]) + [ps[n].key];
    }
  }

  /** The loop of `parse_section` over the properties, on a new section. */
  method AddProperties(section: Section, ps: seq<Property>) returns (outcome: Outcome<seq<Str>>)
    requires section.entries == map[]
    modifies section
    ensures outcome == match Typed(ps)
                       case Rejected => Rejected
                       case Panicked => Panicked
                       case Accepted(_) => Accepted(Keys(ps))
    ensures outcome.Accepted? ==> Typed(ps) == Accepted(section.entries)
  {
    hide Number, AllDigits, Ascii, Typed;
    NoProperties();
    var keys: seq<Str> := [];
    for i := 0 to |ps|
      invariant Typed(ps[..i]) == Accepted(section.entries) && keys == Keys(ps[..i])
    {
      var key, value := ps[i].key, ps[i].value;
      assert ps[..i + 1] == ps[..i] + [ps[i]];
      TypedPush(ps[..i], ps[i]);
      assert !TypedValue(ps[i]).Accepted? ==> Typed(ps) == Typed(ps[..i + 1]) by {
        if !TypedValue(ps[i]).Accepted? {
          TypedStops(ps[..i + 1], ps[i + 1..]);
          assert ps == ps[..i + 1] + ps[i + 1..];
        }
      }
      if CountKey(key) {
        if !AllDigits(value) { return Rejected; }
        if value == [] || Number(value) >= 0x1_0000_0000 { return Panicked; }
        section.AddEntry(key, Integer(IDouble(Number(value))));
      } else if FlagKey(key) {
        if value == Ascii("true") { section.AddEntry(key, Integer(IByte(1))); }
        else if value == Ascii("false") { section.AddEntry(key, Integer(IByte(0))); }
        else { return Rejected; }
      } else {
        section.AddEntry(key, Text(value));
      }
      keys := keys + [key];
      assert Keys(ps[..i + 1]) == Keys(ps[..i]) + [key];
    }
    assert ps[..|ps|] == ps;
    outcome := Accepted(keys);
  }

  /** `parse_section`: the section and the text after it. */
  method ParseSection(input: Str) returns (outcome: Outcome<(Section, Str)>)
    ensures ParseRaw(input) == None ==> outcome == Rejected
    ensures ParseRaw(input).Some? ==>
              match Interpret(ParseRaw(input).value.0)
              case Rejected => outcome == Rejected
              case Panicked => outcome == Panicked
              case Accepted(s) => outcome.Accepted? && outcome.value.0.Value() == s
                                  && outcome.value.1 == ParseRaw(input).value.1
  {
    hide TypedValue, Typed, CheckVerdict;
    var header := ParseName(input);
    if header == None { return Rejected; }
    var section := new Section(header.value.0);
    var (ps, rest) := ParseProperties(header.value.1);
    var keys := AddProperties(section, ps);
    match keys
    case Rejected => return Rejected;
    case Panicked => return Panicked;
    case Accepted(ks) =>
      KeysAre(ps);
      var verdict := Check(section, ks);
      match verdict
      case Pass => return Accepted((section, rest));
      case Fail => return Rejected;
      case Panic => return Panicked;
  }

  // ---------- parse ----------

  datatype Parse = Parsed(sections: seq<SectionValue>, left: Str) | Aborted
  {
    function After(s: SectionValue): Parse {
      match this case Aborted => Aborted case Parsed(ss, left) => Parsed([s] + ss, left)
    }
  }

  /** `many0(parse_section)`: `parse` returns the sections and forgets the text left over. */
  function ParseAll(t: Str): Parse
    decreases |t|
  {
    match ParseRaw(t)
    case None => Parsed([], t)
    case Some(step) =>
      RawShrinks(t, step.0, step.1);
      match Interpret(step.0)
      case Rejected => Parsed([], t)
      case Panicked => Aborted
      case Accepted(s) => ParseAll(step.1).After(s)
  }

  /** `EdcParser::parse` on the text of the file. */
  function ParseText(text: seq<Utf8.Rune>): Parse { ParseAll(Utf8.Encode(Utf8.Strip(text))) }

  /** The meaning of a document: its sections up to the first that is not accepted. */
  function Meaning(ss: seq<RawSection>): Parse {
    if ss == [] then Parsed([], [])
    else
      match Interpret(ss[0])
      case Rejected => Parsed([], PrintDocument(ss))
      case Panicked => Aborted
      case Accepted(s) => Meaning(ss[1..]).After(s)
  }

  /** Parsing a printed document gives its meaning. */
  lemma {:induction false} PrintedDocument(ss: seq<RawSection>)
    requires forall s :: s in ss ==> s.WellFormed()
    ensures ParseAll(PrintDocument(ss)) == Meaning(ss)
  {
    hide ParseRaw, Interpret, RawSection.WellFormed, RawSection.Print, ParseProperty, PrintDocument, ParseName;
    var t := PrintDocument(ss);
    if ss == [] {
      EmptyDocument();
    } else {
      DocumentIs(ss);
      var rest := PrintDocument(ss[1..]);
      DocumentStart(ss[1..]);
      NoPropertyAtBracket(rest);
      RawExactly(t, ss[0], rest);
      PrintedDocument(ss[1..]);
    }
  }

  lemma EmptyDocument()
    ensures PrintDocument([]) == [] && ParseRaw([]) == None
  {
  }

  lemma DocumentIs(ss: seq<RawSection>)
    requires ss != []
    ensures PrintDocument(ss) == ss[0].Print() + PrintDocument(ss[1..])
  {
  }

  /** The text that was taken is the printed form of the sections returned, and what is left starts
      with no acceptable section. */
  ghost predicate Took(t: Str, raws: seq<RawSection>, sections: seq<SectionValue>, left: Str) {
    && t == PrintDocument(raws) + left && |raws| == |sections|
    && (forall i :: 0 <= i < |raws| ==> raws[i].WellFormed() && Interpret(raws[i]) == Accepted(sections[i]))
    && match ParseRaw(left) case None => true case Some(step) => Interpret(step.0) == Rejected
  }

  lemma {:induction false} TextTaken(t: Str) returns (raws: seq<RawSection>)
    requires ParseAll(t).Parsed?
    ensures Took(t, raws, ParseAll(t).sections, ParseAll(t).left)
    decreases |t|
  {
    hide ParseRaw, Interpret, RawSection.WellFormed, RawSection.Print, ParseProperty;
    raws := [];
    match ParseRaw(t)
    case None =>
    case Some(step) =>
      RawShrinks(t, step.0, step.1);
      if s :| Interpret(step.0) == Accepted(s) {
        RawExactly(t, step.0, step.1);
        var more := TextTaken(step.1);
        raws := [step.0] + more;
        DocumentIs(raws);
        assert raws[1..] == more;
        Assoc(step.0.Print(), PrintDocument(more), ParseAll(step.1).left);
      }
  }

  // ---------- canonical text of a section ----------

  function Show(v: IRValue): Str {
    match v
    case Integer(IDouble(n)) => Ascii(Decimal(n))
    case Integer(IByte(b)) => if b == 1 then Ascii("true") else Ascii("false")
    case Text(s) => s
    case _ => []
  }

  /** The empty name or description of a section "meta" is not written. */
  predicate Omitted(name: Str, key: Str, vs: seq<IRValue>) {
    name == Ascii("meta") && (key == Ascii("name") || key == Ascii("description")) && vs == [Text([])]
  }

  function PropertiesOf(key: Str, vs: seq<IRValue>): seq<Property> {
    seq(|vs|, i requires 0 <= i < |vs| => Property(key, Show(vs[i])))
  }

  function Properties(s: SectionValue, order: seq<Str>): seq<Property> {
    if order == [] then []
    else
      var k := order[|order| - 1];
      Properties(s, order[..|order| - 1])
      + if k in s.entries && !Omitted(s.name, k, s.entries[k]) then PropertiesOf(k, s.entries[k]) else []
  }

  /** The section with its keys in the order given. */
  function Raw(s: SectionValue, order: seq<Str>): RawSection {
    RawSection(s.name, Properties(s, order))
  }

  ghost predicate PrintableKey(key: Str) { NoBlank(key) && EQUALS !in key && (key != [] ==> key[0] != OPEN) }

  ghost predicate PrintableValue(key: Str, v: IRValue) {
    if CountKey(key) then v.Integer? && v.i.IDouble?
    else if FlagKey(key) then v == Integer(IByte(0)) || v == Integer(IByte(1))
    else v.Text? && v.s != [] && SEMICOLON !in v.s && NoBlank(v.s)
  }

  ghost predicate PrintableList(key: Str, vs: seq<IRValue>) {
    PrintableKey(key) && vs != [] && forall v :: v in vs ==> PrintableValue(key, v)
  }

  /** A valid section whose keys and values the grammar and the typing can express. */
  ghost predicate Printable(s: SectionValue) {
    && ValidSection(s.name, s.entries)
    && forall k :: k in s.entries ==> Omitted(s.name, k, s.entries[k]) || PrintableList(k, s.entries[k])
  }

  // ---------- what is accepted is printable ----------

  /** Two properties or more do not fold into one key with one value. */
  lemma {:induction false} OnePropertyExactly(ps: seq<Property>, key: Str)
    requires Typed(ps).Accepted?
    ensures |ps| == 1 && key in Typed(ps).value <==> Typed(ps).value.Keys == {key} && |Typed(ps).value[key]| == 1
  {
    hide TypedValue;
    if ps != [] {
      var n := |ps| - 1;
      var front, last := ps[..n], ps[n];
      var e := Typed(front).value;
      var values := Typed(ps).value;
      assert values == Pushed(e, last.key, TypedValue(last).value);
      if n == 0 {
        assert e == map[];
      } else {
        KeysAre(front);
        TypedNonempty(front);
        var first := Keys(front)[0];
        assert first in e && first in values.Keys && last.key in values.Keys;
        assert first == last.key ==> |values[first]| == |e[first]| + 1 >= 2;
      }
    }
  }

  lemma {:induction false} TypedNonempty(ps: seq<Property>)
    requires Typed(ps).Accepted?
    ensures Reachable(Typed(ps).value)
  {
    hide TypedValue;
    if ps != [] { TypedNonempty(ps[..|ps| - 1]); }
  }

  lemma CheckOfTyped(name: Str, ps: seq<Property>)
    requires Typed(ps).Accepted?
    ensures CheckVerdict(name, Typed(ps).value, Keys(ps)) == Pass
       <==> ValidSection(name, Defaults(name, Typed(ps).value))
  {
    OnePropertyExactly(ps, Ascii("proc"));
    CheckExactly(name, Typed(ps).value, Keys(ps));
  }

  lemma {:induction false} TypedPrintable(ps: seq<Property>)
    requires Typed(ps).Accepted? && forall p :: p in ps ==> p.WellFormed() && Plain(p)
    ensures forall k :: k in Typed(ps).value ==> PrintableList(k, Typed(ps).value[k])
  {
    hide TypedValue, PrintableKey, PrintableValue, Property.WellFormed, Plain, NoBlank;
    if ps != [] {
      var n := |ps| - 1;
      TypedPrintable(ps[..n]);
      assert ps[n] in ps;
      TypedValuePrintable(ps[n]);
    }
  }

  lemma TypedValuePrintable(p: Property)
    requires TypedValue(p).Accepted? && p.WellFormed() && Plain(p)
    ensures PrintableKey(p.key) && PrintableValue(p.key, TypedValue(p).value)
  {
  }

  /** Whatever `parse_section` accepts is printable. */
  lemma AcceptedIsPrintable(raw: RawSection)
    requires raw.WellFormed() && PlainSection(raw) && Interpret(raw).Accepted?
    ensures Printable(Interpret(raw).value)
  {
    hide Typed, CheckVerdict, ValidSection, PrintableList, Ascii;
    CheckOfTyped(raw.name, raw.properties);
    TypedPrintable(raw.properties);
  }

  // ---------- what is printable is accepted ----------

  lemma {:induction false} NumberOfDecimal(n: nat)
    ensures AllDigits(Ascii(Decimal(n))) && Ascii(Decimal(n)) != [] && Number(Ascii(Decimal(n))) == n
  {
    if n >= 10 {
      NumberOfDecimal(n / 10);
      DecimalPush(n);
      NumberPush(Ascii(Decimal(n / 10)), 48 + n % 10);
    } else {
      AsciiPush([], Digit(n));
      NumberPush([], 48 + n);
    }
  }

  lemma DecimalPush(n: nat)
    requires n >= 10
    ensures Ascii(Decimal(n)) == Ascii(Decimal(n / 10)) + [48 + n % 10]
  {
    AsciiPush(Decimal(n / 10), Digit(n % 10));
  }

  lemma NumberPush(digits: Digits, d: Byte)
    requires 48 <= d < 58
    ensures AllDigits(digits + [d]) && Number(digits + [d]) == Number(digits) * 10 + (d - 48)
  {
    assert (digits + [d])[..|digits|] == digits;
  }

  lemma AsciiPush(s: string, c: char)
    ensures Ascii(s + [c]) == Ascii(s) + [(c as int) % 256] && Ascii([c]) == [(c as int) % 256]
  {
  }

  /** A printed property has the grammar's form, and is typed as what was printed. */
  lemma ShownIsTyped(key: Str, v: IRValue)
    requires PrintableKey(key) && PrintableValue(key, v)
    ensures Property(key, Show(v)).WellFormed() && TypedValue(Property(key, Show(v))) == Accepted(v)
    ensures Plain(Property(key, Show(v)))
  {
    hide Decimal, Number;
    hide NoBlank;
    if CountKey(key) {
      NumberOfDecimal(v.i.d);
      AsciiIsPlain(Show(v));
      hide Ascii;
    } else if FlagKey(key) {
      AsciiIsPlain(Show(v));
    }
  }

  lemma {:induction false} ListIsTyped(ps: seq<Property>, key: Str, vs: seq<IRValue>)
    requires Typed(ps).Accepted? && PrintableKey(key) && forall v :: v in vs ==> PrintableValue(key, v)
    ensures Typed(ps + PropertiesOf(key, vs)) == Accepted(PushedAll(Typed(ps).value, key, vs))
    ensures forall p :: p in PropertiesOf(key, vs) ==> p.WellFormed() && Plain(p)
  {
    hide PrintableKey, PrintableValue, Show, TypedValue, Property.WellFormed, Plain, Typed;
    if vs == [] {
      assert ps + PropertiesOf(key, vs) == ps;
    } else {
      var n := |vs| - 1;
      var p := Property(key, Show(vs[n]));
      ListIsTyped(ps, key, vs[..n]);
      assert vs[n] in vs;
      ShownIsTyped(key, vs[n]);
      assert PropertiesOf(key, vs) == PropertiesOf(key, vs[..n]) + [p];
      Assoc(ps, PropertiesOf(key, vs[..n]), [p]);
      TypedPush(ps + PropertiesOf(key, vs[..n]), p);
    }
  }

  /** The entries that are written. */
  function Written(s: SectionValue, order: seq<Str>): Entries {
    map k | k in order && k in s.entries && !Omitted(s.name, k, s.entries[k]) :: s.entries[k]
  }

  lemma {:induction false} PropertiesAreTyped(s: SectionValue, order: seq<Str>)
    requires forall k :: k in order ==> k in s.entries
    requires forall k :: k in s.entries ==> Omitted(s.name, k, s.entries[k]) || PrintableList(k, s.entries[k])
    requires forall i, j :: 0 <= i < j < |order| ==> order[i] != order[j]
    ensures Typed(Properties(s, order)) == Accepted(Written(s, order))
    ensures forall p :: p in Properties(s, order) ==> p.WellFormed() && Plain(p)
  {
    hide Omitted, PropertiesOf, Property.WellFormed, Plain, Typed;
    if order == [] {
      assert Typed([]) == Accepted(map[]) by { NoProperties(); }
      assert Written(s, order) == map[];
    } else {
      var n := |order| - 1;
      var k, front := order[n], order[..n];
      PropertiesAreTyped(s, front);
      assert order == front + [k];
      WrittenPush(s, front, k);
      hide Written, PrintableList;
      if !Omitted(s.name, k, s.entries[k]) {
        assert PrintableList(k, s.entries[k]);
        PrintableListIs(k, s.entries[k]);
        ListIsTyped(Properties(s, front), k, s.entries[k]);
        PushedAllIsOneList(Written(s, front), k, s.entries[k]);
      } else {
        assert Properties(s, order) == Properties(s, front);
      }
    }
  }

  lemma PrintableListIs(key: Str, vs: seq<IRValue>)
    requires PrintableList(key, vs)
    ensures PrintableKey(key) && vs != [] && forall v :: v in vs ==> PrintableValue(key, v)
  {
  }

  lemma WrittenPush(s: SectionValue, front: seq<Str>, k: Str)
    requires k !in front && k in s.entries
    ensures k !in Written(s, front)
    ensures Written(s, front + [k]) == if Omitted(s.name, k, s.entries[k]) then Written(s, front)
                                       else Written(s, front)[k := s.entries[k]]
  {
  }

  lemma NoProperties()
    ensures Typed([]) == Accepted(map[])
  {
  }

  lemma LowerCase(name: string)
    requires name != [] && forall i :: 0 <= i < |name| ==> 'a' <= name[i] <= 'z'
    ensures GoodName(Ascii(name)) && NoBlank(Ascii(name))
  {
    forall b | b in Ascii(name) ensures 97 <= b <= 122 {
      var i :| 0 <= i < |name| && Ascii(name)[i] == b;
      assert b == (name[i] as int) % 256;
    }
    AsciiIsPlain(Ascii(name));
  }

  lemma ValidName(s: SectionValue)
    requires ValidSection(s.name, s.entries)
    ensures GoodName(s.name) && NoBlank(s.name)
  {
    hide Ascii, GoodName, NoBlank;
    LowerCase("meta");
    LowerCase("buffers");
    LowerCase("runtime");
    LowerCase("context");
    LowerCase("routine");
    LowerCase("attribute");
  }

  /** What was not written comes back as a default. */
  lemma DefaultsComeBack(s: SectionValue, order: seq<Str>)
    requires ValidSection(s.name, s.entries) && Enumerates(order, s.entries.Keys)
    ensures Defaults(s.name, Written(s, order)) == s.entries
  {
    NamesDiffer();
    SectionNamesDiffer();
    hide Ascii;
    if s.name == Ascii("meta") {
      assert NAMED[0] == Ascii("name") && NAMED[1] == Ascii("description");
      assert NAMED[0] in NAMED && NAMED[1] in NAMED;
      assert [] + [Text([])] == [Text([])];
    } else {
      assert Written(s, order) == s.entries;
    }
  }

  /** A printable section, with its keys in any order, is accepted as itself. */
  lemma PrintableIsAccepted(s: SectionValue, order: seq<Str>)
    requires Printable(s) && Enumerates(order, s.entries.Keys)
    ensures Raw(s, order).WellFormed() && PlainSection(Raw(s, order)) && Interpret(Raw(s, order)) == Accepted(s)
  {
    hide Typed, CheckVerdict, PrintableList, Omitted, GoodName, NoBlank, Plain;
    PropertiesAreTyped(s, order);
    DefaultsComeBack(s, order);
    CheckOfTyped(s.name, Properties(s, order));
    ValidName(s);
    hide Ascii;
  }

  // ---------- the round trip ----------

  function Raws(ss: seq<SectionValue>, orders: seq<seq<Str>>): seq<RawSection>
    requires |ss| == |orders|
  {
    seq(|ss|, i requires 0 <= i < |ss| => Raw(ss[i], orders[i]))
  }

  lemma {:induction false} AllAccepted(raws: seq<RawSection>, ss: seq<SectionValue>)
    requires |raws| == |ss| && forall i :: 0 <= i < |ss| ==> Interpret(raws[i]) == Accepted(ss[i])
    ensures Meaning(raws) == Parsed(ss, [])
  {
    hide Interpret;
    if raws != [] {
      AllAccepted(raws[1..], ss[1..]);
      assert ss == [ss[0]] + ss[1..];
    }
  }

  /** Take any text that is the canonical text of a document, whatever the order of the keys.  Parsing it
      gives the document back, with nothing left, exactly when every section is printable. */
  lemma RoundTripExactly(ss: seq<SectionValue>, orders: seq<seq<Str>>, text: seq<Utf8.Rune>)
    requires |ss| == |orders| && forall i :: 0 <= i < |ss| ==> Enumerates(orders[i], ss[i].entries.Keys)
    requires Utf8.Encode(text) == PrintDocument(Raws(ss, orders))
    ensures ParseText(text) == Parsed(ss, []) <==> forall s :: s in ss ==> Printable(s)
  {
    hide Interpret, Printable, Meaning, Raws, PrintDocument, ParseAll, ParseRaw, NoBlank, Utf8.Strip, Utf8.Encode;
    var t := PrintDocument(Raws(ss, orders));
    if forall s :: s in ss ==> Printable(s) {
      PrintedIsParsed(ss, orders);
      var plain := PlainText(t);
      Utf8.EncodeInjective(plain, text);
      Utf8.StripIs(text);
    }
    if ParseText(text) == Parsed(ss, []) {
      ParsedArePrintable(text);
    }
  }

  lemma PrintedIsParsed(ss: seq<SectionValue>, orders: seq<seq<Str>>)
    requires |ss| == |orders| && forall i :: 0 <= i < |ss| ==> Enumerates(orders[i], ss[i].entries.Keys)
    requires forall s :: s in ss ==> Printable(s)
    ensures NoBlank(PrintDocument(Raws(ss, orders))) && ParseAll(PrintDocument(Raws(ss, orders))) == Parsed(ss, [])
  {
    hide Interpret, Printable, RawSection.WellFormed, PlainSection, Meaning, Raw, PrintDocument, ParseAll, NoBlank;
    var raws := Raws(ss, orders);
    forall i | 0 <= i < |ss|
      ensures raws[i].WellFormed() && PlainSection(raws[i]) && Interpret(raws[i]) == Accepted(ss[i])
    {
      PrintableIsAccepted(ss[i], orders[i]);
    }
    PlainDocument(raws, []);
    EmptyIsPlain();
    assert PrintDocument(raws) + [] == PrintDocument(raws);
    PrintedDocument(raws);
    AllAccepted(raws, ss);
  }

  /** Printable sections always have a canonical text. */
  lemma CanonicalText(ss: seq<SectionValue>, orders: seq<seq<Str>>) returns (text: seq<Utf8.Rune>)
    requires |ss| == |orders| && forall i :: 0 <= i < |ss| ==> Enumerates(orders[i], ss[i].entries.Keys)
    requires forall s :: s in ss ==> Printable(s)
    ensures Utf8.Encode(text) == PrintDocument(Raws(ss, orders)) && ParseText(text) == Parsed(ss, [])
  {
    hide Printable, Raws, PrintDocument, ParseAll, NoBlank, Utf8.Strip, Utf8.Encode;
    PrintedIsParsed(ss, orders);
    text := PlainText(PrintDocument(Raws(ss, orders)));
    Utf8.StripIs(text);
  }

  /** Every section that comes out of any text is printable. */
  lemma ParsedArePrintable(text: seq<Utf8.Rune>)
    requires ParseText(text).Parsed?
    ensures forall s :: s in ParseText(text).sections ==> Printable(s)
  {
    hide Interpret, Printable, RawSection.WellFormed, PlainSection, ParseAll, ParseRaw;
    var t := Utf8.Encode(Utf8.Strip(text));
    Utf8.StripIs(text);
    assert NoBlank(t);
    hide NoBlank, Utf8.Strip, Utf8.Encode;
    var raws := TextTaken(t);
    PlainDocument(raws, ParseAll(t).left);
    forall s | s in ParseAll(t).sections ensures Printable(s) {
      var i :| 0 <= i < |raws| && ParseAll(t).sections[i] == s;
      assert raws[i] in raws;
      AcceptedIsPrintable(raws[i]);
    }
  }

  /** So is everything that comes out of a text convertible to the EDT string table and back. */
  lemma ParsedAreReachable(text: seq<Utf8.Rune>)
    requires ParseText(text).Parsed?
    ensures forall s :: s in ParseText(text).sections ==> Reachable(s.entries)
  {
    hide ParseText;
    ParsedArePrintable(text);
  }

  /** A section panics exactly where a count overflows before any property is rejected, or where `check` does. */
  lemma PanicsExactly(raw: RawSection)
    ensures Interpret(raw) == Panicked
       <==> Typed(raw.properties) == Panicked
            || (Typed(raw.properties).Accepted? && CheckPanics(raw.name, Typed(raw.properties).value, Keys(raw.properties)))
  {
    if Typed(raw.properties).Accepted? {
      CheckPanicsExactly(raw.name, Typed(raw.properties).value, Keys(raw.properties));
    }
    hide Typed, CheckVerdict, CheckPanics;
  }

  /** So a "context" panics, as written, on "persistentpar" without "persistent". */
  lemma ContextPanicsExactly(ps: seq<Property>)
    ensures Interpret(RawSection(Ascii("context"), ps)) == Panicked
       <==> Typed(ps) == Panicked || (Typed(ps).Accepted? && ContextPanics(Typed(ps).value))
  {
    PanicsExactly(RawSection(Ascii("context"), ps));
    SectionNamesDiffer();
    hide Ascii, Typed, ContextPanics;
  }

  // ---------- what each value is typed as ----------

  function Zeros(n: nat): Str { if n == 0 then [] else [48] + Zeros(n - 1) }

  lemma {:induction false} LeadingZeros(z: nat, digits: Digits)
    ensures AllDigits(Zeros(z) + digits) && Number(Zeros(z) + digits) == Number(digits)
  {
    if z == 0 {
      assert [] + digits == digits;
    } else {
      LeadingZeros(z - 1, digits);
      ZeroFirst(Zeros(z - 1) + digits);
      Assoc([48], Zeros(z - 1), digits);
    }
  }

  lemma {:induction false} ZeroFirst(digits: Digits)
    ensures AllDigits([48] + digits) && Number([48] + digits) == Number(digits)
  {
    if digits == [] {
      assert [48] + digits == [] + [48];
      NumberPush([], 48);
      assert Number([48]) == 0;
    } else {
      var front, last := digits[..|digits| - 1], digits[|digits| - 1];
      assert digits == front + [last];
      ZeroFirst(front);
      NumberPush(front, last);
      NumberPush([48] + front, last);
      Assoc([48], front, [last]);
    }
  }

  /** Every run of digits is a number with zeros in front. */
  lemma {:induction false} DigitsAreDecimal(digits: Digits) returns (z: nat)
    requires digits != []
    ensures digits == Zeros(z) + Ascii(Decimal(Number(digits)))
    decreases |digits|
  {
    hide *;
    var front, last := LastDigit(digits);
    if front == [] {
      AloneDigit(last);
      z := 0;
    } else {
      var z' := DigitsAreDecimal(front);
      CanonPush(front, last, z', Number(front));
      z := if Number(front) == 0 then z' + 1 else z';
    }
  }

  lemma LastDigit(digits: Digits) returns (front: Digits, last: Byte)
    requires digits != []
    ensures |front| < |digits| && digits == front + [last] && 48 <= last < 58
    ensures Number(digits) == Number(front) * 10 + (last - 48)
    ensures front == [] ==> digits == [last] && Number(digits) == last - 48
  {
    front, last := digits[..|digits| - 1], digits[|digits| - 1];
    assert digits == front + [last];
    NumberPush(front, last);
    NumberOfNothing();
  }

  lemma AloneDigit(last: Byte)
    requires 48 <= last < 58
    ensures [last] == Zeros(0) + Ascii(Decimal(last - 48))
  {
    OneDigit(last);
    assert Zeros(0) + [last] == [last];
  }

  lemma CanonPush(front: Str, last: Byte, z: nat, n: nat)
    requires front == Zeros(z) + Ascii(Decimal(n)) && 48 <= last < 58
    ensures front + [last] == Zeros(if n == 0 then z + 1 else z) + Ascii(Decimal(n * 10 + (last - 48)))
  {
    hide Decimal, Ascii, Zeros;
    if n == 0 {
      OneDigit(48);
      OneDigit(last);
      ZerosPush(z);
    } else {
      NextDecimal(n, last);
      Assoc(Zeros(z), Ascii(Decimal(n)), [last]);
    }
  }

  lemma NumberOfNothing()
    ensures Number([]) == 0
  {
  }

  lemma NextDecimal(n: nat, last: Byte)
    requires n > 0 && 48 <= last < 58
    ensures Ascii(Decimal(n * 10 + (last - 48))) == Ascii(Decimal(n)) + [last]
  {
    var m := n * 10 + (last - 48);
    assert m / 10 == n && m % 10 == last - 48;
    DecimalPush(m);
  }

  lemma OneDigit(b: Byte)
    requires 48 <= b < 58
    ensures Ascii(Decimal(b - 48)) == [b]
  {
    AsciiPush([], Digit(b - 48));
  }

  lemma {:induction false} ZerosPush(z: nat)
    ensures Zeros(z) + [48] == Zeros(z + 1)
  {
    if z > 0 {
      ZerosPush(z - 1);
      Assoc([48], Zeros(z - 1), [48]);
    }
  }

  /** A count: rejected for anything but digits, accepted as the number the digits show, zeros in front
      allowed, and a panic for a number of more than 32 bits. */
  lemma CountTypedExactly(key: Str, value: Str, n: nat)
    requires key == Ascii("inputs") || key == Ascii("outputs")
    requires value != []
    ensures TypedValue(Property(key, value)) == Rejected <==> exists i :: 0 <= i < |value| && !(48 <= value[i] < 58)
    ensures (exists z :: value == Zeros(z) + Ascii(Decimal(n))) ==>
              TypedValue(Property(key, value))
              == if n < 0x1_0000_0000 then Accepted(Integer(IDouble(n))) else Panicked
    ensures AllDigits(value) ==> exists z, m :: value == Zeros(z) + Ascii(Decimal(m))
  {
    if z :| value == Zeros(z) + Ascii(Decimal(n)) {
      NumberOfDecimal(n);
      LeadingZeros(z, Ascii(Decimal(n)));
    }
    if AllDigits(value) { var z := DigitsAreDecimal(value); }
    hide Ascii, Decimal, Number, Zeros;
  }

  /** The four flags are true or false and nothing else; every other key but the two counts holds a string. */
  lemma WordsTypedExactly(key: Str, value: Str)
    ensures key in {Ascii("lazy"), Ascii("persistent"), Ascii("lazypar"), Ascii("persistentpar")} ==>
              TypedValue(Property(key, value)) ==
                if value == Ascii("true") then Accepted(Integer(IByte(1)))
                else if value == Ascii("false") then Accepted(Integer(IByte(0)))
                else Rejected
    ensures key !in {Ascii("lazy"), Ascii("persistent"), Ascii("lazypar"), Ascii("persistentpar"),
                     Ascii("inputs"), Ascii("outputs")} ==>
              TypedValue(Property(key, value)) == Accepted(Text(value))
  {
    CountsAreNoFlags();
    hide Ascii;
  }

  lemma CountsAreNoFlags()
    ensures Ascii("inputs") !in {Ascii("lazy"), Ascii("persistent"), Ascii("lazypar"), Ascii("persistentpar")}
    ensures Ascii("outputs") !in {Ascii("lazy"), Ascii("persistent"), Ascii("lazypar"), Ascii("persistentpar")}
  {
    assert Ascii("outputs")[0] != Ascii("lazypar")[0];
  }

  // ---------- when parsing aborts ----------

  /** Accepted sections, then one that panics. */
  ghost predicate AbortsAt(t: Str, raws: seq<RawSection>, bad: RawSection, rest: Str) {
    && t == PrintDocument(raws) + (bad.Print() + rest) && ParseProperty(rest) == None
    && (forall r :: r in raws ==> r.WellFormed() && Interpret(r).Accepted?)
    && bad.WellFormed() && Interpret(bad) == Panicked
  }

  lemma {:induction false} AbortFound(t: Str) returns (raws: seq<RawSection>, bad: RawSection, rest: Str)
    requires ParseAll(t) == Aborted
    ensures AbortsAt(t, raws, bad, rest)
    decreases |t|
  {
    hide ParseRaw, Interpret, RawSection.WellFormed, RawSection.Print, ParseProperty;
    var step := ParseRaw(t).value;
    RawShrinks(t, step.0, step.1);
    RawExactly(t, step.0, step.1);
    if Interpret(step.0) == Panicked {
      raws, bad, rest := [], step.0, step.1;
      assert [] + t == t;
    } else {
      var more;
      more, bad, rest := AbortFound(step.1);
      raws := [step.0] + more;
      DocumentIs(raws);
      assert raws[1..] == more;
      Assoc(step.0.Print(), PrintDocument(more), bad.Print() + rest);
    }
  }

  lemma {:induction false} AbortsThere(raws: seq<RawSection>, bad: RawSection, rest: Str)
    requires AbortsAt(PrintDocument(raws) + (bad.Print() + rest), raws, bad, rest)
    ensures ParseAll(PrintDocument(raws) + (bad.Print() + rest)) == Aborted
  {
    hide ParseRaw, Interpret, RawSection.WellFormed, RawSection.Print, ParseProperty, ParseName, PrintDocument;
    var end := bad.Print() + rest;
    if raws == [] {
      EmptyDocument();
      assert [] + end == end;
      RawExactly(end, bad, rest);
    } else {
      var more := PrintDocument(raws[1..]) + end;
      DocumentIs(raws);
      Assoc(raws[0].Print(), PrintDocument(raws[1..]), end);
      StartsAtBracket(raws[1..], bad, rest);
      NoPropertyAtBracket(more);
      assert raws[0] in raws;
      RawExactly(PrintDocument(raws) + end, raws[0], more);
      assert forall r :: r in raws[1..] ==> r in raws;
      AbortsThere(raws[1..], bad, rest);
    }
  }

  lemma StartsAtBracket(raws: seq<RawSection>, bad: RawSection, rest: Str)
    ensures var t := PrintDocument(raws) + (bad.Print() + rest); t != [] && t[0] == OPEN
  {
    DocumentStart(raws);
    assert (bad.Print() + rest)[0] == OPEN;
    hide PrintDocument, PrintProperties;
  }

  /** Parsing aborts if and only if the text is accepted sections and then one that panics. */
  lemma AbortsExactly(t: Str)
    ensures ParseAll(t) == Aborted <==> exists raws, bad, rest :: AbortsAt(t, raws, bad, rest)
  {
    hide AbortsAt, ParseAll;
    if ParseAll(t) == Aborted {
      var raws, bad, rest := AbortFound(t);
    }
    if raws, bad, rest :| AbortsAt(t, raws, bad, rest) {
      AbortTextIs(t, raws, bad, rest);
      AbortsThere(raws, bad, rest);
    }
  }

  lemma AbortTextIs(t: Str, raws: seq<RawSection>, bad: RawSection, rest: Str)
    requires AbortsAt(t, raws, bad, rest)
    ensures t == PrintDocument(raws) + (bad.Print() + rest)
  {
  }

  /** White space, by its code points, does not change what a text parses as, wherever it stands. */
  lemma ParseIgnoresWhiteSpace(a: seq<Utf8.Rune>, c: Utf8.Rune, b: seq<Utf8.Rune>)
    requires c in {
      9, 10, 11, 12, 13, 0x20, 0x85, 0xA0, 0x1680,
      0x2000, 0x2001, 0x2002, 0x2003, 0x2004, 0x2005, 0x2006, 0x2007, 0x2008, 0x2009, 0x200A,
      0x2028, 0x2029, 0x202F, 0x205F, 0x3000
    }
    ensures ParseText(a + [c] + b) == ParseText(a + b)
  {
    Utf8.StripExactly(a, c, b);
    hide ParseAll, Utf8.Strip, Utf8.Encode;
  }

  /** The marks of the grammar, and its words, as ASCII. */
  lemma MarksAre(name: Str, key: Str, value: Str, word: string, i: nat)
    ensures PrintName(name) == Ascii("[") + name + Ascii("]") && [NEWLINE] == Ascii("\n")
    ensures Property(key, value).Print() == key + Ascii("=") + value + Ascii(";")
    ensures i < |word| && (word[i] as int) < 128 ==> Ascii(word)[i] == word[i] as int
  {
    assert Ascii("[") == [OPEN] && Ascii("]") == [CLOSE] && Ascii("=") == [EQUALS] && Ascii(";") == [SEMICOLON];
  }
}
