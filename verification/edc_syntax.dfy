/**
 The grammar of EDC text (`parser.rs`): `[name]` and then `key=value;` any number of times.

 The parsers run on the bytes that are left once white space has been removed, so that `space0`
 and `trim` have nothing to do.  The marks are ASCII, and no byte of a longer UTF-8 character is an
 ASCII byte.
 */
module EdcSyntax {
  import opened Prelude
  import opened EdtIr
  import Utf8

  const OPEN: Byte := 91
  const CLOSE: Byte := 93
  const NEWLINE: Byte := 10
  const EQUALS: Byte := 61
  const SEMICOLON: Byte := 59

  datatype Property = Property(key: Str, value: Str)
  {
    predicate WellFormed() {
      EQUALS !in key && (key != [] ==> key[0] != OPEN) && value != [] && SEMICOLON !in value
    }

    function Print(): Str { key + [EQUALS] + value + [SEMICOLON] }
  }

  datatype RawSection = RawSection(name: Str, properties: seq<Property>)
  {
    predicate WellFormed() {
      GoodName(name) && forall p :: p in properties ==> p.WellFormed()
    }

    function Print(): Str { PrintName(name) + PrintProperties(properties) }
  }

  predicate GoodName(name: Str) { name != [] && CLOSE !in name && NEWLINE !in name }

  function PrintName(name: Str): Str { [OPEN] + name + [CLOSE] }

  function PrintProperties(ps: seq<Property>): Str {
    if ps == [] then [] else ps[0].Print() + PrintProperties(ps[1..])
  }

  function PrintDocument(ss: seq<RawSection>): Str {
    if ss == [] then [] else ss[0].Print() + PrintDocument(ss[1..])
  }

  // ---------- the parsers ----------

  /** How far the text goes on without one of the bytes in `stop`: `is_not`, `take_until`. */
  function Span(t: Str, stop: set<Byte>): (n: nat)
    ensures n <= |t| && (forall i :: 0 <= i < n ==> t[i] !in stop) && (n < |t| ==> t[n] in stop)
  {
    if t == [] || t[0] in stop then 0 else 1 + Span(t[1..], stop)
  }

  /** Take up to a stop byte, which must be `c`, and skip it: `is_not` or `take_until`, and `tag`. */
  function Cut(t: Str, stop: set<Byte>, c: Byte): Option<(Str, Str)> {
    var n := Span(t, stop);
    if n == |t| || t[n] != c then None else Some((t[..n], t[n + 1..]))
  }

  /** `parse_section_name`. */
  function ParseName(t: Str): Option<(Str, Str)> {
    if t == [] || t[0] != OPEN then None
    else
      match Cut(t[1..], {CLOSE, NEWLINE}, CLOSE)
      case None => None
      case Some(cut) => if cut.0 == [] then None else Some(cut)
  }

  /** `parse_property`. */
  function ParseProperty(t: Str): Option<(Property, Str)> {
    if t != [] && t[0] == OPEN then None
    else
      match Cut(t, {EQUALS}, EQUALS)
      case None => None
      case Some(k) =>
        match Cut(k.1, {SEMICOLON}, SEMICOLON)
        case None => None
        case Some(v) => if v.0 == [] then None else Some((Property(k.0, v.0), v.1))
  }

  lemma CutExactly(t: Str, stop: set<Byte>, c: Byte, a: Str, b: Str)
    requires c in stop
    ensures Cut(t, stop, c) == Some((a, b)) <==> (forall x :: x in a ==> x !in stop) && t == a + [c] + b
  {
    var n := Span(t, stop);
    if (forall x :: x in a ==> x !in stop) && t == a + [c] + b {
      assert t[|a|] == c;
      assert forall i :: 0 <= i < |a| ==> t[i] == a[i] && a[i] in a;
      assert n == |a|;
      assert t[..n] == a && t[n + 1..] == b;
    }
    if Cut(t, stop, c) == Some((a, b)) {
      assert t == t[..n] + [t[n]] + t[n + 1..];
    }
  }

  /** A name parses exactly out of its own printed form. */
  lemma NameExactly(t: Str, name: Str, rest: Str)
    ensures ParseName(t) == Some((name, rest)) <==> GoodName(name) && t == PrintName(name) + rest
  {
    hide Cut;
    if t != [] && t[0] == OPEN {
      CutExactly(t[1..], {CLOSE, NEWLINE}, CLOSE, name, rest);
      assert t == [OPEN] + t[1..];
      assert PrintName(name) + rest == [OPEN] + (name + [CLOSE] + rest);
      assert t == PrintName(name) + rest ==> t[1..] == name + [CLOSE] + rest;
    }
  }

  /** A property parses exactly out of its own printed form. */
  lemma PropertyExactly(t: Str, p: Property, rest: Str)
    ensures ParseProperty(t) == Some((p, rest)) <==> p.WellFormed() && t == p.Print() + rest
  {
    hide Cut;
    var u := p.value + [SEMICOLON] + rest;
    assert p.Print() + rest == p.key + [EQUALS] + u;
    CutExactly(t, {EQUALS}, EQUALS, p.key, u);
    CutExactly(u, {SEMICOLON}, SEMICOLON, p.value, rest);
    if ParseProperty(t) == Some((p, rest)) {
      var k := Cut(t, {EQUALS}, EQUALS).value;
      CutExactly(t, {EQUALS}, EQUALS, k.0, k.1);
      CutExactly(k.1, {SEMICOLON}, SEMICOLON, p.value, rest);
      assert p.key != [] ==> t[0] == p.key[0];
    }
    if p.WellFormed() && t == p.key + [EQUALS] + u {
      assert t[0] == if p.key == [] then EQUALS else p.key[0];
    }
  }

  /** `many0(parse_property)`: every step shrinks the text. */
  function ParseProperties(t: Str): (r: (seq<Property>, Str))
    ensures |r.1| <= |t|
  {
    match ParseProperty(t)
    case None => ([], t)
    case Some(step) =>
      PropertyExactly(t, step.0, step.1);
      var more := ParseProperties(step.1);
      ([step.0] + more.0, more.1)
  }

  /** The properties taken are those printed at the front, as many as there are. */
  lemma {:induction false} PropertiesExactly(t: Str, ps: seq<Property>, rest: Str)
    ensures ParseProperties(t) == (ps, rest)
       <==> (forall p :: p in ps ==> p.WellFormed()) && t == PrintProperties(ps) + rest && ParseProperty(rest) == None
    decreases |t|, |ps|
  {
    hide ParseProperty, Property.WellFormed, Property.Print;
    if ps == [] {
      assert PrintProperties(ps) + rest == rest;
    } else {
      var p, more := ps[0], ps[1..];
      var u := PrintProperties(more) + rest;
      assert PrintProperties(ps) + rest == p.Print() + u by { Assoc(p.Print(), PrintProperties(more), rest); }
      assert ps == [p] + more;
      match ParseProperty(t)
      case None =>
        PropertyExactly(t, p, u);
        assert (forall p :: p in ps ==> p.WellFormed()) ==> p.WellFormed() by { assert p in ps; }
      case Some(step) =>
        PropertyExactly(t, step.0, step.1);
        PropertyExactly(t, p, u);
        Shorter(t, step.0, step.1);
        PropertiesExactly(step.1, more, rest);
        var got := ParseProperties(step.1);
        assert ParseProperties(t) == ([step.0] + got.0, got.1);
        assert ([step.0] + got.0)[0] == step.0 && ([step.0] + got.0)[1..] == got.0;
        assert (forall q :: q in ps ==> q.WellFormed()) <==> p.WellFormed() && forall q :: q in more ==> q.WellFormed();
    }
  }

  lemma Shorter(t: Str, p: Property, rest: Str)
    requires t == p.Print() + rest
    ensures |rest| < |t|
  {
  }

  /** The syntactic part of `parse_section`. */
  function ParseRaw(t: Str): Option<(RawSection, Str)> {
    match ParseName(t)
    case None => None
    case Some(header) =>
      var body := ParseProperties(header.1);
      Some((RawSection(header.0, body.0), body.1))
  }

  /** A section parses exactly out of its own printed form, followed by no further property. */
  lemma RawExactly(t: Str, s: RawSection, rest: Str)
    ensures ParseRaw(t) == Some((s, rest)) <==> s.WellFormed() && t == s.Print() + rest && ParseProperty(rest) == None
  {
    hide ParseProperty, ParseName, ParseProperties, PrintProperties, PrintName, GoodName, Property.WellFormed;
    var u := PrintProperties(s.properties) + rest;
    Assoc(PrintName(s.name), PrintProperties(s.properties), rest);
    NameExactly(t, s.name, u);
    PropertiesExactly(u, s.properties, rest);
    match ParseName(t)
    case None =>
    case Some(header) =>
      NameExactly(t, header.0, header.1);
      PropertiesExactly(header.1, s.properties, rest);
  }

  lemma RawShrinks(t: Str, s: RawSection, rest: Str)
    requires ParseRaw(t) == Some((s, rest))
    ensures |rest| < |t|
  {
    RawExactly(t, s, rest);
    assert |s.Print()| > 0;
  }

  /** What follows a section: nothing, or the next section's bracket. */
  lemma NoPropertyAtBracket(t: Str)
    requires t == [] || t[0] == OPEN
    ensures ParseProperty(t) == None
  {
  }

  lemma DocumentStart(ss: seq<RawSection>)
    ensures PrintDocument(ss) == [] || PrintDocument(ss)[0] == OPEN
  {
  }

  // ---------- text without white space ----------

  /** The bytes of a text without white space. */
  ghost predicate NoBlank(b: Str) {
    exists t :: Utf8.Encode(t) == b && Utf8.BlankFree(t)
  }

  predicate Mark(m: Byte) { m < 128 && !Utf8.Blank(m) }

  lemma PlainText(t: Str) returns (text: seq<Utf8.Rune>)
    requires NoBlank(t)
    ensures Utf8.Encode(text) == t && Utf8.BlankFree(text)
  {
    text :| Utf8.Encode(text) == t && Utf8.BlankFree(text);
  }

  /** Pieces joined by an ASCII mark hold no white space exactly when neither piece does. */
  lemma PlainJoin(a: Str, m: Byte, b: Str)
    requires Mark(m)
    ensures NoBlank(a + [m] + b) <==> NoBlank(a) && NoBlank(b)
  {
    if NoBlank(a) && NoBlank(b) {
      var t := PlainText(a);
      var u := PlainText(b);
      MarkIsItself(m);
      hide Utf8.Encode;
      Utf8.EncodeJoins(t + [m], u);
      Utf8.EncodeJoins(t, [m]);
      assert Utf8.BlankFree(t + [m] + u);
    }
    if NoBlank(a + [m] + b) {
      var t := PlainText(a + [m] + b);
      hide Utf8.Encode;
      var u, v := Utf8.CutAtAscii(t, a, m, b);
      assert forall r :: r in u ==> r in t;
      assert forall r :: r in v ==> r in t;
    }
  }

  lemma MarkIsItself(m: Byte)
    requires m < 128
    ensures Utf8.Encode([m]) == [m]
  {
    assert [m][1..] == [] && Utf8.Encode([]) == [];
  }

  lemma EmptyIsPlain()
    ensures NoBlank([])
  {
    assert Utf8.Encode([]) == [] && Utf8.BlankFree([]);
  }

  /** ASCII bytes other than white space. */
  lemma {:induction false} AsciiIsPlain(b: Str)
    requires forall x :: x in b ==> Mark(x)
    ensures NoBlank(b)
  {
    hide NoBlank;
    EmptyIsPlain();
    if b != [] {
      assert b[0] in b;
      AsciiIsPlain(b[1..]);
      PlainJoin([], b[0], b[1..]);
      assert [] + [b[0]] + b[1..] == b;
    }
  }

  ghost predicate Plain(p: Property) { NoBlank(p.key) && NoBlank(p.value) }

  ghost predicate PlainSection(s: RawSection) { NoBlank(s.name) && forall p :: p in s.properties ==> Plain(p) }

  lemma PlainPrint(p: Property, rest: Str)
    ensures NoBlank(p.Print() + rest) <==> Plain(p) && NoBlank(rest)
  {
    hide NoBlank;
    var tail := p.value + [SEMICOLON] + rest;
    assert p.Print() + rest == p.key + [EQUALS] + tail;
    PlainJoin(p.key, EQUALS, tail);
    PlainJoin(p.value, SEMICOLON, rest);
  }

  lemma {:induction false} PlainProperties(ps: seq<Property>, rest: Str)
    ensures NoBlank(PrintProperties(ps) + rest) <==> (forall p :: p in ps ==> Plain(p)) && NoBlank(rest)
  {
    hide NoBlank, Plain, Property.Print;
    if ps == [] {
      assert PrintProperties(ps) + rest == rest;
    } else {
      PlainPrint(ps[0], PrintProperties(ps[1..]) + rest);
      PlainProperties(ps[1..], rest);
      Assoc(ps[0].Print(), PrintProperties(ps[1..]), rest);
      assert ps == [ps[0]] + ps[1..];
    }
  }

  lemma PlainSectionPrint(s: RawSection, rest: Str)
    ensures NoBlank(s.Print() + rest) <==> PlainSection(s) && NoBlank(rest)
  {
    hide NoBlank, Plain, PrintProperties;
    var tail := PrintProperties(s.properties) + rest;
    assert s.Print() + rest == [] + [OPEN] + (s.name + [CLOSE] + tail);
    EmptyIsPlain();
    PlainJoin([], OPEN, s.name + [CLOSE] + tail);
    PlainJoin(s.name, CLOSE, tail);
    PlainProperties(s.properties, rest);
  }

  lemma {:induction false} PlainDocument(ss: seq<RawSection>, rest: Str)
    ensures NoBlank(PrintDocument(ss) + rest) <==> (forall s :: s in ss ==> PlainSection(s)) && NoBlank(rest)
  {
    hide NoBlank, PlainSection, RawSection.Print;
    if ss == [] {
      assert PrintDocument(ss) + rest == rest;
    } else {
      PlainSectionPrint(ss[0], PrintDocument(ss[1..]) + rest);
      PlainDocument(ss[1..], rest);
      Assoc(ss[0].Print(), PrintDocument(ss[1..]), rest);
      assert ss == [ss[0]] + ss[1..];
    }
  }
}
