/**
 The validation of an EDC section (`check` in `parser.rs`) once its properties have been typed.

 `Fail` is the `false` of `check`; `Panic` is an `expect` on a missing key or an `unwrap` of a value
 of another type.
 */
module EdcCheck {
  import opened Prelude
  import opened EdtIr

  datatype Verdict = Pass | Fail | Panic
  {
    function Then(next: Verdict): Verdict { if Pass? then next else this }
  }

  function Ascii(s: string): (b: Str)
    ensures |b| == |s|
  {
    seq(|s|, i requires 0 <= i < |s| => (s[i] as int) % 256)
  }

  /** The strings of a value list: `filter_map(|opt| opt)`. */
  function Texts(vs: seq<IRValue>): seq<Str> {
    if vs == [] then [] else (if vs[0].Text? then [vs[0].s] else []) + Texts(vs[1..])
  }

  lemma {:induction false} TextsAre(vs: seq<IRValue>, s: Str)
    ensures s in Texts(vs) <==> Text(s) in vs
  {
    if vs != [] {
      TextsAre(vs[1..], s);
      assert vs == [vs[0]] + vs[1..];
    }
  }

  function TextsUnder(entries: Entries, key: Str): seq<Str> {
    if key in entries then Texts(entries[key]) else []
  }

  function Numbered(prefix: string, n: nat): seq<Str> {
    seq(n, i requires 0 <= i < n => Ascii(prefix + Decimal(i)))
  }

  /** The key must be there, with one value. */
  function One(entries: Entries, key: Str): Verdict {
    if key !in entries then Panic else if |entries[key]| != 1 then Fail else Pass
  }

  function Two(entries: Entries, a: Str, b: Str): Verdict {
    if a !in entries || b !in entries then Panic
    else if |entries[a]| != 1 || |entries[b]| != 1 then Fail else Pass
  }

  /** The key must be there, with one value, a string among the choices. */
  function OneOf(entries: Entries, key: Str, choices: seq<Str>): Verdict {
    if !One(entries, key).Pass? then One(entries, key)
    else match entries[key][0]
      case Text(s) => if s in choices then Pass else Fail
      case _ => Panic
  }

  const BINDS := [Ascii("free"), Ascii("imm"), Ascii("remote"), Ascii("eng")]
  const IMMTYPES := [Ascii("empty"), Ascii("imm"), Ascii("file"), Ascii("url"), Ascii("id")]
  const PLACES := [Ascii("file"), Ascii("url"), Ascii("id")]
  const REFERRING := [Ascii("unspecific"), Ascii("pilotage"), Ascii("lane")]

  // ---------- buffers ----------

  function Count(entries: Entries, key: Str): (n: nat)
    requires key in entries && |entries[key]| == 1 && entries[key][0].Integer? && entries[key][0].i.IDouble?
  {
    entries[key][0].i.d
  }

  function CountVerdict(entries: Entries, key: Str): Verdict
    requires key in entries
  {
    if |entries[key]| != 1 then Fail
    else if !entries[key][0].Integer? || !entries[key][0].i.IDouble? then Panic else Pass
  }

  /** What one buffer needs, by the way it is bound. */
  function BindVerdict(entries: Entries, name: Str): Verdict {
    var key := name + Ascii("bind");
    if !OneOf(entries, key, BINDS).Pass? then OneOf(entries, key, BINDS)
    else
      var how := entries[key][0].s;
      if how == Ascii("imm") then
        OneOf(entries, name + Ascii("immtype"), IMMTYPES).Then(One(entries, name + Ascii("immvalue")))
      else if how == Ascii("remote") then
        OneOf(entries, name + Ascii("remotetype"), PLACES).Then(One(entries, name + Ascii("remotevalue")))
      else if how == Ascii("eng") then Two(entries, name + Ascii("engid"), name + Ascii("engbuf"))
      else Pass
  }

  function BindVerdicts(entries: Entries, names: seq<Str>): Verdict {
    if names == [] then Pass else BindVerdict(entries, names[0]).Then(BindVerdicts(entries, names[1..]))
  }

  function ReferVerdict(entries: Entries, keys: seq<Str>, names: seq<Str>): Verdict {
    if keys == [] then Pass
    else if exists s :: s in TextsUnder(entries, keys[0]) && s !in names then Fail
    else ReferVerdict(entries, keys[1..], names)
  }

  function BufferNames(entries: Entries, inputs: nat, outputs: nat): seq<Str> {
    TextsUnder(entries, Ascii("extra")) + Numbered("input", inputs) + Numbered("output", outputs)
  }

  function BuffersVerdict(entries: Entries): Verdict {
    var ins, outs := Ascii("inputs"), Ascii("outputs");
    if outs !in entries || ins !in entries then Fail
    else if !CountVerdict(entries, ins).Pass? then CountVerdict(entries, ins)
    else if !CountVerdict(entries, outs).Pass? then CountVerdict(entries, outs)
    else
      var names := BufferNames(entries, Count(entries, ins), Count(entries, outs));
      ReferVerdict(entries, REFERRING, names).Then(BindVerdicts(entries, names))
  }

  /** The references of the three keys to declared names. */
  method CheckReferences(entries: Entries, keys: seq<Str>, names: seq<Str>) returns (verdict: Verdict)
    requires forall k :: k in keys <==> k in entries
    ensures verdict == ReferVerdict(entries, REFERRING, names)
  {
    for i := 0 to |REFERRING|
      invariant ReferVerdict(entries, REFERRING, names) == ReferVerdict(entries, REFERRING[i..], names)
    {
      var someKey := REFERRING[i];
      assert REFERRING[i..][0] == someKey && REFERRING[i..][1..] == REFERRING[i + 1..];
      if someKey in keys {
        var values := Texts(entries[someKey]);
        for j := 0 to |values|
          invariant forall s :: s in values[..j] ==> s in names
        {
          if values[j] !in names {
            assert values[j] in TextsUnder(entries, someKey);
            return Fail;
          }
          assert values[..j + 1] == values[..j] + [values[j]];
        }
        assert values[..|values|] == values;
      }
    }
    verdict := Pass;
  }

  method CheckBinds(entries: Entries, names: seq<Str>) returns (verdict: Verdict)
    ensures verdict == BindVerdicts(entries, names)
  {
    for i := 0 to |names|
      invariant BindVerdicts(entries, names) == BindVerdicts(entries, names[i..])
    {
      assert names[i..][0] == names[i] && names[i..][1..] == names[i + 1..];
      verdict := BindVerdict(entries, names[i]);
      if verdict != Pass { return; }
    }
    verdict := Pass;
  }

  /** The "buffers" branch of `check`. */
  method CheckBuffers(section: Section, keys: seq<Str>) returns (verdict: Verdict)
    requires forall k :: k in keys <==> k in section.entries
    ensures verdict == BuffersVerdict(section.entries)
  {
    hide Ascii, ReferVerdict, BindVerdicts, BufferNames;
    var entries := section.entries;
    if Ascii("outputs") !in keys || Ascii("inputs") !in keys { return Fail; }
    var num1 := entries[Ascii("inputs")];
    if |num1| != 1 { return Fail; }
    if !num1[0].Integer? || !num1[0].i.IDouble? { return Panic; }
    var num2 := entries[Ascii("outputs")];
    if |num2| != 1 { return Fail; }
    if !num2[0].Integer? || !num2[0].i.IDouble? { return Panic; }
    var names := BufferNames(entries, num1[0].i.d, num2[0].i.d);
    verdict := CheckReferences(entries, keys, names);
    if verdict == Pass {
      verdict := CheckBinds(entries, names);
    }
  }

  // ---------- runtime ----------

  function DepVerdict(entries: Entries, name: Str): Verdict {
    OneOf(entries, name + Ascii("type"), PLACES).Then(Two(entries, name + Ascii("path"), name + Ascii("relative")))
  }

  function DepVerdicts(entries: Entries, names: seq<Str>): Verdict {
    if names == [] then Pass else DepVerdict(entries, names[0]).Then(DepVerdicts(entries, names[1..]))
  }

  function RuntimeVerdict(entries: Entries): Verdict {
    if Ascii("deps") !in entries then Panic else DepVerdicts(entries, Texts(entries[Ascii("deps")]))
  }

  /** The "runtime" branch of `check`. */
  method CheckRuntime(section: Section) returns (verdict: Verdict)
    ensures verdict == RuntimeVerdict(section.entries)
  {
    var entries := section.entries;
    if Ascii("deps") !in entries { return Panic; }
    var names := Texts(entries[Ascii("deps")]);
    for i := 0 to |names|
      invariant DepVerdicts(entries, names) == DepVerdicts(entries, names[i..])
    {
      assert names[i..][0] == names[i] && names[i..][1..] == names[i + 1..];
      verdict := DepVerdict(entries, names[i]);
      if verdict != Pass { return; }
    }
    verdict := Pass;
  }

  // ---------- meta, context, routine, attribute ----------

  const NAMED := [Ascii("name"), Ascii("description"), Ascii("mid")]

  /** A section "meta" without a name or a description gets an empty one. */
  function Defaults(name: Str, entries: Entries): Entries {
    if name != Ascii("meta") then entries
    else
      var e := if Ascii("name") in entries then entries else Pushed(entries, Ascii("name"), Text([]));
      if Ascii("description") in e then e else Pushed(e, Ascii("description"), Text([]))
  }

  function MetaVerdict(entries: Entries): Verdict {
    if Ascii("mid") !in entries then Fail
    else
      var e := Defaults(Ascii("meta"), entries);
      One(e, Ascii("name")).Then(One(e, Ascii("description"))).Then(One(e, Ascii("mid")))
  }

  lemma NamesDiffer()
    ensures Ascii("name") != Ascii("description") && Ascii("mid") != Ascii("name") && Ascii("mid") != Ascii("description")
  {
  }

  /** The "meta" branch of `check`. */
  method CheckMeta(section: Section, keys: seq<Str>) returns (verdict: Verdict)
    requires forall k :: k in keys <==> k in section.entries
    modifies section
    ensures verdict == MetaVerdict(old(section.entries))
    ensures verdict == Pass ==> section.entries == Defaults(Ascii("meta"), old(section.entries))
  {
    NamesDiffer();
    hide Ascii;
    for i := 0 to 3
      invariant section.entries == (
                  var e := if i == 0 || Ascii("name") in keys then old(section.entries)
                           else Pushed(old(section.entries), Ascii("name"), Text([]));
                  if i <= 1 || Ascii("description") in keys then e else Pushed(e, Ascii("description"), Text([])))
      invariant i == 3 ==> Ascii("mid") in keys
    {
      if NAMED[i] !in keys {
        if NAMED[i] == Ascii("name") { section.AddEntry(Ascii("name"), Text([])); }
        else if NAMED[i] == Ascii("description") { section.AddEntry(Ascii("description"), Text([])); }
        else { return Fail; }
      }
    }
    for i := 0 to 3
      invariant forall j :: 0 <= j < i ==> |section.entries[NAMED[j]]| == 1
    {
      if |section.entries[NAMED[i]]| != 1 { return Fail; }
    }
    assert NAMED[0] == Ascii("name") && NAMED[1] == Ascii("description") && NAMED[2] == Ascii("mid");
    verdict := Pass;
  }

  /** As written, "persistentpar" asks for one value of "persistent". */
  function ContextVerdict(entries: Entries): Verdict {
    One(entries, Ascii("parent"))
    .Then(if Ascii("lazypar") in entries then One(entries, Ascii("lazypar")) else Pass)
    .Then(if Ascii("persistentpar") in entries then One(entries, Ascii("persistent")) else Pass)
  }

  function AttributeVerdict(entries: Entries): Verdict {
    if forall k :: k in entries ==> (k == Ascii("lazy") || k == Ascii("persistent")) && |entries[k]| == 1 then Pass
    else Fail
  }

  /** The "attribute" branch of `check`. */
  method CheckAttribute(section: Section, keys: seq<Str>) returns (verdict: Verdict)
    requires forall k :: k in keys <==> k in section.entries
    ensures verdict == AttributeVerdict(section.entries)
  {
    for i := 0 to |keys|
      invariant forall k :: k in keys[..i] ==>
                  (k == Ascii("lazy") || k == Ascii("persistent")) && |section.entries[k]| == 1
    {
      assert keys[i] in keys;
      if keys[i] == Ascii("lazy") || keys[i] == Ascii("persistent") {
        if |section.entries[keys[i]]| != 1 { return Fail; }
      } else {
        return Fail;
      }
      assert keys[..i + 1] == keys[..i] + [keys[i]];
    }
    assert keys[..|keys|] == keys;
    verdict := Pass;
  }

  // ---------- check ----------

  function CheckVerdict(name: Str, entries: Entries, keys: seq<Str>): Verdict {
    if name == Ascii("meta") then MetaVerdict(entries)
    else if name == Ascii("buffers") then BuffersVerdict(entries)
    else if name == Ascii("runtime") then RuntimeVerdict(entries)
    else if name == Ascii("context") then ContextVerdict(entries)
    else if name == Ascii("routine") then if |keys| != 1 then Fail else One(entries, Ascii("proc"))
    else if name == Ascii("attribute") then AttributeVerdict(entries)
    else Fail
  }

  /** `check`. */
  method Check(section: Section, keys: seq<Str>) returns (verdict: Verdict)
    requires forall k :: k in keys <==> k in section.entries
    modifies section
    ensures verdict == CheckVerdict(section.name, old(section.entries), keys)
    ensures verdict == Pass ==> section.entries == Defaults(section.name, old(section.entries))
  {
    hide Ascii, MetaVerdict, BuffersVerdict, RuntimeVerdict, AttributeVerdict;
    if section.name == Ascii("meta") { verdict := CheckMeta(section, keys); }
    else if section.name == Ascii("buffers") { verdict := CheckBuffers(section, keys); }
    else if section.name == Ascii("runtime") { verdict := CheckRuntime(section); }
    else if section.name == Ascii("context") {
      verdict := One(section.entries, Ascii("parent"));
      if verdict == Pass && Ascii("lazypar") in keys { verdict := One(section.entries, Ascii("lazypar")); }
      if verdict == Pass && Ascii("persistentpar") in keys { verdict := One(section.entries, Ascii("persistent")); }
    }
    else if section.name == Ascii("routine") {
      verdict := if |keys| != 1 then Fail else One(section.entries, Ascii("proc"));
    }
    else if section.name == Ascii("attribute") { verdict := CheckAttribute(section, keys); }
    else { verdict := Fail; }
  }

  // ---------- what passes ----------

  ghost predicate Single(entries: Entries, key: Str) { key in entries && |entries[key]| == 1 }

  /** One value, and it is one of the choices. */
  ghost predicate Choice(entries: Entries, key: Str, choices: seq<Str>) {
    Single(entries, key) && entries[key][0].Text? && entries[key][0].s in choices
  }

  ghost predicate Is(entries: Entries, key: Str, s: string) {
    Single(entries, key) && entries[key][0] == Text(Ascii(s))
  }

  ghost predicate Bound(entries: Entries, name: Str) {
    var key := name + Ascii("bind");
    || Is(entries, key, "free")
    || (Is(entries, key, "imm") && Choice(entries, name + Ascii("immtype"), IMMTYPES)
        && Single(entries, name + Ascii("immvalue")))
    || (Is(entries, key, "remote") && Choice(entries, name + Ascii("remotetype"), PLACES)
        && Single(entries, name + Ascii("remotevalue")))
    || (Is(entries, key, "eng") && Single(entries, name + Ascii("engid")) && Single(entries, name + Ascii("engbuf")))
  }

  ghost predicate Counted(entries: Entries, key: Str) {
    Single(entries, key) && entries[key][0].Integer? && entries[key][0].i.IDouble?
  }

  /** A declared buffer: an extra one, or a numbered input or output. */
  ghost predicate Declared(entries: Entries, name: Str)
    requires Counted(entries, Ascii("inputs")) && Counted(entries, Ascii("outputs"))
  {
    || (Ascii("extra") in entries && Text(name) in entries[Ascii("extra")])
    || IsNumbered("input", Count(entries, Ascii("inputs")), name)
    || IsNumbered("output", Count(entries, Ascii("outputs")), name)
  }

  ghost predicate IsNumbered(prefix: string, n: nat, name: Str) {
    exists i :: 0 <= i < n && name == Ascii(prefix + Decimal(i))
  }

  ghost predicate ValidBuffers(entries: Entries) {
    && Counted(entries, Ascii("inputs")) && Counted(entries, Ascii("outputs"))
    && (forall k, s :: k in REFERRING && k in entries && Text(s) in entries[k] ==> Declared(entries, s))
    && (forall s :: Declared(entries, s) ==> Bound(entries, s))
  }

  ghost predicate ValidRuntime(entries: Entries) {
    && Ascii("deps") in entries
    && forall s :: Text(s) in entries[Ascii("deps")] ==>
         && Choice(entries, s + Ascii("type"), PLACES)
         && Single(entries, s + Ascii("path")) && Single(entries, s + Ascii("relative"))
  }

  /** What `check` asks of a section, by its name. */
  ghost predicate ValidSection(name: Str, entries: Entries) {
    || (name == Ascii("meta") && forall k :: k in NAMED ==> Single(entries, k))
    || (name == Ascii("buffers") && ValidBuffers(entries))
    || (name == Ascii("runtime") && ValidRuntime(entries))
    || (name == Ascii("context") && Single(entries, Ascii("parent"))
        && (Ascii("lazypar") in entries ==> Single(entries, Ascii("lazypar")))
        && (Ascii("persistentpar") in entries ==> Single(entries, Ascii("persistent"))))
    || (name == Ascii("routine") && entries.Keys == {Ascii("proc")} && Single(entries, Ascii("proc")))
    || (name == Ascii("attribute")
        && forall k :: k in entries ==> k in {Ascii("lazy"), Ascii("persistent")} && Single(entries, k))
  }

  lemma BindsDiffer()
    ensures |multiset(BINDS)| == 4 && forall b :: b in BINDS <==> b in {Ascii("free"), Ascii("imm"), Ascii("remote"), Ascii("eng")}
    ensures Ascii("free") != Ascii("imm") && Ascii("free") != Ascii("remote") && Ascii("free") != Ascii("eng")
    ensures Ascii("imm") != Ascii("remote") && Ascii("imm") != Ascii("eng") && Ascii("remote") != Ascii("eng")
  {
    assert Ascii("imm")[0] != Ascii("eng")[0];
  }

  lemma BoundExactly(entries: Entries, name: Str)
    ensures BindVerdict(entries, name) == Pass <==> Bound(entries, name)
  {
    BindsDiffer();
    hide Ascii;
  }

  lemma {:induction false} BindsExactly(entries: Entries, names: seq<Str>)
    ensures BindVerdicts(entries, names) == Pass <==> forall s :: s in names ==> Bound(entries, s)
  {
    hide Bound, BindVerdict;
    if names != [] {
      BoundExactly(entries, names[0]);
      BindsExactly(entries, names[1..]);
      assert names == [names[0]] + names[1..];
    }
  }

  lemma {:induction false} ReferencesExactly(entries: Entries, keys: seq<Str>, names: seq<Str>)
    ensures ReferVerdict(entries, keys, names) == Pass
       <==> forall k, s :: k in keys && k in entries && Text(s) in entries[k] ==> s in names
  {
    if keys != [] {
      var k := keys[0];
      ReferencesExactly(entries, keys[1..], names);
      assert keys == [k] + keys[1..];
      assert k in entries ==> forall s :: s in Texts(entries[k]) <==> Text(s) in entries[k] by {
        if k in entries {
          forall s ensures s in Texts(entries[k]) <==> Text(s) in entries[k] { TextsAre(entries[k], s); }
        }
      }
    }
  }

  lemma {:induction false} DepsExactly(entries: Entries, names: seq<Str>)
    ensures DepVerdicts(entries, names) == Pass
       <==> forall s :: s in names ==>
              && Choice(entries, s + Ascii("type"), PLACES)
              && Single(entries, s + Ascii("path")) && Single(entries, s + Ascii("relative"))
  {
    hide Ascii;
    if names != [] {
      DepsExactly(entries, names[1..]);
      assert names == [names[0]] + names[1..];
    }
  }

  lemma NamesAreDeclared(entries: Entries, s: Str)
    requires Counted(entries, Ascii("inputs")) && Counted(entries, Ascii("outputs"))
    ensures s in BufferNames(entries, Count(entries, Ascii("inputs")), Count(entries, Ascii("outputs")))
       <==> Declared(entries, s)
  {
    var a, b := Count(entries, Ascii("inputs")), Count(entries, Ascii("outputs"));
    hide Ascii, Numbered, IsNumbered;
    if Ascii("extra") in entries { TextsAre(entries[Ascii("extra")], s); }
    NumberedAre("input", a, s);
    NumberedAre("output", b, s);
    assert s in BufferNames(entries, a, b)
      <==> s in TextsUnder(entries, Ascii("extra")) || s in Numbered("input", a) || s in Numbered("output", b);
  }

  lemma NumberedAre(prefix: string, n: nat, s: Str)
    ensures s in Numbered(prefix, n) <==> IsNumbered(prefix, n, s)
  {
    hide Ascii, Decimal;
    if i :| 0 <= i < n && s == Ascii(prefix + Decimal(i)) {
      assert Numbered(prefix, n)[i] == s;
    }
  }

  lemma BuffersExactly(entries: Entries)
    ensures BuffersVerdict(entries) == Pass <==> ValidBuffers(entries)
  {
    hide Ascii, BindVerdicts, Bound, ReferVerdict, BufferNames, Declared;
    var ins, outs := Ascii("inputs"), Ascii("outputs");
    if Counted(entries, ins) && Counted(entries, outs) {
      var names := BufferNames(entries, Count(entries, ins), Count(entries, outs));
      BindsExactly(entries, names);
      ReferencesExactly(entries, REFERRING, names);
      forall s ensures s in names <==> Declared(entries, s) { NamesAreDeclared(entries, s); }
    }
  }

  lemma RuntimeExactly(entries: Entries)
    ensures RuntimeVerdict(entries) == Pass <==> ValidRuntime(entries)
  {
    hide Ascii, DepVerdicts, Texts;
    if Ascii("deps") in entries {
      var deps := entries[Ascii("deps")];
      DepsExactly(entries, Texts(deps));
      forall s ensures s in Texts(deps) <==> Text(s) in deps { TextsAre(deps, s); }
    }
  }

  lemma MetaExactly(entries: Entries)
    ensures MetaVerdict(entries) == Pass
       <==> forall k :: k in NAMED ==> Single(Defaults(Ascii("meta"), entries), k)
  {
    NamesDiffer();
    hide Ascii;
    assert NAMED[0] == Ascii("name") && NAMED[1] == Ascii("description") && NAMED[2] == Ascii("mid");
    var e := Defaults(Ascii("meta"), entries);
    assert NAMED[0] in NAMED && NAMED[1] in NAMED && NAMED[2] in NAMED;
    assert forall k :: k in NAMED <==> k == NAMED[0] || k == NAMED[1] || k == NAMED[2];
  }

  lemma SectionNamesDiffer()
    ensures Ascii("meta") !in {Ascii("buffers"), Ascii("runtime"), Ascii("context"), Ascii("routine"), Ascii("attribute")}
    ensures Ascii("buffers") !in {Ascii("runtime"), Ascii("context"), Ascii("routine"), Ascii("attribute")}
    ensures Ascii("runtime") !in {Ascii("context"), Ascii("routine"), Ascii("attribute")}
    ensures Ascii("context") !in {Ascii("routine"), Ascii("attribute")}
    ensures Ascii("routine") != Ascii("attribute")
  {
    assert Ascii("runtime")[1] != Ascii("context")[1] && Ascii("runtime")[1] != Ascii("routine")[1];
    assert Ascii("context")[0] != Ascii("routine")[0] && Ascii("buffers")[0] != Ascii("runtime")[0];
    assert Ascii("buffers")[0] != Ascii("context")[0] && Ascii("buffers")[0] != Ascii("routine")[0];
  }

  /** `check` passes exactly the valid sections; only a "routine" also counts its properties. */
  lemma CheckExactly(name: Str, entries: Entries, keys: seq<Str>)
    requires name == Ascii("routine") ==>
               (|keys| == 1 && Ascii("proc") in entries
                <==> entries.Keys == {Ascii("proc")} && |entries[Ascii("proc")]| == 1)
    ensures CheckVerdict(name, entries, keys) == Pass <==> ValidSection(name, Defaults(name, entries))
  {
    SectionNamesDiffer();
    MetaExactly(entries);
    BuffersExactly(entries);
    RuntimeExactly(entries);
    hide Ascii, ValidBuffers, ValidRuntime, BuffersVerdict, RuntimeVerdict, MetaVerdict;
  }

  // ---------- which words count, and when it panics ----------

  /** The words of each list. */
  lemma Words()
    ensures forall b :: b in BINDS <==> b in {Ascii("free"), Ascii("imm"), Ascii("remote"), Ascii("eng")}
    ensures forall b :: b in IMMTYPES <==> b in {Ascii("empty"), Ascii("imm"), Ascii("file"), Ascii("url"), Ascii("id")}
    ensures forall b :: b in PLACES <==> b in {Ascii("file"), Ascii("url"), Ascii("id")}
    ensures forall b :: b in REFERRING <==> b in {Ascii("unspecific"), Ascii("pilotage"), Ascii("lane")}
    ensures forall b :: b in NAMED <==> b in {Ascii("name"), Ascii("description"), Ascii("mid")}
  {
  }

  /** A reference to a buffer that is not declared fails, under each of the three keys. */
  lemma UndeclaredReferenceFails(entries: Entries, key: Str, s: Str)
    requires key == Ascii("unspecific") || key == Ascii("pilotage") || key == Ascii("lane")
    requires Counted(entries, Ascii("inputs")) && Counted(entries, Ascii("outputs"))
    requires key in entries && Text(s) in entries[key] && !Declared(entries, s)
    ensures BuffersVerdict(entries) == Fail
  {
    Words();
    var names := BufferNames(entries, Count(entries, Ascii("inputs")), Count(entries, Ascii("outputs")));
    NamesAreDeclared(entries, s);
    ReferencesExactly(entries, REFERRING, names);
    NeverPanicsThere(entries, REFERRING, names);
    hide Ascii, ReferVerdict, BindVerdicts, BufferNames, Declared;
  }

  lemma {:induction false} NeverPanicsThere(entries: Entries, keys: seq<Str>, names: seq<Str>)
    ensures ReferVerdict(entries, keys, names) != Panic
  {
    if keys != [] { NeverPanicsThere(entries, keys[1..], names); }
  }

  /** An `expect` on a missing key, or an `unwrap` of a single value that is no string. */
  ghost predicate Lost(entries: Entries, key: Str) {
    key !in entries || (Single(entries, key) && !entries[key][0].Text?)
  }

  /** What panics for one buffer. */
  ghost predicate BindPanics(entries: Entries, name: Str) {
    var key := name + Ascii("bind");
    || Lost(entries, key)
    || (Is(entries, key, "imm")
        && (Lost(entries, name + Ascii("immtype"))
            || (Choice(entries, name + Ascii("immtype"), IMMTYPES) && name + Ascii("immvalue") !in entries)))
    || (Is(entries, key, "remote")
        && (Lost(entries, name + Ascii("remotetype"))
            || (Choice(entries, name + Ascii("remotetype"), PLACES) && name + Ascii("remotevalue") !in entries)))
    || (Is(entries, key, "eng") && (name + Ascii("engid") !in entries || name + Ascii("engbuf") !in entries))
  }

  lemma BindPanicsExactly(entries: Entries, name: Str)
    ensures BindVerdict(entries, name) == Panic <==> BindPanics(entries, name)
  {
    BindsDiffer();
    hide Ascii;
  }

  /** The first name that is not as it should be decides. */
  ghost predicate FirstPanics(names: seq<Str>, fine: Str -> bool, panics: Str -> bool) {
    exists i :: 0 <= i < |names| && panics(names[i]) && forall j :: 0 <= j < i ==> fine(names[j])
  }

  lemma FirstPanicsStep(names: seq<Str>, fine: Str -> bool, panics: Str -> bool)
    requires names != [] && !(fine(names[0]) && panics(names[0]))
    ensures FirstPanics(names, fine, panics)
       <==> panics(names[0]) || (fine(names[0]) && FirstPanics(names[1..], fine, panics))
  {
    if FirstPanics(names, fine, panics) {
      var i :| 0 <= i < |names| && panics(names[i]) && forall j :: 0 <= j < i ==> fine(names[j]);
      if i > 0 {
        assert names[1..][i - 1] == names[i];
        assert forall j :: 0 <= j < i - 1 ==> names[1..][j] == names[j + 1];
      }
    }
    if fine(names[0]) && FirstPanics(names[1..], fine, panics) {
      var i :| 0 <= i < |names[1..]| && panics(names[1..][i]) && forall j :: 0 <= j < i ==> fine(names[1..][j]);
      assert names[i + 1] == names[1..][i];
      forall j | 0 <= j < i + 1 ensures fine(names[j]) {
        if j > 0 { assert names[1..][j - 1] == names[j]; }
      }
    }
  }

  lemma {:induction false} BindsPanicExactly(entries: Entries, names: seq<Str>)
    ensures BindVerdicts(entries, names) == Panic
       <==> FirstPanics(names, s => Bound(entries, s), s => BindPanics(entries, s))
  {
    hide Bound, BindPanics, BindVerdict, FirstPanics;
    if names == [] {
      assert !FirstPanics([], s => Bound(entries, s), s => BindPanics(entries, s)) by { NoFirst(s => Bound(entries, s), s => BindPanics(entries, s)); }
    } else {
      BoundExactly(entries, names[0]);
      BindPanicsExactly(entries, names[0]);
      BindsPanicExactly(entries, names[1..]);
      FirstPanicsStep(names, s => Bound(entries, s), s => BindPanics(entries, s));
    }
  }

  lemma NoFirst(fine: Str -> bool, panics: Str -> bool)
    ensures !FirstPanics([], fine, panics)
  {
  }

  ghost predicate DepFine(entries: Entries, s: Str) {
    && Choice(entries, s + Ascii("type"), PLACES)
    && Single(entries, s + Ascii("path")) && Single(entries, s + Ascii("relative"))
  }

  ghost predicate DepPanics(entries: Entries, s: Str) {
    || Lost(entries, s + Ascii("type"))
    || (Choice(entries, s + Ascii("type"), PLACES)
        && (s + Ascii("path") !in entries || s + Ascii("relative") !in entries))
  }

  lemma {:induction false} DepsPanicExactly(entries: Entries, names: seq<Str>)
    ensures DepVerdicts(entries, names) == Panic
       <==> FirstPanics(names, s => DepFine(entries, s), s => DepPanics(entries, s))
  {
    hide Ascii, FirstPanics;
    if names == [] {
      NoFirst(s => DepFine(entries, s), s => DepPanics(entries, s));
    } else {
      DepsPanicExactly(entries, names[1..]);
      FirstPanicsStep(names, s => DepFine(entries, s), s => DepPanics(entries, s));
    }
  }

  /** When `check` panics on a section.  Whatever is not valid and does not panic fails. */
  ghost predicate CheckPanics(name: Str, entries: Entries, keys: seq<Str>) {
    || (name == Ascii("buffers") && BuffersPanic(entries))
    || (name == Ascii("runtime") && RuntimePanics(entries))
    || (name == Ascii("context") && ContextPanics(entries))
    || (name == Ascii("routine") && |keys| == 1 && Ascii("proc") !in entries)
  }

  /** No parent, or, as written, "persistentpar" without "persistent" once the parent and the other flag
      have passed. */
  ghost predicate ContextPanics(entries: Entries) {
    || Ascii("parent") !in entries
    || (Single(entries, Ascii("parent"))
        && (Ascii("lazypar") in entries ==> Single(entries, Ascii("lazypar")))
        && Ascii("persistentpar") in entries && Ascii("persistent") !in entries)
  }

  ghost predicate BuffersPanic(entries: Entries) {
    var ins, outs := Ascii("inputs"), Ascii("outputs");
    && ins in entries && outs in entries
    && ((Single(entries, ins) && !Counted(entries, ins))
        || (Counted(entries, ins) && Single(entries, outs) && !Counted(entries, outs))
        || (Counted(entries, ins) && Counted(entries, outs)
            && (forall k, s :: k in REFERRING && k in entries && Text(s) in entries[k] ==> Declared(entries, s))
            && FirstPanics(BufferNames(entries, Count(entries, ins), Count(entries, outs)),
                           s => Bound(entries, s), s => BindPanics(entries, s))))
  }

  lemma BuffersPanicExactly(entries: Entries)
    ensures BuffersVerdict(entries) == Panic <==> BuffersPanic(entries)
  {
    hide Ascii, BindVerdicts, Bound, BindPanics, ReferVerdict, BufferNames, Declared, FirstPanics;
    var ins, outs := Ascii("inputs"), Ascii("outputs");
    if Counted(entries, ins) && Counted(entries, outs) {
      var names := BufferNames(entries, Count(entries, ins), Count(entries, outs));
      BindsPanicExactly(entries, names);
      ReferencesExactly(entries, REFERRING, names);
      NeverPanicsThere(entries, REFERRING, names);
      forall s ensures s in names <==> Declared(entries, s) { NamesAreDeclared(entries, s); }
    }
  }

  ghost predicate RuntimePanics(entries: Entries) {
    || Ascii("deps") !in entries
    || FirstPanics(Texts(entries[Ascii("deps")]), s => DepFine(entries, s), s => DepPanics(entries, s))
  }

  lemma RuntimePanicsExactly(entries: Entries)
    ensures RuntimeVerdict(entries) == Panic <==> RuntimePanics(entries)
  {
    hide Ascii, DepVerdicts, Texts, FirstPanics, DepFine, DepPanics;
    if Ascii("deps") in entries { DepsPanicExactly(entries, Texts(entries[Ascii("deps")])); }
  }

  lemma MetaNeverPanics(entries: Entries)
    ensures MetaVerdict(entries) != Panic
  {
    NamesDiffer();
    hide Ascii;
  }

  lemma CheckPanicsExactly(name: Str, entries: Entries, keys: seq<Str>)
    ensures CheckVerdict(name, entries, keys) == Panic <==> CheckPanics(name, entries, keys)
  {
    SectionNamesDiffer();
    BuffersPanicExactly(entries);
    RuntimePanicsExactly(entries);
    MetaNeverPanics(entries);
    hide Ascii, BuffersVerdict, BuffersPanic, RuntimeVerdict, RuntimePanics, MetaVerdict;
  }
}
