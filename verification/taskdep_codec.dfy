/**
 The conversion between task requests and their wire records (`proto/taskdep/message.cc`).

 The wire record is kept by a perfect store: a field that was set comes back, a field that was not
 reads as its default.
 */
module TaskdepCodec {
  import opened Prelude

  // ---------- endpoints ----------

  datatype Authstring = Authstring(token: string, name: string, key: string, prvkey: string, pubkey: string)

  datatype Endpoint = Endpoint(
    proto: string, url: string, port: U32, path: string, authtype: U32, authstring: seq<Authstring>)

  datatype WireAuth = WireAuth(token: string, name: string, key: string, prvkey: string, pubkey: string)

  datatype WireEndpoint = WireEndpoint(
    proto: string, url: string, port: U32, path: string, authtype: U32, authstring: seq<WireAuth>)

  const FRESH_ENDPOINT := Endpoint("", "", 0, "", 0, [])

  predicate KnownProto(p: string) {
    p in {"file", "tcp", "tls", "http", "https", "ssh", "jxtd"}
  }

  /** What the setters let through. */
  predicate ValidEndpoint(e: Endpoint) {
    (e.proto == "" || KnownProto(e.proto)) && e.authtype < 5
  }

  function EncodeAuth(a: Authstring): WireAuth { WireAuth(a.token, a.name, a.key, a.prvkey, a.pubkey) }

  function DecodeAuth(a: WireAuth): Authstring { Authstring(a.token, a.name, a.key, a.prvkey, a.pubkey) }

  function EncodeAuths(s: seq<Authstring>): seq<WireAuth> {
    if s == [] then [] else EncodeAuths(s[..|s| - 1]) + [EncodeAuth(s[|s| - 1])]
  }

  function DecodeAuths(s: seq<WireAuth>): seq<Authstring> {
    if s == [] then [] else DecodeAuths(s[..|s| - 1]) + [DecodeAuth(s[|s| - 1])]
  }

  function EncodeEndpoint(e: Endpoint): WireEndpoint {
    WireEndpoint(e.proto, e.url, e.port, e.path, e.authtype, EncodeAuths(e.authstring))
  }

  /** `assignENDPOINT`: setters that refuse leave the old value, authstrings are appended. */
  function DecodeEndpoint(w: WireEndpoint, dest: Endpoint): Endpoint {
    Endpoint(if KnownProto(w.proto) then w.proto else dest.proto, w.url, w.port, w.path,
             if w.authtype < 5 then w.authtype else dest.authtype, dest.authstring + DecodeAuths(w.authstring))
  }

  method AssignEndpoint(src: Endpoint) returns (dest: WireEndpoint)
    ensures dest == EncodeEndpoint(src)
  {
    dest := WireEndpoint(src.proto, src.url, src.port, src.path, src.authtype, []);
    for i := 0 to |src.authstring|
      invariant dest == EncodeEndpoint(src).(authstring := EncodeAuths(src.authstring[..i]))
    {
      var a := src.authstring[i];
      assert src.authstring[..i + 1][..i] == src.authstring[..i];
      dest := dest.(authstring := dest.authstring + [WireAuth(a.token, a.name, a.key, a.prvkey, a.pubkey)]);
    }
    assert src.authstring[..|src.authstring|] == src.authstring;
  }

  method AssignENDPOINT(src: WireEndpoint, old_: Endpoint) returns (dest: Endpoint)
    ensures dest == DecodeEndpoint(src, old_)
  {
    dest := old_;
    if KnownProto(src.proto) { dest := dest.(proto := src.proto); }
    dest := dest.(url := src.url, port := src.port, path := src.path);
    if src.authtype < 5 { dest := dest.(authtype := src.authtype); }
    for i := 0 to |src.authstring|
      invariant dest == DecodeEndpoint(src, old_).(authstring := old_.authstring + DecodeAuths(src.authstring[..i]))
    {
      var a := src.authstring[i];
      assert src.authstring[..i + 1][..i] == src.authstring[..i];
      Assoc(old_.authstring, DecodeAuths(src.authstring[..i]), [DecodeAuth(a)]);
      dest := dest.(authstring := dest.authstring + [Authstring(a.token, a.name, a.key, a.prvkey, a.pubkey)]);
    }
    assert src.authstring[..|src.authstring|] == src.authstring;
  }

  lemma DecodeAuthsPush(s: seq<WireAuth>, a: WireAuth)
    ensures DecodeAuths(s + [a]) == DecodeAuths(s) + [DecodeAuth(a)]
  {
    hide DecodeAuth;
    assert (s + [a])[..|s|] == s;
  }

  lemma {:induction false} AuthsComeBack(s: seq<Authstring>)
    ensures DecodeAuths(EncodeAuths(s)) == s
  {
    hide DecodeAuths;
    if s == [] {
      NoAuths();
    } else {
      var front, last := s[..|s| - 1], s[|s| - 1];
      AuthsComeBack(front);
      DecodeAuthsPush(EncodeAuths(front), EncodeAuth(last));
      assert front + [last] == s;
    }
  }

  lemma NoAuths()
    ensures DecodeAuths([]) == []
  {
  }

  /** When decoding `e` over `dest` leaves nothing of `dest` behind. */
  predicate Clean(e: Endpoint, dest: Endpoint) {
    dest.authstring == [] && (e.proto == "" ==> dest.proto == "")
  }

  /** Decoding gives a valid endpoint back over a destination if and only if that destination has
      no authstrings, nor a protocol the source lacks. */
  lemma EndpointExactly(e: Endpoint, dest: Endpoint)
    requires ValidEndpoint(e)
    ensures DecodeEndpoint(EncodeEndpoint(e), dest) == e <==> Clean(e, dest)
  {
    AuthsComeBack(e.authstring);
    assert |dest.authstring + e.authstring| == |dest.authstring| + |e.authstring|;
    if dest.authstring == [] { assert [] + e.authstring == e.authstring; }
  }

  /** What the setters take: the seven names of protocols and the five authtypes.  The rest of the
      record is taken as it is, and the new authstrings come after the old ones. */
  lemma SettersExactly(w: WireEndpoint, dest: Endpoint)
    ensures var e := DecodeEndpoint(w, dest);
            && e.proto == (if w.proto in ["file", "tcp", "tls", "http", "https", "ssh", "jxtd"] then w.proto else dest.proto)
            && (w.authtype <= 4 ==> e.authtype == w.authtype) && (w.authtype > 4 ==> e.authtype == dest.authtype)
            && e.url == w.url && e.port == w.port && e.path == w.path
            && |e.authstring| == |dest.authstring| + |w.authstring|
            && (forall i :: 0 <= i < |dest.authstring| ==> e.authstring[i] == dest.authstring[i])
            && (forall i :: 0 <= i < |w.authstring| ==>
                  var x, y := w.authstring[i], e.authstring[|dest.authstring| + i];
                  y.token == x.token && y.name == x.name && y.key == x.key && y.prvkey == x.prvkey && y.pubkey == x.pubkey)
  {
    AuthsAt(w.authstring);
  }

  lemma {:induction false} AuthsAt(s: seq<WireAuth>)
    ensures |DecodeAuths(s)| == |s| && forall i :: 0 <= i < |s| ==> DecodeAuths(s)[i] == DecodeAuth(s[i])
  {
    if s != [] { AuthsAt(s[..|s| - 1]); }
  }

  // ---------- engines ----------

  datatype Extfile = Extfile(storage: Endpoint, path: string)
  datatype Engine = Engine(binary: string, id: string, name: string, deps: seq<Engine>, extfiles: seq<Extfile>)

  datatype WireExtfile = WireExtfile(storage: WireEndpoint, path: string)
  datatype WireEngine = WireEngine(
    binary: Option<string>, id: Option<string>, name: Option<string>, deps: seq<WireEngine>, extfiles: seq<WireExtfile>)

  const EMPTY_ENGINE := Engine("", "", "", [], [])

  function SetIfAny(s: string): Option<string> { if s != "" then Some(s) else None }
  function GetOr(o: Option<string>): string { match o case Some(s) => s case None => "" }

  function EncodeExtfiles(s: seq<Extfile>): seq<WireExtfile> {
    if s == [] then []
    else EncodeExtfiles(s[..|s| - 1]) + [WireExtfile(EncodeEndpoint(s[|s| - 1].storage), s[|s| - 1].path)]
  }

  function DecodeExtfiles(s: seq<WireExtfile>): seq<Extfile> {
    if s == [] then []
    else DecodeExtfiles(s[..|s| - 1]) + [Extfile(DecodeEndpoint(s[|s| - 1].storage, FRESH_ENDPOINT), s[|s| - 1].path)]
  }

  /** `assignEngine`, for trees of any depth and width. */
  function EncodeEngine(e: Engine): WireEngine
    decreases e, 1
  {
    WireEngine(SetIfAny(e.binary), SetIfAny(e.id), SetIfAny(e.name), EncodeEngines(e.deps), EncodeExtfiles(e.extfiles))
  }

  function EncodeEngines(s: seq<Engine>): seq<WireEngine>
    decreases s, 0
  {
    if s == [] then [] else EncodeEngines(s[..|s| - 1]) + [EncodeEngine(s[|s| - 1])]
  }

  /** `assignENGINE`: the destination's lists are cleared first, so it leaves no trace. */
  function DecodeEngine(w: WireEngine): Engine
    decreases w, 1
  {
    Engine(GetOr(w.binary), GetOr(w.id), GetOr(w.name), DecodeEngines(w.deps), DecodeExtfiles(w.extfiles))
  }

  function DecodeEngines(s: seq<WireEngine>): seq<Engine>
    decreases s, 0
  {
    if s == [] then [] else DecodeEngines(s[..|s| - 1]) + [DecodeEngine(s[|s| - 1])]
  }

  method AssignEngine(src: Engine) returns (dest: WireEngine)
    ensures dest == EncodeEngine(src)
    decreases src
  {
    dest := WireEngine(None, None, None, [], []);
    if src.binary != "" { dest := dest.(binary := Some(src.binary)); }
    if src.id != "" { dest := dest.(id := Some(src.id)); }
    if src.name != "" { dest := dest.(name := Some(src.name)); }
    for i := 0 to |src.extfiles|
      invariant dest == EncodeEngine(src).(deps := [], extfiles := EncodeExtfiles(src.extfiles[..i]))
    {
      assert src.extfiles[..i + 1][..i] == src.extfiles[..i];
      var storage := AssignEndpoint(src.extfiles[i].storage);
      dest := dest.(extfiles := dest.extfiles + [WireExtfile(storage, src.extfiles[i].path)]);
    }
    assert src.extfiles[..|src.extfiles|] == src.extfiles;
    for i := 0 to |src.deps|
      invariant dest == EncodeEngine(src).(deps := EncodeEngines(src.deps[..i]))
    {
      assert src.deps[..i + 1][..i] == src.deps[..i];
      var dep := AssignEngine(src.deps[i]);
      dest := dest.(deps := dest.deps + [dep]);
    }
    assert src.deps[..|src.deps|] == src.deps;
  }

  method AssignENGINE(src: WireEngine, old_: Engine) returns (dest: Engine)
    ensures dest == DecodeEngine(src)
    decreases src
  {
    dest := old_.(binary := GetOr(src.binary), id := GetOr(src.id), name := GetOr(src.name));
    dest := dest.(deps := [], extfiles := []);
    for i := 0 to |src.extfiles|
      invariant dest == DecodeEngine(src).(deps := [], extfiles := DecodeExtfiles(src.extfiles[..i]))
    {
      assert src.extfiles[..i + 1][..i] == src.extfiles[..i];
      var storage := AssignENDPOINT(src.extfiles[i].storage, FRESH_ENDPOINT);
      dest := dest.(extfiles := dest.extfiles + [Extfile(storage, src.extfiles[i].path)]);
    }
    assert src.extfiles[..|src.extfiles|] == src.extfiles;
    for i := 0 to |src.deps|
      invariant dest == DecodeEngine(src).(deps := DecodeEngines(src.deps[..i]))
    {
      assert src.deps[..i + 1][..i] == src.deps[..i];
      var dep := AssignENGINE(src.deps[i], EMPTY_ENGINE);
      dest := dest.(deps := dest.deps + [dep]);
    }
    assert src.deps[..|src.deps|] == src.deps;
  }

  predicate ValidExtfiles(s: seq<Extfile>) {
    forall i :: 0 <= i < |s| ==> ValidEndpoint(s[i].storage)
  }

  predicate ValidEngine(e: Engine) {
    ValidExtfiles(e.extfiles) && forall i :: 0 <= i < |e.deps| ==> ValidEngine(e.deps[i])
  }

  lemma DecodeExtfilesPush(s: seq<WireExtfile>, x: WireExtfile)
    ensures DecodeExtfiles(s + [x]) == DecodeExtfiles(s) + [Extfile(DecodeEndpoint(x.storage, FRESH_ENDPOINT), x.path)]
  {
    hide DecodeEndpoint;
    assert (s + [x])[..|s|] == s;
  }

  lemma {:induction false} ExtfilesComeBack(s: seq<Extfile>)
    requires ValidExtfiles(s)
    ensures DecodeExtfiles(EncodeExtfiles(s)) == s
  {
    hide DecodeExtfiles, DecodeEndpoint, EncodeEndpoint, ValidEndpoint;
    if s == [] {
      NoExtfiles();
    } else {
      var front, last := s[..|s| - 1], s[|s| - 1];
      ExtfilesComeBack(front);
      EndpointExactly(last.storage, FRESH_ENDPOINT);
      DecodeExtfilesPush(EncodeExtfiles(front), WireExtfile(EncodeEndpoint(last.storage), last.path));
      assert front + [last] == s;
    }
  }

  lemma NoExtfiles()
    ensures DecodeExtfiles([]) == []
  {
  }

  /** Engine trees come back whole. */
  lemma {:induction false} EngineComesBack(e: Engine)
    requires ValidEngine(e)
    ensures DecodeEngine(EncodeEngine(e)) == e
    decreases e, 1
  {
    ExtfilesComeBack(e.extfiles);
    EnginesComeBack(e.deps);
  }

  lemma {:induction false} EnginesComeBack(s: seq<Engine>)
    requires forall i :: 0 <= i < |s| ==> ValidEngine(s[i])
    ensures DecodeEngines(EncodeEngines(s)) == s
    decreases s, 0
  {
    hide DecodeEngine, DecodeEngines, EncodeEngine, ValidEngine;
    if s == [] {
      NoEngines();
    } else {
      var front, last := s[..|s| - 1], s[|s| - 1];
      EnginesComeBack(front);
      EngineComesBack(last);
      DecodeEnginesPush(EncodeEngines(front), EncodeEngine(last));
      assert front + [last] == s;
    }
  }

  lemma DecodeEnginesPush(s: seq<WireEngine>, w: WireEngine)
    ensures DecodeEngines(s + [w]) == DecodeEngines(s) + [DecodeEngine(w)]
  {
    hide DecodeEngine;
    assert (s + [w])[..|s|] == s;
  }

  lemma NoEngines()
    ensures DecodeEngines([]) == []
  {
  }

  // ---------- requests ----------

  datatype Src = Src(input: string, sourceType: string)
  datatype Dest = Dest(output: string, directoryPolicy: U32, emptyPolicy: U32)
  datatype Datasource = Datasource(src: Src, dest: Dest)
  datatype Period = Period(interval: U32, resultPolicy: U32, triggerPolicy: U32, backupId: seq<U32>)
  datatype Attr = Attr(trigger: U32, period: Option<Period>, deps: seq<U64>, virtStorage: bool)

  // The records, in the order of their fields; a message field may be absent, and then reads as empty.
  datatype WireSrc = WireSrc(input: string, sourceType: string)
  datatype WireDest = WireDest(output: string, directoryPolicy: U32, emptyPolicy: U32)
  datatype WireDatasource = WireDatasource(src: Option<WireSrc>, dest: Option<WireDest>)
  datatype WirePeriod = WirePeriod(interval: U32, resultPolicy: U32, triggerPolicy: U32, backupId: seq<U32>)
  datatype WireAttr = WireAttr(trigger: U32, period: Option<WirePeriod>, deps: seq<U64>, virtStorage: bool)

  function EncodeDatasource(d: Datasource): WireDatasource {
    WireDatasource(Some(WireSrc(d.src.input, d.src.sourceType)),
                   Some(WireDest(d.dest.output, d.dest.directoryPolicy, d.dest.emptyPolicy)))
  }

  function DecodeDatasource(w: WireDatasource): Datasource {
    var src := match w.src case Some(s) => s case None => WireSrc("", "");
    var dest := match w.dest case Some(d) => d case None => WireDest("", 0, 0);
    Datasource(Src(src.input, src.sourceType), Dest(dest.output, dest.directoryPolicy, dest.emptyPolicy))
  }

  function EncodeAttr(a: Attr): WireAttr {
    WireAttr(a.trigger,
             match a.period
             case None => None
             case Some(p) => Some(WirePeriod(p.interval, p.resultPolicy, p.triggerPolicy, p.backupId)),
             a.deps, a.virtStorage)
  }

  function DecodeAttr(w: WireAttr): Attr {
    Attr(w.trigger,
         match w.period
         case None => None
         case Some(p) => Some(Period(p.interval, p.resultPolicy, p.triggerPolicy, p.backupId)),
         w.deps, w.virtStorage)
  }

  /** The datasource and attr parts come back, whatever the object decoded into held before. */
  lemma PartsComeBack(d: Datasource, a: Attr)
    ensures DecodeDatasource(EncodeDatasource(d)) == d && DecodeAttr(EncodeAttr(a)) == a
    ensures EncodeAttr(EMPTY_ATTR) == EMPTY_WIRE_ATTR
  {
  }

  /** The elements of a list, appended one by one. */
  method Appended<T>(start: seq<T>, items: seq<T>) returns (r: seq<T>)
    ensures r == start + items && (start == [] ==> r == items)
  {
    r := start;
    for i := 0 to |items|
      invariant r == start + items[..i]
    {
      r := r + [items[i]];
    }
    assert items[..|items|] == items;
  }

  /** The datasource fields of `encode`. */
  method PutDatasource(d: Datasource) returns (w: WireDatasource)
    ensures w == EncodeDatasource(d)
  {
    var src := WireSrc("", "");
    src := src.(sourceType := d.src.sourceType);
    src := src.(input := d.src.input);
    var dest := WireDest("", 0, 0);
    dest := dest.(directoryPolicy := d.dest.directoryPolicy);
    dest := dest.(emptyPolicy := d.dest.emptyPolicy);
    dest := dest.(output := d.dest.output);
    w := WireDatasource(Some(src), Some(dest));
  }

  /** The attr fields of `encode`, into the empty record that is made first. */
  method PutAttr(a: Attr) returns (w: WireAttr)
    ensures w == EncodeAttr(a)
  {
    w := EMPTY_WIRE_ATTR;
    w := w.(trigger := a.trigger);
    w := w.(virtStorage := a.virtStorage);
    if a.period.Some? {
      var p := a.period.value;
      var period := WirePeriod(p.interval, p.resultPolicy, p.triggerPolicy, []);
      var backups := Appended(period.backupId, p.backupId);
      w := w.(period := Some(period.(backupId := backups)));
    }
    var deps := Appended(w.deps, a.deps);
    w := w.(deps := deps);
  }

  /** The datasource fields of `append`, over the old ones. */
  method TakeDatasource(w: WireDatasource, old_: Datasource) returns (d: Datasource)
    ensures d == DecodeDatasource(w)
  {
    var src := if w.src.Some? then w.src.value else WireSrc("", "");
    var dest := if w.dest.Some? then w.dest.value else WireDest("", 0, 0);
    d := old_;
    d := d.(src := d.src.(sourceType := src.sourceType));
    d := d.(src := d.src.(input := src.input));
    d := d.(dest := d.dest.(output := dest.output));
    d := d.(dest := d.dest.(directoryPolicy := dest.directoryPolicy));
    d := d.(dest := d.dest.(emptyPolicy := dest.emptyPolicy));
  }

  /** The attr fields of `append`, over the old ones: both lists are cleared first. */
  method TakeAttr(w: WireAttr, old_: Attr) returns (a: Attr)
    ensures a == DecodeAttr(w)
  {
    a := old_;
    a := a.(trigger := w.trigger);
    a := a.(deps := []);
    var deps := Appended(a.deps, w.deps);
    a := a.(deps := deps);
    a := a.(virtStorage := w.virtStorage);
    if w.period.None? {
      a := a.(period := None);
    } else {
      var period := if a.period.Some? then a.period.value else Period(0, 0, 0, []);
      period := period.(interval := w.period.value.interval, resultPolicy := w.period.value.resultPolicy,
      triggerPolicy := w.period.value.triggerPolicy);
      period := period.(backupId := []);
      var backups := Appended(period.backupId, w.period.value.backupId);
      a := a.(period := Some(period.(backupId := backups)));
    }
  }

  datatype Content = Content(
    src: U32, dest: U32, msg: U32, token: string, taskid: U64, datasource: Option<Datasource>, engine: Option<Engine>,
    attr: Option<Attr>, management: Option<Endpoint>, cluster: Option<Endpoint>, storage: Option<Endpoint>)

  datatype WireRequest = WireRequest(
    magic: U32, src: U32, dest: U32, msg: U32, token: string, taskid: U64, datasource: Option<WireDatasource>,
    engine: Option<WireEngine>, attr: Option<WireAttr>,
    management: Option<WireEndpoint>, cluster: Option<WireEndpoint>, storage: Option<WireEndpoint>)

  const EMPTY_ATTR := Attr(0, None, [], false)
  const EMPTY_WIRE_ATTR := WireAttr(0, None, [], false)

  function EncodeObject(o: Option<Endpoint>): Option<WireEndpoint> {
    match o case None => None case Some(e) => Some(EncodeEndpoint(e))
  }

  function DecodeObject(w: Option<WireEndpoint>, old_: Option<Endpoint>): Option<Endpoint> {
    match w
    case None => old_
    case Some(e) => Some(DecodeEndpoint(e, if old_.Some? then old_.value else FRESH_ENDPOINT))
  }

  /** `Request::encode`: the engine and attr parts are made even when there is nothing in them. */
  function EncodeRequest(c: Content, magic: U32): WireRequest {
    WireRequest(magic, c.src, c.dest, c.msg, c.token, c.taskid,
                match c.datasource case None => None case Some(d) => Some(EncodeDatasource(d)),
                Some(match c.engine case None => WireEngine(None, None, None, [], []) case Some(e) => EncodeEngine(e)),
                Some(match c.attr case None => EMPTY_WIRE_ATTR case Some(a) => EncodeAttr(a)),
                EncodeObject(c.management), EncodeObject(c.cluster), EncodeObject(c.storage))
  }

  /** `Request::append` once the whole record is there; `None` is a magic mismatch. */
  function DecodeRequest(w: WireRequest, magic: U32, into: Content): Option<Content> {
    if w.magic != magic then None
    else Some(Content(w.src, w.dest, w.msg, w.token, w.taskid,
                      match w.datasource case None => None case Some(d) => Some(DecodeDatasource(d)),
                      match w.engine case None => None case Some(e) => Some(DecodeEngine(e)),
                      match w.attr case None => None case Some(a) => Some(DecodeAttr(a)),
                      DecodeObject(w.management, into.management), DecodeObject(w.cluster, into.cluster),
                      DecodeObject(w.storage, into.storage)))
  }

  /** An absent engine or attr comes back empty. */
  function Normal(c: Content): Content {
    c.(engine := Some(match c.engine case None => EMPTY_ENGINE case Some(e) => e),
       attr := Some(match c.attr case None => EMPTY_ATTR case Some(a) => a))
  }

  const FRESH := Content(0, 0, 0, "", 0, None, None, None, None, None, None)

  predicate ValidContent(c: Content) {
    && (c.engine.Some? ==> ValidEngine(c.engine.value))
    && (c.management.Some? ==> ValidEndpoint(c.management.value))
    && (c.cluster.Some? ==> ValidEndpoint(c.cluster.value))
    && (c.storage.Some? ==> ValidEndpoint(c.storage.value))
  }

  /** When an object of the request being overwritten shows in the result. */
  predicate CleanObject(o: Option<Endpoint>, old_: Option<Endpoint>) {
    match (o, old_)
    case (_, None) => true
    case (None, Some(_)) => false
    case (Some(e), Some(d)) => Clean(e, d)
  }

  lemma ObjectExactly(o: Option<Endpoint>, old_: Option<Endpoint>)
    requires o.Some? ==> ValidEndpoint(o.value)
    ensures DecodeObject(EncodeObject(o), old_) == o <==> CleanObject(o, old_)
  {
    if o.Some? {
      EndpointExactly(o.value, if old_.Some? then old_.value else FRESH_ENDPOINT);
    }
  }

  /** Decoding an encoded request over another one gives it back, with absent parts empty, if and
      only if none of the overwritten request's endpoints shows through. */
  lemma RequestExactly(c: Content, into: Content, magic: U32)
    requires ValidContent(c)
    ensures DecodeRequest(EncodeRequest(c, magic), magic, into) == Some(Normal(c))
       <==> && CleanObject(c.management, into.management)
            && CleanObject(c.cluster, into.cluster) && CleanObject(c.storage, into.storage)
  {
    if c.engine.Some? { EngineComesBack(c.engine.value); }
    EmptyEngineDecodes();
    PartsComeBack(if c.datasource.Some? then c.datasource.value else Datasource(Src("", ""), Dest("", 0, 0)),
                  if c.attr.Some? then c.attr.value else EMPTY_ATTR);
    ObjectExactly(c.management, into.management);
    ObjectExactly(c.cluster, into.cluster);
    ObjectExactly(c.storage, into.storage);
    hide DecodeEngine, EncodeEngine, EncodeAttr, DecodeAttr, EncodeDatasource, DecodeDatasource, EncodeObject, DecodeObject, CleanObject, ValidEngine;
  }

  lemma EmptyEngineDecodes()
    ensures DecodeEngine(WireEngine(None, None, None, [], [])) == EMPTY_ENGINE
  {
  }

  /** A fresh request receives exactly what was sent, and sending it on changes nothing more. */
  lemma FreshRoundTrip(c: Content, magic: U32)
    requires ValidContent(c)
    ensures DecodeRequest(EncodeRequest(c, magic), magic, FRESH) == Some(Normal(c))
    ensures DecodeRequest(EncodeRequest(Normal(c), magic), magic, FRESH) == Some(Normal(c))
    ensures EncodeRequest(Normal(c), magic) == EncodeRequest(c, magic)
  {
    RequestExactly(c, FRESH, magic);
    RequestExactly(Normal(c), FRESH, magic);
    assert EncodeEngine(EMPTY_ENGINE) == WireEngine(None, None, None, [], []);
  }

  // ---------- messages in pieces ----------

  /** The library's parser of a byte string, whatever it accepts. */
  type Parser = seq<Byte> -> Option<WireRequest>

  function Concat(pieces: seq<seq<Byte>>): seq<Byte> {
    if pieces == [] then [] else Concat(pieces[..|pieces| - 1]) + pieces[|pieces| - 1]
  }

  /** After how many of the pieces `append` first finds a message, and which. */
  function FirstMessage(pieces: seq<seq<Byte>>, parse: Parser): Option<(nat, WireRequest)> {
    if pieces == [] then None
    else
      match FirstMessage(pieces[..|pieces| - 1], parse)
      case Some(found) => Some(found)
      case None =>
        match parse(Concat(pieces))
        case None => None
        case Some(w) => Some((|pieces|, w))
  }

  lemma {:induction false} NothingFoundExactly(pieces: seq<seq<Byte>>, parse: Parser)
    ensures FirstMessage(pieces, parse) == None <==> forall k :: 1 <= k <= |pieces| ==> parse(Concat(pieces[..k])) == None
  {
    if pieces != [] {
      var n := |pieces| - 1;
      NothingFoundExactly(pieces[..n], parse);
      assert pieces[..n + 1] == pieces;
      assert forall k :: 1 <= k <= n ==> pieces[..n][..k] == pieces[..k];
    }
  }

  lemma {:induction false} FoundWithin(pieces: seq<seq<Byte>>, parse: Parser)
    ensures FirstMessage(pieces, parse).Some? ==> 1 <= FirstMessage(pieces, parse).value.0 <= |pieces|
  {
    if pieces != [] { FoundWithin(pieces[..|pieces| - 1], parse); }
  }

  /** A message cut in pieces is found with the last piece, as itself, if and only if the parser accepts
      the whole of it as that message and no shorter run of its pieces. */
  lemma ReassemblyExactly(pieces: seq<seq<Byte>>, parse: Parser, w: WireRequest)
    requires pieces != []
    ensures FirstMessage(pieces, parse) == Some((|pieces|, w))
       <==> && parse(Concat(pieces)) == Some(w)
            && forall k :: 1 <= k < |pieces| ==> parse(Concat(pieces[..k])) == None
  {
    var n := |pieces| - 1;
    NothingFoundExactly(pieces[..n], parse);
    FoundWithin(pieces[..n], parse);
    assert forall k :: 1 <= k <= n ==> pieces[..n][..k] == pieces[..k];
  }

  lemma {:induction false} FirstStays(pieces: seq<seq<Byte>>, n: nat, parse: Parser)
    requires n <= |pieces| && FirstMessage(pieces[..n], parse).Some?
    ensures FirstMessage(pieces, parse) == FirstMessage(pieces[..n], parse)
    decreases |pieces| - n
  {
    if n < |pieces| {
      assert pieces[..n + 1][..n] == pieces[..n];
      FirstStays(pieces, n + 1, parse);
    } else {
      assert pieces[..n] == pieces;
    }
  }

  class Request {
    var content: Content
    var buf: seq<Byte>
    const magic: U32

    constructor (magic: U32)
      ensures content == FRESH && buf == [] && this.magic == magic
    {
      content, buf, this.magic := FRESH, [], magic;
    }

    /** `encode`: the serialized record also stays in the buffer. */
    method Encode(serialize: WireRequest -> seq<Byte>) returns (bytes: seq<Byte>)
      modifies `buf
      ensures bytes == serialize(EncodeRequest(content, magic)) && buf == bytes
    {
      var w := MakeRecord();
      buf := serialize(w);
      bytes := buf;
    }

    /** `append`: 0 asks for more, 1 is a message and -1 one with a wrong magic. */
    method Append(piece: seq<Byte>, parse: Parser) returns (rc: int)
      modifies this
      ensures match parse(old(buf) + piece)
              case None => rc == 0 && buf == old(buf) + piece && content == old(content)
              case Some(w) =>
                && buf == [] && rc == (if w.magic == magic then 1 else -1)
                && (if rc == 1 then DecodeRequest(w, magic, old(content)) == Some(content) else content == old(content))
    {
      buf := buf + piece;
      var w := parse(buf);
      if w.None? { return 0; }
      buf := [];
      var ok := TakeRecord(w.value);
      rc := if ok then 1 else -1;
    }

    /** Feeding the pieces to a request with an empty buffer until one is enough. */
    method AppendAll(pieces: seq<seq<Byte>>, parse: Parser) returns (used: nat, rc: int)
      requires buf == []
      modifies this
      ensures match FirstMessage(pieces, parse)
              case None => rc == 0 && used == |pieces| && buf == Concat(pieces) && content == old(content)
              case Some((n, w)) =>
                && used == n && buf == [] && rc == (if w.magic == magic then 1 else -1)
                && (if rc == 1 then DecodeRequest(w, magic, old(content)) == Some(content) else content == old(content))
    {
      hide DecodeRequest;
      used, rc := 0, 0;
      while used < |pieces|
        invariant 0 <= used <= |pieces| && rc == 0 && content == old(content)
        invariant FirstMessage(pieces[..used], parse) == None && buf == Concat(pieces[..used])
      {
        assert pieces[..used + 1][..used] == pieces[..used];
        rc := Append(pieces[used], parse);
        used := used + 1;
        if rc != 0 {
          FirstStays(pieces, used, parse);
          return;
        }
      }
      assert pieces[..used] == pieces;
    }

    /** The record `encode` fills in. */
    method MakeRecord() returns (w: WireRequest)
      ensures w == EncodeRequest(content, magic)
    {
      w := WireRequest(magic, content.src, content.dest, content.msg, content.token, content.taskid, None, None, None, None, None, None);
      if content.datasource.Some? {
        var d := PutDatasource(content.datasource.value);
        w := w.(datasource := Some(d));
      }
      var engine := WireEngine(None, None, None, [], []);
      if content.engine.Some? { engine := AssignEngine(content.engine.value); }
      var attr := EMPTY_WIRE_ATTR;
      if content.attr.Some? { attr := PutAttr(content.attr.value); }
      w := w.(engine := Some(engine), attr := Some(attr));
      if content.management.Some? {
        var m := AssignEndpoint(content.management.value);
        w := w.(management := Some(m));
      }
      if content.cluster.Some? {
        var c := AssignEndpoint(content.cluster.value);
        w := w.(cluster := Some(c));
      }
      if content.storage.Some? {
        var s := AssignEndpoint(content.storage.value);
        w := w.(storage := Some(s));
      }
    }

    /** What `append` does with a parsed record. */
    method TakeRecord(w: WireRequest) returns (ok: bool)
      modifies `content
      ensures ok <==> w.magic == magic
      ensures ok ==> DecodeRequest(w, magic, old(content)) == Some(content)
      ensures !ok ==> content == old(content)
    {
      if w.magic != magic { return false; }
      hide DecodeEngine, DecodeObject, DecodeAttr, DecodeDatasource;
      content := content.(src := w.src, dest := w.dest, msg := w.msg, token := w.token, taskid := w.taskid);
      if w.datasource.None? {
        content := content.(datasource := None);
      } else {
        var d := TakeDatasource(
          w.datasource.value, if content.datasource.Some? then content.datasource.value else Datasource(Src("", ""), Dest("", 0, 0)));
        content := content.(datasource := Some(d));
      }
      if w.engine.None? {
        content := content.(engine := None);
      } else {
        var engine := AssignENGINE(w.engine.value, if content.engine.Some? then content.engine.value else EMPTY_ENGINE);
        content := content.(engine := Some(engine));
      }
      if w.attr.None? {
        content := content.(attr := None);
      } else {
        var attr := TakeAttr(w.attr.value, if content.attr.Some? then content.attr.value else EMPTY_ATTR);
        content := content.(attr := Some(attr));
      }
      TakeObjects(w);
      ok := true;
    }

    /** The three objects of `append`: those the record lacks stay. */
    method TakeObjects(w: WireRequest)
      modifies `content
      ensures content == old(content).(management := DecodeObject(w.management, old(content).management),
                                       cluster := DecodeObject(w.cluster, old(content).cluster),
                                       storage := DecodeObject(w.storage, old(content).storage))
    {
      if w.management.Some? {
        var m := AssignENDPOINT(w.management.value, if content.management.Some? then content.management.value else FRESH_ENDPOINT);
        content := content.(management := Some(m));
      }
      if w.cluster.Some? {
        var c := AssignENDPOINT(w.cluster.value, if content.cluster.Some? then content.cluster.value else FRESH_ENDPOINT);
        content := content.(cluster := Some(c));
      }
      if w.storage.Some? {
        var s := AssignENDPOINT(w.storage.value, if content.storage.Some? then content.storage.value else FRESH_ENDPOINT);
        content := content.(storage := Some(s));
      }
    }
  }
}
