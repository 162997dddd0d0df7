/** The account cards of parsers.js: `renderVMess`, `renderVLess`,
    `renderTrojan`, `renderSSWS` and `parseTrial`. The four renderers share one
    template and differ only in their title, their rows and the name on their
    link lines, so each is a CardSpec here and one CardHtml renders them all. */
module Cards {
  import opened Wrappers
  import opened Text
  import opened Parsers

  /** `kv[k]` is truthy: present and not the empty string. */
  predicate Filled(kv: map<string, string>, k: string)
  {
    k in kv && kv[k] != ""
  }

  /** `kv[a0] || kv[a1] || … || dflt`: the value of the first alias that is
      filled, else the default. */
  function Pick(kv: map<string, string>, aliases: seq<string>, dflt: string): (r: string)
    ensures (forall i :: 0 <= i < |aliases| ==> !Filled(kv, aliases[i])) ==> r == dflt
    ensures forall i ::
      (0 <= i < |aliases| && Filled(kv, aliases[i]) && forall j :: 0 <= j < i ==> !Filled(kv, aliases[j]))
      ==> r == kv[aliases[i]]
    decreases |aliases|
  {
    if aliases == [] then dflt
    else if Filled(kv, aliases[0]) then kv[aliases[0]]
    else
      var r := Pick(kv, aliases[1..], dflt);
      assert forall i :: 1 <= i < |aliases| ==> aliases[1..][i - 1] == aliases[i];
      r
  }

  /** `kv[a0] || … ? … : ""` on a link line: the link is there exactly when
      some alias is filled, and then it is the first filled one. */
  function LinkValue(kv: map<string, string>, aliases: seq<string>): (r: Option<string>)
    ensures r.Some? <==> exists i :: 0 <= i < |aliases| && Filled(kv, aliases[i])
    ensures r.Some? ==> r.value == Pick(kv, aliases, "") && r.value != ""
  {
    var v := Pick(kv, aliases, "");
    if v != "" then Some(v)
    else
      assert forall i :: 0 <= i < |aliases| ==> !Filled(kv, aliases[i]) by {
        if exists i :: 0 <= i < |aliases| && Filled(kv, aliases[i]) {
          FirstFilledValue(kv, aliases);
        }
      }
      None
  }

  /** When some alias is filled, Pick returns a non-empty value. */
  lemma {:induction false} FirstFilledValue(kv: map<string, string>, aliases: seq<string>)
    requires exists i :: 0 <= i < |aliases| && Filled(kv, aliases[i])
    ensures Pick(kv, aliases, "") != ""
    decreases |aliases|
  {
    if !Filled(kv, aliases[0]) {
      var i :| 0 <= i < |aliases| && Filled(kv, aliases[i]);
      assert aliases[1..][i - 1] == aliases[i];
      FirstFilledValue(kv, aliases[1..]);
    }
  }

  /** Fixed card text: it never holds an `&`. */
  type Caption = s: string | '&' !in s

  /** One `Label : <code>value</code>` row of a card. */
  datatype Field = Field(caption: Caption, aliases: seq<string>, dflt: string)

  /** One link line: `<name><suffix> : <pre>link</pre>`. */
  datatype LinkField = LinkField(suffix: Caption, aliases: seq<string>)

  /** The fixed part of a card. */
  datatype CardSpec = CardSpec(title: Caption, details: seq<Field>, connection: seq<Field>, linkName: Caption)

  /** A card with its values resolved. */
  datatype Row = Row(caption: Caption, value: string)
  datatype LinkRow = LinkRow(caption: Caption, value: Option<string>)
  datatype Card = Card(title: Caption, details: seq<Row>, connection: seq<Row>, links: seq<LinkRow>)

  /** The three link lines every card ends with. */
  const LinkFields: seq<LinkField> := [
    LinkField(" TLS", ["link tls"]),
    LinkField(" none TLS", ["link none tls", "link none"]),
    LinkField(" gRPC", ["link grpc"])
  ]

  const HostAliases: seq<string> := ["domain", "domain/host", "host", "host/ip"]
  const ServiceAliases: seq<string> := ["servicename", "service name", "grpc name"]

  // Rows several cards share.
  const RemarksRow := Field("Remarks     ", ["remarks"], "")
  const ExpiredRow := Field("Expired On  ", ["expired on", "expired date", "expire"], "")
  const DomainRow := Field("Domain/Host ", HostAliases, "")
  const WsGrpcRow := Field("Network     ", ["network"], "ws/grpc")
  const PortTls := Field("Port TLS    ", ["port tls", "tls"], "")
  const PortNone := Field("Port none   ", ["port none tls", "port none", "none"], "")
  const PortGrpc := Field("Port gRPC   ", ["port grpc", "grpc"], "")

  const VMessId := Field("id (UUID)   ", ["id", "id (uuid)"], "")
  const VMessAlterId := Field("alterId     ", ["alterid"], "0")
  const VMessSecurity := Field("Security    ", ["security"], "auto")
  const VMessNetwork := Field("Network     ", ["network"], "ws")
  const VMessPath := Field("Path        ", ["path"], "")
  const VMessService := Field("ServiceName ", ServiceAliases, "")

  const VMessSpec := CardSpec(
    "VMESS ACCOUNT",
    [RemarksRow, VMessId, VMessAlterId, VMessSecurity, ExpiredRow],
    [DomainRow, VMessNetwork, VMessPath, VMessService, PortTls, PortNone, PortGrpc],
    "VMess")

  const VLessId := Field("id (UUID)   ", ["id", "uuid"], "")
  const VLessEncryption := Field("Encryption  ", ["encryption"], "none")
  const VLessPath := Field("Path (WS)   ", ["path", "path (ws)"], "/vless")
  const VLessGrpc := Field("gRPC Name   ", ["grpc name", "servicename", "service name"], "vless-grpc")

  const VLessSpec := CardSpec(
    "VLESS ACCOUNT",
    [RemarksRow, VLessId, VLessEncryption, ExpiredRow],
    [DomainRow, WsGrpcRow, VLessPath, VLessGrpc, PortTls, PortNone],
    "VLess")

  const TrojanKey := Field("Key         ", ["key", "password"], "")
  const TrojanHost := Field("Host/IP     ", ["host/ip", "host", "domain"], "")
  const TrojanPath := Field("Path        ", ["path"], "/trojan-ws")
  const TrojanService := Field("ServiceName ", ServiceAliases, "trojan-grpc")

  const TrojanSpec := CardSpec(
    "TROJAN ACCOUNT",
    [RemarksRow, TrojanKey, ExpiredRow],
    [TrojanHost, TrojanPath, TrojanService, PortTls, PortNone, PortGrpc],
    "Trojan")

  const SsPassword := Field("Password    ", ["password", "key"], "")
  const SsCiphers := Field("Ciphers     ", ["ciphers", "cipher", "method"], "")
  const SsPath := Field("Path        ", ["path"], "/ss-ws")
  const SsService := Field("ServiceName ", ServiceAliases, "ss-grpc")

  const SswsSpec := CardSpec(
    "SHADOWSOCKS ACCOUNT",
    [RemarksRow, SsPassword, SsCiphers],
    [DomainRow, WsGrpcRow, SsPath, SsService, PortTls, PortNone, PortGrpc],
    "SS")

  function Rows(fields: seq<Field>, kv: map<string, string>): seq<Row>
  {
    seq(|fields|, i requires 0 <= i < |fields| => Row(fields[i].caption, Pick(kv, fields[i].aliases, fields[i].dflt)))
  }

  function Links(name: Caption, kv: map<string, string>): seq<LinkRow>
  {
    seq(|LinkFields|, i requires 0 <= i < |LinkFields| =>
      var suffix := LinkFields[i].suffix;
      assert '&' !in name + suffix;
      LinkRow(name + suffix, LinkValue(kv, LinkFields[i].aliases)))
  }

  /** The values a card shows for the object `kv`. */
  function Resolve(spec: CardSpec, kv: map<string, string>): (c: Card)
    ensures c.title == spec.title && |c.details| == |spec.details| && |c.connection| == |spec.connection|
  {
    Card(spec.title, Rows(spec.details, kv), Rows(spec.connection, kv), Links(spec.linkName, kv))
  }

  function RowText(r: Row): string
  {
    r.caption + ": <code>" + Esc(r.value) + "</code>"
  }

  function LinkText(l: LinkRow): string
  {
    match l.value
    case None => ""
    case Some(v) => l.caption + " : <pre>" + Esc(v) + "</pre>"
  }

  function RowTexts(rows: seq<Row>): (r: seq<string>)
    ensures |r| == |rows| && forall i :: 0 <= i < |rows| ==> r[i] == RowText(rows[i])
  {
    seq(|rows|, i requires 0 <= i < |rows| => RowText(rows[i]))
  }

  function LinkTexts(links: seq<LinkRow>): (r: seq<string>)
    ensures |r| == |links| && forall i :: 0 <= i < |links| ==> r[i] == LinkText(links[i])
  {
    seq(|links|, i requires 0 <= i < |links| => LinkText(links[i]))
  }

  /** The template literal before `.trim()`. */
  function Template(c: Card): string
  {
    "\n<b>" + c.title + "</b>\n\n<b>>> DETAILS <<</b>\n"
    + Join(RowTexts(c.details), '\n')
    + "\n\n<b>>> CONNECTION <<</b>\n"
    + Join(RowTexts(c.connection), '\n')
    + "\n\n<b>>> LINKS <<</b>\n"
    + Join(LinkTexts(c.links), '\n')
    + "\n"
  }

  function CardHtml(c: Card): string
  {
    Trim(Template(c))
  }

  /** The argument of a renderer: a text block, which goes through `kvParse`
      first, or an object already parsed. */
  datatype CardInput = Block(text: string) | Parsed(kv: map<string, string>)

  function KvOf(input: CardInput): map<string, string>
  {
    match input
    case Block(t) => KvOfLines(Split(t, '\n'))
    case Parsed(kv) => kv
  }

  function Render(spec: CardSpec, input: CardInput): string
  {
    CardHtml(Resolve(spec, KvOf(input)))
  }

  // ------------------------------------------------------------ renderers

  /** `renderVMess(block)`, `renderVLess(block)`, `renderTrojan(block)` and
      `renderSSWS(block)` with their card's spec: a text block is parsed with
      `kvParse` first. */
  method RenderCard(spec: CardSpec, input: CardInput) returns (html: string)
    ensures html == CardHtml(Resolve(spec, KvOf(input)))
  {
    var kv: map<string, string>;
    match input {
      case Block(t) =>
        kv := KvParse(t);
      case Parsed(m) =>
        kv := m;
    }
    html := CardHtml(Resolve(spec, kv));
  }

  /** The renderer `parseTrial` picks for `type`. */
  function TrialSpec(kind: string): Option<CardSpec>
  {
    if kind == "vmess" then Some(VMessSpec)
    else if kind == "vless" then Some(VLessSpec)
    else if kind == "trojan" then Some(TrojanSpec)
    else if kind == "ssws" then Some(SswsSpec)
    else None
  }

  /** The `html` of `parseTrial`: the card for `type`, or the block escaped
      inside `<pre>`. */
  function TrialHtml(kind: string, block: string, kv: map<string, string>): string
  {
    match TrialSpec(kind)
    case Some(spec) => CardHtml(Resolve(spec, kv))
    case None => "<pre>" + Esc(block) + "</pre>"
  }

  /** `parseTrial(raw, type)`: the account block of the raw output, the
      `kvParse` object of that block, and the card `type` selects, or the
      escaped block inside `<pre>` for any other type (`ss` among them).
      Whatever the output holds, every `&` of the html begins an entity. */
  method ParseTrial(raw: Option<string>, kind: string) returns (kv: map<string, string>, block: string, html: string)
    ensures block == ExtractAccountBlock(raw)
    ensures kv == KvOfLines(Split(block, '\n'))
    ensures TrialSpec(kind).Some? ==> html == CardHtml(Resolve(TrialSpec(kind).value, kv))
    ensures TrialSpec(kind).None? ==> html == "<pre>" + Esc(block) + "</pre>"
    ensures AmpsOk(html)
  {
    block := ExtractAccountBlock(raw);
    kv := KvParse(block);
    html := TrialHtml(kind, block, kv);
    TrialHtmlAmpsOk(kind, block, kv);
  }

  /** Whatever the type, the html holds only whole entities. */
  lemma TrialHtmlAmpsOk(kind: string, block: string, kv: map<string, string>)
    ensures AmpsOk(TrialHtml(kind, block, kv))
  {
    match TrialSpec(kind) {
      case Some(spec) => CardAmpsOk(Resolve(spec, kv));
      case None => PreAmpsOk(block);
    }
  }

  /** Each of the four types gets its own card; any other type, the escaped
      block. */
  lemma TrialHtmlKinds(kind: string, block: string, kv: map<string, string>)
    ensures kind == "vmess" ==> TrialHtml(kind, block, kv) == CardHtml(Resolve(VMessSpec, kv))
    ensures kind == "vless" ==> TrialHtml(kind, block, kv) == CardHtml(Resolve(VLessSpec, kv))
    ensures kind == "trojan" ==> TrialHtml(kind, block, kv) == CardHtml(Resolve(TrojanSpec, kv))
    ensures kind == "ssws" ==> TrialHtml(kind, block, kv) == CardHtml(Resolve(SswsSpec, kv))
    ensures kind != "vmess" && kind != "vless" && kind != "trojan" && kind != "ssws" ==>
      TrialHtml(kind, block, kv) == "<pre>" + Esc(block) + "</pre>"
  {
    var t := TrialSpec(kind);
    if t.Some? {
      TrialHtmlCard(kind, block, kv, t.value);
    } else {
      TrialHtmlPre(kind, block, kv);
    }
  }

  lemma TrialHtmlCard(kind: string, block: string, kv: map<string, string>, spec: CardSpec)
    requires TrialSpec(kind) == Some(spec)
    ensures TrialHtml(kind, block, kv) == CardHtml(Resolve(spec, kv))
  {
  }

  lemma TrialHtmlPre(kind: string, block: string, kv: map<string, string>)
    requires TrialSpec(kind).None?
    ensures TrialHtml(kind, block, kv) == "<pre>" + Esc(block) + "</pre>"
  {
  }

  /** The fallback `<pre>` block keeps the escaping of the text inside it. */
  lemma PreAmpsOk(block: string)
    ensures AmpsOk("<pre>" + Esc(block) + "</pre>")
  {
    var p, q := "<pre>", "</pre>";
    assert '&' !in p && '&' !in q;
    AmpsOkPlain(p);
    AmpsOkPlain(q);
    EscEscaped(block);
    AmpsOkAppend(p, Esc(block));
    AmpsOkAppend(p + Esc(block), q);
  }

  // ------------------------------------------------------ field resolution

  /** VMess `alterId` falls back to "0" and `security` to "auto". */
  lemma VMessDefaults(kv: map<string, string>)
    requires !Filled(kv, "alterid") && !Filled(kv, "security")
    ensures Resolve(VMessSpec, kv).details[2] == Row("alterId     ", "0")
    ensures Resolve(VMessSpec, kv).details[3] == Row("Security    ", "auto")
  {
  }

  /** The VMess host row tries `domain`, `domain/host`, `host`, `host/ip`; the
      Trojan one `host/ip`, `host`, `domain`. */
  lemma HostOrder(kv: map<string, string>)
    requires Filled(kv, "domain") && Filled(kv, "host/ip")
    ensures Resolve(VMessSpec, kv).connection[0].value == kv["domain"]
    ensures Resolve(TrojanSpec, kv).connection[0].value == kv["host/ip"]
  {
  }

  /** The VLess gRPC name prefers `grpc name`, then `servicename`, then
      `service name`, else "vless-grpc". */
  lemma VLessGrpcName(kv: map<string, string>)
    ensures var v := Resolve(VLessSpec, kv).connection[3].value;
      && (Filled(kv, "grpc name") ==> v == kv["grpc name"])
      && (!Filled(kv, "grpc name") && Filled(kv, "servicename") ==> v == kv["servicename"])
      && (!Filled(kv, "grpc name") && !Filled(kv, "servicename") && Filled(kv, "service name") ==> v == kv["service name"])
      && (!Filled(kv, "grpc name") && !Filled(kv, "servicename") && !Filled(kv, "service name") ==> v == "vless-grpc")
  {
  }

  /** A link line is printed exactly when one of its keys is filled. */
  lemma LinkLines(spec: CardSpec, kv: map<string, string>)
    ensures var links := Resolve(spec, kv).links;
      && |links| == 3
      && (LinkText(links[0]) != "" <==> Filled(kv, "link tls"))
      && (LinkText(links[1]) != "" <==> Filled(kv, "link none tls") || Filled(kv, "link none"))
      && (LinkText(links[2]) != "" <==> Filled(kv, "link grpc"))
  {
    var links := Resolve(spec, kv).links;
    var a1 := ["link none tls", "link none"];
    assert (exists i :: 0 <= i < |a1| && Filled(kv, a1[i])) <==> Filled(kv, a1[0]) || Filled(kv, a1[1]);
  }

  // ---------------------------------------------------------------- safety

  predicate IsAngle(c: char) { c == '<' || c == '>' }

  /** The card with every value blanked: what the template alone contributes. */
  function Shape(c: Card): Card
  {
    Card(c.title,
      seq(|c.details|, i requires 0 <= i < |c.details| => Row(c.details[i].caption, "")),
      seq(|c.connection|, i requires 0 <= i < |c.connection| => Row(c.connection[i].caption, "")),
      seq(|c.links|, i requires 0 <= i < |c.links| =>
        LinkRow(c.links[i].caption, if c.links[i].value.Some? then Some("") else None)))
  }

  lemma EscNoMarkup(v: string)
    ensures Filter(Esc(v), IsAngle) == ""
  {
    EscEscaped(v);
    FilterNone(Esc(v), IsAngle);
  }

  lemma SameFilterAppend(a1: string, b1: string, a2: string, b2: string)
    requires Filter(a1, IsAngle) == Filter(a2, IsAngle) && Filter(b1, IsAngle) == Filter(b2, IsAngle)
    ensures Filter(a1 + b1, IsAngle) == Filter(a2 + b2, IsAngle)
  {
    FilterAppend(a1, b1, IsAngle);
    FilterAppend(a2, b2, IsAngle);
  }

  lemma RowMarkup(n: Caption, v: string, w: string)
    ensures Filter(RowText(Row(n, v)), IsAngle) == Filter(RowText(Row(n, w)), IsAngle)
  {
    EscNoMarkup(v);
    EscNoMarkup(w);
    SameFilterAppend(n + ": <code>", Esc(v), n + ": <code>", Esc(w));
    SameFilterAppend(n + ": <code>" + Esc(v), "</code>", n + ": <code>" + Esc(w), "</code>");
  }

  lemma LinkMarkup(n: Caption, v: Option<string>, w: Option<string>)
    requires v.Some? == w.Some?
    ensures Filter(LinkText(LinkRow(n, v)), IsAngle) == Filter(LinkText(LinkRow(n, w)), IsAngle)
  {
    if v.Some? {
      EscNoMarkup(v.value);
      EscNoMarkup(w.value);
      SameFilterAppend(n + " : <pre>", Esc(v.value), n + " : <pre>", Esc(w.value));
      SameFilterAppend(n + " : <pre>" + Esc(v.value), "</pre>", n + " : <pre>" + Esc(w.value), "</pre>");
    }
  }

  lemma RowsMarkup(rs: seq<Row>, qs: seq<Row>)
    requires |rs| == |qs| && forall i :: 0 <= i < |rs| ==> rs[i].caption == qs[i].caption
    ensures Filter(Join(RowTexts(rs), '\n'), IsAngle) == Filter(Join(RowTexts(qs), '\n'), IsAngle)
  {
    forall i | 0 <= i < |rs|
      ensures Filter(RowTexts(rs)[i], IsAngle) == Filter(RowTexts(qs)[i], IsAngle)
    {
      RowMarkup(rs[i].caption, rs[i].value, qs[i].value);
    }
    FilterJoin(RowTexts(rs), RowTexts(qs), '\n', IsAngle);
  }

  lemma LinksMarkup(ls: seq<LinkRow>, ms: seq<LinkRow>)
    requires |ls| == |ms|
    requires forall i :: 0 <= i < |ls| ==> ls[i].caption == ms[i].caption && ls[i].value.Some? == ms[i].value.Some?
    ensures Filter(Join(LinkTexts(ls), '\n'), IsAngle) == Filter(Join(LinkTexts(ms), '\n'), IsAngle)
  {
    forall i | 0 <= i < |ls|
      ensures Filter(LinkTexts(ls)[i], IsAngle) == Filter(LinkTexts(ms)[i], IsAngle)
    {
      LinkMarkup(ls[i].caption, ls[i].value, ms[i].value);
    }
    FilterJoin(LinkTexts(ls), LinkTexts(ms), '\n', IsAngle);
  }

  lemma SameFilterPieces(h: string, x1: string, y1: string, m1: string, x2: string, y2: string,
                         m2: string, x3: string, y3: string, e: string)
    requires Filter(x1, IsAngle) == Filter(y1, IsAngle)
    requires Filter(x2, IsAngle) == Filter(y2, IsAngle)
    requires Filter(x3, IsAngle) == Filter(y3, IsAngle)
    ensures Filter(h + x1 + m1 + x2 + m2 + x3 + e, IsAngle) == Filter(h + y1 + m1 + y2 + m2 + y3 + e, IsAngle)
  {
    SameFilterAppend(h, x1, h, y1);
    SameFilterAppend(h + x1, m1, h + y1, m1);
    SameFilterAppend(h + x1 + m1, x2, h + y1 + m1, y2);
    SameFilterAppend(h + x1 + m1 + x2, m2, h + y1 + m1 + y2, m2);
    SameFilterAppend(h + x1 + m1 + x2 + m2, x3, h + y1 + m1 + y2 + m2, y3);
    SameFilterAppend(h + x1 + m1 + x2 + m2 + x3, e, h + y1 + m1 + y2 + m2 + y3, e);
  }

  /** Every `<` and `>` of a card comes from the template: the values, whatever
      they hold, add none, so two cards of the same shape have the same markup. */
  lemma MarkupFromTemplate(c: Card)
    ensures Filter(CardHtml(c), IsAngle) == Filter(CardHtml(Shape(c)), IsAngle)
  {
    var d := Shape(c);
    RowsMarkup(c.details, d.details);
    RowsMarkup(c.connection, d.connection);
    LinksMarkup(c.links, d.links);
    SameFilterPieces("\n<b>" + c.title + "</b>\n\n<b>>> DETAILS <<</b>\n",
      Join(RowTexts(c.details), '\n'), Join(RowTexts(d.details), '\n'),
      "\n\n<b>>> CONNECTION <<</b>\n",
      Join(RowTexts(c.connection), '\n'), Join(RowTexts(d.connection), '\n'),
      "\n\n<b>>> LINKS <<</b>\n",
      Join(LinkTexts(c.links), '\n'), Join(LinkTexts(d.links), '\n'),
      "\n");
    AngleTrim(Template(c));
    AngleTrim(Template(d));
  }

  /** White space is no angle bracket, so trimming keeps every one. */
  lemma AngleTrim(s: string)
    ensures Filter(Trim(s), IsAngle) == Filter(s, IsAngle)
  {
    assert forall c :: IsSpace(c) ==> !IsAngle(c);
    FilterTrim(s, IsAngle);
  }

  /** Two objects whose link keys are filled alike give cards with the same
      markup, whatever else their values hold. */
  lemma RenderMarkup(spec: CardSpec, kv1: map<string, string>, kv2: map<string, string>)
    requires forall i :: 0 <= i < |LinkFields| ==>
      LinkValue(kv1, LinkFields[i].aliases).Some? == LinkValue(kv2, LinkFields[i].aliases).Some?
    ensures Filter(CardHtml(Resolve(spec, kv1)), IsAngle) == Filter(CardHtml(Resolve(spec, kv2)), IsAngle)
  {
    MarkupFromTemplate(Resolve(spec, kv1));
    MarkupFromTemplate(Resolve(spec, kv2));
    ShapeOfResolve(spec, kv1, kv2);
  }

  /** The shape of a resolved card depends only on which links are present. */
  lemma ShapeOfResolve(spec: CardSpec, kv1: map<string, string>, kv2: map<string, string>)
    requires forall i :: 0 <= i < |LinkFields| ==>
      LinkValue(kv1, LinkFields[i].aliases).Some? == LinkValue(kv2, LinkFields[i].aliases).Some?
    ensures Shape(Resolve(spec, kv1)) == Shape(Resolve(spec, kv2))
  {
    var s1 := Shape(Resolve(spec, kv1));
    var s2 := Shape(Resolve(spec, kv2));
    assert s1.details == s2.details;
    assert s1.connection == s2.connection;
    assert s1.links == s2.links;
  }

  lemma RowsAmpsOk(rs: seq<Row>)
    ensures AmpsOk(Join(RowTexts(rs), '\n'))
  {
    forall i | 0 <= i < |rs|
      ensures AmpsOk(RowTexts(rs)[i])
    {
      RowAmpsOk(rs[i]);
    }
    AmpsOkJoin(RowTexts(rs), '\n');
  }

  /** A row's markup holds only whole entities. */
  lemma RowAmpsOk(r: Row)
    ensures AmpsOk(RowText(r))
  {
    var n := r.caption;
    EscEscaped(r.value);
    AmpsOkFramed(n, ": <code>", Esc(r.value), "</code>");
  }

  /** An escaped text between a caption and two ampersand-free literals. */
  lemma AmpsOkFramed(n: Caption, open: string, x: string, close: string)
    requires '&' !in open && '&' !in close && AmpsOk(x)
    ensures AmpsOk(n + open + x + close)
  {
    assert '&' !in n + open by {
      assert forall c :: c in n + open ==> c in n || c in open;
    }
    AmpsOkPlain(n + open);
    AmpsOkPlain(close);
    AmpsOkAppend(n + open, x);
    AmpsOkAppend(n + open + x, close);
  }

  lemma LinksAmpsOk(ls: seq<LinkRow>)
    ensures AmpsOk(Join(LinkTexts(ls), '\n'))
  {
    forall i | 0 <= i < |ls|
      ensures AmpsOk(LinkTexts(ls)[i])
    {
      LinkAmpsOk(ls[i]);
    }
    AmpsOkJoin(LinkTexts(ls), '\n');
  }

  /** A link's markup holds only whole entities. */
  lemma LinkAmpsOk(l: LinkRow)
    ensures AmpsOk(LinkText(l))
  {
    var n := l.caption;
    if l.value.Some? {
      var v := l.value.value;
      EscEscaped(v);
      AmpsOkFramed(n, " : <pre>", Esc(v), "</pre>");
    }
  }


  lemma AmpsOkPlain(s: string)
    requires '&' !in s
    ensures AmpsOk(s)
  {
  }

  lemma AmpsOkPieces(h: string, x1: string, m1: string, x2: string, m2: string, x3: string, e: string)
    requires AmpsOk(h) && AmpsOk(x1) && AmpsOk(x2) && AmpsOk(x3)
    requires '&' !in m1 && '&' !in m2 && '&' !in e
    ensures AmpsOk(h + x1 + m1 + x2 + m2 + x3 + e)
  {
    AmpsOkPlain(m1);
    AmpsOkPlain(m2);
    AmpsOkPlain(e);
    AmpsOkAppend(h, x1);
    AmpsOkAppend(h + x1, m1);
    AmpsOkAppend(h + x1 + m1, x2);
    AmpsOkAppend(h + x1 + m1 + x2, m2);
    AmpsOkAppend(h + x1 + m1 + x2 + m2, x3);
    AmpsOkAppend(h + x1 + m1 + x2 + m2 + x3, e);
  }

  lemma TemplateAmpsOk(c: Card)
    ensures AmpsOk(Template(c))
  {
    var h := "\n<b>" + c.title + "</b>\n\n<b>>> DETAILS <<</b>\n";
    var m1 := "\n\n<b>>> CONNECTION <<</b>\n";
    var m2 := "\n\n<b>>> LINKS <<</b>\n";
    var e := "\n";
    assert '&' !in h && '&' !in m1 && '&' !in m2 && '&' !in e;
    AmpsOkPlain(h);
    RowsAmpsOk(c.details);
    RowsAmpsOk(c.connection);
    LinksAmpsOk(c.links);
    AmpsOkPieces(h, Join(RowTexts(c.details), '\n'), m1, Join(RowTexts(c.connection), '\n'),
      m2, Join(LinkTexts(c.links), '\n'), e);
  }

  /** Every `&` of a card begins `&amp;`, `&lt;` or `&gt;`: a value cannot
      start an entity of its own. */
  lemma CardAmpsOk(c: Card)
    ensures AmpsOk(CardHtml(c))
  {
    TemplateAmpsOk(c);
    AmpsOkTrim(Template(c));
  }
}
