/**
 * What one call of WPMail::mail() does, as functions of the world it runs
 * in (WordPress's constants, filters and options, and PHPMailer's
 * behaviour, all gathered in an `Env`) and of the WPMail object's state
 * before the call. The class in wpmail.dfy is proved to follow it.
 */
module WPMailFlow {
  import opened Wrappers
  import Php
  import OrderedMap
  import opened Mailer
  import opened WPMailText

  /**
   * The WP_MAIL_SMTP_* constants (None when not defined, already cast as
   * init() casts them) and the two debug switches.
   */
  datatype Constants = Constants(
    smtpUrl: Option<string>,
    host: Option<string>,
    port: Option<int>,
    secure: Option<string>,
    username: Option<string>,
    password: Option<string>,
    wpDebug: bool,                  // WP_DEBUG
    smtpDebug: bool,                // defined( 'WP_MAIL_SMTP_DEBUG' ) && WP_MAIL_SMTP_DEBUG
    debugLevel: Option<int>)        // WP_MAIL_SMTP_DEBUG_LEVEL

  /** What PHPMailer::send() did: returned, or threw. */
  datatype SendOutcome = Returned(ok: bool) | Threw(error: Thrown)

  /** Everything outside WPMail that mail() depends on. */
  datatype Env = Env(
    consts: Constants,
    newMailer: Mailer,                          // new PHPMailer( true )
    dsnMailer: string -> Option<Mailer>,        // DSNConfigurator::mailer(); None when it throws
    headerC: string -> string,                  // PHPMailer::DKIM_HeaderC
    parse: string -> seq<Address>,              // PHPMailer::parseAddresses
    msgHtml: string -> (string, string),        // PHPMailer::msgHTML: the body and the alternative text
    fails: Call -> Option<Thrown>,              // the exception a call throws, if it does
    adminEmail: string,                         // get_bloginfo( 'admin_email' )
    siteName: string,                           // get_bloginfo( 'name' )
    siteHost: string,                           // the host of network_home_url()
    filterFrom: string -> string,               // the wp_mail_from filter
    filterFromName: string -> string,           // the wp_mail_from_name filter
    filterContentType: string -> string,        // the wp_mail_content_type filter
    filterCharset: string -> string,            // the wp_mail_charset filter
    send: Mailer -> SendOutcome)                // PHPMailer::send

  /** The `$atts` of a call: to, subject, message, headers, attachments. */
  datatype Request = Request(
    to: TextOrList,
    subject: string,
    message: string,
    headers: TextOrList,
    attachments: Attachments)

  /** The properties of the WPMail object besides its PHPMailer. */
  datatype Settings = Settings(
    fromEmail: Option<string>,
    fromName: Option<string>,
    contentType: string,
    charset: string)

  /** A new WPMail object's settings. */
  const InitialSettings: Settings := Settings(None, None, ContentTypePlain, CharsetUtf8)

  /** The WPMail object: its settings and its PHPMailer, None while it has none. */
  datatype State = State(settings: Settings, mailer: Option<Mailer>)

  /** The data of the WP_Error passed to the `wp_mail_failed` action. */
  datatype MailFailure = MailFailure(
    error: string,                      // the exception's message
    target: Option<TextOrList>,         // None stands for false
    subject: Option<string>,
    message: Option<string>,
    headers: Option<TextOrList>,
    attachments: Option<Attachments>,
    exceptionCode: int)

  /** What a call of mail() returns and announces, and the object after it. */
  datatype Delivery = Delivery(result: bool, failure: Option<MailFailure>, state: State)

  // ---------------------------------------------------------------------
  // init()

  /** The lists and bodies init() empties. */
  predicate Cleared(m: Mailer) {
    && m.to == [] && m.cc == [] && m.bcc == [] && m.replyTo == []
    && m.customHeaders == [] && m.attachments == []
    && m.body == "" && m.altBody == ""
  }

  /**
   * The configuration init() applies to a PHPMailer: SMTP transport, the
   * settings given by constants, authentication when a user name or a
   * password is given, debugging when both switches are on, and the
   * lists and bodies emptied; nothing else changes.
   */
  function Configure(m: Mailer, c: Constants): (r: Mailer)
    ensures r.smtp && Cleared(r)
    ensures r.host == c.host.GetOr(m.host) && r.port == c.port.GetOr(m.port)
    ensures r.secure == c.secure.GetOr(m.secure)
    ensures r.username == c.username.GetOr(m.username)
    ensures r.password == c.password.GetOr(m.password)
    ensures r.smtpAuth <==> m.smtpAuth || c.username.Some? || c.password.Some?
    ensures c.wpDebug && c.smtpDebug ==>
      r.debugOutput == "error_log" && r.debugLevel == c.debugLevel.GetOr(1)
    ensures !(c.wpDebug && c.smtpDebug) ==>
      r.debugOutput == m.debugOutput && r.debugLevel == m.debugLevel
    ensures r.subject == m.subject && r.from == m.from
    ensures r.contentType == m.contentType && r.charset == m.charset
  {
    var auth := c.username.Some? || c.password.Some?;
    var debug := c.wpDebug && c.smtpDebug;
    m.(smtp := true,
       host := c.host.GetOr(m.host),
       port := c.port.GetOr(m.port),
       secure := c.secure.GetOr(m.secure),
       username := c.username.GetOr(m.username),
       password := c.password.GetOr(m.password),
       smtpAuth := m.smtpAuth || auth,
       debugOutput := if debug then "error_log" else m.debugOutput,
       debugLevel := if debug then c.debugLevel.GetOr(1) else m.debugLevel,
       to := [], cc := [], bcc := [], replyTo := [],
       customHeaders := [], attachments := [],
       body := "", altBody := "")
  }

  /** A mailer with every field Configure promises is the configured mailer. */
  lemma ConfigureFields(m: Mailer, c: Constants, r: Mailer)
    requires r.smtp && Cleared(r)
    requires r.host == c.host.GetOr(m.host) && r.port == c.port.GetOr(m.port)
    requires r.secure == c.secure.GetOr(m.secure)
    requires r.username == c.username.GetOr(m.username)
    requires r.password == c.password.GetOr(m.password)
    requires r.smtpAuth <==> m.smtpAuth || c.username.Some? || c.password.Some?
    requires c.wpDebug && c.smtpDebug ==>
      r.debugOutput == "error_log" && r.debugLevel == c.debugLevel.GetOr(1)
    requires !(c.wpDebug && c.smtpDebug) ==>
      r.debugOutput == m.debugOutput && r.debugLevel == m.debugLevel
    requires r.subject == m.subject && r.from == m.from
    requires r.contentType == m.contentType && r.charset == m.charset
    ensures r == Configure(m, c)
  {
  }

  /** Configuring twice is configuring once. */
  lemma ConfigureIdempotent(m: Mailer, c: Constants)
    ensures Configure(Configure(m, c), c) == Configure(m, c)
  {
  }

  /**
   * The PHPMailer after init(): one built from the DSN when
   * WP_MAIL_SMTP_URL is defined (the old one is kept when that throws),
   * a new one otherwise; then configured.
   */
  function InitMailer(current: Option<Mailer>, env: Env): (r: Option<Mailer>)
    ensures r.None? <==>
      current.None? && env.consts.smtpUrl.Some? && env.dsnMailer(env.consts.smtpUrl.value).None?
    ensures r.Some? ==> Cleared(r.value) && r.value.smtp
    ensures env.consts.smtpUrl.None? ==> r == Some(Configure(env.newMailer, env.consts))
    ensures env.consts.smtpUrl.Some? && env.dsnMailer(env.consts.smtpUrl.value).Some? ==>
      r == Some(Configure(env.dsnMailer(env.consts.smtpUrl.value).value, env.consts))
    ensures env.consts.smtpUrl.Some? && env.dsnMailer(env.consts.smtpUrl.value).None? && current.Some? ==>
      r == Some(Configure(current.value, env.consts))
  {
    var built :=
      match env.consts.smtpUrl
      case None => Some(env.newMailer)
      case Some(url) => if env.dsnMailer(url).Some? then env.dsnMailer(url) else current;
    match built
    case None => None
    case Some(m) => Some(Configure(m, env.consts))
  }

  // ---------------------------------------------------------------------
  // Calls that may throw

  /** The state a run of calls has reached, and the exception that stopped it, if any. */
  datatype Progress = Progress(settings: Settings, mailer: Mailer, thrown: Option<Thrown>)

  /** One call; nothing happens once an exception has been thrown. */
  function Perform(fails: Call -> Option<Thrown>, p: Progress, c: Call): (r: Progress)
    ensures r.settings == p.settings
  {
    if p.thrown.Some? then p
    else match fails(c)
      case Some(e) => p.(thrown := Some(e))
      case None => p.(mailer := p.mailer.Apply(c))
  }

  /** The calls in order, up to the first one that throws. */
  function PerformAll(fails: Call -> Option<Thrown>, p: Progress, calls: seq<Call>): (r: Progress)
    ensures r.settings == p.settings
    decreases |calls|
  {
    if |calls| == 0 || p.thrown.Some? then p
    else PerformAll(fails, Perform(fails, p, calls[0]), calls[1..])
  }

  /** The position of the first call that throws; |calls| when none does. */
  function FirstThrow(fails: Call -> Option<Thrown>, calls: seq<Call>): (n: nat)
    ensures n <= |calls|
    ensures forall i :: 0 <= i < n ==> fails(calls[i]).None?
    ensures n < |calls| ==> fails(calls[n]).Some?
    decreases |calls|
  {
    if |calls| == 0 || fails(calls[0]).Some? then 0
    else 1 + FirstThrow(fails, calls[1..])
  }

  /** The effect of calls none of which throws. */
  function ApplyAll(m: Mailer, calls: seq<Call>): Mailer
    decreases |calls|
  {
    if |calls| == 0 then m else ApplyAll(m.Apply(calls[0]), calls[1..])
  }

  /**
   * A run makes every call before the first one that throws, and stops
   * with that call's exception.
   */
  lemma {:induction false} PerformAllStopsAtFirstThrow(fails: Call -> Option<Thrown>, p: Progress, calls: seq<Call>)
    requires p.thrown.None?
    ensures var n := FirstThrow(fails, calls);
      PerformAll(fails, p, calls) ==
        Progress(p.settings, ApplyAll(p.mailer, calls[..n]),
                 if n < |calls| then fails(calls[n]) else None)
    decreases |calls|
  {
    if |calls| > 0 {
      if fails(calls[0]).None? {
        PerformAllStopsAtFirstThrow(fails, Perform(fails, p, calls[0]), calls[1..]);
        var n := FirstThrow(fails, calls[1..]);
        assert calls[..n + 1][1..] == calls[1..][..n];
      }
    }
  }

  /** addAddress() (or a sibling) for each address. */
  function AddressCalls(kind: Kind, list: seq<Address>): seq<Call> {
    seq(|list|, i requires 0 <= i < |list| => AddAddress(kind, list[i]))
  }

  /** Adding addresses appends them to that list and to no other. */
  lemma {:induction false} ApplyAddressCalls(m: Mailer, kind: Kind, list: seq<Address>)
    ensures ApplyAll(m, AddressCalls(kind, list)) == m.WithRecipients(kind, m.Recipients(kind) + list)
    decreases |list|
  {
    if |list| == 0 {
      assert m.Recipients(kind) + list == m.Recipients(kind);
    } else {
      var a, rest := list[0], list[1..];
      var m1 := m.Add(kind, a);
      var calls := AddressCalls(kind, list);
      assert calls[1..] == AddressCalls(kind, rest);
      assert ApplyAll(m, calls) == ApplyAll(m1, calls[1..]);
      ApplyAddressCalls(m1, kind, rest);
      ReplaceAfterAdd(m, kind, a, m1.Recipients(kind) + rest);
      assert m1.Recipients(kind) + rest == m.Recipients(kind) + list by {
        assert list == [a] + rest;
      }
    }
  }

  /** addAttachment() for each attachment. */
  function AttachmentCalls(list: seq<Attachment>): seq<Call> {
    seq(|list|, i requires 0 <= i < |list| => AddAttachment(list[i]))
  }

  /** Adding attachments appends them to the attachment list. */
  lemma {:induction false} ApplyAttachmentCalls(m: Mailer, list: seq<Attachment>)
    ensures ApplyAll(m, AttachmentCalls(list)) == m.(attachments := m.attachments + list)
    decreases |list|
  {
    if |list| == 0 {
      assert m.attachments + list == m.attachments;
    } else {
      var calls := AttachmentCalls(list);
      assert calls[1..] == AttachmentCalls(list[1..]);
      ApplyAttachmentCalls(m.Apply(AddAttachment(list[0])), list[1..]);
      assert [list[0]] + list[1..] == list;
    }
  }

  /** Addresses are added up to the first one whose call throws, to that list only. */
  lemma PerformAddresses(fails: Call -> Option<Thrown>, p: Progress, kind: Kind, list: seq<Address>)
    requires p.thrown.None?
    ensures var calls := AddressCalls(kind, list);
      var n := FirstThrow(fails, calls);
      var r := PerformAll(fails, p, calls);
      && r.mailer == p.mailer.WithRecipients(kind, p.mailer.Recipients(kind) + list[..n])
      && r.thrown == (if n < |list| then fails(AddAddress(kind, list[n])) else None)
  {
    var calls := AddressCalls(kind, list);
    var n := FirstThrow(fails, calls);
    PerformAllStopsAtFirstThrow(fails, p, calls);
    assert calls[..n] == AddressCalls(kind, list[..n]);
    ApplyAddressCalls(p.mailer, kind, list[..n]);
  }

  /** Attachments are added up to the first one whose call throws. */
  lemma PerformAttachments(fails: Call -> Option<Thrown>, p: Progress, list: seq<Attachment>)
    requires p.thrown.None?
    ensures var calls := AttachmentCalls(list);
      var n := FirstThrow(fails, calls);
      var r := PerformAll(fails, p, calls);
      && r.mailer == p.mailer.(attachments := p.mailer.attachments + list[..n])
      && r.thrown == (if n < |list| then fails(AddAttachment(list[n])) else None)
  {
    var calls := AttachmentCalls(list);
    var n := FirstThrow(fails, calls);
    PerformAllStopsAtFirstThrow(fails, p, calls);
    assert calls[..n] == AttachmentCalls(list[..n]);
    ApplyAttachmentCalls(p.mailer, list[..n]);
  }

  /** No call of the run throws. */
  ghost predicate NoThrow(env: Env) {
    forall c :: env.fails(c).None?
  }

  // ---------------------------------------------------------------------
  // addMailHeaders()

  /** The address list a header feeds: `cc`, `bcc` and `reply-to`. */
  function HeaderKind(name: string): Option<Kind> {
    if name == "cc" then Some(Cc)
    else if name == "bcc" then Some(Bcc)
    else if name == "reply-to" then Some(ReplyTo)
    else None
  }

  /** A header that the switch of addMailHeaders() handles itself. */
  predicate KnownHeader(name: string) {
    name == "content-type" || name == "from" || HeaderKind(name).Some?
  }

  /** The `content-type` case: the content type and character set it selects. */
  function ContentTypeSettings(s: Settings, content: string): Settings {
    var r := ContentTypeHeader(content, s.contentType, s.charset);
    s.(contentType := r.0, charset := r.1)
  }

  /** The `from` case: the first address parsed, when there is one, becomes the sender. */
  function FromSettings(parse: string -> seq<Address>, s: Settings, content: string): Settings {
    var from := FormatEmail(parse, Text(content));
    if |from| == 0 then s
    else s.(fromEmail := Some(from[0].address), fromName := Some(from[0].name))
  }

  /** One parsed header, as the switch of addMailHeaders() handles it. */
  function HeaderStep(env: Env, p: Progress, h: (string, string)): Progress {
    var name, content := h.0, h.1;
    if name == "content-type" then
      p.(settings := ContentTypeSettings(p.settings, content))
    else if name == "from" then
      p.(settings := FromSettings(env.parse, p.settings, content))
    else if HeaderKind(name).Some? then
      PerformAll(env.fails, p, AddressCalls(HeaderKind(name).value, FormatEmail(env.parse, Text(content))))
    else
      Perform(env.fails, p, AddCustomHeader(name, content))
  }

  /** The foreach of addMailHeaders(): each header in turn, until one throws. */
  function Dispatch(env: Env, p: Progress, hs: seq<(string, string)>): Progress
    decreases |hs|
  {
    if |hs| == 0 || p.thrown.Some? then p
    else Dispatch(env, HeaderStep(env, p, hs[0]), hs[1..])
  }

  /** One step of the foreach. */
  lemma DispatchStep(env: Env, p: Progress, hs: seq<(string, string)>)
    requires |hs| > 0 && p.thrown.None?
    ensures Dispatch(env, p, hs) == Dispatch(env, HeaderStep(env, p, hs[0]), hs[1..])
  {
  }

  /** What a header leaves alone: the fields of the other cases. */
  lemma HeaderStepFrame(env: Env, p: Progress, h: (string, string))
    requires p.thrown.None?
    ensures var r := HeaderStep(env, p, h);
      && r.mailer.to == p.mailer.to
      && (h.0 != "content-type" ==>
            r.settings.contentType == p.settings.contentType && r.settings.charset == p.settings.charset)
      && (h.0 != "from" ==>
            r.settings.fromEmail == p.settings.fromEmail && r.settings.fromName == p.settings.fromName)
      && (forall k :: HeaderKind(h.0) != Some(k) ==> r.mailer.Recipients(k) == p.mailer.Recipients(k))
      && (KnownHeader(h.0) ==> r.mailer.customHeaders == p.mailer.customHeaders)
  {
    if HeaderKind(h.0).Some? {
      PerformAddresses(env.fails, p, HeaderKind(h.0).value, FormatEmail(env.parse, Text(h.1)));
    }
  }

  /** No header ever adds a `To` recipient: a `To:` header is a custom header. */
  lemma {:induction false} DispatchKeepsTo(env: Env, p: Progress, hs: seq<(string, string)>)
    ensures Dispatch(env, p, hs).mailer.to == p.mailer.to
    decreases |hs|
  {
    if |hs| > 0 && p.thrown.None? {
      HeaderStepFrame(env, p, hs[0]);
      DispatchKeepsTo(env, HeaderStep(env, p, hs[0]), hs[1..]);
    }
  }

  /** Without a `content-type` header the content type and character set are kept. */
  lemma {:induction false} DispatchKeepsContentType(env: Env, p: Progress, hs: seq<(string, string)>)
    requires OrderedMap.Get(hs, "content-type").None?
    ensures Dispatch(env, p, hs).settings.contentType == p.settings.contentType
    ensures Dispatch(env, p, hs).settings.charset == p.settings.charset
    decreases |hs|
  {
    if |hs| > 0 && p.thrown.None? {
      HeaderStepFrame(env, p, hs[0]);
      GetTail(hs, "content-type");
      DispatchKeepsContentType(env, HeaderStep(env, p, hs[0]), hs[1..]);
    }
  }

  /** Without a `from` header the sender address and name are kept. */
  lemma {:induction false} DispatchKeepsFrom(env: Env, p: Progress, hs: seq<(string, string)>)
    requires OrderedMap.Get(hs, "from").None?
    ensures Dispatch(env, p, hs).settings.fromEmail == p.settings.fromEmail
    ensures Dispatch(env, p, hs).settings.fromName == p.settings.fromName
    decreases |hs|
  {
    if |hs| > 0 && p.thrown.None? {
      HeaderStepFrame(env, p, hs[0]);
      GetTail(hs, "from");
      DispatchKeepsFrom(env, HeaderStep(env, p, hs[0]), hs[1..]);
    }
  }

  /** Looking a key up past the first entry. */
  lemma GetTail(hs: seq<(string, string)>, k: string)
    requires |hs| > 0
    ensures OrderedMap.Get(hs, k) ==
      if hs[0].0 == k then Some(hs[0].1) else OrderedMap.Get(hs[1..], k)
  {
  }

  /** With distinct keys, the first key does not occur again. */
  lemma UniqueTail(hs: seq<(string, string)>)
    requires |hs| > 0 && OrderedMap.UniqueKeys(hs)
    ensures OrderedMap.UniqueKeys(hs[1..])
    ensures OrderedMap.Get(hs[1..], hs[0].0).None?
  {
  }

  /** With no call throwing, a run of calls makes every call. */
  lemma NoThrowFirstThrow(env: Env, calls: seq<Call>)
    requires NoThrow(env)
    ensures FirstThrow(env.fails, calls) == |calls|
  {
  }

  /** The headers that become custom headers, in order. */
  function Customs(hs: seq<(string, string)>): seq<(string, string)> {
    if |hs| == 0 then []
    else (if KnownHeader(hs[0].0) then [] else [hs[0]]) + Customs(hs[1..])
  }

  /** The addresses of the header `name`, if it is present. */
  function Listed(parse: string -> seq<Address>, hs: seq<(string, string)>, name: string): seq<Address> {
    match OrderedMap.Get(hs, name)
    case Some(v) => FormatEmail(parse, Text(v))
    case None => []
  }

  /** The settings after the `content-type` and `from` headers, each looked up once. */
  function HeaderSettings(parse: string -> seq<Address>, s: Settings, hs: seq<(string, string)>): Settings {
    var s1 :=
      match OrderedMap.Get(hs, "content-type")
      case Some(v) => ContentTypeSettings(s, v)
      case None => s;
    match OrderedMap.Get(hs, "from")
    case Some(v) => FromSettings(parse, s1, v)
    case None => s1
  }

  /** The mailer after the headers: the three address lists and the custom headers grow. */
  function HeaderMailer(parse: string -> seq<Address>, m: Mailer, hs: seq<(string, string)>): Mailer {
    m.(cc := m.cc + Listed(parse, hs, "cc"),
       bcc := m.bcc + Listed(parse, hs, "bcc"),
       replyTo := m.replyTo + Listed(parse, hs, "reply-to"),
       customHeaders := m.customHeaders + Customs(hs))
  }

  /** The reference lookup of one name, split at the first header. */
  lemma ListedSplit(parse: string -> seq<Address>, hs: seq<(string, string)>, name: string)
    requires |hs| > 0 && OrderedMap.UniqueKeys(hs)
    ensures Listed(parse, hs, name) == Listed(parse, [hs[0]], name) + Listed(parse, hs[1..], name)
  {
    UniqueTail(hs);
    GetTail(hs, name);
    GetTail([hs[0]], name);
    assert [hs[0]][1..] == [];
  }

  /** The reference mailer after a single header. */
  lemma HeaderMailerSingle(parse: string -> seq<Address>, m: Mailer, h: (string, string))
    ensures HeaderMailer(parse, m, [h]) ==
      if HeaderKind(h.0).Some? then
        m.WithRecipients(HeaderKind(h.0).value,
          m.Recipients(HeaderKind(h.0).value) + FormatEmail(parse, Text(h.1)))
      else if KnownHeader(h.0) then m
      else m.(customHeaders := m.customHeaders + [h])
  {
    match HeaderKind(h.0)
    case Some(kind) => SingleAddressHeader(parse, m, h, kind);
    case None => SingleOtherHeader(parse, m, h);
  }

  /** A single `cc`, `bcc` or `reply-to` header appends its addresses to that list. */
  lemma SingleAddressHeader(parse: string -> seq<Address>, m: Mailer, h: (string, string), kind: Kind)
    requires HeaderKind(h.0) == Some(kind)
    ensures HeaderMailer(parse, m, [h]) == m.WithRecipients(kind, m.Recipients(kind) + FormatEmail(parse, Text(h.1)))
  {
    var v := FormatEmail(parse, Text(h.1));
    ListedSingle(parse, h, "cc");
    ListedSingle(parse, h, "bcc");
    ListedSingle(parse, h, "reply-to");
    CustomsSingle(h);
    AddressLists(m, kind, Listed(parse, [h], "cc"), Listed(parse, [h], "bcc"), Listed(parse, [h], "reply-to"), v);
  }

  /** Appending to the three header lists when exactly the one of `kind` gets `v`. */
  lemma AddressLists(m: Mailer, kind: Kind, cc: seq<Address>, bcc: seq<Address>, replyTo: seq<Address>, v: seq<Address>)
    requires kind != To
    requires cc == (if kind == Cc then v else [])
    requires bcc == (if kind == Bcc then v else [])
    requires replyTo == (if kind == ReplyTo then v else [])
    ensures m.(cc := m.cc + cc, bcc := m.bcc + bcc, replyTo := m.replyTo + replyTo, customHeaders := m.customHeaders + [])
      == m.WithRecipients(kind, m.Recipients(kind) + v)
  {
    assert m.customHeaders + [] == m.customHeaders;
    match kind
    case Cc => assert m.bcc + [] == m.bcc && m.replyTo + [] == m.replyTo;
    case Bcc => assert m.cc + [] == m.cc && m.replyTo + [] == m.replyTo;
    case ReplyTo => assert m.cc + [] == m.cc && m.bcc + [] == m.bcc;
  }

  /** Any other single header is passed on as a custom header unless the switch handles it. */
  lemma SingleOtherHeader(parse: string -> seq<Address>, m: Mailer, h: (string, string))
    requires HeaderKind(h.0).None?
    ensures HeaderMailer(parse, m, [h]) ==
      if KnownHeader(h.0) then m else m.(customHeaders := m.customHeaders + [h])
  {
    ListedSingle(parse, h, "cc");
    ListedSingle(parse, h, "bcc");
    ListedSingle(parse, h, "reply-to");
    CustomsSingle(h);
    HeaderMailerNone(parse, m);
  }

  /** The reference lookup in a single header. */
  lemma ListedSingle(parse: string -> seq<Address>, h: (string, string), name: string)
    ensures Listed(parse, [h], name) == if h.0 == name then FormatEmail(parse, Text(h.1)) else []
  {
    GetTail([h], name);
    assert [h][1..] == [];
  }

  /** A single header is a custom one unless the switch handles it. */
  lemma CustomsSingle(h: (string, string))
    ensures Customs([h]) == if KnownHeader(h.0) then [] else [h]
  {
    assert [h][1..] == [];
  }

  /** One header with no call throwing. */
  lemma HeaderStepNoThrow(env: Env, p: Progress, h: (string, string))
    requires NoThrow(env) && p.thrown.None?
    ensures var r := HeaderStep(env, p, h);
      && r.thrown.None?
      && r.mailer == HeaderMailer(env.parse, p.mailer, [h])
  {
    HeaderMailerSingle(env.parse, p.mailer, h);
    if HeaderKind(h.0).Some? {
      var kind := HeaderKind(h.0).value;
      var list := FormatEmail(env.parse, Text(h.1));
      PerformAddresses(env.fails, p, kind, list);
      NoThrowFirstThrow(env, AddressCalls(kind, list));
      assert list[..|list|] == list;
    }
  }

  /**
   * With distinct header names and no call throwing, addMailHeaders() sets
   * the content type and the sender from their headers, adds the addresses
   * of the `cc`, `bcc` and `reply-to` headers to those lists, and passes
   * every other header on as a custom header, in order.
   */
  lemma {:induction false} DispatchEffect(env: Env, p: Progress, hs: seq<(string, string)>)
    requires NoThrow(env) && p.thrown.None? && OrderedMap.UniqueKeys(hs)
    ensures Dispatch(env, p, hs) ==
      Progress(HeaderSettings(env.parse, p.settings, hs), HeaderMailer(env.parse, p.mailer, hs), None)
    decreases |hs|
  {
    if |hs| == 0 {
      assert HeaderMailer(env.parse, p.mailer, hs) == p.mailer;
    } else {
      var h := hs[0];
      var rest := hs[1..];
      var q := HeaderStep(env, p, h);
      HeaderStepNoThrow(env, p, h);
      UniqueTail(hs);
      DispatchEffect(env, q, rest);
      HeaderSettingsSplit(env.parse, p.settings, hs);
      HeaderMailerSplit(env.parse, p.mailer, hs);
    }
  }

  /** The reference settings, taken one header at a time. */
  lemma HeaderSettingsSplit(parse: string -> seq<Address>, s: Settings, hs: seq<(string, string)>)
    requires |hs| > 0 && OrderedMap.UniqueKeys(hs)
    ensures var h := hs[0];
      var s1 :=
        if h.0 == "content-type" then ContentTypeSettings(s, h.1)
        else if h.0 == "from" then FromSettings(parse, s, h.1)
        else s;
      HeaderSettings(parse, s1, hs[1..]) == HeaderSettings(parse, s, hs)
  {
    UniqueTail(hs);
    GetTail(hs, "content-type");
    GetTail(hs, "from");
  }

  /** The reference mailer, taken one header at a time. */
  lemma HeaderMailerSplit(parse: string -> seq<Address>, m: Mailer, hs: seq<(string, string)>)
    requires |hs| > 0 && OrderedMap.UniqueKeys(hs)
    ensures HeaderMailer(parse, HeaderMailer(parse, m, [hs[0]]), hs[1..]) == HeaderMailer(parse, m, hs)
  {
    ListedSplit(parse, hs, "cc");
    ListedSplit(parse, hs, "bcc");
    ListedSplit(parse, hs, "reply-to");
    CustomsSplit(hs);
    HeaderMailerTwice(parse, m, [hs[0]], hs[1..]);
  }

  /** The custom headers, split at the first header. */
  lemma CustomsSplit(hs: seq<(string, string)>)
    requires |hs| > 0
    ensures Customs(hs) == Customs([hs[0]]) + Customs(hs[1..])
  {
    assert [hs[0]][1..] == [];
  }

  /** The reference mailer of two runs of headers appends the lists of both. */
  lemma HeaderMailerTwice(parse: string -> seq<Address>, m: Mailer, a: seq<(string, string)>, b: seq<(string, string)>)
    ensures HeaderMailer(parse, HeaderMailer(parse, m, a), b)
         == m.(cc := m.cc + (Listed(parse, a, "cc") + Listed(parse, b, "cc")),
               bcc := m.bcc + (Listed(parse, a, "bcc") + Listed(parse, b, "bcc")),
               replyTo := m.replyTo + (Listed(parse, a, "reply-to") + Listed(parse, b, "reply-to")),
               customHeaders := m.customHeaders + (Customs(a) + Customs(b)))
  {
    AppendTwice(m,
      Listed(parse, a, "cc"), Listed(parse, a, "bcc"), Listed(parse, a, "reply-to"), Customs(a),
      Listed(parse, b, "cc"), Listed(parse, b, "bcc"), Listed(parse, b, "reply-to"), Customs(b));
  }

  /** No headers leave the mailer as it is. */
  lemma HeaderMailerNone(parse: string -> seq<Address>, m: Mailer)
    ensures HeaderMailer(parse, m, []) == m
  {
    assert m.cc + [] == m.cc && m.bcc + [] == m.bcc && m.replyTo + [] == m.replyTo;
    assert m.customHeaders + [] == m.customHeaders;
  }

  /** Appending to the four lists headers touch twice is appending the joined lists once. */
  lemma AppendTwice(m: Mailer,
                    cc1: seq<Address>, bcc1: seq<Address>, replyTo1: seq<Address>, custom1: seq<(string, string)>,
                    cc2: seq<Address>, bcc2: seq<Address>, replyTo2: seq<Address>, custom2: seq<(string, string)>)
    ensures var m1 := m.(cc := m.cc + cc1, bcc := m.bcc + bcc1, replyTo := m.replyTo + replyTo1,
                         customHeaders := m.customHeaders + custom1);
      m1.(cc := m1.cc + cc2, bcc := m1.bcc + bcc2, replyTo := m1.replyTo + replyTo2,
          customHeaders := m1.customHeaders + custom2)
      == m.(cc := m.cc + (cc1 + cc2), bcc := m.bcc + (bcc1 + bcc2), replyTo := m.replyTo + (replyTo1 + replyTo2),
            customHeaders := m.customHeaders + (custom1 + custom2))
  {
    assert m.cc + cc1 + cc2 == m.cc + (cc1 + cc2);
    assert m.bcc + bcc1 + bcc2 == m.bcc + (bcc1 + bcc2);
    assert m.replyTo + replyTo1 + replyTo2 == m.replyTo + (replyTo1 + replyTo2);
    assert m.customHeaders + custom1 + custom2 == m.customHeaders + (custom1 + custom2);
  }

  // ---------------------------------------------------------------------
  // setSender()

  /**
   * setSender(): the sender address and name are settled and kept on the
   * object, then setFrom() is called with what the `wp_mail_from` and
   * `wp_mail_from_name` filters make of them.
   */
  function SetSenderStep(env: Env, p: Progress): (r: Progress)
    requires p.thrown.None?
    ensures r.settings.fromEmail.Some? && !IsBlank(r.settings.fromEmail)
    ensures !IsBlank(p.settings.fromEmail) ==> r.settings.fromEmail == p.settings.fromEmail
    ensures IsBlank(p.settings.fromEmail) && !Php.Falsy(env.adminEmail) ==> r.settings.fromEmail == Some(env.adminEmail)
    ensures IsBlank(p.settings.fromEmail) && Php.Falsy(env.adminEmail) ==>
      r.settings.fromEmail == Some("website@" + SiteDomain(env.siteHost))
    ensures r.settings.fromName.Some?
    ensures !IsBlank(p.settings.fromName) ==> r.settings.fromName == p.settings.fromName
    ensures IsBlank(p.settings.fromName) ==> r.settings.fromName == Some(env.siteName)
    ensures r.settings.contentType == p.settings.contentType && r.settings.charset == p.settings.charset
    ensures var sender := Address(env.filterFrom(r.settings.fromEmail.value), env.filterFromName(r.settings.fromName.value));
      && r.thrown == env.fails(SetFrom(sender))
      && r.mailer == if r.thrown.None? then p.mailer.(from := sender) else p.mailer
  {
    var e := SenderEmail(p.settings.fromEmail, env.adminEmail, env.siteHost);
    var n := SenderName(p.settings.fromName, env.siteName);
    var q := p.(settings := p.settings.(fromEmail := Some(e), fromName := Some(n)));
    Perform(env.fails, q, SetFrom(Address(env.filterFrom(e), env.filterFromName(n))))
  }

  // ---------------------------------------------------------------------
  // mail()

  /** Lines 49-57: each recipient of `to` is added with addAddress(). */
  function RecipientsPhase(env: Env, p: Progress, to: TextOrList): Progress {
    if IsEmpty(to) || p.thrown.Some? then p
    else PerformAll(env.fails, p, AddressCalls(To, FormatEmail(env.parse, to)))
  }

  /** Lines 59-61: the headers, when there are any. */
  function HeadersPhase(env: Env, p: Progress, headers: TextOrList): Progress {
    if IsEmpty(headers) || p.thrown.Some? then p
    else Dispatch(env, p, ParseHeaders(env.headerC, headers))
  }

  /** Lines 63-70: the trimmed subject and the message, when they are not empty. */
  function BodyPhase(env: Env, p: Progress, subject: string, message: string): Progress {
    if p.thrown.Some? then p
    else
      var m1 := if Php.Falsy(subject) then p.mailer else p.mailer.(subject := Trim(subject));
      var m2 :=
        if Php.Falsy(message) then m1
        else m1.(body := env.msgHtml(message).0, altBody := env.msgHtml(message).1);
      p.(mailer := m2)
  }

  /** Line 72. */
  function SenderPhase(env: Env, p: Progress): Progress {
    if p.thrown.Some? then p else SetSenderStep(env, p)
  }

  /** Lines 74-84: each attachment is added with addAttachment(). */
  function AttachmentsPhase(env: Env, p: Progress, attachments: Attachments): Progress {
    if AttachmentsEmpty(attachments) || p.thrown.Some? then p
    else PerformAll(env.fails, p, AttachmentCalls(AttachmentList(attachments)))
  }

  /** Lines 86-88: the filtered content type and character set go to the mailer. */
  function FiltersPhase(env: Env, p: Progress): Progress {
    if p.thrown.Some? then p
    else p.(mailer := p.mailer.(contentType := env.filterContentType(p.settings.contentType),
                                charset := env.filterCharset(p.settings.charset)))
  }

  /** The try block up to the attachments. */
  function BeforeAttachments(env: Env, p: Progress, req: Request): Progress {
    var p1 := RecipientsPhase(env, p, req.to);
    var p2 := HeadersPhase(env, p1, req.headers);
    var p3 := BodyPhase(env, p2, req.subject, req.message);
    SenderPhase(env, p3)
  }

  /** The try block up to send(). */
  function Prepared(env: Env, p: Progress, req: Request): Progress {
    FiltersPhase(env, AttachmentsPhase(env, BeforeAttachments(env, p, req), req.attachments))
  }

  /**
   * The data of the WP_Error for an exception: the five arguments as mail()
   * holds them when it catches it (false for an empty one; a string of
   * attachments already split into lines once line 76 has run) and the
   * exception's code.
   */
  function Failure(req: Request, split: bool, e: Thrown): MailFailure {
    MailFailure(e.message,
      if IsEmpty(req.to) then None else Some(req.to),
      if Php.Falsy(req.subject) then None else Some(req.subject),
      if Php.Falsy(req.message) then None else Some(req.message),
      if IsEmpty(req.headers) then None else Some(req.headers),
      if AttachmentsEmpty(req.attachments) then None
      else if split then Some(Keyed(AttachmentArray(req.attachments)))
      else Some(req.attachments),
      e.code)
  }

  /**
   * WPMail::mail($return, $atts) on an object in state `st`: without a
   * mailer it returns `$return` and does nothing else; otherwise it
   * returns what send() returns, or true after an exception, which it
   * announces through `wp_mail_failed`.
   */
  function Deliver(env: Env, ret: bool, req: Request, st: State): (d: Delivery)
    ensures d.failure.Some? ==> d.result
    ensures InitMailer(st.mailer, env).None? ==> d == Delivery(ret, None, st)
    ensures InitMailer(st.mailer, env).Some? ==> d.state.mailer.Some?
    ensures InitMailer(st.mailer, env).Some? ==>
      var p0 := Progress(st.settings, InitMailer(st.mailer, env).value, None);
      var p := Prepared(env, p0, req);
      p.thrown.Some? ==>
        d.result && d.failure == Some(Failure(req, BeforeAttachments(env, p0, req).thrown.None?, p.thrown.value))
  {
    match InitMailer(st.mailer, env)
    case None => Delivery(ret, None, State(st.settings, None))
    case Some(m) =>
      var p0 := Progress(st.settings, m, None);
      var before := BeforeAttachments(env, p0, req);
      var p := Prepared(env, p0, req);
      var state := State(p.settings, Some(p.mailer));
      var outcome := if p.thrown.Some? then Threw(p.thrown.value) else env.send(p.mailer);
      match outcome
      case Returned(ok) => Delivery(ok, None, state)
      case Threw(e) => Delivery(true, Some(Failure(req, before.thrown.None?, e)), state)
  }

  // ---------------------------------------------------------------------
  // mail() when no call throws

  /** The recipients of `to` are appended to the To list. */
  lemma RecipientsNoThrow(env: Env, p: Progress, to: TextOrList)
    requires NoThrow(env) && p.thrown.None?
    ensures RecipientsPhase(env, p, to) ==
      Progress(p.settings, p.mailer.(to := p.mailer.to + Addressees(env, to)), None)
  {
    if !IsEmpty(to) {
      var list := FormatEmail(env.parse, to);
      PerformAddresses(env.fails, p, To, list);
      NoThrowFirstThrow(env, AddressCalls(To, list));
      assert list[..|list|] == list;
    } else {
      assert p.mailer.to + [] == p.mailer.to;
    }
  }

  /** The addresses of the `to` argument; none when it is empty. */
  function Addressees(env: Env, to: TextOrList): seq<Address> {
    if IsEmpty(to) then [] else FormatEmail(env.parse, to)
  }

  /** The parsed headers; none when the argument is empty. */
  function HeaderEntries(env: Env, headers: TextOrList): (hs: seq<(string, string)>)
    ensures OrderedMap.UniqueKeys(hs)
  {
    if IsEmpty(headers) then [] else ParseHeaders(env.headerC, headers)
  }

  /** The attachments added; none when the argument is empty. */
  function AttachmentsAdded(a: Attachments): seq<Attachment> {
    if AttachmentsEmpty(a) then [] else AttachmentList(a)
  }

  /** The headers take effect as the reference functions say. */
  lemma HeadersNoThrow(env: Env, p: Progress, headers: TextOrList)
    requires NoThrow(env) && p.thrown.None?
    ensures var hs := HeaderEntries(env, headers);
      HeadersPhase(env, p, headers) ==
        Progress(HeaderSettings(env.parse, p.settings, hs), HeaderMailer(env.parse, p.mailer, hs), None)
  {
    var hs := HeaderEntries(env, headers);
    if IsEmpty(headers) {
      HeaderMailerNone(env.parse, p.mailer);
    } else {
      DispatchEffect(env, p, hs);
    }
  }

  /** The attachments are appended to the attachment list. */
  lemma AttachmentsNoThrow(env: Env, p: Progress, a: Attachments)
    requires NoThrow(env) && p.thrown.None?
    ensures AttachmentsPhase(env, p, a) ==
      Progress(p.settings, p.mailer.(attachments := p.mailer.attachments + AttachmentsAdded(a)), None)
  {
    if !AttachmentsEmpty(a) {
      var list := AttachmentList(a);
      PerformAttachments(env.fails, p, list);
      NoThrowFirstThrow(env, AttachmentCalls(list));
      assert list[..|list|] == list;
    } else {
      assert p.mailer.attachments + [] == p.mailer.attachments;
    }
  }

  /**
   * With no call throwing, the try block makes every call: the mailer gets
   * the recipients, the header lists and custom headers, the trimmed
   * subject, the body and alternative text of msgHTML(), the settled
   * sender, the attachments and the filtered content type and character set.
   */
  lemma PreparedNoThrow(env: Env, p: Progress, req: Request)
    requires NoThrow(env) && p.thrown.None?
    ensures var r := Prepared(env, p, req);
      var hs := HeaderEntries(env, req.headers);
      var s := HeaderSettings(env.parse, p.settings, hs);
      var email := SenderEmail(s.fromEmail, env.adminEmail, env.siteHost);
      var name := SenderName(s.fromName, env.siteName);
      && r.thrown.None?
      && r.mailer.to == p.mailer.to + Addressees(env, req.to)
      && r.mailer.cc == p.mailer.cc + Listed(env.parse, hs, "cc")
      && r.mailer.bcc == p.mailer.bcc + Listed(env.parse, hs, "bcc")
      && r.mailer.replyTo == p.mailer.replyTo + Listed(env.parse, hs, "reply-to")
      && r.mailer.customHeaders == p.mailer.customHeaders + Customs(hs)
      && r.mailer.subject == (if Php.Falsy(req.subject) then p.mailer.subject else Trim(req.subject))
      && r.mailer.body == (if Php.Falsy(req.message) then p.mailer.body else env.msgHtml(req.message).0)
      && r.mailer.altBody == (if Php.Falsy(req.message) then p.mailer.altBody else env.msgHtml(req.message).1)
      && r.mailer.attachments == p.mailer.attachments + AttachmentsAdded(req.attachments)
      && r.settings.fromEmail == Some(email) && r.settings.fromName == Some(name)
      && r.mailer.from == Address(env.filterFrom(email), env.filterFromName(name))
      && r.settings.contentType == s.contentType && r.settings.charset == s.charset
      && r.mailer.contentType == env.filterContentType(s.contentType)
      && r.mailer.charset == env.filterCharset(s.charset)
  {
    var b := BeforeAttachments(env, p, req);
    BeforeAttachmentsEffect(env, p, req);
    AttachmentsNoThrow(env, b, req.attachments);
  }

  /** The try block up to the attachments, with no call throwing. */
  lemma BeforeAttachmentsEffect(env: Env, p: Progress, req: Request)
    requires NoThrow(env) && p.thrown.None?
    ensures var r := BeforeAttachments(env, p, req);
      var hs := HeaderEntries(env, req.headers);
      var s := HeaderSettings(env.parse, p.settings, hs);
      var email := SenderEmail(s.fromEmail, env.adminEmail, env.siteHost);
      var name := SenderName(s.fromName, env.siteName);
      && r.thrown.None?
      && r.mailer.to == p.mailer.to + Addressees(env, req.to)
      && r.mailer.cc == p.mailer.cc + Listed(env.parse, hs, "cc")
      && r.mailer.bcc == p.mailer.bcc + Listed(env.parse, hs, "bcc")
      && r.mailer.replyTo == p.mailer.replyTo + Listed(env.parse, hs, "reply-to")
      && r.mailer.customHeaders == p.mailer.customHeaders + Customs(hs)
      && r.mailer.subject == (if Php.Falsy(req.subject) then p.mailer.subject else Trim(req.subject))
      && r.mailer.body == (if Php.Falsy(req.message) then p.mailer.body else env.msgHtml(req.message).0)
      && r.mailer.altBody == (if Php.Falsy(req.message) then p.mailer.altBody else env.msgHtml(req.message).1)
      && r.mailer.attachments == p.mailer.attachments
      && r.settings.fromEmail == Some(email) && r.settings.fromName == Some(name)
      && r.mailer.from == Address(env.filterFrom(email), env.filterFromName(name))
      && r.settings.contentType == s.contentType && r.settings.charset == s.charset
  {
    var p1 := RecipientsPhase(env, p, req.to);
    RecipientsNoThrow(env, p, req.to);
    HeadersNoThrow(env, p1, req.headers);
    BodyAndSender(env, HeadersPhase(env, p1, req.headers), req.subject, req.message);
  }

  /**
   * Lines 63-72 with no call throwing: the subject and body are set and
   * the sender settled; the lists and the content settings are left alone.
   */
  lemma BodyAndSender(env: Env, p: Progress, subject: string, message: string)
    requires NoThrow(env) && p.thrown.None?
    ensures var r := SenderPhase(env, BodyPhase(env, p, subject, message));
      var email := SenderEmail(p.settings.fromEmail, env.adminEmail, env.siteHost);
      var name := SenderName(p.settings.fromName, env.siteName);
      && r.thrown.None?
      && r.mailer.to == p.mailer.to && r.mailer.cc == p.mailer.cc
      && r.mailer.bcc == p.mailer.bcc && r.mailer.replyTo == p.mailer.replyTo
      && r.mailer.customHeaders == p.mailer.customHeaders && r.mailer.attachments == p.mailer.attachments
      && r.mailer.subject == (if Php.Falsy(subject) then p.mailer.subject else Trim(subject))
      && r.mailer.body == (if Php.Falsy(message) then p.mailer.body else env.msgHtml(message).0)
      && r.mailer.altBody == (if Php.Falsy(message) then p.mailer.altBody else env.msgHtml(message).1)
      && r.settings.fromEmail == Some(email) && r.settings.fromName == Some(name)
      && r.mailer.from == Address(env.filterFrom(email), env.filterFromName(name))
      && r.settings.contentType == p.settings.contentType && r.settings.charset == p.settings.charset
  {
  }

  /**
   * With a mailer and no call throwing, mail() leaves the mailer holding
   * exactly this message: the recipients, the header lists and custom
   * headers, the trimmed subject, the body and alternative text, the
   * settled sender, the attachments and the filtered content type and
   * character set.
   */
  lemma DeliverNoThrow(env: Env, ret: bool, req: Request, st: State)
    requires NoThrow(env) && InitMailer(st.mailer, env).Some?
    ensures var d := Deliver(env, ret, req, st);
      var m0 := InitMailer(st.mailer, env).value;
      var hs := HeaderEntries(env, req.headers);
      var s := HeaderSettings(env.parse, st.settings, hs);
      var email := SenderEmail(s.fromEmail, env.adminEmail, env.siteHost);
      var name := SenderName(s.fromName, env.siteName);
      d.state.mailer.Some? &&
      var m := d.state.mailer.value;
      && m.to == Addressees(env, req.to)
      && m.cc == Listed(env.parse, hs, "cc")
      && m.bcc == Listed(env.parse, hs, "bcc")
      && m.replyTo == Listed(env.parse, hs, "reply-to")
      && m.customHeaders == Customs(hs)
      && m.subject == (if Php.Falsy(req.subject) then m0.subject else Trim(req.subject))
      && m.body == (if Php.Falsy(req.message) then m0.body else env.msgHtml(req.message).0)
      && m.altBody == (if Php.Falsy(req.message) then m0.altBody else env.msgHtml(req.message).1)
      && m.attachments == AttachmentsAdded(req.attachments)
      && d.state.settings.fromEmail == Some(email)
      && d.state.settings.fromName == Some(name)
      && m.from == Address(env.filterFrom(email), env.filterFromName(name))
      && d.state.settings.contentType == s.contentType && d.state.settings.charset == s.charset
      && m.contentType == env.filterContentType(s.contentType)
      && m.charset == env.filterCharset(s.charset)
  {
    var m0 := InitMailer(st.mailer, env).value;
    var p0 := Progress(st.settings, m0, None);
    var r := Prepared(env, p0, req);
    var hs := HeaderEntries(env, req.headers);
    PreparedNoThrow(env, p0, req);
    DeliverState(env, ret, req, st);
    FromCleared(m0, r.mailer, Addressees(env, req.to), Listed(env.parse, hs, "cc"), Listed(env.parse, hs, "bcc"),
      Listed(env.parse, hs, "reply-to"), Customs(hs), AttachmentsAdded(req.attachments));
  }

  /** On a cleared mailer, what the lists end up holding is exactly what was appended. */
  lemma FromCleared(m0: Mailer, m: Mailer, to: seq<Address>, cc: seq<Address>, bcc: seq<Address>,
                    replyTo: seq<Address>, custom: seq<(string, string)>, attachments: seq<Attachment>)
    requires Cleared(m0)
    requires m.to == m0.to + to && m.cc == m0.cc + cc && m.bcc == m0.bcc + bcc && m.replyTo == m0.replyTo + replyTo
    requires m.customHeaders == m0.customHeaders + custom && m.attachments == m0.attachments + attachments
    ensures m.to == to && m.cc == cc && m.bcc == bcc && m.replyTo == replyTo
    ensures m.customHeaders == custom && m.attachments == attachments
  {
    assert [] + to == to && [] + cc == cc && [] + bcc == bcc && [] + replyTo == replyTo;
    assert [] + custom == custom && [] + attachments == attachments;
  }

  /**
   * With a mailer and no call throwing, mail() returns what send() returns;
   * an exception of send() is reported with the attachments split into
   * lines, and mail() then returns true.
   */
  lemma DeliverNoThrowSends(env: Env, ret: bool, req: Request, st: State)
    requires NoThrow(env) && InitMailer(st.mailer, env).Some?
    ensures var d := Deliver(env, ret, req, st);
      d.state.mailer.Some? &&
      var m := d.state.mailer.value;
      && (env.send(m).Returned? ==> d.result == env.send(m).ok && d.failure.None?)
      && (env.send(m).Threw? ==> d.result && d.failure == Some(Failure(req, true, env.send(m).error)))
  {
    var p0 := Progress(st.settings, InitMailer(st.mailer, env).value, None);
    PreparedNoThrow(env, p0, req);
    BeforeAttachmentsEffect(env, p0, req);
    DeliverPrepared(env, ret, req, st);
  }

  /** With a mailer, mail() keeps the state the try block prepared. */
  lemma DeliverState(env: Env, ret: bool, req: Request, st: State)
    requires InitMailer(st.mailer, env).Some?
    ensures var p0 := Progress(st.settings, InitMailer(st.mailer, env).value, None);
      var p := Prepared(env, p0, req);
      Deliver(env, ret, req, st).state == State(p.settings, Some(p.mailer))
  {
  }

  /** With a mailer, mail() keeps what the try block prepared and reports how send() ended. */
  lemma DeliverPrepared(env: Env, ret: bool, req: Request, st: State)
    requires InitMailer(st.mailer, env).Some?
    ensures var p0 := Progress(st.settings, InitMailer(st.mailer, env).value, None);
      var p := Prepared(env, p0, req);
      var d := Deliver(env, ret, req, st);
      var split := BeforeAttachments(env, p0, req).thrown.None?;
      && d.state == State(p.settings, Some(p.mailer))
      && (p.thrown.None? && env.send(p.mailer).Returned? ==>
            d.result == env.send(p.mailer).ok && d.failure.None?)
      && (p.thrown.None? && env.send(p.mailer).Threw? ==>
            d.result && d.failure == Some(Failure(req, split, env.send(p.mailer).error)))
  {
  }

  /**
   * The first exception ends the try block: when the first recipient is
   * refused, nothing else is done, the object keeps its settings, the
   * exception is reported with the arguments as given, and mail() returns
   * true.
   */
  lemma DeliverFirstRecipientThrows(env: Env, ret: bool, req: Request, st: State, e: Thrown)
    requires InitMailer(st.mailer, env).Some? && !IsEmpty(req.to)
    requires |FormatEmail(env.parse, req.to)| > 0
    requires env.fails(AddAddress(To, FormatEmail(env.parse, req.to)[0])) == Some(e)
    ensures var d := Deliver(env, ret, req, st);
      && d.result
      && d.failure == Some(Failure(req, false, e))
      && d.state == State(st.settings, InitMailer(st.mailer, env))
  {
    var m0 := InitMailer(st.mailer, env).value;
    var p0 := Progress(st.settings, m0, None);
    var list := FormatEmail(env.parse, req.to);
    PerformAddresses(env.fails, p0, To, list);
    assert FirstThrow(env.fails, AddressCalls(To, list)) == 0;
    assert list[..0] == [];
    assert m0.WithRecipients(To, m0.to + []) == m0;
  }

  /**
   * The content type and character set are the object's, not the call's:
   * a call without a `content-type` header leaves them as earlier calls
   * set them, whatever throws.
   */
  lemma DeliverKeepsContentType(env: Env, ret: bool, req: Request, st: State)
    requires OrderedMap.Get(HeaderEntries(env, req.headers), "content-type").None?
    ensures var d := Deliver(env, ret, req, st);
      d.state.settings.contentType == st.settings.contentType && d.state.settings.charset == st.settings.charset
  {
    if InitMailer(st.mailer, env).Some? {
      var p0 := Progress(st.settings, InitMailer(st.mailer, env).value, None);
      var p1 := RecipientsPhase(env, p0, req.to);
      DeliverState(env, ret, req, st);
      PreparedSettings(env, p0, req);
      if !IsEmpty(req.headers) && p1.thrown.None? {
        DispatchKeepsContentType(env, p1, HeaderEntries(env, req.headers));
      }
    }
  }

  /**
   * Only the headers change the settings' content type and character set,
   * and the sender once settled: the recipients leave the settings alone,
   * and the body, sender, attachments and filters keep what the headers left.
   */
  lemma PreparedSettings(env: Env, p: Progress, req: Request)
    ensures var p1 := RecipientsPhase(env, p, req.to);
      var p2 := HeadersPhase(env, p1, req.headers);
      var r := Prepared(env, p, req);
      && p1.settings == p.settings
      && r.settings.contentType == p2.settings.contentType
      && r.settings.charset == p2.settings.charset
      && (!IsBlank(p2.settings.fromEmail) ==> r.settings.fromEmail == p2.settings.fromEmail)
  {
  }

  /**
   * The sender is the object's too: once set, a call without a `from`
   * header keeps it, whatever throws.
   */
  lemma DeliverKeepsSender(env: Env, ret: bool, req: Request, st: State)
    requires !IsBlank(st.settings.fromEmail)
    requires OrderedMap.Get(HeaderEntries(env, req.headers), "from").None?
    ensures Deliver(env, ret, req, st).state.settings.fromEmail == st.settings.fromEmail
  {
    if InitMailer(st.mailer, env).Some? {
      var p0 := Progress(st.settings, InitMailer(st.mailer, env).value, None);
      var p1 := RecipientsPhase(env, p0, req.to);
      DeliverState(env, ret, req, st);
      PreparedSettings(env, p0, req);
      if !IsEmpty(req.headers) && p1.thrown.None? {
        DispatchKeepsFrom(env, p1, HeaderEntries(env, req.headers));
      }
    }
  }

  /**
   * So a sender settled by one call carries over to the next: after a call
   * in which nothing throws, a later call without a `from` header sends
   * from the same address.
   */
  lemma SenderCarriesOver(env: Env, ret: bool, req: Request, st: State,
                          env': Env, ret': bool, req': Request)
    requires NoThrow(env) && InitMailer(st.mailer, env).Some?
    requires OrderedMap.Get(HeaderEntries(env', req'.headers), "from").None?
    ensures var d := Deliver(env, ret, req, st);
      && !IsBlank(d.state.settings.fromEmail)
      && Deliver(env', ret', req', d.state).state.settings.fromEmail == d.state.settings.fromEmail
  {
    DeliverNoThrow(env, ret, req, st);
    DeliverKeepsSender(env', ret', req', Deliver(env, ret, req, st).state);
  }
}
