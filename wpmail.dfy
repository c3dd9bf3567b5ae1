/**
 * The class WPMail of src/WPMail.php: an object holding a PHPMailer and
 * the sender, content type and character set it has settled on, all of
 * which it updates in place. Each method is proved to do what the
 * functions of WPMailFlow say; what those functions promise is proved
 * there.
 */
module WPMail {
  import opened Wrappers
  import Php
  import opened Mailer
  import opened WPMailText
  import opened WPMailFlow

  class WPMail {
    var phpmailer: Option<Mailer>
    var fromEmail: Option<string>
    var fromName: Option<string>
    var contentType: string
    var charset: string

    /** The object's own properties besides its mailer. */
    function CurrentSettings(): Settings
      reads this
    {
      Settings(fromEmail, fromName, contentType, charset)
    }

    /** The whole object. */
    function CurrentState(): State
      reads this
    {
      State(CurrentSettings(), phpmailer)
    }

    /** The object seen as a run of mailer calls that has thrown `thrown`, if anything. */
    function Run(thrown: Option<Thrown>): Progress
      reads this
      requires phpmailer.Some?
    {
      Progress(CurrentSettings(), phpmailer.value, thrown)
    }

    /** A new object: no mailer yet, no sender, plain text in UTF-8. */
    constructor ()
      ensures CurrentState() == State(InitialSettings, None)
    {
      phpmailer := None;
      fromEmail := None;
      fromName := None;
      contentType := ContentTypePlain;
      charset := CharsetUtf8;
    }

    /**
     * init(): a mailer from the DSN (the old one stays when that throws) or
     * a new one, then configured from the constants and cleared.
     */
    method Init(env: Env)
      modifies this
      ensures CurrentState() == State(old(CurrentSettings()), InitMailer(old(phpmailer), env))
    {
      var c := env.consts;
      if c.smtpUrl.Some? {
        var built := env.dsnMailer(c.smtpUrl.value);
        if built.Some? {
          phpmailer := built;
        }
      } else {
        phpmailer := Some(env.newMailer);
      }
      if phpmailer.Some? {
        var configured := ConfigureMailer(phpmailer.value, c);
        phpmailer := Some(configured);
      }
    }

    /**
     * The settings init() gives the mailer: SMTP, the constants that are
     * defined, authentication when a user name or password is given,
     * debugging when both switches are on, and the lists and bodies cleared.
     */
    static method ConfigureMailer(m: Mailer, c: Constants) returns (configured: Mailer)
      ensures configured == Configure(m, c)
    {
      var host, port, secure := m.host, m.port, m.secure;
      if c.host.Some? {
        host := c.host.value;
      }
      if c.port.Some? {
        port := c.port.value;
      }
      if c.secure.Some? {
        secure := c.secure.value;
      }
      var username, password, smtpAuth := m.username, m.password, m.smtpAuth;
      var addSmtpAuth := false;
      if c.username.Some? {
        username := c.username.value;
        addSmtpAuth := true;
      }
      if c.password.Some? {
        password := c.password.value;
        addSmtpAuth := true;
      }
      if addSmtpAuth {
        smtpAuth := true;
      }
      var debugOutput, debugLevel := m.debugOutput, m.debugLevel;
      if c.wpDebug && c.smtpDebug {
        debugOutput, debugLevel := "error_log", c.debugLevel.GetOr(1);
      }
      configured := m.(smtp := true, host := host, port := port, secure := secure,
                       username := username, password := password, smtpAuth := smtpAuth,
                       debugOutput := debugOutput, debugLevel := debugLevel,
                       to := [], cc := [], bcc := [], replyTo := [],
                       customHeaders := [], attachments := [], body := "", altBody := "");
      ConfigureFields(m, c, configured);
    }

    /** One mailer call: it throws, or it takes effect. */
    method Invoke(env: Env, call: Call) returns (thrown: Option<Thrown>)
      requires phpmailer.Some?
      modifies this
      ensures phpmailer.Some?
      ensures Run(thrown) == Perform(env.fails, old(Run(None)), call)
    {
      thrown := env.fails(call);
      if thrown.None? {
        phpmailer := Some(phpmailer.value.Apply(call));
      }
    }

    /** addAddress() (or addCC(), addBCC(), addReplyTo()) for each address, until one throws. */
    method AddAddresses(env: Env, kind: Kind, list: seq<Address>) returns (thrown: Option<Thrown>)
      requires phpmailer.Some?
      modifies this
      ensures phpmailer.Some?
      ensures Run(thrown) == PerformAll(env.fails, old(Run(None)), AddressCalls(kind, list))
    {
      ghost var calls := AddressCalls(kind, list);
      thrown := None;
      var i := 0;
      while i < |list| && thrown.None?
        invariant 0 <= i <= |list|
        invariant phpmailer.Some?
        invariant thrown.Some? ==> PerformAll(env.fails, Run(thrown), calls[i..]) == Run(thrown)
        invariant PerformAll(env.fails, old(Run(None)), calls) == PerformAll(env.fails, Run(thrown), calls[i..])
      {
        var call := AddAddress(kind, list[i]);
        assert calls[i..][0] == call && calls[i..][1..] == calls[i + 1..];
        thrown := Invoke(env, call);
        i := i + 1;
      }
    }

    /** addMailHeaders(): each parsed header in turn, until a mailer call throws. */
    method AddMailHeaders(env: Env, headers: TextOrList) returns (thrown: Option<Thrown>)
      requires phpmailer.Some?
      modifies this
      ensures phpmailer.Some?
      ensures Run(thrown) == Dispatch(env, old(Run(None)), ParseHeaders(env.headerC, headers))
    {
      var hs := ParseHeaders(env.headerC, headers);
      thrown := None;
      var i := 0;
      while i < |hs| && thrown.None?
        invariant 0 <= i <= |hs|
        invariant phpmailer.Some?
        invariant thrown.Some? ==> Dispatch(env, Run(thrown), hs[i..]) == Run(thrown)
        invariant Dispatch(env, old(Run(None)), hs) == Dispatch(env, Run(thrown), hs[i..])
      {
        assert hs[i..][0] == hs[i] && hs[i..][1..] == hs[i + 1..];
        DispatchStep(env, Run(None), hs[i..]);
        thrown := HandleHeader(env, hs[i]);
        i := i + 1;
      }
    }

    /** The switch of addMailHeaders() for one parsed header. */
    method HandleHeader(env: Env, h: (string, string)) returns (thrown: Option<Thrown>)
      requires phpmailer.Some?
      modifies this
      ensures phpmailer.Some?
      ensures Run(thrown) == HeaderStep(env, old(Run(None)), h)
    {
      var (header, content) := h;
      thrown := None;
      if header == "content-type" {
        var r := ContentTypeHeader(content, contentType, charset);
        contentType, charset := r.0, r.1;
      } else if header == "from" {
        var from := FormatEmail(env.parse, Text(content));
        if |from| > 0 {
          fromEmail, fromName := Some(from[0].address), Some(from[0].name);
        }
      } else if header == "cc" {
        assert HeaderKind(header) == Some(Cc);
        thrown := AddAddresses(env, Cc, FormatEmail(env.parse, Text(content)));
      } else if header == "bcc" {
        assert HeaderKind(header) == Some(Bcc);
        thrown := AddAddresses(env, Bcc, FormatEmail(env.parse, Text(content)));
      } else if header == "reply-to" {
        assert HeaderKind(header) == Some(ReplyTo);
        thrown := AddAddresses(env, ReplyTo, FormatEmail(env.parse, Text(content)));
      } else {
        assert HeaderKind(header) == None;
        thrown := Invoke(env, AddCustomHeader(header, content));
      }
    }

    /** setSender(): settles the sender, then calls setFrom() with the filtered values. */
    method SetSender(env: Env) returns (thrown: Option<Thrown>)
      requires phpmailer.Some?
      modifies this
      ensures phpmailer.Some?
      ensures Run(thrown) == SetSenderStep(env, old(Run(None)))
    {
      if IsBlank(fromEmail) {
        if !Php.Falsy(env.adminEmail) {
          fromEmail := Some(env.adminEmail);
        } else {
          fromEmail := Some("website@" + SiteDomain(env.siteHost));
        }
      }
      if IsBlank(fromName) {
        fromName := Some(env.siteName);
      }
      thrown := Invoke(env, SetFrom(Address(env.filterFrom(fromEmail.value), env.filterFromName(fromName.value))));
    }

    /** Lines 74-84: addAttachment() for each entry of the attachments, until one throws. */
    method AddAttachments(env: Env, attachments: Attachments) returns (thrown: Option<Thrown>)
      requires phpmailer.Some?
      modifies this
      ensures phpmailer.Some?
      ensures Run(thrown) == PerformAll(env.fails, old(Run(None)), AttachmentCalls(AttachmentList(attachments)))
    {
      var entries := AttachmentArray(attachments);
      ghost var calls := AttachmentCalls(AttachmentList(attachments));
      thrown := None;
      var i := 0;
      while i < |entries| && thrown.None?
        invariant 0 <= i <= |entries|
        invariant phpmailer.Some?
        invariant thrown.Some? ==> PerformAll(env.fails, Run(thrown), calls[i..]) == Run(thrown)
        invariant PerformAll(env.fails, old(Run(None)), calls) == PerformAll(env.fails, Run(thrown), calls[i..])
      {
        var (key, attachment) := entries[i];
        var filename := KeyName(key);
        var call := AddAttachment(Attachment(attachment, filename));
        assert calls[i..][0] == call && calls[i..][1..] == calls[i + 1..];
        thrown := Invoke(env, call);
        i := i + 1;
      }
    }

    /** Lines 63-70: the trimmed subject and the message, when they are not empty. */
    method SetContent(env: Env, subject: string, message: string)
      requires phpmailer.Some?
      modifies this
      ensures phpmailer.Some?
      ensures Run(None) == BodyPhase(env, old(Run(None)), subject, message)
    {
      if !Php.Falsy(subject) {
        phpmailer := Some(phpmailer.value.(subject := Trim(subject)));
      }
      if !Php.Falsy(message) {
        var html := env.msgHtml(message);
        phpmailer := Some(phpmailer.value.(body := html.0, altBody := html.1));
      }
    }

    /** Lines 49-72: the recipients, the headers, the subject and message, the sender. */
    method Compose(env: Env, req: Request) returns (thrown: Option<Thrown>)
      requires phpmailer.Some?
      modifies this
      ensures phpmailer.Some?
      ensures Run(thrown) == BeforeAttachments(env, old(Run(None)), req)
    {
      ghost var p0 := Run(None);
      thrown := None;
      if !IsEmpty(req.to) {
        thrown := AddAddresses(env, To, FormatEmail(env.parse, req.to));
      }
      assert Run(thrown) == RecipientsPhase(env, p0, req.to);
      ghost var p1 := Run(thrown);
      if thrown.None? && !IsEmpty(req.headers) {
        thrown := AddMailHeaders(env, req.headers);
      }
      assert Run(thrown) == HeadersPhase(env, p1, req.headers);
      if thrown.None? {
        SetContent(env, req.subject, req.message);
        thrown := SetSender(env);
      }
    }

    /**
     * mail($return, $atts): init(), then, when there is a mailer, the
     * message is assembled and sent; the first exception ends that and is
     * reported, and mail() then returns true.
     */
    method Mail(env: Env, ret: bool, req: Request) returns (result: bool, failure: Option<MailFailure>)
      modifies this
      ensures Delivery(result, failure, CurrentState()) == Deliver(env, ret, req, old(CurrentState()))
    {
      Init(env);
      if phpmailer.None? {
        return ret, None;
      }
      ghost var p0 := Run(None);
      var thrown := Compose(env, req);
      ghost var p4 := Run(thrown);
      var split := thrown.None?;
      if thrown.None? && !AttachmentsEmpty(req.attachments) {
        thrown := AddAttachments(env, req.attachments);
      }
      assert Run(thrown) == AttachmentsPhase(env, p4, req.attachments);
      if thrown.None? {
        phpmailer := Some(phpmailer.value.(contentType := env.filterContentType(contentType),
                                           charset := env.filterCharset(charset)));
      }
      assert Run(thrown) == Prepared(env, p0, req);
      var outcome := if thrown.Some? then Threw(thrown.value) else env.send(phpmailer.value);
      match outcome
      case Returned(ok) =>
        result, failure := ok, None;
      case Threw(e) =>
        result, failure := true, Some(Failure(req, split, e));
    }
  }
}
