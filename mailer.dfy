/**
 * The part of a PHPMailer object that WPMail reads and writes, as a value:
 * transport settings, the four address lists, custom headers, attachments,
 * subject, bodies, sender, content type and character set. PHPMailer's own
 * behaviour (address validation, MIME assembly, the SMTP session) is not
 * part of this model; its add* methods are modelled as plain appends.
 */
module Mailer {

  /** One parsed mailbox: PHPMailer::parseAddresses yields `address` and `name`. */
  datatype Address = Address(address: string, name: string)

  /** The list an address is added to: addAddress, addCC, addBCC, addReplyTo. */
  datatype Kind = To | Cc | Bcc | ReplyTo

  /** An attachment as addAttachment($path, $name) records it. */
  datatype Attachment = Attachment(path: string, name: string)

  /** An exception as getCode() and getMessage() report it. */
  datatype Thrown = Thrown(code: int, message: string)

  /**
   * A PHPMailer call of WPMail's that may throw (the mailer is built with
   * exceptions on): addAddress and its siblings, addCustomHeader, setFrom,
   * addAttachment.
   */
  datatype Call =
    | AddAddress(kind: Kind, address: Address)
    | AddCustomHeader(name: string, value: string)
    | SetFrom(sender: Address)
    | AddAttachment(attachment: Attachment)

  datatype Mailer = Mailer(
    smtp: bool,                     // isSMTP() was called
    host: string,
    port: int,
    secure: string,                 // SMTPSecure
    username: string,
    password: string,
    smtpAuth: bool,
    debugOutput: string,
    debugLevel: int,                // SMTPDebug
    to: seq<Address>,
    cc: seq<Address>,
    bcc: seq<Address>,
    replyTo: seq<Address>,
    customHeaders: seq<(string, string)>,
    attachments: seq<Attachment>,
    subject: string,
    body: string,
    altBody: string,
    from: Address,
    contentType: string,
    charset: string)
  {
    /** The address list of one kind. */
    function Recipients(kind: Kind): seq<Address> {
      match kind
      case To => to
      case Cc => cc
      case Bcc => bcc
      case ReplyTo => replyTo
    }

    /** addAddress / addCC / addBCC / addReplyTo: appends to that list only. */
    function Add(kind: Kind, a: Address): (m: Mailer)
      ensures m.Recipients(kind) == Recipients(kind) + [a]
      ensures forall k :: k != kind ==> m.Recipients(k) == Recipients(k)
    {
      match kind
      case To => this.(to := to + [a])
      case Cc => this.(cc := cc + [a])
      case Bcc => this.(bcc := bcc + [a])
      case ReplyTo => this.(replyTo := replyTo + [a])
    }

    /** The same mailer with a different list of one kind. */
    function WithRecipients(kind: Kind, list: seq<Address>): (m: Mailer)
      ensures m.Recipients(kind) == list
      ensures forall k :: k != kind ==> m.Recipients(k) == Recipients(k)
    {
      match kind
      case To => this.(to := list)
      case Cc => this.(cc := list)
      case Bcc => this.(bcc := list)
      case ReplyTo => this.(replyTo := list)
    }

    /** What a call that does not throw records. */
    function Apply(c: Call): Mailer {
      match c
      case AddAddress(kind, a) => Add(kind, a)
      case AddCustomHeader(name, value) => this.(customHeaders := customHeaders + [(name, value)])
      case SetFrom(a) => this.(from := a)
      case AddAttachment(a) => this.(attachments := attachments + [a])
    }
  }

  /** Replacing a list after adding to it is only replacing it. */
  lemma ReplaceAfterAdd(m: Mailer, kind: Kind, a: Address, list: seq<Address>)
    ensures m.Add(kind, a).WithRecipients(kind, list) == m.WithRecipients(kind, list)
  {
  }
}
