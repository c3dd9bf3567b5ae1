# WPMail in Dafny

A model of `src/WPMail.php`, the class `WPMail` of the wp-mail WordPress
plugin. It replaces `wp_mail()` through the `pre_wp_mail` filter: it turns
WordPress's loosely typed arguments (`to`, `subject`, `message`, `headers`,
`attachments`) into a configured PHPMailer and sends the message.

The model is in seven files:

- `wrappers.dfy`: `Option`.
- `php.dfy` (module `Php`): the PHP built-ins the class relies on, written
  out with PHP's semantics:
  - `empty()` on strings, where `""` and `"0"` are empty;
  - `trim`/`ltrim`/`rtrim` with a character set;
  - the ASCII-only `strtolower` and `stripos`;
  - `strpos`, `explode`, `implode` and `str_replace`;
  - the `/\s{2,}/` collapse.
- `ordered_map.dfy` (module `OrderedMap`): a PHP array with string keys.
  Assigning to an existing key replaces its value in place; a new key goes
  at the end.
- `mailer.dfy` (module `Mailer`): the part of a PHPMailer object that
  WPMail reads and writes, as a value. It also defines the PHPMailer calls
  that may throw.
- `wpmail_text.dfy` (module `WPMailText`): the pure parts of the class:
  - the private statics `trim()` and `formatEmail()`;
  - `parseHeaders()`;
  - the reading of a `content-type` header;
  - the fallback sender address;
  - the splitting of the attachments argument.
- `wpmail_flow.dfy` (module `WPMailFlow`): one call of `mail()` as a
  function of its environment and of the object's state before the call.
  - The environment (`Env`) holds the WordPress constants, filters and
    options, and PHPMailer's own behaviour.
  - `fails` says which PHPMailer call throws, so every exception path of
    the `try` block is modelled.
- `wpmail.dfy` (module `WPMail`): the class itself.
  - Its fields are `phpmailer`, `fromEmail`, `fromName`, `contentType`
    and `charset`, updated in place.
  - `Init`, `AddMailHeaders`, `SetSender` and `Mail` are methods.
  - The `foreach` loops are `while` loops whose invariants tie them to the
    functions of `WPMailFlow`.

Behaviour of the code worth knowing:

- **Default character set.** It is PHPMailer's `CHARSET_UTF8`, the
  lower-case `utf-8` (`CharsetUtf8`), not `UTF-8`.
- **Comma splitting.** A string of addresses is exploded at every comma,
  even one inside a quoted display name. No fragment gets a `>` re-attached
  (`FormatEmailQuotedName`, `FormatEmailSplitsAtComma`).
- **Case of `charset=`.** It is looked for ignoring case, but removed only
  in lower case. So `Charset=latin1` sets the character set to
  `Charset=latin1` (`ContentTypeCapitalCharset`).
- **Content-type segments.** Only the segment between the first and the
  second `;` is read; later segments are ignored
  (`ContentTypeIgnoresLaterSegments`).
- **Header separator.** `parseHeaders()` explodes the block at CRLF
  only. Which lines a block joined some other way gives depends on
  PHPMailer's `DKIM_HeaderC`, a parameter here.
- **Settings that persist.** The object's sender, content type and
  character set are not reset by `init()`. They carry over from one call
  of `mail()` to the next (`DeliverKeepsContentType`, `SenderCarriesOver`).
- **Return value.** `mail()` returns `true` after any caught exception. It
  returns the incoming `$return` when there is no mailer.

## Model

| member | source | states |
|---|---|---|
| WPMailText.Trim | src/WPMail.php:309-313 | the result has no two adjacent whitespace characters and no trimmable character at either end; it is no longer than the input, and every character is a space or comes from the input |
| WPMailText.TrimFixpoint | src/WPMail.php:309-313 | a string is left unchanged exactly when it is already tidy |
| WPMailText.TrimIdempotent | src/WPMail.php:309-313 | trimming twice gives the same as trimming once |
| WPMailText.TrimKeepsGlyphs | src/WPMail.php:309-313 | every character that is neither whitespace nor stripped by trim() survives, in order: only whitespace is dropped or merged |
| WPMailText.TrimKeepsLoneSpace | src/WPMail.php:310 | a single whitespace character between two clean words is kept as it is |
| WPMailText.TrimLeadingSpace | src/WPMail.php:309-313 | a single leading space before a clean string is removed |
| WPMailText.NonEmpty | src/WPMail.php:293 | array_filter keeps exactly the lines that are not empty(), so "" and "0" are dropped |
| WPMailText.NonEmptySingle | src/WPMail.php:293 | a single line is kept exactly when it is not empty() |
| WPMailText.NonEmptyAppend | src/WPMail.php:293 | filtering a concatenation is filtering each part, so the surviving lines keep their order and their repeats |
| WPMailText.NonEmptyKeepsAll | src/WPMail.php:293 | a list of non-empty lines passes through unchanged |
| WPMailText.HeaderLineShape | src/WPMail.php:297-303 | every line yields a trimmed, lower-case name with no colon and a trimmed value; a line without a colon has an empty value |
| WPMailText.SplitFormatted | src/WPMail.php:298-303 | `name:value` splits at the first colon only, so a value keeps any later colons |
| WPMailText.SplitSpaced | src/WPMail.php:298-303 | `name: value`, with a space after the colon, splits to the same name and value |
| WPMailText.FormattedRelaxed | src/WPMail.php:286 | a header written as `name:value` from a writable name and value is already in relaxed canonical form (section 3.4.2 of RFC 6376), so canonicalisation leaves it alone |
| WPMailText.ParseHeaders | src/WPMail.php:284-307 | the parsed headers never hold a name twice |
| WPMailText.ParseHeadersShape | src/WPMail.php:284-307 | every parsed header is well shaped: lower-case trimmed name, trimmed value |
| WPMailText.ParseHeadersLastWins | src/WPMail.php:297-304 | a repeated header name takes the value of its last line |
| WPMailText.ParseHeadersOrder | src/WPMail.php:297-304 | each name stands at the position of its first occurrence |
| WPMailText.ParseFormattedHeaders | src/WPMail.php:284-307 | an array of `name:value` lines with distinct names, joined with CRLF, is parsed back to the same headers in the same order, for any `DKIM_HeaderC` that leaves relaxed-canonical lines unchanged, as relaxed canonicalisation does |
| WPMailText.MergeParsedMembers | src/WPMail.php:327-335 | an address is in the merge exactly when some piece parses to it |
| WPMailText.MergeParsedAppend | src/WPMail.php:327-335 | merging the pieces of two lists is merging each list and concatenating |
| WPMailText.FormatEmailEmpty | src/WPMail.php:320-336 | the result is empty exactly when no piece parses to an address |
| WPMailText.FormatEmailSingle | src/WPMail.php:323-335 | a string without a comma is parsed whole |
| WPMailText.FormatEmailSplitsAtComma | src/WPMail.php:323-325 | every comma splits the string into pieces parsed independently, in order |
| WPMailText.FormatEmailTwoPieces | src/WPMail.php:323-335 | two comma-free pieces joined by a comma give the first piece's addresses, then the second's |
| WPMailText.FormatEmailQuotedName | src/WPMail.php:324 | a quoted display name holding a comma is split in two before parsing |
| WPMailText.SegmentCharset | src/WPMail.php:188-192 | the character set is kept, or it becomes a tidy value without double quotes |
| WPMailText.ContentTypeHeader | src/WPMail.php:183-196 | the content type is kept or becomes a tidy value; the character set is kept or becomes a tidy value without double quotes |
| WPMailText.ContentTypeWithoutParameters | src/WPMail.php:194-196 | a value without `;` becomes the content type; the character set is kept |
| WPMailText.ContentTypeBlank | src/WPMail.php:194 | a blank value changes neither the content type nor the character set |
| WPMailText.ContentTypeWithCharset | src/WPMail.php:184-189 | `type; charset=cs` sets the content type to `type` and the character set to `cs` |
| WPMailText.CapitalCharsetSegment | src/WPMail.php:188-189 | a ` Charset=cs` segment is recognised, but the capitalised name is not removed, so the character set is `Charset=cs` |
| WPMailText.ContentTypeCapitalCharset | src/WPMail.php:184-189 | `type; Charset=cs` sets the content type to `type` and the character set to `Charset=cs` |
| WPMailText.ContentTypeWithBoundary | src/WPMail.php:184-191 | a `boundary=` parameter with no `charset=` sets the character set to utf-8 |
| WPMailText.ContentTypeOtherParameter | src/WPMail.php:184-192 | any other parameter sets the content type and keeps the character set |
| WPMailText.ContentTypeIgnoresLaterSegments | src/WPMail.php:185 | text after a second `;` does not affect the result |
| WPMailText.SiteDomain | src/WPMail.php:265 | the domain is lower-case and starts with neither `w` nor `.` |
| WPMailText.SiteDomainSkips | src/WPMail.php:265 | a leading `w`, `W` or `.` makes no difference |
| WPMailText.SiteDomainPlain | src/WPMail.php:265 | a host not starting with `w`, `W` or `.` is only lower-cased |
| WPMailText.SiteDomainOfLower | src/WPMail.php:265 | a lower-case host not starting with `w` or `.` is kept as it is |
| WPMailText.SiteDomainWww | src/WPMail.php:262-265 | a leading `www.` is dropped |
| WPMailText.SiteDomainOfWww | src/WPMail.php:262-265 | `www.` followed by a lower-case host not starting with `w` or `.` gives that host, e.g. `www.example.org` gives `example.org` |
| WPMailText.SiteDomainW | src/WPMail.php:265 | a single leading `w` is dropped |
| WPMailText.SiteDomainDropsLoneW | src/WPMail.php:265 | ltrim takes a character set, not a prefix: `w` + host loses its `w` even without `ww.` |
| WPMailText.SenderEmail | src/WPMail.php:256-268 | the sender address is never empty(); an address already set is kept; otherwise it is the admin e-mail when that is not empty(), else `website@` followed by the site domain |
| WPMailText.SenderEmailSettles | src/WPMail.php:256 | once settled, the address no longer depends on the admin e-mail or the host |
| WPMailText.SenderName | src/WPMail.php:271-273 | a name already set is kept; an empty() one becomes the site name |
| WPMailText.AttachmentPaths | src/WPMail.php:75-82 | a string of paths gives at least one attachment; no path holds a line feed, every name is `''`, and joining the paths with LF gives the string with CRLF made LF |
| OrderedMap.PutGet | src/WPMail.php:303 | an assignment is read back, and every other key keeps its value |
| OrderedMap.PutKeys | src/WPMail.php:303 | an assignment keeps the key order and appends only a new key |
| OrderedMap.FromPairs | src/WPMail.php:295-304 | the array built by the loop has distinct keys, and every entry comes from an input pair |
| OrderedMap.FromPairsLastWins | src/WPMail.php:297-304 | a repeated key holds the value of its last assignment |
| OrderedMap.FromPairsFirstPosition | src/WPMail.php:297-304 | keys stand in the order of their first assignment |
| OrderedMap.FromPairsDistinct | src/WPMail.php:295-304 | pairs with distinct keys come out as they went in |
| Php.CollapseFixpoint | src/WPMail.php:310 | the whitespace collapse changes exactly the strings that contain two adjacent whitespace characters |
| Php.ImplodeExplode | src/WPMail.php:76 | implode undoes explode |
| Php.ExplodeImplode | src/WPMail.php:286-291 | explode undoes implode when no piece holds the separator's first character (for CRLF: no piece holds a CR) |
| Php.StrReplaceIsImplodeExplode | src/WPMail.php:76 | str_replace equals exploding at the search string and imploding with the replacement |
| Php.ExplodePiecesLackSeparator | src/WPMail.php:76 | no piece of an explode holds the separator |
| Php.RemoveCharLeavesNone | src/WPMail.php:189 | removing a character with str_replace leaves no copy of it |
| WPMailFlow.Configure | src/WPMail.php:131-175 | SMTP is on. Host, port, security, user name and password change only when their constant is defined. Authentication is turned on when a user name or a password is given. Debug output goes to error_log, at the given level or 1, only when both debug switches are on. The lists and bodies are emptied. Everything else is kept |
| WPMailFlow.ConfigureIdempotent | src/WPMail.php:131-175 | configuring twice is configuring once |
| WPMailFlow.InitMailer | src/WPMail.php:113-131 | there is no mailer only when there was none before and the DSN mailer could not be built; otherwise the result is the configured new mailer (no `WP_MAIL_SMTP_URL`), the configured DSN mailer, or, when the DSN throws, the configured old mailer; it is emptied and uses SMTP |
| WPMailFlow.FirstThrow | src/WPMail.php:48-91 | the position of the first call that throws: every earlier call succeeds |
| WPMailFlow.PerformAllStopsAtFirstThrow | src/WPMail.php:48-91 | a run of calls makes every call before the first one that throws and stops with that exception |
| WPMailFlow.ApplyAddressCalls | src/WPMail.php:53-55 | adding addresses appends them in order to their own list and to no other |
| WPMailFlow.ApplyAttachmentCalls | src/WPMail.php:79-83 | adding attachments appends them in order to the attachment list |
| WPMailFlow.PerformAddresses | src/WPMail.php:53-55 | addresses are added up to the first call that throws, and only to their list |
| WPMailFlow.PerformAttachments | src/WPMail.php:79-83 | attachments are added up to the first call that throws |
| WPMailFlow.HeaderStepFrame | src/WPMail.php:182-251 | a header changes only what its own case handles: To is never touched, and each other list, setting and the custom headers are kept unless the header is theirs |
| WPMailFlow.DispatchKeepsTo | src/WPMail.php:181-252 | no header adds a To recipient |
| WPMailFlow.DispatchKeepsContentType | src/WPMail.php:181-252 | without a `content-type` header, the content type and character set are kept |
| WPMailFlow.DispatchKeepsFrom | src/WPMail.php:200-210 | without a `from` header, the sender address and name are kept |
| WPMailFlow.HeaderMailerSingle | src/WPMail.php:212-250 | `cc`, `bcc` and `reply-to` append every parsed address to their own list; an unknown header is appended as a custom header with its name and value; `content-type` and `from` leave the mailer alone |
| WPMailFlow.HeaderStepNoThrow | src/WPMail.php:182-251 | with no call throwing, one header has the effect of the reference mailer |
| WPMailFlow.DispatchEffect | src/WPMail.php:178-253 | with no call throwing, addMailHeaders sets the content type and sender from their headers, appends the three address lists, and passes every other header on as a custom header, in order |
| WPMailFlow.SetSenderStep | src/WPMail.php:255-279 | the sender address and name end up set and non-empty. A set address or name is kept; an empty address takes the admin e-mail when that is non-empty, else `website@` and the site domain; an empty name takes the site name. setFrom gets the filtered values, and throws or takes effect |
| WPMailFlow.HeaderEntries | src/WPMail.php:59-61 | the headers a call dispatches have distinct names |
| WPMailFlow.Deliver | src/WPMail.php:28-111 | a reported failure always comes with the result true; an exception anywhere in the `try` block before send() makes mail() return true and report the arguments and the exception; without a mailer, the incoming `$return` comes back and the object is unchanged; otherwise the object keeps a mailer |
| WPMailFlow.RecipientsNoThrow | src/WPMail.php:49-57 | with no call throwing, the `to` addresses are appended to the To list |
| WPMailFlow.HeadersNoThrow | src/WPMail.php:59-61 | with no call throwing, the headers take effect as the reference settings and mailer say |
| WPMailFlow.AttachmentsNoThrow | src/WPMail.php:74-84 | with no call throwing, the attachments are appended in order |
| WPMailFlow.PreparedNoThrow | src/WPMail.php:48-88 | with no call throwing, the try block leaves the mailer with the recipients, the header lists and custom headers, the trimmed subject, the body and alternative text of msgHTML(), the settled and filtered sender, the attachments, and the filtered content type and character set |
| WPMailFlow.DeliverNoThrow | src/WPMail.php:28-95 | with a mailer and no call throwing, mail() leaves exactly this message in the mailer: the recipients, header lists, custom headers, trimmed subject, body and alternative text, settled sender, attachments and filtered content type and character set |
| WPMailFlow.DeliverNoThrowSends | src/WPMail.php:93-111 | with a mailer and no call throwing, mail() returns what send() returns; an exception of send() makes it return true and report the arguments with the attachments split into lines |
| WPMailFlow.DeliverFirstRecipientThrows | src/WPMail.php:48-110 | when the first recipient is refused, nothing else happens: the object keeps its settings and the cleared mailer, the exception is reported with the arguments as given, and the result is true |
| WPMailFlow.DeliverKeepsContentType | src/WPMail.php:17-19 | without a `content-type` header, the object's content type and character set are what earlier calls left, whatever throws |
| WPMailFlow.DeliverKeepsSender | src/WPMail.php:256 | without a `from` header, a sender address already set is kept, whatever throws |
| WPMailFlow.SenderCarriesOver | src/WPMail.php:15-16 | after a call in which nothing throws, a later call without a `from` header keeps the same sender address |
| WPMail.WPMail.constructor | src/WPMail.php:13-19 | a new object has no mailer and no sender, with content type text/plain and character set utf-8 |
| WPMail.WPMail.Init | src/WPMail.php:113-176 | the object gets the mailer InitMailer describes, and its settings are untouched |
| WPMail.WPMail.ConfigureMailer | src/WPMail.php:131-175 | the step-by-step property assignments of init() produce exactly the mailer Configure describes |
| WPMail.WPMail.Invoke | src/WPMail.php:248 | one PHPMailer call either throws, with nothing changed, or takes effect |
| WPMail.WPMail.AddAddresses | src/WPMail.php:53-55 | the loop performs the address calls in order until one throws |
| WPMail.WPMail.AddMailHeaders | src/WPMail.php:178-253 | the loop over the parsed headers does what Dispatch describes |
| WPMail.WPMail.HandleHeader | src/WPMail.php:182-251 | one header changes the object as HeaderStep describes: the content type and character set, the sender, one address list, or the custom headers |
| WPMail.WPMail.SetSender | src/WPMail.php:255-279 | the object's sender and mailer change as SetSenderStep describes |
| WPMail.WPMail.AddAttachments | src/WPMail.php:74-84 | the loop performs addAttachment for each entry, named by its string key or `''`, until one throws |
| WPMail.WPMail.SetContent | src/WPMail.php:63-70 | a non-empty subject is trimmed into the mailer, and a non-empty message becomes its body and alternative text |
| WPMail.WPMail.Compose | src/WPMail.php:49-72 | recipients, headers, subject, message and sender are handled in order; the first exception skips the rest |
| WPMail.WPMail.Mail | src/WPMail.php:28-111 | the result, the reported failure and the new object are those Deliver gives for the object's old state |

## Left out

- PHPMailer's behaviour is taken as parameters of the environment. This
  covers `parseAddresses`, `DKIM_HeaderC`, `msgHTML`, `send()`,
  `DSNConfigurator::mailer()`, and which calls throw. The model does not
  include address validation and de-duplication, MIME assembly,
  attachment file I/O, image embedding, or the SMTP session.
- `msgHTML` also switches PHPMailer to HTML. That switch is not modelled,
  because line 86 sets `ContentType` afterwards in every path that reaches
  `send()`. `msgHTML` is taken not to throw.
- WordPress is taken as parameters too: `apply_filters`, `get_bloginfo`,
  `network_home_url`/`wp_parse_url`, and the `is_email` validator that
  `init()` installs, which is not modelled.
- The `wp_mail_failed` action and `error_log` are not called. Instead, the
  failure data is returned from `Mail` as a `MailFailure`.
- The uninitialised typed property `$phpmailer` is modelled as `None`.
  This is the case when `WP_MAIL_SMTP_URL` is defined and the first DSN
  mailer throws. PHP would raise an Error when reading it; the model takes
  the `return $return` branch instead.
- A `null` `$return`, which PHP would refuse at the `bool` return type, is
  not modelled: `$return` is a `bool`.
- The `(string)` and `(int)` casts of the constants and of the filter
  results are taken as already done.
- Array keys of the attachments argument that PHP turns into integers,
  such as `"5"`, are not modelled: a key is an integer or a string as
  given.
- Invalid UTF-8, which makes `preg_replace` return `null`, is not
  modelled. The whitespace class is PCRE's `\s` under the `u` flag: the
  ASCII whitespace, NEL, NBSP and the Unicode space separators.
- `load()`, which only registers the filter, is not modelled.
- `wp-mail.php`, `src/ContactFormSpamTester.php` and `src/helper.php` are
  not part of this model.
- ParseFormattedHeaders: `DKIM_HeaderC` is a parameter, so that relaxed
  canonicalisation leaves relaxed-canonical lines unchanged is a
  requirement on it (`FixesRelaxed`), not a proved fact. Values with tabs
  or line breaks, which canonicalisation rewrites, are outside the round
  trip (`Writable`).
