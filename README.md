# Pymailer mail client — a Dafny model

This project models the decision layer of `mail.py` in Pymailer, a small wrapper that sends mail over SMTP
and polls an IMAP inbox. The network sessions, the MIME parser and the file system are replaced by oracle
inputs. What remains is the sequential logic the code itself fixes:

- `load` always returns `[]`. mail.py never imports `json`, and the constructor passes the allow-list path
  wrapped in a list.
- The `Emailer` constructor stores its configuration, loads both lists (both come back empty) and selects
  `INBOX`.
- `send` builds the message. Each image's file name is the last `/`-segment of its path, and its subtype
  is the last `.`-segment of that name. An image that cannot be read is skipped and the rest are still
  attached. The message is transmitted once, then once more after STARTTLS and login if the first call
  raised. Once the `try` is reached, the `return` in `finally` makes the success string the answer on
  every path, a failed retry included. Before that, setting a To, Subject or From value that spans
  several lines raises `ValueError`, and `send` returns nothing.
- `read` picks the sender filter and switches folder when `box` is not `INBOX` (it never switches back).
  It then searches, walks the ids newest first, and stops before a fetch once `count >= amount`. Failed
  fetches and non-admitted senders are skipped without using up the quota. Each message is split into a
  body (the last `text/plain` part not marked as an attachment) and attachments (parts whose disposition
  mentions "attachment" and that have a file name, in walk order). Any exception discards the records
  gathered so far and returns an error string.

Modules: `Common` (Option, bytes, exception outcomes), `Segments` (`split(...)[-1]`), `Persistence`
(`load`), `Outbound` (what `send` builds and transmits), `MimeParts` (part classification), `Selection`
(the `try` block of `read`), `Mail` (the `Emailer` class).

The oracles are:

- `files` (path to text) for `load`;
- `disk` (image path to bytes) for the images; a path missing from `disk` stands for an open, read or
  attach that raises;
- three `Attempt` values for the SMTP calls: the first `send_message`, STARTTLS plus login, and the second
  `send_message`;
- an `ImapServer` value giving the search reply for a (folder, criterion) pair and the fetch reply for a
  (folder, id) pair;
- parsed `Message` values whose parts carry the outcome of `.decode()` as a `Decoding`.

Every string-typed outcome of `read` is a `ReadResult` constructor. `ReadResult.Text` gives the exact
string the code returns.

Three behaviours of mail.py that are easy to misread:

- The code assigns `body` for every plain-text part not marked as an attachment, so the LAST such part
  wins.
- The quota is checked only before each fetch, and the inner loop over a fetch response appends every
  message tuple in it. `amount` is guaranteed to bound the result only when each fetch reply carries at
  most one message (`Selection.ReadBounded`). Otherwise the per-fetch quota check lets the result
  overshoot (`Selection.QuotaCheckedPerFetch`).
- Every call of `load` in mail.py returns `[]`: the name `json` is unbound there, and the allow-list path
  is passed as a list.

## Model

| member | source | states |
|---|---|---|
| `Persistence.TryLoad` | mail.py:4-10 | the body of `load` always raises: TypeError for a list argument, an OSError (FileNotFoundError) for a path `open` cannot read, otherwise NameError because `json` is unbound |
| `Persistence.Load` | mail.py:4-10 | `load` returns `[]` for every argument and every file system |
| `Mail.Emailer.constructor` | mail.py:16-39 | fields hold the arguments (allow-list path wrapped in a list), both loaded lists are empty, `INBOX` is selected |
| `Segments.LastSegment` | mail.py:57 | `split(sep)[-1]`: a suffix of the input with no separator, either the whole input or preceded by a separator |
| `Segments.LastSegmentAfterJoin` | mail.py:65 | the last segment of `a + sep + b` is `b` when `b` holds no separator |
| `Segments.LastSegmentWithoutSeparator` | mail.py:65 | a name with no `.` is its own subtype |
| `Outbound.ImageNaming` | mail.py:57-66 | the path `dir/stem.ext` gives file name `stem.ext` and subtype `ext` |
| `Outbound.AttachImagesAppend` | mail.py:54-69 | the image loop handles each path independently and keeps order: attachments of `a + b` are those of `a` then those of `b` |
| `Outbound.FailingImageSkipped` | mail.py:56-69 | an unreadable image is omitted and the images after it are still attached |
| `Outbound.ReadableImageAttached` | mail.py:54-67 | every readable image path yields its attachment |
| `Outbound.AttachmentFromReadableImage` | mail.py:54-67 | every attachment is the image attachment of some readable path in the list |
| `Outbound.TransmissionsBounded` | mail.py:71-79 | `send_message` runs once or twice, twice exactly when the first call raised and the session was re-established; delivery happens iff the first call or the retry succeeds |
| `Outbound.InnerBreakSpansLines` | mail.py:50-52 | for every value and every `splitlines` break character: a break followed by more text (other than the `\n` completing a final `\r\n`) makes the value span lines, so setting it raises |
| `Outbound.TrailingBreakIsOneLine` | mail.py:50-52 | every value without line breaks, alone or followed by one `\n` or one `\r\n`, is a single line, so setting it does not raise |
| `Mail.Emailer.Send` | mail.py:42-81 | raises ValueError with no transmission when the To, Subject or From value spans several lines; otherwise returns `Successfully sent email to: <recipient>` on every path, transmits the message with the given body and headers and the attachments of the readable images in order, and the discarded error string is exactly the reconnect's or the retry's failure |
| `MimeParts.Extract` | mail.py:130-147 | the classification loop equals its specification; a single-part message's body is its whole decoded payload with no images |
| `MimeParts.LastBodyPart` | mail.py:135-136 | the index of the last plain-text, non-attachment part (or -1): that part is a body part and none after it is |
| `MimeParts.ClassifyWalkCharacterized` | mail.py:131-145 | the walk raises iff some body part fails to decode, with the first such part's error; otherwise the body is the last body part's text ("" if none) and the images are exactly the attachment parts in walk order |
| `MimeParts.BodyIsNeverAttachment` | mail.py:135-138 | no part is both the body and an attachment |
| `Selection.NewestFirst` | mail.py:109 | `email_ids[::-1]`: position k holds the id at position `len - 1 - k` |
| `Selection.ReadSelected` | mail.py:95-160 | the search, the loop over ids and the loop over each fetch response compute `ReadMailbox`: search error string, "No emails found.", the records, or the error of the first exception |
| `Selection.ReadIsNewestFirstPrefix` | mail.py:106-157 | the records are a prefix of the newest-first candidates (OK fetches, admitted senders), and all of them when fewer than `amount` come back |
| `Selection.ReadRespectsFilter` | mail.py:127-128 | with a non-empty filter every returned sender is in it |
| `Selection.EmptyFilterRejectsNoSender` | mail.py:127-128 | an empty filter reads exactly what a filter listing every sender in the folder reads |
| `Selection.ReadBounded` | mail.py:106-155 | with one message per fetch reply, at most `max(amount, 0)` records are returned |
| `Selection.QuotaCheckedPerFetch` | mail.py:109-155 | a fetch reply carrying two admitted messages yields two records even when `amount` is 1 |
| `Selection.QuotaStopsBeforeOlderIds` | mail.py:109-111 | once the newest `k` ids give `amount` records without an exception, the replies for older ids (failing fetches, undecodable messages) do not change the answer |
| `Selection.SearchDecidesBeforeFetch` | mail.py:97-104 | a status other than OK gives `Error searching emails: <status>`, an OK search with no ids gives `No emails found.`, whatever the fetch replies would be |
| `Selection.FailureDiscardsRecords` | mail.py:159-160 | when the newest message is read and the next fails to decode, the answer is the error alone, returned as `Error reading emails: <error>` |
| `Mail.Emailer.Read` | mail.py:83-94 | the folder becomes `box` when it is not `INBOX` and is otherwise unchanged; the result is `ReadMailbox` on the selected folder with the argument filter, or the loaded allow-list when none is given |
| `Mail.DefaultReadIsUnfiltered` | mail.py:89-90 | a freshly built client's default `read` searches `INBOX` for unseen mail with an empty filter |
| `Mail.SwitchedFolderSticks` | mail.py:92-93 | after `read(box=B)` with `B` not `INBOX`, a later default `read` still uses `B`, whatever the session answers to the second read |

## Left out

- SMTP and IMAP protocol behaviour is not modelled: connecting, `starttls`, `login`, `search`, `fetch`, `send_message`, `select`. Their outcomes are oracle inputs.
- Mail.Emailer.constructor: covers only the case where the login block (mail.py:32-35) completes. If `starttls` or either login raises, the IMAP session is left unauthenticated, imaplib refuses SELECT in that state, and the `select` at mail.py:39 raises, so construction fails. That failure is not modelled.
- `select` is assumed to succeed. A folder the server refuses is not modelled.
- MIME parsing, `parseaddr`, `walk()`, `get_payload(decode=True)` and `.decode()` are library code. Parts arrive already parsed, with decoding as a possibly-failing oracle.
- `print` logging (mail.py:38, 69, 116) is not modelled: it is output only.
- `EmailMessage` header and content encoding are not modelled. The outbound message is the plain record of what `send` sets.
- Mail.Emailer.Send: the only header error modelled is the `ValueError` for a value spanning several lines. Other failures of header parsing or of `set_content` are not modelled.
- Fetching a message sets its `\Seen` flag on the server, which changes what a later UNSEEN search finds. The `ImapServer` oracle holds no state, so this side effect is not modelled. Each read takes the session's answers as an input.
- Mail.Emailer.Send: an image whose `open`, `read` or `add_attachment` raises is one oracle outcome (the path is missing from `disk`). A non-string entry in `images` is not modelled.
- Mail.Emailer.Send: the STARTTLS-plus-login step of the retry is a single outcome, so which of the two raised is not distinguished.
- Mail.Emailer.Send: the oracle decides delivery, so a transmission that partly succeeded before raising is not modelled.
- Exceptions raised by the parser itself (`message_from_bytes`, header access) are not modelled. Only search, fetch and payload decoding can raise.
- src/utils.py is not part of this model. Its `load`, `save` and `encode_image` are JSON file I/O and base64 over file reads, and `clear_cli` is a shell call.
- There is no teardown, concurrency or timeout to model: the code has none.
