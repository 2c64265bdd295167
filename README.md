# MailGUI mail-list core, in Dafny

This project models the in-memory logic of `mailgui.py` (MailGUI 1.1.0), a
Tk mail client for a Hurricane Software mail account that also has a
command-line mode. The model covers:

- the main window's mail list (`self.messages`);
- the rows the list view shows for a search string, and how a selected row
  maps back to a message;
- the POP3 and IMAP fetch windows, including parsing of the IMAP FETCH
  response line;
- body and attachment selection over a message's MIME parts;
- the compose window's reply, send and recipient rules;
- the in-memory configuration and the password wrapper;
- which messages `cli_receive` lists and which server settings `cli_setup`
  stores.

Modules, in dependency order:

- `Text`: the Python string operations the code relies on (`lower`, `strip`,
  `split`, `in`, `str(int)`/`int(str)`, slicing and reversal), as functions
  on `seq<char>`.
- `Mime`: `_get_body` and `_get_attachments` over the parts `msg.walk()`
  yields. Headers and payloads are given already decoded.
- `MailList`: messages, rows, and the filter as list functions (`Project`,
  `Visible`). These are the specification the window's loops are proved
  against.
- `Fetch`: the POP3 window loop, the IMAP window, the two response-line
  regexes, and the loop over the FETCH response. The servers are parameters.
- `Compose`: reply subject and draft, the checks `send` makes, the envelope
  recipients, and the sender's display name.
- `Config`: `MailConfig` as a class over its `data` map, and the
  encrypt/decrypt wrapper rules.
- `Cli`: `cli_receive`'s count and order, and the branches of `cli_setup`.
- `MailView`: `class MailGUI` with the list, the search string, the rows, the
  status bar and the detail pane. Its methods carry the loops of
  `_update_list` and `_on_select`, the fetch dispatch, and the reply and
  delete targets.

Server answers are parameters:

- the POP3 message count is `stat: Option<nat>`;
- `retr` is a function from a message number to the optional response lines;
- the IMAP `UID SEARCH ALL` answer is `Option<string>`;
- `fetch` is a function from the UID list to the optional FETCH items.

The email parser is a function `parse` from bytes to `Mail`. Where these
inputs are `None`, the real call raises. `parseaddr(..)[1]` is an `address`
parameter, and Fernet is a pair of `encrypt`/`decrypt` parameters.

There is no message cache of any kind: the window keeps only
`self.messages` (mailgui.py:497), and this model follows that.

## Model

| member | source | states |
|---|---|---|
| Text.Lower | mailgui.py:790 | `.lower()`: same length, each character lowered on its own (ASCII letters only) |
| Text.Contains | mailgui.py:797-798 | Python's `needle in hay`: a string is only found in one at least as long |
| Text.ContainsIff | mailgui.py:797-798 | `needle in hay` holds iff `needle` occurs as a slice of `hay` at some position |
| Text.Words | mailgui.py:748 | `bytes.split()`: every word is non-empty, holds no whitespace, and is made of characters of the input |
| Text.WordsConcat | mailgui.py:748 | the words run together are the input with its whitespace removed |
| Text.WordsAreMaximalRuns | mailgui.py:748 | the words are exactly the maximal runs of non-whitespace of the input, left to right, none overlapping or touching, and every non-whitespace character lies in one of them |
| Text.Strip | mailgui.py:416-419 | `str.strip()`: the result is the slice of the input after its leading whitespace, only whitespace follows it, and it neither starts nor ends with whitespace (Python's full `isspace` set) |
| Text.SplitJoin | mailgui.py:475 | `str.split(c)` has one more piece than there are separators, and joining the pieces with the separator gives back the string |
| Text.ParseNatToString | mailgui.py:725 | `str(i)` of a message number reads back as that number, so the POP3 uid identifies the message |
| Mime.FirstBodyIsFirstNonEmpty | mailgui.py:118-132 | in a multipart message the text/plain (and the text/html) body is the text of the first non-attachment part with a payload and that type whose text is non-empty, and is empty when there is none |
| Mime.SingleHasOneBody | mailgui.py:133-141 | a single-part message with a non-empty payload yields it as HTML body if its type is text/html and as text body otherwise, never as both |
| Mime.GetBody | mailgui.py:115-142 | the walk loop returns exactly the text and HTML bodies defined by the part-selection rule |
| Mime.AttachmentsAreQualifyingParts | mailgui.py:145-163 | an attachment is listed iff it comes from a part marked "attachment" or of main type application, with a non-empty file name; its size is its payload's length, 0 without payload; there are no more attachments than parts |
| Mime.GetAttachments | mailgui.py:145-163 | the walk loop returns exactly those attachments, in walk order, and none for a single-part message |
| Mime.DisplayBody | mailgui.py:848 | the pane shows the text body, else the HTML body, else "(無內容)"; never the empty string |
| MailList.RowOf | mailgui.py:797-800 | a row is marked "●" iff "\Seen" does not occur in the flags, "○" otherwise; From, Subject and Date are their prefixes of length min(len, 40/80/25) |
| MailList.VisibleIsFilter | mailgui.py:790-799 | message i is shown iff the lower-cased search is empty or occurs in its lower-cased From or Subject; the shown indices are in range, strictly increasing, and no more than the messages |
| MailList.ProjectIsVisibleRows | mailgui.py:788-802 | the list has one row per shown message, and row k is the row of the k-th shown message, so the count reported is the number of shown messages |
| MailList.VisiblePrefix | mailgui.py:817-828 | the shown messages of a prefix of the list are a prefix of the shown messages of the list, which is why the early `break` of `_on_select` finds the right one |
| MailList.EmptySearchShowsAll | mailgui.py:814-825 | with the empty search every message is shown and display row k is message k |
| MailList.SelectedIndex | mailgui.py:813-828 | display row k resolves to a message iff k is below the number of shown messages, and that message passes the filter |
| MailList.SelectedMessage | mailgui.py:813-830 | the message on display row k, present iff there is such a row, and its row is exactly the row shown there |
| MailList.EmptySearchTargetsAgree | mailgui.py:602-625 | with the empty search, taking `self.messages[row]`, as reply, reply-all and delete do, picks the message on that row |
| MailList.TreeIndexTargetMisses | mailgui.py:602-625 | with messages from "a" and "b" and the search "b", row 0 shows the second message while `self.messages[0]` is the first |
| Fetch.Pop3Start | mailgui.py:715-716 | the lowest message number fetched is `max(1, count - 49)` |
| Fetch.FetchPop3Window | mailgui.py:715-728 | the loop from `count` down to the window's start returns exactly the messages of the POP3 window function |
| Fetch.Pop3WindowSpec | mailgui.py:713-730 | at most 50 and at most `count` messages; each uid is the decimal string of a message number in `[max(1, count-49), count]` whose `retr` succeeded; flags are empty; the numbers strictly descend; a number is missing iff its `retr` fails |
| Fetch.Window | mailgui.py:748-750 | the requested UIDs are the last min(50, n) UIDs of the SEARCH answer, in order |
| Fetch.JoinSplit | mailgui.py:755 | joining comma-free UIDs with "," and splitting at "," gives the UIDs back |
| Fetch.ExtractUidIsLeftmostMatch | mailgui.py:767-769 | the uid is the maximal digit run after the first "UID " that is followed by a digit, and "" when there is no such occurrence |
| Fetch.ExtractFlagsIsLeftmostMatch | mailgui.py:770-772 | the flags are the text between the first "FLAGS (" that has a later ")" and that ")", and "" when there is none |
| Fetch.ImapProducedIsPairs | mailgui.py:757-776 | only the `(line, raw)` pairs of the FETCH response produce messages, one each, in order, with the uid and flags parsed from the line |
| Fetch.FetchImapWindow | mailgui.py:747-780 | no FETCH is sent when the window is empty (and the list is then empty); a failing FETCH raises; otherwise the loop's messages, reversed |
| Fetch.ImapRequestSpec | mailgui.py:748-755 | the FETCH request names exactly the window's UIDs, and it is sent iff the SEARCH answer holds a UID |
| Fetch.ImapNewestFirst | mailgui.py:778-779 | the list kept is the produced list reversed: entry k is produced message n-1-k |
| Compose.ReplySubjectMarksReply | mailgui.py:391-393 | the reply subject starts, in any case, with "re:" and ends with the original subject, and is the original when it already starts with "re:" |
| Compose.ReplySubjectIdempotent | mailgui.py:391-393 | replying to a reply adds no second "Re: " |
| Compose.InitialBody | mailgui.py:380-384 | the body starts as two newlines and the signature, or empty without a signature |
| Compose.ReplyDraft | mailgui.py:386-396 | a reply is addressed to the From address, has a subject marked as a reply, carries the Cc only for reply-all, and starts with the signature body |
| Compose.CheckSend | mailgui.py:415-429 | sending is refused iff the stripped To or Subject is empty, To first; otherwise the stripped fields are sent with an empty CC as none |
| Compose.RecipientsSpec | mailgui.py:473-475 | recipients are the To address followed by one stripped piece per comma-separated CC piece; the pieces join back to the CC field and no recipient holds a comma or surrounding whitespace |
| Compose.DisplayName | mailgui.py:434 | the configured name when non-empty, else the address up to its first "@" |
| Config.MailConfig.Get | mailgui.py:205-206 | the stored value of the key, or the default when the key is missing |
| Config.MailConfig.Set | mailgui.py:208-209 | that key maps to the new value and no other key changes |
| Config.EncryptPassword | mailgui.py:80-86 | the empty password stays empty; any other is encrypted |
| Config.DecryptPassword | mailgui.py:89-99 | the empty string stays empty; a value that cannot be decrypted is returned unchanged as a plain-text password |
| Cli.Listed | mailgui.py:953-980 | the number listed is `min(count, available)`, zero for a negative count, and never more than available |
| Cli.ImapReceiveIsNewestFirst | mailgui.py:952-957 | IMAP lists the last `count` ids of the SEARCH answer, newest first |
| Cli.Pop3ReceiveIsNewestFirst | mailgui.py:980-985 | POP3 lists `min(count, n)` message numbers, each between 1 and n, strictly descending from n |
| Cli.Pop3ReceiveMatchesWindow | mailgui.py:979-985 | with a count of 50 and every `retr` answering, the command line lists exactly the message numbers the window fetches |
| Cli.Receive | mailgui.py:937-985 | nothing is listed without email and password; IMAP iff the protocol is "imap", POP3 otherwise, also when none is configured |
| Cli.SetupCommonRules | mailgui.py:1009-1044 | the setup fails iff the typed passwords differ (a `--password` option skips them); options win over typed answers; IMAP and POP3 share one host |
| Cli.SetupDefaultServers | mailgui.py:1040-1048 | with a yes to the default prompt and no `--smtp-host`, every server is hurricanesoft.com.tw on 465/993/995 with SSL and POP3 as protocol |
| Cli.SetupCustomServers | mailgui.py:1049-1066 | otherwise SMTP uses SSL exactly on port 465 (465 when left blank), and the receive server not chosen keeps its standard port |
| Cli.ApplySetup | mailgui.py:1068-1086 | the seven keys get the derived settings, STARTTLS exactly when SSL is off, and no other key changes |
| MailView.AttachmentLine | mailgui.py:841-846 | the attachment label is empty exactly when there are no attachments |
| MailView.FetchPop3Bounded | mailgui.py:698-731 | a POP3 fetch that gets the message count succeeds, with at most 50 messages whose uids strictly descend |
| MailView.MailGUI.UpdateList | mailgui.py:788-802 | afterwards the list shows exactly the rows of the filtered list and the status bar reports their number; the mail list, search and pane are untouched |
| MailView.MailGUI.OnSearch | mailgui.py:804-806 | a new search string refilters the list when there is mail and leaves it alone otherwise; the list stays in step with the mail list either way |
| MailView.MailGUI.ResolveRow | mailgui.py:813-828 | the loop returns -1 iff the row is past the shown messages, else the index of the shown message on that row, whose row is the one displayed |
| MailView.MailGUI.OnSelect | mailgui.py:808-852 | with a row selected that shows a message, the pane shows that message's headers, attachment names and body; otherwise the pane is unchanged |
| MailView.MailGUI.FetchList | mailgui.py:679-687 | the list `_fetch_thread` obtains is the POP3 window when `recv_protocol` is "pop3" and the IMAP window otherwise, also when it is unset; `None` where the fetch raises |
| MailView.MailGUI.FetchMail | mailgui.py:659-731 | without an account nothing changes; POP3 iff `recv_protocol` is "pop3"; a fetch that raises keeps the old list and reports failure; a successful one replaces the list, refreshes the rows and reports the count |
| MailView.MailGUI.Reply | mailgui.py:602-616 | the corrected reply target: the draft is for the message shown on the selected row, and exists exactly when that row exists |
| MailView.MailGUI.DeleteTarget | mailgui.py:618-626 | the corrected delete target: once confirmed, the id to delete is that of the message shown on the selected row |
| MailView.MailGUI.ReplyAsWritten | mailgui.py:602-616 | `reply`/`reply_all` as written: the draft is for `self.messages[row]`; a shown row always yields a draft; with no search it is the draft of the message on that row |
| MailView.MailGUI.DeleteTargetAsWritten | mailgui.py:618-626 | `delete_mail` as written: once confirmed, the id is `self.messages[row][0]`; a shown row always yields one; with no search it is the id of the message on that row |

## Left out

- The Tk user interface is not modelled: dialogs, the tree widget, menus, message boxes, the cursor and the button states.
- Threads and `root.after` are collapsed into direct calls. A fetch runs to its end within `FetchMail`, and the list refresh it schedules runs right after it.
- Network I/O is not modelled: connecting, logging in, `select` with its INBOX fallback, `quit`/`logout`, and SMTP sending. Servers are parameters, so the chosen folder only changes `folder`.
- `_delete_thread` (POP3 `dele`, IMAP `STORE`/`expunge`) is network I/O. Only the uid that `delete_mail` hands it is modelled.
- Reading and writing the configuration file, including `load`'s defaults and `chmod`, is file I/O. `MailConfig` starts from a given map.
- Fernet and the key file are not modelled. `encrypt`/`decrypt` are parameters, and a decryption error is `None`.
- Header and charset decoding (`_decode_header`, `payload.decode(charset)`) and `email.message_from_bytes` belong to the email library. Parts and headers arrive already decoded, and `parse` stands for the parser.
- `parseaddr` is the `address` parameter of `Compose.ReplyDraft`. Building the outgoing MIME message and saving attachments (`_save_attachments`) are not modelled.
- The settings dialog, the `cli_send` transport, `main`'s argument parsing, and printing are not modelled.
- `msgtool_client.py` is an HTTP client wrapper and is not part of this model.
- Text.Lower: lowers ASCII letters only. Python's `str.lower` also lowers non-ASCII letters, so a search only matches the same as the source on ASCII case differences.
- Fetch.ExtractUidIsLeftmostMatch: takes `\d` as the ASCII digits 0-9. Python's `\d` also matches other Unicode decimal digits.
- Cli.Receive: the plan is what would be listed if every `fetch`/`retr` answers. In the source, a failing call ends the listing part-way and exits with status 1 (mailgui.py:958, 985, 1000-1002).
- Cli.SetupCustomServers: a typed port that is not a number makes `int(...)` raise. The model takes typed ports as already parsed integers (`Option<int>`, `None` for a blank answer).
- Cli.SetupCommonRules: `cli_setup`'s prompts and `sys.exit` are folded into the `Answers` record and the `PasswordMismatch` result.
- Fetch.FetchImapWindow: `messages.reverse()` is modelled as building the reversed sequence, not as an in-place reversal.
- Fetch.ImapRequestSpec: requires a SEARCH answer without commas. A well-formed answer lists UIDs separated by spaces, and a comma inside one would change how the request splits.
- Config.PasswordRoundTrip: holds by the definitions alone and is stated for readers. Its premise is that Fernet decrypts what it encrypted.
- MailView.MailGUI.Reply: models the corrected lookup through the search filter. The source takes `self.messages[row]` (mailgui.py:606-607, 614-615), which `MailView.MailGUI.ReplyAsWritten` and `MailList.TreeIndexTarget` model; see Findings.
- MailView.MailGUI.DeleteTarget: models the corrected lookup through the search filter. The source takes `self.messages[row][0]` (mailgui.py:624-625), which `MailView.MailGUI.DeleteTargetAsWritten` models; see Findings.
- MailView.MailGUI.ReplyAsWritten and MailView.MailGUI.Reply: the draft is returned rather than opened in a compose window. The account check that `compose` makes is not part of `reply`.
- MailView.Signature: a non-string signature value reads as "". The source would render it with `str(...)`.

## Findings

| source | as written | input that shows it | evidently intended | confidence | as-written member | corrected member |
|---|---|---|---|---|---|---|
| mailgui.py:606-607, 614-615, 624-625 | `reply`, `reply_all` and `delete_mail` take `self.messages[idx]`, where `idx` is the row's position in the filtered list view | messages from "a" and from "b", search "b": row 0 shows the message from "b", but reply, reply-all and delete act on the message from "a" | resolve the row through the search filter, as `_on_select` does (mailgui.py:813-828) | not executed | MailList.TreeIndexTargetMisses | MailList.SelectedMessage |
