/** The main window (`MailGUI`) as state: the fetched mail list, the search
    string, the rows of the list view, the status bar and the detail pane.
    Widgets, threads and `root.after` are collapsed: a fetch runs to its end
    inside one call, and the list refresh it schedules runs right after it. */
module MailView {
  import opened Text
  import opened Mime
  import opened MailList
  import opened Fetch
  import opened Compose
  import opened Config

  /** The texts of the detail pane: the three header labels, the attachment
      label and the body. */
  datatype Pane = Pane(from: string, subject: string, date: string, attachments: string, body: string)

  const EMPTY_PANE := Pane("", "", "", "", "")
  const FETCHING_STATUS := "\U{1F4E8} 收信中..."
  const FAILED_STATUS := "\U{2717} 收信失敗"

  /** How a press of the fetch button ends. */
  datatype FetchOutcome = NeedsAccount | Loaded | Failed

  /** The attachment label: empty without attachments, else their file names. */
  function AttachmentLine(atts: seq<Attachment>): (line: string)
    ensures line == "" <==> atts == []
  {
    if atts == [] then ""
    else "\U{1F4CE} 附件: " + Join(seq(|atts|, i requires 0 <= i < |atts| => atts[i].filename), ", ")
  }

  /** The pane `_on_select` shows for a message. */
  function PaneOf(m: Message): Pane
  {
    Pane("From: " + m.mail.from, "Subject: " + m.mail.subject, "Date: " + m.mail.date,
         AttachmentLine(Attachments(m.mail.content)), DisplayBody(m.mail.content))
  }

  /** The status bar after `_update_list`. */
  function ListStatus(count: nat, folder: string): string
  {
    "共 " + NatToString(count) + " 封郵件 (" + folder + ")"
  }

  /** The status bar after `_fetch_complete`. */
  function LoadedStatus(count: nat): string
  {
    "\U{2713} 已載入 " + NatToString(count) + " 封郵件"
  }

  /** `recv_protocol` as `_fetch_thread` reads it: POP3 only when it says so. */
  predicate UsesPop3(config: MailConfig)
    reads config
  {
    config.Get("recv_protocol", Str("imap")) == Str("pop3")
  }

  /** The signature the compose window is pre-filled with. */
  function Signature(config: MailConfig): string
    reads config
  {
    match config.Get("signature", Str(""))
    case Str(s) => s
    case _ => ""
  }

  /** The list a fetch leaves, or `None` where it raises. `stat` is the POP3
      message count and `searchData` the IMAP `UID SEARCH ALL` answer, each
      `None` when connecting, logging in or that command fails. */
  function FetchResult(pop3: bool, stat: Option<nat>, retr: nat -> Option<seq<Bytes>>,
                       searchData: Option<string>, fetch: string -> Option<seq<FetchItem>>,
                       parse: Bytes -> Mail): Option<seq<Message>>
  {
    if pop3 then
      match stat
      case None => None
      case Some(count) => Some(Pop3Messages(count, retr, parse))
    else
      match searchData
      case None => None
      case Some(d) =>
        match ImapRequest(d)
        case None => Some([])
        case Some(req) =>
          match fetch(req)
          case None => None
          case Some(items) => Some(Reverse(ImapProduced(items, parse)))
  }

  /** A POP3 fetch that gets the message count always succeeds, with at most
      50 messages, newest first. */
  lemma FetchPop3Bounded(count: nat, retr: nat -> Option<seq<Bytes>>, searchData: Option<string>,
                         fetch: string -> Option<seq<FetchItem>>, parse: Bytes -> Mail)
    ensures FetchResult(true, Some(count), retr, searchData, fetch, parse).Some?
    ensures var ms := FetchResult(true, Some(count), retr, searchData, fetch, parse).value;
            |ms| <= FETCH_LIMIT
            && (forall k :: 0 <= k < |ms| ==> ParseNat(ms[k].uid).Some?)
            && forall j, k :: 0 <= j < k < |ms| ==> ParseNat(ms[k].uid).value < ParseNat(ms[j].uid).value
  {
    Pop3WindowSpec(count, retr, parse);
  }

  class MailGUI {
    const config: MailConfig
    var messages: seq<Message>
    var folder: string
    var searchText: string
    var rows: seq<Row>
    var status: string
    var pane: Pane

    /** The list view shows the rows of the mail list for the search string. */
    ghost predicate Synced()
      reads this
    {
      rows == Project(messages, Lower(searchText))
    }

    constructor (config: MailConfig)
      ensures this.config == config
      ensures messages == [] && folder == "INBOX" && searchText == "" && rows == [] && pane == EMPTY_PANE
      ensures Synced()
    {
      this.config := config;
      messages := [];
      folder := "INBOX";
      searchText := "";
      rows := [];
      status := "";
      pane := EMPTY_PANE;
    }

    /** `_update_list`: refills the list view from the mail list and reports
        the count of rows in the status bar. */
    method UpdateList()
      modifies this
      ensures Synced()
      ensures status == ListStatus(|rows|, folder)
      ensures messages == old(messages) && searchText == old(searchText)
      ensures folder == old(folder) && pane == old(pane)
    {
      rows := [];
      var search := Lower(searchText);
      var count: nat := 0;
      var i := 0;
      while i < |messages|
        invariant 0 <= i <= |messages|
        invariant messages == old(messages) && searchText == old(searchText)
        invariant folder == old(folder) && pane == old(pane)
        invariant rows == Project(messages[..i], search)
        invariant count == |rows|
      {
        var m := messages[i];
        assert messages[..i + 1][..i] == messages[..i];
        if search != "" && !Contains(Lower(m.mail.from), search) && !Contains(Lower(m.mail.subject), search) {
          i := i + 1;
          continue;
        }
        var mark := if !Contains(m.flags, SEEN_FLAG) then UNREAD else READ;
        rows := rows + [Row(mark, Take(m.mail.from, FROM_WIDTH), Take(m.mail.subject, SUBJECT_WIDTH),
                            Take(m.mail.date, DATE_WIDTH))];
        count := count + 1;
        i := i + 1;
      }
      assert messages[..i] == messages;
      status := ListStatus(count, folder);
    }

    /** `_on_search`: a change of the search string refilters the list, but
        only once there is mail. */
    method OnSearch(text: string)
      modifies this
      ensures searchText == text && messages == old(messages) && pane == old(pane) && folder == old(folder)
      ensures old(messages) != [] ==> Synced() && status == ListStatus(|rows|, folder)
      ensures old(messages) == [] ==> rows == old(rows) && status == old(status)
      ensures old(Synced()) ==> Synced()
    {
      searchText := text;
      if messages != [] {
        UpdateList();
      }
    }

    /** The loop of `_on_select`: the index into the mail list of display
        row `displayIdx` under the current search, or -1 past the last row. */
    method ResolveRow(displayIdx: nat) returns (actual: int)
      ensures actual == -1 <==> displayIdx >= |Visible(messages, Lower(searchText))|
      ensures actual != -1 ==> 0 <= actual < |messages| && actual == Visible(messages, Lower(searchText))[displayIdx]
      ensures Synced() && displayIdx < |rows| ==> 0 <= actual < |messages| && RowOf(messages[actual]) == rows[displayIdx]
    {
      var search := Lower(searchText);
      actual := -1;
      var count: nat := 0;
      var i := 0;
      while i < |messages|
        invariant 0 <= i <= |messages|
        invariant count == |Visible(messages[..i], search)| && count <= displayIdx
        invariant actual == -1
      {
        var m := messages[i];
        assert messages[..i + 1][..i] == messages[..i];
        if search != "" && !Contains(Lower(m.mail.from), search) && !Contains(Lower(m.mail.subject), search) {
          i := i + 1;
          continue;
        }
        if count == displayIdx {
          actual := i;
          VisiblePrefix(messages, search, i + 1);
          break;
        }
        count := count + 1;
        i := i + 1;
      }
      if actual == -1 {
        assert messages[..i] == messages;
      }
      ProjectIsVisibleRows(messages, search);
    }

    /** `_on_select`: with a row selected, the pane shows the message on
        that row; otherwise it stays as it was. */
    method OnSelect(selection: Option<nat>)
      modifies this
      ensures messages == old(messages) && searchText == old(searchText) && rows == old(rows)
      ensures status == old(status) && folder == old(folder)
      ensures pane == match (if selection.Some? then SelectedIndex(messages, Lower(searchText), selection.value) else None)
                      case Some(i) => PaneOf(messages[i])
                      case None => old(pane)
    {
      if selection.None? {
        return;
      }
      var actual := ResolveRow(selection.value);
      if actual < 0 {
        return;
      }
      var m := messages[actual];
      var text, html := GetBody(m.mail.content);
      var attachments := GetAttachments(m.mail.content);
      var display := if text != "" then text else if html != "" then html else NO_CONTENT;
      pane := Pane("From: " + m.mail.from, "Subject: " + m.mail.subject, "Date: " + m.mail.date,
                   AttachmentLine(attachments), display);
    }

    /** The dispatch of `_fetch_thread` on `recv_protocol` ("imap" when
        unset) to `_fetch_pop3` or `_fetch_imap`: the fetched list, or
        `None` where the fetch raises. */
    method FetchList(stat: Option<nat>, retr: nat -> Option<seq<Bytes>>,
                     searchData: Option<string>, fetch: string -> Option<seq<FetchItem>>,
                     parse: Bytes -> Mail)
      returns (fetched: Option<seq<Message>>)
      ensures fetched == FetchResult(UsesPop3(config), stat, retr, searchData, fetch, parse)
    {
      if config.Get("recv_protocol", Str("imap")) == Str("pop3") {
        if stat.None? {
          fetched := None;
        } else {
          var ms := FetchPop3Window(stat.value, retr, parse);
          fetched := Some(ms);
        }
      } else {
        if searchData.None? {
          fetched := None;
        } else {
          var request;
          request, fetched := FetchImapWindow(searchData.value, fetch, parse);
        }
      }
    }

    /** `fetch_mail`, `_fetch_thread` and what they schedule: without an
        account nothing happens; otherwise the chosen folder becomes current,
        and the fetched list replaces the old one, or, where the fetch
        raises, the old list stays and the status bar reports the failure. */
    method FetchMail(folderChoice: string, stat: Option<nat>, retr: nat -> Option<seq<Bytes>>,
                     searchData: Option<string>, fetch: string -> Option<seq<FetchItem>>,
                     parse: Bytes -> Mail)
      returns (outcome: FetchOutcome)
      modifies this
      ensures outcome == NeedsAccount <==> !Truthy(config.Get("email", Str("")))
      ensures outcome == NeedsAccount ==>
                messages == old(messages) && rows == old(rows) && status == old(status) && folder == old(folder)
      ensures outcome != NeedsAccount ==> folder == folderChoice
      ensures var r := FetchResult(UsesPop3(config), stat, retr, searchData, fetch, parse);
              outcome != NeedsAccount ==> (outcome == Failed <==> r.None?)
      ensures outcome == Failed ==> messages == old(messages) && rows == old(rows) && status == FAILED_STATUS
      ensures outcome == Loaded ==>
                Some(messages) == FetchResult(UsesPop3(config), stat, retr, searchData, fetch, parse)
                && Synced() && status == LoadedStatus(|messages|)
      ensures searchText == old(searchText) && pane == old(pane)
    {
      if !Truthy(config.Get("email", Str(""))) {
        return NeedsAccount;
      }
      folder := folderChoice;
      status := FETCHING_STATUS;
      var fetched := FetchList(stat, retr, searchData, fetch, parse);
      if fetched.None? {
        status := FAILED_STATUS;
        return Failed;
      }
      messages := fetched.value;
      UpdateList();
      status := LoadedStatus(|messages|);
      return Loaded;
    }

    /** `reply` and `reply_all`: the draft for the message on the selected
        row, taken through the search filter as `_on_select` does. */
    method Reply(selection: Option<nat>, replyAll: bool, address: string -> string)
      returns (draft: Option<Draft>)
      ensures selection.None? ==> draft.None?
      ensures selection.Some? ==>
                draft == match SelectedMessage(messages, Lower(searchText), selection.value)
                         case None => None
                         case Some(m) => Some(ReplyDraft(m.mail.from, m.mail.subject, m.mail.cc, replyAll,
                                                         Signature(config), address))
      ensures Synced() && selection.Some? ==> (draft.Some? <==> selection.value < |rows|)
    {
      if selection.None? {
        return None;
      }
      var target := SelectedMessage(messages, Lower(searchText), selection.value);
      if target.None? {
        return None;
      }
      var m := target.value;
      draft := Some(ReplyDraft(m.mail.from, m.mail.subject, m.mail.cc, replyAll, Signature(config), address));
    }

    /** `delete_mail`: the id handed to the deleting thread, once the user
        confirms, of the message on the selected row. */
    method DeleteTarget(selection: Option<nat>, confirmed: bool) returns (uid: Option<string>)
      ensures selection.None? || !confirmed ==> uid.None?
      ensures selection.Some? && confirmed ==>
                uid == match SelectedMessage(messages, Lower(searchText), selection.value)
                       case None => None
                       case Some(m) => Some(m.uid)
      ensures Synced() && selection.Some? && confirmed ==> (uid.Some? <==> selection.value < |rows|)
    {
      if selection.None? || !confirmed {
        return None;
      }
      var target := SelectedMessage(messages, Lower(searchText), selection.value);
      if target.None? {
        return None;
      }
      uid := Some(target.value.uid);
    }

    /** `reply` and `reply_all` as written: the selected row's position is
        taken as an index into the unfiltered mail list. It agrees with
        `Reply` while no search is active. */
    method ReplyAsWritten(selection: Option<nat>, replyAll: bool, address: string -> string)
      returns (draft: Option<Draft>)
      ensures selection.None? ==> draft.None?
      ensures selection.Some? ==>
                draft == match TreeIndexTarget(messages, selection.value)
                         case None => None
                         case Some(m) => Some(ReplyDraft(m.mail.from, m.mail.subject, m.mail.cc, replyAll,
                                                         Signature(config), address))
      ensures Synced() && selection.Some? && selection.value < |rows| ==> draft.Some?
      ensures searchText == "" && selection.Some? ==>
                draft == match SelectedMessage(messages, Lower(searchText), selection.value)
                         case None => None
                         case Some(m) => Some(ReplyDraft(m.mail.from, m.mail.subject, m.mail.cc, replyAll,
                                                         Signature(config), address))
    {
      ProjectIsVisibleRows(messages, Lower(searchText));
      VisibleIsFilter(messages, Lower(searchText));
      if selection.None? {
        return None;
      }
      EmptySearchTargetsAgree(messages, selection.value);
      var idx := selection.value;
      if idx >= |messages| {
        return None;
      }
      var m := messages[idx];
      draft := Some(ReplyDraft(m.mail.from, m.mail.subject, m.mail.cc, replyAll, Signature(config), address));
    }

    /** `delete_mail` as written: the uid at the selected row's position in
        the unfiltered mail list. It agrees with `DeleteTarget` while no
        search is active. */
    method DeleteTargetAsWritten(selection: Option<nat>, confirmed: bool) returns (uid: Option<string>)
      ensures selection.None? || !confirmed ==> uid.None?
      ensures selection.Some? && confirmed ==>
                uid == match TreeIndexTarget(messages, selection.value)
                       case None => None
                       case Some(m) => Some(m.uid)
      ensures Synced() && selection.Some? && confirmed && selection.value < |rows| ==> uid.Some?
      ensures searchText == "" && selection.Some? && confirmed ==>
                uid == match SelectedMessage(messages, Lower(searchText), selection.value)
                       case None => None
                       case Some(m) => Some(m.uid)
    {
      ProjectIsVisibleRows(messages, Lower(searchText));
      VisibleIsFilter(messages, Lower(searchText));
      if selection.None? || !confirmed {
        return None;
      }
      EmptySearchTargetsAgree(messages, selection.value);
      var idx := selection.value;
      if idx >= |messages| {
        return None;
      }
      uid := Some(messages[idx].uid);
    }
  }
}
