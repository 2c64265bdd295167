/** The mail list as the main window keeps it (`self.messages`) and the
    rows the list view shows for a search string: the specification that
    `MailGUI._update_list` and `MailGUI._on_select` are proved against. */
module MailList {
  import opened Text
  import opened Mime

  /** A parsed message, with the header values the window reads from it,
      already decoded (decoding is the email library's). */
  datatype Mail = Mail(from: string, subject: string, date: string, cc: string, content: Content)

  /** An entry of `self.messages`: `(uid, flags, msg, raw)`. */
  datatype Message = Message(uid: string, flags: string, mail: Mail, raw: Bytes)

  /** The values of one list row: status, From, Subject, Date. */
  datatype Row = Row(status: string, from: string, subject: string, date: string)

  const UNREAD := "\U{25CF}"
  const READ := "\U{25CB}"
  const SEEN_FLAG := "\\Seen"
  const FROM_WIDTH := 40
  const SUBJECT_WIDTH := 80
  const DATE_WIDTH := 25

  /** The search filter of both list functions, for a lower-cased search string. */
  predicate Matches(m: Message, search: string) {
    search == "" || Contains(Lower(m.mail.from), search) || Contains(Lower(m.mail.subject), search)
  }

  /** The row `_update_list` inserts for a message. */
  function RowOf(m: Message): (r: Row)
    ensures r.status == UNREAD <==> !Contains(m.flags, SEEN_FLAG)
    ensures r.status == READ <==> Contains(m.flags, SEEN_FLAG)
    ensures |r.from| == if |m.mail.from| <= FROM_WIDTH then |m.mail.from| else FROM_WIDTH
    ensures |r.subject| == if |m.mail.subject| <= SUBJECT_WIDTH then |m.mail.subject| else SUBJECT_WIDTH
    ensures |r.date| == if |m.mail.date| <= DATE_WIDTH then |m.mail.date| else DATE_WIDTH
    ensures r.from == m.mail.from[..|r.from|]
    ensures r.subject == m.mail.subject[..|r.subject|]
    ensures r.date == m.mail.date[..|r.date|]
  {
    Row(if !Contains(m.flags, SEEN_FLAG) then UNREAD else READ,
        Take(m.mail.from, FROM_WIDTH), Take(m.mail.subject, SUBJECT_WIDTH), Take(m.mail.date, DATE_WIDTH))
  }

  /** The rows shown for `search`, in the order of `ms`. */
  function Project(ms: seq<Message>, search: string): seq<Row>
  {
    if ms == [] then []
    else
      var m := ms[|ms| - 1];
      Project(ms[..|ms| - 1], search) + (if Matches(m, search) then [RowOf(m)] else [])
  }

  /** The indices into `ms` of the messages shown for `search`, in order. */
  function Visible(ms: seq<Message>, search: string): seq<nat>
  {
    if ms == [] then []
    else
      Visible(ms[..|ms| - 1], search) + (if Matches(ms[|ms| - 1], search) then [|ms| - 1] else [])
  }

  ghost predicate StrictlyIncreasing(s: seq<nat>) {
    forall j, k :: 0 <= j < k < |s| ==> s[j] < s[k]
  }

  /** The shown messages are exactly those passing the filter, in list order. */
  lemma {:induction false} VisibleIsFilter(ms: seq<Message>, search: string)
    ensures forall k :: 0 <= k < |Visible(ms, search)| ==> Visible(ms, search)[k] < |ms|
    ensures StrictlyIncreasing(Visible(ms, search))
    ensures forall i :: 0 <= i < |ms| ==> (i in Visible(ms, search) <==> Matches(ms[i], search))
    ensures |Visible(ms, search)| <= |ms|
  {
    if ms != [] {
      var init := ms[..|ms| - 1];
      VisibleIsFilter(init, search);
      assert forall i :: 0 <= i < |init| ==> init[i] == ms[i];
    }
  }

  /** Row k of the list is the row of the k-th shown message, and there are
      as many rows as shown messages. */
  lemma {:induction false} ProjectIsVisibleRows(ms: seq<Message>, search: string)
    ensures |Project(ms, search)| == |Visible(ms, search)|
    ensures forall k :: 0 <= k < |Visible(ms, search)| ==>
              Visible(ms, search)[k] < |ms| && Project(ms, search)[k] == RowOf(ms[Visible(ms, search)[k]])
  {
    if ms != [] {
      var init := ms[..|ms| - 1];
      ProjectIsVisibleRows(init, search);
      VisibleIsFilter(init, search);
      assert forall i :: 0 <= i < |init| ==> init[i] == ms[i];
    }
  }

  /** The shown messages of a prefix of the list open the shown messages of the list. */
  lemma {:induction false} VisiblePrefix(ms: seq<Message>, search: string, n: nat)
    requires n <= |ms|
    ensures Visible(ms[..n], search) <= Visible(ms, search)
    decreases |ms|
  {
    if n < |ms| {
      var init := ms[..|ms| - 1];
      assert ms[..n] == init[..n];
      VisiblePrefix(init, search, n);
    } else {
      assert ms[..n] == ms;
    }
  }

  /** With the empty search every message is shown, in place: row k is message k. */
  lemma {:induction false} EmptySearchShowsAll(ms: seq<Message>)
    ensures |Visible(ms, "")| == |ms|
    ensures forall k :: 0 <= k < |ms| ==> Visible(ms, "")[k] == k
  {
    if ms != [] {
      EmptySearchShowsAll(ms[..|ms| - 1]);
    }
  }

  /** The index into `self.messages` that `_on_select` resolves display row `k` to. */
  function SelectedIndex(ms: seq<Message>, search: string, k: nat): (r: Option<nat>)
    ensures r.Some? <==> k < |Visible(ms, search)|
    ensures r.Some? ==> r.value < |ms| && Matches(ms[r.value], search)
  {
    VisibleIsFilter(ms, search);
    if k < |Visible(ms, search)| then Some(Visible(ms, search)[k]) else None
  }

  /** `self.messages[idx]` with idx the display row, as reply, reply-all and
      delete take the selected message. */
  function TreeIndexTarget(ms: seq<Message>, k: nat): Option<Message>
  {
    if k < |ms| then Some(ms[k]) else None
  }

  /** The message shown on display row `k`. */
  function SelectedMessage(ms: seq<Message>, search: string, k: nat): (r: Option<Message>)
    ensures r.Some? <==> k < |Project(ms, search)|
    ensures r.Some? ==> RowOf(r.value) == Project(ms, search)[k] && r.value in ms
  {
    ProjectIsVisibleRows(ms, search);
    match SelectedIndex(ms, search, k)
    case Some(i) => Some(ms[i])
    case None => None
  }

  /** With the empty search the display row indexes the list directly, so
      taking `self.messages[row]` is right exactly then. */
  lemma EmptySearchTargetsAgree(ms: seq<Message>, k: nat)
    ensures SelectedMessage(ms, "", k) == TreeIndexTarget(ms, k)
  {
    EmptySearchShowsAll(ms);
    ProjectIsVisibleRows(ms, "");
  }

  /** With a search active, the row index taken as a list index picks a
      message other than the one on that row: of two messages, from "a" and
      from "b", the search "b" shows the second on row 0, and
      `self.messages[0]` is the first. */
  lemma TreeIndexTargetMisses()
    ensures var a := Message("1", "", Mail("a", "", "", "", Single(Part("", "", None, "", None))), []);
            var b := Message("2", "", Mail("b", "", "", "", Single(Part("", "", None, "", None))), []);
            SelectedMessage([a, b], "b", 0) == Some(b) && TreeIndexTarget([a, b], 0) == Some(a)
  {
    var part := Part("", "", None, "", None);
    var a := Message("1", "", Mail("a", "", "", "", Single(part)), []);
    var b := Message("2", "", Mail("b", "", "", "", Single(part)), []);
    assert Lower("a") == "a" && Lower("b") == "b" && Lower("") == "";
    assert !Contains("", "b");
    assert !Contains("a", "b") by { assert "a"[1..] == ""; }
    assert Contains("b", "b");
    var ms := [a, b];
    assert ms[..1] == [a] && [a][..0] == [];
    assert Visible([a], "b") == [];
    assert Visible(ms, "b") == [1];
  }
}
