/** The rules of the compose window: reply pre-filling, the checks before
    sending, the envelope recipients and the sender's display name. */
module Compose {
  import opened Text

  /** The reply subject: "Re: " in front unless the subject already starts,
      in any case, with "re:". */
  function ReplySubject(subject: string): string
  {
    if StartsWith(Lower(subject), "re:") then subject else "Re: " + subject
  }

  /** A reply subject is marked as a reply and ends with the original subject. */
  lemma {:induction false} ReplySubjectMarksReply(subject: string)
    ensures StartsWith(Lower(ReplySubject(subject)), "re:")
    ensures |subject| <= |ReplySubject(subject)| && ReplySubject(subject)[|ReplySubject(subject)| - |subject|..] == subject
    ensures StartsWith(Lower(subject), "re:") ==> ReplySubject(subject) == subject
  {
    if !StartsWith(Lower(subject), "re:") {
      LowerAppend("Re: ", subject);
      assert Lower("Re: ") == "re: ";
      assert Lower(ReplySubject(subject))[..3] == "re:";
    }
  }

  /** Replying to a reply adds no second prefix. */
  lemma ReplySubjectIdempotent(subject: string)
    ensures ReplySubject(ReplySubject(subject)) == ReplySubject(subject)
  {
    ReplySubjectMarksReply(subject);
  }

  /** What the compose window is opened with. */
  datatype Draft = Draft(to: string, cc: string, subject: string, body: string)

  /** The body the compose window starts with: the signature under two blank lines. */
  function InitialBody(signature: string): (body: string)
    ensures signature == "" ==> body == ""
    ensures signature != "" ==> body == "\n\n" + signature
  {
    if signature != "" then "\n\n" + signature else ""
  }

  /** The pre-filled draft of a reply to a message with the given decoded
      From, Subject and Cc; `address` stands for `parseaddr(..)[1]`. */
  function ReplyDraft(from: string, subject: string, cc: string, replyAll: bool,
                      signature: string, address: string -> string): (d: Draft)
    ensures d.to == address(from)
    ensures StartsWith(Lower(d.subject), "re:")
    ensures d.cc == if replyAll then cc else ""
    ensures d.body == InitialBody(signature)
  {
    ReplySubjectMarksReply(subject);
    Draft(address(from), if replyAll then cc else "", ReplySubject(subject), InitialBody(signature))
  }

  /** What `ComposeDialog.send` hands to the sending thread. */
  datatype Outgoing = Outgoing(to: string, subject: string, body: string, cc: Option<string>)
  datatype SendError = MissingRecipient | MissingSubject
  datatype SendCheck = Send(out: Outgoing) | Refuse(error: SendError)

  /** `ComposeDialog.send`: strip the fields; refuse an empty recipient,
      then an empty subject; an empty CC becomes none. */
  function CheckSend(toField: string, subjectField: string, body: string, ccField: string): (r: SendCheck)
    ensures r.Refuse? <==> Strip(toField) == "" || Strip(subjectField) == ""
    ensures r == Refuse(MissingRecipient) <==> Strip(toField) == ""
    ensures r.Send? ==> r.out.to == Strip(toField) && r.out.subject == Strip(subjectField) && r.out.body == body
    ensures r.Send? ==> (r.out.cc.None? <==> Strip(ccField) == "")
    ensures r.Send? && r.out.cc.Some? ==> r.out.cc.value == Strip(ccField)
  {
    var to, subject, cc := Strip(toField), Strip(subjectField), Strip(ccField);
    if to == "" then Refuse(MissingRecipient)
    else if subject == "" then Refuse(MissingSubject)
    else Send(Outgoing(to, subject, body, if cc == "" then None else Some(cc)))
  }

  function StripAll(pieces: seq<string>): (r: seq<string>)
    ensures |r| == |pieces|
    ensures forall k :: 0 <= k < |r| ==> r[k] == Strip(pieces[k])
  {
    if pieces == [] then [] else [Strip(pieces[0])] + StripAll(pieces[1..])
  }

  /** The envelope recipients: `[to]`, then, when there is a CC field,
      every comma-separated piece of it, stripped. */
  function Recipients(to: string, cc: Option<string>): seq<string>
  {
    [to] + (if cc.Some? && cc.value != "" then StripAll(Split(cc.value, ',')) else [])
  }

  /** The recipients are `to` and one address per CC piece: the pieces
      joined by commas give back the CC field, each recipient is its piece
      stripped, and so holds no comma and no surrounding space. */
  lemma RecipientsSpec(to: string, cc: Option<string>)
    ensures var r := Recipients(to, cc);
            r[0] == to
            && (cc.None? || cc.value == "" ==> r == [to])
            && (cc.Some? && cc.value != "" ==>
                  |r| == Count(cc.value, ',') + 2
                  && Join(Split(cc.value, ','), ",") == cc.value
                  && forall k :: 1 <= k < |r| ==>
                       r[k] == Strip(Split(cc.value, ',')[k - 1]) && ',' !in r[k]
                       && (r[k] == "" || (!IsSpace(r[k][0]) && !IsSpace(r[k][|r[k]| - 1]))))
  {
    if cc.Some? && cc.value != "" {
      var pieces := Split(cc.value, ',');
      SplitJoin(cc.value, ',');
      var r := Recipients(to, cc);
      forall k | 1 <= k < |r| ensures ',' !in r[k] {
        var p := pieces[k - 1];
        var i := LeadingSpaces(p);
        assert r[k] == p[i..i + |r[k]|];
        forall j | 0 <= j < |r[k]| ensures r[k][j] != ',' {
          assert r[k][j] == p[i + j];
        }
      }
    }
  }

  /** The display name of the sender: the configured name, or else the
      part of the address before its first '@'. */
  function DisplayName(name: string, email: string): (r: string)
    ensures name != "" ==> r == name
    ensures name == "" ==> '@' !in r && StartsWith(email, r) && (|r| == |email| || email[|r|] == '@')
  {
    if name != "" then name else Split(email, '@')[0]
  }
}
