/** The command-line side: which messages `cli_receive` lists and which
    server settings `cli_setup` stores. Prompts are given as the answers
    the user typed (already read); argparse options as `Option`s. */
module Cli {
  import opened Text
  import opened Fetch
  import opened Config

  // =====================================================================
  // cli_receive

  /** `min(args.count, n)`: may be negative, and then nothing is listed. */
  function ReceiveCount(requested: int, available: nat): int
  {
    if requested < available then requested else available
  }

  function Listed(requested: int, available: nat): (c: nat)
    ensures c <= available
    ensures requested >= 0 ==> c == ReceiveCount(requested, available)
    ensures requested < 0 ==> c == 0
  {
    if ReceiveCount(requested, available) < 0 then 0 else ReceiveCount(requested, available)
  }

  /** IMAP: `mail_ids[-i]` for `i` in `1..count`. */
  function ImapReceiveIds(requested: int, mailIds: seq<string>): seq<string>
  {
    seq(Listed(requested, |mailIds|), i requires 0 <= i < Listed(requested, |mailIds|) => mailIds[|mailIds| - 1 - i])
  }

  /** POP3: `retr(num_messages - i + 1)` for `i` in `1..count`. */
  function Pop3ReceiveNumbers(requested: int, numMessages: nat): seq<nat>
  {
    seq(Listed(requested, numMessages), i requires 0 <= i < Listed(requested, numMessages) => numMessages - i)
  }

  /** IMAP lists the newest `count` ids, newest first: the last `count`
      ids of the SEARCH result in reverse. */
  lemma ImapReceiveIsNewestFirst(requested: int, mailIds: seq<string>)
    ensures var c := Listed(requested, |mailIds|);
            ImapReceiveIds(requested, mailIds) == Reverse(mailIds[|mailIds| - c..])
  {
    var c := Listed(requested, |mailIds|);
    var tail := mailIds[|mailIds| - c..];
    ReverseIndex(tail);
  }

  /** POP3 lists `count` message numbers, strictly descending from the
      newest, all valid for the mailbox. */
  lemma Pop3ReceiveIsNewestFirst(requested: int, numMessages: nat)
    ensures var ns := Pop3ReceiveNumbers(requested, numMessages);
            |ns| == Listed(requested, numMessages)
            && (forall k :: 0 <= k < |ns| ==> 1 <= ns[k] <= numMessages)
            && (forall j, k :: 0 <= j < k < |ns| ==> ns[j] > ns[k])
            && (ns != [] ==> ns[0] == numMessages)
  {
  }

  /** With the GUI's limit of 50 and a server that answers every `retr`,
      the command line lists the very numbers the window fetches. */
  lemma {:induction false} Pop3ReceiveMatchesWindow(numMessages: nat)
    ensures Pop3ReceiveNumbers(FETCH_LIMIT, numMessages)
            == Pop3Numbers(numMessages, Pop3Start(numMessages), _ => Some([]))
  {
    var retr: nat -> Option<seq<Bytes>> := _ => Some([]);
    var start := Pop3Start(numMessages);
    var ns := Pop3Numbers(numMessages, start, retr);
    var cl := Pop3ReceiveNumbers(FETCH_LIMIT, numMessages);
    Pop3NumbersSpec(numMessages, start, retr);
    NumbersAllPresent(numMessages, start, retr);
    assert |ns| == |cl|;
    forall k | 0 <= k < |ns| ensures ns[k] == cl[k] {
      NumbersAllPresent(numMessages, start, retr);
    }
  }

  /** When every `retr` succeeds, the kept numbers are `hi, hi-1, .., lo`. */
  lemma {:induction false} NumbersAllPresent(hi: nat, lo: nat, retr: nat -> Option<seq<Bytes>>)
    requires lo <= hi + 1
    requires forall n :: retr(n).Some?
    ensures |Pop3Numbers(hi, lo, retr)| == hi + 1 - lo
    ensures forall k :: 0 <= k < hi + 1 - lo ==> Pop3Numbers(hi, lo, retr)[k] == hi - k
    decreases hi + 1 - lo
  {
    if lo <= hi {
      NumbersAllPresent(hi, lo + 1, retr);
    }
  }

  /** What `cli_receive` lists, or that the account is not configured. */
  datatype ReceivePlan = NotConfigured | ImapList(ids: seq<string>) | Pop3List(numbers: seq<nat>)

  /** `cli_receive`: refuse without email or password; IMAP when the
      configured protocol is "imap" and POP3 otherwise (also when none is
      configured). */
  function Receive(email: string, password: string, protocol: Option<string>, requested: int,
                   mailIds: seq<string>, numMessages: nat): (p: ReceivePlan)
    ensures p.NotConfigured? <==> email == "" || password == ""
    ensures p.ImapList? <==> email != "" && password != "" && protocol == Some("imap")
    ensures p.ImapList? ==> p.ids == ImapReceiveIds(requested, mailIds)
    ensures p.Pop3List? ==> p.numbers == Pop3ReceiveNumbers(requested, numMessages)
  {
    if email == "" || password == "" then NotConfigured
    else if (match protocol case None => "pop3" case Some(s) => s) == "imap" then
      ImapList(ImapReceiveIds(requested, mailIds))
    else Pop3List(Pop3ReceiveNumbers(requested, numMessages))
  }

  // =====================================================================
  // cli_setup

  /** The options of `mailgui setup`; `None` where an option is absent. */
  datatype SetupArgs = SetupArgs(
    email: Option<string>, name: Option<string>, password: Option<string>,
    smtpHost: Option<string>, smtpPort: Option<int>,
    imapHost: Option<string>, imapPort: Option<int>,
    pop3Host: Option<string>, pop3Port: Option<int>,
    protocol: Option<string>)

  /** What the user types at each prompt that the run reaches. A port
      answer is `None` when left blank. */
  datatype Answers = Answers(
    email: string, name: string, password: string, confirm: string,
    useDefaults: string, smtpHost: string, smtpPort: Option<int>, protocol: string,
    imapHost: string, imapPort: Option<int>, pop3Host: string, pop3Port: Option<int>)

  datatype Server = Server(host: string, port: int)

  /** What `cli_setup` stores. `smtpSsl` is stored as `starttls = not smtpSsl`;
      `verify_ssl` is always false and both receive servers always use SSL. */
  datatype Settings = Settings(
    email: string, name: string, password: string, protocol: string,
    smtpServer: Server, smtpSsl: bool, imapServer: Server, pop3Server: Server)

  datatype Setup = Configured(settings: Settings) | PasswordMismatch

  /** Python truthiness of an optional string or number option. */
  predicate Given(o: Option<string>) { o.Some? && o.value != "" }
  predicate GivenPort(o: Option<int>) { o.Some? && o.value != 0 }

  function StringOr(o: Option<string>, answer: string): string
  {
    if Given(o) then o.value else answer
  }

  function PortOr(o: Option<int>, answer: Option<int>, default: int): int
  {
    if GivenPort(o) then o.value else match answer case None => default case Some(p) => p
  }

  const DEFAULT_HOST := "hurricanesoft.com.tw"

  /** The prompt "Use default Hurricane Software mail servers? [Y/n]", asked
      only without `--smtp-host`, accepts an empty answer, "y" or "yes". */
  predicate UsesDefaults(args: SetupArgs, ans: Answers) {
    !Given(args.smtpHost) && Lower(Strip(ans.useDefaults)) in ["", "y", "yes"]
  }

  /** `cli_setup` from the options and the answers, up to `config.set`. */
  function SetupSettings(args: SetupArgs, ans: Answers): Setup
  {
    if !Given(args.password) && ans.password != ans.confirm then PasswordMismatch
    else
      var email := if Given(args.email) then args.email.value else Strip(ans.email);
      var name := if Given(args.name) then args.name.value else Strip(ans.name);
      var password := if Given(args.password) then args.password.value else ans.password;
      if UsesDefaults(args, ans) then
        Configured(Settings(email, name, password, "pop3",
                            Server(DEFAULT_HOST, 465), true, Server(DEFAULT_HOST, 993), Server(DEFAULT_HOST, 995)))
      else
        var smtpHost := StringOr(args.smtpHost, Strip(ans.smtpHost));
        var smtpPort := PortOr(args.smtpPort, ans.smtpPort, 465);
        var typed := Lower(Strip(ans.protocol));
        var protocol := if Given(args.protocol) then args.protocol.value else if typed != "" then typed else "pop3";
        if protocol == "imap" then
          var imapHost := StringOr(args.imapHost, Strip(ans.imapHost));
          Configured(Settings(email, name, password, protocol, Server(smtpHost, smtpPort), smtpPort == 465,
                              Server(imapHost, PortOr(args.imapPort, ans.imapPort, 993)), Server(imapHost, 995)))
        else
          var pop3Host := StringOr(args.pop3Host, Strip(ans.pop3Host));
          Configured(Settings(email, name, password, protocol, Server(smtpHost, smtpPort), smtpPort == 465,
                              Server(pop3Host, 993), Server(pop3Host, PortOr(args.pop3Port, ans.pop3Port, 995))))
  }

  /** Typed passwords must agree (a `--password` option skips the prompts);
      given options win over typed answers; IMAP and POP3 share one host. */
  lemma SetupCommonRules(args: SetupArgs, ans: Answers)
    ensures SetupSettings(args, ans).PasswordMismatch? <==> !Given(args.password) && ans.password != ans.confirm
    ensures SetupSettings(args, ans).Configured? ==>
              var s := SetupSettings(args, ans).settings;
              (Given(args.email) ==> s.email == args.email.value)
              && (!Given(args.email) ==> s.email == Strip(ans.email))
              && (Given(args.password) ==> s.password == args.password.value)
              && s.imapServer.host == s.pop3Server.host
              && s.protocol != ""
    ensures Given(args.smtpHost) ==> !UsesDefaults(args, ans)
  {
  }

  /** Without `--smtp-host` and with a yes to the default prompt, every
      server is the company default and POP3 is the receive protocol. */
  lemma SetupDefaultServers(args: SetupArgs, ans: Answers)
    requires UsesDefaults(args, ans)
    requires SetupSettings(args, ans).Configured?
    ensures var s := SetupSettings(args, ans).settings;
            s.protocol == "pop3" && s.smtpServer == Server(DEFAULT_HOST, 465) && s.smtpSsl
            && s.imapServer == Server(DEFAULT_HOST, 993) && s.pop3Server == Server(DEFAULT_HOST, 995)
  {
  }

  /** Otherwise SMTP uses SSL exactly on port 465 (465 when left blank), and
      the receive server not chosen keeps its standard port. */
  lemma SetupCustomServers(args: SetupArgs, ans: Answers)
    requires !UsesDefaults(args, ans)
    requires SetupSettings(args, ans).Configured?
    ensures var s := SetupSettings(args, ans).settings;
            (s.smtpSsl <==> s.smtpServer.port == 465)
            && (Given(args.smtpHost) ==> s.smtpServer.host == args.smtpHost.value)
            && (GivenPort(args.smtpPort) ==> s.smtpServer.port == args.smtpPort.value)
            && (!GivenPort(args.smtpPort) && ans.smtpPort.None? ==> s.smtpServer.port == 465)
            && (Given(args.protocol) ==> s.protocol == args.protocol.value)
            && (s.protocol == "imap" ==> s.pop3Server.port == 995)
            && (s.protocol != "imap" ==> s.imapServer.port == 993)
  {
  }

  /** `config.set` for each key `cli_setup` writes; the file is saved afterwards. */
  method ApplySetup(config: MailConfig, s: Settings)
    modifies config
    ensures config.data == old(config.data)
              ["email" := Str(s.email)]["name" := Str(s.name)]["password" := Str(s.password)]
              ["recv_protocol" := Str(s.protocol)]
              ["smtp" := Obj(map["host" := Str(s.smtpServer.host), "port" := Int(s.smtpServer.port),
                                 "starttls" := Bool(!s.smtpSsl), "verify_ssl" := Bool(false)])]
              ["imap" := Obj(map["host" := Str(s.imapServer.host), "port" := Int(s.imapServer.port), "ssl" := Bool(true)])]
              ["pop3" := Obj(map["host" := Str(s.pop3Server.host), "port" := Int(s.pop3Server.port), "ssl" := Bool(true)])]
  {
    config.Set("email", Str(s.email));
    config.Set("name", Str(s.name));
    config.Set("password", Str(s.password));
    config.Set("recv_protocol", Str(s.protocol));
    config.Set("smtp", Obj(map["host" := Str(s.smtpServer.host), "port" := Int(s.smtpServer.port),
                              "starttls" := Bool(!s.smtpSsl), "verify_ssl" := Bool(false)]));
    config.Set("imap", Obj(map["host" := Str(s.imapServer.host), "port" := Int(s.imapServer.port), "ssl" := Bool(true)]));
    config.Set("pop3", Obj(map["host" := Str(s.pop3Server.host), "port" := Int(s.pop3Server.port), "ssl" := Bool(true)]));
  }
}
