/** What `MailGUI._fetch_pop3` and `MailGUI._fetch_imap` compute from the
    server's answers: the fetch window, the uid and flags of each message,
    and the order of the new `self.messages`. The servers are parameters:
    a POP3 `retr` that yields the lines of a message or fails, an IMAP
    FETCH that yields the response items or fails; `parse` stands for
    `email.message_from_bytes`. */
module Fetch {
  import opened Text
  import opened MailList

  /** How many of the newest messages one fetch considers. */
  const FETCH_LIMIT: nat := 50
  const CRLF: Bytes := [13, 10]

  // =====================================================================
  // POP3

  /** The first message number of the window: `max(1, count - fetch_limit + 1)`. */
  function Pop3Start(count: nat): (start: nat)
    ensures start >= 1
    ensures count >= FETCH_LIMIT ==> start == count - FETCH_LIMIT + 1
    ensures count < FETCH_LIMIT ==> start == 1
  {
    if count - FETCH_LIMIT + 1 > 1 then count - FETCH_LIMIT + 1 else 1
  }

  /** What number `i` adds to the list: nothing when `retr(i)` raises. */
  function Pop3Entry(i: nat, retr: nat -> Option<seq<Bytes>>, parse: Bytes -> Mail): seq<Message>
  {
    match retr(i)
    case None => []
    case Some(lines) =>
      var raw := Join(lines, CRLF);
      [Message(NatToString(i), "", parse(raw), raw)]
  }

  /** The list the loop builds over the numbers `hi` down to `lo`. */
  function Pop3Range(hi: nat, lo: nat, retr: nat -> Option<seq<Bytes>>, parse: Bytes -> Mail): seq<Message>
    decreases hi + 1 - lo
  {
    if lo > hi then [] else Pop3Range(hi, lo + 1, retr, parse) + Pop3Entry(lo, retr, parse)
  }

  /** The message numbers among `hi` down to `lo` whose `retr` succeeds. */
  function Pop3Numbers(hi: nat, lo: nat, retr: nat -> Option<seq<Bytes>>): seq<nat>
    decreases hi + 1 - lo
  {
    if lo > hi then [] else Pop3Numbers(hi, lo + 1, retr) + (if retr(lo).Some? then [lo] else [])
  }

  /** The list `_fetch_pop3` assigns to `self.messages` for a mailbox of `count` messages. */
  function Pop3Messages(count: nat, retr: nat -> Option<seq<Bytes>>, parse: Bytes -> Mail): seq<Message>
  {
    Pop3Range(count, Pop3Start(count), retr, parse)
  }

  /** The loop of `_fetch_pop3`: numbers from `count` down to the window's
      start, skipping those whose `retr` fails. */
  method FetchPop3Window(count: nat, retr: nat -> Option<seq<Bytes>>, parse: Bytes -> Mail)
    returns (messages: seq<Message>)
    ensures messages == Pop3Messages(count, retr, parse)
  {
    var start := Pop3Start(count);
    messages := [];
    var i: int := count;
    while i >= start
      invariant start - 1 <= i <= count
      invariant messages == Pop3Range(count, i + 1, retr, parse)
      decreases i
    {
      var lines := retr(i);
      if lines.Some? {
        var raw := Join(lines.value, CRLF);
        messages := messages + [Message(NatToString(i), "", parse(raw), raw)];
      }
      i := i - 1;
    }
  }

  /** Entry k of the list is message number `Pop3Numbers(..)[k]`, as retrieved. */
  lemma {:induction false} Pop3RangeIsNumbers(hi: nat, lo: nat, retr: nat -> Option<seq<Bytes>>, parse: Bytes -> Mail)
    ensures |Pop3Range(hi, lo, retr, parse)| == |Pop3Numbers(hi, lo, retr)|
    ensures forall k :: 0 <= k < |Pop3Numbers(hi, lo, retr)| ==>
              var n := Pop3Numbers(hi, lo, retr)[k];
              retr(n).Some? && Pop3Range(hi, lo, retr, parse)[k] == Pop3Entry(n, retr, parse)[0]
    decreases hi + 1 - lo
  {
    if lo <= hi {
      Pop3RangeIsNumbers(hi, lo + 1, retr, parse);
    }
  }

  /** The kept numbers descend strictly through `[lo, hi]`, and a number
      is missing exactly when its `retr` fails. */
  lemma {:induction false} Pop3NumbersSpec(hi: nat, lo: nat, retr: nat -> Option<seq<Bytes>>)
    ensures forall k :: 0 <= k < |Pop3Numbers(hi, lo, retr)| ==> lo <= Pop3Numbers(hi, lo, retr)[k] <= hi
    ensures forall j, k :: 0 <= j < k < |Pop3Numbers(hi, lo, retr)| ==>
              Pop3Numbers(hi, lo, retr)[j] > Pop3Numbers(hi, lo, retr)[k]
    ensures forall n :: lo <= n <= hi ==> (n in Pop3Numbers(hi, lo, retr) <==> retr(n).Some?)
    ensures lo <= hi + 1 ==> |Pop3Numbers(hi, lo, retr)| <= hi + 1 - lo
    decreases hi + 1 - lo
  {
    if lo <= hi {
      Pop3NumbersSpec(hi, lo + 1, retr);
    }
  }

  /** The POP3 window: at most 50 and at most `count` messages, newest
      first; each uid is the decimal string of its message number (so
      `int(uid)` gives the number back), the numbers lie in
      `[max(1, count-49), count]` and descend strictly, flags are empty,
      and exactly the numbers whose `retr` fails are missing. */
  lemma Pop3WindowSpec(count: nat, retr: nat -> Option<seq<Bytes>>, parse: Bytes -> Mail)
    ensures var ms := Pop3Messages(count, retr, parse);
            |ms| <= FETCH_LIMIT && |ms| <= count
            && (forall k :: 0 <= k < |ms| ==>
                  ms[k].flags == "" && ParseNat(ms[k].uid).Some?
                  && Pop3Start(count) <= ParseNat(ms[k].uid).value <= count
                  && retr(ParseNat(ms[k].uid).value).Some?)
            && (forall j, k :: 0 <= j < k < |ms| ==> ParseNat(ms[j].uid).value > ParseNat(ms[k].uid).value)
            && (forall n :: Pop3Start(count) <= n <= count ==>
                  (retr(n).Some? <==> exists k :: 0 <= k < |ms| && ms[k].uid == NatToString(n)))
  {
    var start := Pop3Start(count);
    var ms := Pop3Messages(count, retr, parse);
    var nums := Pop3Numbers(count, start, retr);
    Pop3RangeIsNumbers(count, start, retr, parse);
    Pop3NumbersSpec(count, start, retr);
    forall k | 0 <= k < |ms| ensures ms[k].uid == NatToString(nums[k]) && ParseNat(ms[k].uid) == Some(nums[k]) {
      ParseNatToString(nums[k]);
    }
    forall n | start <= n <= count
      ensures retr(n).Some? <==> exists k :: 0 <= k < |ms| && ms[k].uid == NatToString(n)
    {
      if retr(n).Some? {
        var k :| 0 <= k < |nums| && nums[k] == n;
        assert ms[k].uid == NatToString(n);
      }
      if exists k :: 0 <= k < |ms| && ms[k].uid == NatToString(n) {
        var k :| 0 <= k < |ms| && ms[k].uid == NatToString(n);
        NatToStringInjective(nums[k], n);
      }
    }
  }

  // =====================================================================
  // IMAP

  /** An item of the FETCH response: a `(response line, message bytes)`
      pair, or anything else (the closing `b")"` and the like). */
  datatype FetchItem = Pair(line: string, raw: Bytes) | Other

  /** `uids[-fetch_limit:]`: the last (at most) 50 uids of the SEARCH result. */
  function Window(uids: seq<string>): (w: seq<string>)
    ensures |w| == if |uids| <= FETCH_LIMIT then |uids| else FETCH_LIMIT
    ensures w == uids[|uids| - |w|..]
  {
    if |uids| <= FETCH_LIMIT then uids else uids[|uids| - FETCH_LIMIT..]
  }

  /** The FETCH argument `b",".join(uids)` names exactly the uids of the window. */
  lemma {:induction false} JoinSplit(parts: seq<string>, c: char)
    requires |parts| >= 1
    requires forall k :: 0 <= k < |parts| ==> c !in parts[k]
    ensures Split(Join(parts, [c]), c) == parts
    decreases |Join(parts, [c])|
  {
    var p := parts[0];
    if |parts| == 1 {
      SplitNoSeparator(p, c);
    } else if p == [] {
      var tail := Join(parts[1..], [c]);
      assert Join(parts, [c]) == [c] + tail;
      JoinSplit(parts[1..], c);
      assert ([c] + tail)[1..] == tail;
      assert parts == [[]] + parts[1..];
    } else {
      var s := Join(parts, [c]);
      var parts' := [p[1..]] + parts[1..];
      assert Join(parts', [c]) == p[1..] + [c] + Join(parts[1..], [c]);
      assert s == [p[0]] + Join(parts', [c]);
      assert s[1..] == Join(parts', [c]);
      JoinSplit(parts', c);
      assert parts'[0] == p[1..] && parts'[1..] == parts[1..];
      assert [p[0]] + p[1..] == p;
      assert parts == [p] + parts[1..];
    }
  }

  lemma {:induction false} SplitNoSeparator(s: string, c: char)
    requires c !in s
    ensures Split(s, c) == [s]
  {
    if s != [] {
      SplitNoSeparator(s[1..], c);
      assert [s[0]] + s[1..] == s;
    }
  }

  /** Where the first match of `UID (\d+)` at or after `p` would start. */
  predicate UidAt(s: string, p: nat) {
    p + 5 <= |s| && s[p..p + 4] == "UID " && IsDigit(s[p + 4])
  }

  function FindUid(s: string, p: nat): (r: Option<nat>)
    ensures r.Some? ==> p <= r.value && UidAt(s, r.value)
    ensures forall q :: p <= q && (r.None? || q < r.value) ==> !UidAt(s, q)
    decreases |s| - p
  {
    if p + 5 > |s| then None else if UidAt(s, p) then Some(p) else FindUid(s, p + 1)
  }

  /** The maximal run of digits at the head of `s` (`\d+` is greedy). */
  function DigitRun(s: string): (r: string)
    ensures |r| <= |s| && r == s[..|r|] && AllDigits(r)
    ensures |r| == |s| || !IsDigit(s[|r|])
  {
    if s != [] && IsDigit(s[0]) then [s[0]] + DigitRun(s[1..]) else []
  }

  /** `re.search(r"UID (\d+)", line).group(1)`, or "" without a match. */
  function ExtractUid(line: string): string
  {
    match FindUid(line, 0)
    case None => ""
    case Some(p) => DigitRun(line[p + 4..])
  }

  /** The regular expression matches at `p` with group `g`: `UID `, then
      digits as many as there are. */
  ghost predicate UidMatch(s: string, p: nat, g: string) {
    UidAt(s, p) && p + 4 + |g| <= |s| && g == s[p + 4..p + 4 + |g|] && AllDigits(g)
    && (p + 4 + |g| == |s| || !IsDigit(s[p + 4 + |g|]))
  }

  /** `ExtractUid` is the group of the leftmost match, "" when there is none;
      a match always has at least one digit. */
  lemma ExtractUidIsLeftmostMatch(line: string)
    ensures ExtractUid(line) == "" <==> forall q: nat :: !UidAt(line, q)
    ensures ExtractUid(line) != "" ==>
              exists p: nat :: UidMatch(line, p, ExtractUid(line)) && forall q: nat :: q < p ==> !UidAt(line, q)
  {
    match FindUid(line, 0) {
      case None =>
      case Some(p) =>
        var g := DigitRun(line[p + 4..]);
        assert line[p + 4..][0] == line[p + 4];
        assert g == line[p + 4..p + 4 + |g|];
        assert UidMatch(line, p, g);
    }
  }

  /** Where `FLAGS (` occurs. */
  predicate FlagsAt(s: string, p: nat) {
    p + 7 <= |s| && s[p..p + 7] == "FLAGS ("
  }

  function FindFlags(s: string, p: nat): (r: Option<nat>)
    ensures r.Some? ==> p <= r.value && FlagsAt(s, r.value)
    ensures forall q :: p <= q && (r.None? || q < r.value) ==> !FlagsAt(s, q)
    decreases |s| - p
  {
    if p + 7 > |s| then None else if FlagsAt(s, p) then Some(p) else FindFlags(s, p + 1)
  }

  /** The first `c` at or after `p`. */
  function FindChar(s: string, c: char, p: nat): (r: Option<nat>)
    ensures r.Some? ==> p <= r.value < |s| && s[r.value] == c
    ensures forall q :: p <= q < |s| && (r.None? || q < r.value) ==> s[q] != c
    decreases |s| - p
  {
    if p >= |s| then None else if s[p] == c then Some(p) else FindChar(s, c, p + 1)
  }

  /** `re.search(r"FLAGS \(([^)]*)\)", line).group(1)`, or "" without a match:
      the text between the first `FLAGS (` and the next `)`. */
  function ExtractFlags(line: string): string
  {
    match FindFlags(line, 0)
    case None => ""
    case Some(p) =>
      match FindChar(line, ')', p + 7)
      case None => ""
      case Some(q) => line[p + 7..q]
  }

  /** The regular expression matches at `p` with group `f`. */
  ghost predicate FlagsMatch(s: string, p: nat, f: string) {
    FlagsAt(s, p) && p + 7 + |f| < |s| && s[p + 7..p + 7 + |f|] == f
    && s[p + 7 + |f|] == ')' && ')' !in f
  }

  /** `ExtractFlags` is the leftmost match of the regular expression. */
  lemma ExtractFlagsIsLeftmostMatch(s: string)
    ensures (forall p: nat, f :: !FlagsMatch(s, p, f)) ==> ExtractFlags(s) == ""
    ensures (exists p: nat, f :: FlagsMatch(s, p, f)) ==>
              exists p: nat :: FlagsMatch(s, p, ExtractFlags(s)) && forall q: nat, g :: q < p ==> !FlagsMatch(s, q, g)
  {
    match FindFlags(s, 0) {
      case None =>
      case Some(p) =>
        match FindChar(s, ')', p + 7) {
          case None =>
          case Some(q) =>
            var f := s[p + 7..q];
            assert forall k :: 0 <= k < |f| ==> f[k] == s[p + 7 + k];
            assert FlagsMatch(s, p, f);
            assert ExtractFlags(s) == f;
            assert forall q: nat, g :: q < p ==> !FlagsMatch(s, q, g);
        }
    }
  }

  /** The message `_fetch_imap` makes of a response pair. */
  function ImapMessageOf(line: string, raw: Bytes, parse: Bytes -> Mail): Message
  {
    Message(ExtractUid(line), ExtractFlags(line), parse(raw), raw)
  }

  /** The list the FETCH loop builds, oldest first. */
  function ImapProduced(items: seq<FetchItem>, parse: Bytes -> Mail): seq<Message>
  {
    if items == [] then []
    else
      var it := items[|items| - 1];
      ImapProduced(items[..|items| - 1], parse)
      + (if it.Pair? then [ImapMessageOf(it.line, it.raw, parse)] else [])
  }

  /** The number of pairs among the first `j` items. */
  function PairsBefore(items: seq<FetchItem>, j: nat): nat
    requires j <= |items|
  {
    if j == 0 then 0 else PairsBefore(items, j - 1) + (if items[j - 1].Pair? then 1 else 0)
  }

  /** Only pairs produce messages, one each, in response order. */
  lemma {:induction false} ImapProducedIsPairs(items: seq<FetchItem>, parse: Bytes -> Mail)
    ensures |ImapProduced(items, parse)| == PairsBefore(items, |items|)
    ensures forall j :: 0 <= j < |items| && items[j].Pair? ==>
              PairsBefore(items, j) < |ImapProduced(items, parse)|
              && ImapProduced(items, parse)[PairsBefore(items, j)] == ImapMessageOf(items[j].line, items[j].raw, parse)
  {
    if items != [] {
      var init := items[..|items| - 1];
      ImapProducedIsPairs(init, parse);
      PairsBeforeOfPrefix(items, |items| - 1);
    }
  }

  lemma {:induction false} PairsBeforeOfPrefix(items: seq<FetchItem>, n: nat)
    requires n <= |items|
    ensures forall j :: 0 <= j <= n ==> PairsBefore(items[..n], j) == PairsBefore(items, j)
  {
    forall j | 0 <= j <= n ensures PairsBefore(items[..n], j) == PairsBefore(items, j) {
      PairsBeforeOfPrefixAt(items, n, j);
    }
  }

  lemma {:induction false} PairsBeforeOfPrefixAt(items: seq<FetchItem>, n: nat, j: nat)
    requires j <= n <= |items|
    ensures PairsBefore(items[..n], j) == PairsBefore(items, j)
  {
    if j > 0 { PairsBeforeOfPrefixAt(items, n, j - 1); }
  }

  /** The uids `_fetch_imap` asks for: the window of the SEARCH result. */
  function ImapRequest(searchData: string): Option<string>
  {
    var uids := Window(Words(searchData));
    if uids == [] then None else Some(Join(uids, ","))
  }

  /** The body of `_fetch_imap` from the SEARCH response on: the FETCH it
      issues (none for an empty window) and the new `self.messages`, or
      `None` when the FETCH fails. */
  method FetchImapWindow(searchData: string, fetch: string -> Option<seq<FetchItem>>, parse: Bytes -> Mail)
    returns (request: Option<string>, messages: Option<seq<Message>>)
    ensures request == ImapRequest(searchData)
    ensures request.None? ==> messages == Some([])
    ensures request.Some? ==>
              messages == match fetch(request.value)
                          case None => None
                          case Some(items) => Some(Reverse(ImapProduced(items, parse)))
  {
    var uids := Window(Words(searchData));
    var produced: seq<Message> := [];
    request := None;
    if uids != [] {
      var uidStr := Join(uids, ",");
      request := Some(uidStr);
      var response := fetch(uidStr);
      if response.None? {
        return request, None;
      }
      var items := response.value;
      var i := 0;
      while i < |items|
        invariant 0 <= i <= |items|
        invariant produced == ImapProduced(items[..i], parse)
      {
        var item := items[i];
        assert items[..i + 1][..i] == items[..i];
        if item.Pair? {
          var uidVal := ExtractUid(item.line);
          var flags := ExtractFlags(item.line);
          produced := produced + [Message(uidVal, flags, parse(item.raw), item.raw)];
        }
        i := i + 1;
      }
      assert items[..i] == items;
    }
    messages := Some(Reverse(produced));
  }

  /** The IMAP request: at most the last 50 uids of the SEARCH result, no
      FETCH when there are none, and (uids being numbers, without commas)
      the FETCH argument names exactly them. */
  lemma ImapRequestSpec(searchData: string)
    requires ',' !in searchData
    ensures var uids := Words(searchData);
            (ImapRequest(searchData).None? <==> uids == [])
            && (ImapRequest(searchData).Some? ==>
                  Split(ImapRequest(searchData).value, ',') == uids[|uids| - |Window(uids)|..]
                  && |Window(uids)| <= FETCH_LIMIT)
  {
    var words := Words(searchData);
    var uids := Window(words);
    if uids != [] {
      forall k | 0 <= k < |uids| ensures ',' !in uids[k] {
        var i := |words| - |uids| + k;
        assert uids[k] == words[i];
        forall j | 0 <= j < |uids[k]| ensures uids[k][j] != ',' {
          assert words[i][j] in searchData;
        }
      }
      JoinSplit(uids, ',');
    }
  }

  /** The new list holds one message per response pair, and the message of
      the last pair comes first. */
  lemma ImapNewestFirst(items: seq<FetchItem>, parse: Bytes -> Mail)
    ensures |Reverse(ImapProduced(items, parse))| == PairsBefore(items, |items|)
    ensures forall j :: 0 <= j < |items| && items[j].Pair? ==>
              var ms := Reverse(ImapProduced(items, parse));
              PairsBefore(items, j) < |ms|
              && ms[|ms| - 1 - PairsBefore(items, j)] == ImapMessageOf(items[j].line, items[j].raw, parse)
  {
    ImapProducedIsPairs(items, parse);
    ReverseIndex(ImapProduced(items, parse));
  }
}
