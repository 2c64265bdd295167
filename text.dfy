/** String and byte-string helpers with Python's `str`/`bytes` semantics,
    as far as the mail client relies on them. */
module Text {

  type Byte = bv8
  type Bytes = seq<Byte>

  // ---------------------------------------------------------------------
  // Character classes

  predicate IsDigit(c: char) { '0' <= c <= '9' }

  /** `str.isspace()` of Python: the characters `str.strip()` removes. */
  predicate IsSpace(c: char) {
    c == ' ' || ('\t' <= c <= '\r') || ('\U{1c}' <= c <= '\U{1f}')
    || c == '\U{85}' || c == '\U{a0}' || c == '\U{1680}'
    || ('\U{2000}' <= c <= '\U{200a}') || c == '\U{2028}' || c == '\U{2029}'
    || c == '\U{202f}' || c == '\U{205f}' || c == '\U{3000}'
  }

  /** The whitespace of `bytes.split()` with no separator. */
  predicate IsByteSpace(c: char) { c == ' ' || ('\t' <= c <= '\r') }

  predicate AllDigits(s: string) { forall k :: 0 <= k < |s| ==> IsDigit(s[k]) }

  // ---------------------------------------------------------------------
  // Lower-casing (ASCII letters only)

  function LowerChar(c: char): (d: char)
    ensures 'A' <= c <= 'Z' ==> d as int == c as int + 32
    ensures !('A' <= c <= 'Z') ==> d == c
  {
    if 'A' <= c <= 'Z' then (c as int + 32) as char else c
  }

  function Lower(s: string): (r: string)
    ensures |r| == |s|
    ensures forall k :: 0 <= k < |s| ==> r[k] == LowerChar(s[k])
  {
    if s == [] then [] else [LowerChar(s[0])] + Lower(s[1..])
  }

  lemma {:induction false} LowerAppend(a: string, b: string)
    ensures Lower(a + b) == Lower(a) + Lower(b)
  {
    var l, r := Lower(a + b), Lower(a) + Lower(b);
    assert |l| == |r|;
    forall k | 0 <= k < |l| ensures l[k] == r[k] {
      if k < |a| { assert (a + b)[k] == a[k]; } else { assert (a + b)[k] == b[k - |a|]; }
    }
  }

  // ---------------------------------------------------------------------
  // Prefixes and substrings

  predicate StartsWith(s: string, p: string) { |p| <= |s| && s[..|p|] == p }

  /** Python's `needle in hay` for strings. */
  function Contains(hay: string, needle: string): (r: bool)
    ensures r ==> |needle| <= |hay|
    decreases |hay|
  {
    StartsWith(hay, needle) || (|hay| > 0 && Contains(hay[1..], needle))
  }

  ghost predicate OccursAt(hay: string, needle: string, i: int) {
    0 <= i && i + |needle| <= |hay| && hay[i..i + |needle|] == needle
  }

  lemma {:induction false} ContainsIff(hay: string, needle: string)
    ensures Contains(hay, needle) <==> exists i :: OccursAt(hay, needle, i)
    decreases |hay|
  {
    if StartsWith(hay, needle) {
      assert OccursAt(hay, needle, 0);
    } else if |hay| == 0 {
      assert forall i :: !OccursAt(hay, needle, i);
    } else {
      ContainsIff(hay[1..], needle);
      if Contains(hay[1..], needle) {
        var i :| OccursAt(hay[1..], needle, i);
        assert hay[i + 1..i + 1 + |needle|] == hay[1..][i..i + |needle|];
        assert OccursAt(hay, needle, i + 1);
      } else {
        forall i | OccursAt(hay, needle, i) ensures false {
          assert i != 0;
          var a, b := hay[1..][i - 1..i - 1 + |needle|], hay[i..i + |needle|];
          forall j | 0 <= j < |needle| ensures a[j] == b[j] {
            assert hay[1..][i - 1 + j] == hay[i + j];
          }
          assert a == b;
          assert OccursAt(hay[1..], needle, i - 1);
        }
      }
    }
  }

  /** Python's `s[:n]` for `n >= 0`. */
  function Take(s: string, n: nat): (r: string)
    ensures |r| <= n && |r| <= |s|
    ensures r == s[..|r|]
    ensures |s| <= n ==> r == s
  {
    if |s| <= n then s else s[..n]
  }

  // ---------------------------------------------------------------------
  // Stripping

  /** The number of whitespace characters that open `s`. */
  function LeadingSpaces(s: string): (n: nat)
    ensures n <= |s|
    ensures forall k :: 0 <= k < n ==> IsSpace(s[k])
    ensures n == |s| || !IsSpace(s[n])
  {
    if s != [] && IsSpace(s[0]) then 1 + LeadingSpaces(s[1..]) else 0
  }

  function StripRight(s: string): (r: string)
    ensures |r| <= |s| && r == s[..|r|]
    ensures r == [] || !IsSpace(r[|r| - 1])
    ensures forall k :: |r| <= k < |s| ==> IsSpace(s[k])
  {
    if s != [] && IsSpace(s[|s| - 1]) then StripRight(s[..|s| - 1]) else s
  }

  /** Python's `s.strip()`: what remains once the whitespace that opens
      and closes `s` is cut off. */
  function Strip(s: string): (r: string)
    ensures LeadingSpaces(s) + |r| <= |s|
    ensures r == s[LeadingSpaces(s)..LeadingSpaces(s) + |r|]
    ensures forall k :: LeadingSpaces(s) + |r| <= k < |s| ==> IsSpace(s[k])
    ensures r == [] || (!IsSpace(r[0]) && !IsSpace(r[|r| - 1]))
  {
    StripRight(s[LeadingSpaces(s)..])
  }

  // ---------------------------------------------------------------------
  // Splitting and joining

  /** `sep.join(parts)`. */
  function Join<T>(parts: seq<seq<T>>, sep: seq<T>): seq<T>
  {
    if |parts| == 0 then []
    else if |parts| == 1 then parts[0]
    else parts[0] + sep + Join(parts[1..], sep)
  }

  /** Python's `s.split(c)` with a one-character separator: never empty,
      and no piece holds the separator. */
  function Split(s: string, c: char): (r: seq<string>)
    ensures |r| >= 1
    ensures forall k :: 0 <= k < |r| ==> c !in r[k]
    ensures |r[0]| <= |s| && r[0] == s[..|r[0]|] && (|r[0]| == |s| || s[|r[0]|] == c)
  {
    if s == [] then [[]]
    else if s[0] == c then [[]] + Split(s[1..], c)
    else
      var rest := Split(s[1..], c);
      [[s[0]] + rest[0]] + rest[1..]
  }

  function Count(s: string, c: char): nat
  {
    if s == [] then 0 else (if s[0] == c then 1 else 0) + Count(s[1..], c)
  }

  lemma {:induction false} SplitJoin(s: string, c: char)
    ensures Join(Split(s, c), [c]) == s
    ensures |Split(s, c)| == Count(s, c) + 1
  {
    if s != [] {
      SplitJoin(s[1..], c);
      var rest := Split(s[1..], c);
      if s[0] == c {
        assert Split(s, c) == [[]] + rest;
        assert ([[]] + rest)[1..] == rest;
      } else {
        var r := Split(s, c);
        assert r == [[s[0]] + rest[0]] + rest[1..];
        if |rest| == 1 {
          assert r == [[s[0]] + rest[0]];
          assert Join(rest, [c]) == rest[0];
        } else {
          assert r[1..] == rest[1..];
          assert Join(rest, [c]) == rest[0] + [c] + Join(rest[1..], [c]);
        }
      }
    }
  }

  /** The maximal run of non-whitespace characters at the head of `s`. */
  function Token(s: string): (r: string)
    ensures |r| <= |s| && r == s[..|r|]
    ensures forall k :: 0 <= k < |r| ==> !IsByteSpace(r[k])
    ensures |r| == |s| || IsByteSpace(s[|r|])
  {
    if s == [] || IsByteSpace(s[0]) then [] else [s[0]] + Token(s[1..])
  }

  /** Python's `bytes.split()` with no argument: the whitespace-separated words. */
  function Words(s: string): (ws: seq<string>)
    ensures forall k :: 0 <= k < |ws| ==> ws[k] != []
    ensures forall k, j :: 0 <= k < |ws| && 0 <= j < |ws[k]| ==> !IsByteSpace(ws[k][j]) && ws[k][j] in s
    decreases |s|
  {
    if s == [] then []
    else if IsByteSpace(s[0]) then Words(s[1..])
    else
      var w := Token(s);
      [w] + Words(s[|w|..])
  }

  function Concat(ws: seq<string>): string
  {
    if ws == [] then [] else ws[0] + Concat(ws[1..])
  }

  function RemoveSpaces(s: string): string
  {
    if s == [] then [] else (if IsByteSpace(s[0]) then [] else [s[0]]) + RemoveSpaces(s[1..])
  }

  lemma {:induction false} RemoveSpacesAppend(a: string, b: string)
    ensures RemoveSpaces(a + b) == RemoveSpaces(a) + RemoveSpaces(b)
  {
    if a != [] {
      assert (a + b)[1..] == a[1..] + b;
      RemoveSpacesAppend(a[1..], b);
    } else {
      assert a + b == b;
    }
  }

  lemma {:induction false} RemoveSpacesNone(w: string)
    requires forall k :: 0 <= k < |w| ==> !IsByteSpace(w[k])
    ensures RemoveSpaces(w) == w
  {
    if w != [] { RemoveSpacesNone(w[1..]); }
  }

  /** Splitting drops exactly the whitespace: the words, run together, are
      the input with its whitespace removed. */
  lemma {:induction false} WordsConcat(s: string)
    ensures Concat(Words(s)) == RemoveSpaces(s)
    decreases |s|
  {
    if s != [] {
      if IsByteSpace(s[0]) {
        WordsConcat(s[1..]);
      } else {
        var w := Token(s);
        WordsConcat(s[|w|..]);
        assert [w] + Words(s[|w|..]) == Words(s);
        assert ([w] + Words(s[|w|..]))[1..] == Words(s[|w|..]);
        assert s == w + s[|w|..];
        RemoveSpacesAppend(w, s[|w|..]);
        RemoveSpacesNone(w);
      }
    }
  }

  /** `w` is a whole run of non-whitespace in `s`, starting at `p`. */
  ghost predicate MaximalRunAt(s: string, p: nat, w: string) {
    w != [] && p + |w| <= |s| && s[p..p + |w|] == w
    && (forall j :: 0 <= j < |w| ==> !IsByteSpace(w[j]))
    && (p == 0 || IsByteSpace(s[p - 1]))
    && (p + |w| == |s| || IsByteSpace(s[p + |w|]))
  }

  ghost function Shift(ps: seq<nat>, d: nat): (r: seq<nat>)
    ensures |r| == |ps| && forall k :: 0 <= k < |ps| ==> r[k] == ps[k] + d
  {
    seq(|ps|, k requires 0 <= k < |ps| => ps[k] + d)
  }

  /** Where each word of `Words(s)` starts in `s`. */
  ghost function WordStarts(s: string): seq<nat>
    decreases |s|
  {
    if s == [] then []
    else if IsByteSpace(s[0]) then Shift(WordStarts(s[1..]), 1)
    else [0] + Shift(WordStarts(s[|Token(s)|..]), |Token(s)|)
  }

  /** A run of a suffix `s[d..]` is a run of `s` once the character before
      it is whitespace. */
  lemma RunShift(s: string, d: nat, p: nat, w: string)
    requires d <= |s| && MaximalRunAt(s[d..], p, w)
    requires p + d == 0 || (p == 0 ==> IsByteSpace(s[d - 1]))
    ensures MaximalRunAt(s, p + d, w)
  {
    var t := s[d..];
    assert s[p + d..p + d + |w|] == t[p..p + |w|];
    if p > 0 { assert s[p + d - 1] == t[p - 1]; }
    if p + |w| < |t| { assert s[p + d + |w|] == t[p + |w|]; }
  }

  /** Each `ws[k]` is a maximal run of non-whitespace of `s`, at `ps[k]`. */
  ghost predicate RunsAt(s: string, ws: seq<string>, ps: seq<nat>) {
    |ps| == |ws| && forall k :: 0 <= k < |ws| ==> MaximalRunAt(s, ps[k], ws[k])
  }

  /** The runs go left to right, each ending before the next begins. */
  ghost predicate RunsOrdered(ws: seq<string>, ps: seq<nat>) {
    |ps| == |ws| && forall j, k :: 0 <= j < k < |ws| ==> ps[j] + |ws[j]| < ps[k]
  }

  /** Every non-whitespace character of `s` lies in one of the runs. */
  ghost predicate RunsCover(s: string, ws: seq<string>, ps: seq<nat>) {
    |ps| == |ws|
    && forall i :: 0 <= i < |s| && !IsByteSpace(s[i]) ==>
         exists k :: 0 <= k < |ws| && ps[k] <= i < ps[k] + |ws[k]|
  }

  /** `bytes.split()` yields exactly the maximal runs of non-whitespace of
      `s`, left to right, and misses none. */
  lemma {:induction false} WordsAreMaximalRuns(s: string)
    ensures RunsAt(s, Words(s), WordStarts(s))
    ensures RunsOrdered(Words(s), WordStarts(s))
    ensures RunsCover(s, Words(s), WordStarts(s))
    decreases |s|
  {
    if s == [] {
    } else if IsByteSpace(s[0]) {
      var t := s[1..];
      WordsAreMaximalRuns(t);
      assert Words(s) == Words(t) && WordStarts(s) == Shift(WordStarts(t), 1);
      SpaceRunsAt(s, Words(t), WordStarts(t));
      SpaceRunsOrdered(Words(t), WordStarts(t));
      SpaceRunsCover(s, Words(t), WordStarts(t));
    } else {
      var w := Token(s);
      var t := s[|w|..];
      WordsAreMaximalRuns(t);
      assert Words(s) == [w] + Words(t) && WordStarts(s) == [0] + Shift(WordStarts(t), |w|);
      assert MaximalRunAt(s, 0, w);
      LeadRunsAt(s, w, Words(t), WordStarts(t));
      LeadRunsOrdered(s, w, Words(t), WordStarts(t));
      LeadRunsCover(s, w, Words(t), WordStarts(t));
    }
  }

  lemma SpaceRunsAt(s: string, wt: seq<string>, pt: seq<nat>)
    requires s != [] && IsByteSpace(s[0]) && RunsAt(s[1..], wt, pt)
    ensures RunsAt(s, wt, Shift(pt, 1))
  {
    forall k | 0 <= k < |wt| ensures MaximalRunAt(s, pt[k] + 1, wt[k]) {
      RunShift(s, 1, pt[k], wt[k]);
    }
  }

  lemma SpaceRunsOrdered(wt: seq<string>, pt: seq<nat>)
    requires RunsOrdered(wt, pt)
    ensures RunsOrdered(wt, Shift(pt, 1))
  {
  }

  lemma SpaceRunsCover(s: string, wt: seq<string>, pt: seq<nat>)
    requires s != [] && IsByteSpace(s[0]) && RunsCover(s[1..], wt, pt)
    ensures RunsCover(s, wt, Shift(pt, 1))
  {
    var ps := Shift(pt, 1);
    forall i | 0 <= i < |s| && !IsByteSpace(s[i])
      ensures exists k :: 0 <= k < |wt| && ps[k] <= i < ps[k] + |wt[k]|
    {
      assert s[1..][i - 1] == s[i];
      var k :| 0 <= k < |wt| && pt[k] <= i - 1 < pt[k] + |wt[k]|;
      assert ps[k] <= i < ps[k] + |wt[k]|;
    }
  }

  /** The runs of the rest after a leading run `w` start past its end. */
  lemma RestRunsStartLater(s: string, w: string, wt: seq<string>, pt: seq<nat>)
    requires MaximalRunAt(s, 0, w) && RunsAt(s[|w|..], wt, pt)
    ensures forall k :: 0 <= k < |pt| ==> pt[k] >= 1
  {
    var t := s[|w|..];
    forall k | 0 <= k < |pt| ensures pt[k] >= 1 {
      assert MaximalRunAt(t, pt[k], wt[k]);
      assert t[pt[k]] == wt[k][0];
    }
  }

  lemma LeadRunsAt(s: string, w: string, wt: seq<string>, pt: seq<nat>)
    requires MaximalRunAt(s, 0, w) && RunsAt(s[|w|..], wt, pt)
    ensures RunsAt(s, [w] + wt, [0] + Shift(pt, |w|))
  {
    var ws, ps := [w] + wt, [0] + Shift(pt, |w|);
    RestRunsStartLater(s, w, wt, pt);
    forall k | 0 <= k < |ws| ensures MaximalRunAt(s, ps[k], ws[k]) {
      if k > 0 {
        RunShift(s, |w|, pt[k - 1], wt[k - 1]);
      }
    }
  }

  lemma LeadRunsOrdered(s: string, w: string, wt: seq<string>, pt: seq<nat>)
    requires MaximalRunAt(s, 0, w) && RunsAt(s[|w|..], wt, pt) && RunsOrdered(wt, pt)
    ensures RunsOrdered([w] + wt, [0] + Shift(pt, |w|))
  {
    var ws, ps := [w] + wt, [0] + Shift(pt, |w|);
    RestRunsStartLater(s, w, wt, pt);
    forall j, k | 0 <= j < k < |ws| ensures ps[j] + |ws[j]| < ps[k] {
      if j > 0 {
        assert pt[j - 1] + |wt[j - 1]| < pt[k - 1];
      } else {
        assert ps[k] == pt[k - 1] + |w|;
      }
    }
  }

  lemma LeadRunsCover(s: string, w: string, wt: seq<string>, pt: seq<nat>)
    requires MaximalRunAt(s, 0, w) && RunsCover(s[|w|..], wt, pt)
    ensures RunsCover(s, [w] + wt, [0] + Shift(pt, |w|))
  {
    var t := s[|w|..];
    var ws, ps := [w] + wt, [0] + Shift(pt, |w|);
    forall i | 0 <= i < |s| && !IsByteSpace(s[i])
      ensures exists k :: 0 <= k < |ws| && ps[k] <= i < ps[k] + |ws[k]|
    {
      if i < |w| {
        assert ps[0] <= i < ps[0] + |ws[0]|;
      } else {
        assert t[i - |w|] == s[i];
        var k :| 0 <= k < |wt| && pt[k] <= i - |w| < pt[k] + |wt[k]|;
        assert ps[k + 1] <= i < ps[k + 1] + |ws[k + 1]|;
      }
    }
  }

  // ---------------------------------------------------------------------
  // Decimal numbers: Python's `str(n)` and `int(s)` on digit strings

  function DigitChar(d: nat): (c: char)
    requires d < 10
    ensures IsDigit(c)
  {
    ('0' as int + d) as char
  }

  function DigitValue(c: char): (d: nat)
    requires IsDigit(c)
    ensures d < 10 && DigitChar(d) == c
  {
    c as int - '0' as int
  }

  function NatToString(n: nat): (s: string)
    ensures s != [] && AllDigits(s)
  {
    if n < 10 then [DigitChar(n)] else NatToString(n / 10) + [DigitChar(n % 10)]
  }

  function DigitsValue(s: string): nat
    requires AllDigits(s)
  {
    if s == [] then 0 else 10 * DigitsValue(s[..|s| - 1]) + DigitValue(s[|s| - 1])
  }

  /** `int(s)` for a string of decimal digits; `None` where `int` raises. */
  function ParseNat(s: string): (r: Option<nat>)
    ensures r.Some? <==> s != [] && AllDigits(s)
  {
    if s != [] && AllDigits(s) then Some(DigitsValue(s)) else None
  }

  lemma {:induction false} ParseNatToString(n: nat)
    ensures ParseNat(NatToString(n)) == Some(n)
  {
    var s := NatToString(n);
    if n >= 10 {
      ParseNatToString(n / 10);
      assert s[..|s| - 1] == NatToString(n / 10);
      assert DigitValue(DigitChar(n % 10)) == n % 10;
    } else {
      assert s == [DigitChar(n)] && s[..|s| - 1] == [];
      assert DigitValue(DigitChar(n)) == n;
      assert DigitsValue(s) == 10 * DigitsValue([]) + DigitValue(s[0]);
    }
  }

  lemma NatToStringInjective(m: nat, n: nat)
    requires NatToString(m) == NatToString(n)
    ensures m == n
  {
    ParseNatToString(m);
    ParseNatToString(n);
  }

  // ---------------------------------------------------------------------
  // Sequences

  datatype Option<+T> = None | Some(value: T)

  /** Python's `list.reverse()`, as a value. */
  function Reverse<T>(s: seq<T>): seq<T>
  {
    if s == [] then [] else [s[|s| - 1]] + Reverse(s[..|s| - 1])
  }

  lemma {:induction false} ReverseIndex<T>(s: seq<T>)
    ensures |Reverse(s)| == |s|
    ensures forall k :: 0 <= k < |s| ==> Reverse(s)[k] == s[|s| - 1 - k]
  {
    if s != [] {
      var init := s[..|s| - 1];
      ReverseIndex(init);
      forall k | 0 <= k < |s| ensures Reverse(s)[k] == s[|s| - 1 - k] {
        if k > 0 { assert Reverse(s)[k] == Reverse(init)[k - 1]; }
      }
    }
  }
}
