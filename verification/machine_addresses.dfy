/** Host discovery: the worker addresses are every dotted quad found in the
    URL listing of the running machines, in the order they appear.

    The pattern is `[0-9]+(?:\.[0-9]+){3}` applied with `re.findall`: scan
    left to right; at each position try the pattern; on a match record it
    and resume at its end, otherwise move one character on. Python's
    backtracking matcher tries the greedy choice first. For this pattern
    the greedy choice can only succeed when every digit group is a maximal
    run (a shorter earlier group would be followed by a digit, not a dot),
    so the match at a position is the longest dotted quad starting there. */
module MachineAddresses {
  import opened Wrappers
  import opened Text

  predicate IsDigit(c: char)
  {
    '0' <= c <= '9'
  }

  /** A non-empty run of decimal digits: what `[0-9]+` matches. */
  predicate DigitRun(s: string)
  {
    |s| > 0 && forall k :: 0 <= k < |s| ==> IsDigit(s[k])
  }

  /** `w` is `n` digit runs joined by dots. */
  predicate Groups(w: string, n: nat)
  {
    var p := Split(w, '.');
    |p| == n && forall k :: 0 <= k < n ==> DigitRun(p[k])
  }

  /** The language of the pattern: four digit runs joined by dots. */
  predicate IsQuad(w: string)
  {
    Groups(w, 4)
  }

  /** The end of the maximal digit run starting at `i`. */
  function RunEnd(text: string, i: nat): (r: nat)
    requires i <= |text|
    ensures i <= r <= |text|
    ensures forall k :: i <= k < r ==> IsDigit(text[k])
    ensures r == |text| || !IsDigit(text[r])
    decreases |text| - i
  {
    if i == |text| || !IsDigit(text[i]) then i else RunEnd(text, i + 1)
  }

  /** A digit run that stops at `j` ends the maximal run at `j`. */
  lemma {:induction false} RunEndAt(text: string, i: nat, j: nat)
    requires i <= j <= |text|
    requires forall k :: i <= k < j ==> IsDigit(text[k])
    requires j == |text| || !IsDigit(text[j])
    ensures RunEnd(text, i) == j
    decreases j - i
  {
    if i < j {
      RunEndAt(text, i + 1, j);
    }
  }

  /** One digit run is a single group. */
  lemma OneGroup(w: string)
    requires Groups(w, 1)
    ensures DigitRun(w)
  {
    JoinSplit(w, '.');
  }

  /** Several groups: the first run, a dot, and the remaining groups. */
  lemma GroupsHead(w: string, g: nat) returns (a: string, rest: string)
    requires g >= 1 && Groups(w, g + 1)
    ensures w == a + ['.'] + rest && DigitRun(a) && Groups(rest, g)
  {
    var p := Split(w, '.');
    JoinSplit(w, '.');
    a, rest := p[0], Join(p[1..], '.');
    assert w == a + ['.'] + rest;
    SplitJoin(p[1..], '.');
    assert Split(rest, '.') == p[1..];
    forall k | 0 <= k < g ensures DigitRun(Split(rest, '.')[k]) {
      assert Split(rest, '.')[k] == p[k + 1];
    }
  }

  /** The matcher for a digit run followed by `g` more `\.[0-9]+` groups,
      starting at `i`: the end of the match, or None. */
  function ScanGroups(text: string, i: nat, g: nat): (r: Option<nat>)
    requires i <= |text|
    ensures r.Some? ==> i < r.value <= |text|
    decreases g
  {
    var e := RunEnd(text, i);
    if e == i then None
    else if g == 0 then Some(e)
    else if e < |text| && text[e] == '.' then ScanGroups(text, e + 1, g - 1)
    else None
  }

  /** A digit run followed by a dot and `g` groups is `g + 1` groups. */
  lemma GroupsCons(a: string, b: string, g: nat)
    requires DigitRun(a) && Groups(b, g)
    ensures Groups(a + ['.'] + b, g + 1)
  {
    assert '.' !in a;
    SplitFirstPiece(a, '.', b);
    var p := Split(a + ['.'] + b, '.');
    forall k | 1 <= k < g + 1 ensures DigitRun(p[k]) {
      assert p[k] == Split(b, '.')[k - 1];
    }
  }

  /** A digit run alone is one group. */
  lemma GroupsOne(a: string)
    requires DigitRun(a)
    ensures Groups(a, 1)
  {
    assert '.' !in a;
    SplitNoSeparator(a, '.');
  }

  /** The maximal run starting at `i`, when non-empty, is a digit run. */
  lemma RunDigits(text: string, i: nat)
    requires i <= |text| && i < RunEnd(text, i)
    ensures DigitRun(text[i..RunEnd(text, i)])
  {
    var a := text[i..RunEnd(text, i)];
    forall k | 0 <= k < |a| ensures IsDigit(a[k]) {
      assert a[k] == text[i + k];
    }
  }

  /** A slice cut around one of its characters. */
  lemma SliceAround(s: string, i: nat, j: nat, k: nat)
    requires i <= j < k <= |s|
    ensures s[i..k] == s[i..j] + [s[j]] + s[j + 1..k]
  {
  }

  /** What the scanner matches is `g + 1` digit runs joined by dots. */
  lemma {:induction false} ScanSound(text: string, i: nat, g: nat)
    requires i <= |text|
    requires ScanGroups(text, i, g).Some?
    ensures Groups(text[i..ScanGroups(text, i, g).value], g + 1)
    decreases g
  {
    var e1 := RunEnd(text, i);
    RunDigits(text, i);
    var e := ScanGroups(text, i, g).value;
    if g == 0 {
      GroupsOne(text[i..e1]);
    } else {
      assert ScanGroups(text, i, g) == ScanGroups(text, e1 + 1, g - 1);
      ScanSound(text, e1 + 1, g - 1);
      SliceAround(text, i, e1, e);
      GroupsCons(text[i..e1], text[e1 + 1..e], g);
    }
  }

  /** The scanner only runs over digits and dots. */
  lemma {:induction false} ScanChars(text: string, i: nat, g: nat)
    requires i <= |text|
    requires ScanGroups(text, i, g).Some?
    ensures forall k :: i <= k < ScanGroups(text, i, g).value ==> IsDigit(text[k]) || text[k] == '.'
    decreases g
  {
    if g > 0 {
      var e1 := RunEnd(text, i);
      assert ScanGroups(text, i, g) == ScanGroups(text, e1 + 1, g - 1);
      ScanChars(text, e1 + 1, g - 1);
    }
  }

  /** Every `g + 1` dotted digit runs starting at `i` end at or before the
      point the scanner reaches. */
  lemma {:induction false} ScanGreatest(text: string, i: nat, g: nat, e': nat)
    requires i <= e' <= |text|
    requires Groups(text[i..e'], g + 1)
    ensures ScanGroups(text, i, g).Some? && e' <= ScanGroups(text, i, g).value
    decreases g
  {
    var w := text[i..e'];
    if g == 0 {
      OneGroup(w);
      RunReaches(text, i, e');
      ScanLast(text, i);
    } else {
      GreatestHead(text, i, g, e');
      ScanStep(text, i, g);
      ScanGreatest(text, RunEnd(text, i) + 1, g - 1, e');
    }
  }

  /** Dotted digit runs start with the maximal run at `i` and a dot, and
      the remaining groups follow that dot. */
  lemma GreatestHead(text: string, i: nat, g: nat, e': nat)
    requires g >= 1 && i <= e' <= |text|
    requires Groups(text[i..e'], g + 1)
    ensures i < RunEnd(text, i) < e' && text[RunEnd(text, i)] == '.'
    ensures Groups(text[RunEnd(text, i) + 1..e'], g)
  {
    var a, rest := GroupsHead(text[i..e'], g);
    HeadRun(text, i, e', a, rest);
  }

  /** With no dots left to cross, the scanner stops at the end of the run. */
  lemma ScanLast(text: string, i: nat)
    requires i < |text| && i < RunEnd(text, i)
    ensures ScanGroups(text, i, 0) == Some(RunEnd(text, i))
  {
  }

  /** A non-empty run followed by a dot hands the scan on past the dot. */
  lemma ScanStep(text: string, i: nat, g: nat)
    requires g > 0 && i <= |text| && i < RunEnd(text, i) < |text|
    requires text[RunEnd(text, i)] == '.'
    ensures ScanGroups(text, i, g) == ScanGroups(text, RunEnd(text, i) + 1, g - 1)
  {
  }

  /** A digit run from `i` to `e'` is covered by the maximal run at `i`. */
  lemma RunReaches(text: string, i: nat, e': nat)
    requires i <= e' <= |text| && DigitRun(text[i..e'])
    ensures i < e' <= RunEnd(text, i)
  {
    var w := text[i..e'];
    forall k | i <= k < e' ensures IsDigit(text[k]) {
      assert text[k] == w[k - i];
    }
  }

  /** A leading digit run followed by a dot ends the maximal run there. */
  lemma HeadRun(text: string, i: nat, e': nat, a: string, rest: string)
    requires i <= e' <= |text|
    requires text[i..e'] == a + ['.'] + rest && DigitRun(a)
    ensures RunEnd(text, i) == i + |a| && text[i + |a|] == '.'
    ensures text[i + |a| + 1..e'] == rest
  {
    var w := text[i..e'];
    var n := |a|;
    forall k | i <= k < i + n ensures IsDigit(text[k]) {
      assert text[k] == w[k - i] == a[k - i];
    }
    assert text[i + n] == w[n] == '.';
    RunEndAt(text, i, i + n);
    assert text[i + n + 1..e'] == w[n + 1..];
  }

  /** The pattern's match at `pos`: the end of the longest dotted quad that
      starts there (MatchIsQuad, MatchLongest), or None when none does. */
  function MatchAt(text: string, pos: nat): (r: Option<nat>)
    requires pos <= |text|
    ensures r.Some? ==> pos < r.value <= |text|
  {
    ScanGroups(text, pos, 3)
  }

  /** What the pattern matches is a dotted quad. */
  lemma MatchIsQuad(text: string, pos: nat)
    requires pos <= |text| && MatchAt(text, pos).Some?
    ensures IsQuad(text[pos..MatchAt(text, pos).value])
  {
    ScanSound(text, pos, 3);
  }

  /** Every dotted quad starting at `pos` is matched there, and the match
      extends at least as far: the pattern finds the longest one. */
  lemma MatchLongest(text: string, pos: nat, e: nat)
    requires pos <= e <= |text| && IsQuad(text[pos..e])
    ensures MatchAt(text, pos).Some? && e <= MatchAt(text, pos).value
  {
    ScanGreatest(text, pos, 3, e);
  }

  /** A position where the pattern cannot start: not a digit. */
  lemma NonDigitNoMatch(text: string, q: nat)
    requires q < |text| && !IsDigit(text[q])
    ensures MatchAt(text, q).None?
  {
    assert RunEnd(text, q) == q;
  }

  /** A match never runs over a character that is neither a digit nor a
      dot. */
  lemma MatchStops(text: string, pos: nat, j: nat)
    requires pos <= j < |text|
    requires !IsDigit(text[j]) && text[j] != '.'
    ensures MatchAt(text, pos).None? || MatchAt(text, pos).value <= j
  {
    if ScanGroups(text, pos, 3).Some? {
      ScanChars(text, pos, 3);
    }
  }

  /** A quad needs three dots, so a match consumes three of them. */
  lemma MatchDots(text: string, pos: nat)
    requires pos <= |text|
    ensures Count(text[pos..], '.') < 3 ==> MatchAt(text, pos).None?
  {
    var r := MatchAt(text, pos);
    if r.Some? {
      var e := r.value;
      MatchIsQuad(text, pos);
      assert |Split(text[pos..e], '.')| == 4;
      assert text[pos..][0..e - pos] == text[pos..e];
      CountInfix(text[pos..], 0, e - pos, '.');
    }
  }

  // ---------------------------------------------------------------------
  // `re.findall`.

  /** Where a match lies in the scanned text. */
  datatype Span = Span(start: nat, end: nat)

  /** A matcher over a text of length `n`: the end of the match starting at
      each position, or None. A proper matcher only reports non-empty
      matches inside the text. */
  type Matcher = nat -> Option<nat>

  ghost predicate Proper(n: nat, m: Matcher)
  {
    forall q: nat :: q < n && m(q).Some? ==> q < m(q).value <= n
  }

  /** The scan of `re.findall` from `pos` on: try the matcher at `pos`; on
      a match keep it and resume at its end, otherwise move one character
      on. */
  function FindSpans(n: nat, pos: nat, m: Matcher): (sp: seq<Span>)
    requires pos <= n && Proper(n, m)
    ensures forall k :: 0 <= k < |sp| ==> pos <= sp[k].start < sp[k].end <= n
    decreases n - pos
  {
    if pos == n then []
    else
      match m(pos)
      case Some(e) => [Span(pos, e)] + FindSpans(n, e, m)
      case None => FindSpans(n, pos + 1, m)
  }

  /** The span is the matcher's match at its start. */
  predicate IsMatch(m: Matcher, s: Span)
  {
    m(s.start) == Some(s.end)
  }

  /** Each reported span is the matcher's match at its start. */
  lemma {:induction false} FindSpansMatches(n: nat, pos: nat, m: Matcher)
    requires pos <= n && Proper(n, m)
    ensures forall k :: 0 <= k < |FindSpans(n, pos, m)| ==> IsMatch(m, FindSpans(n, pos, m)[k])
    decreases n - pos
  {
    if pos < n {
      if m(pos).Some? {
        var e := m(pos).value;
        FindSpansMatches(n, e, m);
        var rest := FindSpans(n, e, m);
        var sp := FindSpans(n, pos, m);
        assert sp == [Span(pos, e)] + rest;
        forall k | 0 <= k < |sp| ensures IsMatch(m, sp[k]) {
          if k > 0 {
            assert sp[k] == rest[k - 1];
          }
        }
      } else {
        FindSpansMatches(n, pos + 1, m);
      }
    }
  }

  /** The reported spans are in order and do not overlap. */
  lemma {:induction false} FindSpansOrdered(n: nat, pos: nat, m: Matcher)
    requires pos <= n && Proper(n, m)
    ensures forall k :: 0 <= k < |FindSpans(n, pos, m)| - 1 ==>
      FindSpans(n, pos, m)[k].end <= FindSpans(n, pos, m)[k + 1].start
    decreases n - pos
  {
    if pos < n {
      if m(pos).Some? {
        var e := m(pos).value;
        FindSpansOrdered(n, e, m);
        var rest := FindSpans(n, e, m);
        var sp := FindSpans(n, pos, m);
        assert sp == [Span(pos, e)] + rest;
        forall k | 0 <= k < |sp| - 1 ensures sp[k].end <= sp[k + 1].start {
          assert sp[k + 1] == rest[k];
          if k > 0 {
            assert sp[k] == rest[k - 1];
          }
        }
      } else {
        FindSpansOrdered(n, pos + 1, m);
      }
    }
  }

  /** Some span contains position `q`. */
  ghost predicate Covered(sp: seq<Span>, q: nat)
  {
    exists k :: 0 <= k < |sp| && sp[k].start <= q < sp[k].end
  }

  /** Leftmost: every position from `pos` on where the matcher matches is
      the start of a reported span or lies inside one, so no match is
      passed over. */
  lemma {:induction false} FindSpansLeftmost(n: nat, pos: nat, m: Matcher)
    requires pos <= n && Proper(n, m)
    ensures forall q :: pos <= q < n && m(q).Some? ==> Covered(FindSpans(n, pos, m), q)
    decreases n - pos
  {
    if pos < n {
      var sp := FindSpans(n, pos, m);
      if m(pos).Some? {
        var e := m(pos).value;
        FindSpansLeftmost(n, e, m);
        var rest := FindSpans(n, e, m);
        assert sp == [Span(pos, e)] + rest;
        forall q | pos <= q < n && m(q).Some? ensures Covered(sp, q) {
          if q < e {
            assert sp[0].start <= q < sp[0].end;
          } else {
            var k :| 0 <= k < |rest| && rest[k].start <= q < rest[k].end;
            assert sp[k + 1] == rest[k];
          }
        }
      } else {
        FindSpansLeftmost(n, pos + 1, m);
      }
    }
  }

  /** Positions where the matcher does not match are passed over. */
  lemma {:induction false} FindSpansSkip(n: nat, pos: nat, q: nat, m: Matcher)
    requires pos <= q <= n && Proper(n, m)
    requires forall k :: pos <= k < q ==> m(k).None?
    ensures FindSpans(n, pos, m) == FindSpans(n, q, m)
    decreases q - pos
  {
    if pos < q {
      FindSpansSkip(n, pos + 1, q, m);
    }
  }

  /** One match between two stretches without matches. */
  lemma FindSpansOne(n: nat, pos: nat, a: nat, b: nat, d: nat, m: Matcher)
    requires pos <= a < b <= d <= n && Proper(n, m)
    requires forall k :: pos <= k < a ==> m(k).None?
    requires m(a) == Some(b)
    requires forall k :: b <= k < d ==> m(k).None?
    ensures FindSpans(n, pos, m) == [Span(a, b)] + FindSpans(n, d, m)
  {
    FindSpansSkip(n, pos, a, m);
    FindSpansSkip(n, b, d, m);
  }

  /** The pattern as a matcher over `text`. */
  function PatternMatcher(text: string): (m: Matcher)
    ensures Proper(|text|, m)
    ensures forall q: nat :: q <= |text| ==> m(q) == MatchAt(text, q)
  {
    (q: nat) => if q <= |text| then MatchAt(text, q) else None
  }

  /** The matches `re.findall` reports from `pos` on. */
  function Spans(text: string, pos: nat): (sp: seq<Span>)
    requires pos <= |text|
    ensures forall k :: 0 <= k < |sp| ==> pos <= sp[k].start <= sp[k].end <= |text|
  {
    FindSpans(|text|, pos, PatternMatcher(text))
  }

  /** The text of each span, in order. */
  function Texts(text: string, sp: seq<Span>): (ws: seq<string>)
    requires forall k :: 0 <= k < |sp| ==> sp[k].start <= sp[k].end <= |text|
    ensures |ws| == |sp|
  {
    if |sp| == 0 then [] else [text[sp[0].start..sp[0].end]] + Texts(text, sp[1..])
  }

  /** The addresses found in the output of `docker-machine ls` (fabfile.py
      line 31): every one is a dotted quad. */
  function FindAll(text: string): (hosts: seq<string>)
    ensures forall k :: 0 <= k < |hosts| ==> IsQuad(hosts[k])
  {
    var sp := Spans(text, 0);
    FindSpansMatches(|text|, 0, PatternMatcher(text));
    TextsAreQuads(text, sp);
    Texts(text, sp)
  }

  /** The `k`-th text is the text of the `k`-th span. */
  lemma {:induction false} TextsAt(text: string, sp: seq<Span>, k: nat)
    requires forall j :: 0 <= j < |sp| ==> sp[j].start <= sp[j].end <= |text|
    requires k < |sp|
    ensures Texts(text, sp)[k] == text[sp[k].start..sp[k].end]
    decreases k
  {
    if k > 0 {
      TextsAt(text, sp[1..], k - 1);
    }
  }

  /** The texts of a list of spans that starts with `a .. b`: the text
      there, then the texts of the rest. */
  lemma TextsCons(text: string, sp: seq<Span>, a: nat, b: nat, rest: seq<Span>)
    requires forall k :: 0 <= k < |sp| ==> sp[k].start <= sp[k].end <= |text|
    requires sp == [Span(a, b)] + rest && a <= b <= |text|
    ensures forall k :: 0 <= k < |rest| ==> rest[k].start <= rest[k].end <= |text|
    ensures Texts(text, sp) == [text[a..b]] + Texts(text, rest)
  {
    assert sp[1..] == rest;
    forall k | 0 <= k < |rest| ensures rest[k].start <= rest[k].end <= |text| {
      assert rest[k] == sp[k + 1];
    }
  }

  lemma TextsAreQuads(text: string, sp: seq<Span>)
    requires forall k :: 0 <= k < |sp| ==> sp[k].start <= sp[k].end <= |text|
    requires forall k :: 0 <= k < |sp| ==> IsMatch(PatternMatcher(text), sp[k])
    ensures forall k :: 0 <= k < |Texts(text, sp)| ==> IsQuad(Texts(text, sp)[k])
  {
    forall k | 0 <= k < |sp| ensures IsQuad(Texts(text, sp)[k]) {
      TextsAt(text, sp, k);
      MatchIsQuad(text, sp[k].start);
    }
  }

  /** With fewer than three dots left there is nothing more to find. */
  lemma {:induction false} FewDotsNoAddress(text: string, pos: nat)
    requires pos <= |text|
    requires Count(text[pos..], '.') < 3
    ensures Spans(text, pos) == []
  {
    FewDotsNoMatch(text, pos);
    PatternNone(text, pos, |text|);
    FindSpansSkip(|text|, pos, |text|, PatternMatcher(text));
  }

  /** With fewer than three dots left no match starts. */
  lemma FewDotsNoMatch(text: string, pos: nat)
    requires pos <= |text|
    requires Count(text[pos..], '.') < 3
    ensures forall q :: pos <= q < |text| ==> MatchAt(text, q).None?
  {
    forall q | pos <= q < |text| ensures MatchAt(text, q).None? {
      var t := text[pos..];
      assert t[q - pos..|t|] == text[q..];
      CountInfix(t, q - pos, |t|, '.');
      MatchDots(text, q);
    }
  }

  /** Inside a digit run that is not followed by a dot, no match starts. */
  lemma RunWithoutDot(text: string, q: nat, j: nat)
    requires q <= j <= |text|
    requires forall k :: q <= k < j ==> IsDigit(text[k])
    requires j == |text| || (!IsDigit(text[j]) && text[j] != '.')
    ensures forall k :: q <= k < j ==> MatchAt(text, k).None?
  {
    forall k | q <= k < j ensures MatchAt(text, k).None? {
      RunEndAt(text, k, j);
    }
  }

  // ---------------------------------------------------------------------
  // The URL listing of the running machines.

  /** A machine's Docker endpoint: its address and port. */
  datatype Endpoint = Endpoint(address: string, port: string)

  /** How `docker-machine ls --format '{{.URL}}'` prints one machine. */
  function Url(m: Endpoint): string
  {
    "tcp://" + m.address + ":" + m.port
  }

  /** One URL per line, as `local(..., capture=True)` returns them (no
      trailing newline). */
  function Listing(ms: seq<Endpoint>): string
  {
    if |ms| == 0 then ""
    else if |ms| == 1 then Url(ms[0])
    else Url(ms[0]) + "\n" + Listing(ms[1..])
  }

  function Addresses(ms: seq<Endpoint>): (hosts: seq<string>)
    ensures |hosts| == |ms|
    ensures forall k :: 0 <= k < |ms| ==> hosts[k] == ms[k].address
  {
    if |ms| == 0 then [] else [ms[0].address] + Addresses(ms[1..])
  }

  predicate ValidEndpoint(m: Endpoint)
  {
    IsQuad(m.address) && DigitRun(m.port)
  }

  /** The pieces of a URL in the text. */
  lemma UrlParts(text: string, pos: nat, m: Endpoint)
    requires pos + |Url(m)| <= |text| && text[pos..pos + |Url(m)|] == Url(m)
    ensures var b := pos + 6 + |m.address|;
      && text[pos..pos + 6] == "tcp://"
      && text[pos + 6..b] == m.address
      && text[b] == ':'
      && text[b + 1..pos + |Url(m)|] == m.port
  {
    var u := Url(m);
    var d := pos + |u|;
    var b := pos + 6 + |m.address|;
    var scheme, host := "tcp://", "tcp://" + m.address;
    var prefix := host + ":";
    assert u == prefix + m.port;
    var t := text[pos..d];
    SliceIn(text, pos, d, 0, 6);
    PrefixSlice(prefix, m.port, 0, 6);
    PrefixSlice(host, ":", 0, 6);
    PrefixSlice(scheme, m.address, 0, 6);
    assert scheme[0..6] == scheme;
    SliceIn(text, pos, d, 6, |host|);
    PrefixSlice(prefix, m.port, 6, |host|);
    PrefixSlice(host, ":", 6, |host|);
    SuffixSlice(scheme, m.address);
    assert text[b] == t[|host|] == prefix[|host|];
    SliceIn(text, pos, d, |prefix|, |t|);
    SuffixSlice(prefix, m.port);
  }

  /** A slice inside the first part of a concatenation. */
  lemma PrefixSlice(x: string, y: string, k: nat, l: nat)
    requires k <= l <= |x|
    ensures (x + y)[k..l] == x[k..l]
  {
    forall q | 0 <= q < l - k ensures (x + y)[k..l][q] == x[k..l][q] {
      assert (x + y)[k..l][q] == (x + y)[k + q];
    }
  }

  /** The second part of a concatenation, sliced back out. */
  lemma SuffixSlice(x: string, y: string)
    ensures (x + y)[|x|..|x| + |y|] == y
  {
    forall q | 0 <= q < |y| ensures (x + y)[|x|..|x| + |y|][q] == y[q] {
      assert (x + y)[|x|..|x| + |y|][q] == (x + y)[|x| + q];
    }
  }

  /** A slice of a slice is a slice of the whole. */
  lemma SliceIn(s: string, i: nat, j: nat, k: nat, l: nat)
    requires i <= j <= |s| && k <= l <= j - i
    ensures s[i..j][k..l] == s[i + k..i + l]
  {
    forall q | 0 <= q < l - k ensures s[i..j][k..l][q] == s[i + k..i + l][q] {
      assert s[i..j][k..l][q] == s[i..j][k + q] == s[i + k + q];
    }
  }

  /** The matcher's verdicts along one URL line that starts at `pos` and is
      followed by the end of the text or a newline: no match before the
      address, the address matched whole, no match from its end up to
      `next`, the start of the following line. */
  lemma LineMatches(text: string, pos: nat, m: Endpoint, next: nat)
    requires ValidEndpoint(m)
    requires pos + |Url(m)| <= |text| && text[pos..pos + |Url(m)|] == Url(m)
    requires pos + |Url(m)| == |text| || text[pos + |Url(m)|] == '\n'
    requires next == pos + |Url(m)| || (pos + |Url(m)| < |text| && next == pos + |Url(m)| + 1)
    ensures text[pos + 6..pos + 6 + |m.address|] == m.address
    ensures forall k: nat :: pos <= k < pos + 6 ==> PatternMatcher(text)(k).None?
    ensures PatternMatcher(text)(pos + 6) == Some(pos + 6 + |m.address|)
    ensures forall k: nat :: pos + 6 + |m.address| <= k < next ==> PatternMatcher(text)(k).None?
  {
    var a := pos + 6;
    var b := a + |m.address|;
    var d := pos + |Url(m)|;
    UrlParts(text, pos, m);
    PortNoMatch(text, b + 1, d, m.port);
    SchemeNoMatch(text, pos, a);
    if next > d {
      NonDigitNoMatch(text, d);
    }
    NonDigitNoMatch(text, b);
    AddressMatch(text, a, b);
    PatternNone(text, pos, a);
    PatternSome(text, a, b);
    PatternNone(text, b, next);
  }

  /** No match starts inside the `tcp://` scheme. */
  lemma SchemeNoMatch(text: string, pos: nat, a: nat)
    requires pos <= a <= |text| && text[pos..a] == "tcp://"
    ensures forall k :: pos <= k < a ==> MatchAt(text, k).None?
  {
    forall k | pos <= k < a ensures MatchAt(text, k).None? {
      assert text[k] == text[pos..a][k - pos];
      NonDigitNoMatch(text, k);
    }
  }

  /** The address is matched whole: it is a quad and the colon stops it. */
  lemma AddressMatch(text: string, a: nat, b: nat)
    requires a <= b < |text| && IsQuad(text[a..b]) && text[b] == ':'
    ensures MatchAt(text, a) == Some(b)
  {
    MatchLongest(text, a, b);
    MatchStops(text, a, b);
  }

  /** No match starts inside the port number. */
  lemma PortNoMatch(text: string, c: nat, d: nat, port: string)
    requires c <= d <= |text| && text[c..d] == port && DigitRun(port)
    requires d == |text| || text[d] == '\n'
    ensures forall k :: c <= k < d ==> MatchAt(text, k).None?
  {
    forall k | c <= k < d ensures IsDigit(text[k]) {
      assert text[k] == port[k - c];
    }
    RunWithoutDot(text, c, d);
  }

  /** A listing is its first URL followed by the rest, one newline apart. */
  lemma ListingCons(ms: seq<Endpoint>)
    requires |ms| >= 1
    ensures Listing(ms) == Url(ms[0]) + (if |ms| == 1 then "" else "\n" + Listing(ms[1..]))
  {
  }

  /** Where the first line of a listing ends and the next one starts. */
  function NextLine(pos: nat, ms: seq<Endpoint>): nat
    requires |ms| >= 1
  {
    pos + |Url(ms[0])| + (if |ms| == 1 then 0 else 1)
  }

  /** The text from `pos` on holds the listing of `ms`, line by line. */
  ghost predicate ListedAt(text: string, pos: nat, ms: seq<Endpoint>)
    decreases |ms|
  {
    if |ms| == 0 then pos == |text|
    else
      var d := pos + |Url(ms[0])|;
      && d <= |text| && text[pos..d] == Url(ms[0])
      && if |ms| == 1 then d == |text|
         else d < |text| && text[d] == '\n' && ListedAt(text, d + 1, ms[1..])
  }

  /** A listing written out from `pos` on is listed there line by line. */
  lemma {:induction false} ListingListed(text: string, pos: nat, ms: seq<Endpoint>)
    requires pos <= |text| && text[pos..] == Listing(ms)
    ensures ListedAt(text, pos, ms)
    decreases |ms|
  {
    if |ms| > 0 {
      ListingHead(text, pos, ms);
      if |ms| > 1 {
        ListingListed(text, pos + |Url(ms[0])| + 1, ms[1..]);
      }
    }
  }

  /** The first line of a listing written out from `pos` on. */
  lemma ListingHead(text: string, pos: nat, ms: seq<Endpoint>)
    requires |ms| >= 1
    requires pos <= |text| && text[pos..] == Listing(ms)
    ensures pos + |Url(ms[0])| <= |text| && text[pos..pos + |Url(ms[0])|] == Url(ms[0])
    ensures |ms| == 1 ==> pos + |Url(ms[0])| == |text|
    ensures |ms| > 1 ==>
      && pos + |Url(ms[0])| < |text| && text[pos + |Url(ms[0])|] == '\n'
      && text[pos + |Url(ms[0])| + 1..] == Listing(ms[1..])
  {
    ListingCons(ms);
    var u := Url(ms[0]);
    var d := pos + |u|;
    var rest := if |ms| == 1 then "" else "\n" + Listing(ms[1..]);
    var t := text[pos..];
    assert t == u + rest;
    assert t[..|u|] == u && t[|u|..] == rest;
    assert text[pos..d] == t[..|u|];
    if |ms| > 1 {
      assert rest[0] == '\n' && rest[1..] == Listing(ms[1..]);
      assert text[d] == t[|u|] == rest[0];
      assert text[d + 1..] == t[|u| + 1..] == rest[1..];
    }
  }

  /** What the matcher reports along the first line of a listing at `pos`:
      no match before the address, the address matched whole, and no match
      from its end to the start of the next line. */
  ghost predicate LineVerdicts(m: Matcher, pos: nat, ms: seq<Endpoint>)
    requires |ms| >= 1
  {
    var a := pos + 6;
    var b := a + |ms[0].address|;
    && (forall k: nat :: pos <= k < a ==> m(k).None?)
    && m(a) == Some(b)
    && (forall k: nat :: b <= k < NextLine(pos, ms) ==> m(k).None?)
  }

  /** Those verdicts for every line of a listing at `pos`. */
  ghost predicate ListingVerdicts(m: Matcher, pos: nat, ms: seq<Endpoint>)
    decreases |ms|
  {
    |ms| > 0 ==> LineVerdicts(m, pos, ms) && ListingVerdicts(m, NextLine(pos, ms), ms[1..])
  }

  /** The pattern gives those verdicts on a listing of valid endpoints. */
  lemma {:induction false} PatternVerdicts(text: string, pos: nat, ms: seq<Endpoint>)
    requires forall k :: 0 <= k < |ms| ==> ValidEndpoint(ms[k])
    requires ListedAt(text, pos, ms)
    ensures ListingVerdicts(PatternMatcher(text), pos, ms)
    decreases |ms|
  {
    if |ms| > 0 {
      FirstLineVerdicts(text, pos, ms);
      PatternVerdicts(text, NextLine(pos, ms), ms[1..]);
    }
  }

  /** The pattern's verdicts along the first line of a listing. */
  lemma FirstLineVerdicts(text: string, pos: nat, ms: seq<Endpoint>)
    requires |ms| >= 1 && ValidEndpoint(ms[0])
    requires ListedAt(text, pos, ms)
    ensures LineVerdicts(PatternMatcher(text), pos, ms)
  {
    LineMatches(text, pos, ms[0], NextLine(pos, ms));
  }

  /** Positions where the pattern does not match, seen through its matcher. */
  lemma PatternNone(text: string, lo: nat, hi: nat)
    requires hi <= |text|
    requires forall k :: lo <= k < hi ==> MatchAt(text, k).None?
    ensures forall k: nat :: lo <= k < hi ==> PatternMatcher(text)(k).None?
  {
  }

  /** A position where the pattern matches, seen through its matcher. */
  lemma PatternSome(text: string, a: nat, b: nat)
    requires a <= |text| && MatchAt(text, a) == Some(b)
    ensures PatternMatcher(text)(a) == Some(b)
  {
  }

  /** Any matcher with those verdicts makes `re.findall` report exactly the
      addresses of the listing, in order. */
  lemma {:induction false} ListingFound(text: string, pos: nat, ms: seq<Endpoint>, m: Matcher)
    requires Proper(|text|, m)
    requires ListedAt(text, pos, ms)
    requires ListingVerdicts(m, pos, ms)
    ensures Texts(text, FindSpans(|text|, pos, m)) == Addresses(ms)
    decreases |ms|
  {
    if |ms| == 0 {
      assert FindSpans(|text|, pos, m) == [];
    } else {
      var next := NextLine(pos, ms);
      FirstLineFound(text, pos, ms, m);
      ListingFound(text, next, ms[1..], m);
      assert Addresses(ms) == [ms[0].address] + Addresses(ms[1..]);
    }
  }

  /** The first line of a listing contributes its address, and the scan
      goes on at the next line. */
  lemma FirstLineFound(text: string, pos: nat, ms: seq<Endpoint>, m: Matcher)
    requires Proper(|text|, m)
    requires |ms| >= 1 && ListedAt(text, pos, ms) && LineVerdicts(m, pos, ms)
    ensures NextLine(pos, ms) <= |text|
    ensures Texts(text, FindSpans(|text|, pos, m)) ==
      [ms[0].address] + Texts(text, FindSpans(|text|, NextLine(pos, ms), m))
  {
    FirstLineText(text, pos, ms);
    LineFound(text, pos, pos + 6, pos + 6 + |ms[0].address|, NextLine(pos, ms), m, ms[0].address);
  }

  /** Where the first address of a listing lies. */
  lemma FirstLineText(text: string, pos: nat, ms: seq<Endpoint>)
    requires |ms| >= 1 && ListedAt(text, pos, ms)
    ensures pos + 6 + |ms[0].address| < NextLine(pos, ms) <= |text|
    ensures text[pos + 6..pos + 6 + |ms[0].address|] == ms[0].address
  {
    UrlParts(text, pos, ms[0]);
  }

  /** A line whose only match is `a .. b`, holding `w`, contributes `w`,
      and the scan goes on at `d`. */
  lemma LineFound(text: string, pos: nat, a: nat, b: nat, d: nat, m: Matcher, w: string)
    requires Proper(|text|, m) && pos <= a <= b < d <= |text| && text[a..b] == w
    requires forall k: nat :: pos <= k < a ==> m(k).None?
    requires m(a) == Some(b)
    requires forall k: nat :: b <= k < d ==> m(k).None?
    ensures Texts(text, FindSpans(|text|, pos, m)) == [w] + Texts(text, FindSpans(|text|, d, m))
  {
    assert a < b;
    FindSpansOne(|text|, pos, a, b, d, m);
    TextsFound(text, pos, d, a, b, m);
  }

  /** When the scan from `pos` reports `a .. b` and then goes on from `next`,
      its texts are the text there followed by the texts found from `next`. */
  lemma TextsFound(text: string, pos: nat, next: nat, a: nat, b: nat, m: Matcher)
    requires Proper(|text|, m) && pos <= |text| && next <= |text| && a <= b <= |text|
    requires FindSpans(|text|, pos, m) == [Span(a, b)] + FindSpans(|text|, next, m)
    ensures Texts(text, FindSpans(|text|, pos, m)) == [text[a..b]] + Texts(text, FindSpans(|text|, next, m))
  {
    var sp := FindSpans(|text|, pos, m);
    assert forall k :: 0 <= k < |sp| ==> sp[k].start <= sp[k].end <= |text|;
    TextsCons(text, sp, a, b, FindSpans(|text|, next, m));
  }

  /** The hosts are the machines' addresses, one per listed URL, in the
      order `docker-machine` lists them. */
  lemma ListedAddresses(ms: seq<Endpoint>)
    requires forall k :: 0 <= k < |ms| ==> ValidEndpoint(ms[k])
    ensures FindAll(Listing(ms)) == Addresses(ms)
  {
    var text := Listing(ms);
    assert text[0..] == text;
    ListingListed(text, 0, ms);
    PatternVerdicts(text, 0, ms);
    ListingFound(text, 0, ms, PatternMatcher(text));
  }
}
