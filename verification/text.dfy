/** The Python 2 string operations the orchestration script relies on:
    `str.split` with a one-character separator, `str.join`, `str.strip()`
    with no argument, `str.replace` and `os.path.basename`. */
module Text {

  /** Number of occurrences of `c` in `s`. */
  function Count(s: string, c: char): nat
  {
    if |s| == 0 then 0 else (if s[0] == c then 1 else 0) + Count(s[1..], c)
  }

  lemma {:induction false} CountAppend(a: string, b: string, c: char)
    ensures Count(a + b, c) == Count(a, c) + Count(b, c)
    decreases |a|
  {
    if |a| > 0 {
      assert (a + b)[1..] == a[1..] + b;
      CountAppend(a[1..], b, c);
    } else {
      assert a + b == b;
    }
  }

  /** A piece of a string never holds more separators than the whole string. */
  lemma CountInfix(s: string, i: nat, j: nat, c: char)
    requires i <= j <= |s|
    ensures Count(s[i..j], c) <= Count(s, c)
  {
    assert s == s[..i] + s[i..j] + s[j..];
    CountAppend(s[..i] + s[i..j], s[j..], c);
    CountAppend(s[..i], s[i..j], c);
  }

  /** Python `s.split(sep)` for a one-character separator: the pieces
      between separators, empty pieces included, so that there is one more
      piece than there are separators. */
  function Split(s: string, sep: char): (parts: seq<string>)
    ensures |parts| == Count(s, sep) + 1
    ensures forall i :: 0 <= i < |parts| ==> sep !in parts[i]
    decreases |s|
  {
    if |s| == 0 then [""]
    else
      var rest := Split(s[1..], sep);
      if s[0] == sep then [""] + rest
      else [[s[0]] + rest[0]] + rest[1..]
  }

  /** Python `sep.join(parts)`. */
  function Join(parts: seq<string>, sep: char): string
  {
    if |parts| == 0 then ""
    else if |parts| == 1 then parts[0]
    else parts[0] + [sep] + Join(parts[1..], sep)
  }

  /** Joining the pieces of a split gives back the original string. */
  lemma {:induction false} JoinSplit(s: string, sep: char)
    ensures Join(Split(s, sep), sep) == s
    decreases |s|
  {
    if |s| > 0 {
      var rest := Split(s[1..], sep);
      JoinSplit(s[1..], sep);
      if s[0] == sep {
        assert Split(s, sep) == [""] + rest;
        assert ([""] + rest)[1..] == rest;
        assert Join(Split(s, sep), sep) == "" + [sep] + Join(rest, sep);
        assert s == [s[0]] + s[1..];
      } else {
        var parts := Split(s, sep);
        assert parts == [[s[0]] + rest[0]] + rest[1..];
        if |rest| == 1 {
          assert Join(parts, sep) == [s[0]] + rest[0];
          assert s == [s[0]] + s[1..];
        } else {
          assert parts[1..] == rest[1..];
          assert Join(rest, sep) == rest[0] + [sep] + Join(rest[1..], sep);
          assert Join(parts, sep) == [s[0]] + rest[0] + [sep] + Join(rest[1..], sep);
          assert s == [s[0]] + s[1..];
        }
      }
    }
  }

  /** A string without the separator is a single piece. */
  lemma {:induction false} SplitNoSeparator(a: string, sep: char)
    requires sep !in a
    ensures Split(a, sep) == [a]
    decreases |a|
  {
    if |a| > 0 {
      assert sep !in a[1..] by {
        forall k | 0 <= k < |a[1..]| ensures a[1..][k] != sep {
          assert a[1..][k] == a[k + 1];
        }
      }
      SplitNoSeparator(a[1..], sep);
      assert a == [a[0]] + a[1..];
    }
  }

  /** The first piece of a split ends at the first separator. */
  lemma {:induction false} SplitFirstPiece(a: string, sep: char, b: string)
    requires sep !in a
    ensures Split(a + [sep] + b, sep) == [a] + Split(b, sep)
    decreases |a|
  {
    var s := a + [sep] + b;
    if |a| == 0 {
      assert s[1..] == b;
    } else {
      assert sep !in a[1..] by {
        forall k | 0 <= k < |a[1..]| ensures a[1..][k] != sep {
          assert a[1..][k] == a[k + 1];
        }
      }
      assert s[1..] == a[1..] + [sep] + b;
      SplitFirstPiece(a[1..], sep, b);
      assert a == [a[0]] + a[1..];
    }
  }

  /** Splitting a join of separator-free pieces gives back the pieces. */
  lemma {:induction false} SplitJoin(parts: seq<string>, sep: char)
    requires |parts| >= 1
    requires forall i :: 0 <= i < |parts| ==> sep !in parts[i]
    ensures Split(Join(parts, sep), sep) == parts
    decreases |parts|
  {
    if |parts| == 1 {
      SplitNoSeparator(parts[0], sep);
    } else {
      SplitJoin(parts[1..], sep);
      SplitFirstPiece(parts[0], sep, Join(parts[1..], sep));
      assert parts == [parts[0]] + parts[1..];
    }
  }

  /** The characters Python 2's `str.strip()` removes. */
  predicate IsSpace(c: char)
  {
    c == ' ' || c == '\t' || c == '\n' || c == '\r' || c == '\U{000B}' || c == '\U{000C}'
  }

  predicate AllSpace(s: string)
  {
    forall i :: 0 <= i < |s| ==> IsSpace(s[i])
  }

  /** Drops leading whitespace. */
  function StripLeft(s: string): (r: string)
    ensures |r| <= |s| && r == s[|s| - |r|..]
    ensures AllSpace(s[..|s| - |r|])
    ensures r == "" || !IsSpace(r[0])
    decreases |s|
  {
    if |s| > 0 && IsSpace(s[0]) then
      var r := StripLeft(s[1..]);
      assert s[|s| - |r|..] == s[1..][|s| - 1 - |r|..];
      assert s[..|s| - |r|] == [s[0]] + s[1..][..|s| - 1 - |r|];
      r
    else s
  }

  /** Drops trailing whitespace. */
  function StripRight(s: string): (r: string)
    ensures |r| <= |s| && r == s[..|r|]
    ensures AllSpace(s[|r|..])
    ensures r == "" || !IsSpace(r[|r| - 1])
    decreases |s|
  {
    if |s| > 0 && IsSpace(s[|s| - 1]) then
      var q := s[..|s| - 1];
      var r := StripRight(q);
      assert s[..|r|] == q[..|r|];
      assert s[|r|..] == q[|r|..] + [s[|s| - 1]];
      r
    else s
  }

  /** Python 2 `s.strip()`: the string without surrounding whitespace. */
  function Strip(s: string): (r: string)
    ensures r == "" || (!IsSpace(r[0]) && !IsSpace(r[|r| - 1]))
  {
    var l := StripLeft(s);
    var r := StripRight(l);
    assert r != "" ==> r[0] == l[0];
    r
  }

  /** Exactly the all-whitespace strings strip to nothing. */
  lemma StripEmpty(s: string)
    ensures Strip(s) == "" <==> AllSpace(s)
  {
    var l := StripLeft(s);
    StripLeftEmpty(s);
    StripRightEmpty(l);
    if l != "" {
      assert !AllSpace(l) by { assert !IsSpace(l[0]); }
    }
  }

  /** Only an all-whitespace string strips to nothing from the left. */
  lemma StripLeftEmpty(s: string)
    ensures StripLeft(s) == "" <==> AllSpace(s)
  {
    var l := StripLeft(s);
    if l != "" {
      assert s[|s| - |l|] == l[0];
    } else {
      assert s == s[..|s| - |l|];
    }
  }

  /** Only an all-whitespace string strips to nothing from the right. */
  lemma StripRightEmpty(s: string)
    ensures StripRight(s) == "" <==> AllSpace(s)
  {
    var r := StripRight(s);
    if r != "" {
      assert s[|r| - 1] == r[|r| - 1];
    } else {
      assert s == s[|r|..];
    }
  }

  lemma {:induction false} StripLeftSpaces(a: string, t: string)
    requires AllSpace(a)
    requires t == "" || !IsSpace(t[0])
    ensures StripLeft(a + t) == t
    decreases |a|
  {
    if |a| > 0 {
      assert (a + t)[1..] == a[1..] + t;
      StripLeftSpaces(a[1..], t);
    } else {
      assert a + t == t;
    }
  }

  lemma {:induction false} StripRightSpaces(t: string, b: string)
    requires AllSpace(b)
    requires t == "" || !IsSpace(t[|t| - 1])
    ensures StripRight(t + b) == t
    decreases |b|
  {
    if |b| > 0 {
      var s := t + b;
      assert s[..|s| - 1] == t + b[..|b| - 1];
      StripRightSpaces(t, b[..|b| - 1]);
    } else {
      assert t + b == t;
    }
  }

  /** `strip` is characterised by the unique decomposition of a string into
      leading whitespace, a core whose ends are not whitespace, and
      trailing whitespace: the core is the result. */
  lemma StripDecomposition(a: string, m: string, b: string)
    requires AllSpace(a) && AllSpace(b)
    requires m == "" || (!IsSpace(m[0]) && !IsSpace(m[|m| - 1]))
    ensures Strip(a + m + b) == m
  {
    if m == "" {
      assert a + m + b == a + b;
      assert AllSpace(a + b);
      StripLeftSpaces(a + b, "");
      assert a + b + "" == a + b;
      StripRightSpaces("", "");
    } else {
      assert a + m + b == a + (m + b);
      StripLeftSpaces(a, m + b);
      StripRightSpaces(m, b);
    }
  }

  /** Stripping twice is stripping once. */
  lemma StripIdempotent(s: string)
    ensures Strip(Strip(s)) == Strip(s)
  {
    StripFixed(Strip(s));
  }

  /** A string whose ends are not whitespace is its own strip. */
  lemma StripFixed(m: string)
    requires m == "" || (!IsSpace(m[0]) && !IsSpace(m[|m| - 1]))
    ensures Strip(m) == m
  {
    assert "" + m == m && m + "" == m;
    StripLeftSpaces("", m);
    StripRightSpaces(m, "");
  }

  /** `w` occurs in `s` starting at position `i`. */
  predicate OccursAt(s: string, w: string, i: int)
  {
    0 <= i && i + |w| <= |s| && s[i..i + |w|] == w
  }

  /** `s.endswith(suffix)`. */
  predicate EndsWith(s: string, suffix: string)
  {
    |suffix| <= |s| && s[|s| - |suffix|..] == suffix
  }

  /** Python `s.replace(pat, rep)` for a non-empty `pat`: scan left to right
      and replace each occurrence, resuming after it, so that replaced
      occurrences never overlap. */
  function Replace(s: string, pat: string, rep: string): (r: string)
    requires |pat| > 0
    ensures |pat| == |rep| ==> |r| == |s|
    decreases |s|
  {
    if |s| < |pat| then s
    else if s[..|pat|] == pat then rep + Replace(s[|pat|..], pat, rep)
    else [s[0]] + Replace(s[1..], pat, rep)
  }

  /** A three-character pattern occurs at `i` exactly when its three
      characters do. */
  lemma OccursAt3(s: string, w: string, i: int)
    requires |w| == 3
    ensures OccursAt(s, w, i) <==>
      0 <= i && i + 3 <= |s| && s[i] == w[0] && s[i + 1] == w[1] && s[i + 2] == w[2]
  {
    if 0 <= i && i + 3 <= |s| {
      var v := s[i..i + 3];
      assert v[0] == s[i] && v[1] == s[i + 1] && v[2] == s[i + 2];
      if v[0] == w[0] && v[1] == w[1] && v[2] == w[2] {
        assert v == w;
      }
    }
  }

  /** Occurrences in a suffix are occurrences in the whole string, shifted. */
  lemma OccursShift(s: string, w: string, d: nat, i: nat)
    requires d <= |s|
    ensures OccursAt(s, w, i + d) == OccursAt(s[d..], w, i)
  {
    if i + d + |w| <= |s| {
      assert s[i + d..i + d + |w|] == s[d..][i..i + |w|];
    }
  }

  /** `r` is `s` with the first character of every occurrence of `pat`
      turned into `b`, and nothing else changed. */
  ghost predicate FirstCharsRewritten(s: string, pat: string, b: char, r: string)
  {
    && |r| == |s|
    && forall i :: 0 <= i < |s| ==> r[i] == (if OccursAt(s, pat, i) then b else s[i])
  }

  /** An occurrence of `pat` at `i` starts with `pat`'s first character. */
  lemma NoOccurrenceAt(s: string, pat: string, i: nat)
    requires |pat| > 0 && i < |s| && s[i] != pat[0]
    ensures !OccursAt(s, pat, i)
  {
    if i + |pat| <= |s| {
      assert s[i..i + |pat|][0] == s[i];
    }
  }

  lemma ReplaceAtOccurrence(s: string, a: char, b: char, t: string)
    requires a !in t
    requires OccursAt(s, [a] + t, 0)
    requires FirstCharsRewritten(s[1 + |t|..], [a] + t, b, Replace(s[1 + |t|..], [a] + t, [b] + t))
    ensures FirstCharsRewritten(s, [a] + t, b, Replace(s, [a] + t, [b] + t))
  {
    var pat, rep := [a] + t, [b] + t;
    var r := Replace(s, pat, rep);
    forall i | 0 <= i < |s|
      ensures r[i] == (if OccursAt(s, pat, i) then b else s[i])
    {
      RewrittenAt(s, a, b, t, i);
    }
  }

  /** One position of `ReplaceAtOccurrence`. */
  lemma RewrittenAt(s: string, a: char, b: char, t: string, i: int)
    requires a !in t
    requires OccursAt(s, [a] + t, 0)
    requires FirstCharsRewritten(s[1 + |t|..], [a] + t, b, Replace(s[1 + |t|..], [a] + t, [b] + t))
    requires 0 <= i < |s|
    ensures Replace(s, [a] + t, [b] + t)[i] == (if OccursAt(s, [a] + t, i) then b else s[i])
  {
    var pat, rep := [a] + t, [b] + t;
    var rest := s[|pat|..];
    var tail := Replace(rest, pat, rep);
    assert s[..|pat|] == pat;
    assert Replace(s, pat, rep) == rep + tail;
    if i < |pat| {
      RewrittenInOccurrence(s, a, b, t, rep + tail, i);
    } else {
      RewrittenPastOccurrence(s, pat, rep, b, tail, i);
    }
  }

  /** Past the occurrence at 0 the result is the rewritten rest. */
  lemma RewrittenPastOccurrence(s: string, pat: string, rep: string, b: char, tail: string, i: int)
    requires |pat| <= i < |s| && |rep| == |pat|
    requires FirstCharsRewritten(s[|pat|..], pat, b, tail)
    ensures (rep + tail)[i] == (if OccursAt(s, pat, i) then b else s[i])
  {
    assert (rep + tail)[i] == tail[i - |pat|];
    OccursShift(s, pat, |pat|, i - |pat|);
    assert s[|pat|..][i - |pat|] == s[i];
  }

  /** Inside the occurrence at 0 only the first character changes, and no
      other occurrence starts there. */
  lemma RewrittenInOccurrence(s: string, a: char, b: char, t: string, r: string, i: int)
    requires a !in t
    requires OccursAt(s, [a] + t, 0)
    requires |r| >= 1 + |t| && r[..1 + |t|] == [b] + t
    requires 0 <= i < 1 + |t|
    ensures r[i] == (if OccursAt(s, [a] + t, i) then b else s[i])
  {
    var pat := [a] + t;
    assert s[..|pat|] == pat;
    assert r[i] == r[..1 + |t|][i];
    if i > 0 {
      assert s[i] == s[..|pat|][i] == pat[i] == t[i - 1];
      assert r[i] == ([b] + t)[i] == t[i - 1];
      assert t[i - 1] in t;
      NoOccurrenceAt(s, pat, i);
    }
  }

  lemma ReplaceElsewhere(s: string, a: char, b: char, t: string)
    requires |s| >= 1 + |t| && !OccursAt(s, [a] + t, 0)
    requires FirstCharsRewritten(s[1..], [a] + t, b, Replace(s[1..], [a] + t, [b] + t))
    ensures FirstCharsRewritten(s, [a] + t, b, Replace(s, [a] + t, [b] + t))
  {
    var pat, rep := [a] + t, [b] + t;
    assert s[..|pat|] != pat;
    var r := Replace(s, pat, rep);
    assert r == [s[0]] + Replace(s[1..], pat, rep);
    forall i | 0 < i < |s|
      ensures r[i] == (if OccursAt(s, pat, i) then b else s[i])
    {
      OccursShift(s, pat, 1, i - 1);
    }
  }

  /** Replacing `a·t` by `b·t`, where `a` does not occur in `t`, rewrites
      exactly the first character of every occurrence and nothing else. */
  lemma {:induction false} ReplaceFirstChar(s: string, a: char, b: char, t: string)
    requires a !in t
    ensures FirstCharsRewritten(s, [a] + t, b, Replace(s, [a] + t, [b] + t))
    decreases |s|
  {
    var pat := [a] + t;
    if |s| < |pat| {
      forall i | 0 <= i < |s| ensures !OccursAt(s, pat, i) { }
    } else if OccursAt(s, pat, 0) {
      ReplaceFirstChar(s[|pat|..], a, b, t);
      ReplaceAtOccurrence(s, a, b, t);
    } else {
      ReplaceFirstChar(s[1..], a, b, t);
      ReplaceElsewhere(s, a, b, t);
    }
  }

  /** A string in which `pat` does not occur is left alone by `replace`. */
  lemma {:induction false} ReplaceAbsent(s: string, pat: string, rep: string)
    requires |pat| > 0
    requires forall i :: 0 <= i < |s| ==> !OccursAt(s, pat, i)
    ensures Replace(s, pat, rep) == s
    decreases |s|
  {
    if |s| >= |pat| {
      assert !OccursAt(s, pat, 0);
      assert s[..|pat|] != pat;
      var rest := s[1..];
      forall i | 0 <= i < |rest| ensures !OccursAt(rest, pat, i) {
        OccursShift(s, pat, 1, i);
      }
      ReplaceAbsent(rest, pat, rep);
      assert Replace(s, pat, rep) == [s[0]] + Replace(rest, pat, rep);
      assert s == [s[0]] + rest;
    }
  }

  /** Python `os.path.basename(p)`: everything after the last `/`. */
  function Basename(p: string): (r: string)
    ensures '/' !in r
    ensures |r| <= |p| && r == p[|p| - |r|..]
    ensures |r| < |p| ==> p[|p| - |r| - 1] == '/'
    decreases |p|
  {
    if |p| == 0 || p[|p| - 1] == '/' then ""
    else
      var q := p[..|p| - 1];
      var rest := Basename(q);
      assert p[|p| - |rest| - 1..] == q[|q| - |rest|..] + [p[|p| - 1]];
      assert |rest| < |q| ==> p[|p| - |rest| - 2] == q[|q| - |rest| - 1];
      rest + [p[|p| - 1]]
  }
}
