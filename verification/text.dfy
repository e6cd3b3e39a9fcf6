/** Character-level models of the Python `str` operations the converter
    relies on: `startswith`, `in`, `strip`/`rstrip` (with and without
    an explicit character set), `replace` and `lower`. Strings are
    `seq<char>`. */
module Text {

  /** The characters `str.strip()` and `str.rstrip()` remove when called
      without an argument, restricted to ASCII: tab, line feed, vertical tab,
      form feed, carriage return, the separators 0x1C to 0x1F, and space. */
  const Whitespace: set<char> := set c: char | '\t' <= c <= '\r' || '\U{001C}' <= c <= ' '

  /** `s.count(c)` for a one-character `c`. */
  function Count(s: string, c: char): nat
    decreases |s|
  {
    if |s| == 0 then 0 else (if s[0] == c then 1 else 0) + Count(s[1..], c)
  }

  /** The count is the multiplicity of `c` in the multiset of the string's
      characters. */
  lemma {:induction false} CountIsMultiplicity(s: string, c: char)
    ensures Count(s, c) == multiset(s)[c]
    decreases |s|
  {
    if |s| > 0 {
      CountIsMultiplicity(s[1..], c);
      assert s == [s[0]] + s[1..];
    }
  }

  /** `s.startswith(p)` */
  predicate StartsWith(s: string, p: string) {
    |p| <= |s| && s[..|p|] == p
  }

  /** `p` occurs in `s` at index `i`. */
  predicate OccursAt(s: string, p: string, i: int) {
    0 <= i && i + |p| <= |s| && s[i..i + |p|] == p
  }

  /** `p in s`, scanning for a match from the left. */
  predicate Contains(s: string, p: string)
    decreases |s|
  {
    StartsWith(s, p) || (|s| > 0 && Contains(s[1..], p))
  }

  /** The scanning definition agrees with the index definition of a substring. */
  lemma {:induction false} ContainsIff(s: string, p: string)
    ensures Contains(s, p) <==> exists i :: OccursAt(s, p, i)
    decreases |s|
  {
    if StartsWith(s, p) {
      assert OccursAt(s, p, 0);
    } else if |s| > 0 {
      ContainsIff(s[1..], p);
      if Contains(s[1..], p) {
        var i :| OccursAt(s[1..], p, i);
        assert s[1..][i..i + |p|] == s[i + 1..i + 1 + |p|];
        assert OccursAt(s, p, i + 1);
      }
      if exists i :: OccursAt(s, p, i) {
        var i :| OccursAt(s, p, i);
        assert i != 0;
        assert s[1..][i - 1..i - 1 + |p|] == s[i..i + |p|];
        assert OccursAt(s[1..], p, i - 1);
      }
    }
  }

  /** Whatever occurs in a suffix occurs in the whole string. */
  lemma {:induction false} ContainsSuffix(s: string, k: nat, p: string)
    requires k <= |s|
    requires Contains(s[k..], p)
    ensures Contains(s, p)
    decreases k
  {
    if k > 0 {
      assert s[1..][k - 1..] == s[k..];
      ContainsSuffix(s[1..], k - 1, p);
    }
  }

  /** An occurrence of `q` in `a + t` must lie in `t` when `a` lacks the
      first character of `q`. */
  lemma {:induction false} ContainsSkip(a: string, t: string, q: string)
    requires |q| > 0 && q[0] !in a
    requires Contains(a + t, q)
    ensures Contains(t, q)
    decreases |a|
  {
    if |a| > 0 {
      assert !StartsWith(a + t, q) by {
        assert (a + t)[0] == a[0];
      }
      assert (a + t)[1..] == a[1..] + t;
      ContainsSkip(a[1..], t, q);
    } else {
      assert a + t == t;
    }
  }

  /** Where a right strip of `s[..n]` stops: characters of `cs` are
      dropped from index `n` downwards. */
  function TrimEnd(s: string, cs: set<char>, n: nat): (e: nat)
    requires n <= |s|
    ensures e <= n
    ensures forall i | e <= i < n :: s[i] in cs
    ensures e == 0 || s[e - 1] !in cs
    decreases n
  {
    if n > 0 && s[n - 1] in cs then TrimEnd(s, cs, n - 1) else n
  }

  /** Where a left strip of `s[i..e]` stops: characters of `cs` are dropped
      from index `i` upwards. */
  function TrimStart(s: string, cs: set<char>, i: nat, e: nat): (b: nat)
    requires i <= e <= |s|
    ensures i <= b <= e
    ensures forall j | i <= j < b :: s[j] in cs
    ensures b == e || s[b] !in cs
    decreases e - i
  {
    if i < e && s[i] in cs then TrimStart(s, cs, i + 1, e) else i
  }

  /** `s.rstrip(cs)`: the longest prefix of `s` that does not end in `cs`. */
  function RStrip(s: string, cs: set<char>): (r: string)
    ensures |r| <= |s| && forall i | 0 <= i < |r| :: r[i] == s[i]
    ensures forall i | |r| <= i < |s| :: s[i] in cs
    ensures |r| == 0 || r[|r| - 1] !in cs
  {
    s[..TrimEnd(s, cs, |s|)]
  }

  /** `r` is `s` with a run of `cs` characters cut from each end, the cut
      prefix being `k` characters long. */
  ghost predicate TrimmedAt(s: string, cs: set<char>, k: int, r: string) {
    && 0 <= k && k + |r| <= |s|
    && (forall i | 0 <= i < |r| :: r[i] == s[k + i])
    && (forall i | 0 <= i < k :: s[i] in cs)
    && (forall i | k + |r| <= i < |s| :: s[i] in cs)
  }

  /** `s.strip(cs)`: the maximal infix of `s` that neither starts nor ends
      in `cs`. */
  function Strip(s: string, cs: set<char>): (r: string)
    ensures exists k :: TrimmedAt(s, cs, k, r)
    ensures |r| == 0 || (r[0] !in cs && r[|r| - 1] !in cs)
  {
    var e := TrimEnd(s, cs, |s|);
    var b := TrimStart(s, cs, 0, e);
    assert TrimmedAt(s, cs, b, s[b..e]);
    s[b..e]
  }

  /** Stripping yields the empty string exactly when every character is in
      the stripped set, and never introduces a character. */
  lemma StripContents(s: string, cs: set<char>)
    ensures Strip(s, cs) == [] <==> forall i | 0 <= i < |s| :: s[i] in cs
    ensures forall c | c in Strip(s, cs) :: c in s
  {
    var r := Strip(s, cs);
    var k :| TrimmedAt(s, cs, k, r);
    if r != [] {
      assert s[k] == r[0];
    }
  }

  /** The contract of `Strip` determines its result: any infix framed by
      runs of `cs` whose ends are not in `cs` is the stripped string. */
  lemma StripUnique(s: string, cs: set<char>, k: int, r: string)
    requires TrimmedAt(s, cs, k, r)
    requires |r| == 0 || (r[0] !in cs && r[|r| - 1] !in cs)
    ensures r == Strip(s, cs)
  {
    var r0 := Strip(s, cs);
    var k0 :| TrimmedAt(s, cs, k0, r0);
    if |r| == 0 {
      if |r0| > 0 {
        assert false;
      }
    } else if |r0| == 0 {
      assert false;
    } else {
      assert s[k] == r[0] && s[k0] == r0[0];
      assert k == k0;
      assert s[k + |r| - 1] == r[|r| - 1] && s[k0 + |r0| - 1] == r0[|r0| - 1];
      assert |r| == |r0|;
    }
  }

  /** `s.replace(p, r)`: every non-overlapping occurrence of `p`, found
      scanning from the left, is replaced by `r`. */
  function Replace(s: string, p: string, r: string): (res: string)
    requires |p| > 0
    ensures forall c | c in res :: c in s || c in r
    decreases |s|
  {
    if StartsWith(s, p) then r + Replace(s[|p|..], p, r)
    else if |s| == 0 then []
    else [s[0]] + Replace(s[1..], p, r)
  }

  /** Replacing a pattern that does not occur changes nothing. */
  lemma {:induction false} ReplaceAbsent(s: string, p: string, r: string)
    requires |p| > 0
    requires !Contains(s, p)
    ensures Replace(s, p, r) == s
    decreases |s|
  {
    if |s| > 0 {
      ReplaceAbsent(s[1..], p, r);
      assert [s[0]] + s[1..] == s;
    }
  }

  /** A prefix of the replaced text that avoids the first character of the
      replacement was already a prefix of the original text. */
  lemma {:induction false} ReplaceKeepsPrefix(u: string, p: string, r: string, w: string)
    requires |p| > 0 && |r| > 0 && r[0] !in w
    requires StartsWith(Replace(u, p, r), w)
    ensures StartsWith(u, w)
    decreases |w|
  {
    if |w| > 0 {
      var t := Replace(u, p, r);
      assert t[0] == w[0];
      if StartsWith(u, p) {
        assert false;
      }
      assert |u| > 0;
      assert t == [u[0]] + Replace(u[1..], p, r);
      assert Replace(u[1..], p, r)[..|w| - 1] == t[1..|w|] == w[1..];
      ReplaceKeepsPrefix(u[1..], p, r, w[1..]);
      assert u[..|w|] == [u[0]] + u[1..][..|w| - 1];
    }
  }

  /** When the replacement starts with a character it never repeats and does
      not occur in the input, replacing it back by the pattern undoes the
      substitution: every occurrence of `p` became exactly one `r` and
      nothing else changed. */
  lemma {:induction false} ReplaceRoundTrip(s: string, p: string, r: string)
    requires |p| > 0 && |r| > 0 && r[0] !in r[1..]
    requires !Contains(s, r)
    ensures Replace(Replace(s, p, r), r, p) == s
    decreases |s|
  {
    if StartsWith(s, p) {
      var t := Replace(s[|p|..], p, r);
      assert StartsWith(r + t, r);
      assert (r + t)[|r|..] == t;
      if Contains(s[|p|..], r) {
        ContainsSuffix(s, |p|, r);
      }
      ReplaceRoundTrip(s[|p|..], p, r);
      assert p + s[|p|..] == s;
    } else if |s| > 0 {
      var t := Replace(s[1..], p, r);
      var x := [s[0]] + t;
      if StartsWith(x, r) {
        assert t[..|r| - 1] == x[1..|r|] == r[1..];
        ReplaceKeepsPrefix(s[1..], p, r, r[1..]);
        assert false;
      }
      assert x[1..] == t;
      ReplaceRoundTrip(s[1..], p, r);
      assert [s[0]] + s[1..] == s;
    }
  }

  /** Replacing with text that lacks the first character of `q`, and whose
      first character does not recur in `q`, creates no new occurrence
      of `q`. */
  lemma {:induction false} ReplaceKeepsAbsent(s: string, p: string, r: string, q: string)
    requires |p| > 0 && |r| > 0 && |q| > 0
    requires q[0] !in r && r[0] !in q[1..]
    requires !Contains(s, q)
    ensures !Contains(Replace(s, p, r), q)
    decreases |s|
  {
    if StartsWith(s, p) {
      var t := Replace(s[|p|..], p, r);
      if Contains(s[|p|..], q) {
        ContainsSuffix(s, |p|, q);
      }
      ReplaceKeepsAbsent(s[|p|..], p, r, q);
      if Contains(r + t, q) {
        ContainsSkip(r, t, q);
      }
    } else if |s| > 0 {
      var t := Replace(s[1..], p, r);
      var x := [s[0]] + t;
      ReplaceKeepsAbsent(s[1..], p, r, q);
      if StartsWith(x, q) {
        assert t[..|q| - 1] == x[1..|q|] == q[1..];
        ReplaceKeepsPrefix(s[1..], p, r, q[1..]);
        assert false;
      }
      assert x[1..] == t;
    }
  }

  /** The text left by replacing a doubled character `xx` does not start
      with `x` when the original did not. */
  lemma {:induction false} ReplacePairHead(s: string, x: char, r: string)
    requires x !in r
    requires |s| == 0 || s[0] != x
    ensures var t := Replace(s, [x, x], r); |t| == 0 || t[0] != x
  {
  }

  /** After replacing every `xx` by text without `x`, no `xx` is left. */
  lemma {:induction false} ReplaceRemovesPair(s: string, x: char, r: string)
    requires x !in r
    ensures !Contains(Replace(s, [x, x], r), [x, x])
    decreases |s|
  {
    var p := [x, x];
    if StartsWith(s, p) {
      var t := Replace(s[2..], p, r);
      ReplaceRemovesPair(s[2..], x, r);
      if Contains(r + t, p) {
        ContainsSkip(r, t, p);
      }
    } else if |s| > 0 {
      var t := Replace(s[1..], p, r);
      ReplaceRemovesPair(s[1..], x, r);
      if s[0] == x {
        assert |s| == 1 || s[1] != x;
        ReplacePairHead(s[1..], x, r);
      }
      assert ([s[0]] + t)[1..] == t;
    }
  }

  /** After replacing every `x` by text without `x`, no `x` is left. */
  lemma {:induction false} ReplaceRemovesChar(s: string, x: char, r: string)
    requires x !in r
    ensures x !in Replace(s, [x], r)
    decreases |s|
  {
    if StartsWith(s, [x]) {
      ReplaceRemovesChar(s[1..], x, r);
    } else if |s| > 0 {
      assert s[0] != x;
      ReplaceRemovesChar(s[1..], x, r);
    }
  }

  /** A string lacking the first character of `p` does not contain `p`. */
  lemma {:induction false} FirstCharAbsent(s: string, p: string)
    requires |p| > 0 && p[0] !in s
    ensures !Contains(s, p)
    decreases |s|
  {
    if |s| > 0 {
      assert |p| <= |s| ==> s[..|p|][0] == s[0];
      FirstCharAbsent(s[1..], p);
    }
  }

  /** The scan copies everything before the first occurrence of `p`,
      replaces that occurrence by `r`, and resumes right after it. With
      ReplaceAbsent for text holding no occurrence, this determines
      `Replace` in terms of occurrences alone. */
  lemma ReplaceAtFirst(s: string, p: string, r: string, i: nat)
    requires |p| > 0 && OccursAt(s, p, i)
    requires forall j | 0 <= j < i :: !OccursAt(s, p, j)
    ensures Replace(s, p, r) == s[..i] + r + Replace(s[i + |p|..], p, r)
  {
    var a, m := s[..i], s[i..];
    NoEarlierOccurrence(s, p, i);
    SplitAtOccurrence(s, p, i);
    ReplaceAfterPrefix(a, m, p, r);
  }

  /** No occurrence before `i` means the text up to the last character of
      an occurrence at `i` does not contain `p`. */
  lemma NoEarlierOccurrence(s: string, p: string, i: nat)
    requires |p| > 0 && i + |p| <= |s|
    requires forall j | 0 <= j < i :: !OccursAt(s, p, j)
    ensures !Contains(s[..i + |p| - 1], p)
  {
    var x := s[..i + |p| - 1];
    forall k: int
      ensures !OccursAt(x, p, k)
    {
      if 0 <= k && k + |p| <= |x| {
        assert !OccursAt(s, p, k);
        assert x[k..k + |p|] == s[k..k + |p|];
      }
    }
    ContainsIff(x, p);
  }

  /** The pieces of `s` around an occurrence of `p` at `i`. */
  lemma SplitAtOccurrence(s: string, p: string, i: nat)
    requires |p| > 0 && OccursAt(s, p, i)
    ensures s[..i] + s[i..] == s
    ensures s[..i] + s[i..][..|p| - 1] == s[..i + |p| - 1]
    ensures StartsWith(s[i..], p)
    ensures s[i..][|p|..] == s[i + |p|..]
  {
    assert s[i..][..|p|] == s[i..i + |p|];
  }

  /** ReplaceAtFirst for text split as `a + m`, where `m` starts with `p`
      and no occurrence of `p` begins inside `a`. */
  lemma {:induction false} ReplaceAfterPrefix(a: string, m: string, p: string, r: string)
    requires |p| > 0 && StartsWith(m, p)
    requires !Contains(a + m[..|p| - 1], p)
    ensures Replace(a + m, p, r) == a + r + Replace(m[|p|..], p, r)
    decreases |a|
  {
    if |a| == 0 {
      assert a + m == m;
    } else {
      var tail := Replace(m[|p|..], p, r);
      PrefixStep(a, m, p);
      calc {
        Replace(a + m, p, r);
        { ReplaceSkipsHead(a + m, p, r); }
        [(a + m)[0]] + Replace((a + m)[1..], p, r);
        { assert (a + m)[0] == a[0] && (a + m)[1..] == a[1..] + m; }
        [a[0]] + Replace(a[1..] + m, p, r);
        { ReplaceAfterPrefix(a[1..], m, p, r); }
        [a[0]] + (a[1..] + r + tail);
        { ConsConcat(a, r, tail); }
        a + r + tail;
      }
    }
  }

  /** The induction step of ReplaceAfterPrefix: no occurrence starts at the
      head of `a + m`, and none starts inside the rest of `a`. */
  lemma PrefixStep(a: string, m: string, p: string)
    requires |p| > 0 && |a| > 0 && StartsWith(m, p)
    requires !Contains(a + m[..|p| - 1], p)
    ensures !StartsWith(a + m, p)
    ensures !Contains(a[1..] + m[..|p| - 1], p)
  {
    var x := a + m[..|p| - 1];
    assert (a + m)[..|p|] == x[..|p|];
    assert x[1..] == a[1..] + m[..|p| - 1];
  }

  /** Without a match at the head, the scan copies the first character. */
  lemma ReplaceSkipsHead(s: string, p: string, r: string)
    requires |p| > 0 && |s| > 0 && !StartsWith(s, p)
    ensures Replace(s, p, r) == [s[0]] + Replace(s[1..], p, r)
  {
  }

  /** Putting the first character back in front of a concatenation. */
  lemma ConsConcat(a: string, r: string, t: string)
    requires |a| > 0
    ensures [a[0]] + (a[1..] + r + t) == a + r + t
  {
    assert [a[0]] + a[1..] == a;
  }

  /** A leading occurrence is replaced and the scan resumes after it. */
  lemma ReplaceMatch(p: string, t: string, r: string)
    requires |p| > 0
    ensures Replace(p + t, p, r) == r + Replace(t, p, r)
  {
    assert (p + t)[..|p|] == p;
    assert (p + t)[|p|..] == t;
  }

  /** Text without the first character of `p`, followed by `p`: only the
      final `p` is replaced. */
  lemma {:induction false} ReplaceNoHead(t: string, p: string, r: string)
    requires |p| > 0 && p[0] !in t
    ensures Replace(t + p, p, r) == t + r
    decreases |t|
  {
    if |t| == 0 {
      assert t + p == p + [];
      ReplaceMatch(p, [], r);
    } else {
      var u := t + p;
      assert u[0] == t[0] && u[0] != p[0];
      assert !StartsWith(u, p) by {
        assert |p| <= |u| ==> u[..|p|][0] == u[0];
      }
      assert u[1..] == t[1..] + p;
      assert Replace(u, p, r) == [t[0]] + Replace(t[1..] + p, p, r);
      ReplaceNoHead(t[1..], p, r);
      assert [t[0]] + (t[1..] + r) == t + r;
    }
  }

  /** ASCII `str.lower()` on one character. */
  function LowerChar(c: char): char {
    if 'A' <= c <= 'Z' then (c as int - 'A' as int + 'a' as int) as char else c
  }

  /** ASCII `str.lower()`. */
  function Lower(s: string): (r: string)
    ensures |r| == |s| && forall i | 0 <= i < |s| :: r[i] == LowerChar(s[i])
    decreases |s|
  {
    if |s| == 0 then [] else [LowerChar(s[0])] + Lower(s[1..])
  }

  /** `w` occurs in `s` at index `i` when letter case in `s` is ignored. */
  predicate MatchesIgnoringCaseAt(s: string, w: string, i: int) {
    && 0 <= i && i + |w| <= |s|
    && var t := s[i..i + |w|];
       forall j | 0 <= j < |w| :: LowerChar(t[j]) == w[j]
  }

  /** `w in s.lower()` for a lower-case word `w` holds exactly when `w` occurs
      in `s` up to letter case. */
  lemma LowerContainsIff(s: string, w: string)
    ensures Contains(Lower(s), w) <==> exists i :: MatchesIgnoringCaseAt(s, w, i)
  {
    ContainsIff(Lower(s), w);
    forall i | 0 <= i && i + |w| <= |s|
      ensures OccursAt(Lower(s), w, i) <==> MatchesIgnoringCaseAt(s, w, i)
    {
      assert Lower(s)[i..i + |w|] == Lower(s[i..i + |w|]);
    }
    if exists i :: MatchesIgnoringCaseAt(s, w, i) {
      var i :| MatchesIgnoringCaseAt(s, w, i);
      assert OccursAt(Lower(s), w, i);
    }
  }
}
