/** Python's string operations used by the table scripts: `str.replace`,
    `str.join`, suffix tests and `str()` of a non-negative integer. */
module Strings {
  import opened Results

  predicate StartsWith(s: string, prefix: string)
  {
    |prefix| <= |s| && s[..|prefix|] == prefix
  }

  /** `s[-|suffix|:] == suffix` in Python; for a string shorter than the
      suffix the slice is the whole string, which then differs from it. */
  predicate EndsWith(s: string, suffix: string)
  {
    |suffix| <= |s| && s[|s| - |suffix|..] == suffix
  }

  /** `s.replace(pat, rep)`: every non-overlapping occurrence of `pat`,
      scanning left to right, is replaced by `rep`; an empty pattern inserts
      `rep` before every character and at the end, as Python does. */
  function ReplaceAll(s: string, pat: string, rep: string): string
    decreases |s|
  {
    if pat == [] then
      (if s == [] then rep else rep + [s[0]] + ReplaceAll(s[1..], pat, rep))
    else if |s| < |pat| then s
    else if s[..|pat|] == pat then rep + ReplaceAll(s[|pat|..], pat, rep)
    else [s[0]] + ReplaceAll(s[1..], pat, rep)
  }

  /** `pat` occurs in `s` starting at index `i`. */
  ghost predicate OccursAt(s: string, pat: string, i: int)
  {
    0 <= i && i + |pat| <= |s| && s[i..i + |pat|] == pat
  }

  /** A string in which a non-empty pattern does not occur is left as it is. */
  lemma {:induction false} ReplaceAbsent(s: string, pat: string, rep: string)
    requires pat != []
    requires forall i :: !OccursAt(s, pat, i)
    ensures ReplaceAll(s, pat, rep) == s
  {
    if |s| >= |pat| {
      assert !OccursAt(s, pat, 0);
      assert s[..|pat|] == s[0..0 + |pat|];
      forall i ensures !OccursAt(s[1..], pat, i) {
        if 0 <= i && i + |pat| <= |s| - 1 {
          assert s[1..][i..i + |pat|] == s[i + 1..i + 1 + |pat|];
          assert !OccursAt(s, pat, i + 1);
        }
      }
      ReplaceAbsent(s[1..], pat, rep);
      assert s == [s[0]] + s[1..];
    }
  }

  /** Where no occurrence of the pattern straddles the seam between `a`
      and `b`, the replacement works on the two parts separately. */
  lemma {:induction false} ReplaceSplit(a: string, b: string, pat: string, rep: string)
    requires pat != []
    requires forall i :: 0 <= i < |a| < i + |pat| ==> !OccursAt(a + b, pat, i)
    ensures ReplaceAll(a + b, pat, rep) == ReplaceAll(a, pat, rep) + ReplaceAll(b, pat, rep)
    decreases |a|
  {
    if a == [] {
      assert a + b == b;
    } else if |a| >= |pat| && a[..|pat|] == pat {
      SuffixNoStraddle(a, b, pat, |pat|);
      ReplaceSplit(a[|pat|..], b, pat, rep);
      SplitMatchStep(a, b, pat, rep);
    } else {
      SuffixNoStraddle(a, b, pat, 1);
      ReplaceSplit(a[1..], b, pat, rep);
      assert 0 < |a|;
      SplitMissStep(a, b, pat, rep);
    }
  }

  /** Dropping the first `k` characters of `a` keeps the seam clear. */
  lemma SuffixNoStraddle(a: string, b: string, pat: string, k: nat)
    requires 1 <= k <= |a|
    requires forall i :: 0 <= i < |a| < i + |pat| ==> !OccursAt(a + b, pat, i)
    ensures forall i :: 0 <= i < |a[k..]| < i + |pat| ==> !OccursAt(a[k..] + b, pat, i)
  {
    assert (a + b)[k..] == a[k..] + b;
    forall i | 0 <= i < |a[k..]| < i + |pat| ensures !OccursAt(a[k..] + b, pat, i) {
      OccursShift(a + b, pat, k, i);
    }
  }

  /** One step of `ReplaceSplit` past an occurrence at the head of `a`. */
  lemma SplitMatchStep(a: string, b: string, pat: string, rep: string)
    requires pat != [] && |a| >= |pat| && a[..|pat|] == pat
    requires ReplaceAll(a[|pat|..] + b, pat, rep) ==
      ReplaceAll(a[|pat|..], pat, rep) + ReplaceAll(b, pat, rep)
    ensures ReplaceAll(a + b, pat, rep) == ReplaceAll(a, pat, rep) + ReplaceAll(b, pat, rep)
  {
    var t := a[|pat|..];
    assert a == pat + t;
    MatchCons(pat, t, b, rep);
  }

  lemma MatchCons(pat: string, t: string, b: string, rep: string)
    requires pat != []
    requires ReplaceAll(t + b, pat, rep) == ReplaceAll(t, pat, rep) + ReplaceAll(b, pat, rep)
    ensures ReplaceAll(pat + t + b, pat, rep) == ReplaceAll(pat + t, pat, rep) + ReplaceAll(b, pat, rep)
  {
    ConcatAssoc(pat, t, b);
    ReplaceLeading(pat, t + b, rep);
    ReplaceLeading(pat, t, rep);
    ConcatAssoc(rep, ReplaceAll(t, pat, rep), ReplaceAll(b, pat, rep));
  }

  /** One step of `ReplaceSplit` past a head character of `a` that starts
      no occurrence. */
  lemma SplitMissStep(a: string, b: string, pat: string, rep: string)
    requires pat != [] && a != [] && !(|a| >= |pat| && a[..|pat|] == pat)
    requires |a| < |pat| ==> !OccursAt(a + b, pat, 0)
    requires ReplaceAll(a[1..] + b, pat, rep) == ReplaceAll(a[1..], pat, rep) + ReplaceAll(b, pat, rep)
    ensures ReplaceAll(a + b, pat, rep) == ReplaceAll(a, pat, rep) + ReplaceAll(b, pat, rep)
  {
    var c, t := a[0], a[1..];
    assert a == [c] + t;
    HeadMissAppend(a, b, pat);
    HeadMissCons(c, t, b, pat, rep);
    MissCons(c, t, b, pat, rep);
  }

  /** The head character is copied, both with and without `b`. */
  lemma HeadMissCons(c: char, t: string, b: string, pat: string, rep: string)
    requires pat != []
    requires |[c] + t| >= |pat| ==> ([c] + t)[..|pat|] != pat
    requires |[c] + t + b| >= |pat| ==> ([c] + t + b)[..|pat|] != pat
    ensures ReplaceAll([c] + t, pat, rep) == [c] + ReplaceAll(t, pat, rep)
    ensures ReplaceAll([c] + t + b, pat, rep) == [c] + ReplaceAll(t + b, pat, rep)
  {
    HeadMissOne(c, t, pat, rep);
    ConcatAssoc([c], t, b);
    HeadMissOne(c, t + b, pat, rep);
  }

  /** A head character that starts no occurrence is copied. */
  lemma HeadMissOne(c: char, u: string, pat: string, rep: string)
    requires pat != []
    requires |[c] + u| >= |pat| ==> ([c] + u)[..|pat|] != pat
    ensures ReplaceAll([c] + u, pat, rep) == [c] + ReplaceAll(u, pat, rep)
  {
    var s := [c] + u;
    assert s[0] == c && s[1..] == u;
    if |s| < |pat| {
      assert ReplaceAll(u, pat, rep) == u;
    }
  }

  lemma MissCons(c: char, t: string, b: string, pat: string, rep: string)
    requires ReplaceAll([c] + t + b, pat, rep) == [c] + ReplaceAll(t + b, pat, rep)
    requires ReplaceAll([c] + t, pat, rep) == [c] + ReplaceAll(t, pat, rep)
    requires ReplaceAll(t + b, pat, rep) == ReplaceAll(t, pat, rep) + ReplaceAll(b, pat, rep)
    ensures ReplaceAll([c] + t + b, pat, rep) == ReplaceAll([c] + t, pat, rep) + ReplaceAll(b, pat, rep)
  {
    ConcatAssoc([c], ReplaceAll(t, pat, rep), ReplaceAll(b, pat, rep));
  }

  /** No occurrence at the head of `a` and none at the head of `a + b`. */
  lemma HeadMissAppend(a: string, b: string, pat: string)
    requires a != [] && !(|a| >= |pat| && a[..|pat|] == pat)
    requires |a| < |pat| ==> !OccursAt(a + b, pat, 0)
    ensures (a + b)[0] == a[0]
    ensures |a + b| >= |pat| ==> (a + b)[..|pat|] != pat
  {
    var s := a + b;
    if |s| >= |pat| {
      if |a| >= |pat| {
        PrefixOfAppend(a, b, |pat|);
      } else {
        assert s[..|pat|] == s[0..0 + |pat|];
      }
    }
  }

  /** An occurrence in a suffix is an occurrence in the whole string. */
  lemma OccursShift(s: string, pat: string, k: nat, i: nat)
    requires k <= |s|
    ensures OccursAt(s[k..], pat, i) <==> OccursAt(s, pat, i + k)
  {
    if i + |pat| <= |s[k..]| {
      assert s[k..][i..i + |pat|] == s[i + k..i + k + |pat|];
    }
  }

  /** A leading occurrence is replaced and scanning resumes after it. */
  lemma ReplaceLeading(pat: string, rest: string, rep: string)
    requires pat != []
    ensures ReplaceAll(pat + rest, pat, rep) == rep + ReplaceAll(rest, pat, rep)
  {
    assert (pat + rest)[..|pat|] == pat;
    assert (pat + rest)[|pat|..] == rest;
  }

  /** Text that does not contain the first character of the pattern passes
      through unchanged, whatever follows it. */
  lemma {:induction false} ReplaceSkips(a: string, b: string, pat: string, rep: string)
    requires pat != [] && pat[0] !in a
    ensures ReplaceAll(a + b, pat, rep) == a + ReplaceAll(b, pat, rep)
  {
    if a == [] {
      assert a + b == b;
    } else {
      var c, t := a[0], a[1..];
      assert a == [c] + t;
      ReplaceSkips(t, b, pat, rep);
      ReplaceSkipsStep(c, t, b, pat, rep);
    }
  }

  /** Text in which the first two characters of the pattern never follow
      each other passes through unchanged, provided it does not end in the
      pattern's first character just before its second. */
  lemma {:induction false} ReplaceSkipsPair(a: string, b: string, pat: string, rep: string)
    requires |pat| >= 2
    requires forall k :: 0 <= k < |a| - 1 ==> !(a[k] == pat[0] && a[k + 1] == pat[1])
    requires a != [] && b != [] && a[|a| - 1] == pat[0] ==> b[0] != pat[1]
    ensures ReplaceAll(a + b, pat, rep) == a + ReplaceAll(b, pat, rep)
  {
    if a == [] {
      assert a + b == b;
    } else {
      var c, t := a[0], a[1..];
      assert a == [c] + t;
      assert forall k {:trigger t[k]} :: 0 <= k < |t| ==> t[k] == a[k + 1];
      ReplaceSkipsPair(t, b, pat, rep);
      assert c == pat[0] && t + b != [] ==> (t + b)[0] != pat[1] by {
        if t != [] {
          assert (t + b)[0] == a[1];
        } else {
          assert t + b == b;
        }
      }
      PairSkipStep(c, t, b, pat, rep);
    }
  }

  /** One step of `ReplaceSkipsPair`: a leading character that starts no
      occurrence is copied. */
  lemma PairSkipStep(c: char, t: string, b: string, pat: string, rep: string)
    requires |pat| >= 2
    requires c == pat[0] && t + b != [] ==> (t + b)[0] != pat[1]
    requires ReplaceAll(t + b, pat, rep) == t + ReplaceAll(b, pat, rep)
    ensures ReplaceAll([c] + t + b, pat, rep) == [c] + t + ReplaceAll(b, pat, rep)
  {
    var u := t + b;
    assert |[c] + u| >= |pat| ==> ([c] + u)[..|pat|] != pat by {
      if |[c] + u| >= |pat| {
        assert ([c] + u)[..|pat|][0] == c;
        assert ([c] + u)[..|pat|][1] == u[0];
      }
    }
    HeadMissOne(c, u, pat, rep);
    ConcatAssoc([c], t, b);
    ConcatAssoc([c], t, ReplaceAll(b, pat, rep));
  }

  /** The replacement of a non-empty string starts with its first
      character or with the replacement text. */
  lemma {:induction false} ReplaceHead(s: string, pat: string, rep: string)
    requires pat != [] && rep != []
    ensures s == [] <==> ReplaceAll(s, pat, rep) == []
    ensures s != [] ==> ReplaceAll(s, pat, rep)[0] == s[0] || ReplaceAll(s, pat, rep)[0] == rep[0]
  {
  }

  /** One step of `ReplaceSkips`: a further leading character is copied. */
  lemma ReplaceSkipsStep(c: char, t: string, b: string, pat: string, rep: string)
    requires pat != [] && c != pat[0]
    requires ReplaceAll(t + b, pat, rep) == t + ReplaceAll(b, pat, rep)
    ensures ReplaceAll([c] + t + b, pat, rep) == [c] + t + ReplaceAll(b, pat, rep)
  {
    var r := ReplaceAll(b, pat, rep);
    assert [c] + t + b == [c] + (t + b);
    assert [c] + t + r == [c] + (t + r);
    ReplaceCons(c, t + b, pat, rep);
  }

  /** A first character that cannot start the pattern is copied. */
  lemma ReplaceCons(c: char, t: string, pat: string, rep: string)
    requires pat != [] && c != pat[0]
    ensures ReplaceAll([c] + t, pat, rep) == [c] + ReplaceAll(t, pat, rep)
  {
    var s := [c] + t;
    assert s[1..] == t;
    if |s| < |pat| {
      assert ReplaceAll(t, pat, rep) == t;
    } else {
      assert s[..|pat|][0] == c;
    }
  }

  /** A prefix of the front part of a concatenation. */
  lemma PrefixOfAppend(a: string, b: string, n: nat)
    requires n <= |a|
    ensures (a + b)[..n] == a[..n]
  {
    assert forall k :: 0 <= k < n ==> (a + b)[k] == a[k];
  }

  /** Concatenation is associative. */
  lemma ConcatAssoc(a: string, b: string, c: string)
    ensures a + (b + c) == a + b + c
  {
  }

  /** Where the pattern does not start at the head, the head is copied. */
  lemma ReplaceHeadMismatch(s: string, pat: string, rep: string)
    requires pat != [] && s != []
    requires |s| >= |pat| ==> s[..|pat|] != pat
    ensures ReplaceAll(s, pat, rep) == [s[0]] + ReplaceAll(s[1..], pat, rep)
  {
    if |s| < |pat| {
      assert ReplaceAll(s[1..], pat, rep) == s[1..];
      assert s == [s[0]] + s[1..];
    }
  }

  /** The first position of `c` in `s`, `s.find(c)` in Python. */
  function FindChar(s: string, c: char): (r: Option<nat>)
    ensures r.None? <==> c !in s
    ensures r.Some? ==> r.value < |s| && s[r.value] == c && c !in s[..r.value]
  {
    if s == [] then None
    else if s[0] == c then Some(0)
    else
      var t := FindChar(s[1..], c);
      if t.None? then None
      else
        assert s[..t.value + 1] == [s[0]] + s[1..][..t.value];
        Some(t.value + 1)
  }

  /** `", ".join(xs)` and its kind. */
  function Join(sep: string, xs: seq<string>): (r: string)
    ensures xs == [] ==> r == ""
    ensures |xs| == 1 ==> r == xs[0]
  {
    if xs == [] then ""
    else if |xs| == 1 then xs[0]
    else Join(sep, xs[..|xs| - 1]) + sep + xs[|xs| - 1]
  }

  /** Joining one more string appends the separator and that string. */
  lemma JoinSnoc(sep: string, xs: seq<string>, x: string)
    requires xs != []
    ensures Join(sep, xs + [x]) == Join(sep, xs) + sep + x
  {
    var ys := xs + [x];
    assert ys[..|ys| - 1] == xs;
    assert ys[|ys| - 1] == x;
  }

  function Digit(d: nat): (c: char)
    requires d < 10
    ensures '0' <= c <= '9'
  {
    "0123456789"[d]
  }

  /** `str(n)` for a non-negative integer: its decimal digits. */
  function NatToString(n: nat): (s: string)
    ensures s != []
    ensures forall k :: 0 <= k < |s| ==> '0' <= s[k] <= '9'
  {
    if n < 10 then [Digit(n)] else NatToString(n / 10) + [Digit(n % 10)]
  }

  /** The value of a string of decimal digits, read most significant first. */
  function DigitsValue(s: string): nat
    requires forall k :: 0 <= k < |s| ==> '0' <= s[k] <= '9'
  {
    if s == [] then 0
    else DigitsValue(s[..|s| - 1]) * 10 + (s[|s| - 1] as int - '0' as int)
  }

  /** Reading back the digits of `str(n)` gives `n`: distinct numbers have
      distinct strings. */
  lemma {:induction false} NatToStringRoundTrip(n: nat)
    ensures DigitsValue(NatToString(n)) == n
  {
    var s := NatToString(n);
    if n < 10 {
      DigitValue(n);
      assert s[..0] == [];
    } else {
      var q, r := n / 10, n % 10;
      NatToStringRoundTrip(q);
      assert s[..|s| - 1] == NatToString(q);
      DigitValue(r);
    }
  }

  /** The digit character of `d` stands for `d`. */
  lemma DigitValue(d: nat)
    requires d < 10
    ensures Digit(d) as int - '0' as int == d
  {
    var digits := "0123456789";
    assert forall k :: 0 <= k < 10 ==> digits[k] as int == '0' as int + k;
  }

  lemma NatToStringInjective(m: nat, n: nat)
    requires NatToString(m) == NatToString(n)
    ensures m == n
  {
    NatToStringRoundTrip(m);
    NatToStringRoundTrip(n);
  }
}
