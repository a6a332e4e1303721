/**
 * The archive-URL rewrite of `get_ugoira_frames`:
 * `re.sub(r'ugoira\d+x\d+', 'ugoira1920x1080', src)`.
 *
 * The pattern is tried at each position from left to right; where it matches,
 * the matched text is replaced and scanning resumes just after it; elsewhere
 * the character is copied. Both digit runs are greedy, and since neither `x`
 * nor the character after the second run can be a digit, a match always
 * takes the longest digit runs available.
 */
module UrlRewrite {
  import opened Wrappers
  import opened Duration
  import opened Seqs

  const Prefix: string := "ugoira"

  /** The token every match is replaced with. */
  const Replacement: string := "ugoira1920x1080"

  /** Number of consecutive digits of `s` starting at index `i`. */
  function DigitRun(s: string, i: nat): (n: nat)
    requires i <= |s|
    ensures i + n <= |s|
    ensures forall j | i <= j < i + n :: IsDigit(s[j])
    ensures i + n == |s| || !IsDigit(s[i + n])
    decreases |s| - i
  {
    if i < |s| && IsDigit(s[i]) then 1 + DigitRun(s, i + 1) else 0
  }

  /** Length of the match of `ugoira\d+x\d+` at the start of `s`, if any. */
  function MatchAt(s: string): (r: Option<nat>)
    ensures r.Some? ==> 9 <= r.value <= |s|
  {
    if |s| >= |Prefix| && s[..|Prefix|] == Prefix then
      var w := DigitRun(s, 6);
      if w > 0 && 6 + w < |s| && s[6 + w] == 'x' then
        var h := DigitRun(s, 7 + w);
        if h > 0 then Some(7 + w + h) else None
      else None
    else None
  }

  /** `re.sub(r'ugoira\d+x\d+', 'ugoira1920x1080', s)`. */
  function Rewrite(s: string): string
    decreases |s|
  {
    if s == [] then []
    else match MatchAt(s)
      case Some(n) => Replacement + Rewrite(s[n..])
      case None => [s[0]] + Rewrite(s[1..])
  }

  // ---------------------------------------------------------------------
  // The pattern, stated declaratively
  // ---------------------------------------------------------------------

  /** `t` is `ugoira`, one or more digits, `x` at index `k`, one or more
      digits. */
  ghost predicate IsTokenSplit(t: string, k: nat)
  {
    && 6 < k && k + 1 < |t|
    && t[..6] == Prefix
    && (forall j | 6 <= j < k :: IsDigit(t[j]))
    && t[k] == 'x'
    && (forall j | k < j < |t| :: IsDigit(t[j]))
  }

  /** `t` is a whole `ugoira\d+x\d+` token. */
  ghost predicate IsToken(t: string)
  {
    exists k: nat :: IsTokenSplit(t, k)
  }

  // ---------------------------------------------------------------------
  // Lemmas
  // ---------------------------------------------------------------------

  /** A digit run is at least as long as any all-digit stretch from `i`. */
  lemma {:induction false} DigitRunAtLeast(s: string, i: nat, j: nat)
    requires i <= j <= |s|
    requires forall l | i <= l < j :: IsDigit(s[l])
    ensures DigitRun(s, i) >= j - i
    decreases j - i
  {
    if i < j {
      DigitRunAtLeast(s, i + 1, j);
    }
  }

  /** What `MatchAt` finds is a token that is not followed by a digit. */
  lemma MatchAtSound(s: string)
    requires MatchAt(s).Some?
    ensures IsToken(s[..MatchAt(s).value])
    ensures MatchAt(s).value == |s| || !IsDigit(s[MatchAt(s).value])
  {
    var n := MatchAt(s).value;
    var w := DigitRun(s, 6);
    var t := s[..n];
    assert t[..6] == s[..6];
    assert IsTokenSplit(t, 6 + w);
  }

  /** Any token at the start of `s` is found by `MatchAt`, which takes the
      longest one: the second digit run is greedy. */
  lemma MatchAtComplete(s: string, m: nat)
    requires m <= |s| && IsToken(s[..m])
    ensures MatchAt(s).Some? && m <= MatchAt(s).value
    ensures m == |s| || !IsDigit(s[m]) ==> MatchAt(s) == Some(m)
  {
    var t := s[..m];
    var k: nat :| IsTokenSplit(t, k);
    assert s[..6] == t[..6];
    assert forall j | 0 <= j < m :: s[j] == t[j];
    DigitRunUnique(s, 6, k - 6);
    DigitRunAtLeast(s, k + 1, m);
    if m == |s| || !IsDigit(s[m]) {
      DigitRunUnique(s, k + 1, m - k - 1);
    }
  }

  /** `MatchAt` is exactly "the longest token at the start": it returns `n`
      precisely when the first `n` characters form a token and the next one,
      if any, is not a digit. */
  lemma MatchAtIff(s: string, n: nat)
    ensures MatchAt(s) == Some(n) <==> n <= |s| && IsToken(s[..n]) && (n == |s| || !IsDigit(s[n]))
  {
    if MatchAt(s) == Some(n) {
      MatchAtSound(s);
    }
    if n <= |s| && IsToken(s[..n]) && (n == |s| || !IsDigit(s[n])) {
      MatchAtComplete(s, n);
    }
  }

  /** No match at the start exactly when no prefix is a token. */
  lemma MatchAtNone(s: string)
    ensures MatchAt(s).None? <==> forall m: nat | m <= |s| :: !IsToken(s[..m])
  {
    if MatchAt(s).Some? {
      MatchAtSound(s);
    }
    forall m: nat | m <= |s| && IsToken(s[..m]) ensures MatchAt(s).Some? {
      MatchAtComplete(s, m);
    }
  }

  /** A digit run is fixed by the characters it covers and the one after it. */
  lemma DigitRunUnique(s: string, i: nat, n: nat)
    requires i + n <= |s|
    requires forall j | i <= j < i + n :: IsDigit(s[j])
    requires i + n == |s| || !IsDigit(s[i + n])
    ensures DigitRun(s, i) == n
  {
    var m := DigitRun(s, i);
  }

  /** Every match starts with `u`, and `u` occurs nowhere else inside it. */
  lemma MatchShape(s: string)
    requires MatchAt(s).Some?
    ensures s[0] == 'u'
    ensures forall j | 1 <= j < MatchAt(s).value :: s[j] != 'u'
  {
    assert s[..6] == Prefix;
    assert forall j | 1 <= j < 6 :: s[j] == Prefix[j];
  }

  /** A match is decided by the characters it covers and by whether the next
      one is a digit. */
  lemma MatchTransfer(x: string, y: string, n: nat)
    requires MatchAt(x) == Some(n)
    requires n <= |y| && x[..n] == y[..n]
    requires n < |x| <==> n < |y|
    requires n < |x| ==> (IsDigit(x[n]) <==> IsDigit(y[n]))
    ensures MatchAt(y) == Some(n)
  {
    assert forall j | 0 <= j < n :: x[j] == y[j] by {
      forall j | 0 <= j < n ensures x[j] == y[j] { assert x[..n][j] == y[..n][j]; }
    }
    assert x[..6] == Prefix;
    assert y[..6] == x[..6];
    var w := DigitRun(x, 6);
    DigitRunUnique(y, 6, w);
    var h := DigitRun(x, 7 + w);
    DigitRunUnique(y, 7 + w, h);
  }

  /** The replacement token matches itself whenever it is not followed by a
      digit. */
  lemma ReplacementMatches(rest: string)
    requires rest == [] || !IsDigit(rest[0])
    ensures MatchAt(Replacement + rest) == Some(|Replacement|)
  {
    var s := Replacement + rest;
    assert s[..6] == Prefix;
    assert forall j | 0 <= j < 15 :: s[j] == Replacement[j];
    DigitRunUnique(s, 6, 4);
    DigitRunUnique(s, 11, 4);
  }

  /** Up to the first `u` of the output, the rewrite copies its input; at that
      point both either end or continue with characters that agree on being
      digits. */
  lemma {:induction false} RewriteAgreesBeforeU(t: string, k: nat)
    requires k <= |Rewrite(t)|
    requires forall j | 0 <= j < k :: Rewrite(t)[j] != 'u'
    ensures k <= |t| && Rewrite(t)[..k] == t[..k]
    ensures k < |Rewrite(t)| <==> k < |t|
    ensures k < |t| ==> (IsDigit(Rewrite(t)[k]) <==> IsDigit(t[k]))
  {
    if t == [] {
    } else {
      match MatchAt(t)
      case Some(n) =>
        MatchShape(t);
        assert Rewrite(t)[0] == 'u';
        assert k == 0;
      case None =>
        var w := Rewrite(t[1..]);
        assert Rewrite(t) == [t[0]] + w;
        if k > 0 {
          assert forall j | 0 <= j < k - 1 :: w[j] != 'u' by {
            forall j | 0 <= j < k - 1 ensures w[j] != 'u' { assert Rewrite(t)[j + 1] == w[j]; }
          }
          RewriteAgreesBeforeU(t[1..], k - 1);
          assert Rewrite(t)[..k] == [t[0]] + w[..k - 1];
          assert t[..k] == [t[0]] + t[1..][..k - 1];
        }
    }
  }

  /** The output starts with a digit exactly when the input does. */
  lemma RewriteFirstDigit(t: string)
    ensures Rewrite(t) == [] <==> t == []
    ensures t != [] ==> (IsDigit(Rewrite(t)[0]) <==> IsDigit(t[0]))
  {
    RewriteAgreesBeforeU(t, 0);
  }

  /** A position where the pattern does not match still does not match once
      the rest of the string has been rewritten. */
  lemma NoMatchKept(t: string)
    requires t != [] && MatchAt(t).None?
    ensures MatchAt([t[0]] + Rewrite(t[1..])).None?
  {
    var c, v := t[0], t[1..];
    var w := Rewrite(v);
    assert t == [c] + v;
    if MatchAt([c] + w).Some? {
      var n := MatchAt([c] + w).value;
      NoUAfterFirst(c, w, n);
      RewriteAgreesBeforeU(v, n - 1);
      MatchLiftsBack(c, w, v, n);
      assert false;
    }
  }

  lemma NoUAfterFirst(c: char, w: string, n: nat)
    requires MatchAt([c] + w) == Some(n)
    ensures n - 1 <= |w| && forall j | 0 <= j < n - 1 :: w[j] != 'u'
  {
    var x := [c] + w;
    MatchShape(x);
    forall j | 0 <= j < n - 1 ensures w[j] != 'u' { assert x[j + 1] == w[j]; }
  }

  /** A match over `c` and a rewritten tail `w` is also a match over `c` and the
      original tail `v`, when `w` and `v` agree as far as the match reaches. */
  lemma MatchLiftsBack(c: char, w: string, v: string, n: nat)
    requires MatchAt([c] + w) == Some(n)
    requires n - 1 <= |w| && n - 1 <= |v| && w[..n - 1] == v[..n - 1]
    requires n - 1 < |w| <==> n - 1 < |v|
    requires n - 1 < |v| ==> (IsDigit(w[n - 1]) <==> IsDigit(v[n - 1]))
    ensures MatchAt([c] + v) == Some(n)
  {
    var x, y := [c] + w, [c] + v;
    PrefixCons(c, w, v, n);
    if n < |x| {
      assert x[n] == w[n - 1] && y[n] == v[n - 1];
    }
    MatchTransfer(x, y, n);
  }

  lemma PrefixCons(c: char, w: string, v: string, n: nat)
    requires 1 <= n <= |w| + 1 && n <= |v| + 1 && w[..n - 1] == v[..n - 1]
    ensures ([c] + w)[..n] == ([c] + v)[..n]
  {
    assert ([c] + w)[..n] == [c] + w[..n - 1];
    assert ([c] + v)[..n] == [c] + v[..n - 1];
  }

  /** Rewriting is idempotent: the output holds no token other than the
      replacement, and the replacement rewrites to itself. */
  lemma {:induction false} RewriteIdempotent(s: string)
    ensures Rewrite(Rewrite(s)) == Rewrite(s)
    decreases |s|
  {
    if s != [] {
      match MatchAt(s)
      case Some(n) =>
        var w := Rewrite(s[n..]);
        RewriteFirstDigit(s[n..]);
        ReplacementMatches(w);
        assert (Replacement + w)[|Replacement|..] == w;
        RewriteIdempotent(s[n..]);
      case None =>
        var w := Rewrite(s[1..]);
        NoMatchKept(s);
        assert ([s[0]] + w)[1..] == w;
        RewriteIdempotent(s[1..]);
        assert Rewrite([s[0]] + w) == [s[0]] + Rewrite(w);
    }
  }

  /** A string in which the pattern matches nowhere is returned unchanged. */
  lemma {:induction false} RewriteNoToken(s: string)
    requires forall i | 0 <= i <= |s| :: MatchAt(s[i..]).None?
    ensures Rewrite(s) == s
    decreases |s|
  {
    if s != [] {
      assert MatchAt(s[0..]).None?;
      assert s[0..] == s;
      assert forall i | 0 <= i <= |s[1..]| :: s[1..][i..] == s[i + 1..];
      RewriteNoToken(s[1..]);
    }
  }

  /** A string that does not start with `u` has no match at its start. */
  lemma NoMatchWithoutU(s: string)
    requires s == [] || s[0] != 'u'
    ensures MatchAt(s).None?
  {
    if MatchAt(s).Some? {
      MatchShape(s);
    }
  }

  /** The resolution-substitution example. */
  lemma RewriteExample()
    ensures Rewrite("/img/" + "ugoira600x600" + ".zip") == "/img/" + Replacement + ".zip"
  {
    var t := "ugoira600x600" + ".zip";
    ExampleMatch(t);
    assert t[13..] == ".zip";
    RewriteNoU(".zip");
    assert Rewrite(t) == Replacement + ".zip";
    RewriteNoU("/img/");
    RewritePassThrough("/img/", t);
    assert "/img/" + "ugoira600x600" + ".zip" == "/img/" + t;
  }

  lemma ExampleMatch(t: string)
    requires t == "ugoira600x600" + ".zip"
    ensures MatchAt(t) == Some(13)
  {
    assert t[..6] == Prefix;
    DigitRunUnique(t, 6, 3);
    DigitRunUnique(t, 10, 3);
  }

  /** A string without any `u` is left unchanged. */
  lemma {:induction false} RewriteNoU(p: string)
    requires forall i | 0 <= i < |p| :: p[i] != 'u'
    ensures Rewrite(p) == p
  {
    if p != [] {
      NoMatchWithoutU(p);
      RewriteNoU(p[1..]);
    }
  }

  /** Characters before which no match can start are copied unchanged. */
  lemma {:induction false} RewritePassThrough(p: string, t: string)
    requires forall i | 0 <= i < |p| :: p[i] != 'u'
    ensures Rewrite(p + t) == p + Rewrite(t)
  {
    if p != [] {
      var c, q := p[0], p[1..];
      assert p == [c] + q;
      AppendAssoc([c], q, t);
      NoMatchWithoutU([c] + (q + t));
      assert ([c] + (q + t))[1..] == q + t;
      assert Rewrite([c] + (q + t)) == [c] + Rewrite(q + t);
      RewritePassThrough(q, t);
      AppendAssoc([c], q, Rewrite(t));
    } else {
      assert p + t == t;
    }
  }
}
