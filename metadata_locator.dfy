/**
 * Locating the embedded animation metadata in the page text:
 * `re.search(r'pixiv\.context\.ugokuIllustData\s+=(.+?);', text)` and its
 * first group.
 *
 * The search tries each start position from the left. At a start position the
 * marker must appear, then one or more whitespace characters (greedy; `=` is
 * not whitespace, so all of them are taken), then `=`, then the shortest
 * non-empty run of characters other than newline that is followed by `;`.
 */
module MetadataLocator {
  import opened Wrappers
  import opened Seqs

  const Marker: string := "pixiv.context.ugokuIllustData"

  /** Python's `\s` on `str` patterns: the characters `str.isspace` accepts. */
  predicate IsSpace(c: char)
  {
    || '\t' <= c <= '\r'
    || '\U{1C}' <= c <= '\U{1F}'
    || c == ' ' || c == '\U{85}' || c == '\U{A0}' || c == '\U{1680}'
    || '\U{2000}' <= c <= '\U{200A}'
    || c == '\U{2028}' || c == '\U{2029}' || c == '\U{202F}' || c == '\U{205F}' || c == '\U{3000}'
  }

  /** A match found by the search: where it starts, how many whitespace
      characters precede `=`, and the captured group. */
  datatype Match = Match(start: nat, spaces: nat, capture: string)

  /** Number of consecutive whitespace characters of `s` from index `i`. */
  function SpaceRun(s: string, i: nat): (n: nat)
    requires i <= |s|
    ensures i + n <= |s|
    ensures forall j | i <= j < i + n :: IsSpace(s[j])
    ensures i + n == |s| || !IsSpace(s[i + n])
    decreases |s| - i
  {
    if i < |s| && IsSpace(s[i]) then 1 + SpaceRun(s, i + 1) else 0
  }

  /** Index of the `;` that ends the lazy group, when the group so far ends
      just before index `i`: the first `;` from `i` on, provided no newline
      comes before it. */
  function LazyEnd(s: string, i: nat): (r: Option<nat>)
    requires i <= |s|
    ensures r.Some? ==> i <= r.value < |s| && s[r.value] == ';'
    ensures r.Some? ==> forall j | i <= j < r.value :: s[j] != ';' && s[j] != '\n'
    ensures r.None? ==> forall e | i <= e < |s| && s[e] == ';' :: !NoNewline(s[i..e])
    decreases |s| - i
  {
    if i == |s| then None
    else if s[i] == ';' then Some(i)
    else if s[i] == '\n' then
      assert forall e | i < e <= |s| :: s[i..e][0] == '\n';
      None
    else
      var r := LazyEnd(s, i + 1);
      assert forall e | i + 1 <= e <= |s| :: s[i + 1..e] == s[i..e][1..];
      r
  }

  /** The regular expression tried at start position `p` alone. */
  function MatchFrom(s: string, p: nat): (r: Option<Match>)
    requires p <= |s|
    ensures r.Some? ==> r.value.start == p
  {
    var m := p + |Marker|;
    if m <= |s| && s[p..m] == Marker then
      var w := SpaceRun(s, m);
      var q := m + w + 1;
      if w >= 1 && m + w < |s| && s[m + w] == '=' && q < |s| && s[q] != '\n' then
        match LazyEnd(s, q + 1)
        case Some(e) => Some(Match(p, w, s[q..e]))
        case None => None
      else None
    else None
  }

  /** `re.search` from start position `p` on. */
  function SearchFrom(s: string, p: nat): (r: Option<Match>)
    requires p <= |s|
    ensures r.Some? ==> p <= r.value.start <= |s| && MatchFrom(s, r.value.start) == r
    decreases |s| - p
  {
    match MatchFrom(s, p)
    case Some(m) => Some(m)
    case None => if p == |s| then None else SearchFrom(s, p + 1)
  }

  function Search(s: string): Option<Match>
  {
    SearchFrom(s, 0)
  }

  /** The captured metadata text, if the page has the assignment. */
  function Locate(s: string): Option<string>
  {
    match Search(s)
    case None => None
    case Some(m) => Some(m.capture)
  }

  // ---------------------------------------------------------------------
  // The pattern, stated declaratively
  // ---------------------------------------------------------------------

  /** The text matches the pattern from `p`, with `w` whitespace characters
      before `=` and group `c`. */
  ghost predicate IsMatch(s: string, p: nat, w: nat, c: string)
  {
    var m := p + |Marker|;
    var q := m + w + 1;
    && q + |c| < |s|
    && s[p..m] == Marker
    && w >= 1 && (forall j | m <= j < m + w :: IsSpace(s[j]))
    && s[m + w] == '='
    && |c| >= 1 && s[q..q + |c|] == c && NoNewline(c)
    && s[q + |c|] == ';'
  }

  // ---------------------------------------------------------------------
  // Lemmas
  // ---------------------------------------------------------------------

  lemma SpaceRunUnique(s: string, i: nat, n: nat)
    requires i + n <= |s|
    requires forall j | i <= j < i + n :: IsSpace(s[j])
    requires i + n == |s| || !IsSpace(s[i + n])
    ensures SpaceRun(s, i) == n
  {
    var k := SpaceRun(s, i);
  }

  /** A match at one position is a match of the pattern there, and its group
      has no `;` after its first character: it is the shortest possible. */
  lemma MatchFromSound(s: string, p: nat)
    requires p <= |s| && MatchFrom(s, p).Some?
    ensures var r := MatchFrom(s, p).value;
      && r.start == p
      && IsMatch(s, p, r.spaces, r.capture)
      && forall k | 1 <= k < |r.capture| :: r.capture[k] != ';'
  {
    var r := MatchFrom(s, p).value;
    var m := p + |Marker|;
    var q := m + r.spaces + 1;
    var e := LazyEnd(s, q + 1).value;
    assert r.capture == s[q..e];
    assert s[q..q + |r.capture|] == r.capture;
  }

  /** Whenever the pattern can match at `p`, the search at `p` succeeds, with
      the same whitespace run and a group that is a prefix of any other
      possible group. */
  lemma MatchFromComplete(s: string, p: nat, w: nat, c: string)
    requires IsMatch(s, p, w, c)
    ensures MatchFrom(s, p).Some?
    ensures var r := MatchFrom(s, p).value; r.spaces == w && r.capture <= c
  {
    var m := p + |Marker|;
    var q := m + w + 1;
    SpaceRunUnique(s, m, w);
    assert s[q] == c[0];
    var e := q + |c|;
    assert forall j | q + 1 <= j < e :: s[j] == c[j - q];
    assert s[q + 1..e] == c[1..];
    var end := LazyEnd(s, q + 1).value;
    assert end <= e;
    assert s[q..end] == c[..end - q];
  }

  /** The search from `p` finds the leftmost start position at or after `p`. */
  lemma {:induction false} SearchFromSound(s: string, p: nat)
    requires p <= |s| && SearchFrom(s, p).Some?
    ensures forall p' | p <= p' < SearchFrom(s, p).value.start :: MatchFrom(s, p').None?
    decreases |s| - p
  {
    var here := MatchFrom(s, p);
    if here.None? {
      var r := SearchFrom(s, p + 1);
      assert SearchFrom(s, p) == r;
      SearchFromSound(s, p + 1);
      forall p' | p <= p' < r.value.start ensures MatchFrom(s, p').None? {
        if p' == p {
          assert MatchFrom(s, p') == here;
        }
      }
    }
  }

  lemma {:induction false} SearchFromComplete(s: string, from: nat, p: nat, w: nat, c: string)
    requires from <= p && IsMatch(s, p, w, c)
    ensures SearchFrom(s, from).Some?
    decreases p - from
  {
    if MatchFrom(s, from).None? {
      if from == p {
        MatchFromComplete(s, p, w, c);
      } else {
        SearchFromComplete(s, from + 1, p, w, c);
      }
    }
  }

  /** Soundness: what the search finds is a match of the pattern; no match of
      the pattern starts further left; and its group is the shortest one at
      that start. */
  lemma SearchSound(s: string)
    requires Search(s).Some?
    ensures var r := Search(s).value;
      && IsMatch(s, r.start, r.spaces, r.capture)
      && (forall p: nat, w: nat, c: string | p < r.start :: !IsMatch(s, p, w, c))
      && (forall w: nat, c: string | IsMatch(s, r.start, w, c) :: r.capture <= c)
  {
    var r := Search(s).value;
    SearchFromSound(s, 0);
    MatchFromSound(s, r.start);
    forall p: nat, w: nat, c: string | p < r.start ensures !IsMatch(s, p, w, c) {
      if IsMatch(s, p, w, c) {
        MatchFromComplete(s, p, w, c);
      }
    }
    forall w: nat, c: string | IsMatch(s, r.start, w, c) ensures r.capture <= c {
      MatchFromComplete(s, r.start, w, c);
    }
  }

  /** Completeness: if the pattern matches anywhere, the search finds a match,
      starting no further right. */
  lemma SearchComplete(s: string, p: nat, w: nat, c: string)
    requires IsMatch(s, p, w, c)
    ensures Search(s).Some? && Search(s).value.start <= p
  {
    SearchFromComplete(s, 0, p, w, c);
    SearchSound(s);
  }

  /** What the locator returns is non-empty, newline-free, and the group of a
      match of the pattern. */
  lemma LocateCapture(s: string)
    requires Locate(s).Some?
    ensures |Locate(s).value| >= 1 && NoNewline(Locate(s).value)
    ensures Search(s).Some? && Locate(s).value == Search(s).value.capture
  {
    SearchSound(s);
  }

  /** The locator finds nothing exactly when the pattern matches nowhere. */
  lemma LocateNone(s: string)
    ensures Locate(s).None? <==> forall p: nat, w: nat, c: string :: !IsMatch(s, p, w, c)
  {
    if Locate(s).Some? {
      SearchSound(s);
    }
    forall p: nat, w: nat, c: string | IsMatch(s, p, w, c) ensures Locate(s).Some? {
      SearchComplete(s, p, w, c);
    }
  }
}
