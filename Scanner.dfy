/**
 * The placeholder scanner: `PARAM_PATTERN`, the regular expression `\{(.*?)\}`,
 * driven by `Matcher.find` from left to right.
 *
 * A match opens with `{`, runs lazily over characters that Java's `.` accepts
 * (anything except a line terminator) and closes at the first `}`. `find`
 * restarts at the end of the previous match, so the matches of one scan never
 * overlap.
 */
module Scanner {
  import opened Wrappers

  /** The half-open range [start, end) of the template taken by one match. */
  datatype Span = Span(start: nat, end: nat)

  /** The characters Java's `.` does not match when DOTALL and UNIX_LINES are off. */
  predicate IsLineTerminator(c: char) {
    c == '\n' || c == '\r' || c == '\U{85}' || c == '\U{2028}' || c == '\U{2029}'
  }

  /** s[a..b] is a run the lazy `.*?` can cross: no `}` (where it would stop) and no line terminator. */
  predicate Clean(s: string, a: nat, b: nat)
    requires b <= |s|
  {
    forall k :: a <= k < b ==> s[k] != '}' && !IsLineTerminator(s[k])
  }

  /** Declarative reading of `\{(.*?)\}`: m is a match of the template s starting at m.start. */
  predicate IsMatch(s: string, m: Span) {
    && m.start + 2 <= m.end <= |s|
    && s[m.start] == '{'
    && s[m.end - 1] == '}'
    && Clean(s, m.start + 1, m.end - 1)
  }

  /** No match of the pattern starts anywhere in [a, b). */
  ghost predicate NoMatchIn(s: string, a: nat, b: nat) {
    forall p: nat, e: nat :: a <= p < b ==> !IsMatch(s, Span(p, e))
  }

  /** A match starting at a given position is unique: the lazy body stops at the first `}`. */
  lemma MatchEndIsUnique(s: string, p: nat, e1: nat, e2: nat)
    requires IsMatch(s, Span(p, e1)) && IsMatch(s, Span(p, e2))
    ensures e1 == e2
  {
  }

  /**
   * The lazy `.*?` followed by `\}`, started at position k: the index of the
   * closing `}`, or None when a line terminator or the end of the template
   * comes first.
   */
  function CloseFrom(s: string, k: nat): (r: Option<nat>)
    requires k <= |s|
    ensures r.Some? ==> k <= r.value < |s| && s[r.value] == '}' && Clean(s, k, r.value)
    ensures forall q :: k <= q < |s| && s[q] == '}' && Clean(s, k, q) ==> r == Some(q)
    decreases |s| - k
  {
    if k == |s| then None
    else if s[k] == '}' then Some(k)
    else if IsLineTerminator(s[k]) then None
    else CloseFrom(s, k + 1)
  }

  /** One attempt of the regex at position p. */
  function MatchAt(s: string, p: nat): (r: Option<Span>)
    requires p < |s|
    ensures r.Some? ==> r.value.start == p && IsMatch(s, r.value)
    ensures r.None? ==> forall e: nat :: !IsMatch(s, Span(p, e))
  {
    if s[p] != '{' then None
    else match CloseFrom(s, p + 1)
      case Some(q) => Some(Span(p, q + 1))
      case None =>
        assert forall e: nat :: IsMatch(s, Span(p, e)) ==> CloseFrom(s, p + 1) == Some(e - 1);
        None
  }

  /** `Matcher.find` from position `from`: the leftmost match starting at or after it. */
  function NextMatch(s: string, from: nat): (r: Option<Span>)
    requires from <= |s|
    ensures r.Some? ==> from <= r.value.start && IsMatch(s, r.value) && NoMatchIn(s, from, r.value.start)
    ensures r.None? ==> NoMatchIn(s, from, |s|)
    decreases |s| - from
  {
    if from == |s| then None
    else match MatchAt(s, from)
      case Some(m) => Some(m)
      case None => NextMatch(s, from + 1)
  }

  /** Where the literal text before match k begins: the template start, or the end of match k - 1. */
  function GapStart(ms: seq<Span>, from: nat, k: nat): nat
    requires k <= |ms|
  {
    if k == 0 then from else ms[k - 1].end
  }

  /** Where the literal text before match k ends: the start of match k, or the template end. */
  function GapEnd(s: string, ms: seq<Span>, k: nat): nat
    requires k <= |ms|
  {
    if k == |ms| then |s| else ms[k].start
  }

  /** ms are matches of s, in order, the first at or after `from`, each at or after the end of the one before. */
  predicate Ordered(s: string, ms: seq<Span>, from: nat) {
    && from <= |s|
    && (forall k :: 0 <= k < |ms| ==> IsMatch(s, ms[k]))
    && (0 < |ms| ==> from <= ms[0].start)
    && (forall k :: 0 < k < |ms| ==> ms[k - 1].end <= ms[k].start)
  }

  /** Between consecutive ordered matches lies a well-formed, possibly empty, literal gap. */
  lemma GapIsRange(s: string, ms: seq<Span>, from: nat, k: nat)
    requires Ordered(s, ms, from) && k <= |ms|
    ensures GapStart(ms, from, k) <= GapEnd(s, ms, k) <= |s|
  {
  }

  /**
   * All matches `find` returns when called repeatedly from position `from`:
   * matches of the pattern, in increasing order, none overlapping the next.
   */
  function MatchesFrom(s: string, from: nat): (r: seq<Span>)
    requires from <= |s|
    ensures Ordered(s, r, from)
    decreases |s| - from
  {
    match NextMatch(s, from)
    case None => []
    case Some(m) => [m] + MatchesFrom(s, m.end)
  }

  /** The scan is leftmost: no match of the pattern starts in the text left between the matches it returns. */
  lemma {:induction false} GapsHoldNoMatch(s: string, from: nat, k: nat)
    requires from <= |s| && k <= |MatchesFrom(s, from)|
    ensures NoMatchIn(s, GapStart(MatchesFrom(s, from), from, k), GapEnd(s, MatchesFrom(s, from), k))
    decreases |s| - from
  {
    var r := MatchesFrom(s, from);
    match NextMatch(s, from)
    case None =>
      assert GapStart(r, from, k) == from && GapEnd(s, r, k) == |s|;
    case Some(m) =>
      if k == 0 {
        assert GapStart(r, from, k) == from && GapEnd(s, r, k) == m.start;
      } else {
        GapsHoldNoMatch(s, m.end, k - 1);
        assert GapStart(r, from, k) == GapStart(MatchesFrom(s, m.end), m.end, k - 1);
        assert GapEnd(s, r, k) == GapEnd(s, MatchesFrom(s, m.end), k - 1);
      }
  }

  /** Cutting a string at two points and joining the three pieces gives it back. */
  lemma SplitSuffix(s: string, a: nat, b: nat, c: nat)
    requires a <= b <= c <= |s|
    ensures s[a..] == s[a..b] + s[b..c] + s[c..]
  {
  }

  /** The matches of one full scan of the template. */
  function Matches(s: string): seq<Span> {
    MatchesFrom(s, 0)
  }

  /** Position p lies inside span m. */
  predicate Inside(m: Span, p: nat) {
    m.start <= p < m.end
  }

  /** Position p lies inside one of the spans ms. */
  ghost predicate StartsInside(ms: seq<Span>, p: nat) {
    exists k :: 0 <= k < |ms| && Inside(ms[k], p)
  }

  /**
   * Maximality of the scan: every match of the pattern that starts at or
   * after `from` starts inside one of the matches `find` returned, so `find`
   * never skips a placeholder it could have taken.
   */
  lemma {:induction false} EveryMatchStartsInAChosenOne(s: string, from: nat, p: nat, e: nat)
    requires from <= |s| && from <= p && IsMatch(s, Span(p, e))
    ensures StartsInside(MatchesFrom(s, from), p)
    decreases |s| - from
  {
    var ms := MatchesFrom(s, from);
    match NextMatch(s, from)
    case None =>
      assert false;
    case Some(m) =>
      assert ms[0] == m;
      if p < m.start {
        assert false;
      } else if p >= m.end {
        EveryMatchStartsInAChosenOne(s, m.end, p, e);
        var k :| 0 <= k < |MatchesFrom(s, m.end)| && Inside(MatchesFrom(s, m.end)[k], p);
        assert ms[k + 1] == MatchesFrom(s, m.end)[k];
      } else {
        assert Inside(ms[0], p);
      }
  }

  /** The scan finds nothing exactly when no match of the pattern exists in the template. */
  lemma NoMatchesIffNoPlaceholder(s: string)
    ensures Matches(s) == [] <==> NoMatchIn(s, 0, |s|)
  {
    var ms := Matches(s);
    if ms != [] {
      assert IsMatch(s, Span(ms[0].start, ms[0].end));
    } else {
      GapsHoldNoMatch(s, 0, 0);
      assert GapStart(ms, 0, 0) == 0 && GapEnd(s, ms, 0) == |s|;
    }
  }
}
