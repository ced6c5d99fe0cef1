/**
 * Templates built from literal text and placeholder bodies, and what the
 * scanner makes of them: the scan of lit_0 + `{body_0}` + lit_1 + ... +
 * lit_n, with no `{` in the literals and no `}` or line terminator in the
 * bodies, returns exactly the n placeholders, with exactly lit_0 .. lit_n
 * between them.
 */
module TemplateAssembly {
  import opened Wrappers
  import opened Scanner

  /** A placeholder body the lazy `.*?` crosses in full: no `}` and no line terminator. */
  predicate PlainBody(body: string) {
    && '}' !in body && '\n' !in body && '\r' !in body
    && '\U{85}' !in body && '\U{2028}' !in body && '\U{2029}' !in body
  }

  /**
   * Resumed after `pre`, `find` skips literal text without `{` and returns
   * the placeholder `{body}` that follows it.
   */
  lemma PlaceholderFound(pre: string, lit: string, body: string, post: string)
    requires '{' !in lit && PlainBody(body)
    ensures var s := pre + lit + "{" + body + "}" + post;
      |pre| <= |s| && NextMatch(s, |pre|) == Some(Span(|pre| + |lit|, |pre| + |lit| + |body| + 2))
  {
    var s := pre + lit + "{" + body + "}" + post;
    var p := |pre| + |lit|;
    var e := p + |body| + 2;
    assert s[p] == '{' && s[e - 1] == '}';
    assert Clean(s, p + 1, e - 1) by {
      forall i | p + 1 <= i < e - 1
        ensures s[i] != '}' && !IsLineTerminator(s[i])
      {
        assert s[i] == body[i - p - 1];
        assert body[i - p - 1] in body;
      }
    }
    assert IsMatch(s, Span(p, e));
    match NextMatch(s, |pre|)
    case None =>
      assert false;
    case Some(m) =>
      if m.start < p {
        assert false;
      }
      MatchEndIsUnique(s, p, m.end, e);
  }

  /** Resumed after `pre`, `find` finds nothing in a tail without `{`. */
  lemma NoFurtherPlaceholder(pre: string, post: string)
    requires '{' !in post
    ensures NextMatch(pre + post, |pre|) == None
  {
    var s := pre + post;
    match NextMatch(s, |pre|)
    case None =>
    case Some(m) =>
      assert false;
  }

  /** One match found: the scan from `from` is that match followed by the scan resumed after it. */
  lemma ScanStep(s: string, from: nat, m: Span)
    requires from <= |s| && NextMatch(s, from) == Some(m)
    ensures m.end <= |s| && MatchesFrom(s, from) == [m] + MatchesFrom(s, m.end)
  {
  }

  /** The literal and the placeholder can be cut back out of pre + lit + `{body}` + post. */
  lemma PiecesOf(pre: string, lit: string, body: string, post: string)
    ensures var s := pre + lit + "{" + body + "}" + post; var p := |pre| + |lit|;
      && p + |body| + 2 <= |s|
      && s[|pre|..p] == lit
      && s[p..p + |body| + 2] == "{" + body + "}"
  {
    var s := pre + lit + "{" + body + "}" + post;
    var p := |pre| + |lit|;
    assert s == pre + (lit + ("{" + body + "}" + post));
    assert s[|pre|..] == lit + ("{" + body + "}" + post);
    assert s[p..] == "{" + body + "}" + post;
  }

  /** lit_0 + `{` + body_0 + `}` + lit_1 + ... + `{` + body_{n-1} + `}` + lit_n. */
  function Assemble(lits: seq<string>, bodies: seq<string>): string
    requires |lits| == |bodies| + 1
    decreases |bodies|
  {
    if bodies == [] then lits[0]
    else lits[0] + "{" + bodies[0] + "}" + Assemble(lits[1..], bodies[1..])
  }

  /** Literals without `{` and bodies the lazy `.*?` crosses in full. */
  predicate PlainParts(lits: seq<string>, bodies: seq<string>) {
    && (forall k :: 0 <= k < |lits| ==> '{' !in lits[k])
    && (forall k :: 0 <= k < |bodies| ==> PlainBody(bodies[k]))
  }

  /**
   * The spans ms, found from `from` on, are the placeholders `{body_k}` of s
   * with the literals lit_k between them.
   */
  predicate Recovers(s: string, from: nat, ms: seq<Span>, lits: seq<string>, bodies: seq<string>) {
    && |ms| == |bodies| && |lits| == |bodies| + 1
    && (forall k :: 0 <= k < |ms| ==>
          ms[k].start <= ms[k].end <= |s| && s[ms[k].start..ms[k].end] == "{" + bodies[k] + "}")
    && (forall k :: 0 <= k <= |ms| ==>
          GapStart(ms, from, k) <= GapEnd(s, ms, k) <= |s| && s[GapStart(ms, from, k)..GapEnd(s, ms, k)] == lits[k])
  }

  /** A first placeholder and literal put in front of recovered parts. */
  lemma RecoversCons(s: string, from: nat, m: Span, ms: seq<Span>, lits: seq<string>, bodies: seq<string>)
    requires |lits| == |bodies| + 1 && 0 < |bodies|
    requires from <= m.start <= m.end <= |s|
    requires s[from..m.start] == lits[0] && s[m.start..m.end] == "{" + bodies[0] + "}"
    requires Recovers(s, m.end, ms, lits[1..], bodies[1..])
    ensures Recovers(s, from, [m] + ms, lits, bodies)
  {
    var ms' := [m] + ms;
    forall k | 0 < k < |ms'|
      ensures ms'[k].start <= ms'[k].end <= |s| && s[ms'[k].start..ms'[k].end] == "{" + bodies[k] + "}"
    {
      assert ms'[k] == ms[k - 1];
      assert bodies[k] == bodies[1..][k - 1];
    }
    forall k | 0 < k <= |ms'|
      ensures GapStart(ms', from, k) <= GapEnd(s, ms', k) <= |s|
           && s[GapStart(ms', from, k)..GapEnd(s, ms', k)] == lits[k]
    {
      assert GapStart(ms', from, k) == GapStart(ms, m.end, k - 1);
      assert GapEnd(s, ms', k) == GapEnd(s, ms, k - 1);
      assert lits[k] == lits[1..][k - 1];
    }
  }

  /** Assembly peels off its first literal and placeholder. */
  lemma AssembleStep(pre: string, lits: seq<string>, bodies: seq<string>)
    requires |lits| == |bodies| + 1 && 0 < |bodies|
    ensures pre + Assemble(lits, bodies) == pre + lits[0] + "{" + bodies[0] + "}" + Assemble(lits[1..], bodies[1..])
  {
  }

  lemma PlainPartsTail(lits: seq<string>, bodies: seq<string>)
    requires 0 < |lits| && 0 < |bodies| && PlainParts(lits, bodies)
    ensures PlainParts(lits[1..], bodies[1..])
  {
    assert forall k :: 0 <= k < |lits[1..]| ==> lits[1..][k] == lits[k + 1];
    assert forall k :: 0 <= k < |bodies[1..]| ==> bodies[1..][k] == bodies[k + 1];
  }

  /** The scan of pre + lit + `{body}` + post from pre on: that placeholder, then the scan after it. */
  lemma FirstPiece(pre: string, lit: string, body: string, post: string)
    requires '{' !in lit && PlainBody(body)
    ensures var s := pre + lit + "{" + body + "}" + post;
      var p := |pre| + |lit|; var e := |pre + lit + "{" + body + "}"|;
      && e <= |s|
      && MatchesFrom(s, |pre|) == [Span(p, e)] + MatchesFrom(s, e)
      && s[|pre|..p] == lit && s[p..e] == "{" + body + "}"
  {
    var s := pre + lit + "{" + body + "}" + post;
    PlaceholderFound(pre, lit, body, post);
    ScanStep(s, |pre|, Span(|pre| + |lit|, |pre| + |lit| + |body| + 2));
    PiecesOf(pre, lit, body, post);
  }

  /** No placeholder left: the scan finds nothing and the literal is the rest of the template. */
  lemma ScanOfLastLiteral(pre: string, lit: string)
    requires '{' !in lit
    ensures Recovers(pre + lit, |pre|, MatchesFrom(pre + lit, |pre|), [lit], [])
  {
    var s := pre + lit;
    NoFurtherPlaceholder(pre, lit);
    assert s[|pre|..|s|] == lit;
  }

  /** The step of the induction: what the scan recovers after the first placeholder extends to the whole. */
  lemma ScanOfAssembledStep(pre: string, lits: seq<string>, bodies: seq<string>)
    requires |lits| == |bodies| + 1 && 0 < |bodies| && PlainParts(lits, bodies)
    requires var pre' := pre + lits[0] + "{" + bodies[0] + "}"; var s := pre' + Assemble(lits[1..], bodies[1..]);
      |pre'| <= |s| && Recovers(s, |pre'|, MatchesFrom(s, |pre'|), lits[1..], bodies[1..])
    ensures |pre| <= |pre + Assemble(lits, bodies)|
    ensures Recovers(pre + Assemble(lits, bodies), |pre|, MatchesFrom(pre + Assemble(lits, bodies), |pre|), lits, bodies)
  {
    var post := Assemble(lits[1..], bodies[1..]);
    var pre' := pre + lits[0] + "{" + bodies[0] + "}";
    var s := pre' + post;
    var m := Span(|pre| + |lits[0]|, |pre'|);
    assert pre + Assemble(lits, bodies) == s by {
      AssembleStep(pre, lits, bodies);
    }
    FirstPieceRecovered(pre, lits, bodies, post);
  }

  /** The first literal and placeholder in front of a tail whose scan recovers the rest of the parts. */
  lemma FirstPieceRecovered(pre: string, lits: seq<string>, bodies: seq<string>, post: string)
    requires |lits| == |bodies| + 1 && 0 < |bodies| && '{' !in lits[0] && PlainBody(bodies[0])
    requires var pre' := pre + lits[0] + "{" + bodies[0] + "}"; var s := pre' + post;
      |pre'| <= |s| && Recovers(s, |pre'|, MatchesFrom(s, |pre'|), lits[1..], bodies[1..])
    ensures var s := pre + lits[0] + "{" + bodies[0] + "}" + post;
      |pre| <= |s| && Recovers(s, |pre|, MatchesFrom(s, |pre|), lits, bodies)
  {
    var pre' := pre + lits[0] + "{" + bodies[0] + "}";
    var s := pre' + post;
    var m := Span(|pre| + |lits[0]|, |pre'|);
    var ms := MatchesFrom(s, |pre'|);
    assert MatchesFrom(s, |pre|) == [m] + ms && m.end <= |s|
        && s[|pre|..m.start] == lits[0] && s[m.start..m.end] == "{" + bodies[0] + "}" by {
      FirstPiece(pre, lits[0], bodies[0], post);
    }
    RecoversCons(s, |pre|, m, ms, lits, bodies);
  }

  /** The scan of pre + Assemble(lits, bodies), resumed after pre, recovers the bodies and the literals. */
  lemma {:induction false} ScanOfAssembled(pre: string, lits: seq<string>, bodies: seq<string>)
    requires |lits| == |bodies| + 1 && PlainParts(lits, bodies)
    ensures |pre| <= |pre + Assemble(lits, bodies)|
    ensures Recovers(pre + Assemble(lits, bodies), |pre|, MatchesFrom(pre + Assemble(lits, bodies), |pre|), lits, bodies)
    decreases |bodies|
  {
    if bodies == [] {
      ScanOfLastLiteral(pre, lits[0]);
      assert lits == [lits[0]];
    } else {
      PlainPartsTail(lits, bodies);
      ScanOfAssembled(pre + lits[0] + "{" + bodies[0] + "}", lits[1..], bodies[1..]);
      ScanOfAssembledStep(pre, lits, bodies);
    }
  }

  /**
   * Round trip of assembly and scanning: the literal segments and match
   * texts of an assembled template are the parts it was assembled from.
   */
  lemma AssembledTemplateRoundTrip(lits: seq<string>, bodies: seq<string>)
    requires |lits| == |bodies| + 1 && PlainParts(lits, bodies)
    ensures Recovers(Assemble(lits, bodies), 0, Matches(Assemble(lits, bodies)), lits, bodies)
  {
    ScanOfAssembled([], lits, bodies);
    assert [] + Assemble(lits, bodies) == Assemble(lits, bodies);
  }
}
