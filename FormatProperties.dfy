/**
 * What `NamedMessageFormat.format` promises, proved about the specification
 * `FormatSpec` (and so, through `Formatter.Format`'s postcondition, about the
 * loop itself).
 */
module FormatProperties {
  import opened Wrappers
  import opened Scanner
  import opened NameGrammar
  import opened Decimal
  import opened Replace
  import opened NamedMessageFormatException
  import opened FormatSemantics
  import opened ArgumentProperties

  /** A template in which the pattern matches nothing is returned as it is. */
  lemma NoPlaceholderLeavesTemplateUnchanged<V>(s: string, args: map<string, V>, render: (string, seq<V>) -> string)
    requires NoMatchIn(s, 0, |s|)
    ensures FormatSpec(s, args, render) == Success(s)
  {
    NoMatchesIffNoPlaceholder(s);
    assert Literal(s, 0) == s[0..|s|] == s;
  }

  /** In particular a template without `{` is returned as it is, whatever the map and the renderer. */
  lemma NoOpeningBraceLeavesTemplateUnchanged<V>(s: string, args: map<string, V>, render: (string, seq<V>) -> string)
    requires '{' !in s
    ensures FormatSpec(s, args, render) == Success(s)
  {
    assert NoMatchIn(s, 0, |s|) by {
      forall p: nat, e: nat | 0 <= p < |s|
        ensures !IsMatch(s, Span(p, e))
      {
        assert s[p] in s;
      }
    }
    NoPlaceholderLeavesTemplateUnchanged(s, args, render);
  }

  /**
   * lit_k + text_k + lit_{k+1} + ... + text_{n-1} + lit_n: the template from
   * literal segment k on, rebuilt from its literal segments and match texts.
   * The output `OutputFrom` is the same shape with each text_k replaced by
   * its rendered fragment.
   */
  function Tiling(s: string, k: nat): string
    requires k <= |Matches(s)|
    decreases |Matches(s)| - k
  {
    if k == |Matches(s)| then Literal(s, k)
    else (Literal(s, k) + MatchText(s, Matches(s)[k])) + Tiling(s, k + 1)
  }

  lemma {:induction false} TilingIsSuffix(s: string, k: nat)
    requires k <= |Matches(s)|
    ensures GapStart(Matches(s), 0, k) <= |s|
    ensures Tiling(s, k) == s[GapStart(Matches(s), 0, k)..]
    decreases |Matches(s)| - k
  {
    var ms := Matches(s);
    GapIsRange(s, ms, 0, k);
    if k < |ms| {
      TilingIsSuffix(s, k + 1);
      var a := GapStart(ms, 0, k);
      assert GapStart(ms, 0, k + 1) == ms[k].end;
      SplitSuffix(s, a, ms[k].start, ms[k].end);
    }
  }

  /**
   * The literal segments and the match texts tile the template: every
   * character outside a match is copied to the output between the fragments,
   * in order, and nothing else is.
   */
  lemma TemplateIsTiled(s: string)
    ensures Tiling(s, 0) == s
  {
    TilingIsSuffix(s, 0);
  }

  /**
   * The call fails exactly when some placeholder name is invalid, and then
   * with the first invalid name in template order.
   */
  lemma FailsExactlyOnInvalidName<V>(s: string, args: map<string, V>, render: (string, seq<V>) -> string)
    ensures FormatSpec(s, args, render).Failure?
        <==> exists k :: 0 <= k < |Names(s)| && !IsValidName(Names(s)[k])
    ensures FormatSpec(s, args, render).Failure? ==>
      exists k :: 0 <= k < |Names(s)| && !IsValidName(Names(s)[k])
        && (forall j :: 0 <= j < k ==> IsValidName(Names(s)[j]))
        && FormatSpec(s, args, render).error == InvalidName(Names(s)[k])
  {
    var names := Names(s);
    var n := LeadingValid(names);
    if n < |names| {
      assert !IsValidName(names[n]);
    }
  }

  /** The error carries the rejected name, and its message is the fixed text followed by `:` and the name. */
  lemma FailureMessageNamesThePlaceholder<V>(s: string, args: map<string, V>, render: (string, seq<V>) -> string)
    requires FormatSpec(s, args, render).Failure?
    ensures var e := FormatSpec(s, args, render).error;
      e.name in Names(s) && !IsValidName(e.name) && e.Message() == FirstLetterIsNumber + ":" + e.name
  {
    FailsExactlyOnInvalidName(s, args, render);
  }

  /**
   * A placeholder without a comma aborts the call: its name is everything
   * after the `{`, including the closing `}`, which no valid name contains.
   */
  lemma CommaFreePlaceholderAborts<V>(s: string, args: map<string, V>, render: (string, seq<V>) -> string, k: nat)
    requires k < |Matches(s)| && ',' !in MatchText(s, Matches(s)[k])
    ensures FormatSpec(s, args, render).Failure?
  {
    var t := MatchText(s, Matches(s)[k]);
    var body := t[1..|t| - 1];
    assert t == "{" + body + "}";
    CommaFreePlaceholderIsRejected(body);
    FailsExactlyOnInvalidName(s, args, render);
  }

  /**
   * The shape of a placeholder with a valid name: `{` + name + `,` + rest;
   * the indexed text is `{` + k + `,` + the rest with every occurrence of the
   * name rewritten as well.
   */
  lemma IndexReplacesName(s: string, k: nat)
    requires k < |Matches(s)| && IsValidName(Names(s)[k])
    ensures var t := MatchText(s, Matches(s)[k]); var n := Names(s)[k];
      2 + |n| <= |t| && t == "{" + n + "," + t[2 + |n|..]
      && IndexedText(s, k) == "{" + DecimalString(k) + "," + ReplaceAll(t[2 + |n|..], n, DecimalString(k))
  {
    var t := MatchText(s, Matches(s)[k]);
    var n := Names(s)[k];
    ValidNameSplitsMatch(t);
    ReplaceAllAfterOpeningThen('{', n, ',', t[2 + |n|..], DecimalString(k));
  }

  /**
   * Placeholder k rendered by position: when the name of placeholder k does
   * not occur again in the rest of it and names 0 .. k are all in the map,
   * fragment k is the renderer applied to `{k,` + the placeholder's own
   * format type and style, with an argument list of length k + 1 whose entry
   * j is the value of name j (in particular entry k is the value of name k).
   */
  lemma FragmentIsPositional<V>(s: string, k: nat, args: map<string, V>, render: (string, seq<V>) -> string)
    requires k < |Matches(s)| && IsValidName(Names(s)[k])
    requires forall j :: 0 <= j <= k ==> Names(s)[j] in args
    requires Absent(MatchText(s, Matches(s)[k])[2 + |Names(s)[k]|..], Names(s)[k])
    ensures var rest := MatchText(s, Matches(s)[k])[2 + |Names(s)[k]|..];
      var a := Arguments(Names(s)[..k + 1], args);
      && |a| == k + 1
      && (forall j :: 0 <= j <= k ==> a[j] == args[Names(s)[j]])
      && Fragment(s, k, args, render) == render("{" + DecimalString(k) + "," + rest, a)
  {
    var n := Names(s)[k];
    var rest := MatchText(s, Matches(s)[k])[2 + |n|..];
    IndexReplacesName(s, k);
    ReplaceAllAbsent(rest, n, DecimalString(k));
    ArgumentsOfPresentPrefix(Names(s), args, k);
  }

  /**
   * With the name written a second time inside its own placeholder, as in
   * `{number,number}`, `String.replace` rewrites that occurrence too: the
   * renderer then sees `{k,k}` and not `{k,number}`.
   */
  lemma NameRepeatedInsidePlaceholderIsRewritten(n: string, k: nat)
    requires IsValidName(n)
    ensures ReplaceAll("{" + n + "," + n + "}", n, DecimalString(k))
         == "{" + DecimalString(k) + "," + DecimalString(k) + "}"
    ensures "{" + DecimalString(k) + "," + DecimalString(k) + "}" != "{" + DecimalString(k) + "," + n + "}"
  {
    var d := DecimalString(k);
    ReplaceAllTwice('{', ',', '}', n, d);
    var rewritten := "{" + d + "," + d + "}";
    var intended := "{" + d + "," + n + "}";
    assert rewritten[|d| + 2] == d[0];
    assert intended[|d| + 2] == n[0];
  }

  /**
   * A name used by several placeholders is not merged: each occurrence gets
   * its own index and appends the value to the argument list once more.
   */
  lemma RepeatedNameGetsFreshIndex<V>(s: string, args: map<string, V>, j: nat, k: nat)
    requires j < k < |Matches(s)| && Names(s)[j] == Names(s)[k] && IsValidName(Names(s)[k])
    ensures "{" + DecimalString(j) + "," <= IndexedText(s, j)
    ensures "{" + DecimalString(k) + "," <= IndexedText(s, k)
    ensures DecimalString(j) != DecimalString(k)
    ensures Names(s)[k] in args ==>
      |Arguments(Names(s)[..j + 1], args)| < |Arguments(Names(s)[..k + 1], args)|
  {
    IndexedTextStartsWithIndex(s, j);
    IndexedTextStartsWithIndex(s, k);
    DecimalStringInjective(j, k);
    if Names(s)[k] in args {
      PresentNameLengthens(Names(s), args, j, k);
    }
  }

  /** The indexed text of a placeholder with a valid name starts with `{`, its index and a comma. */
  lemma IndexedTextStartsWithIndex(s: string, k: nat)
    requires k < |Matches(s)| && IsValidName(Names(s)[k])
    ensures "{" + DecimalString(k) + "," <= IndexedText(s, k)
  {
    IndexReplacesName(s, k);
  }

  /** Fragments from k on are the same for two maps that agree on the template's names. */
  lemma {:induction false} OutputFromSameOnNames<V>(s: string, k: nat, a1: map<string, V>, a2: map<string, V>,
                                                   render: (string, seq<V>) -> string)
    requires k <= |Matches(s)| && AgreeOn(Names(s), a1, a2)
    requires forall j :: k <= j < |Matches(s)| ==> IsValidName(Names(s)[j])
    ensures OutputFrom(s, k, a1, render) == OutputFrom(s, k, a2, render)
    decreases |Matches(s)| - k
  {
    if k < |Matches(s)| {
      var prefix := Names(s)[..k + 1];
      assert forall j :: 0 <= j < |prefix| ==> prefix[j] == Names(s)[j];
      ArgumentsSameOnNames(prefix, a1, a2);
      OutputFromSameOnNames(s, k + 1, a1, a2, render);
    }
  }

  /**
   * Only the entries of the map whose keys name a placeholder matter:
   * other keys, however many, change nothing.
   */
  lemma OutputDependsOnlyOnNamedEntries<V>(s: string, a1: map<string, V>, a2: map<string, V>,
                                           render: (string, seq<V>) -> string)
    requires AgreeOn(Names(s), a1, a2)
    ensures FormatSpec(s, a1, render) == FormatSpec(s, a2, render)
  {
    if LeadingValid(Names(s)) == |Names(s)| {
      OutputFromSameOnNames(s, 0, a1, a2, render);
    }
  }
}
