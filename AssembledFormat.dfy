/**
 * `format` on a template written out as literal segments and named
 * placeholders, lit_0 + `{name_0,rest_0}` + lit_1 + ... + lit_n, where the
 * literals hold no `{` and no name recurs in the rest of its placeholder: the
 * output is lit_0 + frag_0 + lit_1 + ... + lit_n, where frag_k is the
 * positional placeholder `{k,rest_k}` rendered on its own with the values of
 * names 0 .. k.
 */
module AssembledFormat {
  import opened Wrappers
  import opened Scanner
  import opened NameGrammar
  import opened Decimal
  import opened Replace
  import opened FormatSemantics
  import opened TemplateAssembly
  import opened ArgumentProperties

  /** The placeholder bodies `name_k,rest_k`. */
  function Bodies(names: seq<string>, rests: seq<string>): (bodies: seq<string>)
    requires |names| == |rests|
    ensures |bodies| == |names|
    ensures forall k :: 0 <= k < |names| ==> bodies[k] == names[k] + "," + rests[k]
  {
    seq(|names|, k requires 0 <= k < |names| => names[k] + "," + rests[k])
  }

  /**
   * Literal segments without `{`, and placeholders whose name is valid, is
   * cut off by the first comma, does not occur again in the rest of the
   * placeholder, and whose body the lazy `.*?` crosses in full.
   */
  ghost predicate NamedParts(lits: seq<string>, names: seq<string>, rests: seq<string>) {
    && |lits| == |names| + 1 && |rests| == |names|
    && (forall k :: 0 <= k < |lits| ==> '{' !in lits[k])
    && (forall k :: 0 <= k < |names| ==> NamedPlaceholder(names[k], rests[k]))
  }

  /** A placeholder `{name,rest}` as NamedParts wants it. */
  ghost predicate NamedPlaceholder(name: string, rest: string) {
    && ',' !in name && IsValidName(name)
    && PlainBody(name + "," + rest) && Absent(rest + "}", name)
  }

  /** The name of a placeholder `{name,rest}` is name, when name has no comma. */
  lemma PlaceholderName(name: string, rest: string)
    requires ',' !in name
    ensures ExtractName("{" + name + "," + rest + "}") == name
  {
    assert "{" + name + "," + rest + "}" == ['{'] + name + ("," + rest + "}");
    ExtractNameOfParts('{', name, "," + rest + "}");
  }

  /**
   * Rewriting the name of a placeholder `{name,rest}` by d gives `{d,rest}`,
   * when name does not occur again in rest.
   */
  lemma PlaceholderRewrite(name: string, rest: string, d: string)
    requires 0 < |name| && name[0] != '{' && name[0] != ',' && Absent(rest + "}", name)
    ensures ReplaceAll("{" + name + "," + rest + "}", name, d) == "{" + d + "," + rest + "}"
  {
    assert "{" + name + "," + rest + "}" == "{" + name + "," + (rest + "}");
    ReplaceAllAfterOpeningThen('{', name, ',', rest + "}", d);
    ReplaceAllAbsent(rest + "}", name, d);
    assert "{" + d + "," + (rest + "}") == "{" + d + "," + rest + "}";
  }

  /**
   * Placeholder k of a template is `{name,rest}`, with name valid and not
   * occurring again in rest: its fragment is the renderer applied to
   * `{k,rest}` with the argument list of names 0 .. k.
   */
  lemma PlaceholderRendered<V>(s: string, k: nat, name: string, rest: string,
                               args: map<string, V>, render: (string, seq<V>) -> string)
    requires k < |Matches(s)| && MatchText(s, Matches(s)[k]) == "{" + name + "," + rest + "}"
    requires ',' !in name && IsValidName(name) && Absent(rest + "}", name)
    ensures Names(s)[k] == name
    ensures Fragment(s, k, args, render)
         == render("{" + DecimalString(k) + "," + rest + "}", Arguments(Names(s)[..k + 1], args))
  {
    PlaceholderName(name, rest);
    PlaceholderRewrite(name, rest, DecimalString(k));
  }

  /** The scan of an assembled template finds its placeholders, their names and its literal segments. */
  lemma AssembledNames(lits: seq<string>, names: seq<string>, rests: seq<string>)
    requires NamedParts(lits, names, rests)
    ensures var s := Assemble(lits, Bodies(names, rests));
      && |Matches(s)| == |names| && Names(s) == names
      && (forall k :: 0 <= k <= |names| ==> Literal(s, k) == lits[k])
      && (forall k :: 0 <= k < |names| ==>
            MatchText(s, Matches(s)[k]) == "{" + names[k] + "," + rests[k] + "}")
  {
    var bodies := Bodies(names, rests);
    var s := Assemble(lits, bodies);
    AssembledTemplateRoundTrip(lits, bodies);
    var ms := Matches(s);
    forall k | 0 <= k < |names|
      ensures MatchText(s, ms[k]) == "{" + names[k] + "," + rests[k] + "}"
      ensures Names(s)[k] == names[k]
    {
      assert "{" + bodies[k] + "}" == "{" + names[k] + "," + rests[k] + "}";
      PlaceholderName(names[k], rests[k]);
    }
  }

  /** lit_k + frag_k + ... + lit_n with frag_j rendering `{j,rest_j}` and the argument list of names 0 .. j. */
  function RenderedFrom<V>(lits: seq<string>, names: seq<string>, rests: seq<string>,
                           args: map<string, V>, render: (string, seq<V>) -> string, k: nat): string
    requires |lits| == |names| + 1 && |rests| == |names| && k <= |names|
    decreases |names| - k
  {
    if k == |names| then lits[k]
    else (lits[k] + render("{" + DecimalString(k) + "," + rests[k] + "}", Arguments(names[..k + 1], args)))
         + RenderedFrom(lits, names, rests, args, render, k + 1)
  }

  /** The scan of s found the placeholders `{name_k,rest_k}` with the literal segments lit_k between them. */
  ghost predicate ScannedAs(s: string, lits: seq<string>, names: seq<string>, rests: seq<string>) {
    && |lits| == |names| + 1 && |rests| == |names|
    && |Matches(s)| == |names| && Names(s) == names
    && (forall k :: 0 <= k <= |names| ==> Literal(s, k) == lits[k])
    && (forall k :: 0 <= k < |names| ==> MatchText(s, Matches(s)[k]) == "{" + names[k] + "," + rests[k] + "}")
    && (forall k :: 0 <= k < |names| ==> IsValidName(names[k]))
    && (forall k :: 0 <= k < |names| ==> NamedPlaceholder(names[k], rests[k]))
  }

  lemma {:induction false} OutputOfScanned<V>(s: string, lits: seq<string>, names: seq<string>, rests: seq<string>,
                                             args: map<string, V>, render: (string, seq<V>) -> string, k: nat)
    requires ScannedAs(s, lits, names, rests) && k <= |names|
    ensures forall j :: k <= j < |Matches(s)| ==> IsValidName(Names(s)[j])
    ensures OutputFrom(s, k, args, render) == RenderedFrom(lits, names, rests, args, render, k)
    decreases |names| - k
  {
    if k < |names| {
      OutputOfScanned(s, lits, names, rests, args, render, k + 1);
      assert Fragment(s, k, args, render)
          == render("{" + DecimalString(k) + "," + rests[k] + "}", Arguments(names[..k + 1], args)) by {
        assert NamedPlaceholder(names[k], rests[k]);
        PlaceholderRendered(s, k, names[k], rests[k], args, render);
      }
    }
  }

  lemma OutputOfAssembled<V>(lits: seq<string>, names: seq<string>, rests: seq<string>,
                             args: map<string, V>, render: (string, seq<V>) -> string)
    requires NamedParts(lits, names, rests)
    ensures var s := Assemble(lits, Bodies(names, rests));
      && |Matches(s)| == |names|
      && (forall j :: 0 <= j < |Matches(s)| ==> IsValidName(Names(s)[j]))
      && OutputFrom(s, 0, args, render) == RenderedFrom(lits, names, rests, args, render, 0)
  {
    var s := Assemble(lits, Bodies(names, rests));
    AssembledNames(lits, names, rests);
    OutputOfScanned(s, lits, names, rests, args, render, 0);
  }

  /**
   * Formatting an assembled template succeeds, copies its literal segments,
   * and renders placeholder k as `{k,rest_k}` with the argument list built
   * from the names 0 .. k.
   */
  lemma FormatOfAssembled<V>(lits: seq<string>, names: seq<string>, rests: seq<string>,
                             args: map<string, V>, render: (string, seq<V>) -> string)
    requires NamedParts(lits, names, rests)
    ensures FormatSpec(Assemble(lits, Bodies(names, rests)), args, render)
         == Success(RenderedFrom(lits, names, rests, args, render, 0))
  {
    OutputOfAssembled(lits, names, rests, args, render);
    var s := Assemble(lits, Bodies(names, rests));
    LeadingValidAtLeast(Names(s), |Names(s)|);
  }

  /**
   * The positional template lit_0 + `{0,rest_0}` + lit_1 + ... + lit_n
   * rendered placeholder by placeholder from literal k on, placeholder j
   * with the values 0 .. j.
   */
  function PositionalFrom<V>(lits: seq<string>, rests: seq<string>, values: seq<V>,
                             render: (string, seq<V>) -> string, k: nat): string
    requires |lits| == |rests| + 1 && |values| == |rests| && k <= |rests|
    decreases |rests| - k
  {
    if k == |rests| then lits[k]
    else (lits[k] + render("{" + DecimalString(k) + "," + rests[k] + "}", values[..k + 1]))
         + PositionalFrom(lits, rests, values, render, k + 1)
  }

  lemma {:induction false} RenderedIsPositional<V>(lits: seq<string>, names: seq<string>, rests: seq<string>,
                                                  args: map<string, V>, values: seq<V>,
                                                  render: (string, seq<V>) -> string, k: nat)
    requires |lits| == |names| + 1 && |rests| == |names| && |values| == |names| && k <= |names|
    requires forall j :: 0 <= j < |names| ==> names[j] in args && args[names[j]] == values[j]
    ensures RenderedFrom(lits, names, rests, args, render, k) == PositionalFrom(lits, rests, values, render, k)
    decreases |names| - k
  {
    if k < |names| {
      RenderedIsPositional(lits, names, rests, args, values, render, k + 1);
      ArgumentsOfPresentPrefix(names, args, k);
      assert Arguments(names[..k + 1], args) == values[..k + 1];
    }
  }

  /**
   * When every name is in the map, formatting the named template gives its
   * literals interleaved with the positional placeholders `{k,rest_k}`, each
   * rendered on its own with the first k + 1 values in placeholder order.
   */
  lemma NamedEqualsPositional<V>(lits: seq<string>, names: seq<string>, rests: seq<string>,
                                 args: map<string, V>, values: seq<V>, render: (string, seq<V>) -> string)
    requires NamedParts(lits, names, rests) && |values| == |names|
    requires forall j :: 0 <= j < |names| ==> names[j] in args && args[names[j]] == values[j]
    ensures FormatSpec(Assemble(lits, Bodies(names, rests)), args, render)
         == Success(PositionalFrom(lits, rests, values, render, 0))
  {
    FormatOfAssembled(lits, names, rests, args, render);
    RenderedIsPositional(lits, names, rests, args, values, render, 0);
  }
}
