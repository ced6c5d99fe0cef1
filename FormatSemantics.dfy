/**
 * What one call of `NamedMessageFormat.format` computes, stated as functions
 * of the template, the argument map and the renderer (`MessageFormat.format`,
 * which the model takes as a parameter).
 *
 * The scan yields matches m_0 .. m_{n-1}. The name of m_k is cut out and
 * validated; the first invalid name aborts the call. Otherwise every match is
 * rewritten with its index k in place of its name and rendered with the
 * argument list built from names 0 .. k, and the output is
 * lit_0 + frag_0 + lit_1 + frag_1 + ... + frag_{n-1} + lit_n, where the lit_k
 * are the template text between the matches.
 */
module FormatSemantics {
  import opened Wrappers
  import opened Scanner
  import opened NameGrammar
  import opened Decimal
  import opened Replace
  import opened NamedMessageFormatException

  /** `paramMatcher.group()`: the text of match m, braces included. */
  function MatchText(s: string, m: Span): (t: string)
    requires IsMatch(s, m)
    ensures |t| == m.end - m.start && 2 <= |t| && t[0] == '{' && t[|t| - 1] == '}'
  {
    s[m.start..m.end]
  }

  /** The names of the matches ms, in order: `split(",")[0].substring(1)` of each. */
  function NamesOf(s: string, ms: seq<Span>): (r: seq<string>)
    requires forall k :: 0 <= k < |ms| ==> IsMatch(s, ms[k])
    ensures |r| == |ms| && forall k :: 0 <= k < |ms| ==> r[k] == ExtractName(MatchText(s, ms[k]))
  {
    if ms == [] then [] else [ExtractName(MatchText(s, ms[0]))] + NamesOf(s, ms[1..])
  }

  /** The names of all placeholders of the template, in discovery order. */
  function Names(s: string): (r: seq<string>)
    ensures |r| == |Matches(s)|
  {
    NamesOf(s, Matches(s))
  }

  /** The literal template text before match k, or after the last match when k is the match count. */
  function Literal(s: string, k: nat): string
    requires k <= |Matches(s)|
  {
    GapIsRange(s, Matches(s), 0, k);
    s[GapStart(Matches(s), 0, k)..GapEnd(s, Matches(s), k)]
  }

  /**
   * The argument list after the given names were processed: the value of each
   * name present in the map, in order; a missing name adds nothing.
   */
  function Arguments<V>(names: seq<string>, args: map<string, V>): seq<V> {
    if names == [] then []
    else
      var last := names[|names| - 1];
      Arguments(names[..|names| - 1], args) + (if last in args then [args[last]] else [])
  }

  /** How many names, from the first, pass validation before the first that fails. */
  function LeadingValid(names: seq<string>): (n: nat)
    ensures n <= |names|
    ensures forall j :: 0 <= j < n ==> IsValidName(names[j])
    ensures n < |names| ==> !IsValidName(names[n])
  {
    if names == [] || !IsValidName(names[0]) then 0
    else 1 + LeadingValid(names[1..])
  }

  /** Match k with every occurrence of its name replaced by the decimal index k. */
  function IndexedText(s: string, k: nat): string
    requires k < |Matches(s)| && IsValidName(Names(s)[k])
  {
    ReplaceAll(MatchText(s, Matches(s)[k]), Names(s)[k], DecimalString(k))
  }

  /** The rendered fragment of match k: its indexed text with the argument list built from names 0 .. k. */
  function Fragment<V>(s: string, k: nat, args: map<string, V>, render: (string, seq<V>) -> string): string
    requires k < |Matches(s)| && IsValidName(Names(s)[k])
  {
    render(IndexedText(s, k), Arguments(Names(s)[..k + 1], args))
  }

  /** lit_k + frag_k + lit_{k+1} + ... + frag_{n-1} + lit_n: the output from literal segment k on. */
  function OutputFrom<V>(s: string, k: nat, args: map<string, V>, render: (string, seq<V>) -> string): string
    requires k <= |Matches(s)|
    requires forall j :: k <= j < |Matches(s)| ==> IsValidName(Names(s)[j])
    decreases |Matches(s)| - k
  {
    if k == |Matches(s)| then Literal(s, k)
    else (Literal(s, k) + Fragment(s, k, args, render)) + OutputFrom(s, k + 1, args, render)
  }

  /** One complete call of `format(args)` on the template s. */
  function FormatSpec<V>(s: string, args: map<string, V>, render: (string, seq<V>) -> string)
    : Result<string, NamedFormatError>
  {
    var names := Names(s);
    var n := LeadingValid(names);
    if n < |names| then Failure(InvalidName(names[n]))
    else Success(OutputFrom(s, 0, args, render))
  }

  /** The argument list grows by the value of name i when the map has it, and by nothing otherwise. */
  lemma ArgumentsStep<V>(names: seq<string>, args: map<string, V>, i: nat)
    requires i < |names|
    ensures Arguments(names[..i + 1], args)
         == Arguments(names[..i], args) + (if names[i] in args then [args[names[i]]] else [])
  {
    assert names[..i + 1][..i] == names[..i];
  }

  lemma {:induction false} LeadingValidAtLeast(names: seq<string>, i: nat)
    requires i <= |names| && forall j :: 0 <= j < i ==> IsValidName(names[j])
    ensures i <= LeadingValid(names)
  {
  }

  /** The scan stops at round i when name i is the first invalid one. */
  lemma LeadingValidStops(names: seq<string>, i: nat)
    requires i < |names| && !IsValidName(names[i])
    requires forall j :: 0 <= j < i ==> IsValidName(names[j])
    ensures LeadingValid(names) == i
  {
    LeadingValidAtLeast(names, i);
  }

  /** `find` resumed after match k - 1 returns match k, or nothing after the last one. */
  lemma {:induction false} ResumedScan(s: string, k: nat)
    requires k <= |Matches(s)|
    ensures GapStart(Matches(s), 0, k) <= |s|
    ensures MatchesFrom(s, GapStart(Matches(s), 0, k)) == Matches(s)[k..]
  {
    if k > 0 {
      ResumedScan(s, k - 1);
      var ms := Matches(s);
      var from := GapStart(ms, 0, k - 1);
      assert MatchesFrom(s, from) == ms[k - 1..];
      assert NextMatch(s, from) == Some(ms[k - 1]);
      assert ms[k - 1..][1..] == ms[k..];
    }
  }

  /** The output of the rest of the scan, put after the text the buffer already holds. */
  function AfterBuffer(buffer: string, r: Result<string, NamedFormatError>): Result<string, NamedFormatError> {
    match r
    case Success(out) => Success(buffer + out)
    case Failure(e) => Failure(e)
  }

  lemma AfterEmptyBuffer(r: Result<string, NamedFormatError>)
    ensures AfterBuffer("", r) == r
  {
    if r.Success? {
      assert "" + r.value == r.value;
    }
  }

  /**
   * The remaining work of the `for` loop of `format`: the scan resumed at
   * `from` in round i with the argument list `arguments`, and what it appends
   * from there on, or the exception it throws.
   */
  function FormatFrom<V>(s: string, args: map<string, V>, render: (string, seq<V>) -> string,
                         from: nat, i: nat, arguments: seq<V>): Result<string, NamedFormatError>
    requires from <= |s|
    decreases |s| - from
  {
    match NextMatch(s, from)
    case None => Success(s[from..])
    case Some(m) =>
      var t := s[m.start..m.end];
      var name := ExtractName(t);
      if !IsValidName(name) then Failure(InvalidName(name))
      else
        var arguments' := arguments + (if name in args then [args[name]] else []);
        var fragment := render(ReplaceAll(t, name, DecimalString(i)), arguments');
        AfterBuffer(s[from..m.start] + fragment, FormatFrom(s, args, render, m.end, i + 1, arguments'))
  }

  lemma AfterBufferTwice(b: string, c: string, r: Result<string, NamedFormatError>)
    ensures AfterBuffer(b, AfterBuffer(c, r)) == AfterBuffer(b + c, r)
  {
    if r.Success? {
      assert b + (c + r.value) == (b + c) + r.value;
    }
  }

  /** One round of the loop past a valid name, unfolded. */
  lemma FormatFromValidRound<V>(s: string, args: map<string, V>, render: (string, seq<V>) -> string,
                                from: nat, i: nat, arguments: seq<V>)
    requires from <= |s| && NextMatch(s, from).Some?
    requires var m := NextMatch(s, from).value; IsValidName(ExtractName(s[m.start..m.end]))
    ensures var m := NextMatch(s, from).value;
      var t := s[m.start..m.end];
      var name := ExtractName(t);
      var arguments' := arguments + (if name in args then [args[name]] else []);
      FormatFrom(s, args, render, from, i, arguments)
      == AfterBuffer(s[from..m.start] + render(ReplaceAll(t, name, DecimalString(i)), arguments'),
                     FormatFrom(s, args, render, m.end, i + 1, arguments'))
  {
  }

  /**
   * The loop, resumed after k rounds that all passed validation, produces
   * the rest of what FormatSpec describes: the same exception, or the output
   * from literal segment k on.
   */
  ghost predicate ResumesAsSpecified<V>(s: string, args: map<string, V>, render: (string, seq<V>) -> string, k: nat)
    requires k <= |Matches(s)|
  {
    var names := Names(s);
    var n := LeadingValid(names);
    && GapStart(Matches(s), 0, k) <= |s|
    && FormatFrom(s, args, render, GapStart(Matches(s), 0, k), k, Arguments(names[..k], args))
       == if n < |names| then Failure(InvalidName(names[n])) else Success(OutputFrom(s, k, args, render))
  }

  lemma {:induction false} FormatFromRound<V>(s: string, args: map<string, V>, render: (string, seq<V>) -> string,
                                              k: nat)
    requires k <= |Matches(s)|
    requires forall j :: 0 <= j < k ==> IsValidName(Names(s)[j])
    ensures ResumesAsSpecified(s, args, render, k)
    decreases |Matches(s)| - k
  {
    if k == |Matches(s)| {
      FormatFromLastRound(s, args, render);
    } else if IsValidName(Names(s)[k]) {
      assert ResumesAsSpecified(s, args, render, k + 1) by {
        FormatFromRound(s, args, render, k + 1);
      }
      FormatFromValidName(s, args, render, k);
    } else {
      FormatFromInvalidName(s, args, render, k);
    }
  }

  /** After the last match only `appendTail` is left. */
  lemma FormatFromLastRound<V>(s: string, args: map<string, V>, render: (string, seq<V>) -> string)
    requires forall j :: 0 <= j < |Matches(s)| ==> IsValidName(Names(s)[j])
    ensures ResumesAsSpecified(s, args, render, |Matches(s)|)
  {
    var k := |Matches(s)|;
    var from := GapStart(Matches(s), 0, k);
    ResumedScan(s, k);
    LeadingValidAtLeast(Names(s), k);
    assert NextMatch(s, from).None?;
    assert FormatFrom(s, args, render, from, k, Arguments(Names(s)[..k], args)) == Success(s[from..]);
    assert OutputFrom(s, k, args, render) == Literal(s, k) == s[from..];
  }

  /** Round k meets the first invalid name and throws. */
  lemma FormatFromInvalidName<V>(s: string, args: map<string, V>, render: (string, seq<V>) -> string, k: nat)
    requires k < |Matches(s)| && !IsValidName(Names(s)[k])
    requires forall j :: 0 <= j < k ==> IsValidName(Names(s)[j])
    ensures ResumesAsSpecified(s, args, render, k)
  {
    ResumedScan(s, k);
    LeadingValidStops(Names(s), k);
    assert NextMatch(s, GapStart(Matches(s), 0, k)) == Some(Matches(s)[k]);
  }

  /** Round k past a valid name, in the loop's own terms: the text before match k, then its rendering. */
  lemma ValidRoundUnfolds<V>(s: string, args: map<string, V>, render: (string, seq<V>) -> string, k: nat)
    requires k < |Matches(s)| && IsValidName(Names(s)[k])
    ensures GapStart(Matches(s), 0, k) <= Matches(s)[k].start
    ensures var ms := Matches(s); var from := GapStart(ms, 0, k);
      var after := Arguments(Names(s)[..k + 1], args);
      FormatFrom(s, args, render, from, k, Arguments(Names(s)[..k], args))
      == AfterBuffer(s[from..ms[k].start] + render(IndexedText(s, k), after),
                     FormatFrom(s, args, render, ms[k].end, k + 1, after))
  {
    var ms := Matches(s);
    var names := Names(s);
    var from := GapStart(ms, 0, k);
    ResumedScan(s, k);
    assert NextMatch(s, from) == Some(ms[k]);
    assert ExtractName(s[ms[k].start..ms[k].end]) == names[k];
    ArgumentsStep(names, args, k);
    FormatFromValidRound(s, args, render, from, k, Arguments(names[..k], args));
  }

  /** Round k past a valid name appends literal k and fragment k, and the loop resumes at round k + 1. */
  lemma ValidRoundStep<V>(s: string, args: map<string, V>, render: (string, seq<V>) -> string, k: nat)
    requires k < |Matches(s)| && IsValidName(Names(s)[k])
    ensures GapStart(Matches(s), 0, k) <= |s| && GapStart(Matches(s), 0, k + 1) <= |s|
    ensures FormatFrom(s, args, render, GapStart(Matches(s), 0, k), k, Arguments(Names(s)[..k], args))
         == AfterBuffer(Literal(s, k) + Fragment(s, k, args, render),
                        FormatFrom(s, args, render, GapStart(Matches(s), 0, k + 1), k + 1, Arguments(Names(s)[..k + 1], args)))
  {
    ValidRoundUnfolds(s, args, render, k);
    assert GapStart(Matches(s), 0, k + 1) == Matches(s)[k].end;
  }

  /** Round k passes a valid name: the loop resumed there still computes what FormatSpec describes. */
  lemma FormatFromValidName<V>(s: string, args: map<string, V>, render: (string, seq<V>) -> string, k: nat)
    requires k < |Matches(s)| && IsValidName(Names(s)[k])
    requires forall j :: 0 <= j < k ==> IsValidName(Names(s)[j])
    requires ResumesAsSpecified(s, args, render, k + 1)
    ensures ResumesAsSpecified(s, args, render, k)
  {
    ValidRoundStep(s, args, render, k);
    var names := Names(s);
    if LeadingValid(names) == |names| {
      assert OutputFrom(s, k, args, render)
          == (Literal(s, k) + Fragment(s, k, args, render)) + OutputFrom(s, k + 1, args, render);
    }
  }

  /** The loop started on the whole template computes FormatSpec. */
  lemma FormatFromStart<V>(s: string, args: map<string, V>, render: (string, seq<V>) -> string)
    ensures FormatFrom(s, args, render, 0, 0, []) == FormatSpec(s, args, render)
  {
    FormatFromRound(s, args, render, 0);
    assert Names(s)[..0] == [];
    AfterEmptyBuffer(FormatFrom(s, args, render, 0, 0, []));
  }
}
