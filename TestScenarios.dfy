/**
 * The templates of `NamedMessageFormatTest`, worked through the model: the
 * scan of a template written as literal text and placeholders, the corrupt
 * template that must be rejected, and a comma-free placeholder.
 */
module TestScenarios {
  import opened Wrappers
  import opened Scanner
  import opened NameGrammar
  import opened Decimal
  import opened Replace
  import opened NamedMessageFormatException
  import opened FormatSemantics
  import opened TemplateAssembly
  import opened AssembledFormat

  /**
   * The first placeholder decides when its name is invalid: a template
   * lit + `{` + name + rest + `}` + post, with no `{` in lit and rest
   * starting at the comma, fails with that name.
   */
  lemma InvalidFirstNameIsReported<V>(lit: string, name: string, rest: string, post: string,
                                       args: map<string, V>, render: (string, seq<V>) -> string)
    requires '{' !in lit && PlainBody(name + rest) && ',' !in name && 0 < |rest| && rest[0] == ','
    requires !IsValidName(name)
    ensures FormatSpec(lit + "{" + (name + rest) + "}" + post, args, render) == Failure(InvalidName(name))
  {
    var s := lit + "{" + (name + rest) + "}" + post;
    var m := Span(|lit|, |lit| + |name + rest| + 2);
    PlaceholderFound([], lit, name + rest, post);
    assert [] + lit + "{" + (name + rest) + "}" + post == s;
    ScanStep(s, 0, m);
    assert Matches(s)[0] == m;
    assert MatchText(s, m) == ['{'] + name + (rest + "}");
    ExtractNameOfParts('{', name, rest + "}");
    assert Names(s)[0] == name;
    LeadingValidStops(Names(s), 0);
  }

  /** The corrupt template of the test, first placeholder and all. */
  const CorruptPattern: string :=
    "Test Date: " + "{" + ("!myDate" + ", time, dd.MM.yyyy") + "}"
    + ". Test Integer: {213simpleInt, number, integer}. Test Percent: {..numberPercent, number, percent}"

  /**
   * The test's corrupt template is rejected, and with the first invalid
   * name, `!myDate`, whatever the map and the renderer.
   */
  lemma CorruptPatternIsRejected<V>(args: map<string, V>, render: (string, seq<V>) -> string)
    ensures FormatSpec(CorruptPattern, args, render) == Failure(InvalidName("!myDate"))
  {
    assert !IsIdentStart("!myDate"[0]);
    InvalidFirstNameIsReported("Test Date: ", "!myDate", ", time, dd.MM.yyyy",
      ". Test Integer: {213simpleInt, number, integer}. Test Percent: {..numberPercent, number, percent}",
      args, render);
  }

  /**
   * A placeholder without a comma keeps its closing brace in its name:
   * `{1bad}` is rejected with the name `1bad}`.
   */
  lemma BraceStaysInCommaFreeName<V>(args: map<string, V>, render: (string, seq<V>) -> string)
    ensures FormatSpec("{1bad}", args, render) == Failure(InvalidName("1bad}"))
  {
    var s := "{1bad}";
    PlaceholderFound([], [], "1bad", []);
    assert [] + [] + "{" + "1bad" + "}" + [] == s;
    ScanStep(s, 0, Span(0, 6));
    assert Matches(s)[0] == Span(0, 6);
    assert MatchText(s, Span(0, 6)) == "{" + "1bad" + "}";
    CommaFreePlaceholderIsRejected("1bad");
    assert Names(s)[0] == "1bad}";
    LeadingValidStops(Names(s), 0);
  }

  /** Printable ASCII below `{`: no brace and no line terminator. */
  predicate Printable(s: string) {
    forall k :: 0 <= k < |s| ==> ' ' <= s[k] < '{'
  }

  lemma PrintableIsPlain(s: string)
    requires Printable(s)
    ensures PlainBody(s)
  {
    forall c | c in s
      ensures ' ' <= c < '{'
    {
      var k :| 0 <= k < |s| && s[k] == c;
    }
  }

  const TestLiterals: seq<string> := ["Test Date: ", ". Test Integer: ", ". Test Percent: ", ""]
  const TestPlaceholderNames: seq<string> := ["myDate", "simpleInt", "numberPercent"]
  const TestRests: seq<string> := [" time, dd.MM.yyyy", " number, integer", " number, percent"]

  /** The named template of NamedMessageFormatTest, written as its literal segments and placeholders. */
  const NamedPattern: string :=
    "Test Date: " + "{" + "myDate, time, dd.MM.yyyy" + "}"
    + ". Test Integer: " + "{" + "simpleInt, number, integer" + "}"
    + ". Test Percent: " + "{" + "numberPercent, number, percent" + "}"

  lemma TestBodiesAreJoined()
    ensures Bodies(TestPlaceholderNames, TestRests)
         == ["myDate, time, dd.MM.yyyy", "simpleInt, number, integer", "numberPercent, number, percent"]
  {
    var b := Bodies(TestPlaceholderNames, TestRests);
    assert b[0] == "myDate, time, dd.MM.yyyy";
    assert b[1] == "simpleInt, number, integer";
    assert b[2] == "numberPercent, number, percent";
  }

  /** Assembly of three placeholders and a template that ends with the last one. */
  lemma AssembleThree(l0: string, l1: string, l2: string, b0: string, b1: string, b2: string)
    ensures Assemble([l0, l1, l2, ""], [b0, b1, b2])
         == l0 + "{" + b0 + "}" + l1 + "{" + b1 + "}" + l2 + "{" + b2 + "}"
  {
    var lits, bodies := [l0, l1, l2, ""], [b0, b1, b2];
    assert lits[1..][1..][1..] == [""] && bodies[1..][1..][1..] == [];
    var p2 := l2 + "{" + b2 + "}";
    assert Assemble(lits[1..][1..], bodies[1..][1..]) == p2 + "";
    assert p2 + "" == p2;
  }

  lemma NamedPatternIsAssembled()
    ensures Assemble(TestLiterals, Bodies(TestPlaceholderNames, TestRests)) == NamedPattern
  {
    TestBodiesAreJoined();
    AssembleThree("Test Date: ", ". Test Integer: ", ". Test Percent: ",
      "myDate, time, dd.MM.yyyy", "simpleInt, number, integer", "numberPercent, number, percent");
  }

  /** A printable placeholder whose name has a character its rest lacks. */
  lemma PrintablePlaceholder(name: string, rest: string, i: nat)
    requires ',' !in name && IsValidName(name) && Printable(name + "," + rest)
    requires i < |name| && name[i] !in rest + "}"
    ensures NamedPlaceholder(name, rest)
  {
    PrintableIsPlain(name + "," + rest);
    AbsentWithoutCharacter(rest + "}", name, i);
  }

  lemma DatePlaceholder()
    ensures NamedPlaceholder(TestPlaceholderNames[0], TestRests[0])
  {
    PrintablePlaceholder("myDate", " time, dd.MM.yyyy", 2);
  }

  lemma IntegerPlaceholder()
    ensures NamedPlaceholder(TestPlaceholderNames[1], TestRests[1])
  {
    PrintablePlaceholder("simpleInt", " number, integer", 6);
  }

  lemma PercentPlaceholder()
    ensures NamedPlaceholder(TestPlaceholderNames[2], TestRests[2])
  {
    PrintablePlaceholder("numberPercent", " number, percent", 6);
  }

  lemma TestPlaceholdersAreNamed()
    ensures NamedParts(TestLiterals, TestPlaceholderNames, TestRests)
  {
    DatePlaceholder();
    IntegerPlaceholder();
    PercentPlaceholder();
    assert forall k :: 0 <= k < 3 ==> NamedPlaceholder(TestPlaceholderNames[k], TestRests[k]);
  }

  lemma Regroup(a: string, b: string, c: string, d: string, e: string, f: string)
    ensures (a + b) + ((c + d) + ((e + f) + "")) == a + b + c + d + e + f
  {
  }

  lemma FirstIndices()
    ensures DecimalString(0) == "0" && DecimalString(1) == "1" && DecimalString(2) == "2"
  {
  }

  /**
   * NamedMessageFormatTest.format: the test's named template with the test's
   * map gives its literals with placeholder k rendered on its own as
   * `{k, type, style}` with the values of placeholders 0 .. k.
   */
  lemma NamedPatternFormats<V>(date: V, integer: V, percent: V, render: (string, seq<V>) -> string)
    ensures var args := map["myDate" := date, "numberPercent" := percent, "simpleInt" := integer];
      FormatSpec(NamedPattern, args, render) == Success(
        "Test Date: " + render("{" + "0" + "," + " time, dd.MM.yyyy" + "}", [date])
        + ". Test Integer: " + render("{" + "1" + "," + " number, integer" + "}", [date, integer])
        + ". Test Percent: " + render("{" + "2" + "," + " number, percent" + "}", [date, integer, percent]))
  {
    var args := map["myDate" := date, "numberPercent" := percent, "simpleInt" := integer];
    var values := [date, integer, percent];
    NamedPatternIsAssembled();
    TestPlaceholdersAreNamed();
    NamedEqualsPositional(TestLiterals, TestPlaceholderNames, TestRests, args, values, render);
    FirstIndices();
    var r0 := render("{" + "0" + "," + " time, dd.MM.yyyy" + "}", [date]);
    var r1 := render("{" + "1" + "," + " number, integer" + "}", [date, integer]);
    var r2 := render("{" + "2" + "," + " number, percent" + "}", [date, integer, percent]);
    assert values[..1] == [date] && values[..2] == [date, integer] && values[..3] == values;
    assert PositionalFrom(TestLiterals, TestRests, values, render, 3) == "";
    assert PositionalFrom(TestLiterals, TestRests, values, render, 2) == (". Test Percent: " + r2) + "";
    assert PositionalFrom(TestLiterals, TestRests, values, render, 1)
        == (". Test Integer: " + r1) + ((". Test Percent: " + r2) + "");
    assert PositionalFrom(TestLiterals, TestRests, values, render, 0)
        == ("Test Date: " + r0) + ((". Test Integer: " + r1) + ((". Test Percent: " + r2) + ""));
    Regroup("Test Date: ", r0, ". Test Integer: ", r1, ". Test Percent: ", r2);
  }
}
