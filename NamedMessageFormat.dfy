/** The formatter object: a replaceable template and the `format` operation. */
module NamedMessageFormat {
  import opened Wrappers
  import opened Scanner
  import opened NameGrammar
  import opened Decimal
  import opened Replace
  import opened NamedMessageFormatException
  import opened FormatSemantics

  class Formatter {
    /** The template, `{ArgumentName, FormatType, FormatStyle}` placeholders among literal text. */
    var pattern: string

    constructor (pattern: string)
      ensures this.pattern == pattern
    {
      this.pattern := pattern;
    }

    method GetPattern() returns (p: string)
      ensures p == pattern
    {
      p := pattern;
    }

    method SetPattern(p: string)
      modifies this
      ensures pattern == p
    {
      pattern := p;
    }

    /**
     * `format(namedArguments)`. The renderer stands for
     * `MessageFormat.format(fragment, arguments.toArray())`. The argument map
     * is only read and the template is read once, at entry.
     */
    method Format<V>(namedArguments: map<string, V>, render: (string, seq<V>) -> string)
      returns (r: Result<string, NamedFormatError>)
      ensures r == FormatSpec(pattern, namedArguments, render)
    {
      var template := pattern;
      var arguments: seq<V> := [];
      var buffer: string := "";
      // End of the previous match: where `find` resumes and where
      // `appendReplacement` copies literal text from.
      var from: nat := 0;
      var i: nat := 0;
      FormatFromStart(template, namedArguments, render);
      AfterEmptyBuffer(FormatFrom(template, namedArguments, render, from, i, arguments));
      var found := NextMatch(template, from);
      while found.Some?
        invariant from <= |template| && found == NextMatch(template, from)
        invariant FormatSpec(template, namedArguments, render)
               == AfterBuffer(buffer, FormatFrom(template, namedArguments, render, from, i, arguments))
        decreases |template| - from
      {
        var m := found.value;
        var matchText := template[m.start..m.end];
        var name := ExtractName(matchText);
        if !IsValidName(name) {
          return Failure(InvalidName(name));
        }
        FormatFromValidRound(template, namedArguments, render, from, i, arguments);
        var withIndex := ReplaceAll(matchText, name, DecimalString(i));
        if name in namedArguments {
          arguments := arguments + [namedArguments[name]];
        } else {
          assert arguments + [] == arguments;
        }
        var rendered := render(withIndex, arguments);
        // appendReplacement: the literal text since the previous match, then the fragment
        var appended := template[from..m.start] + rendered;
        AfterBufferTwice(buffer, appended, FormatFrom(template, namedArguments, render, m.end, i + 1, arguments));
        buffer := buffer + appended;
        from := m.end;
        i := i + 1;
        found := NextMatch(template, from);
      }
      buffer := buffer + template[from..];
      return Success(buffer);
    }
  }
}
