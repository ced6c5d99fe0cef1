/**
 * Placeholder names: how `format` cuts the name out of a match
 * (`split(",")[0].substring(1)`) and the grammar `NAME_PARAM_PATTERN`,
 * `^[a-zA-Z_][a-zA-Z0-9_]+$`, that the whole name must match.
 */
module NameGrammar {

  predicate IsIdentStart(c: char) {
    ('a' <= c <= 'z') || ('A' <= c <= 'Z') || c == '_'
  }

  predicate IsIdentPart(c: char) {
    IsIdentStart(c) || ('0' <= c <= '9')
  }

  /**
   * `Pattern.matches(NAME_PARAM_PATTERN, n)`: one character of [a-zA-Z_]
   * followed by ONE OR MORE of [a-zA-Z0-9_], so at least two characters.
   */
  predicate IsValidName(n: string) {
    2 <= |n| && IsIdentStart(n[0]) && forall k :: 1 <= k < |n| ==> IsIdentPart(n[k])
  }

  /** The length of `t.split(",")[0]`: the prefix of t before its first comma, or all of t. */
  function CommaIndex(t: string): (r: nat)
    ensures r <= |t|
    ensures forall k :: 0 <= k < r ==> t[k] != ','
    ensures r < |t| ==> t[r] == ','
  {
    if t == [] then 0
    else if t[0] == ',' then 0
    else 1 + CommaIndex(t[1..])
  }

  /**
   * `t.split(",")[0].substring(1)`: the match without its opening character,
   * cut at its first comma. When t starts with a comma Java's split yields an
   * empty first piece and `substring(1)` throws; a match always starts with
   * `{`, so the requires excludes only that case.
   */
  function ExtractName(t: string): (n: string)
    requires 0 < |t| && t[0] != ','
    ensures 1 + |n| <= |t| && t[1..1 + |n|] == n
    ensures forall k :: 0 <= k < |n| ==> n[k] != ','
    ensures 1 + |n| < |t| ==> t[1 + |n|] == ','
  {
    t[..CommaIndex(t)][1..]
  }

  /**
   * A placeholder without a comma, `{body}`, yields the name `body}`, which
   * ends in `}` and so never matches the grammar.
   */
  lemma CommaFreePlaceholderIsRejected(body: string)
    requires ',' !in body
    ensures ExtractName("{" + body + "}") == body + "}"
    ensures !IsValidName(ExtractName("{" + body + "}"))
  {
    var t := "{" + body + "}";
    var n := ExtractName(t);
    assert n == t[1..1 + |n|] == body + "}";
    assert n[|n| - 1] == '}';
  }

  /**
   * The name is exactly the text between the opening character and the
   * first comma: for `{` + name + rest, where name has no comma and rest is
   * empty or starts with one, the extracted name is name.
   */
  lemma ExtractNameOfParts(open: char, name: string, rest: string)
    requires open != ',' && ',' !in name && (rest == [] || rest[0] == ',')
    ensures ExtractName([open] + name + rest) == name
  {
    var t := [open] + name + rest;
    assert t[1..1 + |name|] == name;
  }

  /**
   * A match whose name is valid splits as the opening character, the name, a
   * comma and the rest: a valid name cannot have absorbed the closing `}`.
   */
  lemma ValidNameSplitsMatch(t: string)
    requires 0 < |t| && t[0] != ',' && t[|t| - 1] == '}' && IsValidName(ExtractName(t))
    ensures var n := ExtractName(t);
      2 + |n| <= |t| && t[1 + |n|] == ',' && t == [t[0]] + n + [','] + t[2 + |n|..]
  {
    var n := ExtractName(t);
    assert t == t[..1] + t[1..1 + |n|] + t[1 + |n|..1 + |n| + 1] + t[2 + |n|..];
  }

  /** Names shorter than two characters, empty ones included, are rejected. */
  lemma ShortNamesAreRejected(n: string)
    requires |n| < 2
    ensures !IsValidName(n)
  {
  }

  /** A name starting with a digit, or holding any character outside [a-zA-Z0-9_], is rejected. */
  lemma BadCharacterIsRejected(n: string, k: nat)
    requires k < |n|
    requires !IsIdentPart(n[k]) || (k == 0 && '0' <= n[0] <= '9')
    ensures !IsValidName(n)
  {
  }

  /** The names of the template in NamedMessageFormatTest, valid and corrupted. */
  lemma TestNames()
    ensures IsValidName("myDate") && IsValidName("simpleInt") && IsValidName("numberPercent")
    ensures !IsValidName("!myDate") && !IsValidName("213simpleInt") && !IsValidName("..numberPercent")
  {
  }
}
