/**
 * Properties of the positional argument list that `format` builds while it
 * scans: one entry per placeholder whose name is a key of the map, in
 * template order, nothing for a name the map lacks.
 */
module ArgumentProperties {
  import opened FormatSemantics

  /**
   * Independent reference for the argument list, read from the front: the
   * value of the first name, if present, followed by the values of the rest.
   */
  function PresentValues<V>(names: seq<string>, args: map<string, V>): seq<V> {
    if names == [] then []
    else (if names[0] in args then [args[names[0]]] else []) + PresentValues(names[1..], args)
  }

  /** Processing two runs of names one after the other builds the two argument lists one after the other. */
  lemma {:induction false} ArgumentsAppend<V>(a: seq<string>, b: seq<string>, args: map<string, V>)
    ensures Arguments(a + b, args) == Arguments(a, args) + Arguments(b, args)
    decreases |b|
  {
    if b == [] {
      assert a + b == a;
    } else {
      var b' := b[..|b| - 1];
      var last := b[|b| - 1];
      assert (a + b)[..|a + b| - 1] == a + b';
      assert (a + b)[|a + b| - 1] == last;
      ArgumentsAppend(a, b', args);
    }
  }

  /** The list the loop accumulates is the in-order list of the values of the present names. */
  lemma {:induction false} ArgumentsArePresentValues<V>(names: seq<string>, args: map<string, V>)
    ensures Arguments(names, args) == PresentValues(names, args)
    decreases |names|
  {
    if names != [] {
      assert names == [names[0]] + names[1..];
      ArgumentsAppend([names[0]], names[1..], args);
      assert [names[0]][..0] == [];
      ArgumentsArePresentValues(names[1..], args);
    }
  }

  /**
   * Missing names add nothing: the list is never longer than the names, and
   * it has one entry per name exactly when every name is in the map.
   */
  lemma {:induction false} ArgumentsLength<V>(names: seq<string>, args: map<string, V>)
    ensures |Arguments(names, args)| <= |names|
    ensures |Arguments(names, args)| == |names| <==> forall j :: 0 <= j < |names| ==> names[j] in args
    decreases |names|
  {
    if names != [] {
      var init := names[..|names| - 1];
      ArgumentsLength(init, args);
      assert forall j :: 0 <= j < |init| ==> init[j] == names[j];
    }
  }

  /** When every name is in the map, entry j of the list is the value of name j. */
  lemma {:induction false} ArgumentsAllPresent<V>(names: seq<string>, args: map<string, V>)
    requires forall j :: 0 <= j < |names| ==> names[j] in args
    ensures |Arguments(names, args)| == |names|
    ensures forall j :: 0 <= j < |names| ==> Arguments(names, args)[j] == args[names[j]]
    decreases |names|
  {
    if names != [] {
      var init := names[..|names| - 1];
      assert forall j :: 0 <= j < |init| ==> init[j] == names[j];
      ArgumentsAllPresent(init, args);
    }
  }

  /** The list built from names 0 .. k when all of them are in the map: entry j is the value of name j. */
  lemma ArgumentsOfPresentPrefix<V>(names: seq<string>, args: map<string, V>, k: nat)
    requires k < |names| && forall j :: 0 <= j <= k ==> names[j] in args
    ensures |Arguments(names[..k + 1], args)| == k + 1
    ensures forall j :: 0 <= j <= k ==> Arguments(names[..k + 1], args)[j] == args[names[j]]
  {
    var prefix := names[..k + 1];
    assert forall j :: 0 <= j < |prefix| ==> prefix[j] == names[j];
    ArgumentsAllPresent(prefix, args);
  }

  /** The list only grows during the scan: the list after k names is a prefix of the list after all of them. */
  lemma ArgumentsOnlyGrow<V>(names: seq<string>, args: map<string, V>, k: nat)
    requires k <= |names|
    ensures Arguments(names[..k], args) <= Arguments(names, args)
  {
    assert names == names[..k] + names[k..];
    ArgumentsAppend(names[..k], names[k..], args);
  }

  /** A later name that is in the map makes the list strictly longer than it was at an earlier point. */
  lemma PresentNameLengthens<V>(names: seq<string>, args: map<string, V>, j: nat, k: nat)
    requires j < k < |names| && names[k] in args
    ensures |Arguments(names[..j + 1], args)| < |Arguments(names[..k + 1], args)|
  {
    ArgumentsStep(names, args, k);
    ArgumentsOnlyGrow(names[..k], args, j + 1);
    assert names[..k][..j + 1] == names[..j + 1];
  }

  /** Two maps that agree on the given names, in membership and in value. */
  ghost predicate AgreeOn<V>(names: seq<string>, a1: map<string, V>, a2: map<string, V>) {
    forall j :: 0 <= j < |names| ==>
      (names[j] in a1 <==> names[j] in a2) && (names[j] in a1 ==> a1[names[j]] == a2[names[j]])
  }

  /** Only the map's entries for the names matter: maps that agree on them give the same list. */
  lemma {:induction false} ArgumentsSameOnNames<V>(names: seq<string>, a1: map<string, V>, a2: map<string, V>)
    requires AgreeOn(names, a1, a2)
    ensures Arguments(names, a1) == Arguments(names, a2)
    decreases |names|
  {
    if names != [] {
      var init := names[..|names| - 1];
      assert forall j :: 0 <= j < |init| ==> init[j] == names[j];
      ArgumentsSameOnNames(init, a1, a2);
    }
  }

  /**
   * Positional drift: when a name among the first k + 1 is missing from the
   * map, the list handed to the renderer for placeholder k, which now reads
   * `{k, ...}`, has no entry k, and every later entry sits at a smaller
   * position than its placeholder's index.
   */
  lemma MissingNameShiftsPositions<V>(names: seq<string>, args: map<string, V>, j: nat, k: nat)
    requires j <= k < |names| && names[j] !in args
    ensures |Arguments(names[..k + 1], args)| <= k
  {
    ArgumentsLength(names[..k + 1], args);
    assert names[..k + 1][j] == names[j];
  }

  /** The drift made concrete: with `aa` missing, the value of `bb` is entry 0 although its placeholder reads `{1}`. */
  lemma DriftExample<V>(v: V)
    ensures Arguments(["aa", "bb"], map["bb" := v]) == [v]
  {
    var args := map["bb" := v];
    assert "aa"[0] != "bb"[0];
    assert ["aa"][..0] == [];
    assert Arguments(["aa"], args) == [];
    assert ["aa", "bb"][..1] == ["aa"];
    assert Arguments(["aa", "bb"], args) == Arguments(["aa"], args) + [v];
  }
}
