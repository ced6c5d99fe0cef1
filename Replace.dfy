/**
 * `String.replace(CharSequence target, CharSequence replacement)`: every
 * occurrence of target, found from left to right without overlap, is replaced
 * by replacement ("aaa".replace("aa", "b") is "ba").
 */
module Replace {

  /** target occurs in s at position k. */
  predicate OccursAt(s: string, target: string, k: nat) {
    k + |target| <= |s| && s[k..k + |target|] == target
  }

  /** target occurs nowhere in s. */
  predicate Absent(s: string, target: string) {
    forall k: nat :: k + |target| <= |s| ==> !OccursAt(s, target, k)
  }

  /** A target with a character the string lacks occurs nowhere in it. */
  lemma AbsentWithoutCharacter(s: string, target: string, i: nat)
    requires i < |target| && target[i] !in s
    ensures Absent(s, target)
  {
  }

  /**
   * Java's String.replace. The empty target, for which Java inserts the
   * replacement before, between and after all characters, is excluded: `format` only replaces
   * names that passed validation, and those have at least two characters.
   */
  function ReplaceAll(s: string, target: string, replacement: string): (r: string)
    requires 0 < |target|
    decreases |s|
  {
    if |s| < |target| then s
    else if s[..|target|] == target then replacement + ReplaceAll(s[|target|..], target, replacement)
    else [s[0]] + ReplaceAll(s[1..], target, replacement)
  }

  /** Without an occurrence of the target the string comes back unchanged. */
  lemma {:induction false} ReplaceAllAbsent(s: string, target: string, replacement: string)
    requires 0 < |target| && Absent(s, target)
    ensures ReplaceAll(s, target, replacement) == s
    decreases |s|
  {
    if |s| >= |target| {
      assert !OccursAt(s, target, 0);
      assert Absent(s[1..], target) by {
        forall k: nat | k + |target| <= |s[1..]|
          ensures !OccursAt(s[1..], target, k)
        {
          assert s[1..][k..k + |target|] == s[k + 1..k + 1 + |target|];
          assert !OccursAt(s, target, k + 1);
        }
      }
      ReplaceAllAbsent(s[1..], target, replacement);
    }
  }

  /** Replacing the target by itself gives back the string. */
  lemma {:induction false} ReplaceAllBySelf(s: string, target: string)
    requires 0 < |target|
    ensures ReplaceAll(s, target, target) == s
    decreases |s|
  {
    if |s| >= |target| {
      if s[..|target|] == target {
        ReplaceAllBySelf(s[|target|..], target);
        assert s == s[..|target|] + s[|target|..];
      } else {
        ReplaceAllBySelf(s[1..], target);
        assert s == [s[0]] + s[1..];
      }
    }
  }

  /** An occurrence at the front is replaced, and the scan resumes after it. */
  lemma ReplaceAllLeading(target: string, rest: string, replacement: string)
    requires 0 < |target|
    ensures ReplaceAll(target + rest, target, replacement) == replacement + ReplaceAll(rest, target, replacement)
  {
    var s := target + rest;
    assert s[..|target|] == target;
    assert s[|target|..] == rest;
  }

  /** A first character that cannot start the target is copied, and the scan moves on by one. */
  lemma ReplaceAllSkip(c: char, rest: string, target: string, replacement: string)
    requires 0 < |target| && c != target[0]
    ensures ReplaceAll([c] + rest, target, replacement) == [c] + ReplaceAll(rest, target, replacement)
  {
    var s := [c] + rest;
    if |s| >= |target| {
      assert s[..|target|][0] == c;
      assert s[1..] == rest;
    } else {
      ReplaceAllShort(rest, target, replacement);
    }
  }

  /** A character that cannot start the target, then an occurrence of it: the character is kept, the occurrence replaced. */
  lemma ReplaceAllAfterOpening(c: char, target: string, rest: string, replacement: string)
    requires 0 < |target| && c != target[0]
    ensures ReplaceAll([c] + target + rest, target, replacement)
         == [c] + replacement + ReplaceAll(rest, target, replacement)
  {
    assert [c] + target + rest == [c] + (target + rest);
    ReplaceAllSkip(c, target + rest, target, replacement);
    ReplaceAllLeading(target, rest, replacement);
  }

  /**
   * A placeholder-like string c + target + c2 + rest, where neither c nor c2
   * can start the target: the leading occurrence is replaced and c2 kept.
   */
  lemma ReplaceAllAfterOpeningThen(c: char, target: string, c2: char, rest: string, replacement: string)
    requires 0 < |target| && c != target[0] && c2 != target[0]
    ensures ReplaceAll([c] + target + [c2] + rest, target, replacement)
         == [c] + replacement + [c2] + ReplaceAll(rest, target, replacement)
  {
    var tail := [c2] + rest;
    assert [c] + target + [c2] + rest == [c] + target + tail;
    ReplaceAllAfterOpening(c, target, tail, replacement);
    ReplaceAllSkip(c2, rest, target, replacement);
  }

  /** c1 + target + c2 + target + c3 with every occurrence of the target replaced, when no ci can start it. */
  lemma ReplaceAllTwice(c1: char, c2: char, c3: char, target: string, replacement: string)
    requires 1 < |target| && c1 != target[0] && c2 != target[0]
    ensures ReplaceAll([c1] + target + [c2] + target + [c3], target, replacement)
         == [c1] + replacement + [c2] + replacement + [c3]
  {
    var tail := target + [c3];
    assert [c1] + target + [c2] + target + [c3] == [c1] + target + [c2] + tail;
    ReplaceAllAfterOpeningThen(c1, target, c2, tail, replacement);
    ReplaceAllLeading(target, [c3], replacement);
    ReplaceAllShort([c3], target, replacement);
  }

  lemma ReplaceAllShort(s: string, target: string, replacement: string)
    requires 0 < |target| && |s| < |target|
    ensures ReplaceAll(s, target, replacement) == s
  {
  }
}
