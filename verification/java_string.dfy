/** The two `java.lang.String` operations the core relies on. */
module JavaString {

  /** `target` occurs in `s` starting at index `i`. */
  predicate OccursAt(s: string, i: nat, target: string) {
    i + |target| <= |s| && s[i..i + |target|] == target
  }

  /** Java's `String.replace(CharSequence target, CharSequence replacement)`:
      scans `s` from the left and replaces every non-overlapping occurrence of
      `target` by `replacement`, which is inserted literally and never rescanned. */
  function Replace(s: string, target: string, replacement: string): string
    requires |target| > 0
    decreases |s|
  {
    if |s| < |target| then s
    else if s[..|target|] == target then replacement + Replace(s[|target|..], target, replacement)
    else [s[0]] + Replace(s[1..], target, replacement)
  }

  /** A string without an occurrence of the target comes back unchanged. */
  lemma {:induction false} ReplaceNoOccurrence(s: string, target: string, replacement: string)
    requires |target| > 0
    requires forall i: nat :: !OccursAt(s, i, target)
    ensures Replace(s, target, replacement) == s
    decreases |s|
  {
    if |s| >= |target| {
      assert !OccursAt(s, 0, target);
      forall i: nat
        ensures !OccursAt(s[1..], i, target)
      {
        if i + |target| <= |s[1..]| {
          assert s[1..][i..i + |target|] == s[i + 1..i + 1 + |target|];
          assert !OccursAt(s, i + 1, target);
        }
      }
      ReplaceNoOccurrence(s[1..], target, replacement);
      assert s == [s[0]] + s[1..];
    }
  }

  /** Replacing a single character is a character-by-character map: it
      distributes over concatenation. */
  lemma {:induction false} ReplaceCharConcat(a: string, b: string, c: char, replacement: string)
    ensures Replace(a + b, [c], replacement) == Replace(a, [c], replacement) + Replace(b, [c], replacement)
    decreases |a|
  {
    if |a| == 0 {
      assert a + b == b;
    } else {
      var ab := a + b;
      assert ab[..1] == a[..1] && ab[0] == a[0];
      assert ab[1..] == a[1..] + b;
      ReplaceCharConcat(a[1..], b, c, replacement);
    }
  }

  /** The effect of a single-character replace on one character. */
  lemma ReplaceCharSingle(x: char, c: char, replacement: string)
    ensures Replace([x], [c], replacement) == if x == c then replacement else [x]
  {
    assert [x][..1] == [x];
    assert [x][1..] == [];
  }

  /** One replacement step at the head of the string. */
  lemma ReplaceHeadMatch(s: string, target: string, replacement: string)
    requires |target| > 0 && |target| <= |s| && s[..|target|] == target
    ensures Replace(s, target, replacement) == replacement + Replace(s[|target|..], target, replacement)
  {
  }

  /** When the head of the string does not start an occurrence, its first
      character is copied and the scan moves on by one. */
  lemma ReplaceHeadCopy(s: string, target: string, replacement: string)
    requires |target| > 0 && |s| > 0
    requires |s| < |target| || s[..|target|] != target
    ensures Replace(s, target, replacement) == [s[0]] + Replace(s[1..], target, replacement)
  {
    if |s| < |target| {
      assert s == [s[0]] + s[1..];
    }
  }

  /** A single-character target that does not occur leaves the string as it is. */
  lemma ReplaceAbsentChar(s: string, c: char, replacement: string)
    requires c !in s
    ensures Replace(s, [c], replacement) == s
  {
    forall i: nat
      ensures !OccursAt(s, i, [c])
    {
      if i + 1 <= |s| {
        assert s[i..i + 1] == [s[i]];
        assert s[i] in s;
      }
    }
    ReplaceNoOccurrence(s, [c], replacement);
  }

  /** Replacing the one occurrence of a character between two texts that
      lack it. */
  lemma ReplaceCharBetween(a: string, c: char, b: string, replacement: string)
    requires c !in a && c !in b
    ensures Replace(a + [c] + b, [c], replacement) == a + replacement + b
  {
    ReplaceCharConcat(a + [c], b, c, replacement);
    ReplaceCharConcat(a, [c], c, replacement);
    ReplaceAbsentChar(a, c, replacement);
    ReplaceAbsentChar(b, c, replacement);
    ReplaceCharSingle(c, c, replacement);
  }
}
