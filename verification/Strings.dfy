/** Substring search, as strings.Index and strings.Contains do it. */
module Strings {
  import opened Wrappers

  predicate At(s: string, pattern: string, i: nat) {
    i + |pattern| <= |s| && s[i..i + |pattern|] == pattern
  }

  /** The first occurrence of a pattern. */
  function Find(s: string, pattern: string): (found: Option<nat>)
    requires pattern != ""
    ensures found.Some? ==> found.value + |pattern| <= |s|
  {
    FindFrom(s, pattern, 0)
  }

  function FindFrom(s: string, pattern: string, i: nat): (found: Option<nat>)
    requires pattern != ""
    ensures found.Some? ==> found.value + |pattern| <= |s|
    decreases |s| - i
  {
    if i + |pattern| > |s| then None
    else if At(s, pattern, i) then Some(i)
    else FindFrom(s, pattern, i + 1)
  }

  /** The text before and after the first occurrence. */
  function Cut(s: string, pattern: string): Option<(string, string)>
    requires pattern != ""
  {
    match Find(s, pattern)
    case None => None
    case Some(i) => Some((s[..i], s[i + |pattern|..]))
  }

  predicate Contains(s: string, pattern: string)
    requires pattern != ""
  {
    Find(s, pattern).Some?
  }

  lemma {:induction false} FindFromIsFirst(s: string, pattern: string, i: nat)
    requires pattern != ""
    ensures match FindFrom(s, pattern, i)
            case Some(k) => i <= k && At(s, pattern, k) && forall j :: i <= j < k ==> !At(s, pattern, j)
            case None => forall j :: i <= j ==> !At(s, pattern, j)
    decreases |s| - i
  {
    if i + |pattern| <= |s| && !At(s, pattern, i) {
      FindFromIsFirst(s, pattern, i + 1);
    }
  }

  /** What Find means: an occurrence with none before it, or none at all. */
  lemma FindIsFirst(s: string, pattern: string)
    requires pattern != ""
    ensures match Find(s, pattern)
            case Some(i) => At(s, pattern, i) && forall j :: 0 <= j < i ==> !At(s, pattern, j)
            case None => forall j :: 0 <= j ==> !At(s, pattern, j)
  {
    FindFromIsFirst(s, pattern, 0);
  }

  /** Text that cannot run into an occurrence: it does not contain the pattern, and it ends with a character that only
      the pattern's end can match or what follows starts with one that only the pattern's start can match. */
  predicate Blocks(a: string, b: string, pattern: string)
    requires pattern != ""
  {
    && !Contains(a, pattern)
    && (a == "" || b == "" || a[|a| - 1] !in pattern[..|pattern| - 1] || b[0] !in pattern[1..])
  }

  lemma AtChar(s: string, pattern: string, i: nat, k: nat)
    requires k < |pattern|
    ensures At(s, pattern, i) ==> i + k < |s| && s[i + k] == pattern[k]
  {
    if At(s, pattern, i) {
      assert s[i..i + |pattern|][k] == s[i + k];
    }
  }

  lemma NoneInside(a: string, b: string, pattern: string, j: nat)
    requires pattern != "" && Blocks(a, b, pattern) && j < |a|
    ensures !At(a + b, pattern, j)
  {
    var s, k := a + b, |a| - j;
    if k >= |pattern| {
      FindIsFirst(a, pattern);
      assert s[j..j + |pattern|] == a[j..j + |pattern|];
      assert !At(a, pattern, j);
    } else {
      AtChar(s, pattern, j, k - 1);
      AtChar(s, pattern, j, k);
      assert pattern[1..][k - 1] == pattern[k] && pattern[..|pattern| - 1][k - 1] == pattern[k - 1];
    }
  }

  /** Prepending text shifts the occurrences after it. */
  lemma AtPast(a: string, b: string, pattern: string, j: nat)
    ensures At(a + b, pattern, |a| + j) <==> At(b, pattern, j)
  {
    if j + |pattern| <= |b| {
      assert (a + b)[|a| + j..|a| + j + |pattern|] == b[j..j + |pattern|];
    }
  }

  /** Prepending such text shifts the first occurrence. */
  lemma FindPast(a: string, b: string, pattern: string)
    requires pattern != "" && Blocks(a, b, pattern)
    ensures Find(a + b, pattern) == match Find(b, pattern) case None => None case Some(i) => Some(|a| + i)
  {
    FindIsFirst(a + b, pattern);
    FindIsFirst(b, pattern);
    forall j: nat ensures j < |a| ==> !At(a + b, pattern, j) {
      if j < |a| {
        NoneInside(a, b, pattern, j);
      }
    }
    var whole, part := Find(a + b, pattern), Find(b, pattern);
    if whole.Some? {
      AtPast(a, b, pattern, whole.value - |a|);
    }
    if part.Some? {
      AtPast(a, b, pattern, part.value);
    }
  }

  /** After text without the pattern, the pattern itself is the first occurrence, if its first character is
      nowhere else in it. */
  lemma FindAfter(a: string, pattern: string, b: string)
    requires pattern != "" && pattern[0] !in pattern[1..] && !Contains(a, pattern)
    ensures Find(a + pattern + b, pattern) == Some(|a|)
  {
    FindPast(a, pattern + b, pattern);
    assert a + (pattern + b) == a + pattern + b;
    assert (pattern + b)[..|pattern|] == pattern;
  }

  /** Cutting takes a string apart into its pieces, the first of them free of the pattern. */
  lemma CutPieces(s: string, pattern: string)
    requires pattern != "" && Cut(s, pattern).Some?
    ensures var (before, after) := Cut(s, pattern).value;
            s == before + pattern + after && !Contains(before, pattern)
  {
    var i := Find(s, pattern).value;
    FindIsFirst(s, pattern);
    assert s == s[..i] + s[i..i + |pattern|] + s[i + |pattern|..];
    NotInPrefix(s, pattern, i);
  }

  /** Such pieces are what cutting gives back. */
  lemma CutIs(before: string, pattern: string, after: string)
    requires pattern != "" && pattern[0] !in pattern[1..] && !Contains(before, pattern)
    ensures Cut(before + pattern + after, pattern) == Some((before, after))
  {
    FindAfter(before, pattern, after);
    var s := before + pattern + after;
    assert s[..|before|] == before && s[|before| + |pattern|..] == after;
  }

  lemma NotInPrefix(s: string, pattern: string, i: nat)
    requires pattern != "" && i <= |s| && forall j :: 0 <= j < i ==> !At(s, pattern, j)
    ensures !Contains(s[..i], pattern)
  {
    FindIsFirst(s[..i], pattern);
    forall j | 0 <= j ensures !At(s[..i], pattern, j) {
      if j + |pattern| <= i {
        assert s[..i][j..j + |pattern|] == s[j..j + |pattern|];
        assert !At(s, pattern, j);
      }
    }
  }

  lemma ContainsPast(a: string, b: string, pattern: string)
    requires pattern != "" && Blocks(a, b, pattern)
    ensures Contains(a + b, pattern) <==> Contains(b, pattern)
  {
    FindPast(a, b, pattern);
  }

  /** Text without one of the pattern's characters does not contain the pattern. */
  lemma NotWithout(s: string, pattern: string, k: nat)
    requires k < |pattern| && pattern[k] !in s
    ensures !Contains(s, pattern)
  {
    FindIsFirst(s, pattern);
    if Find(s, pattern).Some? {
      AtChar(s, pattern, Find(s, pattern).value, k);
    }
  }

  lemma ContainsChar(s: string, c: char)
    ensures Contains(s, [c]) <==> c in s
  {
    FindIsFirst(s, [c]);
    if i :| 0 <= i < |s| && s[i] == c {
      assert At(s, [c], i);
    }
    if Contains(s, [c]) {
      AtChar(s, [c], Find(s, [c]).value, 0);
    }
  }

  lemma Regroup(a: string, b: string, c: string)
    ensures a + b + c == a + (b + c)
  {
  }
}
