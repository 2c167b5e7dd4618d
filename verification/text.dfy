/** String operations the node relies on, as Python's `str` defines them:
    substring test (`p in s`), last occurrence of a character (`s.rfind(c)`)
    and left-to-right, non-overlapping replacement (`s.replace(p, r)`). */
module Text {

  /** `p` occurs in `s` starting at index `i`. */
  ghost predicate OccursAt(s: string, p: string, i: int)
  {
    0 <= i && i + |p| <= |s| && s[i..i + |p|] == p
  }

  /** Python's `p in s`: `p` is a contiguous slice of `s` (the empty string
      occurs in every string). */
  predicate Contains(s: string, p: string)
    ensures Contains(s, p) <==> exists i :: OccursAt(s, p, i)
    decreases |s|
  {
    if p <= s then
      assert OccursAt(s, p, 0);
      true
    else if s == [] then
      false
    else
      var r := Contains(s[1..], p);
      assert forall i :: OccursAt(s[1..], p, i) ==> OccursAt(s, p, i + 1) by {
        forall i | OccursAt(s[1..], p, i) ensures OccursAt(s, p, i + 1) {
          assert s[i + 1..i + 1 + |p|] == s[1..][i..i + |p|];
        }
      }
      assert forall i :: OccursAt(s, p, i) ==> i == 0 || OccursAt(s[1..], p, i - 1) by {
        forall i | OccursAt(s, p, i) && i != 0 ensures OccursAt(s[1..], p, i - 1) {
          assert s[1..][i - 1..i - 1 + |p|] == s[i..i + |p|];
        }
      }
      r
  }

  /** A string contains every slice of itself. */
  lemma ContainsSlice(s: string, i: nat, j: nat)
    requires i <= j <= |s|
    ensures Contains(s, s[i..j])
  {
    assert OccursAt(s, s[i..j], i);
  }

  /** Substring containment is transitive: if `s` contains `p` and `p`
      contains `q`, then `s` contains `q`. */
  lemma ContainsTransitive(s: string, p: string, q: string)
    requires Contains(s, p) && Contains(p, q)
    ensures Contains(s, q)
  {
    var i :| OccursAt(s, p, i);
    var j :| OccursAt(p, q, j);
    forall k | 0 <= k < |q| ensures s[i + j + k] == q[k] {
      assert q[k] == p[j + k] == s[i..i + |p|][j + k];
    }
    assert s[i + j..i + j + |q|] == q;
    assert OccursAt(s, q, i + j);
  }

  /** A pattern holding a character that `s` lacks does not occur in `s`. */
  lemma MissingChar(s: string, p: string, c: char)
    requires c in p && c !in s
    ensures !Contains(s, p)
  {
    var k :| 0 <= k < |p| && p[k] == c;
    forall i | 0 <= i && i + |p| <= |s| ensures !OccursAt(s, p, i) {
      assert s[i..i + |p|][k] == s[i + k] != c;
    }
  }

  /** Python's `s.rfind([c])` for a one-character needle: the highest index
      holding `c`, or -1 when `c` does not occur. */
  function RFind(s: string, c: char): (r: int)
    ensures -1 <= r < |s|
    ensures r >= 0 ==> s[r] == c
    ensures forall j :: r < j < |s| ==> s[j] != c
    ensures r == -1 <==> c !in s
    decreases |s|
  {
    if s == [] then -1
    else if s[|s| - 1] == c then |s| - 1
    else RFind(s[..|s| - 1], c)
  }

  /** Python's `s.replace(p, r)` for a non-empty pattern: scan left to right,
      replace each occurrence of `p` and continue after it. */
  function ReplaceAll(s: string, p: string, r: string): string
    requires p != []
    decreases |s|
  {
    if s == [] then []
    else if p <= s then r + ReplaceAll(s[|p|..], p, r)
    else [s[0]] + ReplaceAll(s[1..], p, r)
  }

  /** Replacing a pattern that does not occur leaves the string unchanged. */
  lemma {:induction false} ReplaceAbsent(s: string, p: string, r: string)
    requires p != [] && !Contains(s, p)
    ensures ReplaceAll(s, p, r) == s
    decreases |s|
  {
    if s != [] {
      assert !(p <= s) by { assert !OccursAt(s, p, 0); }
      ReplaceAbsent(s[1..], p, r);
    }
  }

  /** When `p` does not start inside `a` (`a` non-empty), `a + p + b` does
      not start with `p`, and dropping its first character drops `a`'s. */
  lemma SkipHead(a: string, p: string, b: string)
    requires a != [] && p != [] && !Contains(a + p[..|p| - 1], p)
    ensures !(p <= a + p + b)
    ensures (a + p + b)[1..] == a[1..] + p + b
  {
    var t := a + p[..|p| - 1];
    assert !OccursAt(t, p, 0);
    assert t[..|p|] == (a + p + b)[..|p|];
  }

  /** What does not occur in a string does not occur in its tail. */
  lemma AbsentFromTail(a: string, p: string)
    requires a != [] && p != [] && !Contains(a + p[..|p| - 1], p)
    ensures !Contains(a[1..] + p[..|p| - 1], p)
  {
    var t := a + p[..|p| - 1];
    assert t[1..] == a[1..] + p[..|p| - 1];
  }

  /** The leftmost occurrence is replaced: when `p` does not occur in `a`,
      nor starts inside `a` and runs into its own copy, the text before the
      occurrence is kept, the occurrence becomes `r`, and the scan resumes
      right after it. With `ReplaceAbsent` this pins `ReplaceAll` down. */
  lemma {:induction false} ReplaceAtFirst(a: string, p: string, b: string, r: string)
    requires p != [] && !Contains(a + p[..|p| - 1], p)
    ensures ReplaceAll(a + p + b, p, r) == a + r + ReplaceAll(b, p, r)
    decreases |a|
  {
    if a == [] {
      assert a + p + b == p + b && (p + b)[|p|..] == b;
    } else {
      SkipHead(a, p, b);
      AbsentFromTail(a, p);
      ReplaceAtFirst(a[1..], p, b, r);
      assert a == [a[0]] + a[1..];
    }
  }

  /** A pattern is replaced wholesale in a string that is just the pattern. */
  lemma ReplaceWhole(p: string, r: string)
    requires p != []
    ensures ReplaceAll(p, p, r) == r
  {
    ReplaceAtFirst([], p, [], r);
    assert [] + p + [] == p;
  }

  /** A prefix of `a + b` longer than `a` contains `b`'s first character. */
  lemma PrefixCrossesSeam(a: string, b: string, p: string)
    requires p <= a + b && |p| > |a|
    ensures b != [] && b[0] in p
  {
    assert p[|a|] == (a + b)[|a|];
  }

  /** Replacement distributes over a concatenation whose second part starts
      with a character foreign to the pattern: no occurrence of `p` can
      straddle the seam, because it would have to contain `b[0]`. */
  lemma {:induction false} ReplaceSplit(a: string, b: string, p: string, r: string)
    requires p != []
    requires b == [] || b[0] !in p
    ensures ReplaceAll(a + b, p, r) == ReplaceAll(a, p, r) + ReplaceAll(b, p, r)
    decreases |a|
  {
    if a == [] {
      assert a + b == b;
    } else if p <= a + b {
      if |p| > |a| {
        PrefixCrossesSeam(a, b, p);
        assert false;
      }
      assert p <= a;
      assert (a + b)[|p|..] == a[|p|..] + b;
      ReplaceSplit(a[|p|..], b, p, r);
    } else {
      assert (a + b)[1..] == a[1..] + b;
      ReplaceSplit(a[1..], b, p, r);
    }
  }

  /** A string whose first character is foreign to the pattern keeps that
      first character after replacement. */
  lemma ReplaceKeepsHead(b: string, p: string, r: string)
    requires p != [] && b != [] && b[0] !in p
    ensures ReplaceAll(b, p, r) != [] && ReplaceAll(b, p, r)[0] == b[0]
  {
  }
}
