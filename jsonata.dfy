/**
 * The two JSONata built-ins the publishing workflow evaluates on the
 * Image Builder `getImage` result: `$lowercase` and `$contains` with a
 * string pattern. Strings are sequences of characters; case mapping covers
 * the ASCII letters only.
 */
module Jsonata {

  /** `$lowercase` on one character: 'A'..'Z' map to 'a'..'z', everything else is kept. */
  function LowerChar(c: char): (r: char)
    ensures 'A' <= c <= 'Z' ==> 'a' <= r <= 'z' && r as int - c as int == 32
    ensures !('A' <= c <= 'Z') ==> r == c
  {
    if 'A' <= c <= 'Z' then (c as int + 32) as char else c
  }

  /** No upper-case ASCII letter occurs in `s`. */
  predicate IsLowerCase(s: string) {
    forall i :: 0 <= i < |s| ==> !('A' <= s[i] <= 'Z')
  }

  /** `$lowercase(s)`: the same string with every upper-case letter lowered. */
  function Lowercase(s: string): (r: string)
    ensures |r| == |s|
    ensures forall i {:trigger r[i]} :: 0 <= i < |s| ==> r[i] == LowerChar(s[i])
  {
    if s == [] then [] else [LowerChar(s[0])] + Lowercase(s[1..])
  }

  /** Lowering is idempotent, and a lower-case string is its own lowering. */
  lemma LowercaseFixesLowerCase(s: string)
    requires IsLowerCase(s)
    ensures Lowercase(s) == s
  {
    var r := Lowercase(s);
    forall i | 0 <= i < |s| ensures r[i] == s[i] {
      assert !('A' <= s[i] <= 'Z');
    }
  }

  /** `p` occurs in `s` starting at index `i`. */
  ghost predicate OccursAt(s: string, p: string, i: int) {
    0 <= i && i + |p| <= |s| && s[i..i + |p|] == p
  }

  /**
   * If `p` does not start `s`, its occurrences in `s` are exactly its
   * occurrences in the tail of `s`, shifted by one.
   */
  lemma OccursInTail(s: string, p: string)
    requires |s| > 0 && !OccursAt(s, p, 0)
    ensures (exists i :: OccursAt(s, p, i)) <==> (exists j :: OccursAt(s[1..], p, j))
  {
    if i :| OccursAt(s, p, i) {
      assert i > 0;
      assert s[1..][i - 1..i - 1 + |p|] == s[i..i + |p|];
      assert OccursAt(s[1..], p, i - 1);
    }
    if j :| OccursAt(s[1..], p, j) {
      assert s[j + 1..j + 1 + |p|] == s[1..][j..j + |p|];
      assert OccursAt(s, p, j + 1);
    }
  }

  /**
   * `$contains(s, p)` with a string pattern: a case-sensitive test that `p`
   * occurs in `s` as a contiguous substring. The empty pattern occurs in
   * every string.
   */
  function Contains(s: string, p: string): (r: bool)
    ensures r <==> exists i :: OccursAt(s, p, i)
    decreases |s|
  {
    if |p| > |s| then false
    else if s[..|p|] == p then (assert OccursAt(s, p, 0); true)
    else OccursInTail(s, p); Contains(s[1..], p)
  }

  /** A pattern placed between any prefix and suffix is contained in the result. */
  lemma ContainsInfix(prefix: string, p: string, suffix: string)
    ensures Contains(prefix + p + suffix, p)
  {
    var s := prefix + p + suffix;
    assert s[|prefix|..|prefix| + |p|] == p;
    assert OccursAt(s, p, |prefix|);
  }

  /**
   * Lowering the searched string never loses a lower-case pattern: an
   * occurrence of `p` in `s` is also an occurrence in `Lowercase(s)`.
   */
  lemma ContainsLowercased(s: string, p: string)
    requires IsLowerCase(p) && Contains(s, p)
    ensures Contains(Lowercase(s), p)
  {
    var i :| OccursAt(s, p, i);
    var r := Lowercase(s);
    forall k | 0 <= k < |p| ensures r[i..i + |p|][k] == p[k] {
      assert s[i + k] == s[i..i + |p|][k] == p[k];
      assert !('A' <= p[k] <= 'Z');
    }
    assert r[i..i + |p|] == p;
    assert OccursAt(r, p, i);
  }

  /** When the string is no longer than the pattern, containment is equality. */
  lemma ContainsNoLonger(s: string, p: string)
    requires |s| <= |p|
    ensures Contains(s, p) <==> s == p
  {
    if Contains(s, p) {
      var i :| OccursAt(s, p, i);
      assert i == 0 && s[0..|p|] == s;
    } else if |s| == |p| {
      assert !OccursAt(s, p, 0);
      assert s[0..|p|] == s;
    }
  }
}
