/** Text helpers shared by the user table and the search query: the order in
    which usernames are listed, and substring matching. */
module Strings {

  /** Lexicographic order on character codes, the order a binary collation
      gives to `ORDER BY username`. A prefix sorts before its extensions. */
  predicate LexLe(a: string, b: string)
    decreases |a|
  {
    |a| == 0 || (|b| > 0 && (a[0] < b[0] || (a[0] == b[0] && LexLe(a[1..], b[1..]))))
  }

  predicate LexLt(a: string, b: string)
  {
    LexLe(a, b) && a != b
  }

  /** Every pair of positions is in order. */
  predicate Ascending(s: seq<string>)
  {
    forall i, j | 0 <= i < j < |s| :: LexLe(s[i], s[j])
  }

  /** In order and without repetitions. */
  predicate StrictlyAscending(s: seq<string>)
  {
    forall i, j | 0 <= i < j < |s| :: LexLt(s[i], s[j])
  }

  lemma {:induction false} LexLeReflexive(a: string)
    ensures LexLe(a, a)
    decreases |a|
  {
    if |a| > 0 {
      LexLeReflexive(a[1..]);
    }
  }

  lemma {:induction false} LexLeTotal(a: string, b: string)
    ensures LexLe(a, b) || LexLe(b, a)
    decreases |a|
  {
    if |a| > 0 && |b| > 0 && a[0] == b[0] {
      LexLeTotal(a[1..], b[1..]);
    }
  }

  lemma {:induction false} LexLeTransitive(a: string, b: string, c: string)
    requires LexLe(a, b) && LexLe(b, c)
    ensures LexLe(a, c)
    decreases |a|
  {
    if |a| > 0 && a[0] == b[0] && b[0] == c[0] {
      LexLeTransitive(a[1..], b[1..], c[1..]);
    }
  }

  lemma {:induction false} LexLeAntisymmetric(a: string, b: string)
    requires LexLe(a, b) && LexLe(b, a)
    ensures a == b
    decreases |a|
  {
    if |a| > 0 {
      LexLeAntisymmetric(a[1..], b[1..]);
      assert a == [a[0]] + a[1..];
      assert b == [b[0]] + b[1..];
    }
  }

  /** `q` occurs in `s` starting at position `i`. */
  predicate OccursAt(s: string, q: string, i: int)
  {
    0 <= i && i + |q| <= |s| && s[i..i + |q|] == q
  }

  ghost predicate IsSubstring(q: string, s: string)
  {
    exists i :: OccursAt(s, q, i)
  }

  lemma OccursShift(s: string, q: string)
    requires |s| > 0
    ensures forall i | 0 <= i :: OccursAt(s[1..], q, i) <==> OccursAt(s, q, i + 1)
  {
    forall i | 0 <= i
      ensures OccursAt(s[1..], q, i) <==> OccursAt(s, q, i + 1)
    {
      if 0 <= i && i + |q| <= |s| - 1 {
        assert s[1..][i..i + |q|] == s[i + 1..i + 1 + |q|];
      }
    }
  }

  /** The substring test behind a case-sensitive `contains` lookup: does `q`
      occur anywhere in `s`? The empty query occurs in every string. */
  function Contains(s: string, q: string): (r: bool)
    ensures r <==> IsSubstring(q, s)
    decreases |s|
  {
    if q <= s then
      assert OccursAt(s, q, 0);
      true
    else if |s| == 0 then
      false
    else
      OccursShift(s, q);
      assert !OccursAt(s, q, 0);
      assert forall i :: OccursAt(s, q, i) ==> i == 0 || OccursAt(s[1..], q, i - 1);
      Contains(s[1..], q)
  }

  lemma EmptyQueryOccursEverywhere(s: string)
    ensures Contains(s, "")
  {
    assert OccursAt(s, "", 0);
  }
}
