/** Lists without repetition and what removing one element leaves; stretches of memory. */
module Lists {

  ghost predicate NoDup(s: seq<int>) {
    forall i, j :: 0 <= i < j < |s| ==> s[i] != s[j]
  }

  /** The list without its first x; the others keep their order. */
  function Remove(s: seq<int>, x: int): seq<int> {
    if s == [] then [] else if s[0] == x then s[1..] else [s[0]] + Remove(s[1..], x)
  }

  lemma {:induction false} RemoveAt(s: seq<int>, i: nat)
    requires i < |s| && NoDup(s)
    ensures Remove(s, s[i]) == s[..i] + s[i + 1..]
  {
    if i > 0 {
      assert s[1..][i - 1] == s[i];
      RemoveAt(s[1..], i - 1);
      assert s[..i] == [s[0]] + s[1..][..i - 1];
    }
  }

  /** Taking an element out leaves exactly the others, once each. */
  lemma RemoveKeeps(s: seq<int>, x: int)
    requires NoDup(s) && x in s
    ensures NoDup(Remove(s, x))
    ensures forall y :: y in Remove(s, x) <==> y in s && y != x
  {
    var i :| 0 <= i < |s| && s[i] == x;
    RemoveAt(s, i);
    var rest := s[..i] + s[i + 1..];
    forall y | y in s && y != x
      ensures y in rest
    {
      var j :| 0 <= j < |s| && s[j] == y;
      assert rest[if j < i then j else j - 1] == y;
    }
  }

  /** The entries outside [lo, hi), in their order. */
  function Outside(s: seq<int>, lo: int, hi: int): seq<int> {
    if s == [] then [] else (if lo <= s[0] < hi then [] else [s[0]]) + Outside(s[1..], lo, hi)
  }

  lemma {:induction false} OutsideAll(s: seq<int>, lo: int, hi: int)
    requires forall x :: x in s ==> !(lo <= x < hi)
    ensures Outside(s, lo, hi) == s
  {
    if s != [] {
      assert s[0] in s && forall x :: x in s[1..] ==> x in s;
      OutsideAll(s[1..], lo, hi);
    }
  }

  lemma {:induction false} RemoveOutside(s: seq<int>, x: int, lo: int, hi: int)
    requires lo <= x < hi
    ensures Outside(Remove(s, x), lo, hi) == Outside(s, lo, hi)
  {
    if s != [] && s[0] != x {
      RemoveOutside(s[1..], x, lo, hi);
      assert Remove(s, x)[1..] == Remove(s[1..], x);
    }
  }

  lemma NoDupCons(x: int, s: seq<int>)
    requires NoDup(s) && x !in s
    ensures NoDup([x] + s)
  {
    assert forall j {:trigger s[j]} :: 0 <= j < |s| ==> s[j] in s;
  }

  // ---------- Memory ----------

  /** No word of [lo, hi) differs. */
  ghost predicate SameIn(m: seq<int>, m': seq<int>, lo: int, hi: int) {
    |m| == |m'| && forall k :: lo <= k < hi && 0 <= k < |m| ==> m'[k] == m[k]
  }

  /** What is live in the first map is live, as large, in the second. */
  ghost predicate Within(live: map<int, nat>, live': map<int, nat>) {
    forall b :: b in live ==> b in live' && live'[b] == live[b]
  }

  /** A null pointer. */
  const NULL := -1

  /** The pointer to the element at position i, null past either end. */
  ghost function Nth(s: seq<int>, i: int): int {
    if 0 <= i < |s| then s[i] else NULL
  }
}
