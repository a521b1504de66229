/** What several of the models share. */
module Basics {

  datatype Option<T> = None | Some(value: T)

  ghost predicate Distinct<T>(s: seq<T>) {
    forall i, j | 0 <= i < j < |s| :: s[i] != s[j]
  }

  lemma {:induction false} DistinctCount<T>(s: seq<T>, x: T)
    requires Distinct(s)
    ensures multiset(s)[x] == if x in s then 1 else 0
  {
    if s != [] {
      var n := |s| - 1;
      assert s == s[..n] + [s[n]];
      DistinctCount(s[..n], x);
      assert s[n] !in s[..n];
    }
  }

  function Erase<T>(s: seq<T>, i: nat): seq<T>
    requires i < |s|
  {
    s[..i] + s[i + 1..]
  }

  /** Half way through a list that is being thinned out in place: the seen elements
      are dealt with, and the list now holds the kept ones and the rest. */
  ghost predicate Passed<T>(before: seq<T>, now: seq<T>, seen: seq<T>, kept: seq<T>, rest: seq<T>) {
    before == seen + rest && now == kept + rest
  }

  lemma PassOn<T>(before: seq<T>, now: seq<T>, seen: seq<T>, kept: seq<T>, rest: seq<T>)
    requires Passed(before, now, seen, kept, rest) && rest != []
    ensures now[|kept|] == rest[0]
    ensures Passed(before, now, seen + [rest[0]], kept + [rest[0]], rest[1..])
    ensures Passed(before, Erase(now, |kept|), seen + [rest[0]], kept, rest[1..])
  {
  }

  /** Lower case of an ASCII letter. */
  function Lower(c: char): char {
    if 'A' <= c <= 'Z' then (c as int + 32) as char else c
  }

  /** The two are the capital and the small form of one letter. */
  predicate CaseForms(capital: char, small: char) {
    'A' <= capital <= 'Z' && 'a' <= small <= 'z' && capital as int - 'A' as int == small as int - 'a' as int
  }

  /** Characters that are equal in lower case are equal or the two forms of one letter. */
  lemma LowerIff(a: char, b: char)
    ensures Lower(a) == Lower(b) <==> a == b || CaseForms(a, b) || CaseForms(b, a)
    ensures Lower(Lower(a)) == Lower(a) && !('A' <= Lower(a) <= 'Z')
  {
    var x, y := a as int, b as int;
    assert Lower(a) as int == if 'A' <= a <= 'Z' then x + 32 else x;
    assert Lower(b) as int == if 'A' <= b <= 'Z' then y + 32 else y;
    assert a == b <==> x == y;
  }
}
