/** Counting and ordering the numbers of a sequence. */
module Counting {
  function One(here: bool): nat { if here then 1 else 0 }

  function Count(s: seq<nat>, f: nat): nat {
    if s == [] then 0 else Count(s[..|s| - 1], f) + One(s[|s| - 1] == f)
  }

  lemma {:induction false} CountConcat(a: seq<nat>, b: seq<nat>, f: nat)
    ensures Count(a + b, f) == Count(a, f) + Count(b, f)
  {
    if b == [] {
      assert a + b == a;
    } else {
      CountConcat(a, b[..|b| - 1], f);
      assert (a + b)[..|a + b| - 1] == a + b[..|b| - 1];
    }
  }

  lemma CountPush(a: seq<nat>, f: nat, g: nat)
    ensures Count(a + [f], g) == Count(a, g) + One(f == g)
  {
    assert (a + [f])[..|a|] == a;
  }

  ghost predicate Increasing(s: seq<nat>) {
    forall i, j :: 0 <= i < j < |s| ==> s[i] < s[j]
  }
}
