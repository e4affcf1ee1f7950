/** Sequences: joining blocks, and the first place of an element. */
module Sequences {
  import opened Wrappers

  function Flatten<T>(blocks: seq<seq<T>>): seq<T> {
    if blocks == [] then [] else Flatten(blocks[..|blocks| - 1]) + blocks[|blocks| - 1]
  }

  lemma FlattenStep<T>(blocks: seq<seq<T>>, i: nat)
    requires i < |blocks|
    ensures Flatten(blocks[..i + 1]) == Flatten(blocks[..i]) + blocks[i]
  {
    assert blocks[..i + 1][..i] == blocks[..i];
  }

  lemma {:induction false} FlattenBoth<T>(a: seq<seq<T>>, b: seq<seq<T>>)
    ensures Flatten(a + b) == Flatten(a) + Flatten(b)
  {
    if b == [] {
      assert a + b == a;
    } else {
      assert (a + b)[..|a + b| - 1] == a + b[..|b| - 1];
      FlattenBoth(a, b[..|b| - 1]);
    }
  }

  lemma FlattenOne<T>(list: seq<T>)
    ensures Flatten([list]) == list
  {
    assert [list][..0] == [];
    assert [] + list == list;
  }

  /** The first place of an element, if it occurs. */
  function IndexOf<T(==)>(s: seq<T>, x: T): (r: Option<nat>)
    ensures r.Some? ==> r.value < |s| && s[r.value] == x && x !in s[..r.value]
    ensures r.None? ==> x !in s
  {
    if s == [] then None
    else if s[0] == x then Some(0)
    else
      var i :- IndexOf(s[1..], x);
      Some(i + 1)
  }

  /** A run without the element, followed by it or by nothing. */
  lemma {:induction false} IndexAfterRun<T>(run: seq<T>, x: T, rest: seq<T>)
    requires x !in run && (rest == [] || rest[0] == x)
    ensures IndexOf(run + rest, x) == if rest == [] then None else Some(|run|)
  {
    if run == [] {
      assert run + rest == rest;
    } else {
      assert (run + rest)[1..] == run[1..] + rest;
      IndexAfterRun(run[1..], x, rest);
    }
  }
}
