/** Merging lists by key: the first entry of each key, in key order. */
module KeyedMerge {
  import opened Wrappers
  import opened Ordering

  /** The first entry with a key. */
  function Lookup<T>(s: seq<T>, key: T -> string, k: string): (r: Option<T>)
    ensures r.Some? ==> r.value in s && key(r.value) == k
    ensures r.None? ==> forall x | x in s :: key(x) != k
  {
    if s == [] then None else if key(s[0]) == k then Some(s[0]) else Lookup(s[1..], key, k)
  }

  function FirstSeen<T>(s: seq<T>, key: T -> string): seq<T> {
    if s == [] then []
    else
      var front, last := s[..|s| - 1], s[|s| - 1];
      if Lookup(front, key, key(last)).Some? then FirstSeen(front, key) else FirstSeen(front, key) + [last]
  }

  function Insert<T>(x: T, s: seq<T>, key: T -> string): seq<T> {
    if s == [] || CompareStrings(key(x), key(s[0])) != GT then [x] + s else [s[0]] + Insert(x, s[1..], key)
  }

  function Sort<T>(s: seq<T>, key: T -> string): seq<T> {
    if s == [] then [] else Insert(s[0], Sort(s[1..], key), key)
  }

  /** The entries of a list, one for each key, the first of each, in key order. */
  function Merged<T>(s: seq<T>, key: T -> string): seq<T> {
    Sort(FirstSeen(s, key), key)
  }

  predicate StrictlySorted<T>(s: seq<T>, key: T -> string) {
    forall i, j | 0 <= i < j < |s| :: CompareStrings(key(s[i]), key(s[j])) == LT
  }

  predicate DistinctKeys<T>(s: seq<T>, key: T -> string) {
    forall i, j | 0 <= i < j < |s| :: key(s[i]) != key(s[j])
  }

  // ---------------------------------------------------------------------------
  // Looking up
  // ---------------------------------------------------------------------------

  /** Earlier lists take precedence. */
  lemma {:induction false} LookupOfBoth<T>(a: seq<T>, b: seq<T>, key: T -> string, k: string)
    ensures Lookup(a + b, key, k) == if Lookup(a, key, k).Some? then Lookup(a, key, k) else Lookup(b, key, k)
  {
    if a == [] {
      assert a + b == b;
    } else {
      assert (a + b)[1..] == a[1..] + b;
      LookupOfBoth(a[1..], b, key, k);
    }
  }

  lemma {:induction false} FirstSeenLooksUp<T>(s: seq<T>, key: T -> string, k: string)
    ensures Lookup(FirstSeen(s, key), key, k) == Lookup(s, key, k)
  {
    if s != [] {
      var front, last := s[..|s| - 1], s[|s| - 1];
      assert s == front + [last];
      FirstSeenLooksUp(front, key, k);
      LookupOfBoth(front, [last], key, k);
      LookupOfBoth(FirstSeen(front, key), [last], key, k);
    }
  }

  lemma {:induction false} FirstSeenIsDistinct<T>(s: seq<T>, key: T -> string)
    ensures DistinctKeys(FirstSeen(s, key), key)
  {
    if s != [] {
      var front, last := s[..|s| - 1], s[|s| - 1];
      FirstSeenIsDistinct(front, key);
      FirstSeenLooksUp(front, key, key(last));
      forall i | 0 <= i < |FirstSeen(front, key)| && Lookup(front, key, key(last)).None?
        ensures key(FirstSeen(front, key)[i]) != key(last)
      {
        assert FirstSeen(front, key)[i] in FirstSeen(front, key);
      }
    }
  }

  // ---------------------------------------------------------------------------
  // Sorting
  // ---------------------------------------------------------------------------

  lemma {:induction false} InsertContents<T>(x: T, s: seq<T>, key: T -> string, y: T)
    ensures y in Insert(x, s, key) <==> y == x || y in s
  {
    if s != [] && CompareStrings(key(x), key(s[0])) == GT {
      InsertContents(x, s[1..], key, y);
      assert s == [s[0]] + s[1..];
    }
  }

  lemma {:induction false} InsertSorts<T>(x: T, s: seq<T>, key: T -> string)
    requires StrictlySorted(s, key) && forall y | y in s :: key(y) != key(x)
    ensures StrictlySorted(Insert(x, s, key), key)
  {
    if s != [] {
      CompareStringsFlips(key(x), key(s[0]));
      if CompareStrings(key(x), key(s[0])) == GT {
        InsertSorts(x, s[1..], key);
        var rest := Insert(x, s[1..], key);
        forall j | 0 <= j < |rest| ensures CompareStrings(key(s[0]), key(rest[j])) == LT {
          InsertContents(x, s[1..], key, rest[j]);
          if rest[j] != x {
            var i :| 0 <= i < |s[1..]| && s[1..][i] == rest[j];
            assert s[i + 1] == rest[j];
          }
        }
      } else {
        assert s[0] in s;
        forall j | 0 <= j < |s| ensures CompareStrings(key(x), key(s[j])) == LT {
          CompareStringsChains(key(x), key(s[0]), key(s[j]));
        }
      }
    }
  }

  lemma {:induction false} SortContents<T>(s: seq<T>, key: T -> string, y: T)
    ensures y in Sort(s, key) <==> y in s
  {
    if s != [] {
      SortContents(s[1..], key, y);
      InsertContents(s[0], Sort(s[1..], key), key, y);
      assert s == [s[0]] + s[1..];
    }
  }

  lemma {:induction false} SortSorts<T>(s: seq<T>, key: T -> string)
    requires DistinctKeys(s, key)
    ensures StrictlySorted(Sort(s, key), key)
  {
    if s != [] {
      SortSorts(s[1..], key);
      forall y | y in Sort(s[1..], key) ensures key(y) != key(s[0]) {
        SortContents(s[1..], key, y);
        var i :| 0 <= i < |s[1..]| && s[1..][i] == y;
        assert s[i + 1] == y;
      }
      InsertSorts(s[0], Sort(s[1..], key), key);
    }
  }

  lemma SortedIsDistinct<T>(s: seq<T>, key: T -> string)
    requires StrictlySorted(s, key)
    ensures DistinctKeys(s, key)
  {
    forall i, j | 0 <= i < j < |s| ensures key(s[i]) != key(s[j]) {
      CompareStringsFlips(key(s[i]), key(s[j]));
    }
  }

  /** With distinct keys, looking up is membership. */
  lemma LookupOfDistinct<T>(s: seq<T>, key: T -> string, x: T)
    requires DistinctKeys(s, key)
    ensures x in s <==> Lookup(s, key, key(x)) == Some(x)
  {
    if x in s {
      var y := Lookup(s, key, key(x)).value;
      var i :| 0 <= i < |s| && s[i] == x;
      var j :| 0 <= j < |s| && s[j] == y;
    }
  }

  lemma {:induction false} SortedUnique<T>(a: seq<T>, b: seq<T>, key: T -> string)
    requires StrictlySorted(a, key) && StrictlySorted(b, key)
    requires forall x :: x in a <==> x in b
    ensures a == b
  {
    if b != [] {
      assert b[0] in b && b[0] in a;
    }
    if a != [] {
      assert a[0] in a && a[0] in b;
      var i :| 0 <= i < |b| && b[i] == a[0];
      assert b[0] in a;
      var j :| 0 <= j < |a| && a[j] == b[0];
      CompareStringsFlips(key(a[0]), key(b[0]));
      assert i == 0;
      var s, t := a[1..], b[1..];
      assert a == [a[0]] + s && b == [b[0]] + t;
      SortedIsDistinct(a, key);
      SortedIsDistinct(b, key);
      forall x ensures x in s <==> x in t {
        if x in s {
          var k :| 0 <= k < |s| && s[k] == x;
          assert a[k + 1] == x && x in a && key(a[0]) != key(a[k + 1]);
        }
        if x in t {
          var k :| 0 <= k < |t| && t[k] == x;
          assert b[k + 1] == x && x in b && key(b[0]) != key(b[k + 1]);
        }
      }
      SortedUnique(s, t, key);
    }
  }

  // ---------------------------------------------------------------------------
  // Merging
  // ---------------------------------------------------------------------------

  /** A merge is strictly sorted by key and gives each key the first entry the list has for it. */
  lemma MergedMeans<T>(s: seq<T>, key: T -> string)
    ensures StrictlySorted(Merged(s, key), key)
    ensures forall k :: Lookup(Merged(s, key), key, k) == Lookup(s, key, k)
  {
    var first, merged := FirstSeen(s, key), Merged(s, key);
    FirstSeenIsDistinct(s, key);
    SortSorts(first, key);
    SortedIsDistinct(merged, key);
    forall k ensures Lookup(merged, key, k) == Lookup(s, key, k) {
      FirstSeenLooksUp(s, key, k);
      if Lookup(first, key, k).Some? {
        var x := Lookup(first, key, k).value;
        SortContents(first, key, x);
        LookupOfDistinct(merged, key, x);
      } else if Lookup(merged, key, k).Some? {
        SortContents(first, key, Lookup(merged, key, k).value);
      }
    }
  }

  /** Lists that look up alike merge alike. */
  lemma MergedByLookup<T>(a: seq<T>, b: seq<T>, key: T -> string)
    requires forall k :: Lookup(a, key, k) == Lookup(b, key, k)
    ensures Merged(a, key) == Merged(b, key)
  {
    MergedMeans(a, key);
    MergedMeans(b, key);
    var m, n := Merged(a, key), Merged(b, key);
    SortedIsDistinct(m, key);
    SortedIsDistinct(n, key);
    forall x ensures x in m <==> x in n {
      LookupOfDistinct(m, key, x);
      LookupOfDistinct(n, key, x);
      assert Lookup(m, key, key(x)) == Lookup(a, key, key(x)) == Lookup(b, key, key(x)) == Lookup(n, key, key(x));
    }
    SortedUnique(m, n, key);
  }

  /** Merging a part beforehand makes no difference. */
  lemma MergedInside<T>(a: seq<T>, b: seq<T>, c: seq<T>, key: T -> string)
    ensures Merged(a + Merged(b, key) + c, key) == Merged(a + b + c, key)
  {
    MergedMeans(b, key);
    forall k ensures Lookup(a + Merged(b, key) + c, key, k) == Lookup(a + b + c, key, k) {
      LookupOfBoth(a + Merged(b, key), c, key, k);
      LookupOfBoth(a + b, c, key, k);
      LookupOfBoth(a, Merged(b, key), key, k);
      LookupOfBoth(a, b, key, k);
    }
    MergedByLookup(a + Merged(b, key) + c, a + b + c, key);
  }
}
