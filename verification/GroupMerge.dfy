/** Group repositories: reads fan out over ordered members, listings are united, coordinates go to the first. */
module GroupMerge {
  import opened Wrappers
  import opened Ordering
  import opened Sequences
  import opened KeyedMerge

  datatype VersionInfo = VersionInfo(version: string, yanked: bool)

  function VersionKey(info: VersionInfo): string {
    info.version
  }

  function NameKey(name: string): string {
    name
  }

  function Merge(lists: seq<seq<VersionInfo>>): seq<VersionInfo> {
    Merged(Flatten(lists), VersionKey)
  }

  ghost function Keys<T>(s: seq<T>, key: T -> string): set<string> {
    set x | x in s :: key(x)
  }

  /** One more entry is collected exactly if its key was not seen. */
  lemma CollectOne<T>(s: seq<T>, x: T, key: T -> string)
    ensures FirstSeen(s + [x], key) == FirstSeen(s, key) + if key(x) in Keys(s, key) then [] else [x]
    ensures Keys(s + [x], key) == Keys(s, key) + {key(x)}
  {
    assert (s + [x])[..|s|] == s;
    if key(x) in Keys(s, key) {
      var y :| y in s && key(y) == key(x);
      assert Lookup(s, key, key(x)).Some?;
      assert FirstSeen(s, key) + [] == FirstSeen(s, key);
    }
    assert x in s + [x] && forall y | y in s :: y in s + [x];
  }

  /** Adds the entries of one more list whose keys were not seen before. */
  method Collect<T>(list: seq<T>, key: T -> string, alreadySeen: set<string>, alreadyCollected: seq<T>,
                    ghost before: seq<T>)
    returns (seen: set<string>, collected: seq<T>)
    requires alreadySeen == Keys(before, key) && alreadyCollected == FirstSeen(before, key)
    ensures seen == Keys(before + list, key) && collected == FirstSeen(before + list, key)
  {
    seen, collected := alreadySeen, alreadyCollected;
    assert before + list[..0] == before;
    for j := 0 to |list|
      invariant seen == Keys(before + list[..j], key) && collected == FirstSeen(before + list[..j], key)
    {
      assert before + list[..j + 1] == (before + list[..j]) + [list[j]];
      CollectOne(before + list[..j], list[j], key);
      if key(list[j]) !in seen {
        seen := seen + {key(list[j])};
        collected := collected + [list[j]];
      }
    }
    assert list[..|list|] == list;
  }

  /** Collects every version the first time it is seen, then sorts. */
  method MergeVersionLists(lists: seq<seq<VersionInfo>>) returns (merged: seq<VersionInfo>)
    ensures merged == Merge(lists)
  {
    var seen: set<string> := {};
    var collected: seq<VersionInfo> := [];
    for i := 0 to |lists|
      invariant collected == FirstSeen(Flatten(lists[..i]), VersionKey)
      invariant seen == Keys(Flatten(lists[..i]), VersionKey)
    {
      assert lists[..i + 1][..i] == lists[..i];
      seen, collected := Collect(lists[i], VersionKey, seen, collected, Flatten(lists[..i]));
    }
    assert lists[..|lists|] == lists;
    merged := Sort(collected, VersionKey);
  }

  /** A merge is strictly sorted and holds, for each version some member lists, the entry of the first member
    * that lists it. */
  lemma MergeMeans(lists: seq<seq<VersionInfo>>)
    ensures StrictlySorted(Merge(lists), VersionKey)
    ensures forall v :: Lookup(Merge(lists), VersionKey, v) == Lookup(Flatten(lists), VersionKey, v)
  {
    MergedMeans(Flatten(lists), VersionKey);
  }

  /** Merging members that were merged already, wherever they stand, equals merging the flat list. */
  lemma MergeIsFlat(a: seq<seq<VersionInfo>>, b: seq<seq<VersionInfo>>, c: seq<seq<VersionInfo>>)
    ensures Merge(a + [Merge(b)] + c) == Merge(a + b + c)
  {
    FlattenBoth(a + [Merge(b)], c);
    FlattenBoth(a, [Merge(b)]);
    FlattenOne(Merge(b));
    FlattenBoth(a + b, c);
    FlattenBoth(a, b);
    MergedInside(Flatten(a), Flatten(b), Flatten(c), VersionKey);
  }

  /** The entry a list of members has for a version: that of the first member with one. */
  function Entry(lists: seq<seq<VersionInfo>>, version: string): Option<VersionInfo> {
    Lookup(Flatten(lists), VersionKey, version)
  }

  lemma EntryOfBoth(a: seq<seq<VersionInfo>>, b: seq<seq<VersionInfo>>, version: string)
    ensures Entry(a + b, version) == if Entry(a, version).Some? then Entry(a, version) else Entry(b, version)
  {
    FlattenBoth(a, b);
    LookupOfBoth(Flatten(a), Flatten(b), VersionKey, version);
  }

  lemma EntryOfOne(list: seq<VersionInfo>, version: string)
    ensures Entry([list], version) == Lookup(list, VersionKey, version)
  {
    FlattenOne(list);
  }

  /** Merges are equal exactly if they have the same entries. */
  lemma MergeByEntries(a: seq<seq<VersionInfo>>, b: seq<seq<VersionInfo>>)
    ensures Merge(a) == Merge(b) <==> forall v :: Entry(a, v) == Entry(b, v)
  {
    MergeMeans(a);
    MergeMeans(b);
    if Merge(a) == Merge(b) {
      forall v ensures Entry(a, v) == Entry(b, v) {
        assert Lookup(Merge(a), VersionKey, v) == Lookup(Flatten(a), VersionKey, v);
        assert Lookup(Merge(b), VersionKey, v) == Lookup(Flatten(b), VersionKey, v);
      }
    }
    if forall v :: Entry(a, v) == Entry(b, v) {
      forall k ensures Lookup(Flatten(a), VersionKey, k) == Lookup(Flatten(b), VersionKey, k) {
        assert Entry(a, k) == Entry(b, k);
      }
      MergedByLookup(Flatten(a), Flatten(b), VersionKey);
    }
  }

  lemma EntryAround(before: seq<seq<VersionInfo>>, list: seq<VersionInfo>, after: seq<seq<VersionInfo>>,
                    version: string)
    ensures Entry(before + [list] + after, version)
            == if Entry(before, version).Some? then Entry(before, version)
               else if Lookup(list, VersionKey, version).Some? then Lookup(list, VersionKey, version)
               else Entry(after, version)
  {
    EntryOfBoth(before + [list], after, version);
    EntryOfBoth(before, [list], version);
    EntryOfOne(list, version);
  }

  /** In what order a member lists its own distinct versions does not show. */
  lemma ListingOrderIsIrrelevant(before: seq<seq<VersionInfo>>, list: seq<VersionInfo>, reordered: seq<VersionInfo>,
                                 after: seq<seq<VersionInfo>>)
    requires DistinctKeys(list, VersionKey) && DistinctKeys(reordered, VersionKey)
    requires forall info :: info in list <==> info in reordered
    ensures Merge(before + [list] + after) == Merge(before + [reordered] + after)
  {
    forall v ensures Entry(before + [list] + after, v) == Entry(before + [reordered] + after, v) {
      EntryAround(before, list, after, v);
      EntryAround(before, reordered, after, v);
      SameLookup(list, reordered, v);
    }
    MergeByEntries(before + [list] + after, before + [reordered] + after);
  }

  lemma SameLookup(list: seq<VersionInfo>, reordered: seq<VersionInfo>, version: string)
    requires DistinctKeys(list, VersionKey) && DistinctKeys(reordered, VersionKey)
    requires forall info :: info in list <==> info in reordered
    ensures Lookup(list, VersionKey, version) == Lookup(reordered, VersionKey, version)
  {
    var one, other := Lookup(list, VersionKey, version), Lookup(reordered, VersionKey, version);
    if one.Some? {
      LookupOfDistinct(reordered, VersionKey, one.value);
    }
    if other.Some? {
      LookupOfDistinct(list, VersionKey, other.value);
    }
  }

  /** Whether two members disagree on a version that no earlier member lists. */
  predicate Disagree(before: seq<seq<VersionInfo>>, x: seq<VersionInfo>, y: seq<VersionInfo>, version: string) {
    && Entry(before, version).None?
    && Lookup(x, VersionKey, version).Some? && Lookup(y, VersionKey, version).Some?
    && Lookup(x, VersionKey, version) != Lookup(y, VersionKey, version)
  }

  /** Swapping two neighbouring members shows exactly if they disagree on a version no earlier member lists. */
  lemma MemberOrderShows(before: seq<seq<VersionInfo>>, x: seq<VersionInfo>, y: seq<VersionInfo>,
                         after: seq<seq<VersionInfo>>)
    ensures Merge(before + [x] + ([y] + after)) != Merge(before + [y] + ([x] + after))
            <==> exists v :: Disagree(before, x, y, v)
  {
    var one, other := before + [x] + ([y] + after), before + [y] + ([x] + after);
    forall v ensures Entry(one, v) != Entry(other, v) <==> Disagree(before, x, y, v) {
      EntryAround(before, x, [y] + after, v);
      EntryAround(before, y, [x] + after, v);
      EntryOfBoth([y], after, v);
      EntryOfBoth([x], after, v);
      EntryOfOne(x, v);
      EntryOfOne(y, v);
    }
    MergeByEntries(one, other);
  }

  // ---------------------------------------------------------------------------
  // Listings of a group
  // ---------------------------------------------------------------------------

  /** What the members answered, in member order. */
  type Answers<T, E> = seq<Result<T, E>>

  function Successes<T, E>(answers: Answers<T, E>): seq<T> {
    if answers == [] then []
    else Successes(answers[..|answers| - 1]) + if answers[|answers| - 1].Ok? then [answers[|answers| - 1].value] else []
  }

  function LastError<T, E>(answers: Answers<T, E>): Option<E> {
    if answers == [] then None
    else if answers[|answers| - 1].Err? then Some(answers[|answers| - 1].error)
    else LastError(answers[..|answers| - 1])
  }

  /** The members' listings united; an error only if every member erred. */
  function GroupVersions<E>(answers: Answers<seq<VersionInfo>, E>): Result<seq<VersionInfo>, E> {
    if Successes(answers) != [] then Ok(Merge(Successes(answers)))
    else if LastError(answers).Some? then Err(LastError(answers).value)
    else Ok([])
  }

  method ListVersions<E>(answers: Answers<seq<VersionInfo>, E>) returns (r: Result<seq<VersionInfo>, E>)
    ensures r == GroupVersions(answers)
  {
    var memberLists: seq<seq<VersionInfo>> := [];
    var lastError: Option<E> := None;
    for i := 0 to |answers|
      invariant memberLists == Successes(answers[..i]) && lastError == LastError(answers[..i])
    {
      assert answers[..i + 1][..i] == answers[..i];
      match answers[i]
      case Ok(versions) => memberLists := memberLists + [versions];
      case Err(error) => lastError := Some(error);
    }
    assert answers[..|answers|] == answers;
    if memberLists == [] {
      return match lastError case Some(error) => Err(error) case None => Ok([]);
    }
    var merged := MergeVersionLists(memberLists);
    return Ok(merged);
  }

  lemma {:induction false} AnswersOfBoth<T, E>(a: Answers<T, E>, b: Answers<T, E>)
    ensures Successes(a + b) == Successes(a) + Successes(b)
    ensures LastError(a + b) == if LastError(b).Some? then LastError(b) else LastError(a)
    ensures Successes(a) == [] && a != [] ==> LastError(a).Some?
  {
    if b == [] {
      assert a + b == a;
      if a != [] {
        AnswersOfBoth(a[..|a| - 1], []);
        assert a[..|a| - 1] + [] == a[..|a| - 1];
      }
    } else {
      assert (a + b)[..|a + b| - 1] == a + b[..|b| - 1];
      AnswersOfBoth(a, b[..|b| - 1]);
    }
  }

  lemma AnswersOfOne<T, E>(r: Result<T, E>)
    ensures Successes([r]) == if r.Ok? then [r.value] else []
    ensures LastError([r]) == if r.Err? then Some(r.error) else None
  {
    assert [r][..0] == [];
  }

  lemma AnswersAround<T, E>(before: Answers<T, E>, r: Result<T, E>, after: Answers<T, E>)
    ensures Successes(before + [r] + after) == Successes(before) + (if r.Ok? then [r.value] else []) + Successes(after)
    ensures LastError(before + [r] + after)
            == if LastError(after).Some? then LastError(after) else if r.Err? then Some(r.error) else LastError(before)
  {
    AnswersOfOne(r);
    AnswersOfBoth(before + [r], after);
    AnswersOfBoth(before, [r]);
  }

  lemma AnswersBetween<T, E>(before: Answers<T, E>, inner: Answers<T, E>, after: Answers<T, E>)
    ensures Successes(before + inner + after) == Successes(before) + Successes(inner) + Successes(after)
    ensures LastError(before + inner + after)
            == if LastError(after).Some? then LastError(after)
               else if LastError(inner).Some? then LastError(inner)
               else LastError(before)
  {
    AnswersOfBoth(before + inner, after);
    AnswersOfBoth(before, inner);
  }

  /** When some member succeeds, a nested group lists what the flat one does. */
  lemma NestedWithSuccess<E>(before: Answers<seq<VersionInfo>, E>, inner: Answers<seq<VersionInfo>, E>,
                             after: Answers<seq<VersionInfo>, E>)
    requires Successes(before + inner + after) != []
    ensures GroupVersions(before + [GroupVersions(inner)] + after) == GroupVersions(before + inner + after)
  {
    var nested := GroupVersions(inner);
    AnswersAround(before, nested, after);
    AnswersBetween(before, inner, after);
    if Successes(inner) != [] {
      MergeIsFlat(Successes(before), Successes(inner), Successes(after));
    } else if inner == [] {
      MergeIsFlat(Successes(before), [], Successes(after));
      EmptyMerge();
    } else {
      AnswersOfBoth(inner, []);
      assert Successes(before) + [] == Successes(before);
    }
  }

  lemma EmptyMerge()
    ensures Merge([]) == [] && Merge([[]]) == []
  {
    FlattenOne<VersionInfo>([]);
  }

  /** Groups nest exactly as if flattened, save that an empty inner group hides the errors of members that
    * all fail: it answers with no versions. */
  lemma NestedGroupsAreFlat<E>(before: Answers<seq<VersionInfo>, E>, inner: Answers<seq<VersionInfo>, E>,
                               after: Answers<seq<VersionInfo>, E>)
    ensures GroupVersions(before + [GroupVersions(inner)] + after) == GroupVersions(before + inner + after)
            <==> inner != [] || before + after == [] || Successes(before + after) != []
  {
    var nested := GroupVersions(inner);
    AnswersAround(before, nested, after);
    AnswersBetween(before, inner, after);
    AnswersOfBoth(before, after);
    AnswersOfBoth(inner, []);
    AnswersOfBoth(before, []);
    AnswersOfBoth(after, []);
    if Successes(before + inner + after) != [] {
      NestedWithSuccess(before, inner, after);
    } else if inner == [] {
      EmptyMerge();
      assert Successes(before + [nested] + after) == [[]];
    }
  }

  // ---------------------------------------------------------------------------
  // Metadata and artifacts
  // ---------------------------------------------------------------------------

  /** The first success, else the last error, else `missing`. */
  function FirstMatch<T, E>(answers: Answers<T, E>, missing: E): Result<T, E> {
    if answers == [] then Err(missing)
    else
      var front, last := FirstMatch(answers[..|answers| - 1], missing), answers[|answers| - 1];
      if front.Ok? then front else last
  }

  /** Asks the members in order, and none after the first that has the coordinate. */
  method Resolve<T, E>(members: seq<() -> Result<T, E>>, missing: E, ghost answers: Answers<T, E>)
    returns (r: Result<T, E>, asked: nat)
    requires |answers| == |members| && forall i | 0 <= i < |members| :: answers[i] == members[i]()
    ensures r == FirstMatch(answers, missing) && asked <= |members|
    ensures r == FirstMatch(answers[..asked], missing)
    ensures r.Ok? ==> asked > 0 && r == answers[asked - 1] && Successes(answers[..asked - 1]) == []
    ensures r.Err? ==> asked == |members| && Successes(answers) == []
  {
    var lastError: Option<E> := None;
    for i := 0 to |members|
      invariant Successes(answers[..i]) == [] && lastError == LastError(answers[..i])
      invariant FirstMatch(answers[..i], missing) == Err(if lastError.Some? then lastError.value else missing)
    {
      assert answers[..i + 1][..i] == answers[..i];
      var answer := members[i]();
      match answer {
        case Ok(_) =>
          FirstStands(answers, i + 1, missing);
          return answer, i + 1;
        case Err(error) => lastError := Some(error);
      }
    }
    assert answers[..|members|] == answers;
    return Err(if lastError.Some? then lastError.value else missing), |members|;
  }

  lemma {:induction false} FirstStands<T, E>(answers: Answers<T, E>, n: nat, missing: E)
    requires n <= |answers| && FirstMatch(answers[..n], missing).Ok?
    ensures FirstMatch(answers, missing) == FirstMatch(answers[..n], missing)
  {
    if n < |answers| {
      var front := answers[..|answers| - 1];
      assert front[..n] == answers[..n];
      FirstStands(front, n, missing);
    } else {
      assert answers[..n] == answers;
    }
  }

  lemma {:induction false} FirstOfBoth<T, E>(a: Answers<T, E>, b: Answers<T, E>, missing: E)
    ensures FirstMatch(a + b, missing)
            == if FirstMatch(a, missing).Ok? || b == [] then FirstMatch(a, missing) else FirstMatch(b, missing)
  {
    if b == [] {
      assert a + b == a;
    } else {
      var front := b[..|b| - 1];
      assert (a + b)[..|a + b| - 1] == a + front;
      FirstOfBoth(a, front, missing);
    }
  }

  /** A nested group resolves to what the flat one does, save that an empty inner group behind members that
    * all fail replaces their last error by its own. */
  lemma NestedResolvesFlat<T, E>(before: Answers<T, E>, inner: Answers<T, E>, after: Answers<T, E>, missing: E)
    ensures FirstMatch(before + [FirstMatch(inner, missing)] + after, missing)
            == FirstMatch(before + inner + after, missing)
            <==> || inner != [] || after != [] || FirstMatch(before, missing).Ok?
                 || FirstMatch(before, missing) == Err(missing)
  {
    var nested := FirstMatch(inner, missing);
    FirstOfBoth(before + [nested], after, missing);
    FirstOfBoth(before, [nested], missing);
    FirstOfBoth(before + inner, after, missing);
    FirstOfBoth(before, inner, missing);
    assert [nested][..0] == [];
    assert FirstMatch([nested], missing) == nested;
  }

  // ---------------------------------------------------------------------------
  // Package names
  // ---------------------------------------------------------------------------

  /** The members' names united; the first error ends the listing. */
  function GroupPackages<E>(answers: Answers<seq<string>, E>): Result<seq<string>, E> {
    var names :- AllNames(answers);
    Ok(Merged(names, NameKey))
  }

  function AllNames<E>(answers: Answers<seq<string>, E>): Result<seq<string>, E> {
    if answers == [] then Ok([])
    else
      var front :- AllNames(answers[..|answers| - 1]);
      var last :- answers[|answers| - 1];
      Ok(front + last)
  }

  lemma {:induction false} FirstErrorStands<E>(answers: Answers<seq<string>, E>, n: nat)
    requires n <= |answers| && AllNames(answers[..n]).Err?
    ensures AllNames(answers) == AllNames(answers[..n])
  {
    if n < |answers| {
      var front := answers[..|answers| - 1];
      assert front[..n] == answers[..n];
      FirstErrorStands(front, n);
    } else {
      assert answers[..n] == answers;
    }
  }

  method ListPackages<E>(answers: Answers<seq<string>, E>) returns (r: Result<seq<string>, E>)
    ensures r == GroupPackages(answers)
  {
    var seen: set<string> := {};
    var packages: seq<string> := [];
    ghost var all: seq<string> := [];
    for i := 0 to |answers|
      invariant AllNames(answers[..i]) == Ok(all)
      invariant packages == FirstSeen(all, NameKey) && seen == Keys(all, NameKey)
    {
      assert answers[..i + 1][..i] == answers[..i];
      if answers[i].Err? {
        FirstErrorStands(answers, i + 1);
        return Err(answers[i].error);
      }
      var names := answers[i].value;
      seen, packages := Collect(names, NameKey, seen, packages, all);
      all := all + names;
    }
    assert answers[..|answers|] == answers;
    return Ok(Sort(packages, NameKey));
  }

  lemma {:induction false} AllNamesContents<E>(answers: Answers<seq<string>, E>, name: string)
    requires AllNames(answers).Ok?
    ensures name in AllNames(answers).value
            <==> exists i | 0 <= i < |answers| :: answers[i].Ok? && name in answers[i].value
  {
    if answers != [] {
      var front := answers[..|answers| - 1];
      AllNamesContents(front, name);
      assert forall i | 0 <= i < |front| :: front[i] == answers[i];
    }
  }

  /** The listing is strictly sorted and holds exactly the names some member has. */
  lemma GroupPackagesMeans<E>(answers: Answers<seq<string>, E>, name: string)
    requires GroupPackages(answers).Ok?
    ensures var names := GroupPackages(answers).value;
            && StrictlySorted(names, NameKey)
            && (name in names <==> exists i | 0 <= i < |answers| :: answers[i].Ok? && name in answers[i].value)
  {
    var all := AllNames(answers).value;
    MergedMeans(all, NameKey);
    AllNamesContents(answers, name);
    var names := Merged(all, NameKey);
    assert Lookup(names, NameKey, name) == Lookup(all, NameKey, name);
    assert name in names <==> Lookup(names, NameKey, name).Some? by {
      if name in names {
        assert NameKey(name) == name;
      }
    }
    assert name in all <==> Lookup(all, NameKey, name).Some? by {
      if name in all {
        assert NameKey(name) == name;
      }
    }
  }
}
