/** Applying a run's updates to the manifests they were found in. */
module EditBatch {
  import opened Wrappers
  import opened Updates
  import opened KeyedMerge

  datatype FileEdit = FileEdit(path: string, newContent: string)

  function PathKey(edit: FileEdit): string {
    edit.path
  }

  /** The edits of some texts by path: one for each, sorted by path. */
  ghost predicate IsEditsOf(edits: seq<FileEdit>, texts: map<string, string>) {
    && StrictlySorted(edits, PathKey)
    && (forall edit | edit in edits :: edit.path in texts && edit.newContent == texts[edit.path])
    && (forall path | path in texts :: FileEdit(path, texts[path]) in edits)
  }

  /** How a manager rewrites one manifest text for one dependency. */
  type Apply<!E> = (string, Dependency, string) -> Result<string, E>

  datatype BatchError<E> = NoManager(path: string) | MissingContent(path: string) | EditFailed(error: E)

  function ApplyOne<E>(edited: map<string, string>, update: DependencyUpdate, handles: string -> bool, apply: Apply<E>)
    : Result<map<string, string>, BatchError<E>>
  {
    var path := update.dependency.filePath;
    if !handles(path) then Err(NoManager(path))
    else if path !in edited then Err(MissingContent(path))
    else
      match apply(edited[path], update.dependency, update.newValue)
      case Ok(next) => Ok(edited[path := next])
      case Err(error) => Err(EditFailed(error))
  }

  function AppliedAll<E>(updates: seq<DependencyUpdate>, contents: map<string, string>, handles: string -> bool,
                         apply: Apply<E>)
    : Result<map<string, string>, BatchError<E>>
  {
    if updates == [] then Ok(contents)
    else
      var edited :- AppliedAll(updates[..|updates| - 1], contents, handles, apply);
      ApplyOne(edited, updates[|updates| - 1], handles, apply)
  }

  /** One edit for each text, sorted by path. */
  method CollectEdits(edited: map<string, string>) returns (edits: seq<FileEdit>)
    ensures IsEditsOf(edits, edited)
  {
    var collected: seq<FileEdit> := [];
    var rest := edited.Keys;
    while rest != {}
      invariant rest <= edited.Keys
      invariant forall edit | edit in collected ::
                  edit.path in edited && edit.path !in rest && edit.newContent == edited[edit.path]
      invariant forall path | path in edited && path !in rest :: FileEdit(path, edited[path]) in collected
      invariant DistinctKeys(collected, PathKey)
      decreases rest
    {
      var path :| path in rest;
      assert forall i | 0 <= i < |collected| :: collected[i] in collected;
      collected := collected + [FileEdit(path, edited[path])];
      rest := rest - {path};
    }
    edits := Sort(collected, PathKey);
    SortSorts(collected, PathKey);
    forall edit ensures edit in edits <==> edit in collected {
      SortContents(collected, PathKey, edit);
    }
  }

  /** The edits are determined by the texts, whatever order those were met in. */
  lemma EditsAreUnique(one: seq<FileEdit>, other: seq<FileEdit>, texts: map<string, string>)
    requires IsEditsOf(one, texts) && IsEditsOf(other, texts)
    ensures one == other
  {
    forall edit ensures edit in one <==> edit in other {
      if edit in one {
        assert edit == FileEdit(edit.path, texts[edit.path]);
      }
      if edit in other {
        assert edit == FileEdit(edit.path, texts[edit.path]);
      }
    }
    SortedUnique(one, other, PathKey);
  }

  /** Applies the updates in order, each to the text the earlier ones left; the first failure ends the run. */
  method BuildEdits<E>(updates: seq<DependencyUpdate>, contents: map<string, string>, handles: string -> bool,
                       apply: Apply<E>)
    returns (r: Result<seq<FileEdit>, BatchError<E>>)
    ensures var edited := AppliedAll(updates, contents, handles, apply);
            if edited.Ok? then r.Ok? && IsEditsOf(r.value, edited.value) else r == Err(edited.error)
  {
    var edited := contents;
    for i := 0 to |updates|
      invariant AppliedAll(updates[..i], contents, handles, apply) == Ok(edited)
    {
      assert updates[..i + 1][..i] == updates[..i];
      var next := ApplyOne(edited, updates[i], handles, apply);
      if next.Err? {
        FailureStands(updates, i + 1, contents, handles, apply);
        return Err(next.error);
      }
      edited := next.value;
    }
    assert updates[..|updates|] == updates;
    var edits := CollectEdits(edited);
    return Ok(edits);
  }

  lemma {:induction false} FailureStands<E>(updates: seq<DependencyUpdate>, n: nat, contents: map<string, string>,
                                            handles: string -> bool, apply: Apply<E>)
    requires n <= |updates| && AppliedAll(updates[..n], contents, handles, apply).Err?
    ensures AppliedAll(updates, contents, handles, apply) == AppliedAll(updates[..n], contents, handles, apply)
  {
    if n < |updates| {
      var front := updates[..|updates| - 1];
      assert front[..n] == updates[..n];
      FailureStands(front, n, contents, handles, apply);
    } else {
      assert updates[..n] == updates;
    }
  }

  // ---------------------------------------------------------------------------
  // Files do not interfere
  // ---------------------------------------------------------------------------

  /** The updates of one manifest, in order. */
  function OnFile(updates: seq<DependencyUpdate>, path: string): seq<DependencyUpdate> {
    if updates == [] then []
    else
      var last := updates[|updates| - 1];
      OnFile(updates[..|updates| - 1], path) + if last.dependency.filePath == path then [last] else []
  }

  /** One manifest's text after some updates of its own. */
  function FileText<E>(updates: seq<DependencyUpdate>, text: string, apply: Apply<E>): Result<string, E> {
    if updates == [] then Ok(text)
    else
      var edited :- FileText(updates[..|updates| - 1], text, apply);
      apply(edited, updates[|updates| - 1].dependency, updates[|updates| - 1].newValue)
  }

  lemma FileTextNext<E>(updates: seq<DependencyUpdate>, update: DependencyUpdate, text: string, apply: Apply<E>)
    ensures FileText(updates + [update], text, apply)
            == var edited := FileText(updates, text, apply);
               if edited.Err? then edited else apply(edited.value, update.dependency, update.newValue)
  {
    assert (updates + [update])[..|updates|] == updates;
  }

  /** Only a manifest's own updates move its text on. */
  lemma OneMore<E>(front: seq<DependencyUpdate>, last: DependencyUpdate, path: string, text: string, apply: Apply<E>)
    ensures path != last.dependency.filePath ==>
              FileText(OnFile(front + [last], path), text, apply) == FileText(OnFile(front, path), text, apply)
    ensures path == last.dependency.filePath ==>
              var edited := FileText(OnFile(front, path), text, apply);
              FileText(OnFile(front + [last], path), text, apply)
              == if edited.Err? then edited else apply(edited.value, last.dependency, last.newValue)
  {
    assert (front + [last])[..|front|] == front;
    assert OnFile(front, path) + [] == OnFile(front, path);
    FileTextNext(OnFile(front, path), last, text, apply);
  }

  /** Every update has a manager and a manifest. */
  predicate AllPlaced(updates: seq<DependencyUpdate>, contents: map<string, string>, handles: string -> bool) {
    forall u | u in updates :: handles(u.dependency.filePath) && u.dependency.filePath in contents
  }

  /** Every manifest takes its own updates. */
  predicate AllTaken<E>(updates: seq<DependencyUpdate>, contents: map<string, string>, apply: Apply<E>) {
    forall path | path in contents :: FileText(OnFile(updates, path), contents[path], apply).Ok?
  }

  /** Each manifest is as its own updates, alone, leave it. */
  predicate EachAlone<E>(updates: seq<DependencyUpdate>, contents: map<string, string>, edited: map<string, string>,
                         apply: Apply<E>) {
    && edited.Keys == contents.Keys
    && forall path | path in contents :: FileText(OnFile(updates, path), contents[path], apply) == Ok(edited[path])
  }

  /** Each manifest's text, one update on. */
  lemma TextsNext<E>(front: seq<DependencyUpdate>, last: DependencyUpdate, contents: map<string, string>,
                     edited: map<string, string>, apply: Apply<E>)
    requires EachAlone(front, contents, edited, apply)
    ensures forall path | path in contents ::
              FileText(OnFile(front + [last], path), contents[path], apply)
              == if path == last.dependency.filePath then apply(edited[path], last.dependency, last.newValue)
                else Ok(edited[path])
  {
    forall path | path in contents
      ensures FileText(OnFile(front + [last], path), contents[path], apply)
              == if path == last.dependency.filePath then apply(edited[path], last.dependency, last.newValue)
                else Ok(edited[path])
    {
      OneMore(front, last, path, contents[path], apply);
    }
  }

  lemma EachAloneNext<E>(front: seq<DependencyUpdate>, last: DependencyUpdate, contents: map<string, string>,
                         edited: map<string, string>, handles: string -> bool, apply: Apply<E>)
    requires EachAlone(front, contents, edited, apply)
    ensures ApplyOne(edited, last, handles, apply).Ok? ==>
              EachAlone(front + [last], contents, ApplyOne(edited, last, handles, apply).value, apply)
  {
    TextsNext(front, last, contents, edited, apply);
  }

  lemma TakenMeansApplied<E>(front: seq<DependencyUpdate>, last: DependencyUpdate, contents: map<string, string>,
                             edited: map<string, string>, handles: string -> bool, apply: Apply<E>)
    requires EachAlone(front, contents, edited, apply)
    requires AllTaken(front + [last], contents, apply)
    requires handles(last.dependency.filePath) && last.dependency.filePath in contents
    ensures ApplyOne(edited, last, handles, apply).Ok?
  {
    TextsNext(front, last, contents, edited, apply);
  }

  lemma TakenBefore<E>(front: seq<DependencyUpdate>, last: DependencyUpdate, contents: map<string, string>,
                       apply: Apply<E>)
    requires AllTaken(front + [last], contents, apply)
    ensures AllTaken(front, contents, apply)
  {
    forall path | path in contents ensures FileText(OnFile(front, path), contents[path], apply).Ok? {
      OneMore(front, last, path, contents[path], apply);
    }
  }

  /** A batch succeeds exactly when every update has a manager and a manifest and every manifest takes its own
    * updates; and then each manifest is as its own updates, alone, leave it. */
  lemma {:induction false} FilesAreIndependent<E>(updates: seq<DependencyUpdate>, contents: map<string, string>,
                                                  handles: string -> bool, apply: Apply<E>)
    ensures var r := AppliedAll(updates, contents, handles, apply);
            && (r.Ok? ==> AllPlaced(updates, contents, handles) && EachAlone(updates, contents, r.value, apply))
            && (AllPlaced(updates, contents, handles) && AllTaken(updates, contents, apply) ==> r.Ok?)
  {
    if updates != [] {
      var front, last := updates[..|updates| - 1], updates[|updates| - 1];
      assert updates == front + [last];
      FilesAreIndependent(front, contents, handles, apply);
      if AllPlaced(updates, contents, handles) && AllTaken(updates, contents, apply) {
        TakenBefore(front, last, contents, apply);
        assert AllPlaced(front, contents, handles);
      }
      var r := AppliedAll(front, contents, handles, apply);
      if r.Ok? {
        EachAloneNext(front, last, contents, r.value, handles, apply);
        if AllPlaced(updates, contents, handles) && AllTaken(updates, contents, apply) {
          assert last in updates;
          TakenMeansApplied(front, last, contents, r.value, handles, apply);
        }
      }
    }
  }
}
