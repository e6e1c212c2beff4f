/**
 * Collecting the job-definition file names from the Data Manager manifests.
 *
 * Each manifest is taken as already parsed: its path and the value of its
 * `job-definition-files` key, `None` when the key is absent. The manifests are
 * processed in the order they were discovered; the lists are concatenated in
 * that order, duplicates kept, and the first manifest without the key stops the
 * whole check with a fatal error naming it.
 */
module Manifests {
  import opened Wrappers

  /**
   * A parsed manifest: its path and the names its `job-definition-files` value
   * yields to the list extension, in order (`None` when the key is absent).
   */
  datatype Manifest = Manifest(path: string, jobDefinitionFiles: Option<seq<string>>)

  datatype Resolution =
    | MissingJobDefinitionFiles(manifest: string)
    | JobDefinitionFiles(paths: seq<string>)

  predicate Missing(m: Manifest) {
    m.jobDefinitionFiles.None?
  }

  /** `i` is the first manifest that lacks the `job-definition-files` key. */
  predicate FirstMissingAt(ms: seq<Manifest>, i: nat) {
    i < |ms| && Missing(ms[i]) && forall j :: 0 <= j < i ==> !Missing(ms[j])
  }

  /**
   * The outcome of the manifest loop on `ms`: the lists of the manifests taken one
   * after the other, appended to what was gathered so far, until one lacks the key.
   */
  function Resolve(ms: seq<Manifest>): Resolution {
    if |ms| == 0 then JobDefinitionFiles([])
    else
      match Resolve(ms[..|ms| - 1])
      case MissingJobDefinitionFiles(p) => MissingJobDefinitionFiles(p)
      case JobDefinitionFiles(gathered) =>
        var last := ms[|ms| - 1];
        match last.jobDefinitionFiles
        case None => MissingJobDefinitionFiles(last.path)
        case Some(files) => JobDefinitionFiles(gathered + files)
  }

  /** The declared lists, one per manifest (an absent key contributes nothing). */
  function DeclaredLists(ms: seq<Manifest>): (lists: seq<seq<string>>)
    ensures |lists| == |ms|
    ensures forall i :: 0 <= i < |ms| ==>
              lists[i] == if Missing(ms[i]) then [] else ms[i].jobDefinitionFiles.value
  {
    if |ms| == 0 then []
    else [if Missing(ms[0]) then [] else ms[0].jobDefinitionFiles.value] + DeclaredLists(ms[1..])
  }

  /** The lists written one after the other, in order. */
  function Concat(lists: seq<seq<string>>): seq<string> {
    if |lists| == 0 then [] else lists[0] + Concat(lists[1..])
  }

  /** The sum of the lengths of the lists. */
  function TotalLength(lists: seq<seq<string>>): nat {
    if |lists| == 0 then 0 else |lists[0]| + TotalLength(lists[1..])
  }

  /** The file names of all manifests, in manifest order. */
  function AllJobDefinitionFiles(ms: seq<Manifest>): seq<string> {
    Concat(DeclaredLists(ms))
  }

  /** The loop over the manifests (the `+=` accumulation, with its early exit). */
  method CollectJobDefinitionFiles(ms: seq<Manifest>) returns (r: Resolution)
    ensures r == Resolve(ms)
  {
    var gathered: seq<string> := [];
    for i := 0 to |ms|
      invariant Resolve(ms[..i]) == JobDefinitionFiles(gathered)
    {
      assert ms[..i + 1][..i] == ms[..i];
      match ms[i].jobDefinitionFiles
      case None =>
        ResolveIgnoresLater(ms[..i + 1], ms[i + 1..]);
        assert ms[..i + 1] + ms[i + 1..] == ms;
        return MissingJobDefinitionFiles(ms[i].path);
      case Some(files) =>
        gathered := gathered + files;
    }
    assert ms[..|ms|] == ms;
    r := JobDefinitionFiles(gathered);
  }

  // ---------------------------------------------------------------------------
  // Properties of the manifest loop

  lemma ConcatAppend(lists: seq<seq<string>>, last: seq<string>)
    ensures Concat(lists + [last]) == Concat(lists) + last
  {
    if |lists| > 0 {
      assert (lists + [last])[1..] == lists[1..] + [last];
    }
  }

  lemma DeclaredListsPrefix(ms: seq<Manifest>, n: nat)
    requires n <= |ms|
    ensures DeclaredLists(ms[..n]) == DeclaredLists(ms)[..n]
  {
    assert forall k :: 0 <= k < n ==> ms[..n][k] == ms[k];
  }

  /** Once a manifest without the key is reached, later manifests change nothing. */
  lemma {:induction false} ResolveIgnoresLater(ms: seq<Manifest>, later: seq<Manifest>)
    requires Resolve(ms).MissingJobDefinitionFiles?
    ensures Resolve(ms + later) == Resolve(ms)
    decreases |later|
  {
    if |later| > 0 {
      var front := ms + later[..|later| - 1];
      ResolveIgnoresLater(ms, later[..|later| - 1]);
      assert (ms + later)[..|ms + later| - 1] == front;
      assert Resolve(front) == Resolve(ms);
    } else {
      assert ms + later == ms;
    }
  }

  /** The first manifest lacking `job-definition-files` is the one the fatal error names. */
  lemma {:induction false} ResolveNamesFirstMissing(ms: seq<Manifest>, i: nat)
    requires FirstMissingAt(ms, i)
    ensures Resolve(ms) == MissingJobDefinitionFiles(ms[i].path)
  {
    var upTo := ms[..i + 1];
    ResolveAllPresent(ms[..i]);
    assert upTo[..i] == ms[..i];
    ResolveIgnoresLater(upTo, ms[i + 1..]);
    assert upTo + ms[i + 1..] == ms;
  }

  /** When every manifest has the key, the result is all their lists concatenated in order. */
  lemma {:induction false} ResolveAllPresent(ms: seq<Manifest>)
    requires forall j :: 0 <= j < |ms| ==> !Missing(ms[j])
    ensures Resolve(ms) == JobDefinitionFiles(AllJobDefinitionFiles(ms))
  {
    if |ms| > 0 {
      var front := ms[..|ms| - 1];
      ResolveAllPresent(front);
      DeclaredListsPrefix(ms, |ms| - 1);
      var lists := DeclaredLists(ms);
      assert lists == lists[..|ms| - 1] + [lists[|ms| - 1]];
      ConcatAppend(lists[..|ms| - 1], lists[|ms| - 1]);
    }
  }

  /** The loop fails exactly when some manifest lacks the key. */
  lemma ResolveFailsIffSomeMissing(ms: seq<Manifest>)
    ensures Resolve(ms).MissingJobDefinitionFiles? <==> exists i :: 0 <= i < |ms| && Missing(ms[i])
  {
    if exists i :: 0 <= i < |ms| && Missing(ms[i]) {
      var i := FirstMissing(ms);
      ResolveNamesFirstMissing(ms, i);
    } else {
      ResolveAllPresent(ms);
    }
  }

  /** A manifest without the key has a first one. */
  lemma FirstMissing(ms: seq<Manifest>) returns (i: nat)
    requires exists i :: 0 <= i < |ms| && Missing(ms[i])
    ensures FirstMissingAt(ms, i)
  {
    i := 0;
    while !Missing(ms[i])
      invariant i < |ms|
      invariant forall j :: 0 <= j < i ==> !Missing(ms[j])
      decreases |ms| - i
    {
      i := i + 1;
    }
  }

  /** No file name is dropped or merged: the result is as long as all the lists together. */
  lemma {:induction false} ConcatLength(lists: seq<seq<string>>)
    ensures |Concat(lists)| == TotalLength(lists)
  {
    if |lists| > 0 {
      ConcatLength(lists[1..]);
    }
  }

  /** Each listed name sits in the result at its list's offset, so order and duplicates are kept. */
  lemma {:induction false} ConcatPlaces(lists: seq<seq<string>>, i: nat, j: nat)
    requires i < |lists| && j < |lists[i]|
    ensures TotalLength(lists[..i]) + j < |Concat(lists)|
    ensures Concat(lists)[TotalLength(lists[..i]) + j] == lists[i][j]
  {
    ConcatLength(lists);
    if i > 0 {
      ConcatPlaces(lists[1..], i - 1, j);
      assert lists[1..][..i - 1] == lists[..i][1..];
    }
  }
}
