/** The asset list and the selection of App.tsx: removing an asset,
    toggling and selecting ids, and the choice of the assets that "Generate
    Metadata" sends for processing. The selection is the set of selected
    ids. */
module Assets {
  import opened Types
  import opened Text

  predicate HasId(f: UploadedFile, id: Id) { f.id == id }

  /** `handleRemoveFile`: the list without the asset of that id, and the
      selection without the id. */
  function RemoveFile(files: seq<UploadedFile>, selected: set<Id>, id: Id): (r: (seq<UploadedFile>, set<Id>))
    ensures forall f :: f in r.0 <==> f in files && f.id != id
    ensures IsSubsequence(r.0, files)
    ensures r.1 == selected - {id}
  {
    FilterIsSubsequence(files, f => !HasId(f, id));
    (Filter(files, f => !HasId(f, id)), selected - {id})
  }

  /** Removing an id that no asset carries leaves the list as it was. */
  lemma RemoveAbsent(files: seq<UploadedFile>, selected: set<Id>, id: Id)
    requires forall i :: 0 <= i < |files| ==> files[i].id != id
    ensures RemoveFile(files, selected, id).0 == files
  {
    FilterAll(files, f => !HasId(f, id));
  }

  /** With ids pairwise distinct, removing the asset at index k keeps every
      other asset, in order. */
  lemma {:induction false} RemoveUnique(files: seq<UploadedFile>, selected: set<Id>, k: nat)
    requires k < |files|
    requires forall i, j :: 0 <= i < j < |files| ==> files[i].id != files[j].id
    ensures RemoveFile(files, selected, files[k].id).0 == files[..k] + files[k + 1..]
  {
    var id := files[k].id;
    var P := f => !HasId(f, id);
    assert files == files[..k] + ([files[k]] + files[k + 1..]);
    FilterAppend(files[..k], [files[k]] + files[k + 1..], P);
    FilterAppend([files[k]], files[k + 1..], P);
    FilterAll(files[..k], P);
    FilterAll(files[k + 1..], P);
    assert Filter([files[k]], P) == [];
  }

  /** `handleToggleSelect`. */
  function ToggleSelect(selected: set<Id>, id: Id): (r: set<Id>)
    ensures id in r <==> id !in selected
    ensures r - {id} == selected - {id}
  {
    if id in selected then selected - {id} else selected + {id}
  }

  lemma ToggleTwice(selected: set<Id>, id: Id)
    ensures ToggleSelect(ToggleSelect(selected, id), id) == selected
  {
  }

  function AllIds(files: seq<UploadedFile>): set<Id> {
    set i | 0 <= i < |files| :: files[i].id
  }

  /** `handleSelectAll`: clears the selection when it has as many ids as
      there are assets, and otherwise selects every asset. */
  function SelectAll(selected: set<Id>, files: seq<UploadedFile>): (r: set<Id>)
    ensures |selected| == |files| ==> r == {}
    ensures |selected| != |files| ==> forall i :: 0 <= i < |files| ==> files[i].id in r
    ensures forall id :: id in r ==> exists i :: 0 <= i < |files| && files[i].id == id
  {
    if |selected| == |files| then {} else AllIds(files)
  }

  /** With pairwise distinct ids there are as many ids as assets. */
  lemma {:induction false} AllIdsCount(files: seq<UploadedFile>)
    requires forall i, j :: 0 <= i < j < |files| ==> files[i].id != files[j].id
    ensures |AllIds(files)| == |files|
  {
    if files != [] {
      var p := files[..|files| - 1];
      AllIdsCount(p);
      AllIdsSnoc(files);
      assert files[|files| - 1].id !in AllIds(p);
    }
  }

  lemma AllIdsSnoc(files: seq<UploadedFile>)
    requires files != []
    ensures AllIds(files) == AllIds(files[..|files| - 1]) + {files[|files| - 1].id}
  {
    var p := files[..|files| - 1];
    forall id | id in AllIds(files) ensures id in AllIds(p) + {files[|files| - 1].id} {
      var i :| 0 <= i < |files| && files[i].id == id;
      if i < |p| { assert p[i] == files[i]; }
    }
    forall id | id in AllIds(p) ensures id in AllIds(files) {
      var i :| 0 <= i < |p| && p[i].id == id;
      assert files[i] == p[i];
    }
  }

  /** The select-all button is a toggle: pressing it twice from a partial
      selection ends with nothing selected. */
  lemma SelectAllTwice(selected: set<Id>, files: seq<UploadedFile>)
    requires forall i, j :: 0 <= i < j < |files| ==> files[i].id != files[j].id
    requires |selected| != |files|
    ensures SelectAll(SelectAll(selected, files), files) == {}
  {
    AllIdsCount(files);
  }

  predicate IsPending(f: UploadedFile) { f.status == Idle || f.status == Error }

  /** The assets "Generate Metadata" works on, also counted on its button:
      every IDLE or ERROR asset, in list order. */
  function Pending(files: seq<UploadedFile>): (r: seq<UploadedFile>)
    ensures forall f :: f in r <==> f in files && IsPending(f)
    ensures IsSubsequence(r, files)
  {
    FilterIsSubsequence(files, IsPending);
    Filter(files, IsPending)
  }

  /** The number of assets "Generate Metadata" would send. */
  function PendingCount(files: seq<UploadedFile>): (n: nat)
    ensures n <= |files|
    ensures n == |IndicesWhere(files, IsPending)|
  {
    FilterLength(files, IsPending);
    |Pending(files)|
  }

  /** Completed assets are never re-sent by "Generate Metadata". */
  lemma PendingSkipsCompleted(files: seq<UploadedFile>)
    requires forall i :: 0 <= i < |files| ==> files[i].status == Completed
    ensures Pending(files) == [] && PendingCount(files) == 0
  {
    FilterNone(files, IsPending);
  }

  /** When nothing has been processed yet, every asset is sent, in order. */
  lemma PendingAllFresh(files: seq<UploadedFile>)
    requires forall i :: 0 <= i < |files| ==> files[i].status == Idle
    ensures Pending(files) == files
  {
    FilterAll(files, IsPending);
  }

  datatype GenerateAction = AskForKey | Process(targets: seq<UploadedFile>)

  /** `handleGenerateAll`: without a key (neither the stored one nor the
      environment's) the key dialog opens and nothing is processed;
      otherwise every pending asset is processed. */
  function GenerateAll(files: seq<UploadedFile>, storedKey: string, envKey: string): (r: GenerateAction)
    ensures r.AskForKey? <==> storedKey == [] && envKey == []
    ensures r.Process? ==> r.targets == Pending(files) && |r.targets| == PendingCount(files)
  {
    if storedKey == [] && envKey == [] then AskForKey else Process(Pending(files))
  }
}
