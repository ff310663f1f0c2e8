/** The prompt generator of components/PromptGenerator.tsx: a list of
    images, each waiting for, receiving or holding a text-to-image prompt,
    and the CSV of the finished prompts. The random ids of the source are
    supplied by the caller; the model call is an outcome passed in. */
module PromptGenerator {
  import opened Types
  import opened Text
  import opened Csv

  datatype PromptStatus = PromptIdle | PromptLoading | PromptCompleted | PromptError

  datatype PromptItem = PromptItem(id: Id, file: FileRef, prompt: string, status: PromptStatus, error: Option<string>)

  /** The items still to be generated: idle, or failed before. */
  predicate IsPending(i: PromptItem) { i.status == PromptIdle || i.status == PromptError }

  /** The items the CSV lists: completed with a non-empty prompt. */
  predicate Exportable(i: PromptItem) { i.status == PromptCompleted && i.prompt != [] }

  predicate HasId(i: PromptItem, id: Id) { i.id == id }

  /** The new items for picked files: idle, with an empty prompt. */
  function NewItems(files: seq<FileRef>, ids: seq<Id>): (r: seq<PromptItem>)
    requires |ids| == |files|
    ensures |r| == |files|
    ensures forall k :: 0 <= k < |r| ==> r[k] == PromptItem(ids[k], files[k], [], PromptIdle, None)
  {
    seq(|files|, (k: int) requires 0 <= k < |files| => PromptItem(ids[k], files[k], [], PromptIdle, None))
  }

  /** Every item whose id is `id` rewritten by `g`, the others kept. */
  function UpdateWhere(items: seq<PromptItem>, id: Id, g: PromptItem -> PromptItem): (r: seq<PromptItem>)
    ensures |r| == |items|
    ensures forall k :: 0 <= k < |r| ==> r[k] == if items[k].id == id then g(items[k]) else items[k]
  {
    seq(|items|, (k: int) requires 0 <= k < |items| => if items[k].id == id then g(items[k]) else items[k])
  }

  function Loading(i: PromptItem): PromptItem { i.(status := PromptLoading, error := None) }
  function Finished(prompt: string): PromptItem -> PromptItem {
    (i: PromptItem) => i.(status := PromptCompleted, prompt := prompt)
  }
  function Failed(message: string): PromptItem -> PromptItem {
    (i: PromptItem) => i.(status := PromptError, error := Some(message))
  }

  /** The ids `handleGenerateAll` starts a generation for: none without a
      key, otherwise every pending item's, in list order. */
  function GenerateAllTargets(items: seq<PromptItem>, apiKey: string): (r: seq<Id>)
    ensures apiKey == [] ==> r == []
    ensures apiKey != [] ==> |r| == PendingCount(items)
    ensures apiKey != [] ==> forall id :: id in r <==> exists i :: i in items && IsPending(i) && i.id == id
  {
    if apiKey == [] then []
    else
      var pending := Filter(items, IsPending);
      var r := seq(|pending|, (k: int) requires 0 <= k < |pending| => pending[k].id);
      assert forall id :: id in r ==> exists i :: i in items && IsPending(i) && i.id == id by {
        forall id | id in r ensures exists i :: i in items && IsPending(i) && i.id == id {
          var k :| 0 <= k < |r| && r[k] == id;
          assert pending[k] in pending;
        }
      }
      assert forall id :: (exists i :: i in items && IsPending(i) && i.id == id) ==> id in r by {
        forall id | exists i :: i in items && IsPending(i) && i.id == id ensures id in r {
          var i :| i in items && IsPending(i) && i.id == id;
          assert i in pending;
          var k :| 0 <= k < |pending| && pending[k] == i;
          assert r[k] == id;
        }
      }
      r
  }

  /** The count on the "generate all" button. */
  function PendingCount(items: seq<PromptItem>): (n: nat)
    ensures n <= |items|
    ensures n == |IndicesWhere(items, IsPending)|
  {
    FilterLength(items, IsPending);
    |Filter(items, IsPending)|
  }

  /** The CSV header. */
  const CsvHeader: seq<string> := ["Filename", "Prompt"]

  function PromptRows(items: seq<PromptItem>): (r: seq<seq<string>>)
    ensures |r| == |items|
    ensures forall k :: 0 <= k < |r| ==> r[k] == [items[k].file.name, items[k].prompt]
  {
    seq(|items|, (k: int) requires 0 <= k < |items| => [items[k].file.name, items[k].prompt])
  }

  /** `handleExportCSV`: nothing when no item is exportable; otherwise the
      header and one quoted row (file name, prompt) per exportable item. */
  function ExportCsv(items: seq<PromptItem>): (r: Option<string>)
    ensures r.None? <==> forall i :: i in items ==> !Exportable(i)
  {
    var done := Filter(items, Exportable);
    if |done| == 0 then
      assert forall i :: i in items ==> !Exportable(i) by {
        forall i | i in items ensures !Exportable(i) {
          assert i !in done;
        }
      }
      None
    else
      assert done[0] in done;
      Some(Document(CsvHeader, PromptRows(done)))
  }

  lemma CsvHeaderPlain()
    ensures forall i :: 0 <= i < |CsvHeader| ==> IsPlain(CsvHeader[i])
  {
    assert CsvHeader[0] == "Filename" && CsvHeader[1] == "Prompt";
  }

  /** Reading the exported CSV back gives the header and, for every
      exportable item in list order, its file name and its prompt. */
  lemma ExportCsvRoundTrip(items: seq<PromptItem>)
    requires ExportCsv(items).Some?
    ensures ParseRecords(ExportCsv(items).value) == Some([CsvHeader] + PromptRows(Filter(items, Exportable)))
  {
    var rows := PromptRows(Filter(items, Exportable));
    CsvHeaderPlain();
    DocumentRoundTrip(CsvHeader, rows);
  }

  class Generator {
    var items: seq<PromptItem>

    constructor ()
      ensures items == []
    {
      items := [];
    }

    /** `handleFilesSelected`: the picked files are appended as idle items. */
    method AddFiles(files: seq<FileRef>, ids: seq<Id>)
      requires |ids| == |files|
      modifies this
      ensures items == old(items) + NewItems(files, ids)
    {
      items := items + NewItems(files, ids);
    }

    /** `handleRemove`: every item with that id is dropped. */
    method Remove(id: Id)
      modifies this
      ensures items == Filter(old(items), i => !HasId(i, id))
    {
      items := Filter(items, i => !HasId(i, id));
    }

    /** `handleClearAll`. */
    method ClearAll()
      modifies this
      ensures items == []
    {
      items := [];
    }

    /** The first half of `handleGenerate`: without a key nothing happens;
        otherwise the item is marked loading and its error cleared. */
    method BeginGenerate(id: Id, apiKey: string) returns (started: bool)
      modifies this
      ensures started <==> apiKey != []
      ensures !started ==> items == old(items)
      ensures started ==> items == UpdateWhere(old(items), id, Loading)
    {
      if apiKey == [] {
        return false;
      }
      items := UpdateWhere(items, id, Loading);
      return true;
    }

    /** The second half: the item becomes completed with the prompt the
        model returned, or failed with the error's message. */
    method FinishGenerate(id: Id, outcome: Result<string, string>)
      modifies this
      ensures outcome.Ok? ==> items == UpdateWhere(old(items), id, Finished(outcome.value))
      ensures outcome.Err? ==> items == UpdateWhere(old(items), id, Failed(outcome.error))
    {
      match outcome
      case Ok(prompt) => items := UpdateWhere(items, id, Finished(prompt));
      case Err(message) => items := UpdateWhere(items, id, Failed(message));
    }
  }

  // ---------------------------------------------------------------------
  // Properties of the list operations

  /** Freshly added items wait for generation and are not exported yet. */
  lemma NewItemsPending(items: seq<PromptItem>, files: seq<FileRef>, ids: seq<Id>)
    requires |ids| == |files|
    ensures PendingCount(items + NewItems(files, ids)) == PendingCount(items) + |files|
    ensures Filter(items + NewItems(files, ids), Exportable) == Filter(items, Exportable)
  {
    var n := NewItems(files, ids);
    FilterAppend(items, n, IsPending);
    FilterAppend(items, n, Exportable);
    FilterAll(n, IsPending);
    FilterNone(n, Exportable);
    assert Filter(items, Exportable) + [] == Filter(items, Exportable);
  }

  /** After removing an id no item carries it and every other item stays,
      in order. */
  lemma RemoveProperties(items: seq<PromptItem>, id: Id)
    ensures var r := Filter(items, i => !HasId(i, id));
            (forall i :: i in r <==> i in items && i.id != id) && IsSubsequence(r, items)
  {
    FilterIsSubsequence(items, i => !HasId(i, id));
  }

  /** A generation touches only the items with its id, and keeps every
      item's id, file and place in the list. */
  lemma UpdateOnlyTarget(items: seq<PromptItem>, id: Id, g: PromptItem -> PromptItem)
    requires forall i :: g(i).id == i.id && g(i).file == i.file
    ensures var r := UpdateWhere(items, id, g);
            forall k :: 0 <= k < |items| ==>
              r[k].id == items[k].id && r[k].file == items[k].file && (items[k].id != id ==> r[k] == items[k])
  {
  }

  lemma StepsKeepIdentity(prompt: string, message: string)
    ensures forall i :: Loading(i).id == i.id && Loading(i).file == i.file
    ensures forall i :: Finished(prompt)(i).id == i.id && Finished(prompt)(i).file == i.file
    ensures forall i :: Failed(message)(i).id == i.id && Failed(message)(i).file == i.file
  {
  }

  /** A successful generation makes the item exportable exactly when the
      returned prompt is not empty, and takes it off the pending list. */
  lemma GenerateSuccess(items: seq<PromptItem>, id: Id, prompt: string, k: nat)
    requires k < |items| && items[k].id == id
    ensures var r := UpdateWhere(UpdateWhere(items, id, Loading), id, Finished(prompt));
            !IsPending(r[k]) && r[k].prompt == prompt && (Exportable(r[k]) <==> prompt != [])
  {
  }

  /** A failed generation keeps the previous prompt and puts the item back
      on the pending list with the message. */
  lemma GenerateFailure(items: seq<PromptItem>, id: Id, message: string, k: nat)
    requires k < |items| && items[k].id == id
    ensures var r := UpdateWhere(UpdateWhere(items, id, Loading), id, Failed(message));
            IsPending(r[k]) && r[k].prompt == items[k].prompt && r[k].error == Some(message)
  {
  }
}
