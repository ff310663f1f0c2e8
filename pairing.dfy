/** File pairing of App.tsx (`handleFilesSelected`): incoming files are
    grouped by basename, each classified as a vector (.eps, .ai) or an image
    (.jpg, .jpeg, .png, .webp), and every group is merged into the asset
    list: a vector is attached to an existing entry, an image promotes an
    orphan vector, otherwise a new entry is appended. */
module Pairing {
  import opened Types
  import opened Text

  const MissingPreview: string := "Missing Preview Image"

  /** `name.substring(0, name.lastIndexOf('.'))`: the name without its final
      extension, and the empty string for a name without a dot. */
  function Basename(name: string): (b: string)
    ensures StartsWith(name, b)
    ensures b != [] ==> |b| < |name| && name[|b|] == '.'
    ensures forall j :: |b| < j < |name| ==> name[j] != '.'
    ensures '.' !in name ==> b == []
  {
    var k := LastIndexOf(name, '.');
    if k < 0 then [] else name[..k]
  }

  /** `/\.(eps|ai)$/i` */
  predicate IsVector(name: string) {
    EndsWith(Lower(name), ".eps") || EndsWith(Lower(name), ".ai")
  }

  /** `/\.(jpg|jpeg|png|webp)$/i` */
  predicate IsImage(name: string) {
    EndsWith(Lower(name), ".jpg") || EndsWith(Lower(name), ".jpeg")
    || EndsWith(Lower(name), ".png") || EndsWith(Lower(name), ".webp")
  }

  predicate Supported(name: string) { IsVector(name) || IsImage(name) }

  lemma EndsWithLast(s: string, suffix: string)
    requires suffix != [] && EndsWith(s, suffix)
    ensures s[|s| - 1] == suffix[|suffix| - 1]
  {
    assert s[|s| - |suffix|..][|suffix| - 1] == s[|s| - 1];
  }

  /** No name is both a vector and an image: the last letters differ. */
  lemma ClassesDisjoint(name: string)
    ensures !(IsVector(name) && IsImage(name))
  {
    var l := Lower(name);
    if EndsWith(l, ".eps") { EndsWithLast(l, ".eps"); }
    if EndsWith(l, ".ai") { EndsWithLast(l, ".ai"); }
    if EndsWith(l, ".jpg") { EndsWithLast(l, ".jpg"); }
    if EndsWith(l, ".jpeg") { EndsWithLast(l, ".jpeg"); }
    if EndsWith(l, ".png") { EndsWithLast(l, ".png"); }
    if EndsWith(l, ".webp") { EndsWithLast(l, ".webp"); }
  }

  // ---------------------------------------------------------------------
  // Grouping one batch

  /** The image and vector of one basename group. */
  datatype Group = Group(image: Option<FileRef>, vector: Option<FileRef>)

  predicate VectorOf(f: FileRef, base: string) {
    Basename(f.name) == base && IsVector(f.name)
  }

  /** The image branch is an `else if`: a file counts as an image only when
      it is not a vector. */
  predicate ImageOf(f: FileRef, base: string) {
    Basename(f.name) == base && !IsVector(f.name) && IsImage(f.name)
  }

  /** The distinct basenames of a batch in order of first appearance: the
      iteration order of the `Map` the source fills. A file of neither kind
      still creates its (empty) group. */
  function BatchKeys(files: seq<FileRef>): seq<string>
  {
    if files == [] then []
    else
      var p := BatchKeys(files[..|files| - 1]);
      var b := Basename(files[|files| - 1].name);
      if b in p then p else p + [b]
  }

  /** Position of the last element satisfying `P`, or -1 when there is
      none. */
  function LastWhere<T>(s: seq<T>, P: T -> bool): (r: int)
    ensures -1 <= r < |s|
  {
    if s == [] then -1
    else if P(s[|s| - 1]) then |s| - 1
    else LastWhere(s[..|s| - 1], P)
  }

  lemma {:induction false} LastWhereIsLast<T>(s: seq<T>, P: T -> bool)
    ensures var r := LastWhere(s, P);
            (r >= 0 ==> P(s[r])) && (forall j :: r < j < |s| ==> !P(s[j]))
  {
    if s != [] && !P(s[|s| - 1]) {
      var p := s[..|s| - 1];
      LastWhereIsLast(p, P);
      assert forall j :: 0 <= j < |p| ==> p[j] == s[j];
    }
  }

  /** Later files of the same kind and basename overwrite earlier ones: the
      group keeps the last vector and the last image of its basename. */
  function LastVector(files: seq<FileRef>, base: string): Option<FileRef> {
    var p := LastWhere(files, f => VectorOf(f, base));
    if p < 0 then None else Some(files[p])
  }

  function LastImage(files: seq<FileRef>, base: string): Option<FileRef> {
    var p := LastWhere(files, f => ImageOf(f, base));
    if p < 0 then None else Some(files[p])
  }

  /** The vector kept for a basename is the last vector of the batch with
      that basename. */
  lemma LastVectorIsLast(files: seq<FileRef>, base: string)
    ensures LastVector(files, base).Some? ==>
              LastVector(files, base).value in files && VectorOf(LastVector(files, base).value, base)
    ensures var p := LastWhere(files, f => VectorOf(f, base));
            forall j :: p < j < |files| ==> !VectorOf(files[j], base)
  {
    LastWhereIsLast(files, f => VectorOf(f, base));
  }

  /** The image kept for a basename is the last non-vector image of the
      batch with that basename. */
  lemma LastImageIsLast(files: seq<FileRef>, base: string)
    ensures LastImage(files, base).Some? ==>
              LastImage(files, base).value in files && ImageOf(LastImage(files, base).value, base)
    ensures var p := LastWhere(files, f => ImageOf(f, base));
            forall j :: p < j < |files| ==> !ImageOf(files[j], base)
  {
    LastWhereIsLast(files, f => ImageOf(f, base));
  }

  function BatchGroup(files: seq<FileRef>, base: string): Group {
    Group(LastImage(files, base), LastVector(files, base))
  }

  /** The batch's groups in iteration order. */
  function EntriesFor(keys: seq<string>, files: seq<FileRef>): (r: seq<(string, Group)>)
    ensures |r| == |keys|
    ensures forall i :: 0 <= i < |keys| ==> r[i] == (keys[i], BatchGroup(files, keys[i]))
  {
    if keys == [] then []
    else EntriesFor(keys[..|keys| - 1], files) + [(keys[|keys| - 1], BatchGroup(files, keys[|keys| - 1]))]
  }

  function BatchEntries(files: seq<FileRef>): seq<(string, Group)> {
    EntriesFor(BatchKeys(files), files)
  }

  predicate Distinct<T(==)>(s: seq<T>) {
    forall i, j :: 0 <= i < j < |s| ==> s[i] != s[j]
  }

  /** Adding a key that is not yet listed keeps the keys distinct. */
  lemma AddKey(p: seq<string>, b: string)
    requires Distinct(p)
    ensures var r := if b in p then p else p + [b];
            Distinct(r) && forall k :: k in r <==> k in p || k == b
  {
  }

  predicate HasBasename(files: seq<FileRef>, k: string) {
    exists i :: 0 <= i < |files| && Basename(files[i].name) == k
  }

  lemma HasBasenameSnoc(files: seq<FileRef>, k: string)
    requires files != []
    ensures HasBasename(files, k) <==>
              HasBasename(files[..|files| - 1], k) || Basename(files[|files| - 1].name) == k
  {
    var p := files[..|files| - 1];
    if HasBasename(p, k) {
      var i :| 0 <= i < |p| && Basename(p[i].name) == k;
      assert files[i] == p[i];
    }
    if HasBasename(files, k) {
      var i :| 0 <= i < |files| && Basename(files[i].name) == k;
      if i < |files| - 1 {
        assert p[i] == files[i];
      }
    }
  }

  /** The group keys are exactly the basenames of the batch, each once. */
  lemma {:induction false} BatchKeysAreBasenames(files: seq<FileRef>)
    ensures forall k :: k in BatchKeys(files) <==> HasBasename(files, k)
    ensures Distinct(BatchKeys(files))
  {
    if files != [] {
      var p := files[..|files| - 1];
      BatchKeysAreBasenames(p);
      AddKey(BatchKeys(p), Basename(files[|files| - 1].name));
      forall k ensures k in BatchKeys(files) <==> HasBasename(files, k) {
        HasBasenameSnoc(files, k);
      }
    }
  }

  lemma LastWhereSnoc<T>(s: seq<T>, x: T, P: T -> bool)
    ensures LastWhere(s + [x], P) == if P(x) then |s| else LastWhere(s, P)
  {
    assert (s + [x])[..|s|] == s;
  }

  /** Adding one file to a batch updates only its own basename's group. */
  lemma BatchGroupSnoc(files: seq<FileRef>, f: FileRef, k: string)
    ensures BatchGroup(files + [f], k) ==
              var g := BatchGroup(files, k);
              if Basename(f.name) != k then g
              else if IsVector(f.name) then g.(vector := Some(f))
              else if IsImage(f.name) then g.(image := Some(f))
              else g
  {
    var s := files + [f];
    LastWhereSnoc(files, f, x => VectorOf(x, k));
    LastWhereSnoc(files, f, x => ImageOf(x, k));
    var p := LastWhere(files, x => VectorOf(x, k));
    var q := LastWhere(files, x => ImageOf(x, k));
    if p >= 0 { assert s[p] == files[p]; }
    if q >= 0 { assert s[q] == files[q]; }
  }

  lemma GroupedFilesHaveKeys(files: seq<FileRef>, base: string)
    requires base !in BatchKeys(files)
    ensures BatchGroup(files, base) == Group(None, None)
  {
    BatchKeysAreBasenames(files);
    LastVectorIsLast(files, base);
    LastImageIsLast(files, base);
  }

  lemma BatchKeysSnoc(pre: seq<FileRef>, f: FileRef)
    ensures BatchKeys(pre + [f]) ==
              if Basename(f.name) in BatchKeys(pre) then BatchKeys(pre) else BatchKeys(pre) + [Basename(f.name)]
  {
    assert (pre + [f])[..|pre|] == pre;
  }

  /** A file recorded in its group: as the vector, else as the image. */
  function AddToGroup(g: Group, f: FileRef): Group {
    if IsVector(f.name) then g.(vector := Some(f))
    else if IsImage(f.name) then g.(image := Some(f))
    else g
  }

  /** `groups` holds the groups of the batch `files`, keyed by basename. */
  ghost predicate GroupsOf(groups: map<string, Group>, files: seq<FileRef>) {
    && (forall k :: k in groups <==> k in BatchKeys(files))
    && (forall k :: k in groups ==> groups[k] == BatchGroup(files, k))
  }

  /** The groups of a batch, as a map, after one more file. */
  lemma GroupStep(pre: seq<FileRef>, f: FileRef, groups: map<string, Group>, groups': map<string, Group>)
    requires GroupsOf(groups, pre)
    requires var b := Basename(f.name);
             b in groups' && groups'[b] == AddToGroup(if b in groups then groups[b] else Group(None, None), f)
    requires forall k :: k != Basename(f.name) ==> (k in groups' <==> k in groups)
    requires forall k :: k != Basename(f.name) && k in groups ==> groups'[k] == groups[k]
    ensures GroupsOf(groups', pre + [f])
  {
    GroupKeysStep(pre, Basename(f.name), f, groups, groups');
    GroupValuesStep(pre, f, groups, groups');
  }

  lemma GroupKeysStep(pre: seq<FileRef>, b: string, f: FileRef, groups: map<string, Group>, groups': map<string, Group>)
    requires b == Basename(f.name)
    requires forall k :: k in groups <==> k in BatchKeys(pre)
    requires b in groups'
    requires forall k :: k != b ==> (k in groups' <==> k in groups)
    ensures forall k :: k in groups' <==> k in BatchKeys(pre + [f])
  {
    BatchKeysSnoc(pre, f);
  }

  lemma GroupValuesStep(pre: seq<FileRef>, f: FileRef, groups: map<string, Group>, groups': map<string, Group>)
    requires GroupsOf(groups, pre)
    requires var b := Basename(f.name);
             b in groups' && groups'[b] == AddToGroup(if b in groups then groups[b] else Group(None, None), f)
    requires forall k :: k != Basename(f.name) ==> (k in groups' <==> k in groups)
    requires forall k :: k != Basename(f.name) && k in groups ==> groups'[k] == groups[k]
    ensures forall k :: k in groups' ==> groups'[k] == BatchGroup(pre + [f], k)
  {
    var b := Basename(f.name);
    if b !in groups {
      GroupedFilesHaveKeys(pre, b);
    }
    forall k | k in groups'
      ensures groups'[k] == BatchGroup(pre + [f], k)
    {
      BatchGroupSnoc(pre, f, k);
    }
  }

  /** The body of the grouping `forEach`: the file's basename gets a group
      if it has none, and the file is recorded in it by kind. */
  method GroupFile(ghost pre: seq<FileRef>, f: FileRef, keys: seq<string>, groups: map<string, Group>)
    returns (keys': seq<string>, groups': map<string, Group>)
    requires keys == BatchKeys(pre) && GroupsOf(groups, pre)
    ensures keys' == BatchKeys(pre + [f]) && GroupsOf(groups', pre + [f])
  {
    var base := Basename(f.name);
    BatchKeysSnoc(pre, f);
    keys', groups' := keys, groups;
    if base !in groups' {
      keys' := keys' + [base];
      groups' := groups'[base := Group(None, None)];
    }
    ghost var before := groups';
    if IsVector(f.name) {
      groups' := groups'[base := groups'[base].(vector := Some(f))];
    } else if IsImage(f.name) {
      groups' := groups'[base := groups'[base].(image := Some(f))];
    }
    assert groups'[base] == AddToGroup(before[base], f);
    GroupStep(pre, f, groups, groups');
  }

  /** The grouping pass of the source: a `Map` from basename to group filled
      in one pass over the batch, with the keys in insertion order. */
  method GroupByBasename(files: seq<FileRef>) returns (keys: seq<string>, groups: map<string, Group>)
    ensures keys == BatchKeys(files)
    ensures forall k :: k in groups <==> k in keys
    ensures forall k :: k in groups ==> groups[k] == BatchGroup(files, k)
  {
    keys, groups := [], map[];
    for i := 0 to |files|
      invariant keys == BatchKeys(files[..i])
      invariant GroupsOf(groups, files[..i])
    {
      assert files[..i + 1] == files[..i] + [files[i]];
      keys, groups := GroupFile(files[..i], files[i], keys, groups);
    }
    BatchOfAll(files);
  }

  lemma BatchOfAll(files: seq<FileRef>)
    ensures files[..|files|] == files
  {
  }

  // ---------------------------------------------------------------------
  // Merging groups into the asset list

  /** `newFileList.findIndex(f => getBasename(f.file.name) === basename)`:
      the first entry whose PRIMARY file has the basename, or -1. */
  function FindByBase(list: seq<UploadedFile>, base: string): (r: int)
    ensures -1 <= r < |list|
    ensures r >= 0 ==> Basename(list[r].file.name) == base
    ensures forall j :: 0 <= j < |list| && (r < 0 || j < r) ==> Basename(list[j].file.name) != base
  {
    if list == [] then -1
    else if Basename(list[0].file.name) == base then 0
    else
      var r := FindByBase(list[1..], base);
      assert forall j :: 1 <= j < |list| ==> list[j] == list[1..][j - 1];
      if r < 0 then -1 else r + 1
  }

  function NewEntry(id: Id, image: FileRef, vector: Option<FileRef>): UploadedFile {
    UploadedFile(id, image, vector, Some(image), Idle, None, None, None)
  }

  function OrphanEntry(id: Id, vector: FileRef): UploadedFile {
    UploadedFile(id, vector, Some(vector), None, Error, None, Some(MissingPreview), None)
  }

  /** An image arriving for an entry whose primary file is not an image. */
  function Promote(existing: UploadedFile, image: FileRef): UploadedFile {
    existing.(file := image, vectorFile := Some(existing.file), preview := Some(image),
              status := Idle, error := None)
  }

  /** A matched entry after both updates of the source, given whether its
      primary file is an image. Both updates start from the entry as it was
      before either of them, so promoting an orphan overwrites a vector
      attached by the first update. */
  function Merged(existing: UploadedFile, g: Group, primaryIsImage: bool): UploadedFile {
    if g.image.Some? && !primaryIsImage then Promote(existing, g.image.value)
    else if g.vector.Some? && existing.vectorFile.None? then existing.(vectorFile := g.vector)
    else existing
  }

  /** The effect of one basename group on the list. */
  function MergeGroup(list: seq<UploadedFile>, base: string, g: Group, nextId: Id): (seq<UploadedFile>, Id)
  {
    var idx := FindByBase(list, base);
    if idx >= 0 then
      (list[idx := Merged(list[idx], g, IsImage(list[idx].file.name))], nextId)
    else if g.image.Some? then
      (list + [NewEntry(nextId, g.image.value, g.vector)], nextId + 1)
    else if g.vector.Some? then
      (list + [OrphanEntry(nextId, g.vector.value)], nextId + 1)
    else
      (list, nextId)
  }

  /** The two updates of a matched entry, slot by slot. */
  lemma MergedFacts(e: UploadedFile, g: Group, primaryIsImage: bool)
    ensures var m := Merged(e, g, primaryIsImage);
            && (m.vectorFile != e.vectorFile ==>
                  (e.vectorFile.None? && g.vector.Some? && m.vectorFile == g.vector)
                  || (g.image.Some? && m.vectorFile == Some(e.file)))
            && (g.image.Some? && !primaryIsImage ==> m == Promote(e, g.image.value))
            && (!(g.image.Some? && !primaryIsImage) ==>
                  m == (if g.vector.Some? && e.vectorFile.None? then e.(vectorFile := g.vector) else e))
            && (m.file != e.file ==> g.image.Some? && !primaryIsImage)
            && (g == Group(None, None) ==> m == e)
  {
  }

  /** What merging one group does, case by case. */
  lemma MergeGroupCases(list: seq<UploadedFile>, base: string, g: Group, nextId: Id)
    ensures var r := MergeGroup(list, base, g, nextId);
            // A group that matches an entry changes at most that slot.
            (FindByBase(list, base) >= 0 ==> MergedInPlace(list, g, nextId, FindByBase(list, base), r))
            // A group with an image and no match appends a new idle entry.
            && (FindByBase(list, base) < 0 && g.image.Some? ==>
                |r.0| == |list| + 1 && r.0[..|list|] == list && r.1 == nextId + 1
                && r.0[|list|].id == nextId && r.0[|list|].status == Idle
                && r.0[|list|].file == g.image.value && r.0[|list|].vectorFile == g.vector
                && r.0[|list|].error.None?)
            // A vector alone and no match appends an orphan in the error state.
            && (FindByBase(list, base) < 0 && g.image.None? && g.vector.Some? ==>
                |r.0| == |list| + 1 && r.0[..|list|] == list && r.1 == nextId + 1
                && r.0[|list|].id == nextId && r.0[|list|].status == Error
                && r.0[|list|].error == Some(MissingPreview)
                && r.0[|list|].file == g.vector.value && r.0[|list|].vectorFile == g.vector)
            // An empty group changes nothing.
            && (g == Group(None, None) ==> r == (list, nextId))
  {
    var idx := FindByBase(list, base);
    if idx >= 0 {
      MergeMatched(list, base, g, nextId);
      MergeEmptyGroup(list, base, nextId);
    } else if g.image.Some? {
      assert (list + [NewEntry(nextId, g.image.value, g.vector)])[..|list|] == list;
    } else if g.vector.Some? {
      assert (list + [OrphanEntry(nextId, g.vector.value)])[..|list|] == list;
    }
  }

  /** The merge of a group into the matched slot idx: only that slot may
      change; a vector is attached only where none is attached yet; an image
      replaces the primary only when that is not an image. */
  predicate MergedInPlace(list: seq<UploadedFile>, g: Group, nextId: Id, idx: nat, r: (seq<UploadedFile>, Id))
    requires idx < |list|
  {
    |r.0| == |list| && r.1 == nextId
    && (forall j :: 0 <= j < |list| && j != idx ==> r.0[j] == list[j])
    && (r.0[idx].vectorFile != list[idx].vectorFile ==>
          (list[idx].vectorFile.None? && g.vector.Some? && r.0[idx].vectorFile == g.vector)
          || (g.image.Some? && r.0[idx].vectorFile == Some(list[idx].file)))
    && (g.image.Some? && !IsImage(list[idx].file.name) ==> r.0[idx] == Promote(list[idx], g.image.value))
    && (!(g.image.Some? && !IsImage(list[idx].file.name)) ==>
          r.0[idx] == (if g.vector.Some? && list[idx].vectorFile.None? then list[idx].(vectorFile := g.vector) else list[idx]))
    && (r.0[idx].file != list[idx].file ==> g.image.Some? && !IsImage(list[idx].file.name))
  }

  lemma MergeMatched(list: seq<UploadedFile>, base: string, g: Group, nextId: Id)
    requires FindByBase(list, base) >= 0
    ensures MergedInPlace(list, g, nextId, FindByBase(list, base), MergeGroup(list, base, g, nextId))
  {
    var idx := FindByBase(list, base);
    var m := Merged(list[idx], g, IsImage(list[idx].file.name));
    MergedFacts(list[idx], g, IsImage(list[idx].file.name));
    SlotUpdate(list, idx, m);
  }

  lemma SlotUpdate<T>(s: seq<T>, i: nat, x: T)
    requires i < |s|
    ensures |s[i := x]| == |s| && s[i := x][i] == x
    ensures forall j :: 0 <= j < |s| && j != i ==> s[i := x][j] == s[j]
  {
  }

  /** The groups merged one after the other, in iteration order. */
  function MergeAll(list: seq<UploadedFile>, entries: seq<(string, Group)>, nextId: Id): (seq<UploadedFile>, Id)
  {
    if entries == [] then (list, nextId)
    else
      var (l, n) := MergeAll(list, entries[..|entries| - 1], nextId);
      MergeGroup(l, entries[|entries| - 1].0, entries[|entries| - 1].1, n)
  }

  /** The whole pairing step on the list `prev`, drawing new ids from
      nextId upwards; returns the new list and the next unused id. */
  function PairFiles(prev: seq<UploadedFile>, incoming: seq<FileRef>, nextId: Id): (seq<UploadedFile>, Id) {
    MergeAll(prev, BatchEntries(incoming), nextId)
  }

  /** The body of the merge `forEach` for one group: attach a vector, promote
      an orphan, or push a new entry. */
  method MergeStep(list: seq<UploadedFile>, next: Id, base: string, group: Group)
    returns (list': seq<UploadedFile>, next': Id)
    ensures (list', next') == MergeGroup(list, base, group, next)
  {
    list', next' := list, next;
    var existingIndex := FindByBase(list', base);
    if existingIndex >= 0 {
      var existing := list'[existingIndex];
      if group.vector.Some? && existing.vectorFile.None? {
        list' := list'[existingIndex := existing.(vectorFile := group.vector)];
      }
      if group.image.Some? && !IsImage(existing.file.name) {
        list' := list'[existingIndex := Promote(existing, group.image.value)];
      }
      assert list' == list[existingIndex := Merged(existing, group, IsImage(existing.file.name))];
    } else if group.image.Some? {
      list' := list' + [NewEntry(next', group.image.value, group.vector)];
      next' := next' + 1;
    } else if group.vector.Some? {
      list' := list' + [OrphanEntry(next', group.vector.value)];
      next' := next' + 1;
    }
  }

  lemma MergeAllSnoc(list: seq<UploadedFile>, entries: seq<(string, Group)>, e: (string, Group), nextId: Id)
    ensures var m := MergeAll(list, entries, nextId);
            MergeAll(list, entries + [e], nextId) == MergeGroup(m.0, e.0, e.1, m.1)
  {
    assert (entries + [e])[..|entries|] == entries;
  }

  /** Merging the groups of the first i + 1 keys is merging the group of
      key i after those of the first i. */
  lemma MergeNextKey(prev: seq<UploadedFile>, keys: seq<string>, files: seq<FileRef>, i: nat, nextId: Id)
    requires i < |keys|
    ensures var m := MergeAll(prev, EntriesFor(keys[..i], files), nextId);
            MergeAll(prev, EntriesFor(keys[..i + 1], files), nextId) == MergeGroup(m.0, keys[i], BatchGroup(files, keys[i]), m.1)
  {
    EntriesForSnoc(keys, files, i);
    MergeAllSnoc(prev, EntriesFor(keys[..i], files), (keys[i], BatchGroup(files, keys[i])), nextId);
  }

  lemma EntriesForSnoc(keys: seq<string>, files: seq<FileRef>, i: nat)
    requires i < |keys|
    ensures EntriesFor(keys[..i + 1], files) == EntriesFor(keys[..i], files) + [(keys[i], BatchGroup(files, keys[i]))]
  {
    assert keys[..i + 1][..i] == keys[..i];
  }

  /** `handleFilesSelected`: the grouping pass, then the merge pass over a
      copy of the list that overwrites matched slots and pushes new entries. */
  method HandleFilesSelected(prev: seq<UploadedFile>, incoming: seq<FileRef>, nextId: Id)
    returns (list: seq<UploadedFile>, next: Id)
    ensures (list, next) == PairFiles(prev, incoming, nextId)
  {
    var keys, groups := GroupByBasename(incoming);
    list, next := prev, nextId;
    for i := 0 to |keys|
      invariant (list, next) == MergeAll(prev, EntriesFor(keys[..i], incoming), nextId)
    {
      MergeNextKey(prev, keys, incoming, i, nextId);
      assert keys[i] in keys;
      list, next := MergeStep(list, next, keys[i], groups[keys[i]]);
    }
    assert keys[..|keys|] == keys;
  }

  // ---------------------------------------------------------------------
  // What pairing promises

  /** An old slot after pairing: same id, metadata, trend suggestions and
      basename; its status can only become IDLE, a new primary file comes
      from the batch, and a new companion vector is either a file of the
      batch or the demoted old primary. */
  predicate SameSlot(a: UploadedFile, b: UploadedFile, incoming: seq<FileRef>) {
    && b.id == a.id && b.metadata == a.metadata && b.trending == a.trending
    && Basename(b.file.name) == Basename(a.file.name)
    && (b.status == a.status || b.status == Idle)
    && (b.file == a.file || (b.file in incoming && IsImage(b.file.name)))
    && (b.vectorFile == a.vectorFile || b.vectorFile == Some(a.file)
        || (b.vectorFile.Some? && b.vectorFile.value in incoming))
  }

  /** next is prev with some slots updated, followed by new entries that
      carry the fresh ids n0, n0 + 1, ... and hold a supported file of the
      batch (and, if any, a companion vector of the batch), in the IDLE or
      ERROR state, without metadata. */
  predicate Extends(prev: seq<UploadedFile>, next: seq<UploadedFile>, n0: Id, n1: Id, incoming: seq<FileRef>) {
    && |prev| <= |next|
    && n1 == n0 + (|next| - |prev|)
    && (forall i :: 0 <= i < |prev| ==> SameSlot(prev[i], next[i], incoming))
    && (forall j :: |prev| <= j < |next| ==>
          && next[j].id == n0 + (j - |prev|)
          && next[j].metadata.None? && next[j].trending.None?
          && (next[j].status == Idle || next[j].status == Error)
          && next[j].file in incoming && Supported(next[j].file.name)
          && (next[j].vectorFile.Some? ==> next[j].vectorFile.value in incoming))
  }

  /** A group is well formed for a batch when its files come from the batch,
      carry the group's basename and are of the right kind. */
  predicate GroupFrom(base: string, g: Group, incoming: seq<FileRef>) {
    && (g.image.Some? ==> g.image.value in incoming && ImageOf(g.image.value, base))
    && (g.vector.Some? ==> g.vector.value in incoming && VectorOf(g.vector.value, base))
  }

  lemma MergeGroupExtends(list: seq<UploadedFile>, base: string, g: Group, nextId: Id, incoming: seq<FileRef>)
    requires GroupFrom(base, g, incoming)
    ensures Extends(list, MergeGroup(list, base, g, nextId).0, nextId, MergeGroup(list, base, g, nextId).1, incoming)
  {
    var (r, n) := MergeGroup(list, base, g, nextId);
    var idx := FindByBase(list, base);
    if idx >= 0 {
      var existing := list[idx];
      var e2 := Merged(existing, g, IsImage(existing.file.name));
      assert SameSlot(existing, e2, incoming);
      forall i | 0 <= i < |list| ensures SameSlot(list[i], r[i], incoming) {
        if i != idx { assert r[i] == list[i]; }
      }
    } else {
      assert r[..|list|] == list;
      forall i | 0 <= i < |list| ensures SameSlot(list[i], r[i], incoming) {
        assert r[i] == list[i];
      }
    }
  }

  lemma ExtendsTrans(a: seq<UploadedFile>, b: seq<UploadedFile>, c: seq<UploadedFile>,
                     n0: Id, n1: Id, n2: Id, incoming: seq<FileRef>)
    requires Extends(a, b, n0, n1, incoming) && Extends(b, c, n1, n2, incoming)
    ensures Extends(a, c, n0, n2, incoming)
  {
    forall j | |a| <= j < |c|
      ensures c[j].id == n0 + (j - |a|)
    {
      if j < |b| { assert SameSlot(b[j], c[j], incoming); }
    }
  }

  lemma {:induction false} MergeAllExtends(list: seq<UploadedFile>, entries: seq<(string, Group)>, nextId: Id, incoming: seq<FileRef>)
    requires forall i :: 0 <= i < |entries| ==> GroupFrom(entries[i].0, entries[i].1, incoming)
    ensures Extends(list, MergeAll(list, entries, nextId).0, nextId, MergeAll(list, entries, nextId).1, incoming)
    decreases |entries|
  {
    if entries != [] {
      var p := entries[..|entries| - 1];
      var (l, n) := MergeAll(list, p, nextId);
      MergeAllExtends(list, p, nextId, incoming);
      var e := entries[|entries| - 1];
      MergeGroupExtends(l, e.0, e.1, n, incoming);
      var (l2, n2) := MergeGroup(l, e.0, e.1, n);
      ExtendsTrans(list, l, l2, nextId, n, n2, incoming);
    }
  }

  lemma BatchGroupFrom(incoming: seq<FileRef>, base: string)
    ensures GroupFrom(base, BatchGroup(incoming, base), incoming)
  {
    LastVectorIsLast(incoming, base);
    LastImageIsLast(incoming, base);
  }

  /** Pairing never removes or reorders entries: the old list comes first,
      slot by slot with the same ids, metadata and basenames, followed by the
      new entries, whose ids are fresh and consecutive and whose files are
      supported files of the batch. */
  lemma PairingExtends(prev: seq<UploadedFile>, incoming: seq<FileRef>, nextId: Id)
    ensures Extends(prev, PairFiles(prev, incoming, nextId).0, nextId, PairFiles(prev, incoming, nextId).1, incoming)
  {
    var entries := BatchEntries(incoming);
    forall i | 0 <= i < |entries| ensures GroupFrom(entries[i].0, entries[i].1, incoming) {
      BatchGroupFrom(incoming, entries[i].0);
    }
    MergeAllExtends(prev, entries, nextId, incoming);
  }

  /** Ids stay pairwise distinct when new ids are drawn above every old one. */
  lemma PairingKeepsIdsUnique(prev: seq<UploadedFile>, incoming: seq<FileRef>, nextId: Id)
    requires forall i :: 0 <= i < |prev| ==> prev[i].id < nextId
    requires forall i, j :: 0 <= i < j < |prev| ==> prev[i].id != prev[j].id
    ensures var (l, n) := PairFiles(prev, incoming, nextId);
            (forall i :: 0 <= i < |l| ==> l[i].id < n)
            && (forall i, j :: 0 <= i < j < |l| ==> l[i].id != l[j].id)
  {
    PairingExtends(prev, incoming, nextId);
  }

  /** A batch without a single vector or image leaves the list as it was. */
  lemma UnsupportedFilesIgnored(prev: seq<UploadedFile>, incoming: seq<FileRef>, nextId: Id)
    requires forall i :: 0 <= i < |incoming| ==> !Supported(incoming[i].name)
    ensures PairFiles(prev, incoming, nextId) == (prev, nextId)
  {
    var entries := BatchEntries(incoming);
    forall i | 0 <= i < |entries| ensures entries[i].1 == Group(None, None) {
      LastVectorIsLast(incoming, entries[i].0);
      LastImageIsLast(incoming, entries[i].0);
    }
    MergeAllEmpty(prev, entries, nextId);
  }

  lemma {:induction false} MergeAllEmpty(list: seq<UploadedFile>, entries: seq<(string, Group)>, nextId: Id)
    requires forall i :: 0 <= i < |entries| ==> entries[i].1 == Group(None, None)
    ensures MergeAll(list, entries, nextId) == (list, nextId)
    decreases |entries|
  {
    if entries != [] {
      MergeAllEmpty(list, entries[..|entries| - 1], nextId);
      MergeEmptyGroup(list, entries[|entries| - 1].0, nextId);
    }
  }

  /** A group without files changes nothing. */
  lemma MergeEmptyGroup(list: seq<UploadedFile>, base: string, nextId: Id)
    ensures MergeGroup(list, base, Group(None, None), nextId) == (list, nextId)
  {
    var idx := FindByBase(list, base);
    if idx >= 0 {
      assert list[idx := list[idx]] == list;
    }
  }

  // ---------------------------------------------------------------------
  // Pairing across batches

  /** A batch of one file is one group. */
  lemma SingleFileBatch(prev: seq<UploadedFile>, f: FileRef, nextId: Id)
    ensures PairFiles(prev, [f], nextId) == MergeGroup(prev, Basename(f.name), BatchGroup([f], Basename(f.name)), nextId)
  {
    var b := Basename(f.name);
    assert [f][..0] == [];
    assert BatchKeys([f]) == [b];
    assert [b][..0] == [];
    var e := [(b, BatchGroup([f], b))];
    assert EntriesFor([b], [f]) == EntriesFor([], [f]) + e;
    assert BatchEntries([f]) == e;
    assert e[..0] == [];
    assert MergeAll(prev, e, nextId) == MergeGroup(prev, b, BatchGroup([f], b), nextId);
  }

  lemma SingleImageGroup(img: FileRef)
    requires IsImage(img.name)
    ensures BatchGroup([img], Basename(img.name)) == Group(Some(img), None)
  {
    ClassesDisjoint(img.name);
  }

  lemma SingleVectorGroup(vec: FileRef)
    requires IsVector(vec.name)
    ensures BatchGroup([vec], Basename(vec.name)) == Group(None, Some(vec))
  {
  }

  lemma ImageAlone(prev: seq<UploadedFile>, img: FileRef, nextId: Id)
    requires IsImage(img.name)
    requires FindByBase(prev, Basename(img.name)) < 0
    ensures PairFiles(prev, [img], nextId) == (prev + [NewEntry(nextId, img, None)], nextId + 1)
  {
    SingleFileBatch(prev, img, nextId);
    SingleImageGroup(img);
  }

  lemma VectorAlone(prev: seq<UploadedFile>, vec: FileRef, nextId: Id)
    requires IsVector(vec.name)
    requires FindByBase(prev, Basename(vec.name)) < 0
    ensures PairFiles(prev, [vec], nextId) == (prev + [OrphanEntry(nextId, vec)], nextId + 1)
  {
    SingleFileBatch(prev, vec, nextId);
    SingleVectorGroup(vec);
  }

  /** A lone vector for the last entry, which has none, is attached to it. */
  lemma AttachToLast(prev: seq<UploadedFile>, e: UploadedFile, base: string, vec: FileRef, n: Id)
    requires e.vectorFile.None?
    requires FindByBase(prev + [e], base) == |prev|
    ensures MergeGroup(prev + [e], base, Group(None, Some(vec)), n) == (prev + [e.(vectorFile := Some(vec))], n)
  {
    var list := prev + [e];
    assert list[|prev|] == e;
    assert list[|prev| := e.(vectorFile := Some(vec))] == prev + [e.(vectorFile := Some(vec))];
  }

  /** A lone image for the last entry, whose primary is not an image and
      which has a vector, promotes it. */
  lemma PromoteLast(prev: seq<UploadedFile>, e: UploadedFile, base: string, img: FileRef, n: Id)
    requires e.vectorFile.Some? && !IsImage(e.file.name)
    requires FindByBase(prev + [e], base) == |prev|
    ensures MergeGroup(prev + [e], base, Group(Some(img), None), n) == (prev + [Promote(e, img)], n)
  {
    var list := prev + [e];
    assert list[|prev|] == e;
    assert list[|prev| := Promote(e, img)] == prev + [Promote(e, img)];
  }

  lemma {:induction false} FindLastEntry(prev: seq<UploadedFile>, e: UploadedFile, base: string)
    requires FindByBase(prev, base) < 0 && Basename(e.file.name) == base
    ensures FindByBase(prev + [e], base) == |prev|
    decreases |prev|
  {
    if prev != [] {
      assert Basename(prev[0].file.name) != base;
      assert (prev + [e])[1..] == prev[1..] + [e];
      FindLastEntry(prev[1..], e, base);
    }
  }

  /** An image and a vector with the same basename, neither yet in the list,
      end up as one idle entry holding both when the image arrives first and
      the vector in a later batch. */
  lemma ImageThenVector(prev: seq<UploadedFile>, img: FileRef, vec: FileRef, nextId: Id)
    requires IsImage(img.name) && IsVector(vec.name)
    requires Basename(img.name) == Basename(vec.name)
    requires forall i :: 0 <= i < |prev| ==> Basename(prev[i].file.name) != Basename(img.name)
    ensures var (a1, n1) := PairFiles(prev, [img], nextId);
            var (a2, _) := PairFiles(a1, [vec], n1);
            |a2| == |prev| + 1 && a2[..|prev|] == prev
            && a2[|prev|].file == img && a2[|prev|].vectorFile == Some(vec)
            && a2[|prev|].status == Idle && a2[|prev|].error.None?
  {
    var b := Basename(img.name);
    ImageAlone(prev, img, nextId);
    var e := NewEntry(nextId, img, None);
    FindLastEntry(prev, e, b);
    SingleFileBatch(prev + [e], vec, nextId + 1);
    SingleVectorGroup(vec);
    AttachToLast(prev, e, b, vec, nextId + 1);
    assert (prev + [e.(vectorFile := Some(vec))])[..|prev|] == prev;
  }

  /** The same when the vector arrives first: the orphan is promoted. */
  lemma VectorThenImage(prev: seq<UploadedFile>, img: FileRef, vec: FileRef, nextId: Id)
    requires IsImage(img.name) && IsVector(vec.name)
    requires Basename(img.name) == Basename(vec.name)
    requires forall i :: 0 <= i < |prev| ==> Basename(prev[i].file.name) != Basename(img.name)
    ensures var (b1, m1) := PairFiles(prev, [vec], nextId);
            var (b2, _) := PairFiles(b1, [img], m1);
            |b2| == |prev| + 1 && b2[..|prev|] == prev
            && b2[|prev|].file == img && b2[|prev|].vectorFile == Some(vec)
            && b2[|prev|].status == Idle && b2[|prev|].error.None?
  {
    var b := Basename(img.name);
    VectorAlone(prev, vec, nextId);
    var e := OrphanEntry(nextId, vec);
    FindLastEntry(prev, e, b);
    SingleFileBatch(prev + [e], img, nextId + 1);
    SingleImageGroup(img);
    ClassesDisjoint(vec.name);
    PromoteLast(prev, e, b, img, nextId + 1);
    assert (prev + [Promote(e, img)])[..|prev|] == prev;
  }
}
