/** The ZIP export of App.tsx (`handleExportZip`): every completed asset
    with metadata gets a file name that no earlier asset of the export
    used, its companion vector gets the same base name, and a manifest
    `metadata.csv` lists one quoted row per asset. The archive is modelled
    as the list of (name, contents) entries written into it plus the
    manifest text. */
module Export {
  import opened Types
  import opened Text
  import opened Csv
  import Pairing

  datatype ZipEntry = ZipEntry(name: string, handle: nat)

  /** What one asset contributes: the base name chosen, the image entry,
      the vector entry if any, and the manifest row. */
  datatype Exported = Exported(base: string, image: ZipEntry, vector: Option<ZipEntry>, row: seq<string>)

  datatype Archive = Archive(entries: seq<ZipEntry>, manifest: string)

  const Header: seq<string> := ["Filename", "Title", "Description", "Keywords", "Category"]

  predicate Exportable(f: UploadedFile) { f.status == Completed && f.metadata.Some? }

  /** The assets exported, in list order. */
  function CompletedFiles(files: seq<UploadedFile>): (r: seq<UploadedFile>)
    ensures forall i :: 0 <= i < |r| ==> Exportable(r[i])
    ensures forall f :: f in r <==> f in files && Exportable(f)
    ensures IsSubsequence(r, files)
    ensures forall f :: multiset(r)[f] == if Exportable(f) then multiset(files)[f] else 0
  {
    FilterIsSubsequence(files, Exportable);
    FilterCount(files, Exportable);
    Filter(files, Exportable)
  }

  // ---------------------------------------------------------------------
  // File names

  /** `name.split('.').pop() || fallback`: the text after the last dot,
      the whole name when it has no dot, or the fallback when that text is
      empty. */
  function Extension(name: string, fallback: string): (r: string)
    requires fallback != [] && '.' !in fallback
    ensures r != [] && '.' !in r
  {
    var parts := Split(name, '.');
    var last := parts[|parts| - 1];
    if last == [] then fallback else last
  }

  /** The extension is the text after the last dot, or the fallback when
      that text is empty. */
  lemma ExtensionOf(name: string, fallback: string)
    requires fallback != [] && '.' !in fallback
    ensures var tail := name[LastIndexOf(name, '.') + 1..];
            Extension(name, fallback) == if tail == [] then fallback else tail
  {
    SplitLast(name, '.');
  }

  /** A name without a dot is its own extension. */
  lemma ExtensionNoDot(name: string, fallback: string)
    requires fallback != [] && '.' !in fallback
    requires name != [] && '.' !in name
    ensures Extension(name, fallback) == name
  {
    SplitNoSeparator(name, '.');
  }

  /** The characters `replace(/[^a-z0-9\s-]/gi, '')` keeps. */
  predicate SafeChar(c: char) { IsAsciiAlnum(c) || IsSpace(c) || c == '-' }

  predicate FileNameChar(c: char) { IsAsciiAlnum(c) || c == '-' || c == '_' }

  /** The title with unsafe characters dropped, the ends trimmed and each
      white-space run turned into `_`. */
  function SafeBase(title: string): string {
    CollapseSpaces(Trim(Filter(title, SafeChar)), '_')
  }

  /** The file name made from a title in rename mode: the safe base cut to
      at most 100 characters, and `image` when nothing is left. */
  function SafeTitle(title: string): (r: string)
    ensures 1 <= |r| <= 100
    ensures FileNameText(r)
    ensures SafeBase(title) == [] ==> r == "image"
    ensures SafeBase(title) != [] ==> r == Take(SafeBase(title), 100)
  {
    var joined := SafeBase(title);
    SafeJoined(title);
    var t := Take(joined, 100);
    TakeFileName(joined, 100);
    if t == [] then
      ImageFileName();
      "image"
    else t
  }

  lemma ImageFileName()
    ensures |"image"| == 5 && FileNameText("image")
  {
    var d := "image";
    assert d[0] == 'i' && d[1] == 'm' && d[2] == 'a' && d[3] == 'g' && d[4] == 'e';
  }

  /** A title of one to a hundred letters, digits and hyphens is its own
      file name. */
  lemma SafeTitleFixed(title: string)
    requires 1 <= |title| <= 100
    requires forall i :: 0 <= i < |title| ==> IsAsciiAlnum(title[i]) || title[i] == '-'
    ensures SafeTitle(title) == title
  {
    FilterAll(title, SafeChar);
    assert NoSpaceIn(title);
    SafeBaseOfPlain(title);
  }

  predicate NoSpaceIn(s: string) {
    forall i :: 0 <= i < |s| ==> !IsSpace(s[i])
  }

  lemma SafeBaseOfPlain(title: string)
    requires Filter(title, SafeChar) == title && NoSpaceIn(title)
    ensures SafeBase(title) == title
  {
    if title != [] {
      assert !IsSpace(title[0]) && !IsSpace(title[|title| - 1]);
    }
    TrimFixed(title);
    CollapseNoSpace(title, '_');
  }

  predicate FileNameText(s: string) {
    forall i :: 0 <= i < |s| ==> FileNameChar(s[i])
  }

  /** After the unsafe characters are dropped, the trimmed text with its
      white-space runs replaced by `_` holds only file-name characters. */
  lemma SafeJoined(title: string)
    ensures FileNameText(SafeBase(title))
  {
    var kept := Filter(title, SafeChar);
    TrimKeeps(kept);
  }

  lemma TakeFileName(s: string, n: nat)
    requires FileNameText(s)
    ensures FileNameText(Take(s, n))
  {
    var t := Take(s, n);
    assert forall i :: 0 <= i < |t| ==> t[i] == s[i];
  }

  /** The base of the original file name, used when not renaming. */
  function CandidateBase(f: UploadedFile, rename: bool): string
    requires f.metadata.Some?
  {
    if rename then SafeTitle(f.metadata.value.title) else Pairing.Basename(f.file.name)
  }

  /** The k-th base tried: the candidate itself, then `candidate_1`,
      `candidate_2`, ... */
  function Attempt(cand: string, k: nat): string {
    if k == 0 then cand else cand + "_" + NatToString(k)
  }

  function Name(cand: string, k: nat, ext: string): string {
    Attempt(cand, k) + "." + ext
  }

  lemma AttemptInjective(cand: string, i: nat, j: nat)
    ensures Attempt(cand, i) == Attempt(cand, j) ==> i == j
  {
    if Attempt(cand, i) == Attempt(cand, j) && i != 0 && j != 0 {
      var a := Attempt(cand, i);
      assert NatToString(i) == a[|cand| + 1..];
      assert NatToString(j) == a[|cand| + 1..];
      NatToStringInjective(i, j);
    }
  }

  /** The last dot of a name separates the base tried from the extension. */
  lemma NameParts(cand: string, k: nat, ext: string)
    requires '.' !in ext
    ensures var n := Name(cand, k, ext);
            LastIndexOf(n, '.') == |Attempt(cand, k)|
            && n[..|Attempt(cand, k)|] == Attempt(cand, k)
            && n[|Attempt(cand, k)| + 1..] == ext
  {
    var n := Name(cand, k, ext);
    var a := Attempt(cand, k);
    assert n == a + (['.'] + ext);
    assert n[|a|] == '.';
    assert forall j :: |a| < j < |n| ==> n[j] == ext[j - |a| - 1];
    assert forall j :: |a| < j < |n| ==> n[j] != '.';
    var r := LastIndexOf(n, '.');
    assert r >= |a|;
  }

  /** Two names are equal only when they were made from the same attempt
      and the same extension. */
  lemma NameInjective(cand: string, i: nat, x: string, j: nat, y: string)
    requires '.' !in x && '.' !in y
    ensures Name(cand, i, x) == Name(cand, j, y) ==> i == j && x == y
  {
    NameParts(cand, i, x);
    NameParts(cand, j, y);
    AttemptInjective(cand, i, j);
  }

  /** The names numbered below k. */
  function Images(g: nat -> string, k: nat): set<string> {
    set j | 0 <= j < k :: g(j)
  }

  /** An injective numbering of names has as many names as numbers. */
  lemma {:induction false} InjectiveCount(g: nat -> string, k: nat)
    requires forall i, j :: 0 <= i < j < k ==> g(i) != g(j)
    ensures |Images(g, k)| == k
  {
    if k > 0 {
      InjectiveCount(g, k - 1);
      ImagesSnoc(g, k);
      NotAmongImages(g, k - 1, g(k - 1));
    }
  }

  lemma NotAmongImages(g: nat -> string, k: nat, y: string)
    requires forall j :: 0 <= j < k ==> g(j) != y
    ensures y !in Images(g, k)
  {
  }

  lemma ImagesSnoc(g: nat -> string, k: nat)
    requires k > 0
    ensures Images(g, k) == Images(g, k - 1) + {g(k - 1)}
  {
  }

  lemma SubsetCard(a: set<string>, b: set<string>)
    requires a <= b
    ensures |a| <= |b|
  {
    assert b == a + (b - a);
    assert a * (b - a) == {};
  }

  /** At most |used| attempts can be taken. */
  lemma AttemptsBound(cand: string, ext: string, used: set<string>, k: nat)
    requires '.' !in ext
    requires forall j :: 0 <= j < k ==> Name(cand, j, ext) in used
    ensures k <= |used|
  {
    var g := (j: nat) => Name(cand, j, ext);
    forall i, j | 0 <= i < j < k ensures g(i) != g(j) {
      NameInjective(cand, i, ext, j, ext);
    }
    InjectiveCount(g, k);
    SubsetCard(Images(g, k), used);
  }

  /** The first attempt from k on whose name is not used yet. */
  function FirstFree(cand: string, ext: string, used: set<string>, k: nat): (r: nat)
    requires '.' !in ext
    requires forall j :: 0 <= j < k ==> Name(cand, j, ext) in used
    ensures k <= r
    ensures Name(cand, r, ext) !in used
    ensures forall j :: 0 <= j < r ==> Name(cand, j, ext) in used
    decreases |used| - k
  {
    AttemptsBound(cand, ext, used, k);
    if Name(cand, k, ext) in used then
      AttemptsBound(cand, ext, used, k + 1);
      FirstFree(cand, ext, used, k + 1)
    else k
  }

  /** The first free attempt is the only one that is free with every
      earlier one taken. */
  lemma FirstFreeUnique(cand: string, ext: string, used: set<string>, k: nat)
    requires '.' !in ext
    requires Name(cand, k, ext) !in used
    requires forall j :: 0 <= j < k ==> Name(cand, j, ext) in used
    ensures FirstFree(cand, ext, used, 0) == k
  {
  }

  // ---------------------------------------------------------------------
  // The export as written

  /** One asset given the image names already used. */
  function ExportAsset(f: UploadedFile, rename: bool, used: set<string>): (r: Exported)
    requires Exportable(f)
    ensures r.image.name !in used && r.image.handle == f.file.handle
    ensures r.image.name == r.base + "." + Extension(f.file.name, "jpg")
    ensures r.vector.Some? <==> f.vectorFile.Some?
    ensures f.vectorFile.Some? ==>
              r.vector.value == ZipEntry(r.base + "." + Extension(f.vectorFile.value.name, "eps"), f.vectorFile.value.handle)
    ensures var m := f.metadata.value;
            r.row == [r.image.name, m.title, m.description, Join(m.keywords, ", "), m.category]
  {
    var m := f.metadata.value;
    var ext := Extension(f.file.name, "jpg");
    var cand := CandidateBase(f, rename);
    var base := Attempt(cand, FirstFree(cand, ext, used, 0));
    var image := ZipEntry(base + "." + ext, f.file.handle);
    var vector := if f.vectorFile.Some? then Some(ZipEntry(base + "." + Extension(f.vectorFile.value.name, "eps"), f.vectorFile.value.handle)) else None;
    Exported(base, image, vector, [image.name, m.title, m.description, Join(m.keywords, ", "), m.category])
  }

  function ImageNames(xs: seq<Exported>): set<string> {
    set i | 0 <= i < |xs| :: xs[i].image.name
  }

  /** Items handled one after the other by `step`, each given the image
      names of the results before it. */
  function Chain(items: seq<UploadedFile>, step: (UploadedFile, set<string>) --> Exported): (xs: seq<Exported>)
    requires forall i, u :: 0 <= i < |items| ==> step.requires(items[i], u)
    ensures |xs| == |items|
  {
    if items == [] then []
    else
      var prev := Chain(items[..|items| - 1], step);
      prev + [step(items[|items| - 1], ImageNames(prev))]
  }

  function AssetStep(rename: bool): (UploadedFile, set<string>) --> Exported {
    (f: UploadedFile, used: set<string>) requires Exportable(f) => ExportAsset(f, rename, used)
  }

  /** The assets one after the other; each sees the image names of the
      assets before it. The vector names are not recorded. */
  function ExportAll(items: seq<UploadedFile>, rename: bool): (xs: seq<Exported>)
    requires forall i :: 0 <= i < |items| ==> Exportable(items[i])
    ensures |xs| == |items|
  {
    Chain(items, AssetStep(rename))
  }

  function EntriesOf(x: Exported): seq<ZipEntry> {
    [x.image] + (if x.vector.Some? then [x.vector.value] else [])
  }

  function ZipEntries(xs: seq<Exported>): seq<ZipEntry> {
    if xs == [] then [] else ZipEntries(xs[..|xs| - 1]) + EntriesOf(xs[|xs| - 1])
  }

  function Rows(xs: seq<Exported>): (rows: seq<seq<string>>)
    ensures |rows| == |xs|
    ensures forall i :: 0 <= i < |xs| ==> rows[i] == xs[i].row
  {
    if xs == [] then [] else Rows(xs[..|xs| - 1]) + [xs[|xs| - 1].row]
  }

  /** The archive, or None when nothing is completed with metadata. */
  function ExportZip(files: seq<UploadedFile>, rename: bool): (r: Option<Archive>)
    ensures r.None? <==> CompletedFiles(files) == []
  {
    var items := CompletedFiles(files);
    if items == [] then None
    else
      var xs := ExportAll(items, rename);
      Some(Archive(ZipEntries(xs), Document(Header, Rows(xs))))
  }

  lemma ImageNamesSnoc(xs: seq<Exported>, x: Exported)
    ensures ImageNames(xs + [x]) == ImageNames(xs) + {x.image.name}
  {
    var ys := xs + [x];
    forall n | n in ImageNames(ys) ensures n in ImageNames(xs) + {x.image.name} {
      var i :| 0 <= i < |ys| && ys[i].image.name == n;
      if i < |xs| { assert ys[i] == xs[i]; }
    }
    forall n | n in ImageNames(xs) ensures n in ImageNames(ys) {
      var i :| 0 <= i < |xs| && xs[i].image.name == n;
      assert ys[i] == xs[i];
    }
    assert ys[|xs|] == x;
  }

  /** The collision loop: `_1`, `_2`, ... appended to the candidate until
      the image name is not in the set of used names. */
  method FreeBase(cand: string, ext: string, used: set<string>) returns (finalBase: string)
    requires '.' !in ext
    ensures finalBase == Attempt(cand, FirstFree(cand, ext, used, 0))
    ensures finalBase + "." + ext !in used
  {
    finalBase := cand;
    var counter := 1;
    while finalBase + "." + ext in used
      invariant 1 <= counter && finalBase == Attempt(cand, counter - 1)
      invariant forall j :: 0 <= j < counter - 1 ==> Name(cand, j, ext) in used
      decreases |used| - (counter - 1)
    {
      AttemptsBound(cand, ext, used, counter);
      finalBase := cand + "_" + NatToString(counter);
      counter := counter + 1;
    }
    FirstFreeUnique(cand, ext, used, counter - 1);
  }

  /** The body of the `forEach`: one asset's names, its archive entries and
      its manifest row, with the image name added to the used set. */
  method ExportStep(f: UploadedFile, rename: bool, used: set<string>, entries: seq<ZipEntry>, rows: seq<seq<string>>)
    returns (used': set<string>, entries': seq<ZipEntry>, rows': seq<seq<string>>)
    requires Exportable(f)
    ensures var x := ExportAsset(f, rename, used);
            && used' == used + {x.image.name}
            && entries' == entries + EntriesOf(x)
            && rows' == rows + [x.row]
  {
    var m := f.metadata.value;
    var ext := Extension(f.file.name, "jpg");
    var cand := CandidateBase(f, rename);
    var finalBase := FreeBase(cand, ext, used);
    ghost var x := ExportAsset(f, rename, used);
    assert finalBase == x.base;
    var imageFilename := finalBase + "." + ext;
    used' := used + {imageFilename};
    entries' := entries + [ZipEntry(imageFilename, f.file.handle)];
    ghost var extra: seq<ZipEntry> := [];
    if f.vectorFile.Some? {
      var vectorExt := Extension(f.vectorFile.value.name, "eps");
      entries' := entries' + [ZipEntry(finalBase + "." + vectorExt, f.vectorFile.value.handle)];
      extra := [x.vector.value];
    }
    EntriesOfSplit(x, entries, extra);
    rows' := rows + [[imageFilename, m.title, m.description, Join(m.keywords, ", "), m.category]];
  }

  lemma EntriesOfSplit(x: Exported, entries: seq<ZipEntry>, extra: seq<ZipEntry>)
    requires extra == if x.vector.Some? then [x.vector.value] else []
    ensures entries + EntriesOf(x) == entries + [x.image] + extra
  {
  }

  /** `handleExportZip`: the `forEach` over the completed assets with the
      mutable set of used names. */
  method HandleExportZip(files: seq<UploadedFile>, rename: bool) returns (r: Option<Archive>)
    ensures r == ExportZip(files, rename)
  {
    var items := CompletedFiles(files);
    if |items| == 0 {
      return None;
    }
    var used: set<string> := {};
    var entries: seq<ZipEntry> := [];
    var rows: seq<seq<string>> := [];
    ghost var done: seq<Exported> := [];
    for i := 0 to |items|
      invariant done == ExportAll(items[..i], rename)
      invariant used == ImageNames(done)
      invariant entries == ZipEntries(done)
      invariant rows == Rows(done)
    {
      ghost var x := ExportAsset(items[i], rename, used);
      used, entries, rows := ExportStep(items[i], rename, used, entries, rows);
      ExportAllSnoc(items, rename, i);
      ImageNamesSnoc(done, x);
      ZipEntriesSnoc(done, x);
      done := done + [x];
    }
    assert items[..|items|] == items;
    r := Some(Archive(entries, Document(Header, rows)));
  }

  // ---------------------------------------------------------------------
  // What the export promises

  predicate DistinctImageNames(xs: seq<Exported>) {
    forall i, j :: 0 <= i < j < |xs| ==> xs[i].image.name != xs[j].image.name
  }

  /** The image names of an export are pairwise distinct. */
  lemma {:induction false} ImageNamesDistinct(items: seq<UploadedFile>, rename: bool)
    requires forall i :: 0 <= i < |items| ==> Exportable(items[i])
    ensures DistinctImageNames(ExportAll(items, rename))
  {
    if items != [] {
      var p := items[..|items| - 1];
      ImageNamesDistinct(p, rename);
      var prev := ExportAll(p, rename);
      var xs := ExportAll(items, rename);
      var last := ExportAsset(items[|items| - 1], rename, ImageNames(prev));
      assert xs == prev + [last];
      forall i, j | 0 <= i < j < |xs| ensures xs[i].image.name != xs[j].image.name {
        assert xs[i] == prev[i];
        if j < |prev| {
          assert xs[j] == prev[j];
          assert prev[i].image.name != prev[j].image.name;
        } else {
          assert xs[j] == last;
          assert last.image.name !in ImageNames(prev);
          assert prev[i].image.name in ImageNames(prev);
        }
      }
    }
  }

  /** Each asset's image and vector share one base: the candidate or the
      first of `candidate_1`, `candidate_2`, ... whose image name was not
      taken by an earlier asset. */
  lemma {:induction false} SharedBase(items: seq<UploadedFile>, rename: bool, i: nat)
    requires forall i :: 0 <= i < |items| ==> Exportable(items[i])
    requires i < |items|
    ensures var xs := ExportAll(items, rename);
            var f := items[i];
            var cand := CandidateBase(f, rename);
            var ext := Extension(f.file.name, "jpg");
            var used := ImageNames(xs[..i]);
            && xs[i].base == Attempt(cand, FirstFree(cand, ext, used, 0))
            && xs[i].image.name == xs[i].base + "." + ext
            && (f.vectorFile.Some? ==> xs[i].vector.Some? && xs[i].vector.value.name == xs[i].base + "." + Extension(f.vectorFile.value.name, "eps"))
  {
    ExportAllAt(items, rename, i);
  }

  lemma ChainDropLast(items: seq<UploadedFile>, step: (UploadedFile, set<string>) --> Exported)
    requires forall i, u :: 0 <= i < |items| ==> step.requires(items[i], u)
    requires items != []
    ensures Chain(items, step)[..|items| - 1] == Chain(items[..|items| - 1], step)
  {
  }

  /** A prefix of the items is handled as the same prefix. */
  lemma {:induction false} ChainPrefix(items: seq<UploadedFile>, step: (UploadedFile, set<string>) --> Exported, n: nat)
    requires forall i, u :: 0 <= i < |items| ==> step.requires(items[i], u)
    requires n <= |items|
    ensures Chain(items[..n], step) == Chain(items, step)[..n]
    decreases |items|
  {
    if n < |items| {
      var k := |items| - 1;
      var p := items[..k];
      ChainPrefix(p, step, n);
      assert items[..n] == p[..n];
      ChainDropLast(items, step);
      var xs := Chain(items, step);
      assert xs[..k][..n] == xs[..n];
    } else {
      assert items[..n] == items;
    }
  }

  /** Item i is handled given the image names of the results before it. */
  lemma ChainAt(items: seq<UploadedFile>, step: (UploadedFile, set<string>) --> Exported, i: nat)
    requires forall i, u :: 0 <= i < |items| ==> step.requires(items[i], u)
    requires i < |items|
    ensures Chain(items, step)[i] == step(items[i], ImageNames(Chain(items, step)[..i]))
  {
    ChainPrefix(items, step, i + 1);
    ChainPrefix(items, step, i);
    var q := items[..i + 1];
    assert q[..|q| - 1] == items[..i];
    assert q[|q| - 1] == items[i];
  }

  /** The export of a non-empty list is that of all but the last asset,
      followed by the last asset given their image names. */
  lemma ExportAllLast(items: seq<UploadedFile>, rename: bool)
    requires forall i :: 0 <= i < |items| ==> Exportable(items[i])
    requires items != []
    ensures var p := items[..|items| - 1];
            ExportAll(items, rename)
              == ExportAll(p, rename) + [ExportAsset(items[|items| - 1], rename, ImageNames(ExportAll(p, rename)))]
  {
  }

  /** Exporting one more item appends that item's export. */
  lemma ExportAllSnoc(items: seq<UploadedFile>, rename: bool, n: nat)
    requires forall i :: 0 <= i < |items| ==> Exportable(items[i])
    requires n < |items|
    ensures ExportAll(items[..n + 1], rename)
              == ExportAll(items[..n], rename) + [ExportAsset(items[n], rename, ImageNames(ExportAll(items[..n], rename)))]
  {
    var q := items[..n + 1];
    assert q[..|q| - 1] == items[..n];
    assert q[|q| - 1] == items[n];
    ExportAllLast(q, rename);
  }

  /** Asset i is exported given the image names of the assets before it. */
  lemma ExportAllAt(items: seq<UploadedFile>, rename: bool, i: nat)
    requires forall i :: 0 <= i < |items| ==> Exportable(items[i])
    requires i < |items|
    ensures ExportAll(items, rename)[i] == ExportAsset(items[i], rename, ImageNames(ExportAll(items, rename)[..i]))
  {
    ChainAt(items, AssetStep(rename), i);
  }

  /** In rename mode every base holds only ASCII letters, digits, `-` and
      `_`, and the candidate it grows from has 1 to 100 characters. */
  lemma RenamedBaseSafe(f: UploadedFile, k: nat)
    requires f.metadata.Some?
    ensures 1 <= |CandidateBase(f, true)| <= 100
    ensures FileNameText(Attempt(CandidateBase(f, true), k))
  {
    var c := CandidateBase(f, true);
    if k > 0 {
      var d := NatToString(k);
      assert FileNameText(d) by {
        assert forall i :: 0 <= i < |d| ==> IsDigit(d[i]);
      }
      assert FileNameText("_") by { assert "_"[0] == '_'; }
      FileNameConcat(c, "_");
      FileNameConcat(c + "_", d);
    }
  }

  lemma FileNameConcat(a: string, b: string)
    requires FileNameText(a) && FileNameText(b)
    ensures FileNameText(a + b)
  {
    assert forall i :: 0 <= i < |a + b| ==> (a + b)[i] == (if i < |a| then a[i] else b[i - |a|]);
  }

  /** The manifest reads back as the header followed by one row per
      exported asset, in list order. */
  lemma ManifestRoundTrip(files: seq<UploadedFile>, rename: bool)
    requires ExportZip(files, rename).Some?
    ensures ParseRecords(ExportZip(files, rename).value.manifest)
              == Some([Header] + Rows(ExportAll(CompletedFiles(files), rename)))
  {
    var items := CompletedFiles(files);
    var xs := ExportAll(items, rename);
    var rows := Rows(xs);
    forall i | 0 <= i < |rows| ensures |rows[i]| >= 1 {
      SharedBaseRow(items, rename, i);
    }
    assert ExportZip(files, rename).value.manifest == Document(Header, rows);
    HeaderPlain();
    DocumentRoundTrip(Header, rows);
  }

  /** The header names need no quoting. */
  lemma HeaderPlain()
    ensures forall i :: 0 <= i < |Header| ==> IsPlain(Header[i])
  {
    assert Header[0] == "Filename" && Header[1] == "Title" && Header[2] == "Description";
    assert Header[3] == "Keywords" && Header[4] == "Category";
  }

  /** Row i of the manifest is the i-th exported asset's image file name,
      title, description, keywords joined with ", ", and category. */
  lemma ManifestRows(files: seq<UploadedFile>, rename: bool, i: nat)
    requires i < |CompletedFiles(files)|
    ensures var items := CompletedFiles(files);
            var xs := ExportAll(items, rename);
            var m := items[i].metadata.value;
            Rows(xs)[i] == [xs[i].image.name, m.title, m.description, Join(m.keywords, ", "), m.category]
  {
    SharedBaseRow(CompletedFiles(files), rename, i);
  }

  lemma SharedBaseRow(items: seq<UploadedFile>, rename: bool, i: nat)
    requires forall i :: 0 <= i < |items| ==> Exportable(items[i])
    requires i < |items|
    ensures var xs := ExportAll(items, rename);
            var m := items[i].metadata.value;
            xs[i].row == [xs[i].image.name, m.title, m.description, Join(m.keywords, ", "), m.category]
  {
    ExportAllAt(items, rename, i);
  }

  // ---------------------------------------------------------------------
  // Vector names are not checked for collisions

  lemma DistinctExtensionNames(cand: string, x: string, y: string)
    requires x != y
    ensures cand + "." + x != cand + "." + y
  {
    var a := cand + "." + x;
    var b := cand + "." + y;
    assert a[|cand| + 1..] == x;
    assert b[|cand| + 1..] == y;
  }

  /** Two assets whose candidates agree and whose images have different
      extensions keep the same base, so their vectors get the same name and
      the second vector overwrites the first in the archive. */
  lemma VectorNamesCollide(a: UploadedFile, b: UploadedFile, rename: bool)
    requires Exportable(a) && Exportable(b)
    requires a.vectorFile.Some? && b.vectorFile.Some?
    requires CandidateBase(a, rename) == CandidateBase(b, rename)
    requires Extension(a.file.name, "jpg") != Extension(b.file.name, "jpg")
    requires Extension(a.vectorFile.value.name, "eps") == Extension(b.vectorFile.value.name, "eps")
    ensures var xs := ExportAll([a, b], rename);
            xs[0].vector.Some? && xs[1].vector.Some? && xs[0].vector.value.name == xs[1].vector.value.name
  {
    var cand := CandidateBase(a, rename);
    var ea := Extension(a.file.name, "jpg");
    var x0 := ExportSingle(a, rename);
    var x1 := ExportSecond(a, b, rename, x0);
    DistinctExtensionNames(cand, Extension(b.file.name, "jpg"), ea);
    FreshCandidate(b, rename, {cand + "." + ea});
  }

  /** An asset whose candidate name is free keeps the candidate as base. */
  lemma FreshCandidate(f: UploadedFile, rename: bool, used: set<string>)
    requires Exportable(f)
    requires CandidateBase(f, rename) + "." + Extension(f.file.name, "jpg") !in used
    ensures ExportAsset(f, rename, used).base == CandidateBase(f, rename)
  {
    FirstFreeUnique(CandidateBase(f, rename), Extension(f.file.name, "jpg"), used, 0);
  }

  /** The second of two assets sees the first one's image name. */
  lemma ExportSecond(a: UploadedFile, b: UploadedFile, rename: bool, x0: Exported) returns (x1: Exported)
    requires Exportable(a) && Exportable(b)
    requires ExportAll([a], rename) == [x0]
    ensures x1 == ExportAsset(b, rename, {x0.image.name})
    ensures ExportAll([a, b], rename) == [x0, x1]
  {
    x1 := ExportAsset(b, rename, {x0.image.name});
    assert ImageNames([x0]) == {x0.image.name} by {
      ImageNamesSnoc([], x0);
      assert [] + [x0] == [x0];
    }
    assert [a, b][..1] == [a];
    ExportAllLast([a, b], rename);
    AppendOne(ExportAll([a, b], rename), [x0], x1);
  }

  lemma AppendOne(xs: seq<Exported>, p: seq<Exported>, x: Exported)
    requires xs == p + [x]
    ensures |p| == 1 ==> xs == [p[0], x]
  {
  }

  /** Alone in the export, an asset keeps its candidate base. */
  lemma ExportSingle(a: UploadedFile, rename: bool) returns (x0: Exported)
    requires Exportable(a)
    ensures ExportAll([a], rename) == [x0]
    ensures x0 == ExportAsset(a, rename, {})
    ensures x0.base == CandidateBase(a, rename)
    ensures x0.image.name == CandidateBase(a, rename) + "." + Extension(a.file.name, "jpg")
  {
    x0 := ExportAsset(a, rename, {});
    FirstFreeUnique(CandidateBase(a, rename), Extension(a.file.name, "jpg"), {}, 0);
    assert [a][..0] == [];
    ExportAllLast([a], rename);
    assert ImageNames([]) == {};
  }

  // ---------------------------------------------------------------------
  // The export with vector names reserved as well

  function AllNames(xs: seq<Exported>): set<string> {
    set e | e in ZipEntries(xs) :: e.name
  }

  /** The vector extension of an asset, if it has a vector. */
  function VectorExtension(f: UploadedFile): Option<string> {
    if f.vectorFile.Some? then Some(Extension(f.vectorFile.value.name, "eps")) else None
  }

  /** Attempt k is free when neither the image name nor the vector name it
      gives is taken. */
  predicate PairFree(cand: string, ext: string, vext: Option<string>, used: set<string>, k: nat) {
    Name(cand, k, ext) !in used && (vext.None? || Name(cand, k, vext.value) !in used)
  }

  /** The name attempt j takes from `used` when it is not free. */
  function TakenName(cand: string, ext: string, vext: Option<string>, used: set<string>, j: nat): string {
    if Name(cand, j, ext) in used || vext.None? then Name(cand, j, ext) else Name(cand, j, vext.value)
  }

  lemma PairAttemptsBound(cand: string, ext: string, vext: Option<string>, used: set<string>, k: nat)
    requires '.' !in ext && (vext.Some? ==> '.' !in vext.value)
    requires forall j :: 0 <= j < k ==> !PairFree(cand, ext, vext, used, j)
    ensures k <= |used|
  {
    var g := (j: nat) => TakenName(cand, ext, vext, used, j);
    forall i, j | 0 <= i < j < k ensures g(i) != g(j) {
      var x := if Name(cand, i, ext) in used || vext.None? then ext else vext.value;
      var y := if Name(cand, j, ext) in used || vext.None? then ext else vext.value;
      NameInjective(cand, i, x, j, y);
    }
    InjectiveCount(g, k);
    forall j | 0 <= j < k ensures g(j) in used {
      assert !PairFree(cand, ext, vext, used, j);
    }
    SubsetCard(Images(g, k), used);
  }

  function FirstPairFree(cand: string, ext: string, vext: Option<string>, used: set<string>, k: nat): (r: nat)
    requires '.' !in ext && (vext.Some? ==> '.' !in vext.value)
    requires forall j :: 0 <= j < k ==> !PairFree(cand, ext, vext, used, j)
    ensures k <= r && PairFree(cand, ext, vext, used, r)
    ensures forall j :: 0 <= j < r ==> !PairFree(cand, ext, vext, used, j)
    decreases |used| - k
  {
    PairAttemptsBound(cand, ext, vext, used, k);
    if !PairFree(cand, ext, vext, used, k) then
      PairAttemptsBound(cand, ext, vext, used, k + 1);
      FirstPairFree(cand, ext, vext, used, k + 1)
    else k
  }

  /** One asset, skipping every base whose image or vector name is taken. */
  function ExportAssetPaired(f: UploadedFile, rename: bool, used: set<string>): (r: Exported)
    requires Exportable(f)
    ensures r.image.name !in used && r.image.handle == f.file.handle
    ensures r.image.name == r.base + "." + Extension(f.file.name, "jpg")
    ensures r.vector.Some? <==> f.vectorFile.Some?
    ensures f.vectorFile.Some? ==>
              r.vector.value.name !in used
              && r.vector.value == ZipEntry(r.base + "." + Extension(f.vectorFile.value.name, "eps"), f.vectorFile.value.handle)
    ensures var m := f.metadata.value;
            r.row == [r.image.name, m.title, m.description, Join(m.keywords, ", "), m.category]
  {
    var m := f.metadata.value;
    var ext := Extension(f.file.name, "jpg");
    var cand := CandidateBase(f, rename);
    var base := Attempt(cand, FirstPairFree(cand, ext, VectorExtension(f), used, 0));
    var image := ZipEntry(base + "." + ext, f.file.handle);
    var vector := if f.vectorFile.Some? then Some(ZipEntry(base + "." + Extension(f.vectorFile.value.name, "eps"), f.vectorFile.value.handle)) else None;
    Exported(base, image, vector, [image.name, m.title, m.description, Join(m.keywords, ", "), m.category])
  }

  /** Each asset sees every name written before it, images and vectors. */
  function ExportAllPaired(items: seq<UploadedFile>, rename: bool): (xs: seq<Exported>)
    requires forall i :: 0 <= i < |items| ==> Exportable(items[i])
    ensures |xs| == |items|
  {
    if items == [] then []
    else
      var prev := ExportAllPaired(items[..|items| - 1], rename);
      prev + [ExportAssetPaired(items[|items| - 1], rename, AllNames(prev))]
  }

  predicate DistinctNames(es: seq<ZipEntry>) {
    forall i, j :: 0 <= i < j < |es| ==> es[i].name != es[j].name
  }

  lemma ZipEntriesSnoc(xs: seq<Exported>, x: Exported)
    ensures ZipEntries(xs + [x]) == ZipEntries(xs) + EntriesOf(x)
  {
    assert (xs + [x])[..|xs|] == xs;
  }

  function EntryNames(es: seq<ZipEntry>): set<string> {
    set e | e in es :: e.name
  }

  lemma DistinctConcat(a: seq<ZipEntry>, b: seq<ZipEntry>)
    requires DistinctNames(a) && DistinctNames(b)
    requires forall k :: 0 <= k < |b| ==> b[k].name !in EntryNames(a)
    ensures DistinctNames(a + b)
  {
    var all := a + b;
    forall i, j | 0 <= i < j < |all| ensures all[i].name != all[j].name {
      if i < |a| && j >= |a| {
        assert all[i] in a;
        assert all[j] == b[j - |a|];
      } else if i >= |a| {
        assert all[i] == b[i - |a|] && all[j] == b[j - |a|];
      }
    }
  }

  /** The entries of one asset of the paired export have distinct names
      none of which was used before. */
  lemma PairedEntriesFresh(f: UploadedFile, rename: bool, used: set<string>)
    requires Exportable(f)
    requires f.vectorFile.Some? ==> Extension(f.file.name, "jpg") != Extension(f.vectorFile.value.name, "eps")
    ensures var es := EntriesOf(ExportAssetPaired(f, rename, used));
            DistinctNames(es) && forall k :: 0 <= k < |es| ==> es[k].name !in used
  {
    var x := ExportAssetPaired(f, rename, used);
    if f.vectorFile.Some? {
      DistinctExtensionNames(x.base, Extension(f.file.name, "jpg"), Extension(f.vectorFile.value.name, "eps"));
    }
  }

  /** With the vector names reserved too, no two entries of the archive
      share a name, provided each asset's image and vector extensions
      differ. */
  lemma {:induction false} PairedNamesDistinct(items: seq<UploadedFile>, rename: bool)
    requires forall i :: 0 <= i < |items| ==> Exportable(items[i])
    requires forall i :: 0 <= i < |items| && items[i].vectorFile.Some? ==>
               Extension(items[i].file.name, "jpg") != Extension(items[i].vectorFile.value.name, "eps")
    ensures DistinctNames(ZipEntries(ExportAllPaired(items, rename)))
  {
    if items != [] {
      var p := items[..|items| - 1];
      PairedNamesDistinct(p, rename);
      var prev := ExportAllPaired(p, rename);
      var f := items[|items| - 1];
      var x := ExportAssetPaired(f, rename, AllNames(prev));
      assert ExportAllPaired(items, rename) == prev + [x];
      ZipEntriesSnoc(prev, x);
      PairedEntriesFresh(f, rename, AllNames(prev));
      assert AllNames(prev) == EntryNames(ZipEntries(prev));
      DistinctConcat(ZipEntries(prev), EntriesOf(x));
    }
  }

  predicate VectorExtensionsDiffer(items: seq<UploadedFile>) {
    forall f :: f in items && f.vectorFile.Some? ==>
      Extension(f.file.name, "jpg") != Extension(f.vectorFile.value.name, "eps")
  }

  lemma PairedExportDistinct(items: seq<UploadedFile>, rename: bool)
    requires forall i :: 0 <= i < |items| ==> Exportable(items[i])
    ensures VectorExtensionsDiffer(items) ==> DistinctNames(ZipEntries(ExportAllPaired(items, rename)))
  {
    if VectorExtensionsDiffer(items) {
      forall i | 0 <= i < |items| && items[i].vectorFile.Some?
        ensures Extension(items[i].file.name, "jpg") != Extension(items[i].vectorFile.value.name, "eps") {
        assert items[i] in items;
      }
      PairedNamesDistinct(items, rename);
    }
  }

  /** The archive of the paired export: none when nothing is completed
      with metadata; otherwise no two of its entries share a name whenever
      no asset's vector has its image's extension. */
  function ExportZipPaired(files: seq<UploadedFile>, rename: bool): (r: Option<Archive>)
    ensures r.None? <==> CompletedFiles(files) == []
    ensures r.Some? && VectorExtensionsDiffer(CompletedFiles(files)) ==> DistinctNames(r.value.entries)
  {
    var items := CompletedFiles(files);
    if items == [] then None
    else
      var xs := ExportAllPaired(items, rename);
      PairedExportDistinct(items, rename);
      Some(Archive(ZipEntries(xs), Document(Header, Rows(xs))))
  }
}
