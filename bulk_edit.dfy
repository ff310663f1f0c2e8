/** Bulk editing of the selected assets (`handleBulkApply` in App.tsx):
    keyword actions add, remove, replace or clear keywords ignoring case;
    title actions set, extend or rewrite the title, which is then cut to
    150 characters. Only selected assets with metadata change, and only in
    the targeted field. */
module BulkEdit {
  import opened Types
  import opened Text

  datatype BulkAction = Add | Remove | ReplaceAll | ClearAll | Append | Prepend | ReplaceText

  datatype TargetField = KeywordsField | TitleField

  /** The payload the dialog sends: a keyword list, a piece of text, or a
      find/replace pair. */
  datatype BulkValue = Words(words: seq<string>) | Phrase(text: string) | FindReplace(find: string, replace: string)

  const MaxTitleLength: nat := 150

  /** The payload has the shape the action reads: the source casts `value`
      to the type each branch expects. */
  predicate WellShaped(field: TargetField, action: BulkAction, value: BulkValue) {
    match field
    case KeywordsField => (action == Add || action == Remove || action == ReplaceAll) ==> value.Words?
    case TitleField =>
      && ((action == ReplaceAll || action == Append || action == Prepend || action == Remove) ==> value.Phrase?)
      && (action == ReplaceText ==> value.FindReplace?)
  }

  // ---------------------------------------------------------------------
  // Keywords

  /** The lower-cased keywords, as the `Set` the source builds. */
  function LowerSet(ks: seq<string>): set<string> {
    set k | k in ks :: Lower(k)
  }

  /** ADD: the inputs whose lower case is not among the original keywords'
      lower cases, appended in input order. The set of existing keywords is
      built once, so two inputs equal up to case are both appended. */
  function AddedKeywords(orig: seq<string>, inputs: seq<string>): seq<string> {
    orig + Filter(inputs, k => Lower(k) !in LowerSet(orig))
  }

  /** The `forEach` loop of ADD that pushes onto a copy of the keywords. */
  method AddKeywords(orig: seq<string>, inputs: seq<string>) returns (r: seq<string>)
    ensures r == AddedKeywords(orig, inputs)
  {
    var existing := LowerSet(orig);
    ghost var P := k => Lower(k) !in LowerSet(orig);
    r := orig;
    for i := 0 to |inputs|
      invariant r == orig + Filter(inputs[..i], P)
    {
      assert inputs[..i + 1] == inputs[..i] + [inputs[i]];
      FilterAppend(inputs[..i], [inputs[i]], P);
      if Lower(inputs[i]) !in existing {
        r := r + [inputs[i]];
      }
    }
    assert inputs[..|inputs|] == inputs;
  }

  /** REMOVE: the original keywords whose lower case is not among the
      inputs' lower cases, in order. */
  function RemovedKeywords(orig: seq<string>, inputs: seq<string>): seq<string> {
    Filter(orig, k => Lower(k) !in LowerSet(inputs))
  }

  /** ADD keeps the original keywords as a prefix, then appends, in input
      order, exactly the inputs that are new up to case, each as often as
      it occurs among the inputs. */
  lemma AddProperties(orig: seq<string>, inputs: seq<string>)
    ensures var r := AddedKeywords(orig, inputs);
            |orig| <= |r| && r[..|orig|] == orig
            && IsSubsequence(r[|orig|..], inputs)
            && (forall k :: k in r[|orig|..] <==> k in inputs && Lower(k) !in LowerSet(orig))
            && (forall k :: multiset(r[|orig|..])[k] ==
                  if Lower(k) !in LowerSet(orig) then multiset(inputs)[k] else 0)
  {
    var r := AddedKeywords(orig, inputs);
    FilterIsSubsequence(inputs, k => Lower(k) !in LowerSet(orig));
    FilterCount(inputs, k => Lower(k) !in LowerSet(orig));
    assert r[|orig|..] == Filter(inputs, k => Lower(k) !in LowerSet(orig));
  }

  /** Adding the same keywords twice adds nothing the second time. */
  lemma AddIdempotent(orig: seq<string>, inputs: seq<string>)
    ensures AddedKeywords(AddedKeywords(orig, inputs), inputs) == AddedKeywords(orig, inputs)
  {
    var once := AddedKeywords(orig, inputs);
    var P := k => Lower(k) !in LowerSet(once);
    forall i | 0 <= i < |inputs| ensures !P(inputs[i]) {
      var k := inputs[i];
      if Lower(k) in LowerSet(orig) {
        var o :| o in orig && Lower(o) == Lower(k);
        assert o in once;
      } else {
        assert k in Filter(inputs, k => Lower(k) !in LowerSet(orig));
        assert k in once;
      }
    }
    FilterNone(inputs, P);
    assert once + [] == once;
  }

  /** REMOVE leaves no keyword equal, up to case, to an input, and keeps
      every other keyword in order, each as often as it occurred. */
  lemma RemoveProperties(orig: seq<string>, inputs: seq<string>)
    ensures var r := RemovedKeywords(orig, inputs);
            IsSubsequence(r, orig)
            && (forall k :: k in r <==> k in orig && Lower(k) !in LowerSet(inputs))
            && (forall k, w :: k in r && w in inputs ==> Lower(k) != Lower(w))
            && (forall k :: multiset(r)[k] == if Lower(k) !in LowerSet(inputs) then multiset(orig)[k] else 0)
  {
    FilterIsSubsequence(orig, k => Lower(k) !in LowerSet(inputs));
    FilterCount(orig, k => Lower(k) !in LowerSet(inputs));
  }

  /** Removing the keywords just added restores what removing them from
      the originals gives: the additions are taken out again. */
  lemma RemoveUndoesAdd(orig: seq<string>, inputs: seq<string>)
    ensures RemovedKeywords(AddedKeywords(orig, inputs), inputs) == RemovedKeywords(orig, inputs)
  {
    var Q := k => Lower(k) !in LowerSet(orig);
    var P := k => Lower(k) !in LowerSet(inputs);
    var added := Filter(inputs, Q);
    FilterAppend(orig, added, P);
    forall i | 0 <= i < |added| ensures !P(added[i]) {
      assert added[i] in inputs;
    }
    FilterNone(added, P);
    assert Filter(orig, P) + [] == Filter(orig, P);
  }

  /** The new keyword list of a keyword action; other actions keep the
      list as it is. */
  function KeywordEdit(action: BulkAction, orig: seq<string>, value: BulkValue): (r: seq<string>)
    requires WellShaped(KeywordsField, action, value)
    ensures action == Add ==>
              && |orig| <= |r| && r[..|orig|] == orig
              && (forall k :: k in r <==> k in orig || (k in value.words && Lower(k) !in LowerSet(orig)))
    ensures action == Remove ==>
              && IsSubsequence(r, orig)
              && (forall k :: k in r <==> k in orig && Lower(k) !in LowerSet(value.words))
    ensures action == ReplaceAll ==> r == value.words
    ensures action == ClearAll ==> r == []
    ensures !(action == Add || action == Remove || action == ReplaceAll || action == ClearAll) ==> r == orig
  {
    match action
    case Add =>
      AddProperties(orig, value.words);
      var r := AddedKeywords(orig, value.words);
      assert r == r[..|orig|] + r[|orig|..];
      r
    case Remove => RemoveProperties(orig, value.words); RemovedKeywords(orig, value.words)
    case ReplaceAll => value.words
    case ClearAll => []
    case _ => orig
  }

  // ---------------------------------------------------------------------
  // Title

  /** APPEND and PREPEND: the two parts joined by a space, then trimmed. */
  function SpaceJoin(a: string, b: string): string {
    Trim(a + " " + b)
  }

  /** REMOVE and REPLACE_TEXT: every case-insensitive occurrence of `find`
      replaced, then space runs collapsed and the ends trimmed; an empty
      search text leaves the title alone. */
  function Rewrite(title: string, find: string, replace: string): string {
    if find != [] then NormalizeSpaces(ReplaceAllCI(title, find, replace)) else title
  }

  /** The title before the 150-character cut. */
  function RawTitleEdit(action: BulkAction, title: string, value: BulkValue): (r: string)
    requires WellShaped(TitleField, action, value)
    ensures action == ReplaceAll ==> r == value.text
    ensures action == Append || action == Prepend ==> NoBoundarySpace(r)
    ensures (action == Remove && value.text != []) || (action == ReplaceText && value.find != []) ==> Clean(r)
    ensures (action == Remove && value.text == []) || (action == ReplaceText && value.find == []) ==> r == title
    ensures !(action == ReplaceAll || action == Append || action == Prepend || action == Remove || action == ReplaceText) ==> r == title
  {
    match action
    case ReplaceAll => value.text
    case Append => SpaceJoin(title, value.text)
    case Prepend => SpaceJoin(value.text, title)
    case Remove => Rewrite(title, value.text, [])
    case ReplaceText => Rewrite(title, value.find, value.replace)
    case _ => title
  }

  /** Every title action ends with `substring(0, 150)`. */
  function TitleEdit(action: BulkAction, title: string, value: BulkValue): (r: string)
    requires WellShaped(TitleField, action, value)
    ensures |r| <= MaxTitleLength && |r| <= |RawTitleEdit(action, title, value)|
    ensures r == RawTitleEdit(action, title, value)[..|r|]
    ensures |RawTitleEdit(action, title, value)| <= MaxTitleLength ==> r == RawTitleEdit(action, title, value)
    ensures |RawTitleEdit(action, title, value)| > MaxTitleLength ==> |r| == MaxTitleLength
  {
    Take(RawTitleEdit(action, title, value), MaxTitleLength)
  }

  /** Removing or replacing with an empty search text keeps the title, up
      to the cut. */
  lemma EmptySearchKeepsTitle(title: string, replace: string)
    ensures TitleEdit(Remove, title, Phrase([])) == Take(title, MaxTitleLength)
    ensures TitleEdit(ReplaceText, title, FindReplace([], replace)) == Take(title, MaxTitleLength)
  {
  }

  lemma SpaceJoinTrimmed(a: string, b: string)
    requires a != [] && b != [] && NoBoundarySpace(a) && NoBoundarySpace(b)
    ensures SpaceJoin(a, b) == a + " " + b
  {
    var s := a + " " + b;
    assert s[0] == a[0];
    assert s[|s| - 1] == b[|b| - 1];
    TrimFixed(s);
  }

  /** Appending to a clean title joins the two with one space. */
  lemma AppendJoins(title: string, text: string)
    requires title != [] && text != [] && NoBoundarySpace(title) && NoBoundarySpace(text)
    ensures RawTitleEdit(Append, title, Phrase(text)) == title + " " + text
  {
    SpaceJoinTrimmed(title, text);
  }

  /** Prepending to a clean title joins the two with one space. */
  lemma PrependJoins(title: string, text: string)
    requires title != [] && text != [] && NoBoundarySpace(title) && NoBoundarySpace(text)
    ensures RawTitleEdit(Prepend, title, Phrase(text)) == text + " " + title
  {
    SpaceJoinTrimmed(text, title);
  }

  /** A title in the form the clean-up produces: single spaces between
      words and none at either end. */
  predicate Clean(s: string) {
    NoBoundarySpace(s) && SpacesAreBlank(s) && NoDoubleBlank(s)
  }

  /** Removing text leaves a clean title. */
  lemma RemoveCleans(title: string, text: string)
    requires text != []
    ensures Clean(RawTitleEdit(Remove, title, Phrase(text)))
  {
  }

  /** Space runs already of length one stay as they are. */
  lemma {:induction false} CollapseSingleSpaces(s: string)
    requires SpacesAreBlank(s) && NoDoubleBlank(s)
    ensures CollapseSpaces(s, ' ') == s
    decreases |s|
  {
    if s != [] {
      CollapseSingleSpaces(s[1..]);
      if IsSpace(s[0]) {
        TrimStartNoSpace(s[1..]);
      }
    }
  }

  /** The clean-up changes nothing in a clean title. */
  lemma NormalizeClean(s: string)
    requires Clean(s)
    ensures NormalizeSpaces(s) == s
  {
    CollapseSingleSpaces(s);
    TrimFixed(s);
  }

  /** Replacing text that does not occur in a clean title keeps the title,
      up to the cut. */
  lemma ReplaceAbsentKeepsTitle(title: string, find: string, replace: string)
    requires find != [] && Clean(title)
    requires forall i :: 0 <= i <= |title| - |find| ==> !MatchAt(title, find, i)
    ensures TitleEdit(ReplaceText, title, FindReplace(find, replace)) == Take(title, MaxTitleLength)
  {
    NormalizeClean(title);
  }

  // ---------------------------------------------------------------------
  // The list

  predicate Targeted(f: UploadedFile, selected: set<Id>) {
    f.id in selected && f.metadata.Some?
  }

  /** One asset after the bulk action. */
  function EditFile(f: UploadedFile, selected: set<Id>, action: BulkAction, value: BulkValue, field: TargetField): UploadedFile
    requires WellShaped(field, action, value)
  {
    if !Targeted(f, selected) then f
    else
      var m := f.metadata.value;
      match field
      case KeywordsField => f.(metadata := Some(m.(keywords := KeywordEdit(action, m.keywords, value))))
      case TitleField => f.(metadata := Some(m.(title := TitleEdit(action, m.title, value))))
  }

  /** `handleBulkApply`: the list has the same length, order and ids; an
      asset that is not selected or has no metadata is returned as it was;
      any other asset changes only in the targeted field of its metadata. */
  function ApplyBulk(files: seq<UploadedFile>, selected: set<Id>, action: BulkAction, value: BulkValue, field: TargetField): (r: seq<UploadedFile>)
    requires WellShaped(field, action, value)
    ensures |r| == |files|
    ensures forall i :: 0 <= i < |files| ==> r[i].id == files[i].id
    ensures forall i :: 0 <= i < |files| && !Targeted(files[i], selected) ==> r[i] == files[i]
    ensures forall i :: 0 <= i < |files| && Targeted(files[i], selected) ==>
              && r[i].metadata.Some?
              && r[i].(metadata := files[i].metadata) == files[i]
              && (field == KeywordsField ==> r[i].metadata.value.(keywords := files[i].metadata.value.keywords) == files[i].metadata.value)
              && (field == TitleField ==> r[i].metadata.value.(title := files[i].metadata.value.title) == files[i].metadata.value)
    ensures field == KeywordsField ==> forall i :: 0 <= i < |files| && Targeted(files[i], selected) ==>
              r[i].metadata.value.keywords == KeywordEdit(action, files[i].metadata.value.keywords, value)
    ensures field == TitleField ==> forall i :: 0 <= i < |files| && Targeted(files[i], selected) ==>
              r[i].metadata.value.title == TitleEdit(action, files[i].metadata.value.title, value)
    ensures field == TitleField ==> forall i :: 0 <= i < |files| && r[i].metadata.Some? && Targeted(files[i], selected) ==>
              |r[i].metadata.value.title| <= MaxTitleLength
  {
    seq(|files|, i requires 0 <= i < |files| => EditFile(files[i], selected, action, value, field))
  }

  /** Applying ADD twice with the same keywords is the same as once. */
  lemma ApplyAddTwice(files: seq<UploadedFile>, selected: set<Id>, words: seq<string>)
    ensures ApplyBulk(ApplyBulk(files, selected, Add, Words(words), KeywordsField), selected, Add, Words(words), KeywordsField)
            == ApplyBulk(files, selected, Add, Words(words), KeywordsField)
  {
    var once := ApplyBulk(files, selected, Add, Words(words), KeywordsField);
    var twice := ApplyBulk(once, selected, Add, Words(words), KeywordsField);
    forall i | 0 <= i < |files| ensures twice[i] == once[i] {
      if Targeted(files[i], selected) {
        AddIdempotent(files[i].metadata.value.keywords, words);
      }
    }
  }
}
