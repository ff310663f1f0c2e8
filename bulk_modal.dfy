/** The bulk edit dialog of components/BulkKeywordModal.tsx: the targeted
    field, the chosen action and the text inputs, and what a submission
    sends to the bulk edit of the assets. */
module BulkModal {
  import opened Types
  import opened Text
  import opened BulkEdit

  /** One `onApply(action, value, field)` call. */
  datatype Dispatch = Dispatch(action: BulkAction, value: BulkValue, field: TargetField)

  /** The actions the dialog offers for a field: its buttons. */
  predicate Offered(field: TargetField, action: BulkAction) {
    match field
    case KeywordsField => action == Add || action == Remove || action == ReplaceAll || action == ClearAll
    case TitleField =>
      action == ReplaceAll || action == ReplaceText || action == Append || action == Prepend || action == Remove
  }

  function TrimAll(parts: seq<string>): (r: seq<string>)
    ensures |r| == |parts|
    ensures forall i :: 0 <= i < |r| ==> r[i] == Trim(parts[i])
  {
    seq(|parts|, (i: int) requires 0 <= i < |parts| => Trim(parts[i]))
  }

  predicate NonEmpty(k: string) { |k| > 0 }

  /** A well-formed keyword: not empty, no leading or trailing white space
      and no comma. */
  predicate Keyword(k: string) {
    k != [] && NoBoundarySpace(k) && ',' !in k
  }

  /** `split(',').map(k => k.trim()).filter(k => k.length > 0)`. */
  function ParseKeywords(input: string): (r: seq<string>)
    ensures forall i :: 0 <= i < |r| ==> Keyword(r[i])
  {
    var parts := Split(input, ',');
    TrimmedKeywords(parts);
    FilterKeeps(TrimAll(parts), NonEmpty, Keyword);
    Filter(TrimAll(parts), NonEmpty)
  }

  /** A trimmed part of comma-free text is a keyword unless it is empty. */
  lemma TrimmedKeywords(parts: seq<string>)
    requires forall i :: 0 <= i < |parts| ==> ',' !in parts[i]
    ensures forall i :: 0 <= i < |TrimAll(parts)| && NonEmpty(TrimAll(parts)[i]) ==> Keyword(TrimAll(parts)[i])
  {
    forall i | 0 <= i < |parts| ensures ',' !in Trim(parts[i]) {
      TrimKeeps(parts[i]);
    }
  }

  lemma ParseKeywordsOf(input: string)
    ensures ParseKeywords(input) == Filter(TrimAll(Split(input, ',')), NonEmpty)
  {
  }

  lemma TrimAllFixed(ks: seq<string>)
    requires forall i :: 0 <= i < |ks| ==> Keyword(ks[i])
    ensures TrimAll(ks) == ks
  {
    forall i | 0 <= i < |ks| ensures TrimAll(ks)[i] == ks[i] {
      TrimFixed(ks[i]);
    }
  }

  /** Parsing text made of comma-free parts trims the parts and drops
      the empty ones. */
  lemma ParseJoined(parts: seq<string>)
    requires |parts| >= 1
    requires forall i :: 0 <= i < |parts| ==> ',' !in parts[i]
    ensures ParseKeywords(Join(parts, [','])) == Filter(TrimAll(parts), NonEmpty)
  {
    ParseKeywordsOf(Join(parts, [',']));
    SplitJoin(parts, ',');
  }

  lemma TrimAllBlank()
    ensures TrimAll([[]]) == [[]]
  {
    assert Trim([]) == [];
  }

  lemma FilterBlank()
    ensures Filter([[]], NonEmpty) == []
  {
  }

  /** The empty input lists no keyword. */
  lemma ParseEmpty()
    ensures ParseKeywords([]) == []
  {
    assert Join([[]], [',']) == [];
    ParseJoined([[]]);
    TrimAllBlank();
    FilterBlank();
  }

  lemma ParseJoinNonEmpty(ks: seq<string>)
    requires ks != []
    requires forall i :: 0 <= i < |ks| ==> Keyword(ks[i])
    ensures ParseKeywords(Join(ks, [','])) == ks
  {
    ParseJoined(ks);
    TrimAllFixed(ks);
    assert forall i :: 0 <= i < |ks| ==> NonEmpty(ks[i]);
    FilterAll(ks, NonEmpty);
  }

  /** Keywords typed as a comma-separated list come back as that list; an
      empty list is the empty input. */
  lemma ParseKeywordsJoin(ks: seq<string>)
    requires forall i :: 0 <= i < |ks| ==> Keyword(ks[i])
    ensures ParseKeywords(Join(ks, [','])) == ks
  {
    if ks == [] {
      ParseEmpty();
    } else {
      ParseJoinNonEmpty(ks);
    }
  }

  lemma TrimAllThree(p0: string, p1: string, p2: string)
    ensures TrimAll([p0, p1, p2]) == [Trim(p0), Trim(p1), Trim(p2)]
  {
  }

  lemma TrimPadded()
    ensures Trim(" a ") == "a"
  {
    assert TrimStart(" a ") == "a ";
    assert TrimEnd("a ") == "a";
  }

  lemma TrimSpace()
    ensures Trim(" ") == ""
  {
    assert TrimStart(" ") == "";
  }

  lemma TrimTrailing()
    ensures Trim("b ") == "b"
  {
    assert TrimEnd("b ") == "b";
  }

  lemma TrimExample()
    ensures TrimAll([" a ", " ", "b "]) == ["a", "", "b"]
  {
    TrimAllThree(" a ", " ", "b ");
    TrimPadded();
    TrimSpace();
    TrimTrailing();
  }

  lemma FilterExample()
    ensures Filter(["a", "", "b"], NonEmpty) == ["a", "b"]
  {
    assert ["a", "", "b"][1..] == ["", "b"];
    assert ["", "b"][1..] == ["b"];
  }

  /** Blank entries and white space around entries are dropped: the input
      `" a , ,b "` lists the keywords `a` and `b`. */
  lemma ParseExample()
    ensures ParseKeywords(" a , ,b ") == ["a", "b"]
  {
    var parts := [" a ", " ", "b "];
    assert " a , ,b " == Join(parts, [',']);
    ParseJoined(parts);
    TrimExample();
    FilterExample();
  }

  /** `handleSubmit`, as a value: the call it makes, if any. Clearing always
      sends the empty list; adding and removing need at least one keyword;
      replacing the keywords sends even an empty list; find and replace are
      sent as typed, every other title text trimmed. */
  function Submission(field: TargetField, action: BulkAction, input: string, find: string, replace: string): (r: Option<Dispatch>)
    ensures r.Some? ==> r.value.action == action && r.value.field == field && WellShaped(field, action, r.value.value)
    ensures r.None? <==> field == KeywordsField && action != ClearAll && action != ReplaceAll && ParseKeywords(input) == []
    ensures field == KeywordsField && action == ClearAll ==> r == Some(Dispatch(ClearAll, Words([]), KeywordsField))
    ensures r.Some? && field == KeywordsField && action != ClearAll ==> r.value.value == Words(ParseKeywords(input))
    ensures r.Some? && r.value.value.Words? && action != ClearAll && action != ReplaceAll ==> r.value.value.words != []
    ensures field == TitleField && action == ReplaceText ==> r == Some(Dispatch(ReplaceText, FindReplace(find, replace), TitleField))
    ensures field == TitleField && action != ReplaceText ==> r == Some(Dispatch(action, Phrase(Trim(input)), TitleField))
  {
    match field
    case KeywordsField =>
      if action == ClearAll then Some(Dispatch(action, Words([]), field))
      else
        var keywords := ParseKeywords(input);
        if action == ReplaceAll || |keywords| > 0 then Some(Dispatch(action, Words(keywords), field))
        else None
    case TitleField =>
      if action == ReplaceText then Some(Dispatch(action, FindReplace(find, replace), field))
      else Some(Dispatch(action, Phrase(Trim(input)), field))
  }

  /** Every keyword a submission sends is well formed. */
  lemma SubmittedKeywords(field: TargetField, action: BulkAction, input: string, find: string, replace: string)
    requires Submission(field, action, input, find, replace).Some?
    ensures var v := Submission(field, action, input, find, replace).value.value;
            v.Words? ==> forall i :: 0 <= i < |v.words| ==> Keyword(v.words[i])
  {
  }

  class Modal {
    var field: TargetField
    var action: BulkAction
    var input: string
    var find: string
    var replace: string
    var open: bool

    /** The chosen action is one the targeted field offers. */
    predicate Valid()
      reads this
    {
      Offered(field, action)
    }

    /** The dialog starts on the keywords, adding, with empty inputs. */
    constructor (isOpen: bool)
      ensures Valid()
      ensures field == KeywordsField && action == Add && input == [] && find == [] && replace == [] && open == isOpen
    {
      field := KeywordsField;
      action := Add;
      input := [];
      find := [];
      replace := [];
      open := isOpen;
    }

    /** `handleFieldChange`: the inputs are cleared and the action becomes
        adding for keywords and replacing for titles. */
    method FieldChange(newField: TargetField)
      requires Valid()
      modifies this
      ensures Valid()
      ensures field == newField && input == [] && find == [] && replace == []
      ensures action == (if newField == KeywordsField then Add else ReplaceAll)
      ensures open == old(open)
    {
      field := newField;
      input := [];
      find := [];
      replace := [];
      if newField == KeywordsField {
        action := Add;
      } else {
        action := ReplaceAll;
      }
    }

    /** One of the action buttons of the current field. */
    method SelectAction(a: BulkAction)
      requires Valid() && Offered(field, a)
      modifies this
      ensures Valid()
      ensures action == a
      ensures field == old(field) && input == old(input) && find == old(find) && replace == old(replace) && open == old(open)
    {
      action := a;
    }

    /** `handleSubmit`: makes the call `Submission` describes; after a
        keyword call the list input is cleared, after a title call all
        three inputs are, and the dialog closes. A keyword submission with
        nothing to add or remove leaves everything as it was. */
    method Submit() returns (r: Option<Dispatch>)
      requires Valid()
      modifies this
      ensures Valid()
      ensures r == Submission(old(field), old(action), old(input), old(find), old(replace))
      ensures field == old(field) && action == old(action)
      ensures r.None? ==> input == old(input) && find == old(find) && replace == old(replace) && open == old(open)
      ensures r.Some? ==> !open
      ensures r.Some? && field == KeywordsField ==>
                input == (if action == ClearAll then old(input) else []) && find == old(find) && replace == old(replace)
      ensures r.Some? && field == TitleField ==> input == [] && find == [] && replace == []
    {
      if field == KeywordsField {
        if action == ClearAll {
          r := Some(Dispatch(action, Words([]), field));
          open := false;
          return;
        }
        var keywords := ParseKeywords(input);
        if action == ReplaceAll || |keywords| > 0 {
          r := Some(Dispatch(action, Words(keywords), field));
          input := [];
          open := false;
        } else {
          r := None;
        }
      } else {
        if action == ReplaceText {
          r := Some(Dispatch(action, FindReplace(find, replace), field));
        } else {
          r := Some(Dispatch(action, Phrase(Trim(input)), field));
        }
        input := [];
        find := [];
        replace := [];
        open := false;
      }
    }
  }
}
