/** The per-card autosave of components/MetadataCard.tsx: a local buffer
    the fields are edited in, the snapshot last saved, the save status, the
    pending auto-save timer (with the data its closure captured) and the
    log of every `onUpdateMetadata` call the card makes. Timer firings are
    methods of their own; time itself is not modelled. */
module MetadataCard {
  import opened Types
  import opened Text

  /** `saveStatus`. The source declares `modified` but never sets it. */
  datatype SaveStatus = Idle | Saving | Saved | Modified

  /** One field edit, `handleLocalChange(field, value)`. */
  datatype FieldEdit =
    | SetTitle(title: string)
    | SetDescription(description: string)
    | SetKeywords(keywords: seq<string>)
    | SetCategory(category: string)

  /** `{ ...m, [field]: value }`. */
  function ApplyEdit(m: StockMetadata, e: FieldEdit): (r: StockMetadata)
    ensures e.SetTitle? ==> r == m.(title := e.title)
    ensures e.SetDescription? ==> r == m.(description := e.description)
    ensures e.SetKeywords? ==> r == m.(keywords := e.keywords)
    ensures e.SetCategory? ==> r == m.(category := e.category)
  {
    match e
    case SetTitle(t) => StockMetadata(t, m.description, m.keywords, m.category)
    case SetDescription(d) => StockMetadata(m.title, d, m.keywords, m.category)
    case SetKeywords(k) => StockMetadata(m.title, m.description, k, m.category)
    case SetCategory(c) => StockMetadata(m.title, m.description, m.keywords, c)
  }

  /** An edit changes exactly one field: the three others are kept. */
  lemma EditChangesOneField(m: StockMetadata, e: FieldEdit)
    ensures var r := ApplyEdit(m, e);
            (r.title != m.title ==> e.SetTitle?)
            && (r.description != m.description ==> e.SetDescription?)
            && (r.keywords != m.keywords ==> e.SetKeywords?)
            && (r.category != m.category ==> e.SetCategory?)
  {
  }

  predicate Differs(incoming: StockMetadata, saved: StockMetadata) {
    incoming.title != saved.title || incoming.description != saved.description
    || incoming.category != saved.category || incoming.keywords != saved.keywords
  }

  /** The merge of an external update: a field takes the incoming value
      exactly when the incoming value differs from the last saved one;
      keywords are compared as whole lists. */
  function Merge(local: StockMetadata, incoming: StockMetadata, saved: StockMetadata): (r: StockMetadata)
    ensures r.title == (if incoming.title != saved.title then incoming.title else local.title)
    ensures r.description == (if incoming.description != saved.description then incoming.description else local.description)
    ensures r.keywords == (if incoming.keywords != saved.keywords then incoming.keywords else local.keywords)
    ensures r.category == (if incoming.category != saved.category then incoming.category else local.category)
  {
    local.(title := if incoming.title != saved.title then incoming.title else local.title,
           description := if incoming.description != saved.description then incoming.description else local.description,
           keywords := if incoming.keywords != saved.keywords then incoming.keywords else local.keywords,
           category := if incoming.category != saved.category then incoming.category else local.category)
  }

  /** Without unsaved local edits the merge is the incoming data. */
  lemma MergeWithoutLocalEdits(incoming: StockMetadata, saved: StockMetadata)
    ensures Merge(saved, incoming, saved) == incoming
  {
  }

  /** An update equal to the last saved data keeps the local buffer. */
  lemma MergeUnchanged(local: StockMetadata, saved: StockMetadata)
    ensures Merge(local, saved, saved) == local
  {
  }

  /** A local edit of a field the update did not touch survives it. */
  lemma MergeKeepsLocalEdit(saved: StockMetadata, e: FieldEdit, incoming: StockMetadata)
    ensures var r := Merge(ApplyEdit(saved, e), incoming, saved);
            (e.SetTitle? && incoming.title == saved.title ==> r.title == e.title)
            && (e.SetDescription? && incoming.description == saved.description ==> r.description == e.description)
            && (e.SetKeywords? && incoming.keywords == saved.keywords ==> r.keywords == e.keywords)
            && (e.SetCategory? && incoming.category == saved.category ==> r.category == e.category)
  {
  }

  /** Merging the same update twice is merging it once. */
  lemma MergeIdempotent(local: StockMetadata, incoming: StockMetadata, saved: StockMetadata)
    ensures Merge(Merge(local, incoming, saved), incoming, saved) == Merge(local, incoming, saved)
  {
  }

  // ---------------------------------------------------------------------
  // Keyword list edits

  /** `filter((_, i) => i !== idx)`. */
  function RemoveAt(s: seq<string>, idx: int): (r: seq<string>)
    ensures 0 <= idx < |s| ==> r == s[..idx] + s[idx + 1..]
    ensures !(0 <= idx < |s|) ==> r == s
    decreases |s|
  {
    if s == [] then []
    else (if idx == 0 then [] else [s[0]]) + RemoveAt(s[1..], idx - 1)
  }

  /** `[...new Set(s)]`: the first occurrence of each keyword, in order. */
  function Dedup(s: seq<string>): (r: seq<string>)
    ensures forall x :: x in r <==> x in s
    ensures forall i, j :: 0 <= i < j < |r| ==> r[i] != r[j]
    ensures |r| <= |s|
  {
    if s == [] then []
    else
      var p := Dedup(s[..|s| - 1]);
      var x := s[|s| - 1];
      assert forall y :: y in s <==> y in s[..|s| - 1] || y == x;
      if x in p then p else p + [x]
  }

  /** The position of the first occurrence of x in s. */
  function FirstIndex(s: seq<string>, x: string): (i: nat)
    requires x in s
    ensures i < |s| && s[i] == x && x !in s[..i]
  {
    if s[0] == x then 0
    else
      var j := FirstIndex(s[1..], x);
      assert s[..j + 1] == [s[0]] + s[1..][..j];
      j + 1
  }

  /** Appending leaves the first occurrence of an element already present
      where it was. */
  lemma FirstIndexSnoc(q: seq<string>, x: string, y: string)
    requires y in q
    ensures FirstIndex(q + [x], y) == FirstIndex(q, y)
  {
    var s := q + [x];
    var i, j := FirstIndex(q, y), FirstIndex(s, y);
    assert s[..i] == q[..i];
    assert s[i] == y;
  }

  /** The values of r appear in the order of their first occurrences in s. */
  predicate InFirstOccurrenceOrder(r: seq<string>, s: seq<string>) {
    forall i, j :: 0 <= i < j < |r| ==> r[i] in s && r[j] in s && FirstIndex(s, r[i]) < FirstIndex(s, r[j])
  }

  /** The kept occurrences are in their original order: each value keeps
      its first occurrence, and the values appear in the order of their
      first occurrences. */
  lemma {:induction false} DedupKeepsOrder(s: seq<string>)
    ensures IsSubsequence(Dedup(s), s)
    ensures InFirstOccurrenceOrder(Dedup(s), s)
  {
    if s == [] {
    } else {
      var q := s[..|s| - 1];
      var x := s[|s| - 1];
      var p := Dedup(q);
      DedupKeepsOrder(q);
      assert s == q + [x];
      if x in p {
        assert p + [] == p;
        SubsequenceConcat(p, q, [], [x]);
        OrderSnocSame(p, q, x);
      } else {
        SubsequenceRefl([x]);
        SubsequenceConcat(p, q, [x], [x]);
        OrderSnocNew(p, q, x);
      }
    }
  }

  /** Appending to s keeps the order of values already in it. */
  lemma OrderSnocSame(p: seq<string>, q: seq<string>, x: string)
    requires forall y :: y in p ==> y in q
    requires InFirstOccurrenceOrder(p, q)
    ensures InFirstOccurrenceOrder(p, q + [x])
  {
    forall i | 0 <= i < |p| ensures p[i] in q && FirstIndex(q + [x], p[i]) == FirstIndex(q, p[i]) {
      assert p[i] in p;
      FirstIndexSnoc(q, x, p[i]);
    }
  }

  /** A value first seen at the end comes after all earlier ones. */
  lemma OrderSnocNew(p: seq<string>, q: seq<string>, x: string)
    requires forall y :: y in p ==> y in q
    requires x !in q
    requires InFirstOccurrenceOrder(p, q)
    ensures InFirstOccurrenceOrder(p + [x], q + [x])
  {
    var s := q + [x];
    var r := p + [x];
    OrderSnocSame(p, q, x);
    assert FirstIndex(s, x) == |q|;
    forall i | 0 <= i < |p| ensures FirstIndex(s, p[i]) < |q| {
      assert p[i] in p;
      FirstIndexSnoc(q, x, p[i]);
    }
    forall i, j | 0 <= i < j < |r|
      ensures r[i] in s && r[j] in s && FirstIndex(s, r[i]) < FirstIndex(s, r[j])
    {
      assert r[i] == p[i];
      if j < |p| {
        assert r[j] == p[j];
      } else {
        assert r[j] == x;
      }
    }
  }

  function Elements(s: seq<string>): set<string> {
    set i | 0 <= i < |s| :: s[i]
  }

  /** `new Set(s).size !== s.length`. */
  predicate HasDuplicates(s: seq<string>) {
    |Elements(s)| != |s|
  }

  lemma {:induction false} DistinctCount(s: seq<string>)
    requires forall i, j :: 0 <= i < j < |s| ==> s[i] != s[j]
    ensures |Elements(s)| == |s|
  {
    if s != [] {
      var p := s[..|s| - 1];
      DistinctCount(p);
      assert Elements(s) == Elements(p) + {s[|s| - 1]} by {
        forall y | y in Elements(s) ensures y in Elements(p) + {s[|s| - 1]} {
          var i :| 0 <= i < |s| && s[i] == y;
          if i < |p| { assert p[i] == s[i]; }
        }
        forall y | y in Elements(p) ensures y in Elements(s) {
          var i :| 0 <= i < |p| && p[i] == y;
          assert s[i] == p[i];
        }
      }
      assert s[|s| - 1] !in Elements(p);
    }
  }

  lemma ElementsDedup(s: seq<string>)
    ensures Elements(Dedup(s)) == Elements(s)
  {
    var r := Dedup(s);
    forall y | y in Elements(s) ensures y in Elements(r) {
      var i :| 0 <= i < |s| && s[i] == y;
      assert s[i] in s;
    }
    forall y | y in Elements(r) ensures y in Elements(s) {
      var i :| 0 <= i < |r| && r[i] == y;
      assert r[i] in r;
    }
  }

  /** The duplicate warning shows exactly when removing duplicates would
      shorten the list. */
  lemma HasDuplicatesIffDedupShorter(s: seq<string>)
    ensures HasDuplicates(s) <==> |Dedup(s)| != |s|
  {
    DistinctCount(Dedup(s));
    ElementsDedup(s);
  }

  /** Removing duplicates from a list without them changes nothing. */
  lemma {:induction false} DedupDistinct(s: seq<string>)
    requires forall i, j :: 0 <= i < j < |s| ==> s[i] != s[j]
    ensures Dedup(s) == s
  {
    if s != [] {
      var p := s[..|s| - 1];
      DedupDistinct(p);
      assert s[|s| - 1] !in p;
    }
  }

  lemma DedupIdempotent(s: seq<string>)
    ensures Dedup(Dedup(s)) == Dedup(s)
  {
    DedupDistinct(Dedup(s));
  }

  // ---------------------------------------------------------------------
  // The card

  class Card {
    var local: Option<StockMetadata>
    var lastSaved: Option<StockMetadata>
    var status: SaveStatus
    /** The pending auto-save, with the data its closure will save. */
    var timer: Option<StockMetadata>
    /** Every `onUpdateMetadata` call, oldest first. */
    var commits: seq<StockMetadata>

    /** The buffer and the snapshot exist together; a pending timer needs
        a buffer; while the status is `saving` a timer is pending. */
    predicate Valid()
      reads this
    {
      (local.None? <==> lastSaved.None?)
      && (timer.Some? ==> local.Some?)
      && (status == Saving ==> timer.Some?)
    }

    /** Both the buffer and the snapshot start as the item's metadata. */
    constructor (initial: Option<StockMetadata>)
      ensures Valid()
      ensures local == initial && lastSaved == initial
      ensures status == SaveStatus.Idle && timer == None && commits == []
    {
      local := initial;
      lastSaved := initial;
      status := SaveStatus.Idle;
      timer := None;
      commits := [];
    }

    /** The effect on a new `item.metadata`: ignored when absent; adopted
        whole when nothing was saved yet; merged field by field when it
        differs from the last saved data, which it then becomes, with the
        status `saved`. The pending timer is left alone. */
    method ExternalUpdate(incoming: Option<StockMetadata>)
      requires Valid()
      modifies this
      ensures Valid()
      ensures (incoming.None? || (old(lastSaved).Some? && !Differs(incoming.value, old(lastSaved).value))) ==>
                local == old(local) && lastSaved == old(lastSaved) && status == old(status)
      ensures incoming.Some? && old(lastSaved).None? ==>
                local == incoming && lastSaved == incoming && status == old(status)
      ensures incoming.Some? && old(lastSaved).Some? && Differs(incoming.value, old(lastSaved).value) ==>
                local == Some(Merge(old(local).value, incoming.value, old(lastSaved).value))
                && lastSaved == incoming && status == Saved
      ensures timer == old(timer) && commits == old(commits)
    {
      if incoming.None? {
        return;
      }
      if lastSaved.None? {
        local := incoming;
        lastSaved := incoming;
        return;
      }
      var current := lastSaved.value;
      var m := incoming.value;
      var titleChanged := m.title != current.title;
      var descChanged := m.description != current.description;
      var catChanged := m.category != current.category;
      var kwChanged := m.keywords != current.keywords;
      if titleChanged || descChanged || catChanged || kwChanged {
        var prev := local.value;
        local := Some(prev.(title := if titleChanged then m.title else prev.title,
                            description := if descChanged then m.description else prev.description,
                            keywords := if kwChanged then m.keywords else prev.keywords,
                            category := if catChanged then m.category else prev.category));
        lastSaved := incoming;
        status := Saved;
      }
    }

    /** `saveNow`: cancels the pending timer, commits the data, records it
        as saved. */
    method SaveNow(data: StockMetadata)
      requires local.Some?
      modifies this
      ensures Valid()
      ensures timer == None && commits == old(commits) + [data]
      ensures lastSaved == Some(data) && status == Saved && local == old(local)
    {
      timer := None;
      commits := commits + [data];
      lastSaved := Some(data);
      status := Saved;
    }

    /** `handleLocalChange`: edits one field of the buffer, marks it
        `saving` and replaces the pending timer by one that will save the
        edited data. Without a buffer nothing happens. */
    method LocalChange(e: FieldEdit)
      requires Valid()
      modifies this
      ensures Valid()
      ensures old(local).None? ==> local == old(local) && status == old(status) && timer == old(timer)
      ensures old(local).Some? ==>
                local == Some(ApplyEdit(old(local).value, e)) && status == Saving && timer == local
      ensures lastSaved == old(lastSaved) && commits == old(commits)
    {
      if local.None? {
        return;
      }
      var newData := ApplyEdit(local.value, e);
      local := Some(newData);
      status := Saving;
      timer := Some(newData);
    }

    /** The auto-save timer fires: it saves the data captured when it was
        set. */
    method TimerFired()
      requires Valid() && timer.Some?
      modifies this
      ensures Valid()
      ensures commits == old(commits) + [old(timer).value]
      ensures lastSaved == old(timer) && local == old(local) && status == Saved && timer == None
    {
      SaveNow(timer.value);
    }

    /** The timer with the buffer read when it fires instead of when it was
        set: what is saved is what the card shows. */
    method TimerFiredCurrent()
      requires Valid() && timer.Some?
      modifies this
      ensures Valid()
      ensures commits == old(commits) + [old(local).value]
      ensures lastSaved == local && local == old(local) && status == Saved && timer == None
    {
      SaveNow(local.value);
    }

    /** `handleBlur`: saves the buffer at once when an edit is pending;
        otherwise nothing happens. */
    method Blur()
      requires Valid()
      modifies this
      ensures Valid()
      ensures old(status) == Saving ==>
                commits == old(commits) + [old(local).value] && lastSaved == local
                && status == Saved && timer == None
      ensures old(status) != Saving ==>
                commits == old(commits) && lastSaved == old(lastSaved) && status == old(status) && timer == old(timer)
      ensures local == old(local)
    {
      if status == Saving && local.Some? {
        SaveNow(local.value);
      }
    }

    /** `handleImmediateUpdate`: the data becomes the buffer and is saved. */
    method ImmediateUpdate(data: StockMetadata)
      requires Valid()
      modifies this
      ensures Valid()
      ensures local == Some(data) && lastSaved == Some(data) && status == Saved && timer == None
      ensures commits == old(commits) + [data]
    {
      local := Some(data);
      SaveNow(data);
    }

    /** `handleAppendTrend`: a trend already among the keywords (exact
        match) changes nothing; otherwise it is appended and saved. */
    method AppendTrend(trend: string)
      requires Valid()
      modifies this
      ensures Valid()
      ensures old(local).None? || trend in old(local).value.keywords ==>
                local == old(local) && lastSaved == old(lastSaved) && commits == old(commits)
                && status == old(status) && timer == old(timer)
      ensures old(local).Some? && trend !in old(local).value.keywords ==>
                var m := old(local).value.(keywords := old(local).value.keywords + [trend]);
                local == Some(m) && lastSaved == Some(m) && commits == old(commits) + [m]
                && status == Saved && timer == None
    {
      if local.None? {
        return;
      }
      if trend in local.value.keywords {
        return;
      }
      var newKeywords := local.value.keywords + [trend];
      ImmediateUpdate(local.value.(keywords := newKeywords));
    }

    /** `handleRemoveKeyword`: saves the keywords without position idx. */
    method RemoveKeyword(idx: int)
      requires Valid()
      modifies this
      ensures Valid()
      ensures old(local).None? ==>
                local == old(local) && lastSaved == old(lastSaved) && commits == old(commits)
                && status == old(status) && timer == old(timer)
      ensures old(local).Some? ==>
                var m := old(local).value.(keywords := RemoveAt(old(local).value.keywords, idx));
                local == Some(m) && lastSaved == Some(m) && commits == old(commits) + [m]
                && status == Saved && timer == None
    {
      if local.None? {
        return;
      }
      var newKw := RemoveAt(local.value.keywords, idx);
      ImmediateUpdate(local.value.(keywords := newKw));
    }

    /** `handleRemoveDuplicates`: saves the deduplicated keywords, but only
        when there was a duplicate to remove. */
    method RemoveDuplicates()
      requires Valid()
      modifies this
      ensures Valid()
      ensures old(local).None? || !HasDuplicates(old(local).value.keywords) ==>
                local == old(local) && lastSaved == old(lastSaved) && commits == old(commits)
                && status == old(status) && timer == old(timer)
      ensures old(local).Some? && HasDuplicates(old(local).value.keywords) ==>
                var m := old(local).value.(keywords := Dedup(old(local).value.keywords));
                local == Some(m) && lastSaved == Some(m) && commits == old(commits) + [m]
                && status == Saved && timer == None
    {
      if local.None? {
        return;
      }
      var uniqueKeywords := Dedup(local.value.keywords);
      HasDuplicatesIffDedupShorter(local.value.keywords);
      if |uniqueKeywords| != |local.value.keywords| {
        ImmediateUpdate(local.value.(keywords := uniqueKeywords));
      }
    }

    /** The two-second timer that hides the "saved" message. */
    method SavedTimerFired()
      requires Valid()
      modifies this
      ensures Valid()
      ensures status == (if old(status) == Saved then SaveStatus.Idle else old(status))
      ensures local == old(local) && lastSaved == old(lastSaved) && timer == old(timer) && commits == old(commits)
    {
      if status == Saved {
        status := SaveStatus.Idle;
      }
    }

    /** The duplicate warning of the card: on the buffer, or on the item's
        metadata while there is no buffer. */
    function ShowsDuplicateWarning(item: Option<StockMetadata>): (r: bool)
      reads this
      ensures local.Some? ==> (r <==> HasDuplicates(local.value.keywords))
      ensures local.None? && item.Some? ==> (r <==> HasDuplicates(item.value.keywords))
      ensures local.None? && item.None? ==> !r
    {
      var display := if local.Some? then local else item;
      display.Some? && HasDuplicates(display.value.keywords)
    }
  }

  // ---------------------------------------------------------------------
  // An external update while an auto-save is pending

  /** A description edit, then a new title arriving from outside before
      the timer fires, with the field still focused (no blur in between):
      for instance a regeneration of the same asset, started earlier, that
      finishes while the user types. The timer saves the title from before
      the update, although the card shows the new one. */
  method StaleAutoSave(saved: StockMetadata, desc: string, newTitle: string) returns (c: Card)
    requires newTitle != saved.title
    ensures c.local.Some? && c.local.value.title == newTitle && c.local.value.description == desc
    ensures |c.commits| == 1 && c.commits[0].title == saved.title && c.commits[0].description == desc
    ensures c.lastSaved != c.local
  {
    c := new Card(Some(saved));
    c.LocalChange(SetDescription(desc));
    c.ExternalUpdate(Some(saved.(title := newTitle)));
    c.TimerFired();
  }

  /** The same events with the timer reading the buffer when it fires:
      both the local edit and the new title are saved. */
  method CurrentAutoSave(saved: StockMetadata, desc: string, newTitle: string) returns (c: Card)
    requires newTitle != saved.title
    ensures c.local.Some? && c.local.value.title == newTitle && c.local.value.description == desc
    ensures |c.commits| == 1 && c.commits[0] == c.local.value
    ensures c.lastSaved == c.local
  {
    c := new Card(Some(saved));
    c.LocalChange(SetDescription(desc));
    c.ExternalUpdate(Some(saved.(title := newTitle)));
    c.TimerFiredCurrent();
  }
}
