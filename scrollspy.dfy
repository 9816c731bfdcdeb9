/** The IntersectionObserver callback of the scrollspy: fold a batch of
    visibility records into the section-visibility table, pick the current
    section, and restyle every navigation link. */
module Scrollspy {
  import opened Wrappers
  import opened JsObject

  /** One IntersectionObserverEntry, as the callback reads it: the `id` of its
      target element ("" for an element without one) and `isIntersecting`. */
  datatype Record = Record(id: string, isIntersecting: bool)

  /** The class a link gets when it points at the current section. */
  const Active: string := "active"

  // ---------------------------------------------------------------------------
  // Step 1: the batch updates the table

  /** The table after `sectionVisibilities[entry.target.id] = entry.isIntersecting`
      for every record of the batch, in order. */
  function ApplyBatch(t: seq<Entry>, batch: seq<Record>): seq<Entry>
  {
    if batch == [] then t
    else
      var last := batch[|batch| - 1];
      Assign(ApplyBatch(t, batch[..|batch| - 1]), last.id, last.isIntersecting)
  }

  /** The visibility that the last record for `id` in the batch reports, if any. */
  function LastWrite(batch: seq<Record>, id: string): Option<bool>
  {
    if batch == [] then None
    else if batch[|batch| - 1].id == id then Some(batch[|batch| - 1].isIntersecting)
    else LastWrite(batch[..|batch| - 1], id)
  }

  /** LastWrite finds exactly the last record that names `id`. */
  lemma {:induction false} LastWriteIsLast(batch: seq<Record>, id: string)
    ensures LastWrite(batch, id).None? <==> forall i :: 0 <= i < |batch| ==> batch[i].id != id
    ensures LastWrite(batch, id).Some? ==>
      exists i :: 0 <= i < |batch| && batch[i] == Record(id, LastWrite(batch, id).value) &&
        forall j :: i < j < |batch| ==> batch[j].id != id
  {
    if batch != [] {
      var n := |batch| - 1;
      LastWriteIsLast(batch[..n], id);
      if batch[n].id != id && LastWrite(batch, id).Some? {
        var i :| 0 <= i < n && batch[..n][i] == Record(id, LastWrite(batch, id).value) &&
          forall j :: i < j < n ==> batch[..n][j].id != id;
        assert batch[i] == batch[..n][i];
      }
      if batch[n].id != id {
        assert forall i :: 0 <= i < n ==> batch[i] == batch[..n][i];
      }
    }
  }

  /** The batch never breaks the shape of the own keys. */
  lemma {:induction false} ApplyBatchWellFormed(t: seq<Entry>, batch: seq<Record>)
    requires WellFormed(t)
    ensures WellFormed(ApplyBatch(t, batch))
  {
    if batch != [] {
      var n := |batch| - 1;
      ApplyBatchWellFormed(t, batch[..n]);
      AssignWellFormed(ApplyBatch(t, batch[..n]), batch[n].id, batch[n].isIntersecting);
    }
  }

  /** Last write wins: an id the batch names reads as its last record says;
      any other key reads as before. `__proto__` is never written. */
  lemma {:induction false} ApplyBatchGet(t: seq<Entry>, batch: seq<Record>, id: string)
    ensures Get(ApplyBatch(t, batch), id) ==
      if id != ProtoKey && LastWrite(batch, id).Some? then LastWrite(batch, id) else Get(t, id)
  {
    if batch != [] {
      var n := |batch| - 1;
      ApplyBatchGet(t, batch[..n], id);
      AssignGet(ApplyBatch(t, batch[..n]), batch[n].id, batch[n].isIntersecting, id);
    }
  }

  lemma GetSome(t: seq<Entry>, k: string)
    ensures Get(t, k).Some? <==> k in Keys(t)
  {
  }

  /** Keys are never removed; the only keys added are the ids the batch names. */
  lemma ApplyBatchKeys(t: seq<Entry>, batch: seq<Record>, id: string)
    ensures id in Keys(ApplyBatch(t, batch)) <==>
      id in Keys(t) || (id != ProtoKey && exists i :: 0 <= i < |batch| && batch[i].id == id)
  {
    ApplyBatchGet(t, batch, id);
    GetSome(t, id);
    GetSome(ApplyBatch(t, batch), id);
    LastWriteIsLast(batch, id);
  }

  /** Keys already present keep their relative order. */
  lemma {:induction false} ApplyBatchKeepsOrder(t: seq<Entry>, batch: seq<Record>, a: string, b: string)
    requires Before(Keys(t), a, b)
    ensures Before(Keys(ApplyBatch(t, batch)), a, b)
  {
    if batch != [] {
      var n := |batch| - 1;
      ApplyBatchKeepsOrder(t, batch[..n], a, b);
      AssignKeepsOrder(ApplyBatch(t, batch[..n]), batch[n].id, batch[n].isIntersecting, a, b);
    }
  }

  /** The non-index ids of the batch that are new to `ks`, in the order of their
      first record. */
  function Arrivals(ks: seq<string>, batch: seq<Record>): seq<string>
  {
    if batch == [] then []
    else
      var n := |batch| - 1;
      var id := batch[n].id;
      Arrivals(ks, batch[..n]) +
        (if id != ProtoKey && !IsArrayIndex(id) && id !in ks && LastWrite(batch[..n], id).None?
         then [id] else [])
  }

  /** Non-index keys are listed in creation order: the old ones first, then the
      new ones in the order in which the batch first names them. */
  lemma {:induction false} ApplyBatchNonIndexKeys(t: seq<Entry>, batch: seq<Record>)
    ensures NonIndexKeys(Keys(ApplyBatch(t, batch))) == NonIndexKeys(Keys(t)) + Arrivals(Keys(t), batch)
  {
    if batch != [] {
      var n := |batch| - 1;
      var id := batch[n].id;
      var u := ApplyBatch(t, batch[..n]);
      ApplyBatchNonIndexKeys(t, batch[..n]);
      AssignNonIndexKeys(u, id, batch[n].isIntersecting);
      ApplyBatchGet(t, batch[..n], id);
      GetSome(t, id);
      GetSome(u, id);
    }
  }

  /** Writing ids that are all present already changes values only, each to the
      last value the batch gives it. */
  lemma {:induction false} ApplyBatchToPresentKeys(u: seq<Entry>, batch: seq<Record>)
    requires WellFormed(u)
    requires forall i :: 0 <= i < |batch| && batch[i].id != ProtoKey ==> batch[i].id in Keys(u)
    ensures |ApplyBatch(u, batch)| == |u|
    ensures forall i :: 0 <= i < |u| ==>
      ApplyBatch(u, batch)[i] == Entry(u[i].key, LastWrite(batch, u[i].key).GetOr(u[i].value))
  {
    if batch != [] {
      var n := |batch| - 1;
      var last := batch[n];
      var a := ApplyBatch(u, batch[..n]);
      forall i | 0 <= i < n && batch[..n][i].id != ProtoKey ensures batch[..n][i].id in Keys(u) {
        assert batch[..n][i] == batch[i];
      }
      ApplyBatchToPresentKeys(u, batch[..n]);
      assert forall i :: 0 <= i < |u| ==> Keys(a)[i] == Keys(u)[i];
      assert Keys(a) == Keys(u);
      if last.id != ProtoKey {
        var i0 := IndexOf(Keys(a), last.id).value;
        assert ApplyBatch(u, batch) == a[i0 := Entry(last.id, last.isIntersecting)];
        forall i | 0 <= i < |u| && i != i0 ensures u[i].key != last.id {
          assert Keys(u)[i] == u[i].key && Keys(u)[i0] == u[i0].key;
        }
      } else {
        assert ProtoKey !in Keys(u);
        forall i | 0 <= i < |u| ensures u[i].key != last.id {
          assert Keys(u)[i] == u[i].key;
        }
      }
    }
  }

  /** Processing the same batch twice gives the same table as processing it once. */
  lemma ApplyBatchIdempotent(t: seq<Entry>, batch: seq<Record>)
    requires WellFormed(t)
    ensures ApplyBatch(ApplyBatch(t, batch), batch) == ApplyBatch(t, batch)
  {
    var u := ApplyBatch(t, batch);
    ApplyBatchWellFormed(t, batch);
    forall i | 0 <= i < |batch| && batch[i].id != ProtoKey ensures batch[i].id in Keys(u) {
      ApplyBatchKeys(t, batch, batch[i].id);
    }
    ApplyBatchToPresentKeys(u, batch);
    forall i | 0 <= i < |u| ensures ApplyBatch(u, batch)[i] == u[i] {
      var k := u[i].key;
      assert Keys(u)[i] == k;
      IndexOfAt(Keys(u), k, i);
      ApplyBatchGet(t, batch, k);
      assert ProtoKey !in Keys(u);
    }
  }

  // ---------------------------------------------------------------------------
  // Step 2: the current section

  /** The first key, in iteration order, whose value is true. */
  function FirstVisible(t: seq<Entry>): Option<string>
  {
    if t == [] then None
    else if t[0].value then Some(t[0].key)
    else FirstVisible(t[1..])
  }

  /** No section is current exactly when no value is true. */
  lemma {:induction false} FirstVisibleNone(t: seq<Entry>)
    ensures FirstVisible(t).None? <==> forall i :: 0 <= i < |t| ==> !t[i].value
  {
    if t != [] {
      FirstVisibleNone(t[1..]);
      assert forall i :: 1 <= i < |t| ==> t[i] == t[1..][i - 1];
    }
  }

  /** A true value with no true value before it names the current section. */
  lemma {:induction false} FirstVisibleAt(t: seq<Entry>, i: nat)
    requires i < |t| && t[i].value
    requires forall j :: 0 <= j < i ==> !t[j].value
    ensures FirstVisible(t) == Some(t[i].key)
  {
    if i > 0 {
      FirstVisibleAt(t[1..], i - 1);
    }
  }

  /** The current section is a key whose value is true, and no key before it is true. */
  lemma {:induction false} FirstVisiblePosition(t: seq<Entry>) returns (i: nat)
    requires FirstVisible(t).Some?
    ensures i < |t| && t[i] == Entry(FirstVisible(t).value, true)
    ensures forall j :: 0 <= j < i ==> !t[j].value
  {
    if t[0].value {
      i := 0;
    } else {
      var i' := FirstVisiblePosition(t[1..]);
      i := i' + 1;
    }
  }

  /** In a table of distinct keys the current section reads as true. */
  lemma CurrentReadsTrue(t: seq<Entry>)
    requires WellFormed(t) && FirstVisible(t).Some?
    ensures Get(t, FirstVisible(t).value) == Some(true)
  {
    var i := FirstVisiblePosition(t);
    assert Keys(t)[i] == t[i].key;
    IndexOfAt(Keys(t), t[i].key, i);
  }

  lemma AscendingAt(t: seq<Entry>, i: nat, j: nat)
    requires IndicesFirstAscending(t) && i <= j < |t| && IsArrayIndex(t[j].key)
    ensures IsArrayIndex(t[i].key) && DecimalValue(t[i].key) <= DecimalValue(t[j].key)
  {
  }

  /** Array-index ids jump the queue: if any of them is visible, the current
      section is a visible array index no larger than it, whatever the order
      in which the records arrived. */
  lemma VisibleIndexWins(t: seq<Entry>, i: nat)
    requires WellFormed(t) && i < |t| && t[i].value && IsArrayIndex(t[i].key)
    ensures FirstVisible(t).Some?
    ensures IsArrayIndex(FirstVisible(t).value)
    ensures DecimalValue(FirstVisible(t).value) <= DecimalValue(t[i].key)
  {
    FirstVisibleNone(t);
    assert FirstVisible(t).Some?;
    var f := FirstVisiblePosition(t);
    assert f <= i;
    AscendingAt(t, f, i);
  }

  // ---------------------------------------------------------------------------
  // Step 3: the links are restyled

  /** What the template literal `${currentSectionId}` produces: the id, or the
      text "undefined" when there is no current section. */
  function TemplateText(current: Option<string>): string
  {
    match current
    case Some(id) => id
    case None => "undefined"
  }

  /** The `href` a link must have to be the active one. */
  function Target(current: Option<string>): string
  {
    "#" + TemplateText(current)
  }

  /** The class of a link whose `getAttribute("href")` is `href` (None for a
      link without the attribute). */
  function ClassFor(href: Option<string>, current: Option<string>): string
  {
    if href == Some(Target(current)) then Active else ""
  }

  /** The class of every link after the callback; it does not depend on the
      classes the links had before. */
  function Restyled(hrefs: seq<Option<string>>, current: Option<string>): seq<string>
  {
    seq(|hrefs|, i requires 0 <= i < |hrefs| => ClassFor(hrefs[i], current))
  }

  /** "#" + a == "#" + b only when a == b. */
  lemma TargetInjective(a: string, b: string)
    requires "#" + a == "#" + b
    ensures a == b
  {
    assert a == ("#" + a)[1..] && b == ("#" + b)[1..];
  }

  /** Every active link has the same href, so among links whose present hrefs
      are pairwise distinct at most one is active. */
  lemma AtMostOneActive(hrefs: seq<Option<string>>, current: Option<string>, i: nat, j: nat)
    requires i < |hrefs| && j < |hrefs|
    requires Restyled(hrefs, current)[i] == Active && Restyled(hrefs, current)[j] == Active
    ensures hrefs[i] == hrefs[j] == Some(Target(current))
    ensures (forall m, n :: 0 <= m < n < |hrefs| && hrefs[m].Some? ==> hrefs[m] != hrefs[n]) ==> i == j
  {
  }

  /** A link that points at a key which is not the current section is not
      active, except for "#undefined" while no section is current. */
  lemma NonCurrentLinkInactive(t: seq<Entry>, hrefs: seq<Option<string>>, k: string, i: nat)
    requires i < |hrefs| && hrefs[i] == Some("#" + k)
    requires FirstVisible(t) != Some(k)
    requires !(FirstVisible(t).None? && k == "undefined")
    ensures Restyled(hrefs, FirstVisible(t))[i] == ""
  {
    if Restyled(hrefs, FirstVisible(t))[i] == Active {
      TargetInjective(k, TemplateText(FirstVisible(t)));
    }
  }

  /** When no section is visible, the only links left active are those whose
      href is literally "#undefined". */
  lemma NothingVisible(t: seq<Entry>, hrefs: seq<Option<string>>)
    requires forall i :: 0 <= i < |t| ==> !t[i].value
    ensures forall i :: 0 <= i < |hrefs| ==>
      (Restyled(hrefs, FirstVisible(t))[i] == Active <==> hrefs[i] == Some("#undefined"))
  {
  }

  /** A link to a fragment that names no tracked section (and is not "#undefined")
      is never active. */
  lemma UnmatchedLinkInactive(t: seq<Entry>, hrefs: seq<Option<string>>, k: string, i: nat)
    requires i < |hrefs| && hrefs[i] == Some("#" + k)
    requires k !in Keys(t) && k != "undefined"
    ensures Restyled(hrefs, FirstVisible(t))[i] == ""
  {
    if FirstVisible(t).Some? {
      var f := FirstVisiblePosition(t);
      assert Keys(t)[f] == FirstVisible(t).value;
    }
    NonCurrentLinkInactive(t, hrefs, k, i);
  }

  // ---------------------------------------------------------------------------
  // The callback as a whole

  /** The table and the link classes after one callback. */
  function Callback(t: seq<Entry>, hrefs: seq<Option<string>>, batch: seq<Record>): (seq<Entry>, seq<string>)
  {
    var u := ApplyBatch(t, batch);
    (u, Restyled(hrefs, FirstVisible(u)))
  }

  /** A second callback with the same batch changes neither the table nor any
      link's class. */
  lemma CallbackIdempotent(t: seq<Entry>, hrefs: seq<Option<string>>, batch: seq<Record>)
    requires WellFormed(t)
    ensures Callback(Callback(t, hrefs, batch).0, hrefs, batch) == Callback(t, hrefs, batch)
  {
    ApplyBatchIdempotent(t, batch);
  }

  // ---------------------------------------------------------------------------
  // Concrete runs

  /** Whichever section was recorded first wins a tie between visible sections. */
  lemma FirstArrivalWins()
    ensures ApplyBatch([], [Record("intro", true), Record("about", true)]) ==
      [Entry("intro", true), Entry("about", true)]
    ensures FirstVisible(ApplyBatch([], [Record("intro", true), Record("about", true)])) == Some("intro")
    ensures Restyled([Some("#intro"), Some("#about")], Some("intro")) == [Active, ""]
  {
    var b := [Record("intro", true), Record("about", true)];
    assert !IsArrayIndex("intro") by { assert !IsDigit("intro"[0]); }
    assert !IsArrayIndex("about") by { assert !IsDigit("about"[0]); }
    assert b[..1] == [Record("intro", true)];
    assert ApplyBatch([], b[..1]) == [Entry("intro", true)];
    assert "#intro" != "#about" by { assert "#intro"[1] != "#about"[1]; }
    var r := Restyled([Some("#intro"), Some("#about")], Some("intro"));
    assert Target(Some("intro")) == "#intro";
    assert |r| == 2 && r[0] == Active && r[1] == "";
  }

  /** The only visible section turning invisible leaves no link active. */
  lemma LastVisibleSectionLeaves()
    ensures ApplyBatch([Entry("intro", true), Entry("about", false)], [Record("intro", false)]) ==
      [Entry("intro", false), Entry("about", false)]
    ensures FirstVisible([Entry("intro", false), Entry("about", false)]) == None
    ensures Restyled([Some("#intro"), Some("#about")], None) == ["", ""]
  {
  }

  /** An array-index id is listed first, so it becomes current although it
      arrived last. */
  lemma IntegerIdJumpsAhead()
    ensures ApplyBatch([], [Record("intro", true), Record("3", true)]) ==
      [Entry("3", true), Entry("intro", true)]
    ensures FirstVisible([Entry("3", true), Entry("intro", true)]) == Some("3")
  {
  }

  /** A section with id "__proto__" is never recorded. */
  lemma ProtoIdIgnored()
    ensures ApplyBatch([], [Record(ProtoKey, true)]) == []
    ensures FirstVisible(ApplyBatch([], [Record(ProtoKey, true)])) == None
  {
  }

  /** With nothing visible the comparison text is "#undefined", so a link with
      that href turns active. */
  lemma UndefinedLinkLit()
    ensures Restyled([Some("#intro"), Some("#undefined")], FirstVisible([Entry("intro", false)])) == ["", Active]
  {
    assert Target(None) == "#undefined";
    assert Some("#intro") != Some("#undefined") by { assert "#intro"[1] != "#undefined"[1]; }
  }

  /** A section without an id is recorded under "" and lights the link "#". */
  lemma UnnamedSectionLightsHashLink()
    ensures Restyled([Some("#"), Some("#intro")], FirstVisible(ApplyBatch([], [Record("", true)]))) == [Active, ""]
  {
    assert [Record("", true)][..0] == [];
    assert !IsArrayIndex("");
    assert ApplyBatch([], [Record("", true)]) == [Entry("", true)];
    assert Target(Some("")) == "#";
    assert "#" != "#intro" by { assert |"#"| != |"#intro"|; }
  }

  // ---------------------------------------------------------------------------
  // The page-level state

  /** The scrollspy's state: the section-visibility object and the selected
      navigation links, each reduced to its `href` and its `className`. */
  class Tracker {
    var sectionVisibilities: seq<Entry>
    const navHrefs: array<Option<string>>
    const navClasses: array<string>

    ghost predicate Valid()
      reads this
    {
      WellFormed(sectionVisibilities) && navHrefs.Length == navClasses.Length
    }

    /** The state at load time: an empty object and the links found on the page. */
    constructor (hrefs: array<Option<string>>, classes: array<string>)
      requires hrefs.Length == classes.Length
      ensures Valid()
      ensures sectionVisibilities == [] && navHrefs == hrefs && navClasses == classes
    {
      sectionVisibilities := [];
      navHrefs := hrefs;
      navClasses := classes;
    }

    /** The scan over `Object.entries(sectionVisibilities)` that stops at the
        first visible section. */
    method CurrentSection() returns (current: Option<string>)
      ensures current == FirstVisible(sectionVisibilities)
      ensures current.None? ==> forall i :: 0 <= i < |sectionVisibilities| ==> !sectionVisibilities[i].value
    {
      var entries := sectionVisibilities;
      current := None;
      var i := 0;
      while i < |entries|
        invariant 0 <= i <= |entries|
        invariant forall j :: 0 <= j < i ==> !entries[j].value
      {
        if entries[i].value {
          current := Some(entries[i].key);
          FirstVisibleAt(entries, i);
          break;
        }
        i := i + 1;
      }
      if current.None? {
        FirstVisibleNone(entries);
      }
    }

    /** The observer callback: record the batch, pick the current section,
        rewrite the class of every link. */
    method OnIntersect(entries: seq<Record>)
      requires Valid()
      modifies this`sectionVisibilities, navClasses
      ensures Valid()
      ensures sectionVisibilities == ApplyBatch(old(sectionVisibilities), entries)
      ensures navClasses[..] == Restyled(navHrefs[..], FirstVisible(sectionVisibilities))
    {
      for i := 0 to |entries|
        invariant WellFormed(sectionVisibilities)
        invariant sectionVisibilities == ApplyBatch(old(sectionVisibilities), entries[..i])
      {
        assert entries[..i + 1][..i] == entries[..i];
        AssignWellFormed(sectionVisibilities, entries[i].id, entries[i].isIntersecting);
        sectionVisibilities := Assign(sectionVisibilities, entries[i].id, entries[i].isIntersecting);
      }
      assert entries[..|entries|] == entries;

      var currentSectionId := CurrentSection();
      for j := 0 to navClasses.Length
        invariant Valid() && sectionVisibilities == ApplyBatch(old(sectionVisibilities), entries)
        invariant forall m :: 0 <= m < j ==> navClasses[m] == ClassFor(navHrefs[m], currentSectionId)
      {
        navClasses[j] := if navHrefs[j] == Some("#" + TemplateText(currentSectionId)) then Active else "";
      }
    }
  }
}
