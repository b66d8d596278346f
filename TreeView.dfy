/**
 * src/treeView.ts: the results tree. `MultiOrgTreeProvider` keeps the list
 * of compared files and the filter settings; toggles and setters change the
 * settings, and `getChildren` shows the items that pass the filters, each
 * label followed by its line counts. URIs are kept as strings; the change
 * event the methods fire is not modelled.
 */
module TreeView {
  import opened Wrappers
  import opened Strings
  import opened Seqs

  datatype Status = Modified | Added | Deleted

  /** One compared file; the optional fields of the source are `Option`s. */
  datatype FileDiffItem = FileDiffItem(
    labelText: string,
    resourceLeft: string,
    resourceRight: string,
    firstChangeLine: Option<nat>,
    added: Option<nat>,
    removed: Option<nat>,
    status: Option<Status>)

  datatype Filters = Filters(showModified: bool, showAdded: bool, showDeleted: bool, ext: string, text: string)

  /** The settings a new provider starts with and `clearFilters` restores. */
  const DefaultFilters := Filters(true, true, true, "", "")

  /** The status flag test; an item without a status follows `showModified`. */
  predicate StatusOk(i: FileDiffItem, f: Filters)
  {
    match i.status
    case Some(Modified) => f.showModified
    case Some(Added) => f.showAdded
    case Some(Deleted) => f.showDeleted
    case None => f.showModified
  }

  /** The suffix the extension filter asks for: lowercased, with a leading '.'. */
  function ExtSuffix(ext: string): string
  {
    if StartsWith(ext, ".") then ToLower(ext) else "." + ToLower(ext)
  }

  /** The predicate of `visible`. */
  predicate Passes(i: FileDiffItem, f: Filters)
  {
    var lower := ToLower(i.labelText);
    && StatusOk(i, f)
    && (f.ext == "" || EndsWith(lower, ExtSuffix(f.ext)))
    && (f.text == "" || Contains(lower, f.text))
  }

  /** `visible`: `items.filter(...)` with the settings `f`. */
  function FilterItems(items: seq<FileDiffItem>, f: Filters): (r: seq<FileDiffItem>)
  {
    Filter(items, i => Passes(i, f))
  }

  /**
   * `visible` keeps, in their original order, exactly the items that pass:
   * the result is `items` read at strictly increasing positions, and a
   * position is read exactly when its item passes.
   */
  lemma FilterItemsSpec(items: seq<FileDiffItem>, f: Filters)
    ensures var r, idx := FilterItems(items, f), FilterIndices(items, i => Passes(i, f));
      && |r| <= |items|
      && |idx| == |r|
      && (forall k :: 0 <= k < |idx| ==> idx[k] < |items| && r[k] == items[idx[k]])
      && (forall k, l :: 0 <= k < l < |idx| ==> idx[k] < idx[l])
      && (forall j :: 0 <= j < |items| ==> (Passes(items[j], f) <==> j in idx))
  {
    FilterSpec(items, i => Passes(i, f));
  }

  /** Membership form: an item is shown exactly when it is in the list and passes. */
  lemma FilterItemsMembers(items: seq<FileDiffItem>, f: Filters)
    ensures forall x :: x in FilterItems(items, f) <==> x in items && Passes(x, f)
  {
    FilterMembers(items, i => Passes(i, f));
  }

  /** Under the default settings every item is shown. */
  lemma DefaultShowsAll(items: seq<FileDiffItem>)
    ensures FilterItems(items, DefaultFilters) == items
  {
    FilterAll(items, i => Passes(i, DefaultFilters));
  }

  /** An extension filter with or without its leading '.' selects the same items. */
  lemma ExtDotOptional(i: FileDiffItem, f: Filters, e: string)
    requires e != "" && !StartsWith(e, ".")
    ensures Passes(i, f.(ext := e)) == Passes(i, f.(ext := "." + e))
  {
    assert ToLower("." + e) == "." + ToLower(e);
    assert StartsWith("." + e, ".");
    assert ExtSuffix(e) == ExtSuffix("." + e);
  }

  /** The extension filter and the label are compared case-insensitively. */
  lemma ExtFilterIgnoresCase(i: FileDiffItem, f: Filters)
    ensures Passes(i, f.(ext := ToLower(f.ext))) == Passes(i, f)
    ensures Passes(i.(labelText := ToLower(i.labelText)), f) == Passes(i, f)
  {
    ToLowerIdempotent(f.ext);
    ToLowerIdempotent(i.labelText);
    if StartsWith(f.ext, ".") {
      assert ToLower(f.ext)[..1] == ToLower(f.ext[..1]);
    } else if |f.ext| > 0 {
      assert ToLower(f.ext)[0] == LowerChar(f.ext[0]);
    }
  }

  /** A shown item has a status whose flag is on (no status counts as modified). */
  lemma ShownHasVisibleStatus(items: seq<FileDiffItem>, f: Filters)
    ensures forall x :: x in FilterItems(items, f) ==>
      && (x.status == Some(Modified) ==> f.showModified)
      && (x.status == Some(Added) ==> f.showAdded)
      && (x.status == Some(Deleted) ==> f.showDeleted)
      && (x.status.None? ==> f.showModified)
      && (f.text != "" ==> Contains(ToLower(x.labelText), f.text))
      && (f.ext != "" ==> EndsWith(ToLower(x.labelText), ExtSuffix(f.ext)))
  {
    FilterItemsMembers(items, f);
  }

  function OrZero(n: Option<nat>): nat
  {
    if n.Some? then n.value else 0
  }

  /** The suffix of a shown label: ` (+a/-r)` when either count is non-zero. */
  function CountSuffix(i: FileDiffItem): string
  {
    if OrZero(i.added) != 0 || OrZero(i.removed) != 0
    then " (+" + NatToString(OrZero(i.added)) + "/-" + NatToString(OrZero(i.removed)) + ")"
    else ""
  }

  /** The suffix appears exactly when the item has a non-zero count, and has fixed punctuation. */
  lemma CountSuffixRule(i: FileDiffItem)
    ensures CountSuffix(i) != "" <==> OrZero(i.added) + OrZero(i.removed) > 0
    ensures CountSuffix(i) != "" ==>
      && StartsWith(CountSuffix(i), " (+")
      && EndsWith(CountSuffix(i), ")")
      && Count(CountSuffix(i), '/') == 1
  {
    if CountSuffix(i) != "" {
      var a, r := NatToString(OrZero(i.added)), NatToString(OrZero(i.removed));
      DigitsHaveNoSlash(a);
      DigitsHaveNoSlash(r);
      CountConcat(" (+" + a + "/-", r + ")", '/');
      CountConcat(" (+" + a, "/-", '/');
      CountConcat(" (+", a, '/');
      CountConcat(r, ")", '/');
      assert " (+" + NatToString(OrZero(i.added)) + "/-" + NatToString(OrZero(i.removed)) + ")"
          == (" (+" + a + "/-") + (r + ")");
    }
  }

  /** The suffix shows the added and the removed count in decimal, a missing count as `0`. */
  lemma CountSuffixValues(i: FileDiffItem)
    ensures CountSuffix(i) != "" ==>
      exists a, r {:trigger DecimalValue(a), DecimalValue(r)} ::
        && IsDigits(a) && IsDigits(r)
        && CountSuffix(i) == " (+" + a + "/-" + r + ")"
        && DecimalValue(a) == OrZero(i.added) && DecimalValue(r) == OrZero(i.removed)
    ensures CountSuffix(i) != "" && i.added.None? ==> StartsWith(CountSuffix(i), " (+0/-")
    ensures CountSuffix(i) != "" && i.removed.None? ==> EndsWith(CountSuffix(i), "/-0)")
  {
    if CountSuffix(i) != "" {
      var a, r := NatToString(OrZero(i.added)), NatToString(OrZero(i.removed));
      NatToStringValue(OrZero(i.added));
      NatToStringValue(OrZero(i.removed));
      if i.added.None? {
        assert (" (+" + a + "/-" + r + ")")[..6] == " (+0/-";
      }
      if i.removed.None? {
        var sfx := " (+" + a + "/-" + r + ")";
        assert sfx[|sfx| - 4..] == "/-0)";
      }
    }
  }

  lemma DigitsHaveNoSlash(s: string)
    requires forall i :: 0 <= i < |s| ==> '0' <= s[i] <= '9'
    ensures Count(s, '/') == 0
  {
    CountAbsent(s, '/');
  }

  /** A tree entry: the displayed label and the item its command opens. */
  datatype TreeItem = TreeItem(labelText: string, item: FileDiffItem)

  class MultiOrgTreeProvider {
    var items: seq<FileDiffItem>
    var filters: Filters

    constructor(items: seq<FileDiffItem>)
      ensures this.items == items && filters == DefaultFilters
    {
      this.items := items;
      filters := DefaultFilters;
    }

    method SetItems(items: seq<FileDiffItem>)
      modifies this
      ensures this.items == items && filters == old(filters)
    {
      this.items := items;
    }

    /** `refresh(items?)`: any given array, even an empty one, replaces the items. */
    method Refresh(items: Option<seq<FileDiffItem>>)
      modifies this
      ensures this.items == (if items.Some? then items.value else old(this.items))
      ensures filters == old(filters)
    {
      if items.Some? {
        this.items := items.value;
      }
    }

    method ToggleModified()
      modifies this
      ensures filters == old(filters).(showModified := !old(filters.showModified))
      ensures items == old(items)
    {
      filters := filters.(showModified := !filters.showModified);
    }

    method ToggleAdded()
      modifies this
      ensures filters == old(filters).(showAdded := !old(filters.showAdded))
      ensures items == old(items)
    {
      filters := filters.(showAdded := !filters.showAdded);
    }

    method ToggleDeleted()
      modifies this
      ensures filters == old(filters).(showDeleted := !old(filters.showDeleted))
      ensures items == old(items)
    {
      filters := filters.(showDeleted := !filters.showDeleted);
    }

    method SetExtFilter(ext: string)
      modifies this
      ensures filters == old(filters).(ext := ext)
      ensures items == old(items)
    {
      filters := filters.(ext := ext);
    }

    /** The text filter is stored lowercased. */
    method SetTextFilter(text: string)
      modifies this
      ensures filters == old(filters).(text := ToLower(text))
      ensures items == old(items)
    {
      filters := filters.(text := ToLower(text));
    }

    method ClearFilters()
      modifies this
      ensures filters == DefaultFilters
      ensures items == old(items)
    {
      filters := DefaultFilters;
    }

    /**
     * `getChildren`: nothing below an entry; at the root one entry per
     * shown item, in order, labelled with the item's label and count suffix.
     */
    function GetChildren(element: Option<TreeItem>): (r: seq<TreeItem>)
      reads this
      ensures element.Some? ==> r == []
      ensures element.None? ==> |r| == |FilterItems(items, filters)|
      ensures element.None? ==> forall k :: 0 <= k < |r| ==>
        var i := FilterItems(items, filters)[k];
        r[k].item == i && r[k].labelText == i.labelText + CountSuffix(i)
    {
      if element.Some? then []
      else
        var list := FilterItems(items, filters);
        seq(|list|, k requires 0 <= k < |list| => TreeItem(list[k].labelText + CountSuffix(list[k]), list[k]))
    }
  }

  /** Toggling the modified flag twice restores the provider's state. */
  method ToggleModifiedTwiceRestores(p: MultiOrgTreeProvider)
    modifies p
    ensures p.filters == old(p.filters) && p.items == old(p.items)
  {
    p.ToggleModified();
    p.ToggleModified();
  }

  /** Toggling the added flag twice restores the provider's state. */
  method ToggleAddedTwiceRestores(p: MultiOrgTreeProvider)
    modifies p
    ensures p.filters == old(p.filters) && p.items == old(p.items)
  {
    p.ToggleAdded();
    p.ToggleAdded();
  }

  /** Toggling the deleted flag twice restores the provider's state. */
  method ToggleDeletedTwiceRestores(p: MultiOrgTreeProvider)
    modifies p
    ensures p.filters == old(p.filters) && p.items == old(p.items)
  {
    p.ToggleDeleted();
    p.ToggleDeleted();
  }

  /** After `clearFilters` the root shows every item. */
  method ClearShowsAll(p: MultiOrgTreeProvider) returns (r: seq<TreeItem>)
    modifies p
    ensures |r| == |p.items| && forall k :: 0 <= k < |r| ==> r[k].item == p.items[k]
  {
    p.ClearFilters();
    DefaultShowsAll(p.items);
    r := p.GetChildren(None);
  }
}
