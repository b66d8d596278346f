/**
 * multi-org-comparator/src/commands/startComparison.ts: the comparison
 * command. Three parts of it decide what the user sees:
 *
 *   - the choice of the two orgs, from the suggested names or from prompts;
 *   - the choice of metadata types, from the suggestions or from a prompt;
 *   - the reconciliation of the two retrieved folders into result items.
 *
 * Prompts, file reads and the line diff are foreign; they are parameters:
 * a prompt is a function from its placeholder and options to the answer
 * (`None` when dismissed), a file read a function from a path to its text
 * (`None` when the read throws), and the line diff a function from two
 * texts to a part list.
 */
module StartComparison {
  import opened Wrappers
  import opened Strings
  import opened Seqs
  import opened DiffEngine
  import opened TreeView
  import MetadataNormalize

  type Reader = string -> Option<string>
  type LineDiff = (string, string) -> seq<Part>

  // ------------------------------------------------------------ relative names

  function Slash(c: char): char
  {
    if c == '\\' then '/' else c
  }

  /** `toRel`: the path after `base` and one separator, with '\' turned into '/'. */
  function ToRel(p: string, base: string): (r: string)
    ensures '\\' !in r
    ensures |r| == if |base| + 1 <= |p| then |p| - |base| - 1 else 0
  {
    var start := if |base| + 1 <= |p| then |base| + 1 else |p|;
    MapSeq(p[start..], Slash)
  }

  /** A path joined below `base` maps back to its relative name. */
  lemma ToRelOfJoin(base: string, sep: char, name: string)
    ensures ToRel(base + [sep] + name, base) == MapSeq(name, Slash)
    ensures '\\' !in name ==> ToRel(base + [sep] + name, base) == name
  {
    assert (base + [sep] + name)[|base| + 1..] == name;
  }

  /** The (relative name, path) pairs a `Map` is built from. */
  function Entries(files: seq<string>, base: string): (es: seq<(string, string)>)
    ensures |es| == |files|
    ensures forall i :: 0 <= i < |files| ==> es[i] == (ToRel(files[i], base), files[i])
  {
    MapSeq(files, f => (ToRel(f, base), f))
  }

  /** `new Map(entries)`: a later entry for the same name overwrites an earlier one. */
  function MapFromEntries(es: seq<(string, string)>): map<string, string>
  {
    if |es| == 0 then map[]
    else MapFromEntries(es[..|es| - 1])[es[|es| - 1].0 := es[|es| - 1].1]
  }

  lemma {:induction false} MapFromEntriesKeys(es: seq<(string, string)>)
    ensures forall k :: k in MapFromEntries(es) <==> k in KeysOf(es)
  {
    if |es| > 0 {
      var init := es[..|es| - 1];
      MapFromEntriesKeys(init);
      assert KeysOf(es) == KeysOf(init) + [es[|es| - 1].0];
    }
  }

  /** `map.keys()`: the names in order of first insertion. */
  function MapKeys(es: seq<(string, string)>): seq<string>
  {
    Dedup(KeysOf(es))
  }

  /** `new Set([...mapA.keys(), ...mapB.keys()])`, in insertion order. */
  function Union(esA: seq<(string, string)>, esB: seq<(string, string)>): seq<string>
  {
    Dedup(MapKeys(esA) + MapKeys(esB))
  }

  /** `rels`: the union, sorted. */
  function Rels(esA: seq<(string, string)>, esB: seq<(string, string)>): seq<string>
  {
    SortBy(Union(esA, esB), Id)
  }

  /** The names visited are the names of either map, ascending and without repeats. */
  lemma RelsSpec(esA: seq<(string, string)>, esB: seq<(string, string)>)
    ensures var rels := Rels(esA, esB);
      && SortedBy(rels, Id)
      && Distinct(rels)
      && forall k :: k in rels <==> k in MapFromEntries(esA) || k in MapFromEntries(esB)
  {
    var u := Union(esA, esB);
    DedupCorrect(KeysOf(esA));
    DedupCorrect(KeysOf(esB));
    DedupCorrect(MapKeys(esA) + MapKeys(esB));
    SortByCorrect(u, Id);
    SortByMembers(u, Id);
    DistinctPermutation(u, SortBy(u, Id));
    MapFromEntriesKeys(esA);
    MapFromEntriesKeys(esB);
  }

  // ------------------------------------------------------------ one name

  /** A JavaScript truth test on a looked-up path: present and not empty. */
  predicate Truthy(p: Option<string>)
  {
    p.Some? && p.value != ""
  }

  function Lookup(m: map<string, string>, k: string): Option<string>
  {
    if k in m then Some(m[k]) else None
  }

  /** `(t.match(/\n/g) || []).length + (t.length > 0 ? 1 : 0)`. */
  function LineCount(t: string): nat
  {
    Count(t, '\n') + (if |t| > 0 then 1 else 0)
  }

  /** The line count is the number of lines `split('\n')` yields, and 0 for empty text. */
  lemma LineCountLines(t: string)
    ensures LineCount(t) == if t == "" then 0 else |Split(t, '\n')|
  {
    SplitLength(t, '\n');
  }

  /**
   * The item produced for one name (`None`: no item). A name in both maps
   * yields a modified item when the normalised texts differ; a name in one
   * map only yields a deleted or added item whose count is the normalised
   * line count. A read that throws yields no item.
   */
  function ItemFor(rel: string, aPath: Option<string>, bPath: Option<string>, read: Reader, diffLines: LineDiff)
    : Option<FileDiffItem>
  {
    if Truthy(aPath) && Truthy(bPath) then
      match (read(aPath.value), read(bPath.value))
      case (Some(aText), Some(bText)) =>
        var s := Summary(diffLines(MetadataNormalize.NormalizeText(aText), MetadataNormalize.NormalizeText(bText)));
        if s.isDifferent
        then Some(FileDiffItem(rel, aPath.value, bPath.value, s.firstChangeLine, Some(s.added), Some(s.removed), Some(Modified)))
        else None
      case _ => None
    else if Truthy(aPath) then
      match read(aPath.value)
      case Some(aText) =>
        var n := LineCount(MetadataNormalize.NormalizeText(aText));
        Some(FileDiffItem("[Deleted in B] " + rel, aPath.value, aPath.value + ".empty.right", Some(1), Some(0), Some(n), Some(Deleted)))
      case None => None
    else if Truthy(bPath) then
      match read(bPath.value)
      case Some(bText) =>
        var n := LineCount(MetadataNormalize.NormalizeText(bText));
        Some(FileDiffItem("[Added in B] " + rel, bPath.value + ".empty.left", bPath.value, Some(1), Some(n), Some(0), Some(Added)))
      case None => None
    else None
  }

  /** The body of the `for (const rel of rels)` loop, inside its `try`. */
  method ProcessName(rel: string, aPath: Option<string>, bPath: Option<string>, read: Reader, diffLines: LineDiff)
    returns (item: Option<FileDiffItem>)
    ensures item == ItemFor(rel, aPath, bPath, read, diffLines)
  {
    if Truthy(aPath) && Truthy(bPath) {
      var aText := read(aPath.value);
      if aText.None? { return None; }
      var bText := read(bPath.value);
      if bText.None? { return None; }
      var normA := MetadataNormalize.NormalizeText(aText.value);
      var normB := MetadataNormalize.NormalizeText(bText.value);
      var summary := SummarizeDiff(diffLines(normA, normB));
      if summary.isDifferent {
        item := Some(FileDiffItem(rel, aPath.value, bPath.value, summary.firstChangeLine,
                                  Some(summary.added), Some(summary.removed), Some(Modified)));
      } else {
        item := None;
      }
    } else if Truthy(aPath) {
      var aText := read(aPath.value);
      if aText.None? { return None; }
      var normA := MetadataNormalize.NormalizeText(aText.value);
      var lineCount := LineCount(normA);
      var emptyTemp := aPath.value + ".empty.right";
      item := Some(FileDiffItem("[Deleted in B] " + rel, aPath.value, emptyTemp, Some(1), Some(0), Some(lineCount), Some(Deleted)));
    } else if Truthy(bPath) {
      var bText := read(bPath.value);
      if bText.None? { return None; }
      var normB := MetadataNormalize.NormalizeText(bText.value);
      var lineCount := LineCount(normB);
      var emptyTemp := bPath.value + ".empty.left";
      item := Some(FileDiffItem("[Added in B] " + rel, emptyTemp, bPath.value, Some(1), Some(lineCount), Some(0), Some(Added)));
    } else {
      item := None;
    }
  }

  /** A name on both sides gives a modified item carrying the summary of its normalised texts. */
  lemma ModifiedItem(rel: string, aPath: Option<string>, bPath: Option<string>, read: Reader, diffLines: LineDiff)
    requires Truthy(aPath) && Truthy(bPath)
    ensures var it := ItemFor(rel, aPath, bPath, read, diffLines);
      it.Some? <==>
        && read(aPath.value).Some? && read(bPath.value).Some?
        && Summary(diffLines(MetadataNormalize.NormalizeText(read(aPath.value).value),
                             MetadataNormalize.NormalizeText(read(bPath.value).value))).isDifferent
    ensures var it := ItemFor(rel, aPath, bPath, read, diffLines);
      it.Some? ==>
        var s := Summary(diffLines(MetadataNormalize.NormalizeText(read(aPath.value).value),
                                   MetadataNormalize.NormalizeText(read(bPath.value).value)));
        && it.value.labelText == rel
        && it.value.status == Some(Modified)
        && it.value.resourceLeft == aPath.value && it.value.resourceRight == bPath.value
        && it.value.firstChangeLine == s.firstChangeLine && it.value.firstChangeLine.Some?
        && it.value.added == Some(s.added) && it.value.removed == Some(s.removed)
  {
    var it := ItemFor(rel, aPath, bPath, read, diffLines);
    if it.Some? {
      var s := Summary(diffLines(MetadataNormalize.NormalizeText(read(aPath.value).value),
                                 MetadataNormalize.NormalizeText(read(bPath.value).value)));
      SummaryIsDifferent(diffLines(MetadataNormalize.NormalizeText(read(aPath.value).value),
                                   MetadataNormalize.NormalizeText(read(bPath.value).value)));
    }
  }

  /**
   * When the line diff reports a change exactly for unequal texts, a name on
   * both sides yields an item exactly when both reads succeed and the
   * normalised texts differ.
   */
  lemma ModifiedIffNormalisedTextsDiffer(rel: string, aPath: Option<string>, bPath: Option<string>,
                                         read: Reader, diffLines: LineDiff)
    requires Truthy(aPath) && Truthy(bPath)
    requires forall x, y :: (exists j :: 0 <= j < |diffLines(x, y)| && IsChange(diffLines(x, y)[j])) <==> x != y
    ensures ItemFor(rel, aPath, bPath, read, diffLines).Some? <==>
      && read(aPath.value).Some? && read(bPath.value).Some?
      && MetadataNormalize.NormalizeText(read(aPath.value).value) != MetadataNormalize.NormalizeText(read(bPath.value).value)
  {
    ModifiedItem(rel, aPath, bPath, read, diffLines);
    if read(aPath.value).Some? && read(bPath.value).Some? {
      SummaryIsDifferent(diffLines(MetadataNormalize.NormalizeText(read(aPath.value).value),
                                   MetadataNormalize.NormalizeText(read(bPath.value).value)));
    }
  }

  /** A name only in A gives a deleted item: label prefix, one line, nothing added, its lines removed. */
  lemma DeletedItem(rel: string, aPath: Option<string>, bPath: Option<string>, read: Reader, diffLines: LineDiff)
    requires Truthy(aPath) && !Truthy(bPath)
    ensures ItemFor(rel, aPath, bPath, read, diffLines).Some? <==> read(aPath.value).Some?
    ensures var it := ItemFor(rel, aPath, bPath, read, diffLines);
      it.Some? ==>
        && it.value.labelText == "[Deleted in B] " + rel
        && it.value.status == Some(Deleted)
        && it.value.resourceLeft == aPath.value
        && it.value.resourceRight == aPath.value + ".empty.right"
        && it.value.firstChangeLine == Some(1)
        && it.value.added == Some(0)
        && it.value.removed == Some(LineCount(MetadataNormalize.NormalizeText(read(aPath.value).value)))
  {
  }

  /** A name only in B gives an added item: label prefix, one line, its lines added, nothing removed. */
  lemma AddedItem(rel: string, aPath: Option<string>, bPath: Option<string>, read: Reader, diffLines: LineDiff)
    requires !Truthy(aPath) && Truthy(bPath)
    ensures ItemFor(rel, aPath, bPath, read, diffLines).Some? <==> read(bPath.value).Some?
    ensures var it := ItemFor(rel, aPath, bPath, read, diffLines);
      it.Some? ==>
        && it.value.labelText == "[Added in B] " + rel
        && it.value.status == Some(Added)
        && it.value.resourceLeft == bPath.value + ".empty.left"
        && it.value.resourceRight == bPath.value
        && it.value.firstChangeLine == Some(1)
        && it.value.added == Some(LineCount(MetadataNormalize.NormalizeText(read(bPath.value).value)))
        && it.value.removed == Some(0)
  {
  }

  /** Every item's label ends with its name, and its status is set. */
  lemma ItemLabel(rel: string, aPath: Option<string>, bPath: Option<string>, read: Reader, diffLines: LineDiff)
    ensures var it := ItemFor(rel, aPath, bPath, read, diffLines);
      it.Some? ==> EndsWith(it.value.labelText, rel) && it.value.status.Some?
  {
    var it := ItemFor(rel, aPath, bPath, read, diffLines);
    if it.Some? {
      assert it.value.labelText == rel
          || it.value.labelText == "[Deleted in B] " + rel
          || it.value.labelText == "[Added in B] " + rel;
    }
  }

  /**
   * Equal texts on both sides: if the line diff of a text with itself holds
   * only unchanged parts, the name yields no item.
   */
  lemma EqualTextsGiveNoItem(rel: string, aPath: Option<string>, bPath: Option<string>, read: Reader, diffLines: LineDiff)
    requires Truthy(aPath) && Truthy(bPath)
    requires read(aPath.value).Some? && read(bPath.value).Some?
    requires MetadataNormalize.NormalizeText(read(aPath.value).value) == MetadataNormalize.NormalizeText(read(bPath.value).value)
    requires forall x, j :: 0 <= j < |diffLines(x, x)| ==> !IsChange(diffLines(x, x)[j])
    ensures ItemFor(rel, aPath, bPath, read, diffLines).None?
  {
    var n := MetadataNormalize.NormalizeText(read(aPath.value).value);
    UnchangedOnly(diffLines(n, n));
  }

  // ------------------------------------------------------------ the loop

  function ItemForName(rel: string, mapA: map<string, string>, mapB: map<string, string>, read: Reader, diffLines: LineDiff)
    : Option<FileDiffItem>
  {
    ItemFor(rel, Lookup(mapA, rel), Lookup(mapB, rel), read, diffLines)
  }

  /** The items of the loop: one per name that yields one, in name order. */
  function Reconciled(rels: seq<string>, mapA: map<string, string>, mapB: map<string, string>, read: Reader, diffLines: LineDiff)
    : seq<FileDiffItem>
  {
    if |rels| == 0 then []
    else
      var item := ItemForName(rels[|rels| - 1], mapA, mapB, read, diffLines);
      Reconciled(rels[..|rels| - 1], mapA, mapB, read, diffLines) + (if item.Some? then [item.value] else [])
  }

  /** The names that yield an item. */
  function Kept(rels: seq<string>, mapA: map<string, string>, mapB: map<string, string>, read: Reader, diffLines: LineDiff)
    : seq<string>
  {
    Filter(rels, rel => ItemForName(rel, mapA, mapB, read, diffLines).Some?)
  }

  /**
   * The items are the kept names' items, in the order of the names: at most
   * one item per name, so no more items than names.
   */
  lemma {:induction false} ReconciledKept(rels: seq<string>, mapA: map<string, string>, mapB: map<string, string>,
                                          read: Reader, diffLines: LineDiff)
    ensures var items, kept := Reconciled(rels, mapA, mapB, read, diffLines), Kept(rels, mapA, mapB, read, diffLines);
      && |items| == |kept| <= |rels|
      && forall k :: 0 <= k < |kept| ==>
           ItemForName(kept[k], mapA, mapB, read, diffLines) == Some(items[k])
  {
    if |rels| > 0 {
      ReconciledKept(rels[..|rels| - 1], mapA, mapB, read, diffLines);
    }
  }

  /** Over the sorted union, the kept names are strictly ascending. */
  lemma KeptAscending(esA: seq<(string, string)>, esB: seq<(string, string)>, read: Reader, diffLines: LineDiff)
    ensures var kept := Kept(Rels(esA, esB), MapFromEntries(esA), MapFromEntries(esB), read, diffLines);
      forall k, l :: 0 <= k < l < |kept| ==> kept[k] != kept[l] && LexLe(kept[k], kept[l])
  {
    var rels := Rels(esA, esB);
    var p := rel => ItemForName(rel, MapFromEntries(esA), MapFromEntries(esB), read, diffLines).Some?;
    RelsSpec(esA, esB);
    FilterSpec(rels, p);
    var idx := FilterIndices(rels, p);
    assert forall k, l :: 0 <= k < l < |idx| ==> idx[k] < idx[l];
  }

  /** Each name is processed on its own: the items of a split list are the items of its parts. */
  lemma {:induction false} ReconciledConcat(r1: seq<string>, r2: seq<string>, mapA: map<string, string>,
                                            mapB: map<string, string>, read: Reader, diffLines: LineDiff)
    ensures Reconciled(r1 + r2, mapA, mapB, read, diffLines)
         == Reconciled(r1, mapA, mapB, read, diffLines) + Reconciled(r2, mapA, mapB, read, diffLines)
    decreases |r2|
  {
    if |r2| == 0 {
      assert r1 + r2 == r1;
    } else {
      assert (r1 + r2)[..|r1 + r2| - 1] == r1 + r2[..|r2| - 1];
      ReconciledConcat(r1, r2[..|r2| - 1], mapA, mapB, read, diffLines);
    }
  }

  /** A read that throws drops that name's item and nothing else. */
  lemma ReadFailureDropsOnlyThatName(r1: seq<string>, rel: string, r2: seq<string>, mapA: map<string, string>,
                                     mapB: map<string, string>, read: Reader, diffLines: LineDiff)
    requires (Truthy(Lookup(mapA, rel)) && read(Lookup(mapA, rel).value).None?)
          || (Truthy(Lookup(mapB, rel)) && read(Lookup(mapB, rel).value).None?)
    ensures Reconciled(r1 + [rel] + r2, mapA, mapB, read, diffLines)
         == Reconciled(r1, mapA, mapB, read, diffLines) + Reconciled(r2, mapA, mapB, read, diffLines)
  {
    ReadFailureNoItem(rel, mapA, mapB, read, diffLines);
    var p := r1 + [rel];
    assert p[..|p| - 1] == r1 && p[|p| - 1] == rel;
    assert Reconciled(p, mapA, mapB, read, diffLines) == Reconciled(r1, mapA, mapB, read, diffLines);
    ReconciledConcat(p, r2, mapA, mapB, read, diffLines);
  }

  /** A name whose file read throws yields no item. */
  lemma ReadFailureNoItem(rel: string, mapA: map<string, string>, mapB: map<string, string>, read: Reader, diffLines: LineDiff)
    requires (Truthy(Lookup(mapA, rel)) && read(Lookup(mapA, rel).value).None?)
          || (Truthy(Lookup(mapB, rel)) && read(Lookup(mapB, rel).value).None?)
    ensures ItemForName(rel, mapA, mapB, read, diffLines).None?
  {
  }

  /**
   * The reconciliation: the two maps from the collected files, the sorted
   * union of their names (sorted in place), and one pass over the names.
   */
  method Reconcile(filesA: seq<string>, filesB: seq<string>, folderA: string, folderB: string,
                   read: Reader, diffLines: LineDiff)
    returns (items: seq<FileDiffItem>)
    ensures var esA, esB := Entries(filesA, folderA), Entries(filesB, folderB);
      items == Reconciled(Rels(esA, esB), MapFromEntries(esA), MapFromEntries(esB), read, diffLines)
  {
    var esA, esB := Entries(filesA, folderA), Entries(filesB, folderB);
    var mapA, mapB := MapFromEntries(esA), MapFromEntries(esB);
    var names := Union(esA, esB);
    var arr := new string[|names|](i requires 0 <= i < |names| => names[i]);
    assert arr[..] == names;
    InsertionSortBy(arr, Id);
    var rels := arr[..];
    items := [];
    for i := 0 to |rels|
      invariant items == Reconciled(rels[..i], mapA, mapB, read, diffLines)
    {
      var rel := rels[i];
      var item := ProcessName(rel, Lookup(mapA, rel), Lookup(mapB, rel), read, diffLines);
      assert rels[..i + 1][..i] == rels[..i];
      if item.Some? {
        items := items + [item.value];
      }
    }
    assert rels[..|rels|] == rels;
  }

  // ------------------------------------------------------------ choosing the orgs

  /** One name contains the other, ignoring case. */
  predicate OrgMatches(alias: string, suggested: string)
  {
    Contains(ToLower(alias), ToLower(suggested)) || Contains(ToLower(suggested), ToLower(alias))
  }

  /** `orgAliases.find(...)`: the first matching alias. */
  function FindAlias(aliases: seq<string>, suggested: string): (m: Option<string>)
    ensures m.Some? ==> m.value in aliases && OrgMatches(m.value, suggested)
    ensures m.None? <==> forall a :: a in aliases ==> !OrgMatches(a, suggested)
  {
    if |aliases| == 0 then None
    else if OrgMatches(aliases[0], suggested) then Some(aliases[0])
    else
      assert forall a :: a in aliases ==> a == aliases[0] || a in aliases[1..];
      FindAlias(aliases[1..], suggested)
  }

  /** The alias found is the first alias that matches. */
  lemma {:induction false} FindAliasFirst(aliases: seq<string>, suggested: string)
    requires FindAlias(aliases, suggested).Some?
    ensures exists k :: (0 <= k < |aliases| && aliases[k] == FindAlias(aliases, suggested).value &&
                         forall j :: 0 <= j < k ==> !OrgMatches(aliases[j], suggested))
  {
    if !OrgMatches(aliases[0], suggested) {
      FindAliasFirst(aliases[1..], suggested);
      var k :| 0 <= k < |aliases[1..]| && aliases[1..][k] == FindAlias(aliases[1..], suggested).value
        && forall j :: 0 <= j < k ==> !OrgMatches(aliases[1..][j], suggested);
      assert aliases[k + 1] == FindAlias(aliases, suggested).value;
      forall j | 0 <= j < k + 1 ensures !OrgMatches(aliases[j], suggested) {
        if j > 0 { assert aliases[j] == aliases[1..][j - 1]; }
      }
    } else {
      assert aliases[0] == FindAlias(aliases, suggested).value;
    }
  }

  predicate Found(m: Option<string>)
  {
    m.Some? && m.value != ""
  }

  /** The aliases pushed into `matchedOrgs`. */
  function Matched(aliases: seq<string>, suggested: seq<string>): seq<string>
  {
    if |suggested| == 0 then []
    else
      var m := FindAlias(aliases, suggested[|suggested| - 1]);
      Matched(aliases, suggested[..|suggested| - 1]) + (if Found(m) then [m.value] else [])
  }

  /** The suggestions pushed into `missingOrgs`. */
  function Missing(aliases: seq<string>, suggested: seq<string>): seq<string>
  {
    Filter(suggested, s => !Found(FindAlias(aliases, s)))
  }

  /** The matching loop over the suggested orgs. */
  method MatchOrgs(aliases: seq<string>, suggested: seq<string>) returns (matched: seq<string>, missing: seq<string>)
    ensures matched == Matched(aliases, suggested)
    ensures missing == Missing(aliases, suggested)
  {
    matched, missing := [], [];
    for i := 0 to |suggested|
      invariant matched == Matched(aliases, suggested[..i])
      invariant missing == Missing(aliases, suggested[..i])
    {
      var s := suggested[i];
      var m := FindAlias(aliases, s);
      assert suggested[..i + 1][..i] == suggested[..i];
      if Found(m) {
        matched := matched + [m.value];
      } else {
        missing := missing + [s];
      }
    }
    assert suggested[..|suggested|] == suggested;
  }

  /**
   * Every suggestion is either matched or missing; matched names are
   * non-empty aliases; without an empty alias, a suggestion is missing
   * exactly when no alias matches it.
   */
  lemma {:induction false} MatchOrgsSpec(aliases: seq<string>, suggested: seq<string>)
    ensures |Matched(aliases, suggested)| + |Missing(aliases, suggested)| == |suggested|
    ensures forall m :: m in Matched(aliases, suggested) ==> m in aliases && m != ""
    ensures forall s :: s in Missing(aliases, suggested) ==> s in suggested
    ensures "" !in aliases ==> forall s :: s in Missing(aliases, suggested) <==>
      s in suggested && forall a :: a in aliases ==> !OrgMatches(a, s)
  {
    FilterMembers(suggested, s => !Found(FindAlias(aliases, s)));
    if |suggested| > 0 {
      MatchOrgsSpec(aliases, suggested[..|suggested| - 1]);
    }
  }

  lemma MatchedMember(aliases: seq<string>, suggested: seq<string>, i: nat)
    requires i < |Matched(aliases, suggested)|
    ensures Matched(aliases, suggested)[i] in aliases && Matched(aliases, suggested)[i] != ""
  {
    MatchOrgsSpec(aliases, suggested);
    assert Matched(aliases, suggested)[i] in Matched(aliases, suggested);
  }

  datatype OrgChoice =
    | NoOrgs                                                // no authenticated org
    | MissingOrgs(missing: seq<string>, available: seq<string>)  // reported to the assistant
    | Cancelled                                             // a prompt was dismissed
    | SameOrg                                               // the same org was chosen twice
    | Chosen(orgA: string, orgB: string)

  /** `orgAliases.filter(o => o !== orgA)`. */
  function Remaining(aliases: seq<string>, orgA: string): seq<string>
  {
    Filter(aliases, o => o != orgA)
  }

  /** The quick pick either is dismissed or returns one of the options it was offered. */
  ghost predicate PicksFromOptions(pick: (string, seq<string>) -> Option<string>)
  {
    forall p, opts :: pick(p, opts).Some? ==> pick(p, opts).value in opts
  }

  /**
   * Step 1 of the command. `suggested` is the assistant's org list, `hasCallback`
   * whether the assistant asked for feedback, and `pick` the quick pick.
   */
  method SelectOrgs(aliases: seq<string>, suggested: Option<seq<string>>, hasCallback: bool,
                    pick: (string, seq<string>) -> Option<string>)
    returns (r: OrgChoice)
    ensures r.NoOrgs? <==> |aliases| == 0
    ensures r.MissingOrgs? ==>
      && hasCallback && suggested.Some? && |suggested.value| >= 2
      && r.missing == Missing(aliases, suggested.value) && |r.missing| > 0
      && r.available == aliases
    ensures r.Chosen? ==> r.orgA != r.orgB && r.orgA != "" && r.orgB != ""
    ensures PicksFromOptions(pick) ==>
      r.Chosen? ==> r.orgA in aliases && r.orgB in aliases
    ensures (&& |aliases| > 0 && suggested.Some? && |suggested.value| >= 2
             && !(hasCallback && |Missing(aliases, suggested.value)| > 0)
             && |Matched(aliases, suggested.value)| >= 2) ==>
      var m := Matched(aliases, suggested.value);
      r == if m[0] == m[1] then SameOrg else Chosen(m[0], m[1])
    ensures PicksFromOptions(pick) && r.SameOrg? ==>
      && suggested.Some? && |suggested.value| >= 2 && |Matched(aliases, suggested.value)| >= 2
      && Matched(aliases, suggested.value)[0] == Matched(aliases, suggested.value)[1]
  {
    if |aliases| == 0 {
      return NoOrgs;
    }
    var orgA: Option<string> := None;
    var orgB: Option<string> := None;
    if suggested.Some? && |suggested.value| >= 2 {
      var matched, missing := MatchOrgs(aliases, suggested.value);
      if |missing| > 0 && hasCallback {
        return MissingOrgs(missing, aliases);
      }
      if |matched| >= 2 {
        MatchedMember(aliases, suggested.value, 0);
        MatchedMember(aliases, suggested.value, 1);
        orgA, orgB := Some(matched[0]), Some(matched[1]);
      } else if |matched| == 1 {
        MatchedMember(aliases, suggested.value, 0);
        orgA := Some(matched[0]);
      }
    }
    r := PromptOrgs(aliases, orgA, orgB, pick);
  }

  /**
   * The prompts of step 1: asks for whichever of the two orgs the
   * suggestions did not settle, then rejects choosing the same org twice.
   */
  method PromptOrgs(aliases: seq<string>, orgA: Option<string>, orgB: Option<string>,
                    pick: (string, seq<string>) -> Option<string>)
    returns (r: OrgChoice)
    requires orgA.Some? ==> orgA.value in aliases && orgA.value != ""
    requires orgB.Some? ==> orgB.value in aliases && orgB.value != ""
    ensures r.Cancelled? || r.SameOrg? || r.Chosen?
    ensures r.Chosen? ==> r.orgA != r.orgB && r.orgA != "" && r.orgB != ""
    ensures PicksFromOptions(pick) ==>
      r.Chosen? ==> r.orgA in aliases && r.orgB in aliases
    ensures orgA.Some? && orgB.Some? ==>
      r == if orgA.value == orgB.value then SameOrg else Chosen(orgA.value, orgB.value)
    ensures PicksFromOptions(pick) && orgB.None? ==>
      !r.SameOrg? && (r.Chosen? ==> r.orgB in Remaining(aliases, r.orgA))
  {
    var a, b := orgA, orgB;
    if !Truthy(a) {
      a := pick("Select Org A", aliases);
      if !Truthy(a) {
        return Cancelled;
      }
    }
    if !Truthy(b) {
      var remaining := Remaining(aliases, a.value);
      FilterMembers(aliases, o => o != a.value);
      b := pick("Select Org B", remaining);
      if !Truthy(b) {
        return Cancelled;
      }
    }
    if a.value == b.value {
      return SameOrg;
    }
    r := Chosen(a.value, b.value);
  }

  // ------------------------------------------------------------ choosing the types

  /** The fixed list of metadata types offered. */
  const MetadataTypes: seq<string> := [
    "ApexClass", "ApexTrigger", "LightningComponentBundle", "AuraDefinitionBundle", "ApexPage", "ApexComponent",
    "StaticResource",
    "CustomObject", "CustomMetadata", "CustomLabels", "GlobalValueSet", "Layout", "FlexiPage", "LightningPage",
    "FieldSet", "RecordType",
    "PermissionSet", "PermissionSetGroup", "CustomPermission", "NamedCredential", "RemoteSiteSetting",
    "Flow", "FlowDefinition", "ValidationRule", "Workflow", "AssignmentRules", "EscalationRules", "MatchingRules",
    "DuplicateRule", "QuickAction",
    "ExperienceBundle", "NavigationMenu", "CustomSite", "EmailTemplate", "CustomApplication",
    "ContentAsset", "Profile"
  ]

  /** The suggested types that are in the fixed list, in suggestion order. */
  function AutoSelectedTypes(suggested: seq<string>): seq<string>
  {
    Filter(suggested, t => t in MetadataTypes)
  }

  lemma AutoSelectedTypesSpec(suggested: seq<string>)
    ensures forall t :: t in AutoSelectedTypes(suggested) <==> t in suggested && t in MetadataTypes
    ensures var idx := FilterIndices(suggested, t => t in MetadataTypes);
      && |idx| == |AutoSelectedTypes(suggested)|
      && (forall k :: 0 <= k < |idx| ==> idx[k] < |suggested| && AutoSelectedTypes(suggested)[k] == suggested[idx[k]])
      && (forall k, l :: 0 <= k < l < |idx| ==> idx[k] < idx[l])
  {
    FilterMembers(suggested, t => t in MetadataTypes);
    FilterSpec(suggested, t => t in MetadataTypes);
  }

  /**
   * Step 2 of the command: the auto-selected types when there are any,
   * otherwise the answer of the multi-select prompt (`picked`); `None` when
   * that is dismissed or empty, which ends the command.
   */
  function SelectTypes(suggested: Option<seq<string>>, picked: Option<seq<string>>): (r: Option<seq<string>>)
    ensures r.Some? ==> |r.value| > 0
    ensures suggested.Some? && |AutoSelectedTypes(suggested.value)| > 0 ==> r == Some(AutoSelectedTypes(suggested.value))
    ensures !(suggested.Some? && |AutoSelectedTypes(suggested.value)| > 0) ==>
      r == if picked.Some? && |picked.value| > 0 then picked else None
  {
    var auto := if suggested.Some? && |suggested.value| > 0 then AutoSelectedTypes(suggested.value) else [];
    var selected := if |auto| > 0 then Some(auto) else picked;
    if selected.None? || |selected.value| == 0 then None else selected
  }
}
