/**
 * src/diffEngine.ts: `summarizeDiff` folds the part list of a line diff into
 * a `DiffSummary`. The diff algorithm itself is foreign, so the part list is
 * the input of the model.
 */
module DiffEngine {
  import opened Wrappers

  /** One entry of the line diff; a missing `count` is given as 0, as `part.count || 0` reads it. */
  datatype Part = Part(added: bool, removed: bool, count: nat)

  /** `firstChangeLine` is 1-based; `None` stands for `null`. */
  datatype DiffSummary = DiffSummary(isDifferent: bool, added: nat, removed: nat, firstChangeLine: Option<nat>)

  predicate IsChange(p: Part)
  {
    p.added || p.removed
  }

  /** Total count of the parts flagged added. */
  function AddedTotal(parts: seq<Part>): nat
  {
    if |parts| == 0 then 0
    else AddedTotal(parts[..|parts| - 1]) + (if parts[|parts| - 1].added then parts[|parts| - 1].count else 0)
  }

  /** Total count of the parts flagged removed and not added (`added` is tested first). */
  function RemovedTotal(parts: seq<Part>): nat
  {
    if |parts| == 0 then 0
    else
      var p := parts[|parts| - 1];
      RemovedTotal(parts[..|parts| - 1]) + (if !p.added && p.removed then p.count else 0)
  }

  /** Lines of the original text the parts cover: every part not flagged added. */
  function ALines(parts: seq<Part>): nat
  {
    if |parts| == 0 then 0
    else ALines(parts[..|parts| - 1]) + (if parts[|parts| - 1].added then 0 else parts[|parts| - 1].count)
  }

  /** Index of the first part flagged added or removed. */
  function FirstChange(parts: seq<Part>): (f: Option<nat>)
    ensures f.Some? ==> f.value < |parts|
  {
    if |parts| == 0 then None
    else
      var f := FirstChange(parts[..|parts| - 1]);
      if f.Some? then f else if IsChange(parts[|parts| - 1]) then Some(|parts| - 1) else None
  }

  /** The original-text line at which the first change starts. */
  function FirstChangeLine(parts: seq<Part>): Option<nat>
  {
    match FirstChange(parts)
    case None => None
    case Some(k) => Some(1 + ALines(parts[..k]))
  }

  /** What `summarizeDiff` reports for a part list. */
  function Summary(parts: seq<Part>): DiffSummary
  {
    DiffSummary(FirstChange(parts).Some?, AddedTotal(parts), RemovedTotal(parts), FirstChangeLine(parts))
  }

  /** The fold of `summarizeDiff`, with the A-line cursor `lineA`. */
  method SummarizeDiff(diff: seq<Part>) returns (s: DiffSummary)
    ensures s == Summary(diff)
  {
    var added, removed := 0, 0;
    var isDifferent := false;
    var lineA := 1;
    var firstChangeLine: Option<nat> := None;
    for i := 0 to |diff|
      invariant added == AddedTotal(diff[..i])
      invariant removed == RemovedTotal(diff[..i])
      invariant lineA == 1 + ALines(diff[..i])
      invariant isDifferent == FirstChange(diff[..i]).Some?
      invariant firstChangeLine == FirstChangeLine(diff[..i])
    {
      var part := diff[i];
      assert diff[..i + 1][..i] == diff[..i];
      if isDifferent {
        PrefixLines(diff[..i + 1], i);
      }
      if part.added {
        isDifferent := true;
        added := added + part.count;
        if firstChangeLine.None? {
          firstChangeLine := Some(lineA);
        }
      } else if part.removed {
        isDifferent := true;
        removed := removed + part.count;
        if firstChangeLine.None? {
          firstChangeLine := Some(lineA);
        }
        lineA := lineA + part.count;
      } else {
        lineA := lineA + part.count;
      }
    }
    assert diff[..|diff|] == diff;
    s := DiffSummary(isDifferent, added, removed, firstChangeLine);
  }

  lemma PrefixLines(parts: seq<Part>, k: nat)
    requires k <= |parts|
    requires FirstChange(parts[..k]).Some?
    ensures FirstChange(parts) == FirstChange(parts[..k])
    ensures FirstChangeLine(parts) == FirstChangeLine(parts[..k])
  {
    PrefixFirstChange(parts, k);
    var f := FirstChange(parts[..k]).value;
    assert parts[..k][..f] == parts[..f];
  }

  lemma {:induction false} PrefixFirstChange(parts: seq<Part>, k: nat)
    requires k <= |parts|
    requires FirstChange(parts[..k]).Some?
    ensures FirstChange(parts) == FirstChange(parts[..k])
    decreases |parts| - k
  {
    if k < |parts| {
      assert parts[..k + 1][..k] == parts[..k];
      PrefixFirstChange(parts, k + 1);
    } else {
      assert parts[..k] == parts;
    }
  }

  /** `FirstChange` finds the first change part, and finds none exactly when there is none. */
  lemma {:induction false} FirstChangeSpec(parts: seq<Part>)
    ensures FirstChange(parts).None? <==> forall j :: 0 <= j < |parts| ==> !IsChange(parts[j])
    ensures FirstChange(parts).Some? ==>
      var k := FirstChange(parts).value;
      IsChange(parts[k]) && forall j :: 0 <= j < k ==> !IsChange(parts[j])
  {
    if |parts| > 0 {
      var init := parts[..|parts| - 1];
      FirstChangeSpec(init);
      assert forall j :: 0 <= j < |init| ==> init[j] == parts[j];
    }
  }

  /** `isDifferent` holds exactly when some part is flagged, and then a first change line exists. */
  lemma SummaryIsDifferent(parts: seq<Part>)
    ensures Summary(parts).isDifferent <==> exists j :: 0 <= j < |parts| && IsChange(parts[j])
    ensures Summary(parts).firstChangeLine.None? <==> !Summary(parts).isDifferent
  {
    FirstChangeSpec(parts);
  }

  lemma {:induction false} ALinesPrefix(parts: seq<Part>, k: nat)
    requires k <= |parts|
    ensures ALines(parts[..k]) <= ALines(parts)
    decreases |parts| - k
  {
    if k < |parts| {
      assert parts[..k + 1][..k] == parts[..k];
      ALinesPrefix(parts, k + 1);
    } else {
      assert parts[..k] == parts;
    }
  }

  /**
   * The first change line is one past the original lines before the first
   * change part, so it lies between 1 and one past the original's length.
   */
  lemma SummaryFirstChangeLine(parts: seq<Part>)
    requires Summary(parts).isDifferent
    ensures var k := FirstChange(parts).value;
      && Summary(parts).firstChangeLine == Some(1 + ALines(parts[..k]))
      && IsChange(parts[k])
      && (forall j :: 0 <= j < k ==> !IsChange(parts[j]))
      && 1 <= Summary(parts).firstChangeLine.value <= 1 + ALines(parts)
  {
    FirstChangeSpec(parts);
    ALinesPrefix(parts, FirstChange(parts).value);
  }

  /** The totals add up over any split of the part list. */
  lemma {:induction false} TotalsConcat(a: seq<Part>, b: seq<Part>)
    ensures AddedTotal(a + b) == AddedTotal(a) + AddedTotal(b)
    ensures RemovedTotal(a + b) == RemovedTotal(a) + RemovedTotal(b)
    ensures ALines(a + b) == ALines(a) + ALines(b)
    decreases |b|
  {
    if |b| == 0 {
      assert a + b == a;
    } else {
      assert (a + b)[..|a + b| - 1] == a + b[..|b| - 1];
      TotalsConcat(a, b[..|b| - 1]);
    }
  }

  /** A part list with only unchanged parts reports no difference at all. */
  lemma {:induction false} UnchangedOnly(parts: seq<Part>)
    requires forall j :: 0 <= j < |parts| ==> !IsChange(parts[j])
    ensures Summary(parts) == DiffSummary(false, 0, 0, None)
  {
    FirstChangeSpec(parts);
    NoChangeNoTotals(parts);
  }

  lemma {:induction false} NoChangeNoTotals(parts: seq<Part>)
    requires forall j :: 0 <= j < |parts| ==> !IsChange(parts[j])
    ensures AddedTotal(parts) == 0 && RemovedTotal(parts) == 0
  {
    if |parts| > 0 {
      NoChangeNoTotals(parts[..|parts| - 1]);
    }
  }

  lemma {:induction false} TotalsAtLeast(parts: seq<Part>, j: nat)
    requires j < |parts|
    ensures parts[j].added ==> AddedTotal(parts) >= parts[j].count
    ensures !parts[j].added && parts[j].removed ==> RemovedTotal(parts) >= parts[j].count
  {
    assert parts == parts[..j] + parts[j..];
    assert parts[j..] == [parts[j]] + parts[j + 1..];
    TotalsConcat(parts[..j], parts[j..]);
    TotalsConcat([parts[j]], parts[j + 1..]);
    assert [parts[j]][..0] == [];
  }

  lemma {:induction false} TotalsNeedChange(parts: seq<Part>)
    requires AddedTotal(parts) + RemovedTotal(parts) > 0
    ensures exists j :: 0 <= j < |parts| && IsChange(parts[j])
  {
    if forall j :: 0 <= j < |parts| ==> !IsChange(parts[j]) {
      NoChangeNoTotals(parts);
    }
  }

  /** When change parts carry positive counts, being different means some line was added or removed. */
  lemma PositiveCountsDifferent(parts: seq<Part>)
    requires forall j :: 0 <= j < |parts| && IsChange(parts[j]) ==> parts[j].count > 0
    ensures Summary(parts).isDifferent <==> Summary(parts).added + Summary(parts).removed > 0
  {
    SummaryIsDifferent(parts);
    if Summary(parts).isDifferent {
      var j :| 0 <= j < |parts| && IsChange(parts[j]);
      TotalsAtLeast(parts, j);
    }
    if Summary(parts).added + Summary(parts).removed > 0 {
      TotalsNeedChange(parts);
    }
  }

  /** The unit test's strings "hello world" and "hello brave new world": one line replaced. */
  lemma HelloWorldSummary()
    ensures Summary([Part(false, true, 1), Part(true, false, 1)]) == DiffSummary(true, 1, 1, Some(1))
  {
    var parts := [Part(false, true, 1), Part(true, false, 1)];
    assert parts[..1] == [Part(false, true, 1)];
    assert parts[..1][..0] == [];
  }
}
