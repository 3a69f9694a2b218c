/**
 * `find_module`: the module width of a binarised pixel row, taken as the
 * most frequent length of a run of black (0) pixels.
 */
module Decode {
  import opened Base

  /**
   * What the scan has seen after a prefix of the row: the lengths of the
   * runs already entered in the histogram, in order, and `counter`, the
   * length of the black run still open.
   */
  datatype ScanState = ScanState(closed: seq<nat>, counter: nat)

  /** Sum of the run lengths in `s`. */
  function Sum(s: seq<nat>): nat
  {
    if s == [] then 0 else Sum(s[..|s| - 1]) + s[|s| - 1]
  }

  lemma SumAppend(s: seq<nat>, x: nat)
    ensures Sum(s + [x]) == Sum(s) + x
  {
    assert (s + [x])[..|s|] == s;
  }

  /** Number of black (0) pixels in the row. */
  function Blacks(row: seq<Byte>): nat
  {
    if row == [] then 0 else Blacks(row[..|row| - 1]) + (if row[|row| - 1] == 0 then 1 else 0)
  }

  /** Black pixels the scan has accounted for: those in closed runs and those in the open run. */
  function Covered(st: ScanState): nat
  {
    Sum(st.closed) + st.counter
  }

  /**
   * One pass of the loop body: a 255 pixel closes an open run, a 0 pixel
   * extends it, any other value does neither. Runs already entered stay
   * entered, at most one is added, and exactly the black pixel is newly
   * accounted for.
   */
  function Step(st: ScanState, p: Byte): (r: ScanState)
    ensures st.closed <= r.closed && |r.closed| <= |st.closed| + 1
    ensures Covered(r) == Covered(st) + (if p == 0 then 1 else 0)
  {
    if p == 255 && st.counter > 0 then
      SumAppend(st.closed, st.counter);
      ScanState(st.closed + [st.counter], 0)
    else if p == 0 then ScanState(st.closed, st.counter + 1)
    else st
  }

  /** The scan state after the loop has consumed `row`: every black pixel lies in exactly one run, closed or open. */
  function Scan(row: seq<Byte>): (st: ScanState)
    ensures Covered(st) == Blacks(row)
  {
    if row == [] then ScanState([], 0) else Step(Scan(row[..|row| - 1]), row[|row| - 1])
  }

  /**
   * Every run length entered in the histogram, in order: the closed runs,
   * then the run still open when the row ends. The lengths add up to the
   * number of black pixels, so no black pixel is lost or counted twice.
   */
  function RecordedRuns(row: seq<Byte>): (runs: seq<nat>)
    ensures Sum(runs) == Blacks(row)
  {
    var st := Scan(row);
    if st.counter > 0 then
      SumAppend(st.closed, st.counter);
      st.closed + [st.counter]
    else st.closed
  }

  predicate AllBlack(row: seq<Byte>)
  {
    forall i :: 0 <= i < |row| ==> row[i] == 0
  }

  predicate HasBlack(row: seq<Byte>)
  {
    exists i :: 0 <= i < |row| && row[i] == 0
  }

  /**
   * A closed run is shorter than the row (a 255 pixel closed it); the open
   * run spans the whole row exactly when every pixel is black; nothing has
   * been recorded exactly when no pixel is black.
   */
  lemma ScanBounds(row: seq<Byte>)
    ensures forall r :: r in Scan(row).closed ==> 1 <= r < |row|
    ensures Scan(row).counter <= |row|
    ensures Scan(row).counter == |row| <==> AllBlack(row)
    ensures Scan(row).closed == [] && Scan(row).counter == 0 <==> !HasBlack(row)
  {
    ScanLengths(row);
    ScanOpenRun(row);
    ScanIdle(row);
  }

  lemma {:induction false} ScanLengths(row: seq<Byte>)
    ensures forall r :: r in Scan(row).closed ==> 1 <= r < |row|
    ensures Scan(row).counter <= |row|
  {
    if row != [] {
      var init := row[..|row| - 1];
      ScanLengths(init);
      var st := Scan(init);
      assert Scan(row) == Step(st, row[|row| - 1]);
      if row[|row| - 1] == 255 && st.counter > 0 {
        ScanOpenRun(init);
      }
    }
  }

  /** A run still open at the end of a prefix is at most the prefix long, and is the whole prefix exactly when it is all black. */
  lemma {:induction false} ScanOpenRun(row: seq<Byte>)
    ensures Scan(row).counter <= |row|
    ensures Scan(row).counter == |row| <==> AllBlack(row)
  {
    if row != [] {
      var init := row[..|row| - 1];
      ScanOpenRun(init);
      assert forall i :: 0 <= i < |init| ==> init[i] == row[i];
      if !AllBlack(init) {
        var i :| 0 <= i < |init| && init[i] != 0;
        assert row[i] != 0;
      }
    }
  }

  lemma {:induction false} ScanIdle(row: seq<Byte>)
    ensures Scan(row).closed == [] && Scan(row).counter == 0 <==> !HasBlack(row)
  {
    if row != [] {
      var init := row[..|row| - 1];
      ScanIdle(init);
      assert forall i :: 0 <= i < |init| ==> init[i] == row[i];
      if HasBlack(init) {
        var i :| 0 <= i < |init| && init[i] == 0;
        assert row[i] == 0;
      }
      if HasBlack(row) && !HasBlack(init) {
        var i :| 0 <= i < |row| && row[i] == 0;
        assert i == |row| - 1;
      }
    }
  }

  /** Every recorded length lies in 1..length, and a run of the full length is recorded only for an all-black row. */
  lemma RecordedRunsBounds(row: seq<Byte>)
    ensures forall r :: r in RecordedRuns(row) ==> 1 <= r <= |row|
    ensures |row| in RecordedRuns(row) <==> |row| > 0 && AllBlack(row)
    ensures RecordedRuns(row) == [] <==> !HasBlack(row)
  {
    ScanBounds(row);
  }

  /** The run still open at the end of the row is recorded exactly as if a 255 pixel had closed it. */
  lemma FlushAsClosingSpace(row: seq<Byte>)
    ensures RecordedRuns(row) == Scan(row + [255]).closed
  {
    assert (row + [255])[..|row|] == row;
  }

  /** The row with every pixel other than 0 and 255 removed. */
  function BarsAndSpaces(row: seq<Byte>): (r: seq<Byte>)
    ensures forall i :: 0 <= i < |r| ==> r[i] == 0 || r[i] == 255
  {
    if row == [] then []
    else
      var p := row[|row| - 1];
      BarsAndSpaces(row[..|row| - 1]) + (if p == 0 || p == 255 then [p] else [])
  }

  /** Pixels of any other value neither extend nor close a run: dropping them leaves the scan state as it was. */
  lemma {:induction false} ScanSkipsOtherValues(row: seq<Byte>)
    ensures Scan(BarsAndSpaces(row)) == Scan(row)
  {
    if row != [] {
      var init, p := row[..|row| - 1], row[|row| - 1];
      ScanSkipsOtherValues(init);
      var f := BarsAndSpaces(init);
      assert row == init + [p];
      ScanSnoc(init, p);
      if p == 0 || p == 255 {
        assert BarsAndSpaces(row) == f + [p];
        ScanSnoc(f, p);
      } else {
        assert BarsAndSpaces(row) == f;
      }
    }
  }

  /** Dropping the pixels other than 0 and 255 changes neither the scan state nor the recorded runs. */
  lemma ScanIgnoresOtherValues(row: seq<Byte>)
    ensures Scan(BarsAndSpaces(row)) == Scan(row)
    ensures RecordedRuns(BarsAndSpaces(row)) == RecordedRuns(row)
  {
    ScanSkipsOtherValues(row);
  }

  /** Scanning one more pixel is one more `Step`. */
  lemma ScanSnoc(row: seq<Byte>, p: Byte)
    ensures Scan(row + [p]) == Step(Scan(row), p)
  {
    assert (row + [p])[..|row|] == row;
  }

  /** How many times `x` was entered in the histogram. */
  function Count(s: seq<nat>, x: nat): nat
  {
    multiset(s)[x]
  }

  /** The histogram count of `s[j]` just after position `j` was entered. */
  function CountAt(s: seq<nat>, j: nat): nat
    requires j < |s|
  {
    multiset(s[..j + 1])[s[j]]
  }

  /**
   * `m` is the run length whose histogram count first reached the largest
   * count of all, in entry order (0 when nothing was entered): a mode, with
   * ties broken in favour of the length that got there first.
   */
  ghost predicate IsFirstMode(s: seq<nat>, m: nat)
  {
    if s == [] then m == 0
    else
      exists j ::
        && 0 <= j < |s| && s[j] == m
        && (forall x :: Count(s, x) <= CountAt(s, j))
        && (forall i :: 0 <= i < j ==> CountAt(s, i) < CountAt(s, j))
  }

  lemma CountAtBound(s: seq<nat>, j: nat)
    requires j < |s|
    ensures CountAt(s, j) <= Count(s, s[j])
  {
    assert s == s[..j + 1] + s[j + 1..];
  }

  /** A first mode is a mode: it was entered, and no length was entered more often. */
  lemma FirstModeIsMode(s: seq<nat>, m: nat)
    requires IsFirstMode(s, m) && s != []
    ensures m in s
    ensures forall x :: Count(s, x) <= Count(s, m)
  {
    var j :| 0 <= j < |s| && s[j] == m
      && (forall x :: Count(s, x) <= CountAt(s, j))
      && (forall i :: 0 <= i < j ==> CountAt(s, i) < CountAt(s, j));
    CountAtBound(s, j);
  }

  /** The tie-break leaves no choice: the first mode is unique. */
  lemma FirstModeUnique(s: seq<nat>, m1: nat, m2: nat)
    requires IsFirstMode(s, m1) && IsFirstMode(s, m2)
    ensures m1 == m2
  {
    if s != [] {
      var j1 :| 0 <= j1 < |s| && s[j1] == m1
        && (forall x :: Count(s, x) <= CountAt(s, j1))
        && (forall i :: 0 <= i < j1 ==> CountAt(s, i) < CountAt(s, j1));
      var j2 :| 0 <= j2 < |s| && s[j2] == m2
        && (forall x :: Count(s, x) <= CountAt(s, j2))
        && (forall i :: 0 <= i < j2 ==> CountAt(s, i) < CountAt(s, j2));
      CountAtBound(s, j1);
      CountAtBound(s, j2);
      assert j1 == j2;
    }
  }

  /** The running counts of the runs 3, 2, 3, 2. */
  lemma TieCounts(s: seq<nat>)
    requires s == [3, 2, 3, 2]
    ensures CountAt(s, 0) == 1 && CountAt(s, 1) == 1 && CountAt(s, 2) == 2
    ensures forall x :: Count(s, x) <= 2
  {
    assert s[..1] == [3] && s[..2] == [3, 2] && s[..3] == [3, 2, 3];
    assert multiset(s[..3]) == multiset{3} + multiset{2} + multiset{3};
    assert multiset(s) == multiset{3} + multiset{2} + multiset{3} + multiset{2};
  }

  /**
   * Ties go to the length that reached the top count first, not to the
   * smallest: with runs 3, 2, 3, 2 both lengths are entered twice, 3 gets
   * there first, and 3 is the answer.
   */
  lemma TieGoesToFirstToReach()
    ensures IsFirstMode([3, 2, 3, 2], 3)
    ensures !IsFirstMode([3, 2, 3, 2], 2)
  {
    var s: seq<nat> := [3, 2, 3, 2];
    TieCounts(s);
    assert s[2] == 3;
    assert IsFirstMode(s, 3);
    if IsFirstMode(s, 2) {
      FirstModeUnique(s, 2, 3);
    }
  }

  lemma {:induction false} CountOfConstant(s: seq<nat>, w: nat)
    requires forall i :: 0 <= i < |s| ==> s[i] == w
    ensures Count(s, w) == |s|
  {
    if s != [] {
      var init := s[..|s| - 1];
      CountOfConstant(init, w);
      assert s == init + [w];
    }
  }

  /** When every recorded run has the same length, that length is the module width. */
  lemma UniformRunsMode(s: seq<nat>, w: nat)
    requires s != []
    requires forall i :: 0 <= i < |s| ==> s[i] == w
    ensures IsFirstMode(s, w)
  {
    var j := |s| - 1;
    assert s[..j + 1] == s;
    CountOfConstant(s, w);
    forall i | 0 <= i < j ensures CountAt(s, i) < CountAt(s, j) {
      CountOfConstant(s[..i + 1], w);
    }
    forall x ensures Count(s, x) <= CountAt(s, j) {
      if x != w {
        assert x !in s;
      }
    }
  }

  /**
   * The running maximum of `find_module` after the lengths `s` were entered:
   * `max` is the largest count, reached first at position `lead`, whose
   * length is `value`; both stay 0 while nothing has been entered.
   */
  ghost predicate Leads(s: seq<nat>, lead: nat, max: int, value: nat)
  {
    && (forall x :: Count(s, x) <= max)
    && if s == [] then max == 0 && value == 0
       else
         && lead < |s| && s[lead] == value && CountAt(s, lead) == max
         && forall i :: 0 <= i < lead ==> CountAt(s, i) < max
  }

  lemma LeadsIsFirstMode(s: seq<nat>, lead: nat, max: int, value: nat)
    requires Leads(s, lead, max, value)
    ensures IsFirstMode(s, value)
  {
  }

  /** Entering one more length `c` keeps the running maximum, updated with a strict `>` as the source does. */
  lemma LeadsStep(s: seq<nat>, lead: nat, max: int, value: nat, c: nat)
    requires Leads(s, lead, max, value) && c >= 1
    ensures Count(s + [c], c) > max ==> Leads(s + [c], |s|, Count(s + [c], c), c)
    ensures Count(s + [c], c) <= max ==> Leads(s + [c], lead, max, value)
  {
    var t := s + [c];
    assert t[..|s| + 1] == t;
    assert multiset(t) == multiset(s) + multiset{c};
    forall x ensures Count(t, x) == Count(s, x) + (if x == c then 1 else 0) {
    }
    forall i | 0 <= i < |s| ensures CountAt(t, i) == CountAt(s, i) {
      assert t[..i + 1] == s[..i + 1];
    }
    forall i | 0 <= i < |s| ensures CountAt(s, i) <= max {
      CountAtBound(s, i);
    }
  }

  /** The loop's scan state after pixel `i` is one `Step` on from the state before it. */
  lemma ScanNext(row: seq<Byte>, i: nat)
    requires i < |row|
    ensures Scan(row[..i + 1]) == Step(Scan(row[..i]), row[i])
  {
    assert row[..i + 1][..i] == row[..i];
  }

  /**
   * One entry of a run length `c` in the histogram, as the loop and the
   * flush both do it: `hist[c]` goes up by one, and the running maximum
   * moves to `c` only when its new count is strictly above `max`.
   */
  method Record(hist: array<int>, c: nat, max: int, value: nat, ghost runs: seq<nat>, ghost lead: nat)
    returns (newMax: int, newValue: nat, ghost newLead: nat)
    requires 1 <= c < hist.Length
    requires forall k :: 0 <= k < hist.Length ==> hist[k] == Count(runs, k)
    requires Leads(runs, lead, max, value)
    modifies hist
    ensures forall k :: 0 <= k < hist.Length ==> hist[k] == Count(runs + [c], k)
    ensures Leads(runs + [c], newLead, newMax, newValue)
  {
    LeadsStep(runs, lead, max, value, c);
    assert multiset(runs + [c]) == multiset(runs) + multiset{c};
    hist[c] := hist[c] + 1;
    newMax, newValue, newLead := max, value, lead;
    if hist[c] > max {
      newMax, newValue, newLead := hist[c], c, |runs|;
    }
  }

  /** The pixels `find_module(segment, length)` reads. */
  function Row(segment: seq<Byte>, length: int): seq<Byte>
    requires length <= |segment|
  {
    segment[..if length > 0 then length else 0]
  }

  /**
   * `find_module`, with the histogram given one slot per run length from 0
   * to `length` (see AllBlackRowOverflows for the allocation as written).
   * The row is only read.
   */
  method FindModule(segment: array<Byte>, length: int) returns (m: nat)
    requires length <= segment.Length
    ensures IsFirstMode(RecordedRuns(Row(segment[..], length)), m)
    ensures m == 0 <==> !HasBlack(Row(segment[..], length))
    ensures m <= |Row(segment[..], length)|
  {
    var n := if length > 0 then length else 0;
    var hist := new int[n + 1](_ => 0);
    var counter := 0;
    var max, maxValue := 0, 0;
    ghost var runs: seq<nat> := [];
    ghost var lead: nat := 0;

    for i := 0 to n
      invariant Scan(segment[..i]) == ScanState(runs, counter)
      invariant counter <= i
      invariant forall k :: 0 <= k < hist.Length ==> hist[k] == Count(runs, k)
      invariant Leads(runs, lead, max, maxValue)
    {
      ScanNext(segment[..], i);
      ScanBounds(segment[..i]);
      if segment[i] == 255 && counter > 0 {
        max, maxValue, lead := Record(hist, counter, max, maxValue, runs, lead);
        runs := runs + [counter];
        counter := 0;
      } else if segment[i] == 0 {
        counter := counter + 1;
      }
    }

    assert segment[..n] == Row(segment[..], length);
    if counter > 0 {
      max, maxValue, lead := Record(hist, counter, max, maxValue, runs, lead);
      runs := runs + [counter];
    }

    m := maxValue;
    LeadsIsFirstMode(runs, lead, max, m);
    RecordedRunsBounds(Row(segment[..], length));
    if runs != [] {
      FirstModeIsMode(runs, m);
    }
  }

  /**
   * As written, `hist` has `length` slots, indexed 0..length-1. Every index
   * the scan touches is a recorded run length, so the accesses stay in
   * bounds exactly when no recorded run is as long as the row.
   */
  ghost predicate AsWrittenInBounds(row: seq<Byte>)
  {
    forall r :: r in RecordedRuns(row) ==> r < |row|
  }

  /** The allocation as written is safe exactly when the row is empty or has a pixel that is not black. */
  lemma AsWrittenInBoundsIff(row: seq<Byte>)
    ensures AsWrittenInBounds(row) <==> row == [] || !AllBlack(row)
  {
    RecordedRunsBounds(row);
  }

  /** An all-black row of three pixels makes the final flush write `hist[3]` into a three-slot histogram. */
  lemma AllBlackRowOverflows()
    ensures 3 in RecordedRuns([0, 0, 0])
    ensures !AsWrittenInBounds([0, 0, 0])
  {
    RecordedRunsBounds([0, 0, 0]);
  }
}
