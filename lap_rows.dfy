/**
 * Lap markers of a workout laid out into display rows so that lap ranges
 * that overlap horizontally never share a row (LapRowDistributor in
 * src/Train/ErgFilePlot.cpp).
 *
 * Part 1 folds over the lap list and records, per lapRangeId, the index of
 * the member with the smallest x (the start) and of the member with the
 * largest x (the end). Part 2 visits the laps in input order and, for each
 * recorded start, frees the live rows whose occupant has ended at or before
 * this x and takes the first free row, or appends a new one.
 */
module LapRows {

  /** A lap marker: its position (distance or time) and its range id; id 0 is a simple lap. */
  datatype Lap = Lap(x: int, rangeId: int)

  /** The indices of the first (smallest x) and last (largest x) member of a range. */
  datatype LapRange = LapRange(startIdx: nat, endIdx: nat)

  type RangeMap = map<int, LapRange>

  /** What GetInfo tells the marker renderer about one lap. */
  datatype LapKind = Failed | StartOfRange | EndOfRange | InternalRange | SimpleLap

  // ---------------------------------------------------------------------
  // Part 1: the range map
  // ---------------------------------------------------------------------

  /** Every id seen in laps[..n] is a key, and every recorded index lies below n. */
  ghost predicate Covers(laps: seq<Lap>, n: nat, m: RangeMap)
    requires n <= |laps|
  {
    && (forall j :: 0 <= j < n ==> laps[j].rangeId in m)
    && (forall id :: id in m ==> m[id].startIdx < n && m[id].endIdx < n)
  }

  /** One iteration of the Part 1 loop: lap i joins its range's entry. */
  function Absorb(laps: seq<Lap>, m: RangeMap, i: nat): (r: RangeMap)
    requires i < |laps|
    requires forall id :: id in m ==> m[id].startIdx < |laps| && m[id].endIdx < |laps|
    ensures laps[i].rangeId in r && r == m[laps[i].rangeId := r[laps[i].rangeId]]
    ensures var id, e := laps[i].rangeId, r[laps[i].rangeId];
      && (e.startIdx == i || (id in m && e.startIdx == m[id].startIdx))
      && (e.endIdx == i || (id in m && e.endIdx == m[id].endIdx))
      && laps[e.startIdx].x <= laps[i].x <= laps[e.endIdx].x
  {
    var lap := laps[i];
    if lap.rangeId in m then
      var r := m[lap.rangeId];
      var s := if lap.x < laps[r.startIdx].x then i else r.startIdx;
      var e := if lap.x > laps[r.endIdx].x then i else r.endIdx;
      m[lap.rangeId := LapRange(s, e)]
    else
      m[lap.rangeId := LapRange(i, i)]
  }

  /** The range map after the first n iterations of Part 1. */
  function RangeMapUpTo(laps: seq<Lap>, n: nat): (m: RangeMap)
    requires n <= |laps|
    ensures Covers(laps, n, m)
  {
    if n == 0 then map[] else Absorb(laps, RangeMapUpTo(laps, n - 1), n - 1)
  }

  /** The range map Part 1 builds over the whole list. */
  function RangeMapOf(laps: seq<Lap>): (m: RangeMap)
    ensures Covers(laps, |laps|, m)
  {
    RangeMapUpTo(laps, |laps|)
  }

  /**
   * What the range map means over laps[..n]: each entry's two indices carry
   * its id; the start holds the smallest x and every earlier member is
   * strictly larger (ties stay with the earliest index); the end holds the
   * largest x and every earlier member is strictly smaller.
   */
  ghost predicate RangesCorrect(laps: seq<Lap>, n: nat, m: RangeMap)
    requires n <= |laps|
  {
    && Covers(laps, n, m)
    && (forall id :: id in m ==>
          laps[m[id].startIdx].rangeId == id && laps[m[id].endIdx].rangeId == id)
    && (forall j :: 0 <= j < n ==> MemberBounded(laps, j, m[laps[j].rangeId]))
  }

  /** The order facts RangesCorrect states for one member j of range r. */
  ghost predicate MemberBounded(laps: seq<Lap>, j: nat, r: LapRange)
    requires j < |laps| && r.startIdx < |laps| && r.endIdx < |laps|
  {
    && laps[r.startIdx].x <= laps[j].x <= laps[r.endIdx].x
    && (j < r.startIdx ==> laps[r.startIdx].x < laps[j].x)
    && (j < r.endIdx ==> laps[j].x < laps[r.endIdx].x)
  }

  /** One Part 1 iteration keeps the range map correct for the longer prefix. */
  lemma AbsorbCorrect(laps: seq<Lap>, m: RangeMap, i: nat)
    requires i < |laps|
    requires RangesCorrect(laps, i, m)
    ensures RangesCorrect(laps, i + 1, Absorb(laps, m, i))
  {
    var m' := Absorb(laps, m, i);
    var id := laps[i].rangeId;
    var r' := m'[id];
    assert r'.startIdx <= i && r'.endIdx <= i;
    assert forall k :: k in m' && k != id ==> k in m && m'[k] == m[k];
    assert Covers(laps, i + 1, m');
    assert laps[r'.startIdx].rangeId == id && laps[r'.endIdx].rangeId == id;
    forall j | 0 <= j < i + 1
      ensures MemberBounded(laps, j, m'[laps[j].rangeId])
    {
      if laps[j].rangeId != id {
        assert MemberBounded(laps, j, m[laps[j].rangeId]);
      } else if id in m {
        var r := m[id];
        if j < i {
          assert MemberBounded(laps, j, r);
        }
      }
    }
  }

  lemma {:induction false} RangeMapUpToCorrect(laps: seq<Lap>, n: nat)
    requires n <= |laps|
    ensures RangesCorrect(laps, n, RangeMapUpTo(laps, n))
  {
    if n > 0 {
      var i := n - 1;
      var m := RangeMapUpTo(laps, i);
      RangeMapUpToCorrect(laps, i);
      AbsorbCorrect(laps, m, i);
      var m' := Absorb(laps, m, i);
      assert i + 1 == n;
      assert RangesCorrect(laps, n, m');
      assert RangeMapUpTo(laps, n) == m';
    }
  }

  /** Part 1 over the whole list: the range map is the min/max fold of every id. */
  lemma RangeMapCorrect(laps: seq<Lap>)
    ensures RangesCorrect(laps, |laps|, RangeMapOf(laps))
  {
    RangeMapUpToCorrect(laps, |laps|);
  }

  /** Every lap's id is a key, and the key set is exactly the set of ids in the list. */
  lemma RangeMapKeys(laps: seq<Lap>)
    ensures RangeMapOf(laps).Keys == set j | 0 <= j < |laps| :: laps[j].rangeId
  {
    var m := RangeMapOf(laps);
    RangeMapCorrect(laps);
    forall id | id in m
      ensures id in set j | 0 <= j < |laps| :: laps[j].rangeId
    {
      assert laps[m[id].startIdx].rangeId == id;
    }
  }

  /** The Part 1 loop, with the map updated in place. */
  method BuildRangeMap(laps: seq<Lap>) returns (lapRangeIdMap: RangeMap)
    ensures lapRangeIdMap == RangeMapOf(laps)
  {
    lapRangeIdMap := map[];
    var lapCount := |laps|;
    for i := 0 to lapCount
      invariant lapRangeIdMap == RangeMapUpTo(laps, i)
    {
      var lap := laps[i];
      var startIdx, endIdx := i, i;
      if lap.rangeId in lapRangeIdMap {
        startIdx, endIdx := lapRangeIdMap[lap.rangeId].startIdx, lapRangeIdMap[lap.rangeId].endIdx;
        if lap.x < laps[startIdx].x {
          startIdx := i;
        }
        if lap.x > laps[endIdx].x {
          endIdx := i;
        }
      }
      lapRangeIdMap := lapRangeIdMap[lap.rangeId := LapRange(startIdx, endIdx)];
    }
  }

  // ---------------------------------------------------------------------
  // Part 2: greedy row packing
  // ---------------------------------------------------------------------

  /** x of the last lap of the range that lap v belongs to. */
  function GroupEndX(laps: seq<Lap>, m: RangeMap, v: nat): int
    requires Covers(laps, |laps|, m) && v < |laps|
  {
    laps[m[laps[v].rangeId].endIdx].x
  }

  /** Lap i is the recorded start of its range; only such laps are given a row. */
  predicate IsGroupStart(laps: seq<Lap>, m: RangeMap, i: nat)
    requires Covers(laps, |laps|, m) && i < |laps|
  {
    m[laps[i].rangeId].startIdx == i
  }

  /** Entries of the live-row vector: -1 for a free row, otherwise the index of the occupying lap. */
  ghost predicate LiveRowsOk(laps: seq<Lap>, live: seq<int>)
  {
    forall k :: 0 <= k < |live| ==> -1 <= live[k] < |laps|
  }

  /** A row entry after aging: freed when its occupant's range ends at or before startX. */
  function AgeOut(laps: seq<Lap>, m: RangeMap, v: int, startX: int): (w: int)
    requires Covers(laps, |laps|, m) && -1 <= v < |laps|
    ensures w == v || w == -1
    ensures w >= 0 ==> startX < GroupEndX(laps, m, w)
    ensures v >= 0 && startX < GroupEndX(laps, m, v) ==> w == v
  {
    if v >= 0 && GroupEndX(laps, m, v) <= startX then -1 else v
  }

  /**
   * The live-row vector with every row aged against startX: same length; a
   * row stays occupied only by its old occupant, whose range ends past
   * startX, and every occupant whose range ends past startX stays.
   */
  function Aged(laps: seq<Lap>, m: RangeMap, live: seq<int>, startX: int): (a: seq<int>)
    requires Covers(laps, |laps|, m) && LiveRowsOk(laps, live)
    ensures LiveRowsOk(laps, a) && |a| == |live|
    ensures forall k :: 0 <= k < |a| && a[k] >= 0 ==> a[k] == live[k] && startX < GroupEndX(laps, m, a[k])
    ensures forall k :: 0 <= k < |live| && live[k] >= 0 && startX < GroupEndX(laps, m, live[k]) ==> a[k] == live[k]
  {
    seq(|live|, k requires 0 <= k < |live| => AgeOut(laps, m, live[k], startX))
  }

  /** The lowest free (negative) entry, or |live| when every row is taken. */
  function FirstFree(live: seq<int>): (k: nat)
    ensures k <= |live|
    ensures k < |live| ==> live[k] < 0
    ensures forall j :: 0 <= j < k ==> live[j] >= 0
  {
    if live == [] then 0
    else if live[0] < 0 then 0
    else 1 + FirstFree(live[1..])
  }

  /** The live rows after placing one range start, and the row it was given. */
  datatype Placement = Placement(live: seq<int>, row: nat)

  /**
   * Placing range start i: age every row against laps[i].x, take the lowest
   * free row, or push a new row when none is free.
   */
  function Place(laps: seq<Lap>, m: RangeMap, live: seq<int>, i: nat): (p: Placement)
    requires Covers(laps, |laps|, m) && LiveRowsOk(laps, live) && i < |laps|
    ensures LiveRowsOk(laps, p.live)
    ensures p.row <= |live|
    ensures |p.live| == if p.row < |live| then |live| else |live| + 1
    ensures p.live[p.row] == i
    ensures p.row < |live| ==> Aged(laps, m, live, laps[i].x)[p.row] < 0
    ensures forall r :: 0 <= r < p.row ==> Aged(laps, m, live, laps[i].x)[r] >= 0
    ensures forall r :: 0 <= r < |live| && r != p.row ==> p.live[r] == Aged(laps, m, live, laps[i].x)[r]
  {
    var a := Aged(laps, m, live, laps[i].x);
    var k := FirstFree(a);
    if k < |a| then Placement(a[k := i], k) else Placement(a + [i], k)
  }

  /** The live-row vector and the row map of Part 2. */
  datatype Packing = Packing(live: seq<int>, rows: seq<int>)

  /** The packing after the first n iterations of Part 2. */
  function PackUpTo(laps: seq<Lap>, m: RangeMap, n: nat): (p: Packing)
    requires Covers(laps, |laps|, m) && n <= |laps|
    ensures LiveRowsOk(laps, p.live) && |p.rows| == |laps|
  {
    if n == 0 then Packing([], seq(|laps|, _ => -1))
    else
      var p := PackUpTo(laps, m, n - 1);
      if IsGroupStart(laps, m, n - 1) then
        var q := Place(laps, m, p.live, n - 1);
        Packing(q.live, p.rows[n - 1 := q.row])
      else
        p
  }

  /** The row map Part 2 produces: one entry per lap, -1 for laps that are not a range start. */
  function RowsOf(laps: seq<Lap>, m: RangeMap): (rows: seq<int>)
    requires Covers(laps, |laps|, m)
    ensures |rows| == |laps|
  {
    PackUpTo(laps, m, |laps|).rows
  }

  /** The Part 2 loop, with the live-row vector updated in place. */
  method DistributeRows(laps: seq<Lap>, lapRangeIdMap: RangeMap) returns (segmentRowMap: seq<int>)
    requires Covers(laps, |laps|, lapRangeIdMap)
    ensures segmentRowMap == RowsOf(laps, lapRangeIdMap)
  {
    segmentRowMap := seq(|laps|, _ => -1);
    var segmentRowLiveMap: seq<int> := [];
    var lapCount := |laps|;
    for i := 0 to lapCount
      invariant Packing(segmentRowLiveMap, segmentRowMap) == PackUpTo(laps, lapRangeIdMap, i)
    {
      var lap := laps[i];
      if lapRangeIdMap[lap.rangeId].startIdx != i {
        continue;
      }
      var row;
      segmentRowLiveMap, row := PlaceStart(laps, lapRangeIdMap, segmentRowLiveMap, i);
      segmentRowMap := segmentRowMap[i := row];
    }
  }

  /**
   * The body of one Part 2 iteration for range start i: a single pass over
   * the live rows frees every row whose range ends at or before lap i's x and
   * hands lap i the first free row met; a new row is pushed when none is free.
   */
  method PlaceStart(laps: seq<Lap>, lapRangeIdMap: RangeMap, live: seq<int>, i: nat)
    returns (segmentRowLiveMap: seq<int>, row: int)
    requires Covers(laps, |laps|, lapRangeIdMap) && LiveRowsOk(laps, live) && i < |laps|
    ensures row >= 0 && Placement(segmentRowLiveMap, row) == Place(laps, lapRangeIdMap, live, i)
  {
    var startM := laps[i].x;
    ghost var aged := Aged(laps, lapRangeIdMap, live, startM);
    segmentRowLiveMap := live;
    row := -1;
    for r := 0 to |segmentRowLiveMap|
      invariant |segmentRowLiveMap| == |live|
      invariant forall k :: r <= k < |live| ==> segmentRowLiveMap[k] == live[k]
      invariant -1 <= row < r
      invariant row == -1 ==> forall k :: 0 <= k < r ==> segmentRowLiveMap[k] == aged[k] >= 0
      invariant row >= 0 ==> row == FirstFree(aged) && segmentRowLiveMap[row] == i
      invariant row >= 0 ==> forall k :: 0 <= k < r && k != row ==> segmentRowLiveMap[k] == aged[k]
    {
      var v := segmentRowLiveMap[r];
      if v >= 0 {
        var endM := laps[lapRangeIdMap[laps[v].rangeId].endIdx].x;
        if endM <= startM {
          v := -1;
          segmentRowLiveMap := segmentRowLiveMap[r := v];
        }
      }
      assert v == aged[r];
      if row < 0 && v < 0 {
        ghost var k := FirstFree(aged);
        assert k == r;
        segmentRowLiveMap := segmentRowLiveMap[r := i];
        row := r;
      }
    }
    if row < 0 {
      assert segmentRowLiveMap == aged;
      segmentRowLiveMap := segmentRowLiveMap + [i];
      row := |segmentRowLiveMap| - 1;
    } else {
      assert segmentRowLiveMap == aged[row := i];
    }
  }

  // ---------------------------------------------------------------------
  // What Part 2 guarantees
  // ---------------------------------------------------------------------

  /**
   * The packing after n iterations: only range starts among the first n laps
   * hold a row, every other entry is still -1, every row given lies within
   * the live-row vector, and there are no more live rows than laps visited.
   */
  ghost predicate PackShape(laps: seq<Lap>, m: RangeMap, n: nat, p: Packing)
    requires Covers(laps, |laps|, m) && n <= |laps| && |p.rows| == |laps|
  {
    && (forall i :: n <= i < |laps| ==> p.rows[i] == -1)
    && (forall i :: 0 <= i < n ==> (p.rows[i] >= 0 <==> IsGroupStart(laps, m, i)))
    && (forall i :: 0 <= i < n ==> -1 <= p.rows[i] < |p.live|)
    && |p.live| <= n
  }

  lemma {:induction false} PackUpToShape(laps: seq<Lap>, m: RangeMap, n: nat)
    requires Covers(laps, |laps|, m) && n <= |laps|
    ensures PackShape(laps, m, n, PackUpTo(laps, m, n))
  {
    if n > 0 {
      PackUpToShape(laps, m, n - 1);
    }
  }

  /** Iterations after n never touch the row entries of the first n laps. */
  lemma {:induction false} PackRowsStable(laps: seq<Lap>, m: RangeMap, n: nat, n': nat)
    requires Covers(laps, |laps|, m) && n <= n' <= |laps|
    ensures forall i :: 0 <= i < n ==> PackUpTo(laps, m, n').rows[i] == PackUpTo(laps, m, n).rows[i]
  {
    if n < n' {
      PackRowsStable(laps, m, n, n' - 1);
    }
  }

  /** The live-row vector never shrinks. */
  lemma {:induction false} LiveRowsNeverShrink(laps: seq<Lap>, m: RangeMap, n: nat, n': nat)
    requires Covers(laps, |laps|, m) && n <= n' <= |laps|
    ensures |PackUpTo(laps, m, n).live| <= |PackUpTo(laps, m, n').live|
  {
    if n < n' {
      LiveRowsNeverShrink(laps, m, n, n' - 1);
    }
  }

  /** A lap holds a row (>= 0) exactly when it is the recorded start of its range; all others stay -1. */
  lemma RowsOfShape(laps: seq<Lap>, m: RangeMap)
    requires Covers(laps, |laps|, m)
    ensures forall i :: 0 <= i < |laps| ==> (RowsOf(laps, m)[i] >= 0 <==> IsGroupStart(laps, m, i))
    ensures forall i :: 0 <= i < |laps| && !IsGroupStart(laps, m, i) ==> RowsOf(laps, m)[i] == -1
  {
    PackUpToShape(laps, m, |laps|);
  }

  /**
   * The row a range start ends up with is the one Place gave it when it was
   * visited: the lowest row free after aging, or a new row at the end.
   */
  lemma RowOfStart(laps: seq<Lap>, m: RangeMap, i: nat)
    requires Covers(laps, |laps|, m) && i < |laps| && IsGroupStart(laps, m, i)
    ensures RowsOf(laps, m)[i] == Place(laps, m, PackUpTo(laps, m, i).live, i).row
  {
    PackRowsStable(laps, m, i + 1, |laps|);
  }

  /** Range starts come in non-decreasing x order. */
  ghost predicate StartsSorted(laps: seq<Lap>, m: RangeMap)
    requires Covers(laps, |laps|, m)
  {
    forall i, j :: 0 <= i < j < |laps| && IsGroupStart(laps, m, i) && IsGroupStart(laps, m, j) ==>
      laps[i].x <= laps[j].x
  }

  /**
   * After n iterations, a range start that no longer occupies the row it was
   * given has ended at or before the x of every range start still to come.
   */
  ghost predicate Separated(laps: seq<Lap>, m: RangeMap, n: nat, p: Packing)
    requires Covers(laps, |laps|, m) && n <= |laps| && |p.rows| == |laps|
  {
    forall i, j ::
      (&& 0 <= i < n <= j < |laps|
       && IsGroupStart(laps, m, i) && IsGroupStart(laps, m, j)
       && 0 <= p.rows[i] < |p.live| && p.live[p.rows[i]] != i)
      ==> GroupEndX(laps, m, i) <= laps[j].x
  }

  /** Placing range start s keeps the separation invariant. */
  lemma PlaceSeparated(laps: seq<Lap>, m: RangeMap, s: nat)
    requires Covers(laps, |laps|, m) && s < |laps| && StartsSorted(laps, m) && IsGroupStart(laps, m, s)
    requires PackShape(laps, m, s, PackUpTo(laps, m, s))
    requires Separated(laps, m, s, PackUpTo(laps, m, s))
    ensures Separated(laps, m, s + 1, PackUpTo(laps, m, s + 1))
  {
    var p := PackUpTo(laps, m, s);
    var q := Place(laps, m, p.live, s);
    var p' := PackUpTo(laps, m, s + 1);
    assert p' == Packing(q.live, p.rows[s := q.row]);
    var aged := Aged(laps, m, p.live, laps[s].x);
    forall i, j |
      && 0 <= i < s + 1 <= j < |laps|
      && IsGroupStart(laps, m, i) && IsGroupStart(laps, m, j)
      && 0 <= p'.rows[i] < |p'.live| && p'.live[p'.rows[i]] != i
      ensures GroupEndX(laps, m, i) <= laps[j].x
    {
      var r := p.rows[i];
      assert i < s && p'.rows[i] == r && 0 <= r < |p.live|;
      if p.live[r] == i {
        assert aged[r] == -1;
        assert laps[s].x <= laps[j].x;
      }
    }
  }

  lemma {:induction false} PackUpToSeparated(laps: seq<Lap>, m: RangeMap, n: nat)
    requires Covers(laps, |laps|, m) && n <= |laps| && StartsSorted(laps, m)
    ensures Separated(laps, m, n, PackUpTo(laps, m, n))
  {
    if n > 0 {
      var s := n - 1;
      PackUpToSeparated(laps, m, s);
      if IsGroupStart(laps, m, s) {
        PackUpToShape(laps, m, s);
        PlaceSeparated(laps, m, s);
        assert s + 1 == n;
      }
    }
  }

  /**
   * No overlap: when range starts come in non-decreasing x order, two ranges
   * given the same row do not overlap; the earlier one ends at or before the
   * later one starts.
   */
  lemma NoOverlap(laps: seq<Lap>, m: RangeMap, i: nat, j: nat)
    requires Covers(laps, |laps|, m) && StartsSorted(laps, m)
    requires i < j < |laps| && IsGroupStart(laps, m, i) && IsGroupStart(laps, m, j)
    requires RowsOf(laps, m)[i] == RowsOf(laps, m)[j]
    ensures GroupEndX(laps, m, i) <= laps[j].x
  {
    PackUpToShape(laps, m, j);
    PackUpToSeparated(laps, m, j);
    PackRowsStable(laps, m, j + 1, |laps|);
    var p := PackUpTo(laps, m, j);
    var q := Place(laps, m, p.live, j);
    assert PackUpTo(laps, m, j + 1).rows == p.rows[j := q.row];
    PackRowsStable(laps, m, j, j + 1);
    var r := p.rows[i];
    assert 0 <= r < |p.live| && q.row == r;
    if p.live[r] == i {
      assert Aged(laps, m, p.live, laps[j].x)[r] < 0;
    }
  }

  /**
   * The occupied entries of a live-row vector after n iterations: each is a
   * range start among the first n laps, and no range start occupies two rows.
   */
  ghost predicate LiveAreStarts(laps: seq<Lap>, m: RangeMap, n: nat, live: seq<int>)
    requires Covers(laps, |laps|, m) && n <= |laps|
  {
    && (forall k :: 0 <= k < |live| && live[k] >= 0 ==> live[k] < n && IsGroupStart(laps, m, live[k]))
    && (forall k, k' :: 0 <= k < k' < |live| && live[k] >= 0 ==> live[k] != live[k'])
  }

  lemma {:induction false} PackUpToLive(laps: seq<Lap>, m: RangeMap, n: nat)
    requires Covers(laps, |laps|, m) && n <= |laps|
    ensures LiveAreStarts(laps, m, n, PackUpTo(laps, m, n).live)
  {
    if n > 0 {
      var s := n - 1;
      PackUpToLive(laps, m, s);
      var p := PackUpTo(laps, m, s);
      if IsGroupStart(laps, m, s) {
        var q := Place(laps, m, p.live, s);
        var a := Aged(laps, m, p.live, laps[s].x);
        assert PackUpTo(laps, m, n).live == q.live;
        forall k | 0 <= k < |q.live| && k != q.row && q.live[k] >= 0
          ensures q.live[k] == p.live[k] < s
        {
          assert q.live[k] == a[k];
        }
      }
    }
  }

  /**
   * Row minimality, locally: when range starts come in non-decreasing x order
   * and range start i is pushed onto a new row, every existing row is held by
   * a distinct earlier range start whose extent contains laps[i].x. With
   * range i itself, that is one more range covering laps[i].x than there were
   * rows, so a new row is opened only where the ranges alive at one x outnumber
   * the rows.
   */
  lemma NewRowWitnesses(laps: seq<Lap>, m: RangeMap, i: nat)
    requires Covers(laps, |laps|, m) && StartsSorted(laps, m)
    requires i < |laps| && IsGroupStart(laps, m, i)
    requires Place(laps, m, PackUpTo(laps, m, i).live, i).row == |PackUpTo(laps, m, i).live|
    ensures var live := PackUpTo(laps, m, i).live;
      && (forall k :: 0 <= k < |live| ==>
            && 0 <= live[k] < i && IsGroupStart(laps, m, live[k])
            && laps[live[k]].x <= laps[i].x < GroupEndX(laps, m, live[k]))
      && (forall k, k' :: 0 <= k < k' < |live| ==> live[k] != live[k'])
  {
    var live := PackUpTo(laps, m, i).live;
    var a := Aged(laps, m, live, laps[i].x);
    PackUpToLive(laps, m, i);
    forall k | 0 <= k < |live|
      ensures 0 <= live[k] < i && laps[i].x < GroupEndX(laps, m, live[k])
    {
      assert a[k] >= 0;
    }
  }

  /** Worked example: id 0 groups the two simple laps, id 1 a two-lap interval nested inside them. */
  const ExampleLaps: seq<Lap> := [Lap(0, 0), Lap(10, 1), Lap(20, 1), Lap(15, 0)]

  /** The range map of the example. */
  const ExampleMap: RangeMap := map[0 := LapRange(0, 3), 1 := LapRange(1, 2)]

  /** Part 1 on the example: id 0 runs from lap 0 (x 0) to lap 3 (x 15), id 1 from lap 1 to lap 2. */
  lemma ExampleRanges()
    ensures RangeMapOf(ExampleLaps) == ExampleMap
  {
    var laps := ExampleLaps;
    assert RangeMapUpTo(laps, 2) == map[0 := LapRange(0, 0), 1 := LapRange(1, 1)];
    assert RangeMapUpTo(laps, 3) == map[0 := LapRange(0, 0), 1 := LapRange(1, 2)];
  }

  /** Part 2 on the example, first iteration: lap 0 opens row 0. */
  lemma ExampleFirstRow()
    requires Covers(ExampleLaps, |ExampleLaps|, ExampleMap)
    ensures PackUpTo(ExampleLaps, ExampleMap, 1) == Packing([0], [0, -1, -1, -1])
  {
  }

  /** Second iteration: lap 0's range is still open at x 10, so lap 1 opens row 1. */
  lemma ExampleSecondRow()
    requires Covers(ExampleLaps, |ExampleLaps|, ExampleMap)
    ensures PackUpTo(ExampleLaps, ExampleMap, 2) == Packing([0, 1], [0, 1, -1, -1])
  {
    ExampleFirstRow();
  }

  /** Part 2 on the example: the overlapping ranges get rows 0 and 1, the other laps no row. */
  lemma ExampleRows()
    requires Covers(ExampleLaps, |ExampleLaps|, ExampleMap)
    ensures RowsOf(ExampleLaps, ExampleMap) == [0, 1, -1, -1]
  {
    ExampleSecondRow();
    assert PackUpTo(ExampleLaps, ExampleMap, 3) == PackUpTo(ExampleLaps, ExampleMap, 2);
  }

  /** The two parts together on the example. */
  lemma ExampleLayout()
    ensures RangeMapOf(ExampleLaps) == ExampleMap
    ensures RowsOf(ExampleLaps, RangeMapOf(ExampleLaps)) == [0, 1, -1, -1]
  {
    ExampleRanges();
    ExampleRows();
  }

  /**
   * Range starts out of x order: id 1 starts at x 1, id 2 spans x 0 to 12,
   * id 3 starts at x 50 and id 4 at x 5, after it.
   */
  const UnsortedLaps: seq<Lap> := [Lap(1, 1), Lap(0, 2), Lap(12, 2), Lap(50, 3), Lap(5, 4)]

  /** The range map of the unsorted example. */
  const UnsortedMap: RangeMap :=
    map[1 := LapRange(0, 0), 2 := LapRange(1, 2), 3 := LapRange(3, 3), 4 := LapRange(4, 4)]

  lemma UnsortedRanges()
    ensures RangeMapOf(UnsortedLaps) == UnsortedMap
  {
    var laps := UnsortedLaps;
    assert RangeMapUpTo(laps, 2) == map[1 := LapRange(0, 0), 2 := LapRange(1, 1)];
    assert RangeMapUpTo(laps, 3) == map[1 := LapRange(0, 0), 2 := LapRange(1, 2)];
    assert RangeMapUpTo(laps, 4) == map[1 := LapRange(0, 0), 2 := LapRange(1, 2), 3 := LapRange(3, 3)];
  }

  /** Lap 0 opens row 0. */
  lemma UnsortedFirstRow()
    requires Covers(UnsortedLaps, |UnsortedLaps|, UnsortedMap)
    ensures PackUpTo(UnsortedLaps, UnsortedMap, 1) == Packing([0], [0, -1, -1, -1, -1])
  {
  }

  /** Lap 1 opens row 1: id 1 ends at x 1, after lap 1's x 0. */
  lemma UnsortedFirstRows()
    requires Covers(UnsortedLaps, |UnsortedLaps|, UnsortedMap)
    ensures PackUpTo(UnsortedLaps, UnsortedMap, 2) == Packing([0, 1], [0, 1, -1, -1, -1])
  {
    UnsortedFirstRow();
  }

  /** Lap 3 at x 50 frees both rows and takes row 0; row 1 stays free. */
  lemma UnsortedFourthLap()
    requires Covers(UnsortedLaps, |UnsortedLaps|, UnsortedMap)
    ensures PackUpTo(UnsortedLaps, UnsortedMap, 4) == Packing([3, -1], [0, 1, -1, 0, -1])
  {
    UnsortedFirstRows();
    assert PackUpTo(UnsortedLaps, UnsortedMap, 3) == PackUpTo(UnsortedLaps, UnsortedMap, 2);
  }

  /** Lap 4 at x 5 takes the free row 1. */
  lemma UnsortedRows()
    requires Covers(UnsortedLaps, |UnsortedLaps|, UnsortedMap)
    ensures RowsOf(UnsortedLaps, UnsortedMap) == [0, 1, -1, 0, 1]
  {
    UnsortedFourthLap();
  }

  /**
   * Without StartsSorted the no-overlap guarantee fails: id 2 (x 0 to 12) and
   * id 4 (starting at x 5) share row 1.
   */
  lemma UnsortedStartsShareRow()
    ensures RangeMapOf(UnsortedLaps) == UnsortedMap
    ensures !StartsSorted(UnsortedLaps, UnsortedMap)
    ensures IsGroupStart(UnsortedLaps, UnsortedMap, 1) && IsGroupStart(UnsortedLaps, UnsortedMap, 4)
    ensures RowsOf(UnsortedLaps, UnsortedMap)[1] == RowsOf(UnsortedLaps, UnsortedMap)[4]
    ensures GroupEndX(UnsortedLaps, UnsortedMap, 1) > UnsortedLaps[4].x
  {
    UnsortedRanges();
    UnsortedRows();
    assert IsGroupStart(UnsortedLaps, UnsortedMap, 3) && IsGroupStart(UnsortedLaps, UnsortedMap, 4);
  }

  // ---------------------------------------------------------------------
  // The distributor object and its query
  // ---------------------------------------------------------------------

  /** The bounds test at the head of GetInfo as the source writes it: it only rejects i > count. */
  predicate IndexAcceptedAsWritten(i: int, count: nat)
  {
    !(i < 0 || i > count)
  }

  /** The guard as written lets i == count through, and count is not an index of the lap list. */
  lemma GuardAdmitsOnePastEnd(laps: seq<Lap>)
    ensures IndexAcceptedAsWritten(|laps|, |laps|) && !(0 <= |laps| < |laps|)
  {
  }

  /** Lap i holds the smallest x of its range, and every earlier member of the range is strictly larger. */
  ghost predicate EarliestMin(laps: seq<Lap>, i: nat)
    requires i < |laps|
  {
    forall j :: 0 <= j < |laps| && laps[j].rangeId == laps[i].rangeId ==>
      laps[i].x <= laps[j].x && (j < i ==> laps[i].x < laps[j].x)
  }

  /** Lap i holds the largest x of its range, and every earlier member of the range is strictly smaller. */
  ghost predicate EarliestMax(laps: seq<Lap>, i: nat)
    requires i < |laps|
  {
    forall j :: 0 <= j < |laps| && laps[j].rangeId == laps[i].rangeId ==>
      laps[j].x <= laps[i].x && (j < i ==> laps[j].x < laps[i].x)
  }

  /** The recorded start and end of a range are its unique earliest minimum and earliest maximum. */
  lemma RangeEndsCharacterised(laps: seq<Lap>, i: nat)
    requires i < |laps|
    ensures var r := RangeMapOf(laps)[laps[i].rangeId];
      && (r.startIdx == i <==> EarliestMin(laps, i))
      && (r.endIdx == i <==> EarliestMax(laps, i))
  {
    var m := RangeMapOf(laps);
    RangeMapCorrect(laps);
    var r := m[laps[i].rangeId];
    assert MemberBounded(laps, i, r);
    if r.startIdx == i {
      forall j | 0 <= j < |laps| && laps[j].rangeId == laps[i].rangeId
        ensures laps[i].x <= laps[j].x && (j < i ==> laps[i].x < laps[j].x)
      {
        assert MemberBounded(laps, j, r);
      }
    }
    if r.endIdx == i {
      forall j | 0 <= j < |laps| && laps[j].rangeId == laps[i].rangeId
        ensures laps[j].x <= laps[i].x && (j < i ==> laps[j].x < laps[i].x)
      {
        assert MemberBounded(laps, j, r);
      }
    }
    assert MemberBounded(laps, r.startIdx, r) && MemberBounded(laps, r.endIdx, r);
  }

  /** Lays lap markers out into rows once, then answers per-lap queries. */
  class LapRowDistributor {

    const laps: seq<Lap>
    var lapRangeIdMap: RangeMap
    var segmentRowMap: seq<int>

    /** The map and the rows are those Part 1 and Part 2 compute from the lap list. */
    ghost predicate Valid()
      reads this
    {
      && lapRangeIdMap == RangeMapOf(laps)
      && segmentRowMap == RowsOf(laps, lapRangeIdMap)
    }

    constructor (laps: seq<Lap>)
      ensures this.laps == laps && Valid()
    {
      this.laps := laps;
      segmentRowMap := seq(|laps|, _ => -1);
      var m := BuildRangeMap(laps);
      lapRangeIdMap := m;
      var rows := DistributeRows(laps, m);
      segmentRowMap := rows;
    }

    /**
     * Classifies lap i and reports the row of its range's start. Returns
     * Failed, leaving the caller's row untouched, for an index outside the
     * list (the bounds test is the corrected one, see GuardAdmitsOnePastEnd).
     */
    function GetInfo(i: int, row: int): (r: (LapKind, int))
      reads this
      requires Valid()
      ensures r.0 == Failed <==> i < 0 || i >= |laps|
      ensures r.0 == Failed ==> r.1 == row
      ensures 0 <= i < |laps| ==> (r.0 == SimpleLap <==> laps[i].rangeId == 0)
      ensures 0 <= i < |laps| ==> r.1 == segmentRowMap[lapRangeIdMap[laps[i].rangeId].startIdx]
    {
      if i < 0 || i >= |laps| then (Failed, row)
      else
        var lapRangeId := laps[i].rangeId;
        var range := lapRangeIdMap[lapRangeId];
        var row' := segmentRowMap[range.startIdx];
        if lapRangeId != 0 then
          if range.startIdx == i then (StartOfRange, row')
          else if range.endIdx == i then (EndOfRange, row')
          else (InternalRange, row')
        else
          (SimpleLap, row')
    }
  }

  /** Every lap in the list reports a real row (>= 0), the same one as every other lap of its range. */
  lemma GetInfoRow(d: LapRowDistributor, i: int, j: int, row: int)
    requires d.Valid() && 0 <= i < |d.laps| && 0 <= j < |d.laps|
    ensures d.GetInfo(i, row).1 >= 0
    ensures d.laps[i].rangeId == d.laps[j].rangeId ==> d.GetInfo(i, row).1 == d.GetInfo(j, row).1
  {
    var laps := d.laps;
    var m := d.lapRangeIdMap;
    RangeMapCorrect(laps);
    RowsOfShape(laps, m);
    var s := m[laps[i].rangeId].startIdx;
    assert IsGroupStart(laps, m, s);
  }

  /**
   * The classification in terms of the lap list alone: in a range with a
   * non-zero id, the start is the earliest lap with the smallest x, the end
   * is the earliest lap with the largest x unless that is also the start, and
   * every other member is internal.
   */
  lemma GetInfoKind(d: LapRowDistributor, i: int, row: int)
    requires d.Valid() && 0 <= i < |d.laps| && d.laps[i].rangeId != 0
    ensures d.GetInfo(i, row).0 == StartOfRange <==> EarliestMin(d.laps, i)
    ensures d.GetInfo(i, row).0 == EndOfRange <==> !EarliestMin(d.laps, i) && EarliestMax(d.laps, i)
    ensures d.GetInfo(i, row).0 == InternalRange <==> !EarliestMin(d.laps, i) && !EarliestMax(d.laps, i)
  {
    RangeEndsCharacterised(d.laps, i);
  }
}
