/** The counting behind both lot summaries, on value snapshots of the
    spots. RegularCompactLotAdmin.generateLotSummary counts in one pass over
    the spots of each type, keeping running totals and a row map it updates
    spot by spot; the legacy getLotSummary counts with streams. Both are
    specified here by the same fold and the same per-row counts. */
module SummaryTally {
  import opened ParkingTypes
  import opened LotSummary

  /** What a summary reads of one spot: the row bucket of its id and the
      type of its occupant, if any. */
  datatype SpotView = SpotView(row: string, occupant: Option<VehicleType>)

  predicate IsFree(v: SpotView)
  {
    v.occupant.None?
  }

  predicate HoldsVan(v: SpotView)
  {
    v.occupant == Some(VAN)
  }

  // ---------------------------------------------------------------------
  // Reference counts
  // ---------------------------------------------------------------------

  function CountFree(vs: seq<SpotView>): nat
  {
    if |vs| == 0 then 0 else CountFree(vs[..|vs| - 1]) + (if IsFree(vs[|vs| - 1]) then 1 else 0)
  }

  function CountTaken(vs: seq<SpotView>): nat
  {
    if |vs| == 0 then 0 else CountTaken(vs[..|vs| - 1]) + (if IsFree(vs[|vs| - 1]) then 0 else 1)
  }

  /** Spots whose occupant is a van; an empty spot never counts. */
  function CountVans(vs: seq<SpotView>): nat
  {
    if |vs| == 0 then 0 else CountVans(vs[..|vs| - 1]) + (if HoldsVan(vs[|vs| - 1]) then 1 else 0)
  }

  function CountInRow(vs: seq<SpotView>, row: string): nat
  {
    if |vs| == 0 then 0 else CountInRow(vs[..|vs| - 1], row) + (if vs[|vs| - 1].row == row then 1 else 0)
  }

  function CountFreeInRow(vs: seq<SpotView>, row: string): nat
  {
    if |vs| == 0 then 0
    else CountFreeInRow(vs[..|vs| - 1], row) + (if vs[|vs| - 1].row == row && IsFree(vs[|vs| - 1]) then 1 else 0)
  }

  /** Every spot is free or taken, never both. */
  lemma {:induction false} FreePlusTaken(vs: seq<SpotView>)
    ensures CountFree(vs) + CountTaken(vs) == |vs|
  {
    if |vs| > 0 {
      FreePlusTaken(vs[..|vs| - 1]);
    }
  }

  /** A row has no more free spots than spots. */
  lemma {:induction false} FreeInRowBounded(vs: seq<SpotView>, row: string)
    ensures CountFreeInRow(vs, row) <= CountInRow(vs, row)
  {
    if |vs| > 0 {
      FreeInRowBounded(vs[..|vs| - 1], row);
    }
  }

  /** A row no spot belongs to counts nothing. */
  lemma {:induction false} CountInAbsentRow(vs: seq<SpotView>, row: string)
    requires forall k :: 0 <= k < |vs| ==> vs[k].row != row
    ensures CountInRow(vs, row) == 0 && CountFreeInRow(vs, row) == 0
  {
    if |vs| > 0 {
      CountInAbsentRow(vs[..|vs| - 1], row);
    }
  }

  // ---------------------------------------------------------------------
  // The counting pass
  // ---------------------------------------------------------------------

  /** The running counters of generateLotSummary. */
  datatype Tally = Tally(total: int, available: int, occupied: int, vans: int, byRow: map<string, RowStatus>)

  const NoTally := Tally(0, 0, 0, 0, map[])

  /** The row entry before a spot of `row` is counted: getOrDefault with
      an all-zero RowStatus. */
  function RowBefore(byRow: map<string, RowStatus>, row: string): RowStatus
  {
    if row in byRow then byRow[row] else RowStatus(0, 0, 0)
  }

  /** One pass of the inner loop body: count the spot overall, as free or
      taken, as a van, and in its row. */
  function AddSpot(acc: Tally, v: SpotView): Tally
  {
    var rs := RowBefore(acc.byRow, v.row);
    var rowTotal := rs.total + 1;
    var rowAvailable := rs.available + (if IsFree(v) then 1 else 0);
    Tally(acc.total + 1,
          acc.available + (if IsFree(v) then 1 else 0),
          acc.occupied + (if IsFree(v) then 0 else 1),
          acc.vans + (if !IsFree(v) && HoldsVan(v) then 1 else 0),
          acc.byRow[v.row := RowStatus(rowTotal, rowAvailable, rowTotal - rowAvailable)])
  }

  /** The inner loop over a list of spots, from the counters `acc`. */
  function TallyViews(acc: Tally, vs: seq<SpotView>): Tally
  {
    if |vs| == 0 then acc else AddSpot(TallyViews(acc, vs[..|vs| - 1]), vs[|vs| - 1])
  }

  /** Counting one more view of a list. */
  lemma TallyStep(acc: Tally, vs: seq<SpotView>, k: nat)
    requires k < |vs|
    ensures TallyViews(acc, vs[..k + 1]) == AddSpot(TallyViews(acc, vs[..k]), vs[k])
    ensures CountFree(vs[..k + 1]) == CountFree(vs[..k]) + (if IsFree(vs[k]) then 1 else 0)
  {
    assert vs[..k + 1][..k] == vs[..k];
  }

  /** Counting two lists one after the other is counting their
      concatenation. */
  lemma {:induction false} TallyViewsAppend(acc: Tally, a: seq<SpotView>, b: seq<SpotView>)
    ensures TallyViews(acc, a + b) == TallyViews(TallyViews(acc, a), b)
  {
    if |b| > 0 {
      assert (a + b)[..|a + b| - 1] == a + b[..|b| - 1];
      TallyViewsAppend(acc, a, b[..|b| - 1]);
    } else {
      assert a + b == a;
    }
  }

  /** What the counting pass computes from an all-zero start: the reference
      counts, and a row map holding exactly the rows of the spots with
      their spot and free-spot counts. */
  lemma {:induction false} TallyViewsCounts(vs: seq<SpotView>)
    ensures var r := TallyViews(NoTally, vs);
            && r.total == |vs| && r.available == CountFree(vs) && r.occupied == CountTaken(vs)
            && r.vans == CountVans(vs)
            && (forall row :: row in r.byRow <==> exists k :: 0 <= k < |vs| && vs[k].row == row)
            && (forall row :: row in r.byRow ==>
                  && r.byRow[row].total == CountInRow(vs, row)
                  && r.byRow[row].available == CountFreeInRow(vs, row)
                  && r.byRow[row].occupied == CountInRow(vs, row) - CountFreeInRow(vs, row))
  {
    if |vs| > 0 {
      var init := vs[..|vs| - 1];
      var v := vs[|vs| - 1];
      TallyViewsCounts(init);
      var r := TallyViews(NoTally, vs);
      forall row ensures row in r.byRow <==> exists k :: 0 <= k < |vs| && vs[k].row == row {
        if exists k :: 0 <= k < |vs| && vs[k].row == row {
          var k :| 0 <= k < |vs| && vs[k].row == row;
          if k < |vs| - 1 {
            assert init[k].row == row;
          }
        }
      }
      forall row | row in r.byRow && row != v.row
        ensures r.byRow[row].total == CountInRow(vs, row)
      {
      }
      if v.row !in TallyViews(NoTally, init).byRow {
        CountInAbsentRow(init, v.row);
      }
    }
  }

  // ---------------------------------------------------------------------
  // The whole summary
  // ---------------------------------------------------------------------

  /** One entry of parkingSpotTypeMap as the summary sees it. */
  datatype TypeEntry = TypeEntry(spotType: SpotType, views: seq<SpotView>)

  /** All spots of all entries, in entry order. */
  function Flatten(es: seq<TypeEntry>): seq<SpotView>
  {
    if |es| == 0 then [] else Flatten(es[..|es| - 1]) + es[|es| - 1].views
  }

  /** The outer loop: the inner loop for each entry in turn. */
  function TallyEntries(es: seq<TypeEntry>): Tally
  {
    if |es| == 0 then NoTally else TallyViews(TallyEntries(es[..|es| - 1]), es[|es| - 1].views)
  }

  /** The per-type status of one list. */
  function TypeStatusOf(vs: seq<SpotView>): SpotTypeStatus
  {
    SpotTypeStatus(|vs|, CountFree(vs), |vs| - CountFree(vs))
  }

  /** byType: one status per entry. */
  function TypeStatuses(es: seq<TypeEntry>): map<SpotType, SpotTypeStatus>
  {
    if |es| == 0 then map[]
    else TypeStatuses(es[..|es| - 1])[es[|es| - 1].spotType := TypeStatusOf(es[|es| - 1].views)]
  }

  /** Counting one more entry. */
  lemma EntriesSnoc(es: seq<TypeEntry>, e: TypeEntry)
    ensures TallyEntries(es + [e]) == TallyViews(TallyEntries(es), e.views)
    ensures TypeStatuses(es + [e]) == TypeStatuses(es)[e.spotType := TypeStatusOf(e.views)]
  {
    assert (es + [e])[..|es|] == es;
  }

  /** The summary of an empty type map, returned before any counting. */
  const EmptySummary := ParkingLotSummary(0, 0, 0, map[], true, true, 0, map[])

  /** generateLotSummary on the entries of parkingSpotTypeMap. */
  function Summarize(es: seq<TypeEntry>): ParkingLotSummary
  {
    if |es| == 0 then EmptySummary
    else
      var t := TallyEntries(es);
      ParkingLotSummary(t.total, t.available, t.occupied, TypeStatuses(es),
                        t.available == 0, t.occupied == 0, t.vans, t.byRow)
  }

  /** The outer loop counts exactly what one pass over all spots counts. */
  lemma {:induction false} TallyEntriesFlat(es: seq<TypeEntry>)
    ensures TallyEntries(es) == TallyViews(NoTally, Flatten(es))
  {
    if |es| > 0 {
      TallyEntriesFlat(es[..|es| - 1]);
      TallyViewsAppend(NoTally, Flatten(es[..|es| - 1]), es[|es| - 1].views);
    }
  }

  /** The types of byType are the types of the entries. */
  lemma {:induction false} TypeStatusesKeys(es: seq<TypeEntry>)
    ensures forall t :: t in TypeStatuses(es) <==> exists k :: 0 <= k < |es| && es[k].spotType == t
  {
    if |es| > 0 {
      var init := es[..|es| - 1];
      TypeStatusesKeys(init);
      var m := TypeStatuses(es);
      forall t ensures t in m <==> exists k :: 0 <= k < |es| && es[k].spotType == t {
        if t == es[|es| - 1].spotType {
          assert es[|es| - 1].spotType == t;
        } else {
          assert t in m <==> t in TypeStatuses(init);
          if t in TypeStatuses(init) {
            var k :| 0 <= k < |init| && init[k].spotType == t;
            assert es[k].spotType == t;
          }
          if exists k :: 0 <= k < |es| && es[k].spotType == t {
            var k :| 0 <= k < |es| && es[k].spotType == t;
            assert init[k].spotType == t;
          }
        }
      }
    }
  }

  /** No later entry has the type of entry k. */
  predicate LastOfType(es: seq<TypeEntry>, k: nat)
    requires k < |es|
  {
    forall l :: k < l < |es| ==> es[l].spotType != es[k].spotType
  }

  /** Each type of byType has the status of its last entry. */
  lemma {:induction false} TypeStatusesLast(es: seq<TypeEntry>)
    ensures forall k :: 0 <= k < |es| && LastOfType(es, k) ==>
              es[k].spotType in TypeStatuses(es) && TypeStatuses(es)[es[k].spotType] == TypeStatusOf(es[k].views)
  {
    if |es| > 0 {
      var init := es[..|es| - 1];
      TypeStatusesLast(init);
      forall k | 0 <= k < |es| - 1 && LastOfType(es, k)
        ensures TypeStatuses(es)[es[k].spotType] == TypeStatusOf(es[k].views)
      {
        assert init[k] == es[k];
        assert es[|es| - 1].spotType != es[k].spotType;
        assert LastOfType(init, k) by {
          forall l | k < l < |init| ensures init[l].spotType != init[k].spotType {
            assert init[l] == es[l];
          }
        }
      }
    }
  }

  /** What the summary reports, in terms of all spots of the lot: the
      totals, the free/taken split, the flags, the vans, and the rows. */
  lemma SummarizeCounts(es: seq<TypeEntry>)
    ensures var s := Summarize(es);
            var vs := Flatten(es);
            && s.totalSpots == |vs| && s.availableSpots == CountFree(vs)
            && s.occupiedSpots == CountTaken(vs) && s.vanCount == CountVans(vs)
            && (s.isFull <==> CountFree(vs) == 0) && (s.isEmpty <==> CountTaken(vs) == 0)
            && (forall row :: row in s.byRow <==> exists k :: 0 <= k < |vs| && vs[k].row == row)
            && (forall row :: row in s.byRow ==>
                  s.byRow[row].total == CountInRow(vs, row)
                  && s.byRow[row].available == CountFreeInRow(vs, row))
  {
    TallyEntriesFlat(es);
    TallyViewsCounts(Flatten(es));
  }

  /** available + occupied = total, overall, per type and per row, and the
      flags agree with the counts. */
  lemma SummarizeConsistent(es: seq<TypeEntry>)
    ensures Consistent(Summarize(es))
    ensures && Summarize(es).totalSpots >= 0 && Summarize(es).availableSpots >= 0
            && Summarize(es).occupiedSpots >= 0 && Summarize(es).vanCount >= 0
  {
    var s := Summarize(es);
    var vs := Flatten(es);
    SummarizeCounts(es);
    FreePlusTaken(vs);
    TallyViewsCounts(vs);
    TallyEntriesFlat(es);
    TypeStatusesKeys(es);
    TypeStatusesLast(es);
    forall t | t in s.byType ensures s.byType[t].available + s.byType[t].occupied == s.byType[t].total {
      TypeStatusValues(es, t);
    }
  }

  /** The summary built from counters that hold the tally and the statuses
      of the entries is the summary of those entries, and it is consistent. */
  lemma CountedSummary(es: seq<TypeEntry>, tally: Tally, byType: map<SpotType, SpotTypeStatus>)
    requires tally == TallyEntries(es) && byType == TypeStatuses(es)
    ensures var r := NewParkingLotSummary(tally.total, tally.available, tally.occupied, Some(byType),
                                          tally.available == 0, tally.occupied == 0, tally.vans, Some(tally.byRow));
            r == Ok(Summarize(es)) && Consistent(r.value)
  {
    SummarizeConsistent(es);
  }

  lemma {:induction false} TypeStatusValues(es: seq<TypeEntry>, t: SpotType)
    requires t in TypeStatuses(es)
    ensures exists vs :: TypeStatuses(es)[t] == TypeStatusOf(vs)
  {
    if |es| > 0 && es[|es| - 1].spotType != t {
      TypeStatusValues(es[..|es| - 1], t);
    }
  }

  /** The early return for an empty type map reports what the counting pass
      would report on no spots at all. */
  lemma EmptyShortcut()
    ensures var t := TallyEntries([]);
            EmptySummary == ParkingLotSummary(t.total, t.available, t.occupied, TypeStatuses([]),
                                              t.available == 0, t.occupied == 0, t.vans, t.byRow)
    ensures NewParkingLotSummary(0, 0, 0, Some(map[]), true, true, 0, Some(map[])) == Ok(Summarize([]))
    ensures Consistent(Summarize([]))
  {
  }

  /** A lot whose spots are all free is empty, and full only when it has
      no spots. */
  lemma AllFreeSummary(es: seq<TypeEntry>)
    requires forall k :: 0 <= k < |Flatten(es)| ==> IsFree(Flatten(es)[k])
    ensures Summarize(es).isEmpty && Summarize(es).occupiedSpots == 0
    ensures Summarize(es).isFull <==> |Flatten(es)| == 0
  {
    SummarizeCounts(es);
    AllFreeCounts(Flatten(es));
  }

  lemma {:induction false} AllFreeCounts(vs: seq<SpotView>)
    requires forall k :: 0 <= k < |vs| ==> IsFree(vs[k])
    ensures CountFree(vs) == |vs| && CountTaken(vs) == 0 && CountVans(vs) == 0
  {
    if |vs| > 0 {
      AllFreeCounts(vs[..|vs| - 1]);
    }
  }

  // ---------------------------------------------------------------------
  // Parking a van
  // ---------------------------------------------------------------------

  /** The snapshot after a vehicle of type `vt` took the free spots at
      positions `i` and `j`. */
  function TakeTwo(vs: seq<SpotView>, i: nat, j: nat, vt: VehicleType): seq<SpotView>
    requires i < |vs| && j < |vs|
  {
    vs[i := SpotView(vs[i].row, Some(vt))][j := SpotView(vs[j].row, Some(vt))]
  }

  /** Taking one free spot with a vehicle of type `vt`. */
  lemma {:induction false} TakeOne(vs: seq<SpotView>, i: nat, vt: VehicleType)
    requires i < |vs| && IsFree(vs[i])
    ensures var after := vs[i := SpotView(vs[i].row, Some(vt))];
            && CountFree(after) == CountFree(vs) - 1
            && CountTaken(after) == CountTaken(vs) + 1
            && CountVans(after) == CountVans(vs) + (if vt == VAN then 1 else 0)
  {
    var after := vs[i := SpotView(vs[i].row, Some(vt))];
    if i < |vs| - 1 {
      assert after[..|after| - 1] == vs[..|vs| - 1][i := SpotView(vs[i].row, Some(vt))];
      TakeOne(vs[..|vs| - 1], i, vt);
    } else {
      assert after[..|after| - 1] == vs[..|vs| - 1];
    }
  }

  /** A van parked on two free spots adds 2 to the van count, takes two
      spots from the free count and adds two to the taken count. */
  lemma VanTakesTwo(vs: seq<SpotView>, i: nat, j: nat)
    requires i < |vs| && j < |vs| && i != j && IsFree(vs[i]) && IsFree(vs[j])
    ensures CountVans(TakeTwo(vs, i, j, VAN)) == CountVans(vs) + 2
    ensures CountFree(TakeTwo(vs, i, j, VAN)) == CountFree(vs) - 2
    ensures CountTaken(TakeTwo(vs, i, j, VAN)) == CountTaken(vs) + 2
  {
    var mid := vs[i := SpotView(vs[i].row, Some(VAN))];
    TakeOne(vs, i, VAN);
    TakeOne(mid, j, VAN);
  }
}
