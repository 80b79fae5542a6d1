/** The van search shared by RegularCompactAllocationStrategy and the legacy
    ParkingLotUtil: the keys of the available REGULAR spots, in list order,
    are grouped by row label into a first-seen-ordered map (groupingBy into
    a LinkedHashMap), and each row with at least two spots is scanned for
    two list neighbours whose column numbers differ by one. The search works
    on the parsed keys and answers with positions in the key sequence, which
    each caller maps back to its own spot objects. */
module RowAdjacency {
  import opened ParkingTypes
  import opened SpotIds

  /** What extractRowFromSpotId and extractSpotNum make of one spot id. */
  datatype SpotKey = SpotKey(row: Result<string, IdError>, column: Result<int, IdError>)

  /** One LinkedHashMap entry: a row label and the positions of its spots. */
  datatype RowGroup = RowGroup(row: string, members: seq<nat>)

  // ---------------------------------------------------------------------
  // Reference definitions
  // ---------------------------------------------------------------------

  /** Every id below `n` has a readable row label. */
  predicate RowsReadable(keys: seq<SpotKey>, n: nat)
    requires n <= |keys|
  {
    forall i :: 0 <= i < n ==> keys[i].row.Ok?
  }

  predicate Increasing(s: seq<nat>)
  {
    forall a, b :: 0 <= a < b < |s| ==> s[a] < s[b]
  }

  /** `i` and `j` are in the same row and no id between them is: they are
      adjacent in that row's list. */
  predicate RowNeighbours(keys: seq<SpotKey>, i: nat, j: nat)
  {
    && i < j < |keys|
    && keys[i].row.Ok?
    && keys[j].row == keys[i].row
    && forall p :: i < p < j ==> keys[p].row != keys[i].row
  }

  /** Both column numbers can be read. */
  predicate ColumnsRead(keys: seq<SpotKey>, i: nat, j: nat)
    requires i < |keys| && j < |keys|
  {
    keys[i].column.Ok? && keys[j].column.Ok?
  }

  /** The column of `j` is one more than the column of `i`. */
  predicate Consecutive(keys: seq<SpotKey>, i: nat, j: nat)
    requires i < |keys| && j < |keys|
  {
    ColumnsRead(keys, i, j) && keys[j].column.value == keys[i].column.value + 1
  }

  /** (i, j) is the pair the van search must find: row neighbours with
      consecutive columns, and no such pair comes before it, neither earlier
      in its own row nor in a row whose label appears earlier in the list. */
  ghost predicate FirstAdjacent(keys: seq<SpotKey>, i: nat, j: nat)
  {
    && RowNeighbours(keys, i, j) && Consecutive(keys, i, j)
    && forall i': nat, j': nat :: RowNeighbours(keys, i', j') && Consecutive(keys, i', j') ==>
         if keys[i'].row == keys[i].row then j <= j'
         else FirstOfRow(keys, i) < FirstOfRow(keys, i')
  }

  /** The positions below `n` whose row label is `row`, in list order. */
  function InRow(keys: seq<SpotKey>, row: string, n: nat): seq<nat>
    requires n <= |keys|
  {
    if n == 0 then []
    else InRow(keys, row, n - 1) + (if keys[n - 1].row == Ok(row) then [n - 1] else [])
  }

  /** A row's list is increasing and holds exactly the positions below `n`
      with that row label. */
  lemma {:induction false} InRowExact(keys: seq<SpotKey>, row: string, n: nat)
    requires n <= |keys|
    ensures Increasing(InRow(keys, row, n))
    ensures forall k :: 0 <= k < |InRow(keys, row, n)| ==>
              InRow(keys, row, n)[k] < n && keys[InRow(keys, row, n)[k]].row == Ok(row)
    ensures forall i :: 0 <= i < n && keys[i].row == Ok(row) ==> i in InRow(keys, row, n)
  {
    if n > 0 {
      InRowExact(keys, row, n - 1);
    }
  }

  /** `i` and `j` stand next to each other in the list `ms`. */
  predicate NextInList(ms: seq<nat>, i: nat, j: nat)
  {
    exists q :: 1 <= q < |ms| && ms[q - 1] == i && ms[q] == j
  }

  /** In an increasing list a smaller entry comes first, and an entry
      directly after it is no larger than any later one. */
  lemma IncreasingStep(s: seq<nat>, a: nat, b: nat)
    requires Increasing(s) && a < |s| && b < |s| && s[a] < s[b]
    ensures a < b
    ensures b == a + 1 || s[a] < s[a + 1] < s[b]
  {
    if b != a + 1 {
      assert s[a + 1] < s[b];
    }
  }

  /** Row neighbours stand next to each other in their row's list. */
  lemma NeighboursInRow(keys: seq<SpotKey>, row: string, i: nat, j: nat) returns (q: nat)
    requires RowNeighbours(keys, i, j) && keys[i].row == Ok(row)
    ensures var ms := InRow(keys, row, |keys|);
            1 <= q < |ms| && ms[q - 1] == i && ms[q] == j
  {
    var ms := InRow(keys, row, |keys|);
    InRowExact(keys, row, |keys|);
    var a :| 0 <= a < |ms| && ms[a] == i;
    var b :| 0 <= b < |ms| && ms[b] == j;
    IncreasingStep(ms, a, b);
    q := b;
  }

  /** Entries next to each other in a row's list are row neighbours. */
  lemma InRowNeighbours(keys: seq<SpotKey>, row: string, q: nat)
    requires var ms := InRow(keys, row, |keys|); 1 <= q < |ms|
    ensures var ms := InRow(keys, row, |keys|);
            ms[q - 1] < |keys| && keys[ms[q - 1]].row == Ok(row) && RowNeighbours(keys, ms[q - 1], ms[q])
  {
    var ms := InRow(keys, row, |keys|);
    InRowExact(keys, row, |keys|);
    var i, j := ms[q - 1], ms[q];
    assert i < j;
    forall p | i < p < j ensures keys[p].row != keys[i].row {
      assert keys[p].row == Ok(row) ==> p in ms;
    }
  }

  // ---------------------------------------------------------------------
  // Grouping by row (Collectors.groupingBy into a LinkedHashMap)
  // ---------------------------------------------------------------------

  /** Position of the group for `row`, or |gs| when there is none yet. */
  function IndexOfRow(gs: seq<RowGroup>, row: string): (k: nat)
    ensures k <= |gs|
    ensures k < |gs| ==> gs[k].row == row
    ensures forall l :: 0 <= l < k ==> gs[l].row != row
  {
    if |gs| == 0 then 0
    else if gs[0].row == row then 0
    else 1 + IndexOfRow(gs[1..], row)
  }

  /** Appends position `i` to the group of `row`, opening a new group at
      the end when the row has not been seen yet. */
  function AddToGroup(gs: seq<RowGroup>, row: string, i: nat): seq<RowGroup>
  {
    var k := IndexOfRow(gs, row);
    if k == |gs| then gs + [RowGroup(row, [i])]
    else gs[k := RowGroup(row, gs[k].members + [i])]
  }

  /** Groups the first `n` keys by row label; the first unreadable id aborts
      the grouping. */
  function GroupByRow(keys: seq<SpotKey>, n: nat): Result<seq<RowGroup>, IdError>
    requires n <= |keys|
  {
    if n == 0 then Ok([])
    else
      match GroupByRow(keys, n - 1)
      case Err(e) => Err(e)
      case Ok(gs) =>
        match keys[n - 1].row
        case Err(e) => Err(e)
        case Ok(row) => Ok(AddToGroup(gs, row, n - 1))
  }

  /** A group for `row` exists. */
  predicate HasRow(gs: seq<RowGroup>, row: string)
  {
    exists k :: 0 <= k < |gs| && gs[k].row == row
  }

  lemma IndexOfRowFinds(gs: seq<RowGroup>, row: string)
    ensures IndexOfRow(gs, row) < |gs| <==> HasRow(gs, row)
  {
  }

  /** Each group lists exactly its row's positions below `n`. */
  predicate MembersExact(keys: seq<SpotKey>, n: nat, gs: seq<RowGroup>)
    requires n <= |keys|
  {
    forall k :: 0 <= k < |gs| ==> gs[k].members == InRow(keys, gs[k].row, n) && |gs[k].members| > 0
  }

  /** Rows are distinct and ordered by where they first appear. */
  predicate RowsOrdered(gs: seq<RowGroup>)
  {
    forall k, l :: 0 <= k < l < |gs| ==>
      |gs[k].members| > 0 && |gs[l].members| > 0 &&
      gs[k].row != gs[l].row && gs[k].members[0] < gs[l].members[0]
  }

  /** Every position below `n` has a readable row, and that row a group. */
  predicate RowsCovered(keys: seq<SpotKey>, n: nat, gs: seq<RowGroup>)
    requires n <= |keys|
  {
    forall i :: 0 <= i < n ==> keys[i].row.Ok? && HasRow(gs, keys[i].row.value)
  }

  /** What the grouping holds after the first `n` keys. */
  predicate GroupsExact(keys: seq<SpotKey>, n: nat, gs: seq<RowGroup>)
    requires n <= |keys|
  {
    MembersExact(keys, n, gs) && RowsOrdered(gs) && RowsCovered(keys, n, gs)
  }

  /** Adding position n-1 to the group of its row keeps the grouping exact
      when the row already has a group. */
  lemma AddToExistingGroup(keys: seq<SpotKey>, n: nat, gs: seq<RowGroup>, r: string)
    requires 0 < n <= |keys| && GroupsExact(keys, n - 1, gs) && keys[n - 1].row == Ok(r)
    requires IndexOfRow(gs, r) < |gs|
    ensures GroupsExact(keys, n, AddToGroup(gs, r, n - 1))
  {
    var k := IndexOfRow(gs, r);
    var gs' := AddToGroup(gs, r, n - 1);
    assert gs' == gs[k := RowGroup(r, gs[k].members + [n - 1])];
    forall l | 0 <= l < |gs'|
      ensures gs'[l].members == InRow(keys, gs'[l].row, n) && |gs'[l].members| > 0
    {
      if l != k {
        assert gs[l].row != r;
      }
    }
    forall l | 0 <= l < |gs'| ensures gs'[l].row == gs[l].row && gs'[l].members[0] == gs[l].members[0] {
    }
    assert gs'[k].row == r;
    CoveredKept(keys, n, gs, gs', r);
  }

  /** Groups that keep the rows of the old ones in place, and have one for
      the row at n-1, cover the first `n` keys. */
  lemma CoveredKept(keys: seq<SpotKey>, n: nat, gs: seq<RowGroup>, gs': seq<RowGroup>, r: string)
    requires 0 < n <= |keys| && RowsCovered(keys, n - 1, gs) && keys[n - 1].row == Ok(r)
    requires |gs| <= |gs'| && forall l :: 0 <= l < |gs| ==> gs'[l].row == gs[l].row
    requires HasRow(gs', r)
    ensures RowsCovered(keys, n, gs')
  {
    forall i | 0 <= i < n - 1 ensures HasRow(gs', keys[i].row.value) {
      var x :| 0 <= x < |gs| && gs[x].row == keys[i].row.value;
      assert gs'[x].row == keys[i].row.value;
    }
  }

  /** A row with no group yet has no position below `n`. */
  lemma UnseenRowEmpty(keys: seq<SpotKey>, n: nat, gs: seq<RowGroup>, r: string)
    requires n <= |keys| && RowsCovered(keys, n, gs) && !HasRow(gs, r)
    ensures InRow(keys, r, n) == []
  {
    InRowExact(keys, r, n);
  }

  /** Opening a new group for a row not seen before keeps it exact. */
  lemma AddNewGroup(keys: seq<SpotKey>, n: nat, gs: seq<RowGroup>, r: string)
    requires 0 < n <= |keys| && GroupsExact(keys, n - 1, gs) && keys[n - 1].row == Ok(r)
    requires IndexOfRow(gs, r) == |gs|
    ensures GroupsExact(keys, n, AddToGroup(gs, r, n - 1))
  {
    var gs' := gs + [RowGroup(r, [n - 1])];
    assert AddToGroup(gs, r, n - 1) == gs';
    IndexOfRowFinds(gs, r);
    UnseenRowEmpty(keys, n - 1, gs, r);
    NewGroupMembers(keys, n, gs, r);
    NewGroupOrdered(keys, n, gs, r);
    assert gs'[|gs|].row == r;
    CoveredKept(keys, n, gs, gs', r);
  }

  lemma NewGroupMembers(keys: seq<SpotKey>, n: nat, gs: seq<RowGroup>, r: string)
    requires 0 < n <= |keys| && MembersExact(keys, n - 1, gs) && keys[n - 1].row == Ok(r)
    requires IndexOfRow(gs, r) == |gs|
    requires InRow(keys, r, n - 1) == []
    ensures MembersExact(keys, n, gs + [RowGroup(r, [n - 1])])
  {
    var gs' := gs + [RowGroup(r, [n - 1])];
    forall l | 0 <= l < |gs'|
      ensures gs'[l].members == InRow(keys, gs'[l].row, n) && |gs'[l].members| > 0
    {
      if l < |gs| {
        assert gs'[l] == gs[l];
      }
    }
  }

  lemma NewGroupOrdered(keys: seq<SpotKey>, n: nat, gs: seq<RowGroup>, r: string)
    requires 0 < n <= |keys| && MembersExact(keys, n - 1, gs) && RowsOrdered(gs)
    requires IndexOfRow(gs, r) == |gs|
    ensures RowsOrdered(gs + [RowGroup(r, [n - 1])])
  {
    forall l | 0 <= l < |gs| ensures gs[l].members[0] < n - 1 {
      InRowExact(keys, gs[l].row, n - 1);
    }
  }

  lemma {:induction false} GroupByRowSpec(keys: seq<SpotKey>, n: nat)
    requires n <= |keys|
    ensures GroupByRow(keys, n).Ok? <==> RowsReadable(keys, n)
    ensures GroupByRow(keys, n).Ok? ==> GroupsExact(keys, n, GroupByRow(keys, n).value)
    ensures GroupByRow(keys, n).Err? ==>
              exists i :: 0 <= i < n && RowsReadable(keys, i) && keys[i].row.Err?
                          && GroupByRow(keys, n).error == keys[i].row.error
  {
    if n == 0 {
      return;
    }
    GroupByRowSpec(keys, n - 1);
    var prev := GroupByRow(keys, n - 1);
    if prev.Err? {
      return;
    }
    var row := keys[n - 1].row;
    if row.Err? {
      assert RowsReadable(keys, n - 1);
      return;
    }
    if IndexOfRow(prev.value, row.value) < |prev.value| {
      AddToExistingGroup(keys, n, prev.value, row.value);
    } else {
      AddNewGroup(keys, n, prev.value, row.value);
    }
  }

  // ---------------------------------------------------------------------
  // Scanning each row for two consecutive columns
  // ---------------------------------------------------------------------

  /** The pair at positions q-1, q of a row list was read and rejected. */
  predicate Rejected(keys: seq<SpotKey>, ms: seq<nat>, q: nat)
    requires 1 <= q < |ms| && forall p :: 0 <= p < |ms| ==> ms[p] < |keys|
  {
    ColumnsRead(keys, ms[q - 1], ms[q]) && !Consecutive(keys, ms[q - 1], ms[q])
  }

  predicate MembersIn(keys: seq<SpotKey>, ms: seq<nat>)
  {
    forall p :: 0 <= p < |ms| ==> ms[p] < |keys|
  }

  /** The inner loop `for (i = k; i < size; i++)`: the current column is read
      before the previous one, and the first pair with curr == prev + 1 wins. */
  function ScanRow(keys: seq<SpotKey>, ms: seq<nat>, k: nat): Result<Option<(nat, nat)>, IdError>
    requires MembersIn(keys, ms) && 1 <= k
    decreases |ms| - k
  {
    if k >= |ms| then Ok(None)
    else
      match keys[ms[k]].column
      case Err(e) => Err(e)
      case Ok(curr) =>
        match keys[ms[k - 1]].column
        case Err(e) => Err(e)
        case Ok(prev) =>
          if curr == prev + 1 then Ok(Some((ms[k - 1], ms[k])))
          else ScanRow(keys, ms, k + 1)
  }

  /** A found pair is the first accepted one from position `k` on. */
  lemma {:induction false} ScanRowFound(keys: seq<SpotKey>, ms: seq<nat>, k: nat) returns (q: nat)
    requires MembersIn(keys, ms) && 1 <= k
    requires ScanRow(keys, ms, k).Ok? && ScanRow(keys, ms, k).value.Some?
    ensures k <= q < |ms| && ScanRow(keys, ms, k).value.value == (ms[q - 1], ms[q])
    ensures Consecutive(keys, ms[q - 1], ms[q])
    ensures forall p :: k <= p < q ==> Rejected(keys, ms, p)
    decreases |ms| - k
  {
    var curr := keys[ms[k]].column.value;
    var prev := keys[ms[k - 1]].column.value;
    if curr == prev + 1 {
      q := k;
    } else {
      q := ScanRowFound(keys, ms, k + 1);
    }
  }

  /** Finding nothing means every pair from position `k` on was rejected. */
  lemma {:induction false} ScanRowNone(keys: seq<SpotKey>, ms: seq<nat>, k: nat)
    requires MembersIn(keys, ms) && 1 <= k
    requires ScanRow(keys, ms, k) == Ok(None)
    ensures forall p :: k <= p < |ms| ==> Rejected(keys, ms, p)
    decreases |ms| - k
  {
    if k < |ms| {
      ScanRowNone(keys, ms, k + 1);
    }
  }

  /** A failure is the parse failure of some column read on the way. */
  lemma {:induction false} ScanRowError(keys: seq<SpotKey>, ms: seq<nat>, k: nat) returns (p: nat)
    requires MembersIn(keys, ms) && 1 <= k
    requires ScanRow(keys, ms, k).Err?
    ensures p < |ms| && keys[ms[p]].column == Err(ScanRow(keys, ms, k).error)
    decreases |ms| - k
  {
    if keys[ms[k]].column.Err? {
      p := k;
    } else if keys[ms[k - 1]].column.Err? {
      p := k - 1;
    } else {
      p := ScanRowError(keys, ms, k + 1);
    }
  }

  predicate GroupsIn(keys: seq<SpotKey>, gs: seq<RowGroup>)
  {
    forall g :: 0 <= g < |gs| ==> MembersIn(keys, gs[g].members)
  }

  /** The outer loop over the rows in first-seen order; a row with fewer
      than two spots is skipped. */
  function ScanGroups(keys: seq<SpotKey>, gs: seq<RowGroup>, g: nat): Result<Option<(nat, nat)>, IdError>
    requires GroupsIn(keys, gs)
    decreases |gs| - g
  {
    if g >= |gs| then Ok(None)
    else if |gs[g].members| < 2 then ScanGroups(keys, gs, g + 1)
    else
      match ScanRow(keys, gs[g].members, 1)
      case Err(e) => Err(e)
      case Ok(Some(pair)) => Ok(Some(pair))
      case Ok(None) => ScanGroups(keys, gs, g + 1)
  }

  /** Every pair of every row from `g0` up to (not including) `g1` was rejected. */
  predicate RowsRejected(keys: seq<SpotKey>, gs: seq<RowGroup>, g0: nat, g1: nat)
    requires GroupsIn(keys, gs) && g1 <= |gs|
  {
    forall l, p :: g0 <= l < g1 && 1 <= p < |gs[l].members| ==> Rejected(keys, gs[l].members, p)
  }

  lemma {:induction false} ScanGroupsFound(keys: seq<SpotKey>, gs: seq<RowGroup>, g: nat) returns (g0: nat, q0: nat)
    requires GroupsIn(keys, gs)
    requires ScanGroups(keys, gs, g).Ok? && ScanGroups(keys, gs, g).value.Some?
    ensures g <= g0 < |gs| && 1 <= q0 < |gs[g0].members|
    ensures ScanGroups(keys, gs, g).value.value == (gs[g0].members[q0 - 1], gs[g0].members[q0])
    ensures Consecutive(keys, gs[g0].members[q0 - 1], gs[g0].members[q0])
    ensures RowsRejected(keys, gs, g, g0)
    ensures forall p :: 1 <= p < q0 ==> Rejected(keys, gs[g0].members, p)
    decreases |gs| - g
  {
    if |gs[g].members| < 2 {
      g0, q0 := ScanGroupsFound(keys, gs, g + 1);
    } else if ScanRow(keys, gs[g].members, 1).value.Some? {
      g0 := g;
      q0 := ScanRowFound(keys, gs[g].members, 1);
    } else {
      ScanRowNone(keys, gs[g].members, 1);
      g0, q0 := ScanGroupsFound(keys, gs, g + 1);
    }
  }

  lemma {:induction false} ScanGroupsNone(keys: seq<SpotKey>, gs: seq<RowGroup>, g: nat)
    requires GroupsIn(keys, gs) && g <= |gs|
    requires ScanGroups(keys, gs, g) == Ok(None)
    ensures RowsRejected(keys, gs, g, |gs|)
    decreases |gs| - g
  {
    if g < |gs| {
      if |gs[g].members| >= 2 {
        ScanRowNone(keys, gs[g].members, 1);
      }
      ScanGroupsNone(keys, gs, g + 1);
    }
  }

  lemma {:induction false} ScanGroupsError(keys: seq<SpotKey>, gs: seq<RowGroup>, g: nat) returns (p: nat)
    requires GroupsIn(keys, gs)
    requires ScanGroups(keys, gs, g).Err?
    ensures p < |keys| && keys[p].column == Err(ScanGroups(keys, gs, g).error)
    decreases |gs| - g
  {
    if |gs[g].members| < 2 || ScanRow(keys, gs[g].members, 1).Ok? {
      p := ScanGroupsError(keys, gs, g + 1);
    } else {
      var q := ScanRowError(keys, gs[g].members, 1);
      p := gs[g].members[q];
    }
  }

  // ---------------------------------------------------------------------
  // The whole search
  // ---------------------------------------------------------------------

  /** findTwoAdjacentSpots on the keys of the available REGULAR spots:
      Ok(Some((i, j))) for the pair found, Ok(None) when there is none. */
  function FindAdjacentPair(keys: seq<SpotKey>): Result<Option<(nat, nat)>, IdError>
  {
    match GroupByRow(keys, |keys|)
    case Err(e) => Err(e)
    case Ok(gs) =>
      GroupMembersIn(keys, gs);
      ScanGroups(keys, gs, 0)
  }

  lemma GroupMembersIn(keys: seq<SpotKey>, gs: seq<RowGroup>)
    requires GroupByRow(keys, |keys|) == Ok(gs)
    ensures GroupsIn(keys, gs)
    ensures GroupsExact(keys, |keys|, gs)
  {
    GroupByRowSpec(keys, |keys|);
    forall g | 0 <= g < |gs| ensures MembersIn(keys, gs[g].members) {
      InRowExact(keys, gs[g].row, |keys|);
    }
  }

  /** The group holding position `i`. */
  lemma GroupOf(keys: seq<SpotKey>, gs: seq<RowGroup>, i: nat) returns (l: nat)
    requires GroupsExact(keys, |keys|, gs) && i < |keys|
    ensures l < |gs| && keys[i].row == Ok(gs[l].row)
    ensures gs[l].members == InRow(keys, gs[l].row, |keys|)
  {
    IndexOfRowFinds(gs, keys[i].row.value);
    l := IndexOfRow(gs, keys[i].row.value);
  }

  /** The position a row label first appears at. */
  function FirstOfRow(keys: seq<SpotKey>, i: nat): nat
    requires i < |keys| && keys[i].row.Ok?
  {
    var ms := InRow(keys, keys[i].row.value, |keys|);
    InRowExact(keys, keys[i].row.value, |keys|);
    assert i in ms;
    ms[0]
  }

  /** An unreadable row label fails the search with the first such id,
      before any pair is examined; a search that succeeds read every row. */
  lemma FindAdjacentPairRows(keys: seq<SpotKey>)
    ensures FindAdjacentPair(keys).Ok? ==> RowsReadable(keys, |keys|)
    ensures !RowsReadable(keys, |keys|) ==>
              exists i :: 0 <= i < |keys| && RowsReadable(keys, i) && keys[i].row.Err?
                          && FindAdjacentPair(keys) == Err(keys[i].row.error)
  {
    GroupByRowSpec(keys, |keys|);
  }

  /** A found pair is the first pair of row neighbours with consecutive
      columns, in the order of FirstAdjacent. */
  lemma FindAdjacentPairFound(keys: seq<SpotKey>)
    requires FindAdjacentPair(keys).Ok? && FindAdjacentPair(keys).value.Some?
    ensures var (i, j) := FindAdjacentPair(keys).value.value;
            FirstAdjacent(keys, i, j)
  {
    var gs := GroupByRow(keys, |keys|).value;
    GroupMembersIn(keys, gs);
    var g0, q0 := ScanGroupsFound(keys, gs, 0);
    var row := gs[g0].row;
    var ms := gs[g0].members;
    assert ms == InRow(keys, row, |keys|);
    InRowExact(keys, row, |keys|);
    InRowNeighbours(keys, row, q0);
    var i, j := ms[q0 - 1], ms[q0];
    assert FindAdjacentPair(keys).value.value == (i, j);
    forall i': nat, j': nat | RowNeighbours(keys, i', j') && Consecutive(keys, i', j')
      ensures if keys[i'].row == keys[i].row then j <= j'
              else FirstOfRow(keys, i) < FirstOfRow(keys, i')
    {
      var l := GroupOf(keys, gs, i');
      var ms' := gs[l].members;
      var q' := NeighboursInRow(keys, gs[l].row, i', j');
      assert !Rejected(keys, ms', q');
      assert RowsRejected(keys, gs, 0, g0);
      if l < g0 {
        assert false;
      } else if l == g0 {
        if q' < q0 {
          assert false;
        }
        if q0 < q' {
          assert ms[q0] < ms[q'];
        }
      } else {
        assert gs[g0].members[0] < gs[l].members[0] && gs[g0].row != gs[l].row;
      }
    }
  }

  /** Finding nothing means every pair of row neighbours was read and their
      columns are not consecutive. */
  lemma FindAdjacentPairNone(keys: seq<SpotKey>)
    requires FindAdjacentPair(keys) == Ok(None)
    ensures forall i: nat, j: nat :: RowNeighbours(keys, i, j) ==>
              ColumnsRead(keys, i, j) && !Consecutive(keys, i, j)
  {
    var gs := GroupByRow(keys, |keys|).value;
    GroupMembersIn(keys, gs);
    ScanGroupsNone(keys, gs, 0);
    forall i: nat, j: nat | RowNeighbours(keys, i, j)
      ensures ColumnsRead(keys, i, j) && !Consecutive(keys, i, j)
    {
      var l := GroupOf(keys, gs, i);
      var q := NeighboursInRow(keys, gs[l].row, i, j);
      assert Rejected(keys, gs[l].members, q);
    }
  }

  /** A failure after every row was read is a column number that could not
      be parsed. */
  lemma FindAdjacentPairColumnError(keys: seq<SpotKey>) returns (p: nat)
    requires FindAdjacentPair(keys).Err? && RowsReadable(keys, |keys|)
    ensures p < |keys| && keys[p].column == Err(FindAdjacentPair(keys).error)
  {
    GroupByRowSpec(keys, |keys|);
    var gs := GroupByRow(keys, |keys|).value;
    GroupMembersIn(keys, gs);
    p := ScanGroupsError(keys, gs, 0);
  }
}
