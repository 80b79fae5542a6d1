# Parking-lot allocation, modelled in Dafny

This project models the allocation core of a Java parking-lot system. A
lot is configured by a number of rows and a row template such as
`"COMPACT, REGULAR, REGULAR"`. Each row gets one spot per template token,
and a spot's id is `R{row}-{column}`.

- A motorcycle takes the first free COMPACT spot, or else the first free
  REGULAR spot.
- A car takes the first free REGULAR spot.
- A van takes two free REGULAR spots in the same row whose columns are
  consecutive.

Parking a vehicle records the spots it occupies under its identifier.
Removing it frees them. A summary counts spots per lot, per spot type and
per row.

The repository carries two engines, and both are modelled.

The newer engine (`src/main/java/parking/...`):

- `ParkingSpot` is a class with an occupant (module `Spot`).
- `RegularCompactAllocationStrategy` is a set of pure functions over the
  spot lists. The row grouping and adjacency search live in module
  `RowAdjacency`, and `Available`/`FindParkingSpot` in
  `AllocationStrategy`.
- `RegularCompactLotAdmin` is a class whose methods change its maps and
  spots (module `LotAdmin`). Its template parsing is in `RowTemplate`, and
  the id helpers are in `SpotIds`.
- The `ParkingLotSummary` constructors are in `LotSummary`. The counting
  of `generateLotSummary` is specified by folds in `SummaryTally`.
- The `ParkingLot` facade is in module `Facade`.

The older engine (`src/parking/lot/ParkingLotAdmin.java` with the
`ParkingLotUtil` helpers and `RegularSpot`):

- `RegularSpot` is in module `LegacySpots`.
- `ParkingLotUtil` is in module `LegacyUtil`.
- `ParkingLotAdmin` and its summary are in module `LegacyAdmin`.
- `LegacyReparking` follows its re-park check through a second park and a
  removal.

The older engine's `Vehicle` has no `equals`, so vehicles are compared by
identity. The model therefore makes it a class and keys the map by object
reference.

Java exceptions are `Err`/`Fail` values of the error datatype in
`ParkingTypes`, and every exception the code can throw is one of its
constructors. The `null` arguments the code checks are `Option`s.
Imperative code (the administrators, the spots, the summary loop) is
written as Dafny classes and methods with loops. Each method is proved
against functions on its inputs:

- the strategy's result;
- the template's `Arrangement`;
- the `Summarize` fold, whose counts are proved equal to direct counts of
  free, taken and van-held spots per lot and per row.

## Model

| member | source | states |
|---|---|---|
| SpotIds.StripIsTrimmedSlice | src/main/java/parking/lot/RegularCompactLotAdmin.java:46 | `strip` returns a contiguous slice of the token; only whitespace is cut from either end, and the result neither starts nor ends with whitespace |
| SpotIds.StripTrimmed | src/main/java/parking/lot/RegularCompactLotAdmin.java:46 | a token without surrounding whitespace is left as it is |
| SpotIds.StripPadded | src/main/java/parking/lot/RegularCompactLotAdmin.java:46 | blanks put around a trimmed token are all removed again |
| SpotIds.Strip | src/main/java/parking/lot/RegularCompactLotAdmin.java:46 | `strip` as a definition; StripIsTrimmedSlice, StripTrimmed and StripPadded state what it keeps and what it cuts |
| SpotIds.JavaSplit | src/main/java/parking/lot/strategy/RegularCompactAllocationStrategy.java:122 | `split` on one separator, trailing empty fields dropped; SplitFieldsNoSeparator, SplitFieldsAt and JavaSplitTwo state its fields |
| SpotIds.ParseInt | src/main/java/parking/lot/strategy/RegularCompactAllocationStrategy.java:134 | `Integer.parseInt` of a column; ParseNatToString states that it reads back every printed column |
| SpotIds.FormatSpotId | src/main/java/parking/lot/RegularCompactLotAdmin.java:56 | the id `R<row>-<col>`; FormatSpotIdParts states that its row label and column read back, FormatSpotIdInjective that distinct positions get distinct ids |
| SpotIds.SummaryRowKey | src/main/java/parking/lot/RegularCompactLotAdmin.java:178 | the summary's row key, "UNKNOWN" for an id without a dash; RowKeysOfFormattedId and SummaryRowKeyNoDash state its value |
| SpotIds.LegacyRowKey | src/parking/lot/ParkingLotAdmin.java:166 | the legacy summary's row key, the first field of the id; RowKeysOfFormattedId states its value on a built id |
| SpotIds.SplitFieldsNoSeparator | src/main/java/parking/lot/strategy/RegularCompactAllocationStrategy.java:122 | a string without '-' splits into the single field holding all of it |
| SpotIds.SplitFieldsAt | src/main/java/parking/lot/strategy/RegularCompactAllocationStrategy.java:122 | splitting at the first '-' gives the text before it followed by the fields of the rest |
| SpotIds.JavaSplitTwo | src/main/java/parking/lot/strategy/RegularCompactAllocationStrategy.java:122 | `a-b`, with neither part holding '-' and `b` non-empty, splits into exactly `[a, b]` (trailing empty fields are dropped as `String.split` does) |
| SpotIds.NatToString | src/main/java/parking/lot/RegularCompactLotAdmin.java:56 | `%d` of a number is a non-empty string of decimal digits with no leading zero |
| SpotIds.ParseNatToString | src/main/java/parking/lot/strategy/RegularCompactAllocationStrategy.java:133-135 | `parseInt` reads back exactly the number `%d` wrote |
| SpotIds.NatToStringInjective | src/main/java/parking/lot/RegularCompactLotAdmin.java:56 | different numbers are written differently |
| SpotIds.ExtractRow | src/main/java/parking/lot/strategy/RegularCompactAllocationStrategy.java:121-125 | the row is read exactly when the id splits into two parts, and it is the part before '-'; otherwise InvalidParkingSpotIdException for that id |
| SpotIds.ExtractSpotNum | src/main/java/parking/lot/strategy/RegularCompactAllocationStrategy.java:133-135 | an id with fewer than two parts has no column (the missing `split(...)[1]`), reported as a malformed id; otherwise the column is `parseInt` of the second part, a NumberFormatException when that is not a number |
| SpotIds.FormatSpotIdParts | src/main/java/parking/lot/RegularCompactLotAdmin.java:56 | an id `R{row}-{col}` splits into `R{row}` and the column's digits, so its row reads back as `R{row}` and its column as `col` |
| SpotIds.FormatSpotIdInjective | src/main/java/parking/lot/RegularCompactLotAdmin.java:53-62 | two positions of the lot never get the same id |
| SpotIds.RowKeysOfFormattedId | src/main/java/parking/lot/RegularCompactLotAdmin.java:178 | a built id holds '-', splits into its row label and column, and both summaries file it under its row label `R{row}` |
| SpotIds.SummaryRowKeyNoDash | src/main/java/parking/lot/RegularCompactLotAdmin.java:178 | an id without '-' is filed under "UNKNOWN" by the newer summary and under the whole id by the older one |
| Spot.ParkingSpot.constructor | src/main/java/parking/domain/ParkingSpot.java:23-27 | a new spot keeps its id and type and is free |
| Spot.ParkingSpot.IsAvailable | src/main/java/parking/domain/ParkingSpot.java:34-36 | no vehicle occupies the spot; the contracts of GetVehicleType and AssignVehicle are stated through it |
| Spot.ParkingSpot.GetVehicleType | src/main/java/parking/domain/ParkingSpot.java:61-63 | no vehicle type exactly when the spot is available; otherwise the occupant's type |
| Spot.ParkingSpot.AssignVehicle | src/main/java/parking/domain/ParkingSpot.java:71-76 | a free spot takes the vehicle; a taken spot is DoubleParkingException and keeps its occupant |
| Spot.ParkingSpot.RemoveVehicle | src/main/java/parking/domain/ParkingSpot.java:81-83 | the spot is available afterwards, whatever it held |
| RowTemplate.ParseSpotTypeSpec | src/main/java/parking/lot/RegularCompactLotAdmin.java:46 | a token parses exactly when its stripped text is a spot type's name, and it parses to that type |
| RowTemplate.ParseSpotTypeName | src/main/java/parking/lot/RegularCompactLotAdmin.java:46 | a type's name, with or without blanks around it, parses to that type |
| RowTemplate.ParseSpotType | src/main/java/parking/lot/RegularCompactLotAdmin.java:46 | `valueOf(token.strip())`; ParseSpotTypeSpec and ParseSpotTypeName state which tokens name which type |
| RowTemplate.Arrangement | src/main/java/parking/lot/RegularCompactLotAdmin.java:44-50 | the validation loop as a definition; ArrangementAccepts, ArrangementRejects, ArrangementPrefixNamed and ArrangementLength state its result |
| RowTemplate.ArrangementAccepts | src/main/java/parking/lot/RegularCompactLotAdmin.java:42-50 | a template whose every token names a type is accepted, with one type per token in order |
| RowTemplate.ArrangementRejects | src/main/java/parking/lot/RegularCompactLotAdmin.java:44-49 | a template with an unnamed token is rejected with IllegalSpotTypeException for the first such token, as written |
| RowTemplate.ArrangementPrefixNamed | src/main/java/parking/lot/RegularCompactLotAdmin.java:44-50 | an accepted prefix of the template holds only tokens that name a type |
| RowTemplate.ValidateArrangement | src/main/java/parking/lot/RegularCompactLotAdmin.java:42-50 | the validation loop computes the template's arrangement, or the error for its first unnamed token |
| RowTemplate.RowIdsCount | src/main/java/parking/lot/RegularCompactLotAdmin.java:55-61 | a row holds as many ids of each type as the template has tokens of it, and the two types together fill the row |
| RowTemplate.PlannedIdsCount | src/main/java/parking/lot/RegularCompactLotAdmin.java:53-62 | over all rows each type gets rows × its token count ids |
| RowTemplate.PlannedIdsTotal | src/main/java/parking/lot/RegularCompactLotAdmin.java:53-62 | the lot holds rows × columns ids in all |
| RowTemplate.ArrangementLength | src/main/java/parking/lot/RegularCompactLotAdmin.java:43 | an accepted template has one type per token |
| RowAdjacency.InRowExact | src/main/java/parking/lot/strategy/RegularCompactAllocationStrategy.java:83-97 | a row's list is strictly increasing and holds exactly the positions whose row label is that row |
| RowAdjacency.NeighboursInRow | src/main/java/parking/lot/strategy/RegularCompactAllocationStrategy.java:102-108 | neighbours in a row's list are spots of that row with no spot of the row between them |
| RowAdjacency.InRowNeighbours | src/main/java/parking/lot/strategy/RegularCompactAllocationStrategy.java:102-108 | conversely, two such spots are neighbours in the row's list |
| RowAdjacency.AddToExistingGroup | src/main/java/parking/lot/strategy/RegularCompactAllocationStrategy.java:87-97 | adding a spot to a row already grouped keeps the groups exact, ordered and covering |
| RowAdjacency.AddNewGroup | src/main/java/parking/lot/strategy/RegularCompactAllocationStrategy.java:87-97 | the first spot of a new row opens a group at the end and keeps the groups exact, ordered and covering |
| RowAdjacency.GroupByRow | src/main/java/parking/lot/strategy/RegularCompactAllocationStrategy.java:83-97 | the grouping of spots by row; GroupByRowSpec states its result |
| RowAdjacency.ScanRow | src/main/java/parking/lot/strategy/RegularCompactAllocationStrategy.java:102-108 | the scan of one row; ScanRowFound, ScanRowNone and ScanRowError state its result |
| RowAdjacency.ScanGroups | src/main/java/parking/lot/strategy/RegularCompactAllocationStrategy.java:99-109 | the scan over the rows in order; ScanGroupsFound, ScanGroupsNone and ScanGroupsError state its result |
| RowAdjacency.FindAdjacentPair | src/main/java/parking/lot/strategy/RegularCompactAllocationStrategy.java:83-111 | grouping then scanning; FindAdjacentPairRows, FindAdjacentPairFound, FindAdjacentPairNone and FindAdjacentPairColumnError state its result |
| RowAdjacency.GroupByRowSpec | src/main/java/parking/lot/strategy/RegularCompactAllocationStrategy.java:83-97 | grouping succeeds exactly when every row label reads; then each group holds exactly its row's spots in list order, rows are distinct in first-seen order and every spot is covered; otherwise the error is that of the first unreadable id |
| RowAdjacency.ScanRowFound | src/main/java/parking/lot/strategy/RegularCompactAllocationStrategy.java:102-108 | a pair found in a row is the first pair of neighbours with consecutive columns; every earlier pair was read and rejected |
| RowAdjacency.ScanRowNone | src/main/java/parking/lot/strategy/RegularCompactAllocationStrategy.java:102-108 | no pair means every neighbour pair of the row was read and none is consecutive |
| RowAdjacency.ScanRowError | src/main/java/parking/lot/strategy/RegularCompactAllocationStrategy.java:103-104 | a failure in a row is the column error of one of that row's spots |
| RowAdjacency.ScanGroupsFound | src/main/java/parking/lot/strategy/RegularCompactAllocationStrategy.java:99-109 | a pair comes from the first row that has one: every pair of the earlier rows, and every earlier pair of its own row, was read and rejected |
| RowAdjacency.ScanGroupsNone | src/main/java/parking/lot/strategy/RegularCompactAllocationStrategy.java:99-111 | no pair means every row was scanned without a consecutive pair |
| RowAdjacency.ScanGroupsError | src/main/java/parking/lot/strategy/RegularCompactAllocationStrategy.java:99-109 | a failure is the column error of one of the spots |
| RowAdjacency.FindAdjacentPairRows | src/main/java/parking/lot/strategy/RegularCompactAllocationStrategy.java:88-93 | an id whose row cannot be read fails the search, with the first such id, before any pair is looked at |
| RowAdjacency.FindAdjacentPairFound | src/main/java/parking/lot/strategy/RegularCompactAllocationStrategy.java:83-111 | a pair found is the first row-neighbour pair with consecutive columns, in row then list order |
| RowAdjacency.FindAdjacentPairNone | src/main/java/parking/lot/strategy/RegularCompactAllocationStrategy.java:99-111 | no pair means every row-neighbour pair was read and none has consecutive columns |
| RowAdjacency.FindAdjacentPairColumnError | src/main/java/parking/lot/strategy/RegularCompactAllocationStrategy.java:103-104 | a column error arises only when every row reads, and it is the error of a spot's column |
| AllocationStrategy.SpotsOfAppend | src/main/java/parking/lot/RegularCompactLotAdmin.java:58-60 | appending a spot to a type's list adds exactly that spot to the map's spots |
| AllocationStrategy.Available | src/main/java/parking/lot/strategy/RegularCompactAllocationStrategy.java:69-71 | the filter keeps only available spots of the list and every one of them; it is empty exactly when none is available, and otherwise starts with the first available one |
| AllocationStrategy.AvailableDistinct | src/main/java/parking/lot/strategy/RegularCompactAllocationStrategy.java:69-71 | filtering a list of distinct spots gives distinct spots |
| AllocationStrategy.FindSingleAvailableSpotSpec | src/main/java/parking/lot/strategy/RegularCompactAllocationStrategy.java:68-74 | nothing exactly when no spot of the type is available; otherwise the one-spot list of the first available one |
| AllocationStrategy.FindTwoAdjacentSpots | src/main/java/parking/lot/strategy/RegularCompactAllocationStrategy.java:82-112 | the van search; FindTwoAdjacentSpotsCases, VanFound, VanNone, VanBadId, VanBadColumn and VanSound state its result |
| AllocationStrategy.FindParkingSpot | src/main/java/parking/lot/strategy/RegularCompactAllocationStrategy.java:42-59 | the allocation by vehicle type; FindParkingSpotNulls, CarSpec, MotorcycleSpec, the Van lemmas, FindParkingSpotSound and FindParkingSpotTotal state its result |
| AllocationStrategy.FindParkingSpotNulls | src/main/java/parking/lot/strategy/RegularCompactAllocationStrategy.java:43-48 | a null vehicle or map is ParkingUnavailableException; with both present only a van's search can fail |
| AllocationStrategy.CarSpec | src/main/java/parking/lot/strategy/RegularCompactAllocationStrategy.java:50-51 | a car gets the first available REGULAR spot, or an empty list |
| AllocationStrategy.MotorcycleSpec | src/main/java/parking/lot/strategy/RegularCompactAllocationStrategy.java:52-55 | a motorcycle gets the first available COMPACT spot, else the first available REGULAR spot, else an empty list |
| AllocationStrategy.FindTwoAdjacentSpotsCases | src/main/java/parking/lot/strategy/RegularCompactAllocationStrategy.java:82-111 | the van search returns the pair it finds, an empty list when there is none, or ParkingUnavailableException for an unreadable id |
| AllocationStrategy.VanFound | src/main/java/parking/lot/strategy/RegularCompactAllocationStrategy.java:56-57 | a van's non-empty result is the first adjacent pair among the available REGULAR spots, by row in order of first appearance and then along the row |
| AllocationStrategy.VanNone | src/main/java/parking/lot/strategy/RegularCompactAllocationStrategy.java:99-111 | a van's empty result means every pair of row neighbours among the available REGULAR spots was read and none has consecutive columns |
| AllocationStrategy.VanBadId | src/main/java/parking/lot/strategy/RegularCompactAllocationStrategy.java:88-93 | when some available REGULAR id has no readable row, the search is ParkingUnavailableException naming the first such id |
| AllocationStrategy.VanBadColumn | src/main/java/parking/lot/strategy/RegularCompactAllocationStrategy.java:103-104 | when every row reads, a failure is NumberFormatException for the second part of one of the available ids |
| AllocationStrategy.FindParkingSpotSound | src/main/java/parking/lot/strategy/RegularCompactAllocationStrategy.java:42-58 | every allocation holds at most two distinct available spots from the map, of a type the vehicle may use |
| AllocationStrategy.SingleSound | src/main/java/parking/lot/strategy/RegularCompactAllocationStrategy.java:68-74 | a single-spot result is an available spot of the requested type |
| AllocationStrategy.PairSound | src/main/java/parking/lot/strategy/RegularCompactAllocationStrategy.java:106 | two positions of the available REGULAR list give two distinct available REGULAR spots of the map |
| AllocationStrategy.VanSound | src/main/java/parking/lot/strategy/RegularCompactAllocationStrategy.java:82-111 | a van's allocation is empty or two distinct available REGULAR spots of the map |
| AllocationStrategy.FindParkingSpotTotal | src/main/java/parking/lot/strategy/RegularCompactAllocationStrategy.java:88-93 | with well-formed ids the allocation never fails |
| LotSummary.NewSpotTypeStatus | src/main/java/parking/domain/ParkingLotSummary.java:113-120 | accepted exactly when no count is negative, and then stored as given; otherwise IllegalArgumentException |
| LotSummary.NewRowStatus | src/main/java/parking/domain/ParkingLotSummary.java:154-161 | accepted exactly when no count is negative, and then stored as given; otherwise IllegalArgumentException |
| LotSummary.NewParkingLotSummary | src/main/java/parking/domain/ParkingLotSummary.java:34-55 | accepted exactly when no count is negative and both maps are present; a negative count is IllegalArgumentException, a null map NullPointerException; an accepted summary stores every value as given |
| LotSummary.NoCrossCheck | src/main/java/parking/domain/ParkingLotSummary.java:44-54 | counts that do not add up are still accepted |
| SummaryTally.FreePlusTaken | src/main/java/parking/lot/RegularCompactLotAdmin.java:180-187 | free and taken spots add up to all spots |
| SummaryTally.FreeInRowBounded | src/main/java/parking/lot/RegularCompactLotAdmin.java:190-194 | a row never has more free spots than spots |
| SummaryTally.CountInAbsentRow | src/main/java/parking/lot/RegularCompactLotAdmin.java:190-191 | a row no spot belongs to counts nothing |
| SummaryTally.TallyViewsAppend | src/main/java/parking/lot/RegularCompactLotAdmin.java:167-198 | tallying two lists one after the other is tallying their concatenation |
| SummaryTally.TallyViewsCounts | src/main/java/parking/lot/RegularCompactLotAdmin.java:173-195 | the running tally equals the direct counts of spots, free spots, taken spots and van-held spots; the row map has a row exactly when some spot is in it, with that row's counts |
| SummaryTally.TallyEntriesFlat | src/main/java/parking/lot/RegularCompactLotAdmin.java:167-198 | tallying the type lists in turn is tallying all their spots in one list |
| SummaryTally.TypeStatusesKeys | src/main/java/parking/lot/RegularCompactLotAdmin.java:196-197 | the per-type map has exactly the types that were visited |
| SummaryTally.TypeStatusesLast | src/main/java/parking/lot/RegularCompactLotAdmin.java:196-197 | each type's status is that of the last list visited for it |
| SummaryTally.SummarizeCounts | src/main/java/parking/lot/RegularCompactLotAdmin.java:165-203 | the summary's totals, flags, van count and row map are the direct counts over all spots |
| SummaryTally.SummarizeConsistent | src/main/java/parking/lot/RegularCompactLotAdmin.java:172-201 | the summary's counts are non-negative and add up overall, per type and per row |
| SummaryTally.Summarize | src/main/java/parking/lot/RegularCompactLotAdmin.java:158-204 | the summary built from the tallied spots; SummarizeCounts, SummarizeConsistent, CountedSummary, EmptyShortcut and AllFreeSummary state its result |
| SummaryTally.CountedSummary | src/main/java/parking/lot/RegularCompactLotAdmin.java:200-203 | the summary constructor accepts what the loop counted, so the method never throws |
| SummaryTally.EmptyShortcut | src/main/java/parking/lot/RegularCompactLotAdmin.java:159-161 | the shortcut for an empty map is the summary the loop would give |
| SummaryTally.AllFreeSummary | src/main/java/parking/lot/RegularCompactLotAdmin.java:200-201 | with no vehicle parked the lot is empty, and it is full only when it has no spots |
| SummaryTally.TakeOne | src/main/java/parking/lot/RegularCompactLotAdmin.java:180-187 | occupying a free spot moves one spot from free to taken, and adds one to the van count for a van |
| SummaryTally.VanTakesTwo | src/main/java/parking/lot/RegularCompactLotAdmin.java:186 | a parked van adds two to the van count, since vans are counted by spot |
| LotAdmin.EntriesOfNonEmpty | src/main/java/parking/lot/RegularCompactLotAdmin.java:159-161 | the summary visits nothing exactly when the spot map is empty |
| LotAdmin.HoldsSize | src/main/java/parking/lot/RegularCompactLotAdmin.java:53-62 | a built lot holds rows × columns spots |
| LotAdmin.BuiltNextColumn | src/main/java/parking/lot/RegularCompactLotAdmin.java:55-60 | adding the next column's spot extends the built prefix of the lot by one |
| LotAdmin.ColumnStep | src/main/java/parking/lot/RegularCompactLotAdmin.java:55-60 | appending the next column's new spot extends the built part of the lot by one, keeps the lists well formed and adds exactly that spot to the lot |
| LotAdmin.BuiltHolds | src/main/java/parking/lot/RegularCompactLotAdmin.java:53-62 | once every row is built, each type's list is exactly its planned ids in order |
| LotAdmin.BuiltIdsReadable | src/main/java/parking/lot/RegularCompactLotAdmin.java:56 | every id the constructor makes has a readable row and column |
| LotAdmin.ListsAppend | src/main/java/parking/lot/RegularCompactLotAdmin.java:58-60 | appending a new spot of the list's type with a built id keeps every list distinct, of its own type and of built ids |
| LotAdmin.RegularCompactLotAdmin.constructor | src/main/java/parking/lot/RegularCompactLotAdmin.java:53-62 | the spot map holds the planned spots, all new and free, and no vehicle is recorded |
| LotAdmin.RegularCompactLotAdmin.BuildRow | src/main/java/parking/lot/RegularCompactLotAdmin.java:54-61 | one pass of the row loop adds that row's spots to the lists |
| LotAdmin.RegularCompactLotAdmin.AddColumn | src/main/java/parking/lot/RegularCompactLotAdmin.java:55-60 | one pass of the column loop appends one new free spot to its type's list |
| LotAdmin.RegularCompactLotAdmin.Create | src/main/java/parking/lot/RegularCompactLotAdmin.java:37-63 | IllegalSpotTypeException exactly when the template is rejected, with its error; otherwise a lot holding the planned spots, all free, with no vehicle recorded |
| LotAdmin.RegularCompactLotAdmin.Allocation | src/main/java/parking/lot/RegularCompactLotAdmin.java:81-82 | the strategy's allocation for a new vehicle over the current map; the contracts of ParkVehicle and of the facade's ParkVehicle are stated through it |
| LotAdmin.RegularCompactLotAdmin.ParkVehicle | src/main/java/parking/lot/RegularCompactLotAdmin.java:75-92 | a vehicle already parked gets its recorded spots and nothing changes; otherwise the strategy never fails on the lot's spots, an empty allocation is ParkingUnavailableException and nothing changes, and any other allocation is recorded under the identifier with each of its spots taken by the vehicle, every other spot untouched |
| LotAdmin.RegularCompactLotAdmin.Occupy | src/main/java/parking/lot/RegularCompactLotAdmin.java:87-90 | the allocated spots take the vehicle and are recorded under its identifier |
| LotAdmin.RegularCompactLotAdmin.RemoveVehicle | src/main/java/parking/lot/RegularCompactLotAdmin.java:100-105 | the identifier leaves the record and its spots are freed, others untouched; an unknown identifier changes nothing |
| LotAdmin.RegularCompactLotAdmin.Release | src/main/java/parking/lot/RegularCompactLotAdmin.java:101-104 | the spots recorded for the identifier are freed and the record dropped |
| LotAdmin.RegularCompactLotAdmin.GenerateLotSummary | src/main/java/parking/lot/RegularCompactLotAdmin.java:158-204 | the summary is the fold over the spots by type, and so its counts add up and match the spots |
| LotAdmin.AssignAll | src/main/java/parking/lot/RegularCompactLotAdmin.java:87-89 | every allocated spot takes the vehicle |
| LotAdmin.FreeAll | src/main/java/parking/lot/RegularCompactLotAdmin.java:103 | every spot of the list is freed |
| LotAdmin.CountSpots | src/main/java/parking/lot/RegularCompactLotAdmin.java:172-195 | the inner loop's tally is the fold over the list, and the type's status is its size and free count |
| LotAdmin.CountSpot | src/main/java/parking/lot/RegularCompactLotAdmin.java:174-194 | one spot's step adds that spot's counts to the tally |
| LotAdmin.CountTypes | src/main/java/parking/lot/RegularCompactLotAdmin.java:167-198 | the outer loop's tally and per-type map are the folds over all type lists |
| LotAdmin.CountType | src/main/java/parking/lot/RegularCompactLotAdmin.java:168-197 | one type's pass adds that list's counts and its status |
| Facade.ParkingLot.Create | src/main/java/parking/lot/ParkingLot.java:31-41 | any administrator type other than COMPACT_REGULAR is IllegalParkingLotAdminException; otherwise the template error, or a lot whose reported size is rows × tokens and, for a row count of zero or more, the number of spots it holds |
| Facade.ParkingLot.ParkVehicle | src/main/java/parking/lot/ParkingLot.java:52-60 | the first spot recorded for the vehicle; a new vehicle is recorded with exactly the spots the strategy allocates, each now holding it, and no other spot changes; ParkingUnavailableException exactly when the vehicle is new and the strategy finds nothing, and then nothing changes |
| Facade.ParkingLot.RemoveVehicle | src/main/java/parking/lot/ParkingLot.java:67-69 | the administrator drops the identifier and frees its spots |
| LegacySpots.LegacyVehicle.constructor | src/parking/domain/Vehicle.java:9-12 | the vehicle keeps its identifier and type |
| LegacySpots.LegacySpot.constructor | src/main/java/parking/spot/RegularSpot.java:11-14 | a new spot keeps its id and is free |
| LegacySpots.LegacySpot.IsAvailable | src/main/java/parking/spot/RegularSpot.java:17-19 | no vehicle occupies the spot; the contracts of GetVehicleType, ParkVehicle and RemoveVehicle are stated through it |
| LegacySpots.LegacySpot.GetVehicleType | src/main/java/parking/spot/RegularSpot.java:27-29 | NullPointerException exactly when the spot is free; otherwise the occupant's type |
| LegacySpots.LegacySpot.ParkVehicle | src/main/java/parking/spot/RegularSpot.java:32-38 | a free spot takes the vehicle; a taken spot is RuntimeException and keeps its occupant |
| LegacySpots.LegacySpot.RemoveVehicle | src/main/java/parking/spot/RegularSpot.java:41-43 | the spot is free afterwards |
| LegacyUtil.KindOfKey | src/main/java/parking/lot/ParkingLotUtil.java:36-40 | "REGULAR" gives the regular kind, "COMPACT" the compact kind, and every other key none |
| LegacyUtil.KindOfStrippedToken | src/parking/lot/ParkingLotAdmin.java:44-47 | the older engine's key check of a stripped token agrees with the newer engine's token parsing, and a key that names a kind is that kind's name |
| LegacyUtil.FreeSpots | src/main/java/parking/lot/ParkingLotUtil.java:44-46 | the filter keeps only free spots of the list and every one of them; it is empty exactly when none is free, and otherwise starts with the first free one |
| LegacyUtil.FreeSpotsDistinct | src/main/java/parking/lot/ParkingLotUtil.java:44-46 | filtering distinct spots gives distinct spots |
| LegacyUtil.FindSingleAvailableSpot | src/main/java/parking/lot/ParkingLotUtil.java:43-50 | nothing exactly when no spot of the key is free; otherwise the first free one |
| LegacyUtil.FindParkingSpot | src/main/java/parking/lot/ParkingLotUtil.java:19-31 | the null checks, then FindForType; FindParkingSpotNulls states its result |
| LegacyUtil.FindForType | src/main/java/parking/lot/ParkingLotUtil.java:22-30 | the allocation by vehicle type; CarSpec, MotorcycleSpec, VanFound, VanNone, VanBadId, FindForTypeSound and FindForTypeTotal state its result |
| LegacyUtil.FindTwoAdjacentSpots | src/main/java/parking/lot/ParkingLotUtil.java:52-74 | the van search; FindTwoAdjacentSpotsCases, VanFound, VanNone, VanBadId and VanSound state its result |
| LegacyUtil.FindParkingSpotNulls | src/main/java/parking/lot/ParkingLotUtil.java:20-21 | a null vehicle or map is NullPointerException; with both present a car or motorcycle search never fails |
| LegacyUtil.CarSpec | src/main/java/parking/lot/ParkingLotUtil.java:23-24 | a car gets the first free REGULAR spot, or null |
| LegacyUtil.MotorcycleSpec | src/main/java/parking/lot/ParkingLotUtil.java:25-27 | a motorcycle gets the first free COMPACT spot, else the first free REGULAR spot, else null |
| LegacyUtil.FindTwoAdjacentSpotsCases | src/main/java/parking/lot/ParkingLotUtil.java:52-80 | the van search returns the pair it finds, null when there is none, or an error when an id cannot be read; an id without two parts is IllegalArgumentException |
| LegacyUtil.VanFound | src/main/java/parking/lot/ParkingLotUtil.java:52-72 | a van's non-null result is the first adjacent pair among the free REGULAR spots |
| LegacyUtil.VanNone | src/main/java/parking/lot/ParkingLotUtil.java:63-73 | a van's null result means every pair of row neighbours among the free REGULAR spots was read and none has consecutive columns |
| LegacyUtil.VanBadId | src/main/java/parking/lot/ParkingLotUtil.java:76-80 | when some free REGULAR id has no readable row, the search is IllegalArgumentException |
| LegacyUtil.FindForTypeSound | src/main/java/parking/lot/ParkingLotUtil.java:19-31 | a non-null allocation is one spot for a car or motorcycle and two for a van, distinct, free, from the map and of a kind the vehicle may use |
| LegacyUtil.VanSound | src/main/java/parking/lot/ParkingLotUtil.java:52-74 | a van's non-null allocation is two distinct free REGULAR spots of the map |
| LegacyUtil.FindForTypeTotal | src/main/java/parking/lot/ParkingLotUtil.java:52-84 | with well-formed ids the allocation never fails |
| LegacyUtil.SingleSound | src/main/java/parking/lot/ParkingLotUtil.java:43-50 | a single-spot result is a free spot of the requested kind |
| LegacyUtil.PairSound | src/main/java/parking/lot/ParkingLotUtil.java:66-70 | two positions of the free REGULAR list give two distinct free REGULAR spots of the map |
| LegacyUtil.CreateSpot | src/main/java/parking/lot/ParkingLotUtil.java:33-41 | a null id or key is NullPointerException, an unknown key IllegalArgumentException; otherwise a new free spot with that id and kind |
| LegacyAdmin.UnnamedRejected | src/parking/lot/ParkingLotAdmin.java:44-47 | a template with a token that names no type is rejected |
| LegacyAdmin.UnkeyedRejected | src/parking/lot/ParkingLotAdmin.java:44-47 | a token whose stripped text is neither key makes the template rejected |
| LegacyAdmin.SpotsInAppend | src/parking/lot/ParkingLotAdmin.java:50-52 | appending a spot to a key's list adds exactly that spot to the map's spots |
| LegacyAdmin.ListsAppend | src/parking/lot/ParkingLotAdmin.java:50-52 | appending a new spot under the key of its kind, with a built id, keeps every list distinct, of its own kind and of built ids |
| LegacyAdmin.ColumnStep | src/parking/lot/ParkingLotAdmin.java:44-52 | appending the next column's new spot under its key extends the built part of the lot by one, keeps the lists well formed and adds exactly that spot |
| LegacyAdmin.TokenColumn | src/parking/lot/ParkingLotAdmin.java:44-52 | appending the column's spot under the stripped token extends the built part of the lot by one and keeps the lists well formed |
| LegacyAdmin.TokenKey | src/parking/lot/ParkingLotAdmin.java:44 | the stripped token is the name of the kind it gives, which is the template's type at that column |
| LegacyAdmin.BuiltHolds | src/parking/lot/ParkingLotAdmin.java:42-54 | once every row is built, each key's list is exactly its planned ids in order |
| LegacyAdmin.HoldsSize | src/parking/lot/ParkingLotAdmin.java:39 | a built lot holds rows × tokens spots, the configured total |
| LegacyAdmin.BuiltIdsReadable | src/parking/lot/ParkingLotAdmin.java:45 | every id the constructor makes has a readable row and column |
| LegacyAdmin.SearchFindsFree | src/parking/lot/ParkingLotAdmin.java:72 | in a built lot the search never fails, and what it finds is free, distinct and of the right kind |
| LegacyAdmin.ParkingLotAdmin.Create | src/parking/lot/ParkingLotAdmin.java:34-55 | IllegalArgumentException exactly when there is a row and the template names an unknown kind; the total is rows × tokens; with a row the lot holds the planned spots, and with none its map is empty |
| LegacyAdmin.ParkingLotAdmin.BuildRow | src/parking/lot/ParkingLotAdmin.java:42-54 | one pass of the row loop adds the row's spots, all new and free, or stops with IllegalArgumentException when the template is rejected |
| LegacyAdmin.ParkingLotAdmin.AddColumn | src/parking/lot/ParkingLotAdmin.java:43-53 | one pass of the column loop is IllegalArgumentException exactly when the token names no kind; otherwise it appends one new free spot under its key |
| LegacyAdmin.ParkingLotAdmin.ParkVehicle | src/parking/lot/ParkingLotAdmin.java:63-80 | the result is the search's, which never fails on the lot's spots; with nothing found nothing changes; otherwise a new Vehicle is recorded with the found spots, which it occupies, every other spot untouched |
| LegacyAdmin.ParkingLotAdmin.Record | src/parking/lot/ParkingLotAdmin.java:73-78 | the found spots take the vehicle and are recorded under it |
| LegacyAdmin.ParkingLotAdmin.Occupy | src/parking/lot/ParkingLotAdmin.java:75-77 | every found spot takes the vehicle |
| LegacyAdmin.ParkingLotAdmin.RemoveVehicle | src/parking/lot/ParkingLotAdmin.java:86-106 | more than one vehicle with the identifier is RuntimeException and nothing changes; none changes nothing; exactly one is removed and its spots freed |
| LegacyAdmin.ParkingLotAdmin.Release | src/parking/lot/ParkingLotAdmin.java:99-105 | the vehicle leaves the record and its spots are freed |
| LegacyAdmin.ParkingLotAdmin.GetLotSummary | src/parking/lot/ParkingLotAdmin.java:131-178 | the configured total, the free spots counted, the taken ones as the total less the free, the two flags, the van-held spots, one entry per key, and one entry per row with that row's counts |
| LegacyAdmin.ParkingLotAdmin.SummaryConsistent | src/parking/lot/ParkingLotAdmin.java:133-175 | for a lot of zero or more rows the total is the number of spots and taken is the number of taken spots; free and taken add up overall, per key (whose total is its list's size) and per row |
| LegacyAdmin.ParkAll | src/parking/lot/ParkingLotAdmin.java:75 | every found spot takes the vehicle |
| LegacyAdmin.VacateAll | src/parking/lot/ParkingLotAdmin.java:104 | every recorded spot is freed |
| LegacyReparking.RepeatedIdentifier | src/parking/lot/ParkingLotAdmin.java:64-69 | parking an identifier already parked, while a spot is free, records a second vehicle; removing the identifier then throws RuntimeException |

## Left out

- The command-line application and every `printLotSummary` print only. Their output is not modelled.
- The getters `getSpotsByType`, `getVehicleSpotsMap`, `getTotalSpots`, `getParkingLotSize` and the summary getters return fields. The model reads those fields directly.
- Unmodifiable views and `Map.copyOf` are not modelled. Maps are Dafny values, so a copy is the same value.
- `Integer.parseInt` is modelled on plain decimal digits. A sign, and the 32-bit range, are not modelled, because every id the lot builds is unsigned and small.
- Java's `int` and `long` counters are unbounded integers. The counts stay far below any overflow.
- `generateLotSummary` iterates a `HashMap` in hash order. The model visits COMPACT then REGULAR; every count is order independent.
- `generateLotSummary` skips null lists and null spots, and files a spot with a null id under the row "UNKNOWN". The maps the constructor builds hold no null list, no null spot and no null id, so the model has no nulls there.
- A null `VehicleType` is neither CAR nor MOTORCYCLE, so both `findParkingSpot` methods give it the van search (RegularCompactAllocationStrategy.java:50-57, ParkingLotUtil.java:23-30). The model's VehicleType has no null value, so this path is not modelled.
- The `ParkingLotConstants` names are taken to be "REGULAR" and "COMPACT".
- `CompactSpot` is not modelled separately. It is the same class as `RegularSpot` with another name, and the model tells the two apart by the kind recorded at creation.
- SpotIds.SummaryRowKey excludes ids made only of '-'. `String.split` returns no fields for them. The lot never builds such an id.
- LegacyAdmin.ParkingLotAdmin.ParkVehicle runs the spot search before making the new Vehicle, which Java does the other way round. Both steps are pure, so the result is the same.
- LegacyAdmin.ParkingLotAdmin.GetLotSummary states the per-key statuses only through their keys and, in `SummaryConsistent`, their sizes and balance, not their free counts.
- The older engine's summary holder has no checks, and the model stores its values as given.
- Spot.ParkingSpot.AssignVehicle takes a vehicle, not a nullable one. No caller passes null.
- The javadoc of `findParkingSpot` promises `null` when nothing is free. The code returns an empty list, and the model follows the code.
- The javadoc of `parkVehicle` in RegularCompactLotAdmin promises DoubleParkingException for a vehicle already parked and `null` when nothing is free. The code returns the recorded spots for a parked vehicle and throws ParkingUnavailableException when nothing is free. The model follows the code.

## Findings

| source | as written | input that shows it | evidently intended | confidence | as-written member | corrected member |
|---|---|---|---|---|---|---|
| src/parking/lot/ParkingLotAdmin.java:64-69 | the re-park check looks up a freshly created `Vehicle`; `Vehicle` has no `equals`, so the lookup never matches | a lot with two free REGULAR spots; park "A" as CAR twice, then `removeVehicle("A")`: the second park takes another spot and the removal throws RuntimeException | a vehicle already parked gets its recorded spots back, as the newer administrator does by keying its map on the identifier | not executed | LegacyReparking.RepeatedIdentifier | LotAdmin.RegularCompactLotAdmin.ParkVehicle |
