# DM-Lab metadata pipeline in Dafny

This project models the metadata pipeline of the DM-Lab website. A map-matched vehicle
trajectory goes through it in six stages:

1. Each point is classified by compass heading, weekday, day type, time type and time bin
   (`TrajectoryMetadata`, on top of a model of Python's `datetime` in `Timestamps`).
2. The points are cut into per-trip segments on one road edge or at one intersection node
   (`SegmentData`).
3. The segments are aggregated per edge and per node into structural and functional tables.
   The pipeline has two competing versions of this stage:
   - `MetadataUtils` models `utils.py`: a fallback threshold of 5 and 0.0/0.5/1.0
     directionality;
   - `MapMetadataTables` models `get_map_metadata.py`: a threshold of 7, a `+`/`-` oneway
     rule, and the join onto the OpenStreetMap tables.
4. The map-matching post-filter drops the far-away matches and builds the edge vectors and
   the node-to-edge adjacency (`MapMatching`).
5. The constant direction and turn tables (`Constants`).
6. The dashboard query cuts the metadata table down to a drawn point or polygon
   (`SpatialQuery`).

`module-scripts/map-matching/map_matching_pn.py` and `modules/metadata/3_draft_metadata_pn.py`
contain the same three query functions line for line. `SpatialQuery` models both; the table
cites the first copy.

Supporting modules:
- `Wrappers`: `Option` stands for a pandas NaN, and `Result` for a raised Python exception.
- `Numeric`: Python's round-half-to-even `round`, `round(x, n)`, mean/max/min and `dropna`.
- `Ordering`: `np.unique`, as a sorted duplicate-free list under a strict total order.
- `Counters`: `collections.Counter`, as an insertion-ordered list of (key, count) pairs.
- `EdgeText`: the text `str((u, v, key))` under which an edge travels through the CSV files,
  and `ast.literal_eval` on it.
- `Frames`: the data-frame idioms: boolean-mask filter, map, flatten, fail-fast collection of
  per-row results, and a loop that builds two tables.

The stateful parts are imperative Dafny, each proved against a specification function:
- the list-building loops of `exclude_edges_nodes`, `assign_edges_nodes`, `get_e_n_df`,
  `get_edges_of_node` and the `get_*_metadata_df` / `get_functional_metadata` functions;
- the in-place column writes of `get_edge_metadata` / `get_node_metadata`, as the classes
  `OsmEdgeTable` and `OsmNodeTable`.

The confidence interval's margin (a t-quantile times the standard error) appears as an
abstract non-negative function `margin` of the data. `calc_confidence_interval` rounds its
bounds to two places but returns the unrounded mean, so the mean can lie outside its own
interval. `MetadataUtils.MeanOutsideInterval` shows this on `[1.003, 1.003]`.

## Model

| member | source | states |
|---|---|---|
| TrajectoryMetadata.ToDateTimeCases | modules/metadata/generate_metadata/get_trajectory_metadata.py:63-74 | a `datetime` is returned unchanged; a string goes through `strptime` with `'%Y-%m-%d %H:%M:%S'` (`Timestamps.Parse`, every spelling its pattern matches); a pandas timestamp or any other object raises TypeError |
| TrajectoryMetadata.ToDateTimeOfFormat | modules/metadata/generate_metadata/get_trajectory_metadata.py:73 | parsing the formatted text of a whole-second datetime gives that datetime back |
| Timestamps.Parse | modules/metadata/generate_metadata/get_trajectory_metadata.py:73 | `strptime` with `'%Y-%m-%d %H:%M:%S'` yields a datetime in range with zero microseconds, or raises ValueError |
| Timestamps.ParseSpell | modules/metadata/generate_metadata/get_trajectory_metadata.py:73 | every text the `strptime` pattern matches reads back as its time: month, day, hour, minute and second with one digit or two, a day padded with a space, any run of white space between date and time |
| Timestamps.SpellParse | modules/metadata/generate_metadata/get_trajectory_metadata.py:73 | conversely, every text `strptime` accepts is one of those spellings of the time it returns |
| Timestamps.ParseFormat | modules/metadata/generate_metadata/get_trajectory_metadata.py:73 | `strptime` of the `strftime` text (zero-padded, one space) of a whole-second datetime returns that datetime |
| Timestamps.FormatParse | modules/metadata/generate_metadata/get_trajectory_metadata.py:73 | whatever `strptime` accepts has zero microseconds, and the canonical text of its result parses to the same time |
| Timestamps.Subtract | modules/metadata/generate_metadata/get_trajectory_metadata.py:92-96 | `dt2 - dt1` is the normalised timedelta (0 <= seconds < 86400, 0 <= microseconds < 10^6) whose total microseconds are the difference of the two instants |
| Timestamps.NormalisedUnique | modules/metadata/generate_metadata/get_trajectory_metadata.py:92-96 | two normalised timedeltas with the same total are equal, so days/seconds/microseconds are determined by the difference |
| Timestamps.IsoWeekday | modules/metadata/generate_metadata/get_trajectory_metadata.py:171 | `isoweekday()` lies in 1..7 |
| Timestamps.IsoWeekdayNextDay | modules/metadata/generate_metadata/get_trajectory_metadata.py:171 | the next calendar day has the next ISO weekday, cycling 7 to 1 |
| Timestamps.OrdinalOrdered | modules/metadata/generate_metadata/get_trajectory_metadata.py:171 | a strictly earlier date has a strictly smaller proleptic Gregorian ordinal |
| TrajectoryMetadata.TimeDifferenceMinutes | modules/metadata/generate_metadata/get_trajectory_metadata.py:102-104 | the corrected minutes branch is the exact number of minutes from p_1 to p_2 |
| TrajectoryMetadata.TimeDifferenceHours | modules/metadata/generate_metadata/get_trajectory_metadata.py:98-100 | the corrected hours branch is the exact number of hours from p_1 to p_2 |
| TrajectoryMetadata.MicrosAsMinutes | modules/metadata/generate_metadata/get_trajectory_metadata.py:103 | days·1440 + seconds/60 + µs/60,000,000 is the timedelta's total microseconds in minutes |
| TrajectoryMetadata.MicrosAsHours | modules/metadata/generate_metadata/get_trajectory_metadata.py:99 | days·24 + seconds/3600 + µs/3,600,000,000 is the timedelta's total microseconds in hours |
| TrajectoryMetadata.TimeDifferenceErrors | modules/metadata/generate_metadata/get_trajectory_metadata.py:83-107 | an unconvertible p_1 or p_2 raises its TypeError/ValueError, first p_1; otherwise an error occurs exactly for units other than "hours"/"minutes", and it is ValueError |
| TrajectoryMetadata.TimeDifferenceSign | modules/metadata/generate_metadata/get_trajectory_metadata.py:92-104 | the difference is negative exactly when p_2 precedes p_1 |
| TrajectoryMetadata.TimeDifferenceAsWrittenWholeSeconds | modules/metadata/generate_metadata/get_trajectory_metadata.py:98-104 | when both stamps have the same microsecond field, the code as written agrees with the corrected one |
| TrajectoryMetadata.TimeDifferenceAsWrittenHalfSecond | modules/metadata/generate_metadata/get_trajectory_metadata.py:103 | half a second apart, the code as written gives 500000/60000 minutes while the true value is 1/120 |
| TrajectoryMetadata.CompassDirTotal | modules/metadata/generate_metadata/get_trajectory_metadata.py:148-166 | a heading gets a label exactly when it lies in [0, 360]; outside, ValueError |
| TrajectoryMetadata.CompassDirSector | modules/metadata/generate_metadata/get_trajectory_metadata.py:151-164 | a non-N label h is given exactly on its half-open 45° sector [22.5+45k, 67.5+45k) |
| TrajectoryMetadata.CompassDirNorth | modules/metadata/generate_metadata/get_trajectory_metadata.py:149-150 | N is given exactly on [337.5, 360] ∪ [0, 22.5), so 360 itself is N |
| TrajectoryMetadata.DayClassifiers | modules/metadata/generate_metadata/get_trajectory_metadata.py:168-217 | each classifier succeeds exactly when the stamp converts; day = isoweekday in 1..7; day type 1 iff weekday <= 5 and 0 iff >= 6; time type 1 iff hour in 4..18, else -1 |
| TrajectoryMetadata.NewYear2024 | modules/metadata/generate_metadata/get_trajectory_metadata.py:168-217 | 2024-01-01 08:30 is a Monday morning: day 1, day type 1, time type 1 |
| TrajectoryMetadata.TimeBinAsWrittenAcceptsFloat | modules/metadata/generate_metadata/get_trajectory_metadata.py:220 | the guard as written lets `(1, 0.5)` through and returns 1.5; the corrected guard raises TypeError |
| TrajectoryMetadata.TimeBinSpec | modules/metadata/generate_metadata/get_trajectory_metadata.py:219-224 | the corrected time bin succeeds iff both arguments are ints, and is then their sum; otherwise TypeError |
| TrajectoryMetadata.TimeBinRange | modules/metadata/generate_metadata/get_trajectory_metadata.py:242 | for any convertible stamp, day type + time type lies in {-1, 0, 1, 2} |
| Numeric.RoundHalfEven | modules/metadata/generate_metadata/get_trajectory_segment_data.py:172 | `round(x)` is within 0.5 of x, and an exact tie goes to the even integer |
| Numeric.RoundHalfEvenUnique | modules/metadata/generate_metadata/get_trajectory_segment_data.py:172 | any integer with those two properties is `round(x)` |
| Numeric.RoundHalfEvenMonotone | modules/metadata/generate_metadata/get_trajectory_segment_data.py:181-183 | rounding preserves <=, so rounding a max stays above rounding anything below it |
| Numeric.RoundToClose | modules/metadata/generate_metadata/get_trajectory_segment_data.py:166 | `round(x, 4)` is within half a unit of the fourth place of x |
| Numeric.RoundToOnGrid | modules/metadata/generate_metadata/get_trajectory_segment_data.py:166 | `round(x, 4)` is a whole multiple of 1/10000 |
| Numeric.MaxOf | modules/metadata/generate_metadata/get_trajectory_segment_data.py:182 | `max` of a non-empty column is one of its values and no value exceeds it |
| Numeric.MinOf | modules/metadata/generate_metadata/get_trajectory_segment_data.py:183 | `min` of a non-empty column is one of its values and no value is below it |
| Numeric.Mean | modules/metadata/generate_metadata/get_trajectory_segment_data.py:181 | the mean lies between the minimum and the maximum |
| Numeric.DropMissing | modules/metadata/generate_metadata/utils.py:130 | `dropna` keeps exactly the present values: as many as there are, and every kept value is present and every present value kept |
| Numeric.DropMissingConcat | modules/metadata/generate_metadata/utils.py:130 | `dropna` keeps a present value, drops a missing one, and keeps order and multiplicity: the result on `a + b` is the result on `a` followed by the result on `b` |
| Numeric.DropMissingAllPresent | modules/metadata/generate_metadata/utils.py:130 | with nothing missing, `dropna` is the identity on the values |
| Numeric.GetVector | modules/metadata/generate_metadata/get_trajectory_segment_data.py:71-77 | the vector leads from (x1, y1) to (x2, y2): [x2 - x1, y2 - y1] |
| Numeric.GetVectorReverse | modules/metadata/generate_metadata/get_trajectory_segment_data.py:71-77 | swapping the points negates the vector |
| Numeric.DotNegate | modules/metadata/generate_metadata/get_trajectory_segment_data.py:209 | the dot product with a negated vector is negated |
| Counters.CounterKeys | modules/metadata/generate_metadata/get_trajectory_segment_data.py:231-232 | the Counter's keys are exactly the column's values, without duplicates |
| Counters.CounterGet | modules/metadata/generate_metadata/get_trajectory_segment_data.py:231-233 | each key's count is its number of occurrences in the column |
| Counters.CounterTotal | modules/metadata/generate_metadata/get_trajectory_segment_data.py:231-233 | the counts add up to the column length |
| Counters.CounterFirstSeenOrder | modules/metadata/generate_metadata/get_trajectory_segment_data.py:232 | the keys are listed in order of first occurrence |
| Counters.MostFrequent | modules/metadata/generate_metadata/get_trajectory_segment_data.py:229-239 | the result is a value of maximal count, and among equally frequent values the one seen first |
| Counters.MostFrequentUnique | modules/metadata/generate_metadata/get_trajectory_segment_data.py:229-239 | any value with those two properties is the result |
| Counters.DeleteGet | modules/metadata/generate_metadata/get_map_metadata.py:116-120 | after `del fl[k]`, k counts 0 and every other key keeps its count, with no error when k is absent |
| Counters.DeleteKeys | modules/metadata/generate_metadata/get_map_metadata.py:116-120 | the keys after `del` are the old keys except k, and the total drops by k's count |
| Ordering.SortedUnique | modules/metadata/generate_metadata/get_trajectory_segment_data.py:106 | `np.unique` has exactly the values of the column |
| Ordering.SortedUniqueSorted | modules/metadata/generate_metadata/get_trajectory_segment_data.py:106 | `np.unique` is strictly increasing under a strict total order |
| Ordering.StringLessIsStrictTotalOrder | modules/metadata/generate_metadata/utils.py:206 | the code-point lexicographic order on edge texts is a strict total order |
| EdgeText.LiteralEvalEdgeText | modules/metadata/generate_metadata/utils.py:59 | `literal_eval(str((u, v, key)))` gives the edge back |
| EdgeText.LiteralEvalCanonical | modules/metadata/generate_metadata/utils.py:59 | a text that parses to an edge is that edge's canonical text |
| EdgeText.NatTextRoundTrip | modules/metadata/generate_metadata/utils.py:59 | decimal text and its parse are mutually inverse on canonical numerals |
| SegmentData.FirstMinIndex | modules/metadata/generate_metadata/get_trajectory_segment_data.py:191 | index of the first minimal timestamp: the row `list(first_point[...])[0]` reads |
| SegmentData.FirstMaxIndex | modules/metadata/generate_metadata/get_trajectory_segment_data.py:192 | index of the first maximal timestamp: the row `list(last_point[...])[0]` reads |
| SegmentData.EarliestLatest | modules/metadata/generate_metadata/get_trajectory_segment_data.py:191-192 | first and last points are chosen by timestamp, not position: every point lies between them |
| SegmentData.TravelTimeSpec | modules/metadata/generate_metadata/get_trajectory_segment_data.py:144-166 | travel time is the minutes from the earliest to the latest point rounded to 4 places, hence >= 0 |
| SegmentData.DirectionLabelReverse | modules/metadata/generate_metadata/get_trajectory_segment_data.py:206-216 | the label is one of '+', '-', 'p', and swapping first and last swaps '+' and '-' |
| SegmentData.SpeedStatsOrder | modules/metadata/generate_metadata/get_trajectory_segment_data.py:180-186 | the first speed missing turns all three statistics missing instead of failing; otherwise min <= avg <= max, and every present speed rounds into [min, max] |
| SegmentData.SpeedStatsAllPresent | modules/metadata/generate_metadata/get_trajectory_segment_data.py:180-186 | with every speed present, the statistics are over all of them |
| SegmentData.SegmentMetadataErrors | modules/metadata/generate_metadata/get_trajectory_segment_data.py:170-226 | a segment fails exactly when it is empty, its single point has no speed, or a node segment has no single latest point to read `Edge` from; the error is ValueError |
| SegmentData.SegmentMetadataOnePoint | modules/metadata/generate_metadata/get_trajectory_segment_data.py:171-175 | one point gives avg = max = min = round(speed), no direction and no travel time |
| SegmentData.SegmentMetadataTypes | modules/metadata/generate_metadata/get_trajectory_segment_data.py:218-221 | day type and time type are the most frequent values, ties going to the first seen |
| SegmentData.SegmentMetadataSeveral | modules/metadata/generate_metadata/get_trajectory_segment_data.py:177-226 | several points give the speed statistics, the dot-product label for an edge or the latest point's `Edge` for a node, and the travel time |
| SegmentData.TripElementsSpec | modules/metadata/generate_metadata/get_trajectory_segment_data.py:106 | a trip's element list holds exactly its non-missing elements, each with at least one point |
| SegmentData.TripElementsSorted | modules/metadata/generate_metadata/get_trajectory_segment_data.py:106 | the element list is strictly ascending |
| SegmentData.LookupVector | modules/metadata/generate_metadata/get_trajectory_segment_data.py:116 | `.item()` succeeds exactly when the edge has one vector row, returns that row's vector, and otherwise raises ValueError |
| SegmentData.LookupVectorDistinct | modules/metadata/generate_metadata/get_trajectory_segment_data.py:116 | in a table with distinct edges, every listed edge finds its vector |
| SegmentData.ElementRow | modules/metadata/generate_metadata/get_trajectory_segment_data.py:113-128 | a row carries its trip and element, the segment metadata of the element's points, and time bin = day type + time type |
| SegmentData.ElementRowErrors | modules/metadata/generate_metadata/get_trajectory_segment_data.py:113-120 | a row fails exactly when its vector lookup or its segment metadata fails |
| SegmentData.GetEnDf | modules/metadata/generate_metadata/get_trajectory_segment_data.py:94-135 | the nested loop builds exactly the fail-fast table of the (trip, element) rows |
| SegmentData.EnRowsSpec | modules/metadata/generate_metadata/get_trajectory_segment_data.py:100-133 | a successful table has one row per (trip, element) key, each row that key's row; otherwise the first failing key's error |
| SegmentData.EnKeysMembers | modules/metadata/generate_metadata/get_trajectory_segment_data.py:100-110 | (t, v) is a key iff t is a listed trip and some point of trip t is on v |
| SegmentData.EnKeysSorted | modules/metadata/generate_metadata/get_trajectory_segment_data.py:100-110 | keys come trips ascending, then elements ascending |
| SegmentData.TripList | modules/metadata/generate_metadata/get_trajectory_segment_data.py:82 | `np.unique` of the trip column is strictly ascending and holds every trip of the file |
| SegmentData.TripSegmentMetadata | modules/metadata/generate_metadata/get_trajectory_segment_data.py:79-92 | the edge table and the node table over the trips in ascending order |
| Constants.HeadingDictNorthMalformed | module-scripts/metadata/constants.py:20 | the N entry is the 3-tuple (337.5, 22, 5), not a pair |
| Constants.HeadingDictSectors | module-scripts/metadata/constants.py:21-27 | the other seven entries are contiguous 45° ranges starting at 22.5 |
| Constants.SectorsTile | module-scripts/metadata/constants.py:21-27 | every angle in [22.5, 337.5) is in exactly one of those ranges |
| Constants.DirectOppositeInvolution | module-scripts/metadata/constants.py:29-39 | direct opposite is an involution without fixed points |
| Constants.OppositeSymmetric | module-scripts/metadata/constants.py:41-50 | b is generally opposite a iff a is generally opposite b |
| Constants.OppositeEntries | module-scripts/metadata/constants.py:29-50 | each general-opposite entry has two distinct labels, neither the label itself nor its direct opposite |
| Constants.DirectlyOppositePairsMatchTable | modules/metadata/generate_metadata/utils.py:104 | the hard-coded direct pairs are direct opposites, and each label meets its direct opposite in one of them |
| Constants.GenerallyOppositePairsMatchTable | modules/metadata/generate_metadata/utils.py:105 | the hard-coded general pairs are the flattening of OPPOSITE_HEADING |
| Constants.TurnRangesDisjoint | module-scripts/metadata/constants.py:52-57 | no angle lies in the ranges of two different turns |
| MetadataUtils.UniqueLabels | modules/metadata/generate_metadata/utils.py:94 | `np.unique` of the directions fails with TypeError exactly when NaN and labels mix; otherwise it holds exactly the column's values |
| MetadataUtils.UniqueLabelsSorted | modules/metadata/generate_metadata/utils.py:94 | the labels come out ascending, and depend only on the set of labels |
| MetadataUtils.DirectPairPresent | modules/metadata/generate_metadata/utils.py:108-111 | a direct pair is present iff some label occurs with its direct opposite |
| MetadataUtils.GeneralPairPresent | modules/metadata/generate_metadata/utils.py:115-119 | a general pair is present iff some label occurs with one of its general opposites |
| MetadataUtils.OneWayOpposites | modules/metadata/generate_metadata/utils.py:100-119 | directionality is 0.0 iff a direct pair occurs, 0.5 iff none does but a general pair does, and otherwise 1.0 |
| MetadataUtils.Directionality | modules/metadata/generate_metadata/utils.py:100-119 | the two loops with `break` compute exactly that directionality |
| MetadataUtils.EdgeStructuralOf | modules/metadata/generate_metadata/utils.py:91-121 | an empty group gives (NaN, NaN), one row gives no directionality, and a NaN/label mix raises TypeError |
| MetadataUtils.EdgeStructural | modules/metadata/generate_metadata/utils.py:91-121 | the imperative version returns that structural pair |
| MetadataUtils.EdgeStructuralOneWay | modules/metadata/generate_metadata/utils.py:94-119 | with >= 2 rows the rule is applied to the distinct labels, which are exactly the group's directions |
| MetadataUtils.ConfidenceInterval | modules/metadata/generate_metadata/utils.py:68-89 | the mean lies between min and max, and the bounds are mean ∓ margin rounded to 2 places |
| MetadataUtils.MeanOutsideInterval | modules/metadata/generate_metadata/utils.py:84-89 | the returned mean can exceed the rounded upper bound |
| MetadataUtils.Summarise | modules/metadata/generate_metadata/utils.py:131-150 | 0 values give neither; 1 value returns itself with no interval; >= 2 give the CI mean and interval |
| MetadataUtils.Largest | modules/metadata/generate_metadata/utils.py:153-160 | the group max is the largest present per-segment maximum, missing only when none is present |
| MetadataUtils.Smallest | modules/metadata/generate_metadata/utils.py:163-169 | the group min is the smallest present per-segment minimum, missing only when none is present |
| MetadataUtils.EdgeFunctionalErrors | modules/metadata/generate_metadata/utils.py:123-171 | a non-empty group fails (int(round(NaN)) raises ValueError) exactly when its avg, max or min column is all missing |
| MetadataUtils.EdgeFunctional | modules/metadata/generate_metadata/utils.py:125-126 | an empty group gives all-missing values |
| MetadataUtils.EdgeFunctionalMax | modules/metadata/generate_metadata/utils.py:153-171 | the rounded max is at least every rounded segment maximum and equals one of them |
| MetadataUtils.EdgeFunctionalMin | modules/metadata/generate_metadata/utils.py:163-171 | the rounded min is at most every rounded segment minimum and equals one of them |
| MetadataUtils.EdgeFunctionalIntervals | modules/metadata/generate_metadata/utils.py:131-171 | intervals exist iff >= 2 values are present; a single value is rounded and returned; the avg lies between the rounded extremes |
| MetadataUtils.NodeFunctional | modules/metadata/generate_metadata/utils.py:180-190 | node functional values are the edge ones, with the same errors |
| MetadataUtils.NodeFlowCounts | modules/metadata/generate_metadata/utils.py:184-188 | flow is {} for <= 1 row; otherwise it counts each direction label, and the counts sum to the row count |
| MetadataUtils.BinRow | modules/metadata/generate_metadata/utils.py:227-235 | a bin row succeeds iff the summary of that bin's segments does |
| MetadataUtils.FunctionalRows | modules/metadata/generate_metadata/utils.py:221-235 | the row loop of one element equals its fail-fast specification |
| MetadataUtils.FunctionalRowsShape | modules/metadata/generate_metadata/utils.py:221-235 | fewer than the threshold gives one bin-3 row `[v, 3, *summary(v_df), len(v_df)]`; otherwise four rows in bin order -1, 1, 0, 2, each `[v, b, *summary(b_df), len(b_df)]` for the segments `b_df` of its bin |
| MetadataUtils.FunctionalRowsErrors | modules/metadata/generate_metadata/utils.py:221-235 | the rows fail exactly when the summary of the whole group, or of some bin, fails |
| MetadataUtils.BinsPartition | modules/metadata/generate_metadata/utils.py:227-235 | the four bins partition the segments |
| MetadataUtils.FunctionalRowsCount | modules/metadata/generate_metadata/utils.py:221-235 | the functional counts of an element add up to its segment count |
| MetadataUtils.FirstDirections | modules/metadata/generate_metadata/utils.py:63 | `list(...)[0]` is the direction list of the first row with that edge text, and IndexError when there is none |
| MetadataUtils.EdgesOfNode | modules/metadata/generate_metadata/utils.py:48-66 | the loop returns the two parallel lists of the edge/direction pairs, or the parse error |
| MetadataUtils.NodeEdgeEntryErrors | modules/metadata/generate_metadata/utils.py:59-63 | an edge text fails exactly when `literal_eval` does (ValueError); otherwise it contributes itself iff it touches the node |
| MetadataUtils.NodeEdgesErrors | modules/metadata/generate_metadata/utils.py:52-66 | edges of a node fail (ValueError) iff some edge text does not parse |
| MetadataUtils.NodeEdgesSound | modules/metadata/generate_metadata/utils.py:61-63 | every listed edge has the node as first or second endpoint and carries its first recorded directions |
| MetadataUtils.NodeEdgesComplete | modules/metadata/generate_metadata/utils.py:52-63 | every parsed edge touching the node is listed |
| MetadataUtils.NodeEdgesDistinct | modules/metadata/generate_metadata/utils.py:52-63 | no edge is listed twice |
| MetadataUtils.EdgesOfNodeLists | modules/metadata/generate_metadata/utils.py:48-66 | the two lists have equal length; edges touch the node, directions match, edges are distinct |
| MetadataUtils.EdgesOfNodeListsComplete | modules/metadata/generate_metadata/utils.py:48-66 | the edge list contains every parsed edge touching the node |
| MetadataUtils.ElementsSpec | modules/metadata/generate_metadata/utils.py:206 | the element list is strictly ascending and holds exactly the non-missing elements |
| MetadataUtils.EdgeEntry | modules/metadata/generate_metadata/utils.py:209-235 | one edge's structural row is (edge, directions, directionality, segment count), and its functional rows are the threshold-5 rows |
| MetadataUtils.GetEdgeMetadataDf | modules/metadata/generate_metadata/utils.py:192-241 | the loop builds exactly the two edge tables, or the first error |
| MetadataUtils.EdgeEntryRow | modules/metadata/generate_metadata/utils.py:212-218 | a structural row has count = number of segments >= 1, the group's distinct directions, and directionality iff count >= 2 |
| MetadataUtils.EdgeMetadataStructural | modules/metadata/generate_metadata/utils.py:206-218 | one structural row per distinct edge, ascending, with those contents |
| MetadataUtils.EdgeMetadataFunctional | modules/metadata/generate_metadata/utils.py:221-235 | every edge's functional rows succeed when the table does |
| MetadataUtils.EdgeMetadataFunctionalSound | modules/metadata/generate_metadata/utils.py:221-235 | every functional row is one of its edge's rows |
| MetadataUtils.EdgeMetadataFunctionalComplete | modules/metadata/generate_metadata/utils.py:221-235 | every row of every edge is in the functional table |
| MetadataUtils.EdgeMetadataOutcome | modules/metadata/generate_metadata/utils.py:209-235 | the table succeeds iff every edge does; otherwise it is the first failing edge's error |
| MetadataUtils.EdgeMetadataFirstErr | modules/metadata/generate_metadata/utils.py:209-235 | a failing table names the first failing edge and carries its error |
| MetadataUtils.NodeEntry | modules/metadata/generate_metadata/utils.py:260-288 | one node's structural row is (node, edges, edge count, directions, segment count), and its functional rows are the threshold-5 rows |
| MetadataUtils.NodeRows | modules/metadata/generate_metadata/utils.py:263-288 | the body of the node loop computes exactly that entry |
| MetadataUtils.GetNodeMetadataDf | modules/metadata/generate_metadata/utils.py:243-294 | the loop builds exactly the two node tables, or the first error |
| MetadataUtils.NodeEntryRow | modules/metadata/generate_metadata/utils.py:263-269 | `Edges_count` is the length of the edge list, which is exactly the node's distinct edges with their first directions; count = number of segments |
| MetadataUtils.NodeMetadataStructural | modules/metadata/generate_metadata/utils.py:257-269 | one structural row per distinct node, ascending, with those contents |
| MetadataUtils.NodeMetadataFunctionalSound | modules/metadata/generate_metadata/utils.py:274-288 | every functional row is one of its node's rows |
| MetadataUtils.NodeMetadataFunctionalComplete | modules/metadata/generate_metadata/utils.py:274-288 | every node's rows succeed and are all in the functional table |
| MetadataUtils.NodeMetadataOutcome | modules/metadata/generate_metadata/utils.py:260-288 | the table succeeds iff every node does; otherwise the first failing node's error |
| MetadataUtils.NodeMetadataBadEdgeText | modules/metadata/generate_metadata/utils.py:59 | one unparsable edge text makes the whole node table fail with ValueError once any node is present |
| MetadataUtils.GetMapMetadata | modules/metadata/generate_metadata/utils.py:297-303 | the edge tables, then the node tables built from the edge structural table |
| MetadataUtils.MapMetadataParts | modules/metadata/generate_metadata/utils.py:297-303 | the map metadata succeeds iff both parts do, and holds exactly their tables |
| MapMetadataTables.Oneway | modules/metadata/generate_metadata/get_map_metadata.py:77-84 | None iff non-empty and all missing; False iff both '+' and '-' occur; True otherwise |
| MapMetadataTables.OnewaySetOnly | modules/metadata/generate_metadata/get_map_metadata.py:78 | the result depends only on the set of labels |
| MapMetadataTables.StreetCountBounds | modules/metadata/generate_metadata/get_map_metadata.py:86-88 | the number of distinct values is at most the length, at least 1 when non-empty, and equal to the length iff all are distinct |
| MapMetadataTables.ScriptFlowKeys | modules/metadata/generate_metadata/get_map_metadata.py:115-120 | the flow's keys are distinct, are exactly the present labels, and exclude NaN |
| MapMetadataTables.ScriptFlowCounts | modules/metadata/generate_metadata/get_map_metadata.py:115-120 | each label counts its occurrences, and the counts plus the missing labels make the row count |
| MapMetadataTables.FunctionalRowAverage | modules/metadata/generate_metadata/get_map_metadata.py:158-169 | 0 values give no average; 1 gives int(round(v)); >= 2 give int(round(CI mean)) and the interval |
| MapMetadataTables.TravelAsWrittenUnrounded | modules/metadata/generate_metadata/get_map_metadata.py:182 | as written, the mean travel time of two values 1.00005 comes out unrounded |
| MapMetadataTables.TravelRounded | modules/metadata/generate_metadata/get_map_metadata.py:171-182 | corrected: the travel time is present iff some value is, sits on the 4-place grid, and stays within rounding distance of the values |
| MapMetadataTables.SpeedBoundMax | modules/metadata/generate_metadata/get_map_metadata.py:184-192 | one value is returned as-is; >= 2 give int(round(max)), above every rounded value |
| MapMetadataTables.SpeedBoundMin | modules/metadata/generate_metadata/get_map_metadata.py:194-201 | one value is returned as-is; >= 2 give int(round(min)), below every rounded value |
| MapMetadataTables.ScriptRowsOk | modules/metadata/generate_metadata/get_map_metadata.py:217-233 | the rows of an element never fail |
| MapMetadataTables.ScriptRowsShape | modules/metadata/generate_metadata/get_map_metadata.py:217-233 | fewer than 7 segments give one bin-3 row with `get_functional_row` of all of them and their number; otherwise four rows for bins -1, 1, 0, 2, each `[v, b, *get_functional_row(b_df), len(b_df)]` |
| MapMetadataTables.ElementRows | modules/metadata/generate_metadata/get_map_metadata.py:219-233 | the body of the element loop appends exactly that element's rows |
| MapMetadataTables.GetFunctionalMetadata | modules/metadata/generate_metadata/get_map_metadata.py:205-236 | the loop builds the concatenated rows of the elements in ascending order |
| MapMetadataTables.WhereOwnRows | modules/metadata/generate_metadata/get_map_metadata.py:251 | grouping the table by element picks out exactly that element's rows |
| MapMetadataTables.TrajectoryCountSegments | modules/metadata/generate_metadata/get_map_metadata.py:251 | an element's summed functional counts equal its number of segments |
| MapMetadataTables.EdgeJoinSpec | modules/metadata/generate_metadata/get_map_metadata.py:250-259 | the edge join succeeds iff every OSM edge is in the segment table (otherwise KeyError); each column is (oneway of its directions, its segment count) |
| MapMetadataTables.EdgeJoinErrors | modules/metadata/generate_metadata/get_map_metadata.py:254-255 | the only error of the edge join is KeyError |
| MapMetadataTables.EdgeColumnsTable | modules/metadata/generate_metadata/get_map_metadata.py:246-259 | computes the functional table and the edge columns |
| MapMetadataTables.OsmEdgeTable.GetEdgeMetadata | modules/metadata/generate_metadata/get_map_metadata.py:238-261 | on KeyError the OSM table is untouched; otherwise its Oneway and trajectory-count columns are the join's and the functional table is returned |
| MapMetadataTables.NodeJoinSpec | modules/metadata/generate_metadata/get_map_metadata.py:269-283 | a node found in the segments gets (street count, segment count) with 1 <= street count <= segment count; any other node gets (0, 0) |
| MapMetadataTables.OsmNodeTable.GetNodeMetadata | modules/metadata/generate_metadata/get_map_metadata.py:263-285 | the Street_count and trajectory-count columns are the node join's, and the functional table is returned |
| MapMatching.ExcludeEdgesNodes | modules/metadata/generate_metadata/get_map_matching.py:84-97 | length and order are kept; position i becomes None iff dist_i > d (strictly), else keeps idx_i |
| MapMatching.BoundingBox | modules/metadata/generate_metadata/get_map_matching.py:69-73 | n/s are the max/min latitude and e/w the max/min longitude, so s <= n and w <= e and every point is inside; empty input raises ValueError |
| MapMatching.EdgeVector | modules/metadata/generate_metadata/get_map_matching.py:59-65 | an edge's vector leads from its first node's location to its second's |
| MapMatching.Distinct | modules/metadata/generate_metadata/get_map_matching.py:133-134 | the unique list holds each value once, and exactly the values |
| MapMatching.EmptyLists | modules/metadata/generate_metadata/get_map_matching.py:141 | `unique_n_dict` starts with an empty list for each distinct filtered node |
| MapMatching.NodeEdgesMembers | modules/metadata/generate_metadata/get_map_matching.py:173-178 | an edge is in a node's list iff it is the edge's first node, or its second node while the first is also a key (the first missing key stops the appends) |
| MapMatching.EdgeLoop | modules/metadata/generate_metadata/get_map_matching.py:143-178 | the loop fails (TypeError) iff a None edge reaches it; otherwise it lists each edge with its vector and fills the node lists |
| MapMatching.DistinctValues | modules/metadata/generate_metadata/get_map_matching.py:133-134 | the values of the unique edge list are exactly the matched edges, each once |
| MapMatching.AssignEdgesNodes | modules/metadata/generate_metadata/get_map_matching.py:99-180 | with thresholds 10 and 40: the filtered lists, one vector per distinct edge, and the node adjacency; TypeError iff some edge is dropped and so reaches the loop as None |
| SpatialQuery.PointBox | module-scripts/map-matching/map_matching_pn.py:57-64 | the point [long, lat] gives the box [lat-R, lat+R] × [long-R, long+R], with min <= max and the point inside |
| SpatialQuery.CornerBox | module-scripts/map-matching/map_matching_pn.py:95-96 | the corner box exists iff there is a corner; with no corner, `min` raises ValueError |
| SpatialQuery.CornerBoxTight | module-scripts/map-matching/map_matching_pn.py:95-96 | every corner is inside the box, and each bound is attained by some corner |
| SpatialQuery.SliceSpec | module-scripts/map-matching/map_matching_pn.py:74 | a row is returned iff its lat and long lie in the box inclusive of bounds, in table order |
| SpatialQuery.Query | module-scripts/map-matching/map_matching_pn.py:186-195 | a float first coordinate runs the point query; otherwise the first ring runs the box query, with TypeError, IndexError or ValueError when the shape does not fit |
| SpatialQuery.PointQueryRows | module-scripts/map-matching/map_matching_pn.py:45-76 | a point query returns exactly the rows within POINT_RANGE on both axes, in order, including any row at the point |
| SpatialQuery.PolygonQueryCorners | module-scripts/map-matching/map_matching_pn.py:78-109 | a polygon query returns an ordered subsequence that includes every row placed at a corner |

## Left out

- Reading `constants.json`, reading and writing CSV files, `pd.read_csv(METADATA_DIR)`: these are I/O. The tables are parameters.
- The CSV round trip of values: the model keeps edges as their text `str((u, v, key))` throughout. It also passes vectors as numbers, reading no vector text with `literal_eval`. `EdgeText` proves that the text and the tuple determine each other for the canonical spelling.
- `literal_eval` spellings other than the canonical `(u, v, key)` (extra spaces, signs, other literals): these are rejected as ValueError.
- The t-quantile of scipy, `np.std` and `np.sqrt` in `calc_confidence_interval`: replaced by the abstract non-negative `margin` parameter, because floating point and scipy are not modelled.
- Reals are exact: float rounding error is not modelled. Python's `round` is modelled exactly on reals.
- The box-plot quantile statistics of `get_functional_row` (`get_map_metadata.py:122-156`): numpy quantiles. They are not columns of the model.
- `distance_difference`, `mph` and the `h_d` branch of `get_travel_time`: geopy distances.
- osmnx and mappymatch:
  - the graph download and `nearest_edges`/`nearest_nodes`: the matched indices and distances are parameters;
  - the geocoder fallback: a function parameter;
  - `compute_OSM_node_vals`/`compute_OSM_edge_vals`, which read module globals;
  - the LCSS matcher.
- The OSM columns other than the edge or node id: the join writes only the computed columns.
- The dashboard UI (Panel, ipyleaflet, plots) and its global selection state. `get_metadata`'s handling of the shape dictionary is reduced to the geometry it carries.
- `Geometry` keeps only whether a point's first coordinate is a float. A polygon corner whose coordinates are ints works the same in Python and is a `Coord` here.
- `print` calls: output only.
- Constants.HeadingDictNorthMalformed: the N entry of `HEADING_DICT` is the three-number tuple `(337.5, 22, 5)` where `(337.5, 22.5)` was meant. No code of the core reads `HEADING_DICT`, because `get_compass_dir` writes its ranges out. So the entry is recorded but not listed under Findings as a defect of the core.
- Iteration order of Python sets: `compute_oneway` and `compute_street_count` are modelled on membership only. `OnewaySetOnly` shows that only membership matters.
- MapMatching.Distinct, MapMatching.EdgeLoop and MapMatching.AssignEdgesNodes: `get_map_matching.py:133-143` loops over `set(new_edge_list)` and `set(new_node_list)`, whose order Python leaves to hashing. The model walks the distinct values in first-seen order, and the ensures of `AssignEdgesNodes` state that order. The source guarantees only the membership stated by `Distinct` and `DistinctValues`: each value once, exactly the matched ones.
- SegmentData.Point: the timestamp is an already-converted datetime. `get_trajectory_segment_data.py:65` reads it as CSV text. The source then picks the first and last points by `min`/`max` on that text (lines 144-145, 191-192) and converts them in `time_difference` (line 156), where a text `strptime` rejects would raise an uncaught ValueError. The model orders points by instant, which agrees with the text order only for the zero-padded spelling `strftime` writes, and it has no path for that ValueError. A stamp read from text has zero microseconds (`Timestamps.Parse`); `Point` allows any, so `TravelTime` covers more stamps than the text path yields. `TravelTime` uses the corrected microsecond divisor of `time_difference`, not the as-written one that line 156 calls. The two agree on every stamp read from text, whose microseconds are zero (`TimeDifferenceAsWrittenWholeSeconds`).
- Timestamps.Parse: Python's `\d` also matches non-ASCII decimal digits, which `int` reads. The model reads ASCII digits only and gives ValueError for the others. White space `\s` is modelled with every character `str.isspace` accepts.
- `set(x) == {np.NaN}` relies on NaN identity: modelled as "non-empty and all missing".
- Several NaN keys of a `Counter` are modelled as a single missing key. That key is deleted by `del fl[np.NaN]` and counted by `Counter` in `utils.py`.
- `MetadataUtils.EdgeFunctional`: its own contract states only the empty-group and the error kind. The value is stated by the lemmas `EdgeFunctionalErrors`, `EdgeFunctionalMax`, `EdgeFunctionalMin` and `EdgeFunctionalIntervals`.
- `MapMetadataTables.GetFunctionalMetadata`: it is stated for the threshold-7 rows of `get_functional_row` without the box plots. The rows' travel time is the corrected `Travel` (see Findings): for two or more values it is the mean rounded to four places, whereas `get_map_metadata.py:181-182` stores the unrounded mean. `TravelAsWritten` models the stored value, and `TravelAsWrittenUnrounded` shows where the two differ.

## Findings

| source | as written | input that shows it | evidently intended | confidence | as-written member | corrected member |
|---|---|---|---|---|---|---|
| modules/metadata/generate_metadata/get_trajectory_metadata.py:99-103 | the microseconds of the timedelta are divided by 3,600,000 and 60,000, the millisecond factors | two stamps half a second apart: 500000/60000 ≈ 8.33 minutes instead of 1/120 | divide by 3,600,000,000 and 60,000,000 | not executed | TrajectoryMetadata.TimeDifferenceAsWrittenHalfSecond | TrajectoryMetadata.TimeDifferenceMinutes |
| modules/metadata/generate_metadata/get_trajectory_metadata.py:220 | `not isinstance(d, int) and not isinstance(t, int)` raises only when neither argument is an int | `get_time_bin(1, 0.5)` returns 1.5 | raise when either argument is not an int (`or`) | not executed | TrajectoryMetadata.TimeBinAsWrittenAcceptsFloat | TrajectoryMetadata.TimeBinSpec |
| modules/metadata/generate_metadata/get_map_metadata.py:182 | `round(travel_t, 4)` is evaluated and its result discarded | two travel times 1.00005: the value stays 1.00005 | `travel_t = round(travel_t, 4)` | not executed | MapMetadataTables.TravelAsWrittenUnrounded | MapMetadataTables.TravelRounded |
