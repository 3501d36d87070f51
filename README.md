# py-srpg in Dafny

py-srpg is a small tactical role-playing game. This project models its
simulation core and proves properties of the model:

- the C++ entity-component system (`ecs.h`): entities are ids, and each
  component type lives in its own vector of (id, data) pairs kept sorted
  by id, with a merge-join range that visits the entities owning every
  requested component;
- the sorted vector, lower bound, reductions and error type of
  `include/util.h`, and the small geometry helpers of `include/math.h`;
- the stop watch of `include/timer.h`, the actions and action manager of
  `action.h`, and the tile move of `action.cpp`;
- the little script interpreter of `script.h`/`script.cpp`, with its
  labels, jumps and retries, plus the hit-point, damage-text and
  trigger steps that `push_hp_change` and `push_attack` feed into it;
- the stats of `stats.cpp` (plain integers and meters with a maximum),
  the component triggers of `components.cpp`, the tile grid of
  `grid.h`/`grid.cpp`, the Dijkstra flood fill and path rewinding of
  `dijkstra.cpp`, and the enemy decisions of `decision.cpp`;
- the Python prototype: stat sheets and modifiers (`stats.py`), entities,
  items and actors with their damage rules (`entity.py`, `actor.py`,
  `damage.py`), the tile grid and component entity of `main.py`, the
  surface registry, pixel/grid conversions and the depth-ordered render
  queue (`graphics.py`, `include/graphics.py`), the stable priority queue
  (`priority_queue.py`) and the 2-D vector (`vec.py`).

Each source file becomes one module: `Ecs`, `EcsRange`, `Util`,
`GeoMath`, `Timer`, `Actions`, `MoveActions`, `Scripts`, `Combat`,
`Stats`, `Components`, `Grids`, `Dijkstra`, `Decisions`, `PyStats`,
`PyEntity`, `PyActor`, `PyDamage`, `PyMain`, `PyGraphics`,
`PriorityQueues` and `PyVec`, plus `Wrappers` (Option and Result).
Code that changes state in place stays imperative. Objects become
classes whose methods state their whole new state. Loops become methods
with invariants, proved against specification functions. Expressions
become functions and lemmas.

The C++ template `EntityComponentSystem<Components...>` holds one store
per component type. The model numbers the component types `0 .. kinds-1`
and gives them one shared value type `T`. A variadic call over several
types becomes a call over a sequence of type numbers.

Where the code does something other than what it evidently means, the
model keeps the code as written. It also defines the corrected
behaviour, proves the intended property of that, and lists both under
"## Findings".

## Model

| member | source | states |
|---|---|---|
| Ecs.FindComponent | ecs.h:303-320 | the slot is the lower bound of the id in the sorted store; the flag holds exactly when some entry has the id, and then the slot holds it |
| Ecs.StoreWrite | ecs.h:344-353 | AlreadyExists exactly for a create-only write of an id the store holds, and then the store is unchanged; never NotFound; on Ok one entry more, still sorted, and the entries are the old ones plus (id, data) |
| Ecs.StoreRead | ecs.h:371-377 | a store without the id reads nothing; otherwise the lower-bound slot is (id, data) for the data read |
| Ecs.StoreErase | ecs.h:455-459 | the store stays sorted; without the id nothing changes; with it exactly the entry at the id's lower-bound slot (which carries the id) is removed |
| Ecs.WriteThenRead | ecs.h:344-377 | after a successful write, reading the id gives the data written |
| Ecs.ReadAfterInsert | ecs.h:344-377 | inserting an entry at its lower bound keeps the store sorted and leaves the read of every other id unchanged |
| Ecs.WriteKeepsOtherReads | ecs.h:344-377 | a write of one id never changes what another id reads |
| Ecs.UpdateKeepsOldEntry | ecs.h:347-351 | a CREATE_OR_UPDATE write of a present id inserts the new entry in front of the old one, which stays, so two entries share the id |
| Ecs.UpdateDuplicatesExample | ecs.h:347-351 | writing 'b' over the store [(1,'a')] with CREATE_OR_UPDATE gives [(1,'b'), (1,'a')] |
| Ecs.StoreUpsert | ecs.h:340-353 | the corrected create-or-update write: ids stay strictly increasing, a present id is overwritten in place (same length), an absent id adds one entry, and the id then reads the data |
| Ecs.UpsertKeepsOtherReads | ecs.h:340-353 | the corrected write never changes what another id reads |
| Ecs.HasEntityIn | ecs.h:450-453 | the lower-bound search in the sorted id index answers exactly whether the id is an entity |
| Ecs.EraseIdAsWritten | ecs.h:461-466 | the index update of Erase as written keeps the index sorted, removes at most one id and adds none |
| Ecs.EraseUnknownIdRemovesOther | ecs.h:461-466 | erasing id 2 from the index [1, 3] removes entity 3 |
| Ecs.EraseIdExact | ecs.h:461-466 | the corrected index update: sorted, and its members are exactly the old ones other than the erased id, one fewer exactly when the id was there |
| Ecs.EraseKnownIdAgrees | ecs.h:461-466 | for an id that is an entity the code as written and the corrected update agree |
| Ecs.WriteAll | ecs.h:356-362 | the chained multi-component write keeps the number of stores and every store sorted |
| Ecs.CreateKeepsStrict | ecs.h:344-353 | a CREATE_ENTRY write into a store whose ids strictly increase leaves them strictly increasing: it never stores an id twice |
| Ecs.EraseKeepsStrict | ecs.h:455-459 | erasing keeps a store's ids strictly increasing |
| Ecs.CreateKeepsAllStrict | ecs.h:344-353 | a CREATE_ENTRY write of one component keeps every store free of repeated ids |
| Ecs.EraseKeepsAllStrict | ecs.h:455-459 | erasing one component keeps every store free of repeated ids |
| Ecs.EraseEachKeepsStrict | ecs.h:461-466 | erasing the id from every store keeps all of them free of repeated ids |
| Ecs.WriteAllKeepsStrict | ecs.h:356-362 | the chained multi-component write keeps every store's ids strictly increasing |
| Ecs.StoreWriteOkHasId | ecs.h:344-353 | after a successful write the store holds the id |
| Ecs.WriteAllKeeps | ecs.h:356-362 | the chained write never reports NotFound and never loses an entry of any store |
| Ecs.WriteAllOkStoresAll | ecs.h:356-362 | when the chained write returns Ok, every store written holds the id |
| Ecs.ReadResult | ecs.h:371-377 | Ok exactly when the store holds the id, otherwise NotFound; the output is the read data, or the old output when there is none |
| Ecs.FirstError | ecs.h:419-420 | Ok exactly when every error is Ok; otherwise the earliest error that is not Ok |
| Ecs.ReadManyResult | ecs.h:416-421 | the outputs of the single reads together with the first error make up the multi-read: each output is its store's read or the old output, and the result is Ok exactly when every store holds the id, otherwise NotFound |
| Ecs.EntityComponentSystem.constructor | ecs.h:282-291 | no entities, next id 1, one empty store per component type, so no store repeats an id |
| Ecs.EntityComponentSystem.NewEntity | ecs.h:334-338 | returns the old next id, which is never the reserved 0, appends it to the index and advances the next id; stores unchanged |
| Ecs.EntityComponentSystem.Write | ecs.h:344-353 | the store of the written type becomes StoreWrite's and the error is its error; other stores, the index and the next id are unchanged; a CREATE_ENTRY write keeps every store free of repeated ids |
| Ecs.EntityComponentSystem.WriteMany | ecs.h:356-362 | the stores and the error are those of the chained WriteAll; index and next id unchanged; stores free of repeated ids stay so |
| Ecs.EntityComponentSystem.WriteNewEntity | ecs.h:364-369 | a new id (the old next id) is appended to the index and its components written by WriteAll; stores free of repeated ids stay so |
| Ecs.EntityComponentSystem.Read | ecs.h:371-377 | NotFound with the output untouched when the store lacks the id, otherwise Ok with the stored data |
| Ecs.EntityComponentSystem.ReadOrPanic | ecs.h:385-393 | for an id the store holds (the program crashes otherwise), the data the id reads |
| Ecs.EntityComponentSystem.ReadMany | ecs.h:416-421 | each output is its store's data or left as it was; Ok exactly when every requested store holds the id, otherwise NotFound |
| Ecs.EntityComponentSystem.HasEntity | ecs.h:450-453 | true exactly when the id is in the index |
| Ecs.EntityComponentSystem.EraseComponent | ecs.h:455-459 | only the store of that type changes, to StoreErase of it; stores free of repeated ids stay so |
| Ecs.EntityComponentSystem.Erase | ecs.h:461-466 | every store loses the id's entry by StoreErase, and the index is updated as written (EraseIdAsWritten); stores free of repeated ids stay so |
| EcsRange.InAllMeans | ecs.h:102-124 | an id is common to the stores exactly when each store holds it |
| EcsRange.NotCommonBelowCursor | ecs.h:102-124 | an id between the visited bound and a cursor's current id is not common to all stores |
| EcsRange.NoCommonAfterEnd | ecs.h:102-124 | once some cursor is at its end, no id from the visited bound up is common |
| EcsRange.RoundKeepsInvariants | ecs.h:105-107 | one catch-up round, which advances every cursor behind the maximum, skips no common id |
| EcsRange.RoundMaximum | ecs.h:105-107 | the new maximum bounds every cursor's id and is reached by one of them |
| EcsRange.AllAtEndPost | ecs.h:109-111 | moving every cursor to its end once one is there loses no common id |
| EcsRange.AllSamePost | ecs.h:105-107 | when all cursors show the same id, it is the least common id from the visited bound up |
| EcsRange.StepKeepsInvariants | ecs.h:117-119 | stepping every cursor past a common id moves the visited bound just past it without skipping any other |
| EcsRange.ComponentIterator.Begin | ecs.h:155-157 | begin(): cursors at the start of each store, then caught up, so the iterator is positioned at the least common id or at the end |
| EcsRange.ComponentIterator.End | ecs.h:159-161 | end(): every cursor at the end of its store |
| EcsRange.ComponentIterator.IncrementIfLower | ecs.h:90-95 | the cursor steps once exactly when it is not at its end and its id is below the bound; returns the bound at the end, else the cursor's id |
| EcsRange.ComponentIterator.IncrementAllIfLower | ecs.h:106 | every cursor below the old maximum steps once, the others stay; the result bounds every reported id and equals one of them |
| EcsRange.ComponentIterator.MaxCurrent | ecs.h:104 | the largest id the cursors point at |
| EcsRange.ComponentIterator.CatchUpRound | ecs.h:105-107 | one round keeps the invariant and strictly shrinks the entries still ahead of the cursors |
| EcsRange.ComponentIterator.CatchUp | ecs.h:104-113 | afterwards the iterator is positioned: at the least common id not yet visited, or at the end with none left |
| EcsRange.ComponentIterator.CatchUpLoop | ecs.h:105-107 | the loop ends with some cursor at its end or all cursors on one id |
| EcsRange.ComponentIterator.Settle | ecs.h:109-111 | once a cursor is at its end, all are moved there; the iterator is positioned |
| EcsRange.ComponentIterator.Increment | ecs.h:115-124 | at the end nothing moves; otherwise the visited bound passes the current id and the entries left strictly shrink, positioned again |
| EcsRange.ComponentIterator.Deref | ecs.h:145-147 | the current id is common to all stores, and each datum is that store's entry for the id |
| EcsRange.EqualsEndIffAtEnd | ecs.h:137-140 | an iterator equals end() exactly when some cursor is at its end |
| EcsRange.ReadAll | ecs.h:438-448 | a fresh iterator over the requested stores, positioned at the first common entity |
| EcsRange.EmittedComplete | ecs.h:102-124 | when nothing common is left, every common id has been visited |
| EcsRange.Entries | ecs.h:115-124 | the range-based for visits exactly the ids common to all stores, each once, in increasing order, with each store's data for it |
| EcsRange.Visit | ecs.h:115-124 | one turn of the loop extends the visited list by the current entity and shrinks what is left |
| EcsRange.EmittedInOrder | ecs.h:102-124 | visited ids are common, strictly increasing and carry each store's data |
| EcsRange.PositionedAtEntity | ecs.h:102-124 | a positioned iterator not at its end shows the least common id from the visited bound up |
| EcsRange.PositionedAtEnd | ecs.h:102-124 | a positioned iterator at its end has no common id left to visit |
| Util.LowerBoundPos | include/util.h:52-62 | every element before the position has a key below the bound; the element at the position (if any) does not; on a sorted sequence no element from the position on is below the bound |
| Util.LowerBoundUnique | include/util.h:52-62 | those two properties fix the lower-bound position |
| Util.LowerBound | include/util.h:52-62 | the binary search on a sorted sequence returns exactly the lower-bound position |
| Util.InsertAt | include/util.h:186-189 | one element more: v at the position, the elements before it unchanged, those after it shifted by one |
| Util.InsertAtMultiset | include/util.h:186-189 | inserting adds exactly v to the elements |
| Util.RemoveAt | include/util.h:219-221 | one element fewer: those before the position unchanged, those after it shifted down by one |
| Util.RemoveAtMultiset | include/util.h:219-221 | removing takes away exactly the element at the position |
| Util.InsertAtLowerBoundSorted | include/util.h:198-203 | inserting at the lower bound of the new key keeps a sorted sequence sorted |
| Util.InsertAtLowerBoundStrict | include/util.h:198-203 | inserting an absent key at its lower bound keeps the keys strictly increasing |
| Util.RemoveAtSorted | include/util.h:219-221 | removing any element keeps the keys strictly increasing |
| Util.LowerBoundFindsKey | include/util.h:154-166 | with strictly increasing keys, the lower bound of an element's key is that element's position |
| Util.ConcatStrings | include/util.h:41-50 | no strings give the empty string, one string gives itself, and every argument fits in the result |
| Util.ConcatStringsAppend | include/util.h:41-50 | concatenating a split argument list is the concatenation of the two parts |
| Util.ConcatStringsLength | include/util.h:41-50 | the result's length is the sum of the argument lengths |
| Util.MakeError | include/util.h:231-240 | the error is ok exactly when it is built from no strings; a single string becomes the reason |
| Util.And | include/util.h:242-245 | ok exactly when both are; a failed first error is returned as it is, otherwise the second |
| Util.AndAll | include/util.h:242-245 | a chain of && is ok exactly when every error is ok, and then it is the last one |
| Util.AndAllFirstFailure | include/util.h:242-245 | a chain of && is ok exactly when every error is ok; then it is the last error, otherwise the first one that failed |
| Util.AndAssociative | include/util.h:242-245 | the grouping of a chain of && does not matter |
| Util.ReduceBy | include/util.h:78-82 | the initial value plus the sum of the transformed elements |
| Util.MaxBy | include/util.h:84-88 | the least upper bound of the initial value and the transformed elements: at least each of them, and equal to one of them |
| Util.Filter | include/util.h:191-194 | keeps exactly the elements satisfying the predicate, and no others |
| Util.FilterSorted | include/util.h:191-194 | filtering keeps the keys strictly increasing and adds no element |
| Util.UpdateInPlaceContents | include/util.h:205-210 | overwriting the element with u's key keeps the keys strictly increasing and every element with another key |
| Util.InsertAbsentContents | include/util.h:205-210 | inserting an absent key at its lower bound keeps the order, adds u and keeps every old element |
| Util.SortedVector.constructor | include/util.h:138 | an empty vector, trivially sorted |
| Util.SortedVector.Size | include/util.h:140 | the number of elements |
| Util.SortedVector.Get | include/util.h:142-143 | in a sorted vector, the element at i has a key above every earlier element and below every later one |
| Util.SortedVector.Back | include/util.h:151-152 | the last element |
| Util.SortedVector.Find | include/util.h:154-166 | the lower-bound position of the key, and whether an element has that key; found exactly when the element at the position carries it |
| Util.SortedVector.Contains | include/util.h:168-171 | true exactly when some element has the key |
| Util.SortedVector.Clear | include/util.h:173 | no elements left |
| Util.SortedVector.PushBack | include/util.h:175-182 | appends an element the caller guarantees to be above the last, so the order holds |
| Util.SortedVector.PopBack | include/util.h:184 | drops the last element |
| Util.SortedVector.Emplace | include/util.h:186-189 | inserts at the caller's position, which must keep the order |
| Util.SortedVector.EraseIf | include/util.h:191-194 | leaves exactly the elements the predicate rejects, in order, and returns how many were dropped |
| Util.SortedVector.InsertIfNotPresent | include/util.h:198-203 | inserts u at its lower bound exactly when no element has its key; returns that position, where an element with the key then sits |
| Util.SortedVector.InsertOrUpdate | include/util.h:205-210 | an absent key is inserted at its lower bound; a present one has its element overwritten in place |
| Util.SortedVector.Update | include/util.h:212-217 | overwrites the element with u's key when there is one, otherwise changes nothing; reports which |
| Util.SortedVector.Erase | include/util.h:219-221 | removes the element at the position; the order holds |
| Util.SortedVector.FindErase | include/util.h:223-227 | removes the element with the key when there is one, otherwise changes nothing |
| GeoMath.Abs | include/math.h:13-23 | the magnitude of n |
| GeoMath.ManhDist | include/math.h:13-16 | zero exactly for equal points, and at least each axis gap |
| GeoMath.DiamondDist | include/math.h:18-23 | zero exactly for equal points; the larger axis gap; between half the Manhattan distance and the Manhattan distance |
| GeoMath.DistancesSymmetric | include/math.h:13-23 | both distances are symmetric |
| GeoMath.ManhTriangle | include/math.h:13-16 | the Manhattan distance satisfies the triangle inequality |
| GeoMath.JustX | include/math.h:8 | keeps x and zeroes y |
| GeoMath.JustY | include/math.h:9 | keeps y and zeroes x |
| GeoMath.FlipX | include/math.h:10 | negates x only |
| GeoMath.FlipY | include/math.h:11 | negates y only |
| GeoMath.FlipsAreInvolutions | include/math.h:8-11 | each flip undoes itself, the flips commute, and the two projections add back up to the vector |
| GeoMath.Clockwize | include/math.h:42-44 | a quarter turn, which keeps the squared length |
| GeoMath.Clockwize3 | include/math.h:46-48 | a quarter turn of the x-y part, z kept |
| GeoMath.ClockwizeFourTimes | include/math.h:42-48 | two turns negate, four turns are the identity, in 2-D and 3-D |
| GeoMath.PlusMinus | include/math.h:50-53 | the two results sum to twice init and differ by twice the operand |
| Timer.FinishedOf | include/timer.h:79-81 | finished only while running; a running watch with a zero target is finished at once |
| Timer.RatioOf | include/timer.h:83-87 | the ratio lies between 0 and 1, and is 0 for a stopped watch |
| Timer.RatioOneIffFinished | include/timer.h:79-87 | a running watch has ratio 1 exactly when it is finished |
| Timer.RatioMonotone | include/timer.h:83-87 | waiting longer never lowers the ratio |
| Timer.StopWatch.constructor | include/timer.h:45-49 | stopped, nothing waited, the given target |
| Timer.StopWatch.SetDuration | include/timer.h:53-56 | only the target changes |
| Timer.StopWatch.Start | include/timer.h:63 | running; nothing else changes |
| Timer.StopWatch.Stop | include/timer.h:64 | stopped; nothing else changes |
| Timer.StopWatch.Reset | include/timer.h:67-70 | nothing waited and stopped; target kept |
| Timer.StopWatch.StartOrReset | include/timer.h:72 | starts when asked to, otherwise resets |
| Timer.StopWatch.Consume | include/timer.h:74-77 | time is added only while the watch runs, and the ratio never goes down |
| Timer.StopWatch.Finished | include/timer.h:79-81 | finished exactly when running with the ratio at 1 |
| Timer.StopWatch.Ratio | include/timer.h:83-87 | between 0 and 1, and 0 while stopped |
| Actions.FinishedStays | action.h:41-44 | once finished, an action stays finished however long it waits |
| Actions.ZeroDurationFinished | action.h:78-81 | an action of zero duration is finished from the start, with ratio 1 |
| Actions.Action.constructor | action.h:34-37 | the action's own copy of the watch, started, not stopped short |
| Actions.Action.RatioFinished | action.h:41 | the watch's ratio: between 0 and 1, and 0 while the watch is stopped |
| Actions.Action.Finished | action.h:44 | finished exactly when stopped short or the running watch is at ratio 1; stopping short always finishes |
| Actions.Action.StopShort | action.h:43-44 | marked as stopped short, and therefore finished |
| Actions.Action.Run | action.h:49-52 | the watch consumes the time, the ratio seen by impl is the new one and never lower, and a finished action stays finished |
| Actions.GenericAction.constructor | action.h:64-66 | a fresh, started watch with the given duration |
| Actions.GenericAction.Run | action.h:68-70 | the watch consumes the time and the game becomes f applied to it with the new ratio |
| Actions.MakeGenericAction | action.h:78-81 | a generic action of zero duration, finished from the start with ratio 1 |
| Actions.ReversedInvolution | action.h:135-141 | reversing twice gives the sequence back |
| Actions.ActionManager.constructor | action.h:110-126 | no ordered actions and nothing issued yet |
| Actions.ActionManager.AddOrderedAction | action.h:133 | records one call of add_ordered_action, whose body is not part of this model |
| Actions.ActionManager.AddOrderedSequence | action.h:135-141 | the actions are handed to add_ordered_action last one first |
| Actions.ActionManager.MoveOrderedSequence | action.h:143-145 | the vector's actions are handed over one at a time, in order |
| Actions.ActionManager.HaveOrderedActions | action.h:151 | true exactly when an ordered action is waiting |
| MoveActions.MoveAction.constructor | action.cpp:13-15 | a running watch of 200 ms per point of the path, nothing waited |
| MoveActions.MoveAction.Impl | action.cpp:17-33 | without both components nothing changes; while unfinished the transform moves to the interpolated point; once finished the grid position and the transform are both at the last point of the path; the path must be non-empty only when the actor has both components |
| MoveActions.MoveFinishesOnTime | action.cpp:9-15 | after 200 ms per point the move is finished with ratio 1 |
| MoveActions.MoveNotFinishedEarly | action.cpp:9-15 | before that it is not finished and its ratio is below 1 |
| Components.SetScript | components.cpp:3-5 | the name is then present; an existing script under it is kept, a new name gets the script, and every other name is unchanged |
| Components.SetTwiceKeepsFirst | components.cpp:3-5 | a second set under the same name is ignored |
| Components.Triggers.constructor | components.cpp:1-15 | no scripts |
| Components.Triggers.Set | components.cpp:3-5 | the table becomes SetScript of the old one |
| Components.Triggers.GetOrNull | components.cpp:7-15 | null exactly when no script has the name, otherwise that script |
| Stats.NatToString | stats.cpp:13-25 | non-empty decimal digits without a leading zero |
| Stats.ParseNatToString | stats.cpp:13-25 | reading the printed digits gives the number back |
| Stats.Trunc | stats.cpp:14 | int() truncates toward zero |
| Stats.StatRepr | stats.cpp:5-11 | "name: effect", followed by " (reason)" exactly when the reason is not empty |
| Stats.IntEffect | stats.cpp:13-16 | empty for a zero stat; the value alone without a multiplier; otherwise the truncated percentage and '%', followed by the value exactly when it is non-zero |
| Stats.MeterEffect | stats.cpp:23-25 | the value, a slash, the maximum |
| Stats.ConsumeOf | stats.cpp:32-40 | what the meter loses is what the amount loses; neither goes below zero, and one of them ends at zero |
| Stats.RefundOf | stats.cpp:42-51 | for a meter within its maximum, what the meter gains is what the amount loses, the meter stays within the maximum, and either the amount is used up or the meter is full |
| Stats.RefundOverMaxExample | stats.cpp:42-51 | a meter above its maximum (7 of 5) still takes the whole refund of 4, because the unsigned room wraps around |
| Stats.ConsumeUndoesRefund | stats.cpp:32-51 | consuming an amount that fitted in the room undoes the refund |
| Stats.MeterStat.constructor | test/stats_test.cpp:16 | the given name, reason, value and maximum |
| Stats.MeterStat.Merge | stats.cpp:27-30 | value and maximum each become the unsigned sums, wrapping at 2^32 |
| Stats.MeterStat.Consume | stats.cpp:32-40 | the meter and the amount become ConsumeOf's; the maximum is kept |
| Stats.MeterStat.Refund | stats.cpp:42-51 | the meter and the amount become RefundOf's; the maximum is kept |
| Stats.MeterStat.Repr | stats.cpp:5-11 | the text starts with the name and ": ", and ends with the reason in parentheses when there is one |
| Stats.IntStat.constructor | test/stats_test.cpp:7 | the given name, reason, value and multiplier |
| Stats.IntStat.Merge | stats.cpp:18-21 | value and multiplier each become the sums |
| Stats.IntStat.Repr | stats.cpp:5-11 | the text starts with the name and ": ", and ends with the reason in parentheses when there is one |
| Stats.IntStatTestVectors | test/stats_test.cpp:7-8 | "foo: 1 (bar)" and "foo: 1" as the test expects |
| Stats.IntStatPercentVector | test/stats_test.cpp:9 | "foo: 50% (bar)" as the test expects |
| Stats.MeterStatTestVectors | test/stats_test.cpp:16-38 | the texts and remaining amounts the meter tests expect |
| Scripts.OfCode | script.h:27 | a result with the code, no line jump (-1) and no label |
| Scripts.WithLine | script.h:28 | a result with the code and the line to jump to |
| Scripts.WithLabel | script.h:29-30 | a result with the code and the label to jump to, no line jump |
| Scripts.ToWord | script.cpp:41 | assigning the int line to the unsigned pointer keeps a line of 0 or more and wraps a negative one by 2^32 |
| Scripts.AsInt32 | script.cpp:16-19 | the unsigned line returned through `int`: a line below 2^31 is kept, a larger one becomes negative, and assigning it back to the unsigned pointer restores the line |
| Scripts.LabelLine | script.cpp:16-19 | for a known name, the bound line as an `int` (AsInt32); -1 for an unknown name, and also for a name bound at line 2^32 - 1 |
| Scripts.NextPointer | script.cpp:41-49 | the pointer after the line jump, then the label jump, then the advance for CONTINUE and WAIT_ADVANCE; a known label not bound at line 2^32 - 1, with another code, lands exactly on the label's line |
| Scripts.RunFromContinues | script.cpp:38-70 | a step that neither pauses, fails, exits nor reaches the end hands the run on to the next pointer with the new state |
| Scripts.RunAllContinue | script.cpp:38-70 | a script whose every step answers CONTINUE applies each step once, in order, and exits past the last one |
| Scripts.RunResultCode | script.cpp:51-69 | a finished run reports only EXIT, WAIT, WAIT_ADVANCE or ERROR |
| Scripts.RunMoreFuel | script.cpp:38-70 | a run that finished within some number of steps gives the same outcome with any larger bound |
| Scripts.RetryNeverEnds | script.cpp:66 | a line that always answers RETRY without a jump never lets the run finish |
| Scripts.JumpGoesToLabel | script.cpp:72-76 | running a push_jump step to a label not bound at line 2^32 - 1 carries on at the label's line with the state unchanged |
| Scripts.JumpToLastLineStays | script.cpp:42-44 | a label bound at line 2^32 - 1 reads as -1, so the jump is not taken: the push_jump step retries in place and the run only spends a step |
| Scripts.JumpPtrGoesToLabel | script.cpp:78-84 | running a push_jump_ptr step carries on at the line of the label read from the state (when not bound at line 2^32 - 1), after clearing it |
| Scripts.Script.constructor | script.h:35-37 | no instructions and no labels |
| Scripts.Script.Push | script.cpp:5 | the instruction is appended; labels unchanged |
| Scripts.Script.PushLabel | script.cpp:7-9 | a new name is bound to the current size; an existing name keeps its line |
| Scripts.Script.Size | script.h:46 | the instruction count, exact below 2^32 instructions and never above the count |
| Scripts.Script.GetLabel | script.cpp:16-19 | for a known name, an `int` that converts back to the bound unsigned line; -1 for an unknown name |
| Scripts.Script.Empty | script.h:47 | true exactly when the unsigned size is 0 |
| Scripts.Script.Clear | script.cpp:11-14 | no instructions and no labels |
| Scripts.ScriptEngine.constructor | script.h:57-64 | no script, pointer 0, last result EXIT, hence not active |
| Scripts.ScriptEngine.Clear | script.h:69 | pointer 0 and an empty script, the last result kept; not active |
| Scripts.ScriptEngine.Active | script.cpp:26-30 | active only while the pointer is on an instruction, and never after a last result other than START or WAIT_ADVANCE |
| Scripts.ScriptEngine.Reset | script.cpp:32-36 | the script installed at pointer 0 with last result START; active exactly when the script has instructions |
| Scripts.ScriptEngine.RunImpl | script.cpp:38-70 | state, pointer and result are those of the step-by-step run; the script is cleared exactly when the run cleared it on ERROR |
| Scripts.ScriptEngine.Run | script.h:77-80 | run_impl's outcome, recorded as the last result; afterwards the engine is active exactly when the run paused with WAIT_ADVANCE before the end |
| Combat.HpAfter | script.cpp:211-213 | never above the maximum; for non-negative hp the hp less the change, floored at 0 and capped at the maximum |
| Combat.AttackDamage | script.cpp:251-254 | at least 1; at most the defender's hp when that is positive; strength less defense when that lies between 1 and the hp |
| Combat.HpChangeStep | script.cpp:199-235 | the pushed step always answers CONTINUE, and without both components it leaves the world as it was |
| Combat.HpChangeStepEffect | script.cpp:199-235 | the hp-change step always answers CONTINUE; without both components it changes nothing; otherwise it changes only that actor's hp, places a new entity (the damage text) one tile above it under the next id, and advances the id counter |
| Combat.AttackSteps | script.cpp:256-272 | the defender's hp change, then one step for the attacker's on_hit_enemy trigger when it has one, then one for a lifesteal heal; every step answers CONTINUE |
| Combat.RunToAfterHit | script.cpp:258-265 | the defender's hp change and the trigger step lead to the state with the defender hit, its damage text placed and the trigger queued |
| Combat.RunLifesteal | script.cpp:267-269 | the lifesteal step heals the attacker by the damage and places a second damage text above it; without lifesteal nothing more happens |
| Combat.AttackScriptOutcome | script.cpp:238-273 | running the attack script exits with the defender's hp lowered by the damage, a lifestealing attacker healed by it, every other actor unchanged, one new damage-text entity above the defender (and one above a lifestealing attacker) under fresh ids, and the attacker's on_hit_enemy script queued exactly when it has one |
| Combat.AttackHurts | script.cpp:251-254 | a living defender always loses hp and never drops below 0 |
| Grids.Grid.constructor | grid.h:24-29 | no tiles; the dummy is a default tile |
| Grids.Grid.Has | grid.h:32 | true exactly when the grid holds the position |
| Grids.Grid.Get | grid.h:34-44 | the tile and true when the grid holds the position, otherwise the dummy and false |
| Grids.Grid.Index | grid.h:46-48 | a held position's tile, nothing changed; otherwise the dummy, which is then stored at the position |
| Grids.Grid.Assign | grid.h:46-48 | the position holds the tile; every other position is unchanged |
| Grids.CursorRow | grid.cpp:11-25 | after reading a text the cursor is one row lower per newline, never left of column 0 |
| Grids.CursorMonotone | grid.cpp:15-25 | the cursor never moves up, and on one row it moves right by one per character |
| Grids.CursorInjective | grid.cpp:15-25 | two characters that are not newlines land on different cells |
| Grids.TilesOfMeaning | grid.cpp:15-25 | a cell holds a tile exactly when a known character was read there, and it holds that character's tile |
| Grids.GridFromString | grid.cpp:6-28 | a fresh grid holding exactly the tiles the text places, the first line at y equal to the number of newlines |
| Grids.GridBottomRow | grid.cpp:11-17 | the last line read is row 0 |
| Grids.ArenaGrid | grid.cpp:30-40 | the grid holds exactly the cells of the rectangle: walls on its edge, floor inside |
| Grids.RectCellsMembers | grid.cpp:32-33 | the cells of the rectangle are exactly those inside the arena |
| Grids.RectSize | grid.cpp:32-33 | a w by h rectangle has w * h cells |
| Grids.ColumnCellsMembers | grid.cpp:33 | a column is exactly the cells with that x and y from 0 below h |
| Grids.ColumnSize | grid.cpp:33 | a column of height h has h cells |
| Grids.ArenaTileCount | grid.cpp:30-40 | an arena grid has width times height tiles |
| Grids.AdjacentSteps | grid.cpp:42-44 | four steps, each one orthogonal step long |
| Grids.Neighbours | grid.cpp:46-50 | four positions, each at Manhattan distance 1 |
| Grids.NeighboursExact | grid.cpp:46-50 | the neighbours are exactly the positions at Manhattan distance 1 |
| Grids.AdjacentPositions | grid.cpp:46-50 | each step moved by p, in order: the neighbours |
| Dijkstra.ChainFrom | dijkstra.cpp:32-46 | following the prev links from a node back to the source gives a chain of dist + 1 positions ending at the node |
| Dijkstra.ChainAt | dijkstra.cpp:32-46 | position k of the chain is a node at distance k, the first is the source, and each is the prev of the next and adjacent to it |
| Dijkstra.ChainBack | dijkstra.cpp:54-72 | one step back along the chain follows a prev link and lowers the distance by one |
| Dijkstra.WalkBoundsDist | dijkstra.cpp:5-30 | after generate, the end of any walk over walkable tiles from the source is a node whose distance is at most the walk's number of steps |
| Dijkstra.ShortestWalk | dijkstra.cpp:5-46 | the chain to a node is a walk from the source over walkable adjacent tiles, and no walk to that node is shorter: the distances are shortest path lengths |
| Dijkstra.SourceInNonEmpty | dijkstra.cpp:5-30 | a non-empty result contains the source at distance 0 |
| Dijkstra.NoSourceNoNodes | dijkstra.cpp:22-23 | when the source is not walkable nothing is reached |
| Dijkstra.ClosedAtEnd | dijkstra.cpp:18-29 | once every pushed neighbour has been taken off the queue, every walkable neighbour of a node is a node at most one step further |
| Dijkstra.DijkstraGrid.constructor | dijkstra.h:19-21 | no nodes |
| Dijkstra.DijkstraGrid.Source | dijkstra.h:26 | on linked nodes, the only node at distance 0 |
| Dijkstra.DijkstraGrid.At | dijkstra.h:28-29 | on linked nodes, the node at a position is the source (distance 0) or links back to an adjacent node one step closer |
| Dijkstra.DijkstraGrid.Contains | dijkstra.h:31 | true exactly when the position is a node |
| Dijkstra.DijkstraGrid.Generate | dijkstra.cpp:5-30 | the source is recorded; the nodes are linked back to the source, closed under walkable neighbours and only on walkable tiles; a walkable source is the node (0,0)/0 with its occupant, an unwalkable one leaves no nodes; every node records the occupant of its tile |
| Dijkstra.GenStep | dijkstra.cpp:19-28 | one pass of the loop keeps the invariant and either shrinks the queue or adds a node |
| Dijkstra.GenStart | dijkstra.cpp:6-16 | the queue holding only the source satisfies the invariant |
| Dijkstra.GenDiscard | dijkstra.cpp:22-23 | dropping an entry for an unwalkable or already reached tile keeps the invariant |
| Dijkstra.GenInsert | dijkstra.cpp:25-28 | recording the node and pushing its four neighbours one step further keeps the invariant |
| Dijkstra.GenEnd | dijkstra.cpp:18-30 | with the queue empty the invariant gives everything Generate promises |
| Dijkstra.FewerLeft | dijkstra.cpp:25 | each new node is a walkable tile not reached before, so the loop adds at most one node per tile |
| Dijkstra.Discard | dijkstra.cpp:22-23 | dropping an entry keeps the queue in two distance layers and the closure of what was processed |
| Dijkstra.InsertLinked | dijkstra.cpp:25-28 | the new node and the entries it pushes keep every prev link pointing at a node one step nearer the source |
| Dijkstra.InsertLayered | dijkstra.cpp:27-28 | the queue stays in two layers: the current distance, then one more |
| Dijkstra.InsertPushed | dijkstra.cpp:27-28 | every node's four neighbour entries are in the queue history |
| Dijkstra.InsertClosed | dijkstra.cpp:18-28 | the processed part of the queue stays closed once the new node is added |
| Dijkstra.IPathTo | dijkstra.cpp:32-46 | the path is exactly the chain from the source to the position |
| Dijkstra.Rewind | dijkstra.cpp:54-62 | as written: n = 0 returns the position, any n > 0 returns the source, because the loop never decreases n |
| Dijkstra.RewindBy | dijkstra.h:45-48 | the corrected rewind: n steps back along the chain, or the source when n is at least the distance |
| Dijkstra.RewindOvershoots | dijkstra.cpp:54-62 | for 0 < n < dist the intended point is not the source, so the code as written returns the wrong point |
| Dijkstra.RewindOvershootsExample | dijkstra.cpp:54-62 | on the three-tile line (0,0)-(1,0)-(2,0), one step back from (2,0) is (1,0), not the source the code returns |
| Dijkstra.RewindUntilDist | dijkstra.cpp:64-72 | the point of the chain at distance n, or the position itself when it is already that near |
| Dijkstra.RewindUntil | dijkstra.h:51-61 | the furthest point of the chain that is the source or satisfies the predicate, with no point after it satisfying it |
| Dijkstra.NearestEnemyLocation | dijkstra.cpp:74-90 | no enemy exactly when no agent is an enemy off the source; otherwise the first enemy at the least distance; an enemy whose tile is not a node is reported as the at() lookup that throws |
| Decisions.InRangeIds | decision.cpp:6-14 | at most one id per agent |
| Decisions.InRangeIdsMeaning | decision.cpp:6-14 | an id is collected exactly when its agent is on another team and within Manhattan range |
| Decisions.InRangeIdsAscending | decision.cpp:6-14 | with the join in ascending id order the collected ids ascend too, and each is an agent's |
| Decisions.EnemiesInRange | decision.cpp:6-14 | the loop collects exactly InRangeIds |
| Decisions.CanAttack | decision.cpp:16-21 | never after the turn's action; otherwise exactly when the target is within the diamond range |
| Decisions.CanAttackWithin | decision.cpp:16-21 | a target within Manhattan range can be attacked, and a larger range never forbids an attack |
| Decisions.CanTalk | decision.cpp:23-25 | exactly when an attack at range 3 is possible |
| Decisions.Approach | decision.cpp:51-56 | the move target is a node other than the enemy's tile, at distance the smaller of the move and one short of the enemy, so never beyond the move |
| Decisions.ApproachIsRewind | decision.cpp:51-56 | the move target rewinds from the enemy to the furthest point of the path within move range that is not the enemy's tile |
| Decisions.CpuDecision | decision.cpp:27-63 | after the turn's action: pass; an enemy in range: attack the first one, and attack in no other case; otherwise, before moving: move toward the nearest enemy (the first in join order among equally near ones), to the rewound point; no enemy or already moved: pass; an enemy off the map is the at() lookup that throws |
| Decisions.PlayerDecision | decision.cpp:65-84 | no click: still deciding; clicking oneself: pass; clicking an attackable actor: attack it; clicking a free tile within move range: move there |
| Decisions.PlayerDecisionUndecided | decision.cpp:73-81 | a click elsewhere leaves the player deciding exactly when the actor there cannot be attacked, or the free tile is out of move range |
| PyStats.ConsumeStep | stats.py:112-118 | what the fraction loses is what the amount loses; the numerator ends at 0 or above and one of them ends at 0; for non-negative inputs neither grows |
| PyStats.RefundStep | stats.py:120-126 | what the fraction gains is what the amount loses; the numerator never exceeds the denominator, and either the amount is used up or the fraction is full |
| PyStats.RefundUndoesConsume | stats.py:112-126 | refunding what a consume took puts the numerator back and uses the whole refund |
| PyStats.IncomingDamage | stats.py:156-162 | COLD halves the damage, HOT doubles it, LUKWARM leaves it |
| PyStats.Truncate | actor.py:107 | int() of a float truncates toward zero |
| PyStats.FirstIndex | stats.py:177-178 | the index of the first attribute the key matches, or none when no attribute does |
| PyStats.Mix | stats.py:173-174 | the mixing the comment describes: a temperature with itself stays, LUKWARM takes the other, HOT and COLD make LUKWARM; it commutes |
| PyStats.MixCommutes | stats.py:173-174 | the order of mixing does not matter |
| PyStats.MergeTemperature | stats.py:175-189 | as written: afterwards a temperature is found; it is the new one when the sheet had none or a LUKWARM one, and LUKWARM otherwise; other attributes stay |
| PyStats.MergeTemperatureDiffers | stats.py:175-189 | the code as written and the intended mix agree exactly when the sheet's temperature is LUKWARM or the two temperatures are HOT and COLD |
| PyStats.HotOntoHotAsWritten | stats.py:175-189 | HOT applied to a HOT sheet leaves LUKWARM as written, where the comment promises HOT |
| PyStats.IntendedMergeKeeps | stats.py:173-180 | with the intended mix, applying LUKWARM or the sheet's own temperature changes nothing |
| PyStats.MergeTemperatureKeepsOne | stats.py:175-189 | a sheet with at most one temperature keeps exactly one after a temperature modifier, and its other attributes are untouched |
| PyStats.RegenTotalUpdate | actor.py:189-193 | replacing one attribute changes the regeneration total of a name by exactly the difference |
| PyStats.MergeRegenAdds | actor.py:189-196 | a regeneration modifier adds its amount to its name's total and leaves every other name's total unchanged |
| PyStats.AddFraction | stats.py:133-139 | fails exactly when the name holds an integer stat (the += on it raises); otherwise a new name gets the fraction and an existing fraction gains n and d, other stats and attributes unchanged |
| PyStats.AddFractionAccumulates | stats.py:133-139 | applying two fractional additions is applying their sum |
| PyStats.AddInteger | stats.py:91-98 | fails exactly when the name is already a stat (line 96 reads an undefined name and raises); otherwise the sheet gains the integer stat, attributes unchanged |
| PyStats.ApplyModifier | stats.py:63-64 | fails exactly on an addition to an existing stat or a fraction onto an integer stat; temperature and regeneration change only the attributes, additions only the stats |
| PyStats.FoldSheet | stats.py:63-64 | a failure stays a failure through the rest of the modifiers |
| PyStats.FoldSheetAppend | stats.py:63-64 | applying two lists of modifiers is applying the first, then the second |
| PyStats.FoldKeepsOneTemperature | stats.py:175-189 | a sheet built from nothing by any modifiers holds at most one temperature |
| PyStats.MergeRegenKeepsTemperatures | actor.py:189-196 | a regeneration modifier never adds a temperature |
| PyStats.IncomingScaledOnce | actor.py:102-106 | with one temperature on the sheet, incoming damage is scaled once by it, and not at all without one |
| PyStats.StatSheet.constructor | stats.py:34-37 | no stats and no attributes |
| PyStats.Modifier.constructor | stats.py:44-48 | the given kind and reason, no parent |
| PyStats.Modifier.Consume | stats.py:112-118 | another stat's name passes the amount through untouched; for its own name the numerator and the remaining amount are ConsumeStep's; the stat name, denominator, reason and parent never change |
| PyStats.Modifier.Refund | stats.py:120-126 | another stat's name passes the amount through untouched; for its own name the numerator and the remaining amount are RefundStep's; the stat name, denominator, reason and parent never change |
| PyStats.StoredMultiplier | stats.py:80 | `multiplier or 1`: never zero, and a given non-zero multiplier is kept |
| PyStats.AdditionDefaults | stats.py:78-80 | the assertion accepts exactly one of a non-zero value and a non-zero multiplier, and a missing multiplier is stored as 1 |
| PyStats.NewAddition | stats.py:75-80 | a new modifier exactly when the assertion holds, with the name, value and stored multiplier and no parent |
| PyStats.FindAttribute | stats.py:177-178 | the loop finds exactly FirstIndex |
| PyStats.FirstIndexIs | stats.py:177-178 | the first index is the first position that matches |
| PyStats.MergeTemperatureInto | stats.py:175-189 | the sheet's stats are kept and its attributes become the merge as written |
| PyStats.MergeRegenInto | actor.py:189-196 | the sheet's stats are kept and its attributes become the regeneration merge |
| PyStats.AddFractionInto | stats.py:133-139 | succeeds exactly when AddFraction does and then holds its sheet; otherwise the sheet is unchanged |
| PyStats.ModifyStatSheet | stats.py:63-64 | succeeds exactly when ApplyModifier does and then holds its sheet; otherwise the sheet is unchanged |
| PyStats.HpPools | actor.py:109-112 | the numerators of the HP fractions among the modifiers, one per modifier object |
| PyStats.ConsumeThroughFrame | actor.py:109-112 | consuming through modifiers changes no pool outside them |
| PyStats.ConsumeThroughAbsorbs | actor.py:109-112 | pools stay non-negative, the amount left lies between 0 and the original amount, and either it is 0 or every pool passed is empty |
| PyStats.ConsumeAll | actor.py:109-112 | the amount left and the new HP numerators are those of consuming through the modifiers in order, shared objects counted once; a modifier that is not an HP fraction keeps its kind, an HP fraction changes only in its numerator, and no reason or parent changes |
| PyEntity.DefaultMultiplierOnlyZero | entity.py:81-86 | with the default multiplier 1 the assertion accepts only the value 0; with multiplier 0 only a non-zero value |
| PyEntity.NewEntityAddition | entity.py:81-86 | a new modifier exactly when the assertion holds, keeping the multiplier as given, with no parent |
| PyEntity.ApplyEntityModifier | entity.py:97-104 | an addition always fails (`sheet.stats()` calls a dict); a fraction fails exactly onto an integer stat and otherwise adds as in stats.py; regeneration leaves the stats alone |
| PyEntity.FoldEntitySheet | entity.py:234-239 | a sheet that has failed stays failed however many modifiers follow |
| PyEntity.FoldEntityAppend | entity.py:234-239 | applying two lists of modifiers is applying the first, then the second |
| PyEntity.EntityStatsFailIffAddition | entity.py:97-104 | building a sheet from nothing fails exactly when some modifier is an addition, and otherwise holds only fractions |
| PyEntity.Item.constructor | entity.py:203-208 | the name, no modifiers, no holder |
| PyEntity.Item.AddModifier | entity.py:210-212 | the modifier's parent becomes the item and it is appended once; its kind and reason are kept |
| PyEntity.StatsStep | entity.py:236-238 | one more item's modifiers continue the fold from the sheet built so far, and a failure there fails the whole |
| PyEntity.Actor.constructor | entity.py:222-225 | the name and an empty inventory |
| PyEntity.Actor.PickUp | entity.py:227-229 | the item's parent becomes the actor and it is appended to the inventory, its modifiers kept |
| PyEntity.Actor.Stats | entity.py:234-239 | the sheet is the fold of every modifier of every item, in order, or the failure that raises |
| PyEntity.ApplyMods | entity.py:237-238 | the inner loop succeeds exactly when the fold over the item's modifiers does, and then holds its sheet |
| PyEntity.EntityModifyStatSheet | entity.py:97-104 | succeeds exactly when ApplyEntityModifier does and then holds its sheet; otherwise the sheet is unchanged |
| PyEntity.ResolveIncoming | entity.py:294-296 | the amount after every incoming-damage attribute of the sheet has scaled it, in order |
| PyEntity.DealDamage | entity.py:292-302 | fails exactly when the sheet cannot be built; otherwise the HP numerators and the amount left are those of consuming the scaled, truncated amount through every modifier in order; only HP numerators change, reasons and parents never, and nothing changes on failure |
| PyEntity.DealDamageAbsorbs | entity.py:297-302 | the amount left lies between 0 and the scaled amount, no HP goes below 0, and either the whole amount is absorbed or every HP pool passed is empty |
| PyActor.Lookup | actor.py:35-40 | a key reads back exactly when the components hold it; a missing key raises AttributeError |
| PyActor.LookupOr | actor.py:42-43 | `getattr` with a default yields a value for every key except the instance properties and class members, which are never components |
| PyActor.LookupOrIsLookup | actor.py:42-43 | for an ordinary key, GetOr is Get where Get succeeds and the default where it raises |
| PyActor.StoreThenLookup | actor.py:33 | a stored component reads back, and every other key reads as before |
| PyActor.ComponentsVisible | actor.py:42-43 | a registered component that is present is what GetOr returns |
| PyActor.Entity.constructor | actor.py:17-21 | the id, no components, no children, no parent |
| PyActor.Entity.Set | actor.py:23-33 | an instance property is reported as an attribute write; any other key is stored exactly when registered, and rejected with AttributeError otherwise; a rejected key changes nothing |
| PyActor.Entity.Get | actor.py:35-40 | succeeds exactly when the component is present, agreeing with Lookup |
| PyActor.Entity.GetOr | actor.py:42-43 | no value for the instance properties and class members; otherwise the component or the default |
| PyActor.Entity.Delete | actor.py:59 | the key is removed; KeyError exactly when it was absent |
| PyActor.Entity.Contains | actor.py:61 | true exactly when Get would succeed |
| PyActor.Entity.UpdatePairs | actor.py:86-87 | succeeds exactly when every key is registered or an instance property, and then the components are those of storing every pair in order; otherwise it stops at the first rejected key, and the pairs before it stay stored |
| PyActor.StoreAllLastWins | actor.py:86-87 | after UpdatePairs a key holds the data of its last pair |
| PyActor.SheetMissingMods | actor.py:47-49 | a child without a modifier list makes Stats raise |
| PyActor.ChildFoldIsFold | actor.py:47-49 | folding child by child is folding every child's modifier kinds in one sequence |
| PyActor.SheetIsFoldOfAllMods | actor.py:45-50 | when every child has a modifier list, the sheet is the fold over all their modifiers in order, starting from the empty sheet |
| PyActor.ApplyChild | actor.py:48-49 | the inner loop over one child either continues the child fold with the new sheet or reports the failure that raises |
| PyActor.FoldChildren | actor.py:47-49 | the outer loop succeeds exactly when the sheet specification does, and then the sheet object holds it |
| PyActor.Entity.Stats | actor.py:45-50 | the sheet is SheetOf: the fold of all children's modifiers, or the failure that raises |
| PyActor.Entity.RemoveChild | actor.py:53 | `list.remove`: false exactly when the entity is not a child, and then nothing changes; otherwise the first occurrence is dropped; components and parent link stay |
| PyActor.Entity.PickUp | actor.py:52-55 | ValueError exactly when the old parent does not list the entity (nothing changes); otherwise the entity is removed once from its old parent, appended to this one, and its parent link set, while every components dict, the entity's own children and the other parent links stay; a world where each entity is held by at most one parent stays so |
| PyActor.HeldByOne | actor.py:52-55 | in such a world two parents that list the same child are the same, and the child's link names it |
| PyActor.PickUpKeepsHeld | actor.py:52-55 | moving one entity between parents, as PickUp does, keeps every entity held by at most one parent |
| PyActor.MovedLast | actor.py:55 | the moved entity is last among its new parent's children and appears nowhere before |
| PyActor.MovedNoDup | actor.py:53-55 | no child list holds an entity twice after the move |
| PyActor.MovedChildLinks | actor.py:53-55 | every listed child links back to the parent that lists it |
| PyActor.MovedParentLinks | actor.py:53-55 | every parent link is matched by that parent's child list |
| PyActor.RemoveFirst | actor.py:53 | `list.remove` drops exactly one occurrence, keeping the rest |
| PyActor.AddModifier | actor.py:90-93 | the modifier's parent becomes the entity and, where the entity has a modifier list, it is appended twice; AttributeError otherwise |
| PyActor.AddedTwiceCountsTwice | actor.py:92-93 | a fraction appended twice adds its numerator and denominator twice to the sheet |
| PyActor.AddModifierDoublesHp | actor.py:92-93 | one HP 10/10 added through AddModifier yields HP 20/20 |
| PyActor.AddModifierOnce | actor.py:90-93 | corrected: the same, appending once |
| PyActor.AddedOnceCountsOnce | actor.py:90-93 | a modifier appended once is applied once by the sheet fold |
| PyActor.DealDamage | actor.py:102-112 | fails exactly when the sheet cannot be built; otherwise every HP numerator and the amount left are those of consuming the scaled, truncated amount through every child's modifiers in order; only HP numerators change, reasons and parents never, and nothing changes on failure |
| PyActor.ResolveAmount | actor.py:120-122 | as written: subtracting the Stat object raises TypeError exactly when the resistance is named and present; otherwise the amount itself |
| PyActor.Resistance | actor.py:121 | 0 when the resistance is absent or unnamed |
| PyActor.ResolveAmountIntended | actor.py:120-122 | corrected: the amount less the resistance's value |
| PyActor.ResolveAmountDiffers | actor.py:120-122 | wherever the written code returns, it agrees with the intended amount; it raises exactly when a present resistance would apply |
| PyActor.ResolveAmountRaisesExample | actor.py:120-122 | damage 10 against armor 3 raises, where 7 was intended |
| PyActor.ResolveTotalSplits | actor.py:133-135 | the total is the sum of the amounts less the sum of the resistances |
| PyActor.ResolveTotalAsWritten | actor.py:133-135 | as written, the loop fails only with TypeError |
| PyActor.ResolveTotalAsWrittenSucceeds | actor.py:133-135 | the written loop succeeds exactly when no damage names a present resistance, and then equals both the sum of the amounts and the intended total |
| PyActor.SumResolved | actor.py:133-135 | corrected: the summing loop computes the intended total |
| PyActor.SumResolvedAsWritten | actor.py:133-135 | as written: the summing loop computes ResolveTotalAsWritten, stopping with TypeError at the first damage whose resistance is present |
| PyActor.DealDamageVectorAsWritten | actor.py:130-139 | as written: no result exactly when the sheet fails; TypeError, with nothing dealt, when a named resistance is present; otherwise the sum of the amounts, dealt with the pools of DealDamage, and only HP numerators change |
| PyActor.DealDamageVector | actor.py:130-139 | corrected: no result exactly when the sheet fails; otherwise the intended total, dealt to the defender with the pools of DealDamage; only HP numerators change, and nothing changes on failure |
| PyDamage.ChildStats | damage.py:11 | a child's `stat_sheet.stats` always raises AttributeError |
| PyDamage.DealDamage | damage.py:3-14 | no result exactly when the sheet fails; otherwise success exactly when the actor holds nothing, and any failure is AttributeError |
| PyDamage.DealDamageVector | damage.py:33-42 | no result exactly when the sheet fails; a success is the sum of the amounts and happens exactly for a childless defender; failures are TypeError or AttributeError |
| PyDamage.VectorOnChildless | damage.py:33-42 | a childless defender has the empty sheet and the written loop returns the plain sum |
| PyMain.Lower | main.py:70-71 | the new lower bound is at most both the old bound and the new coordinate, and is one of them |
| PyMain.Upper | main.py:72-73 | the new upper bound is at least both the old bound and the new coordinate, and is one of them |
| PyMain.SetKeepsBounded | main.py:69-74 | setting a tile keeps the bounds exact: every tile lies within them and each bound is reached by some tile |
| PyMain.TileGrid.constructor | main.py:54-60 | no tile types, no tiles, and no bounds |
| PyMain.TileGrid.Get | main.py:62-63 | a tile exactly where the grid holds one (KeyError elsewhere) |
| PyMain.TileGrid.HasTile | main.py:80-81 | true exactly where Get finds a tile |
| PyMain.TileGrid.HasTileAtAsWritten | main.py:80-81 | as written, the two-argument form names the undefined `x` and always raises NameError |
| PyMain.TileGrid.HasTileAt | main.py:80-81 | corrected: whether cell (x, y) holds a tile, agreeing with the one-argument form |
| PyMain.HasTileAtRaises | main.py:80-81 | on a grid with a tile at (0, 0) the written form raises where the intended answer is true |
| PyMain.TileGrid.Set | main.py:69-74 | the tile is stored at (x, y), the bounds widen to include it and stay exact, and the tile types are unchanged |
| PyMain.TileGrid.RegisterTileType | main.py:76-78 | the handle maps to the type, overwriting any earlier one; the grid is unchanged |
| PyMain.TileGrid.MinXY | main.py:83 | the least x and y over the tiles, absent exactly for an empty grid |
| PyMain.TileGrid.MaxXY | main.py:84 | the greatest x and y over the tiles, absent exactly for an empty grid |
| PyMain.Row | main.py:106 | the row of a character is at most its index |
| PyMain.Col | main.py:107 | the column of a character is at most its index |
| PyMain.LaterPosition | main.py:106-107 | a later character lies on a later row, or further along the same one |
| PyMain.CellsFail | main.py:104-110 | parsing fails exactly when some character other than a space or line break has no registered type |
| PyMain.CellsPlace | main.py:104-110 | on success, every placed character's cell holds its type and every tile comes from a placed character |
| PyMain.CellsStaysFailed | main.py:104-110 | a failure on a prefix is a failure of the whole |
| PyMain.FromString | main.py:104-110 | no grid exactly when the parse fails; otherwise a fresh grid holding the parsed cells, with exact bounds and no tile types |
| PyMain.StoreAllLastWins | main.py:122-123 | after set_many a key holds the data of its last pair, and a key no pair names is as before |
| PyMain.LastIndex | main.py:122-123 | the last pair naming the key: no later pair names it |
| PyMain.Entity.constructor | main.py:114-116 | the id and no components |
| PyMain.Entity.Set | main.py:118 | the key maps to the data, nothing else changes |
| PyMain.Entity.Get | main.py:119-120 | the component where present, the default otherwise |
| PyMain.Entity.SetMany | main.py:122-123 | the components are those of storing each pair in order |
| PyGraphics.GraphicalPos | graphics.py:14-16 | the pixel corner of a cell seen from the camera cell lies on the tile grid |
| PyGraphics.FloorOfQuotient | graphics.py:18-21 | the floor of a true quotient by the tile size, plus the camera, is Euclidean division plus the camera |
| PyGraphics.GridPosIsDiv | graphics.py:18-21 | GridPos is the pixel divided by 20 (rounding down), offset by the camera cell |
| PyGraphics.GridOfGraphical | graphics.py:14-21 | a cell's pixel corner maps back to the cell |
| PyGraphics.PixelInsideItsTile | graphics.py:14-21 | every pixel lies inside the tile of the cell GridPos gives it |
| PyGraphics.TiledPos | include/graphics.py:15-16 | the cell scaled by the tile size, as a vector |
| PyGraphics.PixelGraphicalPos | include/graphics.py:18-20 | the tiled position of the cell less the camera's pixel offset |
| PyGraphics.PixelGridPosIsDiv | include/graphics.py:22-25 | GridPos is the camera-shifted pixel divided by 20, rounding down |
| PyGraphics.PixelGridOfGraphical | include/graphics.py:18-25 | a cell's pixel corner maps back to the cell, for any pixel camera |
| PyGraphics.PixelInsideItsTileScrolled | include/graphics.py:18-25 | every pixel lies inside the tile of its cell, camera pixels included |
| PyGraphics.SurfaceRegistry.constructor | graphics.py:27-32 | ids start at 1 with empty registries |
| PyGraphics.SurfaceRegistry.RegisterSurface | graphics.py:34-38 | the surface gets the next id, one never in use before, and nothing else changes |
| PyGraphics.SurfaceRegistry.UnregisterSurface | graphics.py:40-42 | the id is dropped if present, and otherwise nothing changes |
| PyGraphics.SurfaceRegistry.RegisterText | graphics.py:44-47 | the rendered text is registered under a fresh id |
| PyGraphics.SurfaceRegistry.GetChar | graphics.py:49-53 | a known character's id is returned with nothing changed; an unknown one is rendered and registered once, under a fresh id it keeps from then on |
| PyGraphics.SurfaceRegistry.GetCharSurface | main.py:30-34 | the surface of the character's id: a cached one where registered, a freshly rendered one for a new character, which is then cached under the next id so later calls hit the cache |
| PyGraphics.SurfaceRegistry.Get | graphics.py:55-58 | an integer id reads the registry without change (KeyError where absent); a one-character string goes through GetChar, registering and caching a new character under the next id; any other string raises |
| PyGraphics.Least | include/graphics.py:127 | the least depth, a member no other depth is below |
| PyGraphics.LeastExists | include/graphics.py:127 | every non-empty set of depths has a least one |
| PyGraphics.SortedKeys | include/graphics.py:127 | `sorted(tasks.keys())`: ascending, with exactly the keys, each once |
| PyGraphics.DrawOf | include/graphics.py:129-135 | a task blits exactly when its surface id is registered, at its own depth with that surface |
| PyGraphics.DrawsAt | include/graphics.py:126-136 | one blit per task of the depth |
| PyGraphics.Frame.constructor | include/graphics.py:114-118 | a zero camera, no tasks and the given registry |
| PyGraphics.Frame.AddTask | include/graphics.py:123-124 | the task is appended to its depth's list, created empty if need be; nothing else changes |
| PyGraphics.Frame.Render | include/graphics.py:126-136 | the blits are those of every depth in ascending order, each depth's tasks in order; on success the tasks are cleared, and an unregistered surface (KeyError) leaves them |
| PyGraphics.RenderDepths | include/graphics.py:128-135 | the outer loop computes the blits of the given depths in turn |
| PyGraphics.RenderDepth | include/graphics.py:129-135 | the inner loop computes the blits of one depth's tasks |
| PyGraphics.DrawsForStaysFailed | include/graphics.py:128-135 | a failure on a prefix of the depths fails the render |
| PyGraphics.DrawsAtFails | include/graphics.py:128-131 | one unregistered surface makes the depth fail |
| PyGraphics.DrawsAtSucceeds | include/graphics.py:128-131 | a depth renders exactly when all of its surface ids are registered |
| PyGraphics.DrawsAtInOrder | include/graphics.py:129-131 | the i-th blit of a depth is the blit of its i-th task |
| PyGraphics.DrawsForByDepth | include/graphics.py:127-135 | over ascending depths the blits come with non-decreasing depth, each one of the given depths |
| PyGraphics.AtDepth | include/graphics.py:127-135 | picking one depth's blits never gives more than there are |
| PyGraphics.AtDepthAppend | include/graphics.py:127-135 | picking one depth distributes over concatenation |
| PyGraphics.AtDepthAll | include/graphics.py:127-135 | blits all at one depth are kept whole or dropped whole |
| PyGraphics.DrawsForAtDepth | include/graphics.py:127-135 | picking one depth out of the blits gives that depth's own blits, and nothing for a depth not rendered |
| PyGraphics.RenderDepthOrder | include/graphics.py:126-136 | in a successful render each depth's tasks come out in insertion order, one blit each |
| PyGraphics.RenderOrder | include/graphics.py:126-136 | a successful render blits in non-decreasing depth |
| PriorityQueues.InsertStable | priority_queue.py:18-20 | inserting a node keeps every node and adds it once |
| PriorityQueues.StableSort | priority_queue.py:20 | the reference sort keeps exactly the nodes |
| PriorityQueues.InsertStableAt | priority_queue.py:18-20 | on a sorted queue the node goes after every node no heavier and before the first heavier one |
| PriorityQueues.InsertStableSorted | priority_queue.py:18-20 | inserting into a sorted queue keeps it sorted |
| PriorityQueues.StableSortOfSorted | priority_queue.py:20 | sorting a sorted queue changes nothing |
| PriorityQueues.StableSortSorted | priority_queue.py:20 | the reference sort orders by weight |
| PriorityQueues.InsertKeepsState | priority_queue.py:18-20 | inserting the newest node at its stable place keeps the queue sorted by weight and, among equal weights, in push order |
| PriorityQueues.PriorityQueue.constructor | priority_queue.py:15-16 | an empty queue |
| PriorityQueues.PriorityQueue.Push | priority_queue.py:18-20 | the queue is the stable sort of the old queue plus the node: one node more, sorted, equal weights in push order |
| PriorityQueues.PriorityQueue.Pop | priority_queue.py:22-24 | IndexError exactly on an empty queue; otherwise the last node, of maximum weight and the latest pushed among that weight, is removed |
| PriorityQueues.PriorityQueue.Len | priority_queue.py:26 | zero exactly for an empty queue |
| PriorityQueues.PriorityQueue.Values | priority_queue.py:28 | the node values, in queue order |
| PyVec.Add | vec.py:6-7 | subtracting either summand from the sum gives back the other |
| PyVec.Sub | vec.py:9-10 | a vector less itself is zero, and less zero is itself; adding back is stated by Add |
| PyVec.Neg | vec.py:23-24 | a vector plus its negation is zero |
| PyVec.Scale | vec.py:17-18 | scaling by 1 changes nothing, by 0 gives zero |
| PyVec.Div | vec.py:20-21 | division by zero raises; otherwise scaling the quotient back gives the vector |
| PyVec.Index | vec.py:12-15 | 0 is x, 1 is y, and any other index raises |
| PyVec.NegAndSub | vec.py:6-24 | subtraction is adding the negation, negation is an involution, addition commutes and subtraction undoes it |
| PyVec.ScaleDistributes | vec.py:6-24 | scaling distributes over addition and commutes with negation |

Some code appears twice in the source, and the model covers each copy
once:

- entity.py:118-132 repeats the Consume and Refund of stats.py. Both
  are `PyStats.Modifier.Consume` and `PyStats.Modifier.Refund`.
- entity.py:284-289 repeats the regeneration merge of actor.py:189-196,
  apart from keeping the reason. Both are `PyStats.MergeRegen`, which
  takes the reason to copy as a parameter.
- The `SurfaceRegistry` of include/graphics.py:30-62 is the one of
  graphics.py:26-58. So are `graphical_pos` and `grid_pos` at
  main.py:161-168. Each is modelled once, in `PyGraphics`.
- The registry of main.py:10-37 allocates ids the same way. Its
  `get_char` returns the surface rather than the id
  (`PyGraphics.SurfaceRegistry.GetCharSurface`). Its indexing takes ids
  only, which `PyGraphics.SurfaceRegistry.Get` covers with an `Id` index.

## Left out

- Rendering, windows, fonts and input are outside the model: the GL, SDL, FreeType and pygame calls, `Blit`, `BlitText`, `blit_text`, `Frame.Dimensions` and the subsurface. A rendered surface is the text it shows, and `Render` returns the blits it would make, in order.
- `main()` and the event loop of main.py are left out. The unbalanced parenthesis at main.py:233 is a syntax error, so the module as shipped does not compile and none of it runs, `TileGrid` and `Entity` included. PyMain models those classes as their text reads, and the main.py:80-81 row under "## Findings" describes that text, not behaviour a run can reach. `TileGrid.iterate` is a generator over the grid's items, which the model exposes directly as the map `grid`.
- PyGraphics.SurfaceRegistry.GetChar: takes one character. Python accepts any hashable key there, but every caller passes one character.
- PyActor.Entity.Set: writing an instance property (`id`, `components`, `children`, `parent`) through `super().__setattr__` replaces that field in Python. The model reports the write as `InstanceAttribute` and leaves the entity's state unchanged, because a component value cannot hold a dict, a list of entities or an entity. PyActor.Entity.UpdatePairs inherits this.
- EcsRange.Entries: the range (and EcsRange.ReadAll, which builds it) is modelled only over stores in which no id appears twice. Every operation keeps that except a CREATE_OR_UPDATE write of an id the store already holds (ecs.h:347-351, Ecs.UpdateKeepsOldEntry). Over such a store the source's range would meet the id twice; that walk is not modelled.
- Combat.AttackSteps and Combat.AttackScriptOutcome: the hp-change step's `add_status` call is not modelled. `Actor` is empty in components.h:23, and `StatusEffect`, `add_status` and `embue` are not part of this model, so the defender's status gaining the attacker's `embue` is not stated. The damage text's `Transform` and glyph, and its independent move-up-and-delete script, are not modelled either; only its GridPos entity is. The camera and thrust steps around the hp changes are also not modelled (see the line on script.cpp's UI steps). The queued on_hit_enemy script is named by its attacker's id rather than held as a script.
- PyActor.DealDamageVector: this is the corrected half of the actor.py:120-122 finding. It resolves each amount with `ResolveAmountIntended`, so it deals the intended total where actor.py:134-135 raises TypeError. The code as written is `PyActor.DealDamageVectorAsWritten`, built on `PyActor.SumResolvedAsWritten`.
- Python aliasing is not modelled. Lists and dicts shared between objects become `seq` and `map` values, except the entity and modifier objects, which stay classes.
- `OnAction` (actor.py:95-99, entity.py:214-216, entity.py:241-243) dispatches to arbitrary callbacks and is left out. The actor.py version also raises on its two-argument `Get`.
- The `Regen` closures of the regeneration modifiers (actor.py:169-184, entity.py:264-279) act on a game clock that is not part of this model.
- The `print` calls of damage.py are not modelled.
- The module-level demo of entity.py:305-343, item_compendium.py and the turn sketch of turn.py are left out. The demo only prints; the other two are content tables or do not run.
- PyStats.AddInteger: the merge evidently meant by stats.py:96-98 and entity.py:98-104 is not modelled. Adding onto an existing integer stat raises at line 96 before it is reached, and the model keeps that failure.
- Stats.IntStat.Merge: test/stats_test.cpp:10-12 reads `IntStat::value()` and expects 4 after merging 1 into 1. No such member exists in stats.cpp or stats.h, so only the merge itself is stated.
- Stats: `Stat::repr` as a stream is modelled by the text it produces (`Stats.StatRepr`). The inline repr of stats.h:18-23 disagrees with stats.cpp:5-11 and is not modelled.
- Floating-point numbers are modelled as reals, without rounding, except the points of a move path, which are integer points (see `MoveActions.MoveAction` below). Python's `int()` on a float is truncation toward zero (`PyStats.Truncate`).
- Scripts.ScriptEngine.Run: a RETRY step can run forever, so the run is bounded by a fuel parameter. An exhausted run returns no result, and `Scripts.RetryNeverEnds` shows that no amount of fuel ends a retry loop.
- The dialogue, camera, team-colour, move-along-path and delete steps of script.cpp (lines 86-192, 275-292) drive the UI and the ECS API they call, which ecs.h does not define. They are not modelled. Steps are functions from the state to a result, and the jump steps keep their label in the state.
- Ecs.EntityComponentSystem.NewEntity: ids are unbounded, so the 32-bit counter's wrap-around after 2^32 entities is not modelled.
- Ecs: the C++ template holds one vector per component type. The model gives all component types one value type `T` and numbers them.
- The variadic tuple helpers of include/util.h:9-38 only plumb types and are not modelled.
- Timer: durations are non-negative whole milliseconds, so negative `dt` values are not modelled.
- The default constructors `StopWatch()` and `Action()` leave the target uninitialised in C++ and are not modelled.
- Actions.ActionManager.AddOrderedAction: `add_ordered_action` is only declared in action.h:133, so the model records the calls it receives, in order, and assumes nothing more.
- The independent-action and deferred-call queues, and `process_independent_actions`/`process_ordered_actions`, are only declared and are left out.
- Actions.GenericAction: the `ActionManager&` argument of the step function is not passed, since nothing shown uses it.
- MoveActions.MoveAction.Impl: before the move finishes, Impl writes the interpolated `Transform` position, which it takes as the parameter `interpolated`. That parameter stands for `mix_vector_by_ratio(path_, ratio_finished(), to_float)` (action.cpp:27), whose floating-point geometry is not modelled.
- MoveActions.MoveAction: path points are modelled as integer points (`seq<IVec2>`), while the source's `Path` is a vector of float vectors (action.h:13), and action.cpp:30 stores `path_.back()` into the integer GridPos, truncating it. The only producer of paths, `path_to` (dijkstra.cpp:48-52), converts the integer points of `ipath_to`, so that write is exact for every path the program builds. A path with non-integer points is not modelled.
- Dijkstra: `path_to` converts `ipath_to` to floats and is not modelled beyond `IPathTo`.
- The floating-point geometry of include/math.cpp, `mix_vector_by_ratio`, `path_distance` and the camera math of game.h is left out.
- vec_test.cpp tests a `vec.h` that is not part of this model.

## Findings

| source | as written | input that shows it | evidently intended | confidence | as-written member | corrected member |
|---|---|---|---|---|---|---|
| ecs.h:461-466 | `Erase` removes the entity id at the lower-bound position without checking that it equals the id | erasing id 2 when the entities are [1, 3] removes entity 3 | remove the id only when it is present | not executed | Ecs.EraseIdAsWritten, Ecs.EraseUnknownIdRemovesOther | Ecs.EraseIdExact, Ecs.EraseKnownIdAgrees |
| ecs.h:347-351 | a CREATE_OR_UPDATE write of a present id inserts a second entry in front of the old one | writing 'b' for id 1 over [(1, 'a')] gives [(1, 'b'), (1, 'a')] | overwrite the existing entry in place | not executed | Ecs.UpdateKeepsOldEntry, Ecs.UpdateDuplicatesExample | Ecs.StoreUpsert, Ecs.UpsertKeepsOtherReads |
| dijkstra.cpp:54-62 | `rewind` never decreases `n`, so any n > 0 walks all the way to the source | one step back from (2,0) on the line (0,0)-(1,0)-(2,0) returns (0,0) | n steps back along the path, (1,0) here | not executed | Dijkstra.Rewind, Dijkstra.RewindOvershootsExample | Dijkstra.RewindBy |
| stats.py:175-189 | the `pass` for a LUKWARM or equal temperature falls through, so HOT onto HOT becomes LUKWARM | HOT applied to a sheet that is HOT | hot and hot stay hot, as the comment at stats.py:174 says | not executed | PyStats.HotOntoHotAsWritten, PyStats.MergeTemperatureDiffers | PyStats.IntendedMergeKeeps |
| actor.py:90-93 | `AddModifier` appends the modifier twice | adding HP 10/10 to an entity with no modifiers yields HP 20/20 | append it once | not executed | PyActor.AddModifier, PyActor.AddModifierDoublesHp | PyActor.AddModifierOnce, PyActor.AddedOnceCountsOnce |
| actor.py:120-122 | `ResolveAmount` subtracts the Stat object, not its value | damage 10 with resistance "armor" against armor 3 raises TypeError | 10 - 3 = 7 | not executed | PyActor.ResolveAmount, PyActor.ResolveAmountRaisesExample, PyActor.SumResolvedAsWritten, PyActor.DealDamageVectorAsWritten | PyActor.ResolveAmountIntended, PyActor.SumResolved, PyActor.DealDamageVector |
| damage.py:11 | `DealDamage` reads each child's `stat_sheet.stats`, which no entity has | any actor holding an item raises AttributeError | consume through the children's modifiers, as actor.py:109-112 does | not executed | PyDamage.DealDamage, PyDamage.ChildStats | PyActor.DealDamage |
| main.py:80-81 | the two-argument `has_tile` builds `(x, y)` from the undefined name `x` | `has_tile(0, 0)` on a grid holding (0, 0) raises NameError | `(xy, y) in grid_` | not executed | PyMain.TileGrid.HasTileAtAsWritten, PyMain.HasTileAtRaises | PyMain.TileGrid.HasTileAt |
