# VDA 5050 connector: execution state and order wrappers

A Dafny model of the two wrapper classes at the centre of a ROS VDA 5050 connector.

- **`State`** (`include/models/State.h`) holds the vehicle's `vda5050_msgs::State` message and its factsheet. It does the following in place:
  - starts an order;
  - extends it with order updates;
  - trims node and edge states as the vehicle reports progress;
  - overwrites action statuses;
  - keeps an error list keyed by error type;
  - guards a few setters.
- **`Order`** (`include/models/Order.h`) holds one `vda5050_msgs::Order`. It has const getters and documented operations that replace it, extend it and validate it.

Both classes are Dafny classes whose fields the methods update. The `State` methods name the fields they change (``modifies this`field``); the `Order` methods use `modifies this`. Each method is proved against a pure function of the old state. The files are:

| file | module | contents |
|---|---|---|
| `messages.dfy` | `Messages` | message records (`Node`, `Edge`, `NodeState`, `EdgeState`, `ActionState`, `Error`, ...), `uint32`, the operating-mode and action-status constants |
| `seqs.dfy` | `Seqs` | `std::find_if` as a function and as a loop, the released prefix, element-wise conversion, and the "entries past a sequence id" filter |
| `order.dfy` | `OrderModel` | the `Order` class and the node/edge merge of an order update |
| `progress.dfy` | `Progress` | trimming on a progress report, the action-status overwrite, and the state lists built from an order |
| `errors.dfy` | `ErrorList` | the error list keyed by error type |
| `rangecheck.dfy` | `RangeCheck` | the chained comparison `lo <= v <= hi` as C++ evaluates it |
| `state.dfy` | `StateModel` | the `State` class |

Several `State` and `Order` operations are declared in the headers but have no body there:

- `State`: the constructor `State()` (include/models/State.h:27), `AcceptNewOrder`, `AddInstantActionStates`, `HasActiveOrder`, `ValidateUpdateBase`, `UpdateOrder`, `GetLastNodeInBase`, `AppendError`, `ClearErrorWithType`, and the private conversions `NodeToNodeState`, `EdgeToEdgeState` and `ActionToActionState` (include/models/State.h:528, 536, 544);
- `Order`: the constructors `Order()` and `Order(const vda5050_msgs::Order::ConstPtr&)` (include/models/Order.h:16, 23), `AcceptNewOrder`, `UpdateOrder`, `Validate`.

Their contracts come from their doc comments; the constructors start from the message defaults or copy the received message. The conversions, whose doc comments say only that they transform an order element into a state element, copy what the two messages share. A node or edge state takes the id, sequence id and released flag. An action state takes the action id and type and starts WAITING with an empty result description. Their bodies here are the simplest ones that meet those contracts. Where a doc comment leaves a rule open, the rule comes from VDA 5050:

- base and horizon;
- the base node that an update must repeat;
- node/edge alternation with increasing sequence ids.

`State::HasActiveOrder` is modelled as the predicate `StateModel.State.HasActiveOrder`: the order ids match and some node or edge state is left. `Order::Validate` is modelled as `OrderModel.Order.Validate`, which applies `OrderModel.ValidOrder`.

## Model

| member | source | states |
|---|---|---|
| `Seqs.FirstIndex` | include/models/State.h:435-438 | the result of `find_if` by key: either the first index whose key matches, with no match before it, or no index at all when nothing matches |
| `Seqs.FindFirst` | include/models/State.h:457-460 | the linear scan returns `end()` (the length) exactly when no element matches, and otherwise the first matching position; it agrees with `FirstIndex` |
| `OrderModel.ValidOrder` | include/models/Order.h:43-48 | a valid order has at least one node and one edge fewer than nodes; each edge starts and ends at the nodes around it, sequence ids increase node, edge, node, no released entry follows an unreleased one, and an edge is released exactly when the node it leads to is |
| `OrderModel.ValidOrderNodesOrdered` | include/models/Order.h:43-48 | along a valid order, node sequence ids strictly increase, and released nodes precede unreleased ones |
| `OrderModel.ValidOrderEdgesOrdered` | include/models/Order.h:43-48 | along a valid order, edge sequence ids strictly increase, and released edges precede unreleased ones |
| `OrderModel.ValidOrderIncreasing` | include/models/Order.h:43-48 | the node list and the edge list of a valid order are each sorted by sequence id |
| `OrderModel.MergeNodes` | include/models/Order.h:33-41 | after an update, the current released nodes up to the last base node stay unchanged at the front, and every node after them lies past the last base node, so no kept node is repeated |
| `Seqs.BaseLength` | include/models/Order.h:33-41 | the kept part of a list is its longest prefix of released entries at or below the cut; the entry after it is unreleased or lies past the cut |
| `Seqs.BaseLengthWhole` | include/models/Order.h:33-41 | when the whole released prefix lies at or below the cut, all of it is kept |
| `Seqs.BaseLengthSorted` | include/models/Order.h:33-41 | on a list in increasing order, a cut at the id of an entry at or past the end of the released prefix keeps all of that prefix |
| `OrderModel.MergeEdges` | include/models/Order.h:33-41 | after an update, the current released edges up to the last base node stay unchanged at the front, and every edge after them lies past that node, so no kept edge is repeated |
| `OrderModel.ValidOrderBaseEdges` | include/models/Order.h:33-48 | in a valid order every released edge lies before the last base node, so the cut keeps the whole released edge prefix |
| `OrderModel.ValidOrderBaseNodes` | include/models/Order.h:33-48 | in a valid order the node ids increase, so the cut at the last base node keeps every released node |
| `OrderModel.ValidOrderSplit` | include/models/Order.h:33-48 | in a valid order, the nodes past node m's sequence id are exactly the nodes after m, and the edges past it are exactly the edges from m on |
| `OrderModel.MergeValidUpdate` | include/models/Order.h:33-41 | a valid update that repeats the last base node at position m yields the kept base, then exactly the update's nodes after m and its edges from m on |
| `OrderModel.Order.constructor` | include/models/Order.h:12-16 | a new order is empty: ids are empty or 0, and there are no nodes and no edges |
| `OrderModel.Order.FromMessage` | include/models/Order.h:18-23 | the getters return the received message's ids, zone set, nodes and edges |
| `OrderModel.Order.AcceptNewOrder` | include/models/Order.h:25-31 | all old nodes and edges are discarded; nodes, edges, order id and update id become those of new_order |
| `OrderModel.Order.UpdateOrder` | include/models/Order.h:33-41 | the update id is taken over; nodes and edges become the merge with the update; order id and zone set are kept |
| `OrderModel.Order.Validate` | include/models/Order.h:43-48 | the order is valid exactly when its nodes and edges satisfy `ValidOrder` |
| `OrderModel.Order.GetOrderId` | include/models/Order.h:57 | const getter: returns the stored order id and changes nothing |
| `OrderModel.Order.GetOrderUpdateId` | include/models/Order.h:64 | const getter: returns the stored order update id |
| `OrderModel.Order.GetZoneSetId` | include/models/Order.h:66 | const getter: returns the stored zone set id |
| `OrderModel.Order.GetNodes` | include/models/Order.h:72 | const getter: returns the stored nodes |
| `OrderModel.Order.GetEdges` | include/models/Order.h:79 | const getter: returns the stored edges |
| `Progress.TrimNodes` | include/models/State.h:426-451 | after a progress report, the node list is a suffix of the old one; the state either does not change or takes over the reported last node |
| `Progress.TrimNodesChanged` | include/models/State.h:428-446 | when the trigger holds, the result is one of three cases. (1) The front equals the reported last node: only the front is erased. (2) An entry carries the stored last sequence id: everything before the first such entry is erased and the last node is taken over. (3) There is no such entry: nothing changes |
| `Progress.TrimNodesUnchanged` | include/models/State.h:426-429 | a report whose last sequence id and front sequence id both equal the stored ones changes nothing |
| `Progress.TrimNodesEmptyReport` | include/models/State.h:447-451 | a report without node states clears the list and copies the reported last node |
| `Progress.TrimNodesNotIdempotent` | include/models/State.h:428-446 | on a concrete list, repeating one report changes the state three times before a fixpoint: the last node is taken over, then node 0 and then node 2 are erased |
| `Progress.TrimNodesStuck` | include/models/State.h:428-446 | once the stored last node has left the list, a report that neither names the front as its last node nor starts at the front changes nothing, and the reported last node is not taken over |
| `Progress.TrimNodesSkippedReport` | include/models/State.h:428-446 | on a concrete list, reporting node 0 erases it at once, and a following report that skips node 2 leaves the state unchanged |
| `Progress.TrimNodesKeepsSorted` | include/models/State.h:426-451 | node states in increasing order of sequence id stay in that order after a report |
| `Progress.ScenarioProgress` | include/models/State.h:428-446 | a concrete report that moves to node 2 at first only takes over the last node; repeating it erases node 0 |
| `Progress.TrimEdges` | include/models/State.h:453-469 | the edge list is a suffix of the old one. An empty stored list stays empty. An empty report clears the list. Any change makes the reported front the new front. No erased entry carries the reported front id |
| `Progress.TrimEdgesFound` | include/models/State.h:456-462 | when the reported front edge is stored at position k, it becomes the new front and nothing from k on is erased |
| `Progress.TrimEdgesIdempotent` | include/models/State.h:453-469 | applying the same report twice trims the edges no further than applying it once |
| `Progress.UpdateAction` | include/models/State.h:479-489 | length, ids and types are kept; with no match, nothing changes |
| `Progress.UpdateActionFirstOnly` | include/models/State.h:479-489 | the first entry with the id gets the new status and description, and every other entry is unchanged |
| `Progress.ApplyActionReports` | include/models/State.h:470-471 | applying the reported action states one after another keeps the list length and every id |
| `Progress.ApplyDistinctReports` | include/models/State.h:470-489 | for reports with distinct ids, the first tracked entry with a reported id ends with that report's status and result description |
| `Progress.ApplyReportsUntouched` | include/models/State.h:470-489 | an entry that is not the first one with any reported id is left exactly as it was |
| `Progress.ApplyUnknownReports` | include/models/State.h:483-488 | reports about untracked action ids leave the action states unchanged |
| `Progress.ActionStatesOf` | include/models/State.h:29-37 | one action state per action of the entries, all WAITING with an empty result description |
| `Progress.ActionStatesOfFromEntries` | include/models/State.h:29-37 | every created action state is that of some action of some entry |
| `Progress.ActionStatesOfTracksAll` | include/models/State.h:29-37 | every action of every node or edge gets an action state |
| `Messages.NodeToNodeState` | include/models/State.h:522-528 | a node state keeps the node's id, sequence id and released flag; the node's actions are tracked separately as action states |
| `Messages.EdgeToEdgeState` | include/models/State.h:530-536 | an edge state keeps the edge's id, sequence id and released flag |
| `Messages.ActionToActionState` | include/models/State.h:538-544 | an action state keeps the action's id and type, and starts WAITING with an empty result description |
| `Progress.StatesOfOrder` | include/models/State.h:29-37 | there is one node state per node and one edge state per edge, in order, with the same ids, sequence ids and released flags; there is one action state per node and edge action, all WAITING |
| `Progress.StatesOfOrderTracksAll` | include/models/State.h:29-37 | every action of every node and every edge of the order has an action state |
| `Progress.StatesOfOrderOnlyItsActions` | include/models/State.h:29-37 | every action state is that of an action of one of the order's nodes or edges |
| `Progress.StatesOfOrderSorted` | include/models/State.h:29-37 | a valid order starts the node states in increasing order of sequence id |
| `Progress.ScenarioAccept` | include/models/State.h:29-37 | for a concrete order with a released node 0 and a horizon node 2, the expected state lists result and node 0 is the base node |
| `Progress.LastReleased` | include/models/State.h:70-75 | the result is a released node state with no released node state after it, or nothing when no node state is released |
| `Progress.BaseNode` | include/models/State.h:53-59 | the node an update must repeat is either the last traversed node or a released node still in the list |
| `Progress.BaseNodeIsLastReleased` | include/models/State.h:53-75 | the base node is the last traversed node when no node state is released, and otherwise the last released node state |
| `Progress.BaseNodeKeepsReleased` | include/models/State.h:53-68 | on node states in increasing order, the cut at the base node keeps every released node state, so the cut drops one only from a list out of order |
| `Progress.AddUntracked` | include/models/State.h:61-68 | the tracked action states stay unchanged in front, and every entry after them is one of the added states |
| `Progress.AddUntrackedTracksAll` | include/models/State.h:61-68 | every added action id is tracked afterwards |
| `Progress.AddUntrackedOnlyNew` | include/models/State.h:61-68 | no added entry repeats the id of an earlier entry, so unique action ids stay unique |
| `Progress.MergeStates` | include/models/State.h:61-68 | the horizon is cleared; the released node states and the released edge states up to the base node are kept, and every kept entry lies at or below the base node; every added entry lies past the base node, so no kept entry is repeated; existing action states are kept in front |
| `Progress.MergeStatesSortedUpdate` | include/models/State.h:61-68 | for a sorted update that repeats the base node at position m, the added node states are exactly those of the nodes after m |
| `Progress.MergeStatesValidUpdate` | include/models/State.h:61-68 | for a valid update that repeats the base node at position m, the lists become the kept base followed by the states of exactly the nodes after m and the edges from m on; the action states are those of their actions that are not yet tracked, added after the tracked ones |
| `Progress.MergeStatesKeepsSorted` | include/models/State.h:61-68 | merging a valid update at its base node keeps node states in increasing order of sequence id |
| `Progress.ScenarioMergeNodes` | include/models/State.h:61-68 | for a concrete update that releases node 2 and adds node 4, the node states become 0, 2 (now released) and 4 |
| `Progress.ScenarioResentAction` | include/models/State.h:61-68 | an update that re-sends a horizon node with an action that is already tracked leaves that action tracked once |
| `Progress.ScenarioMergeEdges` | include/models/State.h:61-68 | in the same update, the horizon edge state 1 is replaced by the released edge 1 and the horizon edge 3 |
| `ErrorList.ReplaceOrAppend` | include/models/State.h:77-83 | the new error is listed; an error of a known type replaces the first entry of that type in place, and an error of a new type is appended at the end; errors of other types are kept; unique types stay unique |
| `ErrorList.WithoutType` | include/models/State.h:85-90 | no error of the type is left; every other error is kept, and nothing new appears; without an error of the type the list is unchanged |
| `ErrorList.WithoutTypeConcat` | include/models/State.h:85-90 | removal works entry by entry, so the kept errors stay in their order |
| `ErrorList.WithoutTypeKeepsUnique` | include/models/State.h:85-90 | a list with unique error types keeps them unique |
| `ErrorList.ReplaceOrAppendIdempotent` | include/models/State.h:77-83 | for any list, appending the same error twice gives the same list as appending it once |
| `RangeCheck.ChainedGuardAlwaysHolds` | include/models/State.h:228-234 | with an upper bound of at least 1.0, the guard `(lo <= v) <= hi` holds for every v |
| `RangeCheck.ChainedGuardAcceptsOutOfRange` | include/models/State.h:222-234 | a charge of 150 or -5 and a score of 1.5 pass the written guard although they are out of range |
| `RangeCheck.ChainedGuardDiffersOutside` | include/models/State.h:326-332 | the written guard and the documented range disagree on every value outside the range |
| `StateModel.State.constructor` | include/models/State.h:206-218 | on startup the order id is "" and the update id is 0, with no node, edge, action or error states |
| `StateModel.State.GetOrderId` | include/models/State.h:206-211 | getter: returns the running order id as stored ("" on startup) |
| `StateModel.State.GetOrderUpdateId` | include/models/State.h:213-218 | getter: returns the order update id as stored (0 on startup) |
| `StateModel.State.HasActiveOrder` | include/models/State.h:45-51 | an order is in execution when the state tracks current_order's id and some node or edge state is left |
| `StateModel.State.AcceptNewOrder` | include/models/State.h:29-37 | the state lists are rebuilt from new_order alone; the order id and update id are taken over; an order with nodes is then active |
| `StateModel.State.AddInstantActionStates` | include/models/State.h:39-43 | one WAITING action state per instant action is appended after the existing ones |
| `StateModel.State.GetLastNodeInBase` | include/models/State.h:70-75 | the result is the LAST released node state in the list (no released node state follows it), or nothing when no node state is released |
| `StateModel.State.ValidateUpdateBase` | include/models/State.h:53-59 | the update is accepted exactly when one of its nodes has the id and sequence id of `GetLastNodeInBase`, or of the last traversed node when that finds nothing |
| `StateModel.State.AcceptedUpdateMerge` | include/models/State.h:53-68 | for a valid update that passes `ValidateUpdateBase`, the base node sits at some position m of the update, and the lists `UpdateOrder` produces are the kept base, then the states of exactly the update's nodes after m and its edges from m on, with WAITING states for those of their actions that are not yet tracked |
| `StateModel.State.UpdateOrder` | include/models/State.h:61-68 | the lists become `MergeStates` of the old lists at the base node, and the update id is taken over |
| `StateModel.State.SetOrderState` | include/models/State.h:420-473 | a report for another order id changes nothing; otherwise nodes, last node, edges and action states become `TrimNodes`, `TrimEdges` and `ApplyActionReports` of the old ones |
| `StateModel.State.TrimNodeStates` | include/models/State.h:426-451 | the in-place node trimming, including the scan for the stored last node, computes `TrimNodes` |
| `StateModel.State.TrimEdgeStates` | include/models/State.h:453-469 | the in-place edge trimming computes `TrimEdges` |
| `StateModel.State.ApplyActionStates` | include/models/State.h:470-471 | the `for a` loop over the reported action states computes `ApplyActionReports` |
| `StateModel.State.SetActionState` | include/models/State.h:479-489 | the action states become `UpdateAction` for the reported id, status and description; found is true exactly when the id is tracked |
| `StateModel.State.SetActionStatus` | include/models/State.h:495-505 | the same for the id/status overload, whose result description defaults to "" |
| `StateModel.State.AppendError` | include/models/State.h:77-83 | errors become `ReplaceOrAppend` of the old list, and unique types stay unique |
| `StateModel.State.ClearErrorWithType` | include/models/State.h:85-90 | errors become `WithoutType` of the old list, and unique types stay unique |
| `StateModel.State.ClearAllErrors` | include/models/State.h:97 | the error list is empty afterwards |
| `StateModel.State.SetBatteryCharge` | include/models/State.h:228-234 | as written, the charge is always stored and the result is always true |
| `StateModel.State.SetLocalizationScore` | include/models/State.h:326-332 | as written, the score is always stored and the result is always true |
| `StateModel.State.SetBatteryChargeInRange` | include/models/State.h:222-227 | as documented, true exactly for a charge in [0, 100], and only then is it stored |
| `StateModel.State.SetLocalizationScoreInRange` | include/models/State.h:319-325 | as documented, true exactly for a score in [0, 1], and only then is it stored |
| `StateModel.State.SetOperatingMode` | include/models/State.h:261-271 | true exactly for AUTOMATIC, SEMIAUTOMATIC, MANUAL, SERVICE or TEACHIN, in which case the mode is stored; otherwise the mode is unchanged |
| `StateModel.State.GetDriving` | include/models/State.h:289-295 | getter: returns the driving flag as stored |
| `StateModel.State.SetDriving` | include/models/State.h:289-302 | `GetDriving` afterwards returns the value set |
| `StateModel.State.SetPaused` | include/models/State.h:364-369 | the paused flag becomes the value |
| `StateModel.State.SetNewBaseRequest` | include/models/State.h:371-378 | the new-base-request flag becomes the value |
| `StateModel.State.SetInteractionZones` | include/models/State.h:398-413 | the normalised copy is never stored, so the interaction zones stay as they were |
| `StateModel.State.NormalisedZones` | include/models/State.h:406-410 | the copy has the same zones with every non-zero status forced to 1 and a zero status kept; nothing else of a zone changes |
| `StateModel.State.SetFactsheet` | include/models/State.h:507-515 | the factsheet is the message, with version, manufacturer and serial number taken from the state |

## Left out

- Logging through `ROS_ERROR_STREAM` has no state effect and is not modelled. `SetActionState`/`SetActionStatus` instead return a found flag, which is false exactly where the source logs.
- `CreateVisualizationMsg`, `CreateConnectionMsg` and `InDeviationRange` (include/models/State.h:99-119) are read-only projections or a floating-point distance check, and their bodies are not in the header.
- `GetState` and `GetFactsheet` (include/models/State.h:128, 135) return copies of the whole message and of the factsheet. They are read-only projections of the fields the model already exposes.
- These plain pass-through setters and getters are single field writes or reads with nothing to prove beyond the frame: header id, timestamp, manufacturer, version, serial number, zone set, battery voltage and charging, errors, information, position, localization map, position-initialized flag, velocity, loads, distance since last node, safety state (include/models/State.h:137-202, 236-250, 273-287, 304-362, 380-396).
- Headers, timestamps and poses are not part of the message records. The factsheet keeps only the fields `SetFactsheet` writes, plus its series name.
- Staleness and order-id checks of an order update (comparing update ids) do not appear in the modelled headers, so the model has none.
- StateModel.State.UpdateOrder: `current_order` is not consulted. The doc comment ties the update only to the state lists, so the base node is taken from the state itself.
- StateModel.State.ValidateUpdateBase: the source returns `void` and its reaction to a mismatch is not in the header. The model returns the verdict as a boolean.
- OrderModel.Order.Validate: the source returns `void`. The rule comes from VDA 5050 (at least one node, one edge fewer than nodes, node/edge/node linked with increasing sequence ids, released entries first, the base ending with a node) and is a modelling choice, as the header does not state it.
- OrderModel.Order.AcceptNewOrder: the zone set id is kept, because the doc comment names only nodes, edges, order id and update id.
- OrderModel.Order.UpdateOrder: the zone set id is kept, because the doc comment names only the update id. Actions arrive with the nodes and edges that carry them.
- Progress.MergeStates: an action state does not record which node or edge carries the action. So the states of horizon actions that an update no longer sends stay tracked, and a re-sent action keeps its state instead of getting a second one.
- Messages.ActionToActionState: the body of the three conversions lies in an implementation file that is not part of this model, so what they copy is a modelling choice. The optional action description and the action parameters are not modelled, so nothing of them reaches the action state.
- Progress.TrimNodes: one might expect the trimming to be idempotent and to search for the reported last node. The code does neither: it searches for the stored last node (include/models/State.h:435-438). The model follows the code. While the stored last node is in the list, the search trims one report late, as right after an order is accepted (`Progress.TrimNodesNotIdempotent`). When the front is the reported last node, line 430 erases it at once. After that the stored last node has left the list. A report that then skips a node matches nothing, and the state stays as it is on every repeat (`Progress.TrimNodesStuck`, `Progress.TrimNodesSkippedReport`).
- StateModel.State.SetOrderState: a report with node states for the running order needs a non-empty stored node list. The code reads the front of that list unconditionally (include/models/State.h:429-430), which is undefined behaviour on an empty list. The model therefore states this as a precondition.
- Unsigned 32-bit ids are bounded (`uint32`). No arithmetic on them happens, so there is no wrap-around to model.
- Doubles are modelled as reals. The battery and score setters compare without any arithmetic, so the only C++ detail that matters is the promotion of a bool to 0.0/1.0, and `RangeCheck.BoolToDouble` models it.
- The mock-up vehicle, the action daemon and the utility functions (`src/mock_ups/AGV_Mockup.cpp`, `include/vda5050_connector/action_daemon.h`, `include/utils/utils.h`) are ROS I/O, clock and floating-point code and are not part of this model. Concurrency does not occur in the modelled code.

## Findings

| source | as written | input that shows it | evidently intended | confidence | as-written member | corrected member |
|---|---|---|---|---|---|---|
| include/models/State.h:228-234 | `0.0 <= battery_charge <= 100.0` is `(0.0 <= battery_charge) <= 100.0`, a bool promoted to 0.0/1.0 and compared with 100.0, so it always holds | battery_charge = 150.0 (or -5.0) is stored and true is returned | store and return true only for a charge in [0, 100], as the doc comment at line 226 says | not executed | `RangeCheck.ChainedGuardAcceptsOutOfRange`, `StateModel.State.SetBatteryCharge` | `StateModel.State.SetBatteryChargeInRange` |
| include/models/State.h:326-332 | `0.0 <= score <= 1.0` is `(0.0 <= score) <= 1.0`, which always holds because the promoted bool is at most 1.0 | score = 1.5 is stored and true is returned | store and return true only for a score in [0, 1], as the doc comment at line 324 says | not executed | `RangeCheck.ChainedGuardAcceptsOutOfRange`, `StateModel.State.SetLocalizationScore` | `StateModel.State.SetLocalizationScoreInRange` |
