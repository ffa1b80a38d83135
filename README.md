# Task dashboard store in Dafny

This project models `TaskStore`, the in-memory store behind the task dashboard
(lib/store.ts), together with the records it holds (lib/types.ts). The store
has three parts:

- **Work items.** It keeps tasks and five fixed agents (`main`, `dev`,
  `learn`, `monitor`, `creator`).
- **Bins.** Six fixed, capacity-bounded bins (`inbox` 50, `high-priority` 10,
  `medium-priority` 20, `low-priority` 30, `assigned` 20, `in-progress` 15)
  list task ids in order.
- **Activity log.** It appends skill-use records and agent-run records, and
  reports per-name counts, a progress percentage for four tracked skills, and
  a newest-first timeline.

The store is a `class` (`Store.TaskStore`). Its methods reassign its fields:

- the task, agent and bin maps;
- the insertion order of each map, which is the order a JavaScript `Map`
  iterates in;
- the two logs, in insertion order.

Every method keeps the invariant `Store.StoreInv`:

- each task, agent and bin is stored under its own id;
- each order lists its map's keys exactly once;
- no bin is over capacity;
- every listed id is a known task;
- a task id is listed in at most one bin, at most once;
- log ids are pairwise different.

Invariant preservation is proved on values, in lemmas beside the class. Each
method then states its whole new state in terms of specification functions:

- `Bins.TryMove`, `Bins.Detach` and `Bins.AddToInbox` describe the bins;
- `Assignment.Assign`, `Assignment.AssignPairs` and
  `Assignment.AutoAssignment` describe assignment;
- `Activity.StatsOf` and `Activity.Timeline` describe the activity reports.

Lemmas state the store's properties about those functions.

Modules:

- `Types`: the records.
- `ArrayOps`: `indexOf`, `splice` and `filter` on sequences.
- `StableSort`: JavaScript's stable `Array.prototype.sort` by a numeric key.
- `Bins`: bin bookkeeping.
- `Assignment`: agents and assignment.
- `Activity`: logs, statistics and the timeline.
- `Store`: the class.
- `Scenarios`: small concrete cases that show the store's behaviour and its
  quirks.

Modelling choices:

- **Parameters.** Fresh ids and the current time are parameters. A fresh id
  is required not to be a key already.
- **Timestamps.** Dates are `nat` timestamps.
- **Stable sort.** `Array.prototype.sort` is stable, and a stable sort's
  result is unique (`StableSort.StableSortIsUnique`). So an insertion sort
  gives exactly the order the source gets.
- **Removal from a bin.** `indexOf` followed by `splice(index, 1)` removes the
  first occurrence. Because an id occurs at most once, this equals removing
  every occurrence (`ArrayOps.RemoveFirstOfUnique`).
- **Progress.** `Math.min(100, Math.round(n / 5 * 100))` is computed with an
  exact rounding division (`Activity.RoundDiv`). It is proved equal to
  `min(100, 20 * n)`.
- **createTask.** The store keeps the status and assignee it is given
  (lib/store.ts:53-59). The HTTP handler sets them to `pending` and `null`
  (app/api/tasks/route.ts:32,34). The model follows the store and takes the
  status and assignee as arguments.
- **Log types.** lib/store.ts:1 imports `SkillLog`, `AgentLog`,
  `ActivityStats` and `SkillType` from lib/types.ts, which declares none of
  them. Their fields are reconstructed from how the store and the route
  handlers use them.

Quirks of the source that the model reproduces rather than fixes:

- An agent in `error` status can be assigned.
- A task in any status can be assigned, including one already assigned. The
  agent that held it is then left busy with a `currentTaskId` whose task names
  another assignee.
- `assignTaskToAgent` succeeds, and is not rolled back, when the move into the
  full `assigned` bin fails.
- A move into a full bin fails even when the task is already listed there.

## Model

| member | source | states |
|---|---|---|
| Store.TaskStore.constructor | lib/store.ts:13-40 | The new store has no tasks and no logs. It has the five agents, idle with no current task, in the order main, dev, learn, monitor, creator. It has the six empty bins in seeding order. The invariant holds. |
| Store.SeedKeepsInv | lib/store.ts:17-40 | The seeded agents and bins, with no tasks, satisfy the store invariant. |
| Assignment.SeedAgentsValid | lib/store.ts:19-27 | The seeded agent map has exactly the five ids of the seeding order. Each agent is stored under its id and is idle with no current task. |
| Assignment.AgentIdsListed | lib/store.ts:19-27 | The seeding order lists each of the five agents exactly once. |
| Bins.SeedBinsValid | lib/store.ts:30-39 | The seeded bin map has exactly the six ids of the seeding order, all empty. It satisfies the bin invariant for any set of tasks. |
| Bins.BinIdsListed | lib/store.ts:30-39 | The seeding order lists each of the six bins exactly once. |
| Store.TaskStore.GetTasks | lib/store.ts:43-45 | Returns one record per stored task, in insertion order (the i-th record has the i-th id of the task order), each equal to the task stored under its id, with no id twice. |
| Store.TaskStore.GetTask | lib/store.ts:47-49 | Returns a task exactly when the id is known, and then the record stored under that id. |
| Store.TaskStore.CreateTask | lib/store.ts:51-69 | Stores exactly one new record, with `completedAt` empty and both timestamps set to now, and appends its id to the task order. The bins become `AddToInbox` of the old bins. The agents, the bin order and the logs are unchanged. The invariant is kept. |
| Store.CreateKeepsInv | lib/store.ts:51-69 | Adding a task under a fresh id, and listing it in the inbox when there is room, keeps the store invariant. |
| Bins.AddToInboxPlacement | lib/store.ts:62-66 | The new id is listed in a bin exactly when that bin is the inbox and the inbox had room. Otherwise the task is in no bin. Every other bin is unchanged, and the bin invariant holds with the new task. |
| Store.TaskStore.UpdateTask | lib/store.ts:71-83 | For a known id, replaces the record with the update applied and `updatedAt` set to now, and returns it. For an unknown id, returns nothing and changes nothing. The bins, the agents and the orders are never changed. |
| Store.ReplaceTaskKeepsInv | lib/store.ts:71-83 | Replacing a stored task by a record with the same id keeps the store invariant. |
| Store.TaskStore.DeleteTask | lib/store.ts:85-95 | Returns true exactly when the record existed. The record and its place in the task order are removed, and every bin loses the id (`Detach`). The agents and the logs are unchanged. The invariant is kept. |
| Store.DeleteKeepsInv | lib/store.ts:85-95 | Removing an id, known or not, from the tasks, the task order and every bin keeps the store invariant. |
| Store.DetachScan | lib/store.ts:87-92 | The `forEach` over the bins in iteration order, which splices the id out of each bin, yields exactly `Detach`: every bin without the id. |
| Store.SpliceOut | lib/store.ts:88-91 | `indexOf` then `splice(index, 1)` on a list without repeats removes every occurrence of the id and nothing else. |
| Bins.DetachKeepsValid | lib/store.ts:85-95 | Removing an id from every bin keeps the bin invariant, and afterwards no bin lists that id. |
| Bins.DetachUnlisted | lib/store.ts:85-95 | Deleting an unknown task leaves every bin as it was. |
| Assignment.TasksIndexedWithout | lib/store.ts:94 | Deleting the record and dropping the id from the task order keeps the map and its order in step. |
| Store.TaskStore.GetAgents | lib/store.ts:98-100 | Returns one record per agent, in seeding order (the i-th record has the i-th id of the agent order), each equal to the agent stored under its id, with no id twice. |
| Store.TaskStore.GetAgent | lib/store.ts:102-104 | Returns an agent exactly when the id is known, and then the record stored under that id. |
| Store.TaskStore.UpdateAgent | lib/store.ts:106-117 | For a known id, replaces the record with the update applied, without touching any timestamp, and returns it. For an unknown id, returns nothing and changes nothing. The tasks, the bins and the logs are never changed. |
| Store.ReplaceAgentKeepsInv | lib/store.ts:106-117 | Replacing an agent by a record with the same id keeps the store invariant. |
| Store.TaskStore.GetBins | lib/store.ts:120-122 | Returns one record per bin, in seeding order (the i-th record has the i-th id of the bin order), each equal to the bin stored under its id, with no id twice. |
| Store.TaskStore.GetBin | lib/store.ts:124-126 | Returns a bin exactly when the id is known, and then the record stored under that id. |
| Store.TaskStore.MoveTaskToBin | lib/store.ts:128-147 | Returns true exactly when the task is known, the bin is known and the bin is below capacity. The bins become `TryMove`: unchanged on failure, otherwise the id is removed everywhere and appended to the target. Nothing else changes. The invariant is kept. |
| Store.MoveKeepsInv | lib/store.ts:128-147 | A move, allowed or refused, keeps the store invariant. |
| Bins.MoveKeepsValid | lib/store.ts:128-147 | A move keeps every bin within capacity and keeps every id in at most one bin, at most once. |
| Bins.MovePlacement | lib/store.ts:136-146 | After an allowed move, the id occurs exactly once in the target bin, as its last element, and in no other bin. Every bin keeps its other ids in their previous order. |
| Bins.ListedAfterMoveFacts | lib/store.ts:136-146 | After the scan and the push, a bin holds exactly its old ids other than the moved one, plus the moved one if it is the target. It grows by at most one and keeps its ids distinct. |
| Bins.ReappendLast | lib/store.ts:136-146 | Removing an id that occurs once, as the last element, and pushing it again gives back the same list. |
| Bins.MoveIdempotent | lib/store.ts:128-147 | Moving a task a second time into the bin it was just moved to changes nothing. |
| Store.TaskStore.AssignTaskToAgent | lib/store.ts:150-172 | Returns true exactly when the task is known and the agent is known and not busy (`CanAssign`). On success the task gets this assignee, status `assigned` and `updatedAt` now. The agent becomes busy, with this current task and a heartbeat of now. The bins then get the move into `assigned`, whose failure does not change the result. On refusal nothing changes. |
| Assignment.AssignConsistencyIff | lib/store.ts:150-172 | Assignment keeps every agent's current task pointing back at that agent if and only if no other agent held the task before. |
| Store.TaskStore.AutoAssignTasks | lib/store.ts:175-192 | Returns exactly `AutoAssignment`: the first min(#idle, #pending) pending ids, stably sorted by ascending priority number. There are at most as many as idle agents. The new tasks, agents and bins are those ids assigned one after another to the idle agents in seeding order. The orders and the logs are unchanged. |
| Assignment.AutoAssignmentSpec | lib/store.ts:175-192 | The ids handed out number min(idle count, #pending) and are distinct pending tasks, in non-decreasing priority number. No pending task left out has a smaller priority number than one handed out. |
| Assignment.AutoAssignmentPending | lib/store.ts:177-180 | The ids handed out are distinct and are all pending tasks. |
| Assignment.AutoAssignmentOrdered | lib/store.ts:180 | The ids handed out are in non-decreasing priority number. |
| Assignment.AutoAssignmentSmallest | lib/store.ts:178-182 | No pending task left out has a smaller priority number than one handed out. |
| Assignment.AutoAssignmentAll | lib/store.ts:182 | With at least as many idle agents as pending tasks, every pending task is handed out in priority order. |
| Assignment.AutoAssignEffect | lib/store.ts:182-189 | Pairing the i-th chosen task with the i-th idle agent assigns each pair, because every such agent is known and idle and no agent repeats. Every other task and agent is unchanged. The bins are the successive moves of the chosen ids into `assigned`. |
| Assignment.AutoAssignPlacement | lib/store.ts:182-189 | When the `assigned` bin has room for every task handed out, it ends with exactly those tasks, in the order they were handed out. Each is listed there once and in no other bin. Every bin keeps its capacity. |
| Assignment.AutoAssignIntoEmptyBin | lib/store.ts:175-192 | When the `assigned` bin starts empty with room for every task handed out, it ends up listing exactly those tasks, in hand-out order, and no other bin lists them. The i-th idle agent holds the i-th task and is its assignee. |
| Bins.MoveEachPlacement | lib/store.ts:136-146 | Moving distinct, known ids one after another into a bin with room for all of them leaves the target ending with exactly those ids, in the order they were moved. Each is listed there once and in no other bin. Every bin keeps its capacity. |
| Bins.MovedPlacedLast | lib/store.ts:136-146 | One more move into the target extends that placement by the moved id. |
| Bins.AppendAfterMoved | lib/store.ts:136-146 | A bin ending with ids that are each listed once, after the filter and push of another id, ends with those ids followed by the moved one, and each of them is listed once. |
| Assignment.AssignPairsEffect | lib/store.ts:182-189 | Assigning distinct known tasks to distinct known agents that are not busy, pair by pair, gives each task its agent and each agent its task. The bins are the successive moves. |
| Assignment.AssignPairsFrame | lib/store.ts:182-189 | Assigning pairs keeps the task and agent key sets. Every task and agent outside the pairs is left as it was. |
| Assignment.AssignPairsStep | lib/store.ts:182-189 | Assigning one more pair extends the assignment of the earlier pairs by that pair. |
| Assignment.IdleAgentsSpec | lib/store.ts:177 | The idle agents are listed without repeats and are exactly the agents whose status is idle. |
| Assignment.IdleAgentsAllIdle | lib/store.ts:177 | When every agent is idle, the idle agents are all of them, in iteration order. |
| Assignment.PendingIdsSpec | lib/store.ts:178-179 | The pending ids are listed without repeats and are exactly the tasks whose status is pending. |
| Assignment.PendingIdsAllPending | lib/store.ts:178-179 | When every listed task is pending, the pending ids are all of them, in order. |
| StableSort.SortBy | lib/store.ts:180 | The sorted sequence is a permutation of the input with keys non-decreasing. |
| StableSort.InsertSorted | lib/store.ts:180 | Inserting into a sorted sequence keeps it sorted. |
| StableSort.SortByIsStable | lib/store.ts:180 | Elements with equal keys keep their relative order. |
| StableSort.StableSortIsUnique | lib/store.ts:180 | Any sorted permutation that keeps equal keys in input order equals `SortBy`, so the model's order is the order the stable built-in sort produces. |
| StableSort.SortedGroupsDetermine | lib/store.ts:180 | Two sorted sequences with the same elements per key, in the same order, are equal. |
| StableSort.SortedPrefixIsSmallest | lib/store.ts:180-182 | No element left out of a prefix of the sorted sequence has a smaller key than one kept. |
| ArrayOps.IndexOf | lib/store.ts:88 | `indexOf` gives -1 exactly when the value is absent. Otherwise it gives the first index holding the value. |
| ArrayOps.RemoveFirst | lib/store.ts:88-91 | Removing the first occurrence takes one copy of the value out of the multiset and leaves a list without the value unchanged. |
| ArrayOps.RemoveFirstOfUnique | lib/store.ts:88-91 | When the value occurs at most once, removing its first occurrence equals removing every occurrence. |
| ArrayOps.Filter | lib/store.ts:177-179 | `filter` keeps exactly the elements that pass, each as often as before. |
| Store.TaskStore.CreateSkillLog | lib/store.ts:200-209 | Appends one skill record with the fresh id and now as its timestamp, and returns it. Nothing else changes. |
| Store.SkillLogKeepsInv | lib/store.ts:200-209 | Appending a skill record with a fresh id keeps the store invariant. |
| Store.TaskStore.CreateAgentLog | lib/store.ts:217-226 | Appends one agent record with the fresh id and now as its timestamp, and returns it. Nothing else changes. |
| Store.AgentLogKeepsInv | lib/store.ts:217-226 | Appending an agent record with a fresh id keeps the store invariant. |
| Store.TaskStore.GetSkillLogs | lib/store.ts:195-198 | Returns every skill record, as a permutation, with timestamps non-increasing. |
| Store.TaskStore.GetAgentLogs | lib/store.ts:212-215 | Returns every agent record, as a permutation, with timestamps non-increasing. |
| Activity.NewestFirst | lib/store.ts:196-197 | The descending-timestamp sort is a permutation with timestamps non-increasing. |
| Activity.NewestFirstIsStable | lib/store.ts:196-197 | Records with equal timestamps keep their insertion order. |
| Store.TaskStore.GetActivityStats | lib/store.ts:229-255 | The record returned is `StatsOf` the current logs. |
| Activity.Tally | lib/store.ts:235-242 | The counting loop gives a key exactly for each name logged, whose value is its number of occurrences. |
| Activity.TallyIsCounts | lib/store.ts:235-242 | What the counting loop promises determines the count record. |
| Activity.CountsSpec | lib/store.ts:235-242 | The count record has a key exactly for the names that occur. `record[n] \|\| 0` is the number of positions holding `n`. |
| Activity.CountsAppend | lib/store.ts:235-242 | Counting one more name raises its count by one and no other count. |
| Activity.FillProgress | lib/store.ts:245-248 | The progress loop gives each listed skill its progress, computed from its use count or 0. |
| Activity.Progress | lib/store.ts:247 | Progress is at most 100, 20 points per use, and 100 from 5 uses on. |
| Activity.RoundDiv | lib/store.ts:247 | `Math.round` of a non-negative quotient is the nearest integer, with halves rounded up. |
| Activity.StatsSpec | lib/store.ts:229-255 | `skillUsage[s] \|\| 0` is the number of skill logs of `s`, and `agentActivity[a] \|\| 0` the number of agent logs of `a`. The progress record has exactly the four tracked skills, each at min(100, 20 × uses). |
| Activity.SkillUsageSpec | lib/store.ts:235-237 | A skill has a usage key exactly when it was logged. Its value is the number of skill logs of that skill. |
| Activity.AgentActivitySpec | lib/store.ts:240-242 | An agent has an activity key exactly when it was logged. Its value is the number of agent logs of that agent. |
| Activity.LogSkillIncrements | lib/store.ts:235-248 | One more skill log raises that skill's count by one and leaves every other count and the agent counts alone. A tracked skill's progress rises by 20, capped at 100. |
| Activity.LogAgentIncrements | lib/store.ts:240-242 | One more agent log raises that agent's count by one, leaves every other agent count alone, and changes neither the skill counts nor the progress. |
| Store.TaskStore.GetActivityTimeline | lib/store.ts:258-267 | For a limit of 0 or more, returns min(limit, #skill logs + #agent logs) entries. They are drawn from the logs and ordered by non-increasing timestamp. |
| Store.TaskStore.GetDefaultActivityTimeline | lib/store.ts:258 | Without a limit, the timeline holds the newest min(50, #entries) entries. |
| Activity.TimelineSpec | lib/store.ts:258-267 | The timeline has the `slice(0, limit)` length, including the count back from the end for a negative limit. It is a sub-multiset of all entries, newest first. No entry left out is newer than one kept. |
| Activity.TimelineEntries | lib/store.ts:259-266 | Every timeline entry is a logged entry, each at most as often as logged. |
| Activity.TimelineKeepsNewest | lib/store.ts:264-266 | No entry cut off by the limit is newer than an entry kept. |
| Activity.AllEntries | lib/store.ts:259-262 | The merged sequence is the skill logs followed by the agent logs, each in insertion order. |
| Activity.SliceEnd | lib/store.ts:266 | The end index of `slice(0, limit)` never exceeds the length. |
| Scenarios.CreateIntoInbox | lib/store.ts:51-69 | In a fresh store, a newly created pending task is listed in the inbox and can be read back. |
| Scenarios.ProgressExamples | lib/store.ts:247 | 0 uses give 0%, 2 uses 40%, 5 uses 100% and 8 uses 100%. |
| Scenarios.TwoDevFlowUses | lib/store.ts:235-248 | Two `dev-flow` logs give a usage of 2 and a progress of 40. |
| Scenarios.ReassignLeavesStaleAgent | lib/store.ts:154-166 | Assigning a task held by busy `main` to idle `dev` is accepted. `main` is left with a current task that is now assigned to `dev`, which breaks agent/task consistency. |
| Scenarios.AutoAssignByPriority | lib/store.ts:178-180 | Tasks `a`, `b`, `c` of priorities 3, 1 and 2, created in that order, are handed out as `b`, `c`, `a` when three agents are idle. |
| Scenarios.SeedIdleAgents | lib/store.ts:19-27 | In the seeded store every agent is idle, so the idle agents are all five in seeding order, starting with main, dev and learn. |
| Scenarios.SeededAutoAssignment | lib/store.ts:175-192 | On the seeded team, tasks `a`, `b`, `c` of priorities 3, 1 and 2 are handed out as `b`, `c`, `a` to `main`, `dev` and `learn`. Each agent holds its task and is its assignee. An initially empty `assigned` bin lists exactly `b`, `c`, `a`, and no other bin lists them. |
| Scenarios.FullBinRefusesMove | lib/store.ts:132 | The high-priority bin holding 10 ids refuses every move into it, even of a task it already lists, and changes nothing. |
| Scenarios.AssignDespiteErrorAndFullBin | lib/store.ts:154-169 | An agent in error is assigned. When the `assigned` bin is full, the assignment still succeeds and the bins stay as they were. |

## Left out

- I/O and nondeterminism: `Date.now()`, `Math.random()` and `new Date()` in
  id generation and timestamps (lib/store.ts:20-24 seeding heartbeats, 52,
  56-57, 78 the `updatedAt` of updateTask, 161, 166, 201, 205, 218, 222).
  They become a fresh-id parameter and a `now: nat` parameter.
- Task `metadata` (lib/types.ts:14-19) is not modelled. A
  `Partial<Task>`/`Partial<Agent>` update is modelled as replacing a chosen
  subset of fields; the identity fields and `createdAt` are never replaced.
- The module-level singleton (lib/store.ts:271): the model builds a fresh
  store with the constructor.
- Aliasing: the getters return the store's own objects in JavaScript, so a
  caller could mutate them. The model returns values.
- Floating point: `Math.round(n / 5 * 100)` is modelled with exact
  arithmetic. Binary rounding error is not modelled; for whole counts it
  does not change the result.
- Record keys: JavaScript's `Record<string, number>` shares keys with
  `Object.prototype`, so names such as `constructor` would behave differently.
  The model uses maps.
- `Store.TaskStore.GetActivityTimeline`: its contract states the length only
  for a limit of 0 or more. `Activity.TimelineSpec` also covers a negative
  limit, which counts back from the end. A `NaN` limit from `parseInt` is
  not modelled.
- `Types.Task`: priorities are integers. The handler clamps but does not
  round the JavaScript number (app/api/tasks/route.ts:33), so a priority of
  2.5 is stored as is. A truthy non-number passes the check at
  app/api/tasks/route.ts:22 and becomes `NaN`, which makes the comparator at
  lib/store.ts:180 inconsistent and leaves the sort order up to the engine.
  Neither fractional nor `NaN` priorities are modelled; for integer
  priorities the stable order is as stated.
- The priority clamp `Math.min(5, Math.max(1, priority))` and the
  required-field checks live in the HTTP handlers (app/api/*/route.ts). Those
  handlers, the React pages and components, and the drag-and-drop UI are
  not part of this model.
- The agent and bin key sets are not part of the store invariant. They are
  fixed by seeding, and every method's contract keeps the agent and bin keys.
- Persistence (Supabase) is mentioned only in comments and is not modelled.
