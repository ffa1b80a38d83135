/** The five fixed agents and the task/agent side of assignment
    (lib/store.ts: seeding, assignTaskToAgent, autoAssignTasks). */
module Assignment {
  import opened Types
  import opened ArrayOps
  import opened Bins
  import StableSort

  /** The agents in seeding order, which is the order `agents.values()` yields. */
  const AgentIds: seq<string> := ["main", "dev", "learn", "monitor", "creator"]

  function SeedAgents(now: nat): map<string, Agent> {
    map[
      "main" := Agent("main", "PengPeng (Main)", Idle, now, None, ["coordination", "priority_management"]),
      "dev" := Agent("dev", "Dev Agent", Idle, now, None, ["code_review", "deployment", "environment_setup"]),
      "learn" := Agent("learn", "Learn Agent", Idle, now, None, ["analysis", "research", "summarization"]),
      "monitor" := Agent("monitor", "Monitor Agent", Idle, now, None, ["system_monitoring", "alerting", "reporting"]),
      "creator" := Agent("creator", "Creator Agent", Idle, now, None, ["documentation", "content_creation", "report_generation"])
    ]
  }

  /** Every agent is stored under its own id. */
  ghost predicate AgentsValid(agents: map<string, Agent>) {
    forall a | a in agents :: agents[a].id == a
  }

  /** The task map and its iteration order list the same ids, once each, and
      every task is stored under its own id. */
  ghost predicate TasksIndexed(tasks: map<string, Task>, order: seq<string>) {
    && Lists(order, tasks.Keys)
    && (forall k | k in tasks :: tasks[k].id == k)
  }

  /** `agents.values().filter(a => a.status === 'idle')`, as ids, where
      `order` is the iteration order of the agents. */
  function IdleAgents(agents: map<string, Agent>, order: seq<string>): seq<string> {
    Filter(order, (a: string) => a in agents && agents[a].status == Idle)
  }

  /** `tasks.values().filter(t => t.status === 'pending')`, as ids. */
  function PendingIds(tasks: map<string, Task>, order: seq<string>): seq<string> {
    Filter(order, (k: string) => k in tasks && tasks[k].status == Pending)
  }

  /** The sort key of a task id: its priority number. */
  function PriorityOf(tasks: map<string, Task>): string -> int {
    (k: string) => if k in tasks then tasks[k].priority else 0
  }

  /** The pending tasks stably sorted by ascending priority number. */
  function ByPriority(tasks: map<string, Task>, order: seq<string>): seq<string> {
    StableSort.SortBy(PendingIds(tasks, order), PriorityOf(tasks))
  }

  /** The ids autoAssignTasks hands out when `idleCount` agents are idle: the
      first min(#idle, #pending) of `ByPriority`, the i-th going to the i-th
      idle agent. */
  function AutoAssignment(tasks: map<string, Task>, order: seq<string>, idleCount: nat): seq<string> {
    var sorted := ByPriority(tasks, order);
    sorted[..Min(idleCount, |sorted|)]
  }

  /** What assignTaskToAgent writes into the task. */
  function AssignedTask(t: Task, agentId: string, now: nat): Task {
    t.(assignee := Some(agentId), status := Assigned, updatedAt := now)
  }

  /** What assignTaskToAgent writes into the agent. */
  function BusyAgent(a: Agent, taskId: string, now: nat): Agent {
    a.(status := Busy, currentTaskId := Some(taskId), lastHeartbeat := now)
  }

  /** Every agent's current task exists and names that agent as its assignee. */
  ghost predicate AgentsConsistent(tasks: map<string, Task>, agents: map<string, Agent>) {
    forall a | a in agents && agents[a].currentTaskId.Some? ::
      agents[a].currentTaskId.value in tasks && tasks[agents[a].currentTaskId.value].assignee == Some(a)
  }

  /** No agent other than `agentId` has `taskId` as its current task. */
  ghost predicate HeldOnlyBy(agents: map<string, Agent>, taskId: string, agentId: string) {
    forall a | a in agents && a != agentId :: agents[a].currentTaskId != Some(taskId)
  }

  lemma SeedAgentsValid(now: nat)
    ensures forall a :: a in SeedAgents(now) <==> a in AgentIds
    ensures AgentsValid(SeedAgents(now))
    ensures forall a | a in SeedAgents(now) :: SeedAgents(now)[a].status == Idle && SeedAgents(now)[a].currentTaskId == None
  {
  }

  /** Deleting a task, whether or not it exists, keeps the map and its order
      in step. */
  lemma TasksIndexedWithout(tasks: map<string, Task>, order: seq<string>, id: string)
    requires TasksIndexed(tasks, order)
    ensures TasksIndexed(tasks - {id}, Without(order, id))
  {
    WithoutShorter(order, id);
    forall k ensures k in Without(order, id) <==> k in order && k != id {
      CountPositive(Without(order, id), k);
      CountPositive(order, k);
    }
  }

  /** The idle agents are listed once each, in seeding order, and are exactly
      the agents whose status is idle. */
  lemma IdleAgentsSpec(agents: map<string, Agent>, order: seq<string>)
    requires Lists(order, agents.Keys)
    ensures Distinct(IdleAgents(agents, order))
    ensures forall a :: a in IdleAgents(agents, order) <==> a in agents && agents[a].status == Idle
  {
    FilterMembers(order, (a: string) => a in agents && agents[a].status == Idle);
  }

  /** When every agent is idle, the idle agents are all of them, in order. */
  lemma IdleAgentsAllIdle(agents: map<string, Agent>, order: seq<string>)
    requires Lists(order, agents.Keys)
    requires forall a | a in agents :: agents[a].status == Idle
    ensures IdleAgents(agents, order) == order
  {
    FilterAll(order, (a: string) => a in agents && agents[a].status == Idle);
  }

  /** When every listed task is pending, all of them are pending ids, in order. */
  lemma PendingIdsAllPending(tasks: map<string, Task>, order: seq<string>)
    requires forall k | k in order :: k in tasks && tasks[k].status == Pending
    ensures PendingIds(tasks, order) == order
  {
    FilterAll(order, (k: string) => k in tasks && tasks[k].status == Pending);
  }

  /** With at least as many idle agents as pending tasks, every pending task
      is handed out. */
  lemma AutoAssignmentAll(tasks: map<string, Task>, order: seq<string>, idleCount: nat)
    requires idleCount >= |PendingIds(tasks, order)|
    ensures AutoAssignment(tasks, order, idleCount) == ByPriority(tasks, order)
  {
    var sorted := ByPriority(tasks, order);
    assert sorted[..|sorted|] == sorted;
  }

  /** The seeding order lists the five agents once each. */
  lemma AgentIdsListed(now: nat)
    ensures Lists(AgentIds, SeedAgents(now).Keys)
  {
    assert NoRepeats(AgentIds);
    NoRepeatsDistinct(AgentIds);
    SeedAgentsValid(now);
  }

  /** The pending ids are listed once each and are exactly the pending tasks. */
  lemma PendingIdsSpec(tasks: map<string, Task>, order: seq<string>)
    requires TasksIndexed(tasks, order)
    ensures Distinct(PendingIds(tasks, order))
    ensures forall k :: k in PendingIds(tasks, order) <==> k in tasks && tasks[k].status == Pending
  {
    FilterMembers(order, (k: string) => k in tasks && tasks[k].status == Pending);
  }

  /** autoAssignTasks hands out min(#idle, #pending) distinct pending tasks,
      in non-decreasing priority number, and none of the pending tasks it
      leaves has a smaller priority number than one it hands out. */
  lemma AutoAssignmentSpec(tasks: map<string, Task>, order: seq<string>, idleCount: nat)
    requires TasksIndexed(tasks, order)
    ensures var c := AutoAssignment(tasks, order, idleCount);
      && |c| == Min(idleCount, |PendingIds(tasks, order)|)
      && Distinct(c)
      && (forall i | 0 <= i < |c| :: c[i] in tasks && tasks[c[i]].status == Pending)
      && (forall i, j | 0 <= i < j < |c| :: tasks[c[i]].priority <= tasks[c[j]].priority)
      && (forall i, k | 0 <= i < |c| && k in tasks && tasks[k].status == Pending && k !in c ::
            tasks[c[i]].priority <= tasks[k].priority)
  {
    AutoAssignmentPending(tasks, order, idleCount);
    AutoAssignmentOrdered(tasks, order, idleCount);
    AutoAssignmentSmallest(tasks, order, idleCount);
  }

  lemma AutoAssignmentPending(tasks: map<string, Task>, order: seq<string>, idleCount: nat)
    requires TasksIndexed(tasks, order)
    ensures var c := AutoAssignment(tasks, order, idleCount);
      && Distinct(c)
      && (forall i | 0 <= i < |c| :: c[i] in tasks && tasks[c[i]].status == Pending)
  {
    var pending := PendingIds(tasks, order);
    var sorted := ByPriority(tasks, order);
    var c := AutoAssignment(tasks, order, idleCount);
    PendingIdsSpec(tasks, order);
    DistinctPermutationPrefix(pending, sorted, |c|);
    forall i | 0 <= i < |c| ensures c[i] in tasks && tasks[c[i]].status == Pending {
      assert c[i] == sorted[i];
      assert sorted[i] in multiset(pending);
    }
  }

  lemma AutoAssignmentOrdered(tasks: map<string, Task>, order: seq<string>, idleCount: nat)
    requires TasksIndexed(tasks, order)
    ensures var c := AutoAssignment(tasks, order, idleCount);
      && (forall i | 0 <= i < |c| :: c[i] in tasks)
      && forall i, j | 0 <= i < j < |c| :: tasks[c[i]].priority <= tasks[c[j]].priority
  {
    var sorted := ByPriority(tasks, order);
    var c := AutoAssignment(tasks, order, idleCount);
    AutoAssignmentPending(tasks, order, idleCount);
    forall i, j | 0 <= i < j < |c| ensures tasks[c[i]].priority <= tasks[c[j]].priority {
      assert c[i] == sorted[i] && c[j] == sorted[j];
      assert PriorityOf(tasks)(sorted[i]) <= PriorityOf(tasks)(sorted[j]);
    }
  }

  lemma AutoAssignmentSmallest(tasks: map<string, Task>, order: seq<string>, idleCount: nat)
    requires TasksIndexed(tasks, order)
    ensures var c := AutoAssignment(tasks, order, idleCount);
      && (forall i | 0 <= i < |c| :: c[i] in tasks)
      && forall i, k | 0 <= i < |c| && k in tasks && tasks[k].status == Pending && k !in c ::
        tasks[c[i]].priority <= tasks[k].priority
  {
    var pending := PendingIds(tasks, order);
    var sorted := ByPriority(tasks, order);
    var c := AutoAssignment(tasks, order, idleCount);
    PendingIdsSpec(tasks, order);
    AutoAssignmentPending(tasks, order, idleCount);
    StableSort.SortedPrefixIsSmallest(pending, PriorityOf(tasks), |c|);
    forall i, k | 0 <= i < |c| && k in tasks && tasks[k].status == Pending && k !in c
      ensures tasks[c[i]].priority <= tasks[k].priority
    {
      assert k in pending;
      assert PriorityOf(tasks)(sorted[i]) <= PriorityOf(tasks)(k);
    }
  }

  /** Assignment keeps every agent's current task pointing back at that agent
      exactly when no other agent was holding the task; otherwise the previous
      holder is left with a task assigned to someone else. */
  lemma AssignConsistencyIff(tasks: map<string, Task>, agents: map<string, Agent>, taskId: string, agentId: string, now: nat)
    requires AgentsConsistent(tasks, agents)
    requires taskId in tasks && agentId in agents
    ensures AgentsConsistent(
              tasks[taskId := AssignedTask(tasks[taskId], agentId, now)],
              agents[agentId := BusyAgent(agents[agentId], taskId, now)])
            <==> HeldOnlyBy(agents, taskId, agentId)
  {
    var tasks' := tasks[taskId := AssignedTask(tasks[taskId], agentId, now)];
    var agents' := agents[agentId := BusyAgent(agents[agentId], taskId, now)];
    if !HeldOnlyBy(agents, taskId, agentId) {
      var a :| a in agents && a != agentId && agents[a].currentTaskId == Some(taskId);
      assert agents'[a].currentTaskId == Some(taskId);
      assert tasks'[taskId].assignee != Some(a);
    }
  }

  /** The part of the store that assignment changes. */
  datatype Board = Board(tasks: map<string, Task>, agents: map<string, Agent>, bins: map<string, Bin>)

  /** The guard of assignTaskToAgent: a known task and a known agent that is
      not busy (an agent in error passes). */
  predicate CanAssign(s: Board, taskId: string, agentId: string) {
    taskId in s.tasks && agentId in s.agents && s.agents[agentId].status != Busy
  }

  /** What assignTaskToAgent does to the store: nothing when refused;
      otherwise the task names the agent, the agent holds the task, and the
      task is moved into the assigned bin when that move is allowed. */
  function Assign(s: Board, taskId: string, agentId: string, now: nat): Board {
    if !CanAssign(s, taskId, agentId) then s
    else Board(
      s.tasks[taskId := AssignedTask(s.tasks[taskId], agentId, now)],
      s.agents[agentId := BusyAgent(s.agents[agentId], taskId, now)],
      TryMove(s.bins, s.tasks.Keys, taskId, AssignedBin))
  }

  /** `taskIds[i]` assigned to `agentIds[i]`, one pair after another. */
  function AssignPairs(s: Board, taskIds: seq<string>, agentIds: seq<string>, now: nat): Board
    requires |taskIds| == |agentIds|
  {
    if |taskIds| == 0 then s
    else
      var n := |taskIds| - 1;
      Assign(AssignPairs(s, taskIds[..n], agentIds[..n], now), taskIds[n], agentIds[n], now)
  }

  /** One more pair assigned. */
  lemma AssignPairsStep(s: Board, taskIds: seq<string>, agentIds: seq<string>, i: nat, now: nat)
    requires i < |taskIds| && i < |agentIds|
    ensures taskIds[..i + 1] == taskIds[..i] + [taskIds[i]]
    ensures AssignPairs(s, taskIds[..i + 1], agentIds[..i + 1], now)
         == Assign(AssignPairs(s, taskIds[..i], agentIds[..i], now), taskIds[i], agentIds[i], now)
  {
    assert taskIds[..i + 1][..i] == taskIds[..i];
    assert agentIds[..i + 1][..i] == agentIds[..i];
  }

  /** Assignments keep the known tasks and agents, and leave every task and
      every agent outside the pairs as it was. */
  lemma {:induction false} AssignPairsFrame(s: Board, taskIds: seq<string>, agentIds: seq<string>, now: nat)
    requires |taskIds| == |agentIds|
    ensures var r := AssignPairs(s, taskIds, agentIds, now);
      && r.tasks.Keys == s.tasks.Keys && r.agents.Keys == s.agents.Keys
      && (forall k | k in s.tasks && k !in taskIds :: r.tasks[k] == s.tasks[k])
      && (forall a | a in s.agents && a !in agentIds :: r.agents[a] == s.agents[a])
  {
    if |taskIds| > 0 {
      var n := |taskIds| - 1;
      AssignPairsFrame(s, taskIds[..n], agentIds[..n], now);
      PrefixStep(taskIds, n);
      PrefixStep(agentIds, n);
      assert taskIds[..n + 1] == taskIds && agentIds[..n + 1] == agentIds;
    }
  }

  /** When the tasks are known and pairwise different and the agents are
      known, not busy and pairwise different, every assignment of the pairs
      goes through: the i-th task names the i-th agent, the i-th agent holds
      the i-th task, and the tasks are moved into the assigned bin in turn. */
  lemma {:induction false} AssignPairsEffect(s: Board, taskIds: seq<string>, agentIds: seq<string>, now: nat)
    requires |taskIds| == |agentIds|
    requires NoRepeats(taskIds) && NoRepeats(agentIds)
    requires forall i | 0 <= i < |taskIds| :: taskIds[i] in s.tasks
    requires forall i | 0 <= i < |agentIds| :: agentIds[i] in s.agents && s.agents[agentIds[i]].status != Busy
    ensures var r := AssignPairs(s, taskIds, agentIds, now);
      && (forall i | 0 <= i < |taskIds| ::
            taskIds[i] in r.tasks && r.tasks[taskIds[i]] == AssignedTask(s.tasks[taskIds[i]], agentIds[i], now))
      && (forall i | 0 <= i < |agentIds| ::
            agentIds[i] in r.agents && r.agents[agentIds[i]] == BusyAgent(s.agents[agentIds[i]], taskIds[i], now))
      && r.bins == MoveEach(s.bins, s.tasks.Keys, taskIds, AssignedBin)
  {
    if |taskIds| > 0 {
      var n := |taskIds| - 1;
      var ts, ags := taskIds[..n], agentIds[..n];
      var pre := AssignPairs(s, ts, ags, now);
      AssignPairsEffect(s, ts, ags, now);
      AssignPairsFrame(s, ts, ags, now);
      var t, a := taskIds[n], agentIds[n];
      assert t !in ts && a !in ags;
      assert CanAssign(pre, t, a);
      var r := Assign(pre, t, a, now);
      assert AssignPairs(s, taskIds, agentIds, now) == r;
      forall i | 0 <= i < n
        ensures r.tasks[taskIds[i]] == pre.tasks[ts[i]]
        ensures r.agents[agentIds[i]] == pre.agents[ags[i]]
      {
        assert taskIds[i] == ts[i] != t;
        assert agentIds[i] == ags[i] != a;
      }
    }
  }

  /** autoAssignTasks pairs the i-th chosen task with the i-th idle agent:
      every pair is assigned, the chosen tasks are moved into the assigned bin
      in turn, and every other task and agent is left as it was. */
  lemma AutoAssignEffect(tasks: map<string, Task>, taskOrder: seq<string>, agents: map<string, Agent>,
                         agentOrder: seq<string>, bins: map<string, Bin>, now: nat)
    requires TasksIndexed(tasks, taskOrder) && Lists(agentOrder, agents.Keys)
    ensures var idle := IdleAgents(agents, agentOrder);
      var c := AutoAssignment(tasks, taskOrder, |idle|);
      && |c| <= |idle|
      && (forall i | 0 <= i < |c| :: c[i] in tasks && idle[i] in agents && agents[idle[i]].status == Idle)
      && var r := AssignPairs(Board(tasks, agents, bins), c, idle[..|c|], now);
      && (forall i | 0 <= i < |c| ::
            && c[i] in r.tasks && r.tasks[c[i]] == AssignedTask(tasks[c[i]], idle[i], now)
            && idle[i] in r.agents && r.agents[idle[i]] == BusyAgent(agents[idle[i]], c[i], now))
      && (forall k | k in tasks && k !in c :: k in r.tasks && r.tasks[k] == tasks[k])
      && (forall a | a in agents && a !in idle[..|c|] :: a in r.agents && r.agents[a] == agents[a])
      && r.bins == MoveEach(bins, tasks.Keys, c, AssignedBin)
  {
    var idle := IdleAgents(agents, agentOrder);
    var c := AutoAssignment(tasks, taskOrder, |idle|);
    var holders := idle[..|c|];
    IdleAgentsSpec(agents, agentOrder);
    AutoAssignmentPending(tasks, taskOrder, |idle|);
    DistinctNoRepeats(c);
    DistinctNoRepeats(idle);
    forall i | 0 <= i < |c| ensures idle[i] in agents && agents[idle[i]].status == Idle {
      assert idle[i] in idle;
    }
    var s := Board(tasks, agents, bins);
    AssignPairsEffect(s, c, holders, now);
    AssignPairsFrame(s, c, holders, now);
  }

  /** With room in the assigned bin for every task handed out, autoAssignTasks
      leaves the assigned bin ending with exactly those tasks, in the order
      they were handed out, each listed there once and in no other bin. */
  lemma AutoAssignPlacement(tasks: map<string, Task>, taskOrder: seq<string>, agents: map<string, Agent>,
                            agentOrder: seq<string>, bins: map<string, Bin>, now: nat)
    requires TasksIndexed(tasks, taskOrder) && Lists(agentOrder, agents.Keys) && AssignedBin in bins
    requires |bins[AssignedBin].taskIds| + |AutoAssignment(tasks, taskOrder, |IdleAgents(agents, agentOrder)|)|
             <= bins[AssignedBin].maxCapacity
    ensures var idle := IdleAgents(agents, agentOrder);
      var c := AutoAssignment(tasks, taskOrder, |idle|);
      && |c| <= |idle|
      && PlacedLast(bins, AssignPairs(Board(tasks, agents, bins), c, idle[..|c|], now).bins, c, AssignedBin)
  {
    var idle := IdleAgents(agents, agentOrder);
    var c := AutoAssignment(tasks, taskOrder, |idle|);
    AutoAssignEffect(tasks, taskOrder, agents, agentOrder, bins, now);
    AutoAssignmentPending(tasks, taskOrder, |idle|);
    DistinctNoRepeats(c);
    MoveEachPlacement(bins, tasks.Keys, c, AssignedBin);
  }

  /** The assigned bin lists exactly `c`, and no other bin lists any of them. */
  predicate ListedOnlyAssigned(bins: map<string, Bin>, c: seq<string>) {
    && AssignedBin in bins && bins[AssignedBin].taskIds == c
    && forall t, b | t in c && b in bins && b != AssignedBin :: t !in bins[b].taskIds
  }

  /** Each agent of `holders` holds the task of `c` at the same position and is
      that task's assignee. */
  predicate Holding(s: Board, c: seq<string>, holders: seq<string>)
    requires |c| == |holders|
  {
    forall i | 0 <= i < |c| ::
      && holders[i] in s.agents && s.agents[holders[i]].currentTaskId == Some(c[i])
      && c[i] in s.tasks && s.tasks[c[i]].assignee == Some(holders[i])
  }

  /** After the tasks `c` are handed to the agents `holders` pair by pair, the
      assigned bin lists exactly `c`, no other bin lists any of them, and
      each holder holds its task and is that task's assignee. */
  ghost predicate HandedOut(s: Board, c: seq<string>, holders: seq<string>, now: nat)
    requires |c| == |holders|
  {
    var r := AssignPairs(s, c, holders, now);
    ListedOnlyAssigned(r.bins, c) && Holding(r, c, holders)
  }

  /** autoAssignTasks into an empty assigned bin with room for every task
      handed out leaves the bin listing exactly those tasks, in the order they
      were handed out. */
  lemma AutoAssignIntoEmptyBin(tasks: map<string, Task>, taskOrder: seq<string>, agents: map<string, Agent>,
                               agentOrder: seq<string>, bins: map<string, Bin>, now: nat)
    requires TasksIndexed(tasks, taskOrder) && Lists(agentOrder, agents.Keys)
    requires AssignedBin in bins && bins[AssignedBin].taskIds == []
    requires |AutoAssignment(tasks, taskOrder, |IdleAgents(agents, agentOrder)|)| <= bins[AssignedBin].maxCapacity
    ensures var idle := IdleAgents(agents, agentOrder);
      var c := AutoAssignment(tasks, taskOrder, |idle|);
      && |c| <= |idle|
      && HandedOut(Board(tasks, agents, bins), c, idle[..|c|], now)
  {
    AutoAssignListedOnly(tasks, taskOrder, agents, agentOrder, bins, now);
    AutoAssignHolding(tasks, taskOrder, agents, agentOrder, bins, now);
  }

  lemma AutoAssignListedOnly(tasks: map<string, Task>, taskOrder: seq<string>, agents: map<string, Agent>,
                             agentOrder: seq<string>, bins: map<string, Bin>, now: nat)
    requires TasksIndexed(tasks, taskOrder) && Lists(agentOrder, agents.Keys)
    requires AssignedBin in bins && bins[AssignedBin].taskIds == []
    requires |AutoAssignment(tasks, taskOrder, |IdleAgents(agents, agentOrder)|)| <= bins[AssignedBin].maxCapacity
    ensures var idle := IdleAgents(agents, agentOrder);
      var c := AutoAssignment(tasks, taskOrder, |idle|);
      && |c| <= |idle|
      && ListedOnlyAssigned(AssignPairs(Board(tasks, agents, bins), c, idle[..|c|], now).bins, c)
  {
    var idle := IdleAgents(agents, agentOrder);
    var c := AutoAssignment(tasks, taskOrder, |idle|);
    AutoAssignPlacement(tasks, taskOrder, agents, agentOrder, bins, now);
    var r := AssignPairs(Board(tasks, agents, bins), c, idle[..|c|], now);
    EndsWithOnceAll(r.bins[AssignedBin].taskIds, c);
  }

  lemma AutoAssignHolding(tasks: map<string, Task>, taskOrder: seq<string>, agents: map<string, Agent>,
                          agentOrder: seq<string>, bins: map<string, Bin>, now: nat)
    requires TasksIndexed(tasks, taskOrder) && Lists(agentOrder, agents.Keys)
    ensures var idle := IdleAgents(agents, agentOrder);
      var c := AutoAssignment(tasks, taskOrder, |idle|);
      && |c| <= |idle|
      && Holding(AssignPairs(Board(tasks, agents, bins), c, idle[..|c|], now), c, idle[..|c|])
  {
    AutoAssignEffect(tasks, taskOrder, agents, agentOrder, bins, now);
  }
}
