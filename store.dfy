/** The in-memory `TaskStore` of lib/store.ts. The five JavaScript `Map`s
    become fields that the methods reassign, each `Map` with the order in
    which it iterates its keys (insertion order): tasks, the five agents, the
    six bins, and the two logs in insertion order. Fresh ids and the current
    time are parameters. */
module Store {
  import opened Types
  import opened ArrayOps
  import opened Bins
  import opened Assignment
  import opened Activity

  /** The ids of `logs` are pairwise different (they are the keys of a `Map`). */
  ghost predicate SkillLogIdsDistinct(logs: seq<SkillLog>) {
    forall i, j | 0 <= i < j < |logs| :: logs[i].id != logs[j].id
  }

  ghost predicate AgentLogIdsDistinct(logs: seq<AgentLog>) {
    forall i, j | 0 <= i < j < |logs| :: logs[i].id != logs[j].id
  }

  /** The invariant of the store's state: tasks stored under their ids and
      listed once each in insertion order; the five agents and the six bins,
      each listed once in seeding order; no bin over capacity, every listed id
      a known task, listed in at most one bin; log ids pairwise different. */
  ghost predicate StoreInv(tasks: map<string, Task>, taskOrder: seq<string>,
                           agents: map<string, Agent>, agentOrder: seq<string>,
                           bins: map<string, Bin>, binOrder: seq<string>,
                           skillLogs: seq<SkillLog>, agentLogs: seq<AgentLog>) {
    && TasksIndexed(tasks, taskOrder)
    && AgentsValid(agents) && Lists(agentOrder, agents.Keys)
    && BinsValid(bins, tasks.Keys) && Lists(binOrder, bins.Keys)
    && SkillLogIdsDistinct(skillLogs)
    && AgentLogIdsDistinct(agentLogs)
  }

  /** The seeded store satisfies the invariant. */
  lemma SeedKeepsInv(now: nat)
    ensures StoreInv(map[], [], SeedAgents(now), AgentIds, SeedBins(), BinIds, [], [])
  {
    SeedAgentsValid(now);
    AgentIdsListed(now);
    var noTasks: map<string, Task> := map[];
    SeedBinsValid(noTasks.Keys);
    BinIdsListed();
  }

  /** Creating a task under a fresh id keeps the invariant. */
  lemma CreateKeepsInv(tasks: map<string, Task>, taskOrder: seq<string>,
                       agents: map<string, Agent>, agentOrder: seq<string>,
                       bins: map<string, Bin>, binOrder: seq<string>,
                       skillLogs: seq<SkillLog>, agentLogs: seq<AgentLog>, t: Task)
    requires StoreInv(tasks, taskOrder, agents, agentOrder, bins, binOrder, skillLogs, agentLogs)
    requires t.id !in tasks
    ensures StoreInv(tasks[t.id := t], taskOrder + [t.id], agents, agentOrder,
                     AddToInbox(bins, t.id), binOrder, skillLogs, agentLogs)
  {
    DistinctAppend(taskOrder, t.id);
    AddToInboxPlacement(bins, tasks.Keys, t.id);
    assert tasks[t.id := t].Keys == tasks.Keys + {t.id};
  }

  /** Replacing a task by a record with the same id keeps the invariant. */
  lemma ReplaceTaskKeepsInv(tasks: map<string, Task>, taskOrder: seq<string>,
                            agents: map<string, Agent>, agentOrder: seq<string>,
                            bins: map<string, Bin>, binOrder: seq<string>,
                            skillLogs: seq<SkillLog>, agentLogs: seq<AgentLog>, t: Task)
    requires StoreInv(tasks, taskOrder, agents, agentOrder, bins, binOrder, skillLogs, agentLogs)
    requires t.id in tasks
    ensures StoreInv(tasks[t.id := t], taskOrder, agents, agentOrder, bins, binOrder, skillLogs, agentLogs)
  {
    assert tasks[t.id := t].Keys == tasks.Keys;
  }

  /** Deleting an id, known or not, keeps the invariant. */
  lemma DeleteKeepsInv(tasks: map<string, Task>, taskOrder: seq<string>,
                       agents: map<string, Agent>, agentOrder: seq<string>,
                       bins: map<string, Bin>, binOrder: seq<string>,
                       skillLogs: seq<SkillLog>, agentLogs: seq<AgentLog>, id: string)
    requires StoreInv(tasks, taskOrder, agents, agentOrder, bins, binOrder, skillLogs, agentLogs)
    ensures StoreInv(tasks - {id}, Without(taskOrder, id), agents, agentOrder,
                     Detach(bins, id), binOrder, skillLogs, agentLogs)
  {
    DetachKeepsValid(bins, tasks.Keys, id);
    TasksIndexedWithout(tasks, taskOrder, id);
  }

  /** Replacing an agent by a record with the same id keeps the invariant. */
  lemma ReplaceAgentKeepsInv(tasks: map<string, Task>, taskOrder: seq<string>,
                             agents: map<string, Agent>, agentOrder: seq<string>,
                             bins: map<string, Bin>, binOrder: seq<string>,
                             skillLogs: seq<SkillLog>, agentLogs: seq<AgentLog>, a: Agent)
    requires StoreInv(tasks, taskOrder, agents, agentOrder, bins, binOrder, skillLogs, agentLogs)
    requires a.id in agents
    ensures StoreInv(tasks, taskOrder, agents[a.id := a], agentOrder, bins, binOrder, skillLogs, agentLogs)
  {
    assert agents[a.id := a].Keys == agents.Keys;
  }

  /** Moving a task, whether the move is allowed or not, keeps the invariant. */
  lemma MoveKeepsInv(tasks: map<string, Task>, taskOrder: seq<string>,
                     agents: map<string, Agent>, agentOrder: seq<string>,
                     bins: map<string, Bin>, binOrder: seq<string>,
                     skillLogs: seq<SkillLog>, agentLogs: seq<AgentLog>, taskId: string, binId: string)
    requires StoreInv(tasks, taskOrder, agents, agentOrder, bins, binOrder, skillLogs, agentLogs)
    ensures StoreInv(tasks, taskOrder, agents, agentOrder,
                     TryMove(bins, tasks.Keys, taskId, binId), binOrder, skillLogs, agentLogs)
  {
    MoveKeepsValid(bins, tasks.Keys, taskId, binId);
  }

  /** Appending a log under a fresh id keeps the invariant. */
  lemma SkillLogKeepsInv(tasks: map<string, Task>, taskOrder: seq<string>,
                         agents: map<string, Agent>, agentOrder: seq<string>,
                         bins: map<string, Bin>, binOrder: seq<string>,
                         skillLogs: seq<SkillLog>, agentLogs: seq<AgentLog>, log: SkillLog)
    requires StoreInv(tasks, taskOrder, agents, agentOrder, bins, binOrder, skillLogs, agentLogs)
    requires forall l | l in skillLogs :: l.id != log.id
    ensures StoreInv(tasks, taskOrder, agents, agentOrder, bins, binOrder, skillLogs + [log], agentLogs)
  {
    var logs := skillLogs + [log];
    forall i, j | 0 <= i < j < |logs| ensures logs[i].id != logs[j].id {
      if j == |skillLogs| {
        assert logs[i] in skillLogs;
      }
    }
  }

  lemma AgentLogKeepsInv(tasks: map<string, Task>, taskOrder: seq<string>,
                         agents: map<string, Agent>, agentOrder: seq<string>,
                         bins: map<string, Bin>, binOrder: seq<string>,
                         skillLogs: seq<SkillLog>, agentLogs: seq<AgentLog>, log: AgentLog)
    requires StoreInv(tasks, taskOrder, agents, agentOrder, bins, binOrder, skillLogs, agentLogs)
    requires forall l | l in agentLogs :: l.id != log.id
    ensures StoreInv(tasks, taskOrder, agents, agentOrder, bins, binOrder, skillLogs, agentLogs + [log])
  {
    var logs := agentLogs + [log];
    forall i, j | 0 <= i < j < |logs| ensures logs[i].id != logs[j].id {
      if j == |agentLogs| {
        assert logs[i] in agentLogs;
      }
    }
  }

  /** One bin of the scan: `const index = ids.indexOf(taskId);
      if (index > -1) ids.splice(index, 1);` Since the id occurs at most once,
      this drops every occurrence. */
  method SpliceOut(ids: seq<string>, taskId: string) returns (r: seq<string>)
    requires Distinct(ids)
    ensures r == Without(ids, taskId)
  {
    CountPositive(ids, taskId);
    RemoveFirstOfUnique(ids, taskId);
    r := ids;
    var index := IndexOf(ids, taskId);
    if index > -1 {
      r := ids[..index] + ids[index + 1..];
    }
    assert r == RemoveFirst(ids, taskId);
  }

  /** The `bins.forEach` scan of deleteTask and moveTaskToBin: each bin, in
      iteration order `order`, loses the id. */
  method DetachScan(bins: map<string, Bin>, order: seq<string>, taskId: string) returns (r: map<string, Bin>)
    requires Lists(order, bins.Keys)
    requires forall b | b in bins :: Distinct(bins[b].taskIds)
    ensures r == Detach(bins, taskId)
  {
    r := bins;
    for i := 0 to |order|
      invariant r == PartlyDetached(bins, taskId, order[..i])
    {
      assert order[i] in order;
      DistinctPrefixExcludes(order, i);
      PartlyDetachedStep(bins, taskId, order, i);
      var bin := r[order[i]];
      var ids := SpliceOut(bin.taskIds, taskId);
      r := r[order[i] := bin.(taskIds := ids)];
    }
    assert order[..|order|] == order;
    PartlyDetachedAll(bins, taskId, order);
  }

  class TaskStore {
    var tasks: map<string, Task>
    var taskOrder: seq<string>
    var agents: map<string, Agent>
    var agentOrder: seq<string>
    var bins: map<string, Bin>
    var binOrder: seq<string>
    var skillLogs: seq<SkillLog>
    var agentLogs: seq<AgentLog>

    /** The invariant every public operation keeps. */
    ghost predicate Valid()
      reads this
    {
      StoreInv(tasks, taskOrder, agents, agentOrder, bins, binOrder, skillLogs, agentLogs)
    }

    /** initializeDefaultData: the five idle agents and the six empty bins,
        each in seeding order. */
    constructor(now: nat)
      ensures Valid()
      ensures tasks == map[] && taskOrder == []
      ensures agents == SeedAgents(now) && agentOrder == AgentIds
      ensures bins == SeedBins() && binOrder == BinIds
      ensures skillLogs == [] && agentLogs == []
    {
      tasks := map[];
      taskOrder := [];
      agents := SeedAgents(now);
      agentOrder := AgentIds;
      bins := SeedBins();
      binOrder := BinIds;
      skillLogs := [];
      agentLogs := [];
      SeedKeepsInv(now);
    }

    /** getTasks: every task exactly once, in insertion order. */
    function GetTasks(): (r: seq<Task>)
      reads this
      requires Valid()
      ensures |r| == |tasks|
      ensures |r| == |taskOrder| && forall i | 0 <= i < |r| :: r[i].id == taskOrder[i]
      ensures forall i | 0 <= i < |r| :: r[i].id in tasks && tasks[r[i].id] == r[i]
      ensures forall i, j | 0 <= i < j < |r| :: r[i].id != r[j].id
    {
      ListsCardinality(taskOrder, tasks.Keys);
      DistinctNoRepeats(taskOrder);
      ValuesInOrder(tasks, taskOrder)
    }

    /** getTask */
    function GetTask(id: string): (r: Option<Task>)
      reads this
      requires Valid()
      ensures r.Some? <==> id in tasks
      ensures r.Some? ==> r.value.id == id && r.value == tasks[id]
    {
      if id in tasks then Some(tasks[id]) else None
    }

    /** getAgents: every agent exactly once, in seeding order. */
    function GetAgents(): (r: seq<Agent>)
      reads this
      requires Valid()
      ensures |r| == |agents|
      ensures |r| == |agentOrder| && forall i | 0 <= i < |r| :: r[i].id == agentOrder[i]
      ensures forall i | 0 <= i < |r| :: r[i].id in agents && agents[r[i].id] == r[i]
      ensures forall i, j | 0 <= i < j < |r| :: r[i].id != r[j].id
    {
      ListsCardinality(agentOrder, agents.Keys);
      DistinctNoRepeats(agentOrder);
      ValuesInOrder(agents, agentOrder)
    }

    /** getAgent */
    function GetAgent(id: string): (r: Option<Agent>)
      reads this
      requires Valid()
      ensures r.Some? <==> id in agents
      ensures r.Some? ==> r.value.id == id && r.value == agents[id]
    {
      if id in agents then Some(agents[id]) else None
    }

    /** getBins: every bin exactly once, in seeding order. */
    function GetBins(): (r: seq<Bin>)
      reads this
      requires Valid()
      ensures |r| == |bins|
      ensures |r| == |binOrder| && forall i | 0 <= i < |r| :: r[i].id == binOrder[i]
      ensures forall i | 0 <= i < |r| :: r[i].id in bins && bins[r[i].id] == r[i]
      ensures forall i, j | 0 <= i < j < |r| :: r[i].id != r[j].id
    {
      ListsCardinality(binOrder, bins.Keys);
      DistinctNoRepeats(binOrder);
      ValuesInOrder(bins, binOrder)
    }

    /** getBin */
    function GetBin(id: string): (r: Option<Bin>)
      reads this
      requires Valid()
      ensures r.Some? <==> id in bins
      ensures r.Some? ==> r.value.id == id && r.value == bins[id]
    {
      if id in bins then Some(bins[id]) else None
    }

    /** createTask with the fresh id `id` at time `now`: stores the record,
        and lists the id in the inbox when the inbox has room. */
    method CreateTask(id: string, title: string, description: string, status: TaskStatus,
                      priority: int, assignee: Option<string>, now: nat) returns (t: Task)
      requires Valid()
      requires id !in tasks
      modifies this
      ensures Valid()
      ensures t == Task(id, title, description, status, priority, assignee, now, now, None)
      ensures tasks == old(tasks)[id := t] && taskOrder == old(taskOrder) + [id]
      ensures bins == AddToInbox(old(bins), id)
      ensures agents == old(agents) && agentOrder == old(agentOrder) && binOrder == old(binOrder)
      ensures skillLogs == old(skillLogs) && agentLogs == old(agentLogs)
    {
      t := Task(id, title, description, status, priority, assignee, now, now, None);
      CreateKeepsInv(tasks, taskOrder, agents, agentOrder, bins, binOrder, skillLogs, agentLogs, t);
      tasks := tasks[id := t];
      taskOrder := taskOrder + [id];
      if Inbox in bins && |bins[Inbox].taskIds| < bins[Inbox].maxCapacity {
        var inbox := bins[Inbox];
        bins := bins[Inbox := inbox.(taskIds := inbox.taskIds + [id])];
      }
    }

    /** updateTask: replaces the given fields and stamps `updatedAt`. */
    method UpdateTask(id: string, u: TaskUpdate, now: nat) returns (r: Option<Task>)
      requires Valid()
      modifies this
      ensures Valid()
      ensures id in old(tasks) ==> r == Some(ApplyTaskUpdate(old(tasks)[id], u, now)) && tasks == old(tasks)[id := r.value]
      ensures id !in old(tasks) ==> r == None && tasks == old(tasks)
      ensures taskOrder == old(taskOrder) && bins == old(bins)
      ensures agents == old(agents) && agentOrder == old(agentOrder) && binOrder == old(binOrder)
      ensures skillLogs == old(skillLogs) && agentLogs == old(agentLogs)
    {
      if id !in tasks {
        return None;
      }
      var updated := ApplyTaskUpdate(tasks[id], u, now);
      ReplaceTaskKeepsInv(tasks, taskOrder, agents, agentOrder, bins, binOrder, skillLogs, agentLogs, updated);
      tasks := tasks[id := updated];
      r := Some(updated);
    }

    /** deleteTask: unlists the id from every bin, then drops the record;
        true exactly when there was one. */
    method DeleteTask(id: string) returns (existed: bool)
      requires Valid()
      modifies this
      ensures Valid()
      ensures existed == (id in old(tasks))
      ensures tasks == old(tasks) - {id} && taskOrder == Without(old(taskOrder), id)
      ensures bins == Detach(old(bins), id)
      ensures agents == old(agents) && agentOrder == old(agentOrder) && binOrder == old(binOrder)
      ensures skillLogs == old(skillLogs) && agentLogs == old(agentLogs)
    {
      DeleteKeepsInv(tasks, taskOrder, agents, agentOrder, bins, binOrder, skillLogs, agentLogs, id);
      bins := DetachScan(bins, binOrder, id);
      existed := id in tasks;
      tasks := tasks - {id};
      taskOrder := Without(taskOrder, id);
    }

    /** updateAgent: replaces the given fields; no timestamp is refreshed. */
    method UpdateAgent(id: string, u: AgentUpdate) returns (r: Option<Agent>)
      requires Valid()
      modifies this
      ensures Valid()
      ensures id in old(agents) ==> r == Some(ApplyAgentUpdate(old(agents)[id], u)) && agents == old(agents)[id := r.value]
      ensures id !in old(agents) ==> r == None && agents == old(agents)
      ensures tasks == old(tasks) && taskOrder == old(taskOrder) && bins == old(bins)
      ensures agentOrder == old(agentOrder) && binOrder == old(binOrder)
      ensures skillLogs == old(skillLogs) && agentLogs == old(agentLogs)
    {
      if id !in agents {
        return None;
      }
      var updated := ApplyAgentUpdate(agents[id], u);
      ReplaceAgentKeepsInv(tasks, taskOrder, agents, agentOrder, bins, binOrder, skillLogs, agentLogs, updated);
      agents := agents[id := updated];
      r := Some(updated);
    }

    /** moveTaskToBin: fails and changes nothing for an unknown task, an
        unknown bin or a full bin; otherwise unlists the id everywhere and
        appends it to the target. */
    method MoveTaskToBin(taskId: string, binId: string) returns (ok: bool)
      requires Valid()
      modifies this
      ensures Valid()
      ensures ok == MoveAllowed(old(bins), old(tasks).Keys, taskId, binId)
      ensures bins == TryMove(old(bins), old(tasks).Keys, taskId, binId)
      ensures tasks == old(tasks) && taskOrder == old(taskOrder)
      ensures agents == old(agents) && agentOrder == old(agentOrder) && binOrder == old(binOrder)
      ensures skillLogs == old(skillLogs) && agentLogs == old(agentLogs)
    {
      if taskId !in tasks || binId !in bins || |bins[binId].taskIds| >= bins[binId].maxCapacity {
        return false;
      }
      MoveKeepsInv(tasks, taskOrder, agents, agentOrder, bins, binOrder, skillLogs, agentLogs, taskId, binId);
      var scanned := DetachScan(bins, binOrder, taskId);
      bins := scanned[binId := scanned[binId].(taskIds := scanned[binId].taskIds + [taskId])];
      ok := true;
    }

    /** assignTaskToAgent: fails and changes nothing for an unknown task, an
        unknown agent or a busy agent (an agent in error and a task in any
        status are accepted); otherwise marks both and tries to move the task
        into the assigned bin, succeeding whether or not that move does. */
    method AssignTaskToAgent(taskId: string, agentId: string, now: nat) returns (ok: bool)
      requires Valid()
      modifies this
      ensures Valid()
      ensures ok == CanAssign(Board(old(tasks), old(agents), old(bins)), taskId, agentId)
      ensures Board(tasks, agents, bins) == Assign(Board(old(tasks), old(agents), old(bins)), taskId, agentId, now)
      ensures taskOrder == old(taskOrder) && agentOrder == old(agentOrder) && binOrder == old(binOrder)
      ensures skillLogs == old(skillLogs) && agentLogs == old(agentLogs)
    {
      if taskId !in tasks || agentId !in agents || agents[agentId].status == Busy {
        return false;
      }
      var task := AssignedTask(tasks[taskId], agentId, now);
      ReplaceTaskKeepsInv(tasks, taskOrder, agents, agentOrder, bins, binOrder, skillLogs, agentLogs, task);
      assert tasks[taskId := task].Keys == tasks.Keys;
      tasks := tasks[taskId := task];
      var agent := BusyAgent(agents[agentId], taskId, now);
      ReplaceAgentKeepsInv(tasks, taskOrder, agents, agentOrder, bins, binOrder, skillLogs, agentLogs, agent);
      agents := agents[agentId := agent];
      var moved := MoveTaskToBin(taskId, AssignedBin);
      ok := true;
    }

    /** autoAssignTasks: pairs the i-th idle agent with the i-th pending task
        by ascending priority number, for as many pairs as both lists allow;
        every one of those assignments succeeds. */
    method AutoAssignTasks(now: nat) returns (assignedTasks: seq<string>)
      requires Valid()
      modifies this
      ensures Valid()
      ensures assignedTasks == AutoAssignment(old(tasks), old(taskOrder), |IdleAgents(old(agents), old(agentOrder))|)
      ensures |assignedTasks| <= |IdleAgents(old(agents), old(agentOrder))|
      ensures Board(tasks, agents, bins) ==
        AssignPairs(Board(old(tasks), old(agents), old(bins)), assignedTasks,
                    IdleAgents(old(agents), old(agentOrder))[..|assignedTasks|], now)
      ensures taskOrder == old(taskOrder) && agentOrder == old(agentOrder) && binOrder == old(binOrder)
      ensures skillLogs == old(skillLogs) && agentLogs == old(agentLogs)
    {
      var idleAgents := IdleAgents(agents, agentOrder);
      var pendingTasks := ByPriority(tasks, taskOrder);
      var n := Min(|idleAgents|, |pendingTasks|);
      ghost var start := Board(tasks, agents, bins);
      AutoAssignEffect(tasks, taskOrder, agents, agentOrder, bins, now);
      AutoAssignmentPending(tasks, taskOrder, |idleAgents|);
      DistinctNoRepeats(idleAgents);
      assignedTasks := [];
      for i := 0 to n
        invariant Valid()
        invariant assignedTasks == pendingTasks[..i]
        invariant Board(tasks, agents, bins) == AssignPairs(start, pendingTasks[..i], idleAgents[..i], now)
        invariant taskOrder == old(taskOrder) && agentOrder == old(agentOrder) && binOrder == old(binOrder)
        invariant skillLogs == old(skillLogs) && agentLogs == old(agentLogs)
      {
        var agent := idleAgents[i];
        var task := pendingTasks[i];
        AssignPairsFrame(start, pendingTasks[..i], idleAgents[..i], now);
        AssignPairsStep(start, pendingTasks, idleAgents, i, now);
        assert agent !in idleAgents[..i];
        assert task == AutoAssignment(start.tasks, taskOrder, |idleAgents|)[i];
        assert CanAssign(Board(tasks, agents, bins), task, agent);
        var ok := AssignTaskToAgent(task, agent, now);
        if ok {
          assignedTasks := assignedTasks + [task];
        }
      }
    }

    /** createSkillLog with the fresh id `id` at time `now`. */
    method CreateSkillLog(id: string, skill: string, trigger: string, success: bool,
                          notes: Option<string>, now: nat) returns (log: SkillLog)
      requires Valid()
      requires forall l | l in skillLogs :: l.id != id
      modifies this
      ensures Valid()
      ensures log == SkillLog(id, skill, trigger, success, notes, now)
      ensures skillLogs == old(skillLogs) + [log]
      ensures tasks == old(tasks) && taskOrder == old(taskOrder) && bins == old(bins)
      ensures agents == old(agents) && agentOrder == old(agentOrder) && binOrder == old(binOrder)
      ensures agentLogs == old(agentLogs)
    {
      log := SkillLog(id, skill, trigger, success, notes, now);
      SkillLogKeepsInv(tasks, taskOrder, agents, agentOrder, bins, binOrder, skillLogs, agentLogs, log);
      skillLogs := skillLogs + [log];
    }

    /** createAgentLog with the fresh id `id` at time `now`. */
    method CreateAgentLog(id: string, agent: string, trigger: string, durationSeconds: Option<int>,
                          success: bool, notes: Option<string>, now: nat) returns (log: AgentLog)
      requires Valid()
      requires forall l | l in agentLogs :: l.id != id
      modifies this
      ensures Valid()
      ensures log == AgentLog(id, agent, trigger, durationSeconds, success, notes, now)
      ensures agentLogs == old(agentLogs) + [log]
      ensures tasks == old(tasks) && taskOrder == old(taskOrder) && bins == old(bins)
      ensures agents == old(agents) && agentOrder == old(agentOrder) && binOrder == old(binOrder)
      ensures skillLogs == old(skillLogs)
    {
      log := AgentLog(id, agent, trigger, durationSeconds, success, notes, now);
      AgentLogKeepsInv(tasks, taskOrder, agents, agentOrder, bins, binOrder, skillLogs, agentLogs, log);
      agentLogs := agentLogs + [log];
    }

    /** getSkillLogs: every skill log, newest first. */
    function GetSkillLogs(): (r: seq<SkillLog>)
      reads this
      ensures multiset(r) == multiset(skillLogs)
      ensures forall i, j | 0 <= i < j < |r| :: r[i].timestamp >= r[j].timestamp
    {
      NewestFirst(skillLogs, (l: SkillLog) => l.timestamp)
    }

    /** getAgentLogs: every agent log, newest first. */
    function GetAgentLogs(): (r: seq<AgentLog>)
      reads this
      ensures multiset(r) == multiset(agentLogs)
      ensures forall i, j | 0 <= i < j < |r| :: r[i].timestamp >= r[j].timestamp
    {
      NewestFirst(agentLogs, (l: AgentLog) => l.timestamp)
    }

    /** getActivityStats: counts per skill and per agent, then the progress
        of each tracked skill. */
    method GetActivityStats() returns (stats: ActivityStats)
      ensures stats == StatsOf(skillLogs, agentLogs)
    {
      var skillUsage := Tally(SkillNames(skillLogs));
      var agentActivity := Tally(AgentNames(agentLogs));
      var progress := FillProgress(skillUsage, TrackedSkills);
      TallyIsCounts(SkillNames(skillLogs), skillUsage);
      TallyIsCounts(AgentNames(agentLogs), agentActivity);
      stats := ActivityStats(skillUsage, agentActivity, progress);
    }

    /** getActivityTimeline: both logs merged, newest first, cut at `limit`. */
    function GetActivityTimeline(limit: int): (r: seq<LogEntry>)
      reads this
      ensures 0 <= limit ==> |r| == Min(limit, |skillLogs| + |agentLogs|)
      ensures multiset(r) <= multiset(AllEntries(skillLogs, agentLogs))
      ensures forall i, j | 0 <= i < j < |r| :: r[i].Timestamp() >= r[j].Timestamp()
    {
      TimelineSpec(skillLogs, agentLogs, limit);
      Timeline(skillLogs, agentLogs, limit)
    }

    /** getActivityTimeline() with no argument: the newest 50 entries. */
    function GetDefaultActivityTimeline(): (r: seq<LogEntry>)
      reads this
      ensures |r| == Min(50, |skillLogs| + |agentLogs|)
      ensures r == GetActivityTimeline(DefaultTimelineLimit)
    {
      GetActivityTimeline(DefaultTimelineLimit)
    }
  }
}
