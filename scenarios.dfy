/** Small concrete cases that show the store's behaviour and its quirks. */
module Scenarios {
  import opened Types
  import opened ArrayOps
  import opened Bins
  import opened Assignment
  import opened Activity
  import opened Store
  import StableSort

  /** A fresh store lists a newly created task in the inbox, as a pending
      task with no assignee. */
  method CreateIntoInbox(now: nat) returns (listed: bool, pending: bool)
    ensures listed && pending
  {
    var store := new TaskStore(now);
    var t := store.CreateTask("a", "Write report", "", Pending, 1, None, now);
    listed := Inbox in store.bins && "a" in store.bins[Inbox].taskIds;
    pending := store.GetTask("a") == Some(t) && t.status == Pending && t.assignee == None;
  }

  /** Two logged uses of a skill are 40% progress, five are 100%, and more
      stay at 100%. */
  lemma ProgressExamples()
    ensures Progress(0) == 0 && Progress(2) == 40 && Progress(5) == 100 && Progress(8) == 100
  {
  }

  /** Reassigning a task that "main" is working on to the idle "dev" agent is
      accepted, and leaves "main" busy with a task now assigned to "dev". */
  lemma ReassignLeavesStaleAgent()
    ensures var tasks := map["t" := Task("t", "Deploy", "", Assigned, 1, Some("main"), 0, 0, None)];
      var agents := map["main" := Agent("main", "Main", Busy, 0, Some("t"), []),
                        "dev" := Agent("dev", "Dev", Idle, 0, None, [])];
      var after := Assign(Board(tasks, agents, map[]), "t", "dev", 1);
      && AgentsConsistent(tasks, agents)
      && CanAssign(Board(tasks, agents, map[]), "t", "dev")
      && after.agents["main"].currentTaskId == Some("t")
      && after.tasks["t"].assignee == Some("dev")
      && !AgentsConsistent(after.tasks, after.agents)
  {
    var tasks := map["t" := Task("t", "Deploy", "", Assigned, 1, Some("main"), 0, 0, None)];
    var agents := map["main" := Agent("main", "Main", Busy, 0, Some("t"), []),
                      "dev" := Agent("dev", "Dev", Idle, 0, None, [])];
    AssignConsistencyIff(tasks, agents, "t", "dev", 1);
    assert agents["main"].currentTaskId == Some("t");
  }

  /** Three pending tasks "a", "b", "c" of priorities 3, 1 and 2. */
  function ThreeTasks(): map<string, Task> {
    map[
      "a" := Task("a", "A", "", Pending, 3, None, 0, 0, None),
      "b" := Task("b", "B", "", Pending, 1, None, 0, 0, None),
      "c" := Task("c", "C", "", Pending, 2, None, 0, 0, None)]
  }

  /** Created in the order "a", "b", "c", the three pending tasks are handed
      out as the priority-1, priority-2, priority-3 task ("b", "c", "a") when
      at least three agents are idle. */
  lemma AutoAssignByPriority(idleCount: nat)
    requires idleCount >= 3
    ensures ByPriority(ThreeTasks(), ["a", "b", "c"]) == ["b", "c", "a"]
    ensures AutoAssignment(ThreeTasks(), ["a", "b", "c"], idleCount) == ["b", "c", "a"]
  {
    ThreeTasksPending();
    ThreeTasksSorted();
    AutoAssignmentAll(ThreeTasks(), ["a", "b", "c"], idleCount);
  }

  lemma ThreeTasksPending()
    ensures PendingIds(ThreeTasks(), ["a", "b", "c"]) == ["a", "b", "c"]
  {
    PendingIdsAllPending(ThreeTasks(), ["a", "b", "c"]);
  }

  lemma ThreeTasksSorted()
    ensures StableSort.SortBy(["a", "b", "c"], PriorityOf(ThreeTasks())) == ["b", "c", "a"]
  {
    var key := PriorityOf(ThreeTasks());
    assert key("b") < key("c") < key("a");
    SortThree("a", "b", "c", key);
  }

  /** Stably sorting three elements whose keys rank second, first, third. */
  lemma SortThree<T>(x: T, y: T, z: T, key: T -> int)
    requires key(y) < key(z) < key(x)
    ensures StableSort.SortBy([x, y, z], key) == [y, z, x]
  {
    assert [x, y, z][1..] == [y, z] && [y, z][1..] == [z] && [z][1..] == [];
    assert StableSort.SortBy([z], key) == [z];
    assert StableSort.SortBy([y, z], key) == [y, z];
    assert StableSort.Insert(x, [], key) == [x];
    assert StableSort.Insert(x, [z], key) == [z, x];
    assert StableSort.Insert(x, [y, z], key) == [y, z, x];
  }

  /** With every seeded agent idle, the idle agents are all five in seeding
      order, the first three being "main", "dev" and "learn". */
  lemma SeedIdleAgents(now: nat)
    ensures IdleAgents(SeedAgents(now), AgentIds) == AgentIds
    ensures AgentIds[..3] == ["main", "dev", "learn"]
  {
    SeedAgentsValid(now);
    AgentIdsListed(now);
    IdleAgentsAllIdle(SeedAgents(now), AgentIds);
  }

  /** On a freshly seeded team, autoAssignTasks hands "b", "c" and "a" to
      "main", "dev" and "learn", and an empty assigned bin ends up listing
      them in that order, while no other bin lists any of them. */
  lemma SeededAutoAssignment(tasks: map<string, Task>, order: seq<string>, agents: map<string, Agent>,
                             agentOrder: seq<string>, bins: map<string, Bin>, now: nat)
    requires tasks == ThreeTasks() && order == ["a", "b", "c"]
    requires agents == SeedAgents(now) && agentOrder == AgentIds
    requires AssignedBin in bins && bins[AssignedBin].taskIds == [] && bins[AssignedBin].maxCapacity >= 3
    ensures var idle := IdleAgents(agents, agentOrder);
      var c := AutoAssignment(tasks, order, |idle|);
      && c == ["b", "c", "a"]
      && |idle| >= 3 && idle[..3] == ["main", "dev", "learn"]
      && HandedOut(Board(tasks, agents, bins), c, idle[..3], now)
  {
    SeededChoice(tasks, order, agents, agentOrder, now);
    AutoAssignIntoEmptyBin(tasks, order, agents, agentOrder, bins, now);
  }

  lemma SeededChoice(tasks: map<string, Task>, order: seq<string>, agents: map<string, Agent>,
                     agentOrder: seq<string>, now: nat)
    requires tasks == ThreeTasks() && order == ["a", "b", "c"]
    requires agents == SeedAgents(now) && agentOrder == AgentIds
    ensures TasksIndexed(tasks, order) && Lists(agentOrder, agents.Keys)
    ensures var idle := IdleAgents(agents, agentOrder);
      && AutoAssignment(tasks, order, |idle|) == ["b", "c", "a"]
      && |idle| >= 3 && idle[..3] == ["main", "dev", "learn"]
  {
    SeedIdleAgents(now);
    AutoAssignByPriority(|AgentIds|);
    ThreeTasksIndexed();
    AgentIdsListed(now);
  }

  lemma ThreeTasksIndexed()
    ensures TasksIndexed(ThreeTasks(), ["a", "b", "c"])
  {
    assert NoRepeats(["a", "b", "c"]);
    NoRepeatsDistinct(["a", "b", "c"]);
  }

  /** Two logged uses of "dev-flow" show as 40% progress on it. */
  lemma TwoDevFlowUses(l1: SkillLog, l2: SkillLog)
    requires l1.skill == "dev-flow" && l2.skill == "dev-flow"
    ensures StatsOf([l1, l2], []).skillUsage["dev-flow"] == 2
    ensures StatsOf([l1, l2], []).phase4Progress["dev-flow"] == 40
  {
    var logs := [l1, l2];
    StatsSpec(logs, []);
    assert SkillLogIndices(logs, "dev-flow") == {0, 1};
    assert "dev-flow" in StatsOf(logs, []).skillUsage by {
      assert logs[0].skill == "dev-flow";
    }
  }

  /** A full bin refuses every move into it, even of a task it already
      lists: the high-priority bin, seeded with room for ten, refuses an
      eleventh. */
  lemma FullBinRefusesMove(bins: map<string, Bin>, taskKeys: set<string>, t: string)
    requires HighPriority in bins && bins[HighPriority].maxCapacity == SeedBins()[HighPriority].maxCapacity
    requires |bins[HighPriority].taskIds| == 10
    ensures !MoveAllowed(bins, taskKeys, t, HighPriority)
    ensures TryMove(bins, taskKeys, t, HighPriority) == bins
  {
  }

  /** An agent in error can be assigned, and when the assigned bin is full
      the assignment still goes through, the task staying where it was
      listed. */
  lemma AssignDespiteErrorAndFullBin(s: Board, t: string, a: string, now: nat)
    requires t in s.tasks && a in s.agents && s.agents[a].status == Error
    requires !HasRoom(s.bins, AssignedBin)
    ensures CanAssign(s, t, a)
    ensures var r := Assign(s, t, a, now);
      && r.tasks[t].status == Assigned && r.tasks[t].assignee == Some(a)
      && r.agents[a].status == Busy && r.agents[a].currentTaskId == Some(t)
      && r.bins == s.bins
  {
  }
}
