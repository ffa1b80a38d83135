/** The entities of the task dashboard (lib/types.ts) as values.
    Dates become abstract `nat` timestamps; `T | null` becomes `Option<T>`. */
module Types {

  datatype Option<+T> = None | Some(value: T)

  function Min(a: int, b: int): int { if a <= b then a else b }

  datatype TaskStatus = Pending | Assigned | InProgress | Completed | Failed

  datatype AgentStatus = Idle | Busy | Error

  /** A work item. `priority` is 1 (highest) .. 5 by convention only: the store
      itself never checks it. The free-form `metadata` record is not modelled. */
  datatype Task = Task(
    id: string,
    title: string,
    description: string,
    status: TaskStatus,
    priority: int,
    assignee: Option<string>,
    createdAt: nat,
    updatedAt: nat,
    completedAt: Option<nat>)

  /** One of the fixed worker identities. `currentTaskId` is a lookup-only
      back reference to a task id. */
  datatype Agent = Agent(
    id: string,
    name: string,
    status: AgentStatus,
    lastHeartbeat: nat,
    currentTaskId: Option<string>,
    capabilities: seq<string>)

  /** A capacity-bounded, ordered queue of task ids. `priorityThreshold` is
      descriptive only. */
  datatype Bin = Bin(
    id: string,
    name: string,
    description: string,
    taskIds: seq<string>,
    maxCapacity: nat,
    priorityThreshold: int)

  datatype SkillLog = SkillLog(
    id: string,
    skill: string,
    trigger: string,
    success: bool,
    notes: Option<string>,
    timestamp: nat)

  datatype AgentLog = AgentLog(
    id: string,
    agent: string,
    trigger: string,
    durationSeconds: Option<int>,
    success: bool,
    notes: Option<string>,
    timestamp: nat)

  /** The fields a `Partial<Task>` update may replace (all but the identity and
      the creation time); `None` leaves a field as it was. */
  datatype TaskUpdate = TaskUpdate(
    title: Option<string>,
    description: Option<string>,
    status: Option<TaskStatus>,
    priority: Option<int>,
    assignee: Option<Option<string>>,
    completedAt: Option<Option<nat>>)

  /** The fields a `Partial<Agent>` update may replace (all but the identity). */
  datatype AgentUpdate = AgentUpdate(
    name: Option<string>,
    status: Option<AgentStatus>,
    lastHeartbeat: Option<nat>,
    currentTaskId: Option<Option<string>>,
    capabilities: Option<seq<string>>)

  function Pick<T>(update: Option<T>, current: T): T {
    match update
    case Some(v) => v
    case None => current
  }

  /** `{ ...task, ...updates, updatedAt: now }` */
  function ApplyTaskUpdate(t: Task, u: TaskUpdate, now: nat): Task {
    t.(title := Pick(u.title, t.title),
       description := Pick(u.description, t.description),
       status := Pick(u.status, t.status),
       priority := Pick(u.priority, t.priority),
       assignee := Pick(u.assignee, t.assignee),
       completedAt := Pick(u.completedAt, t.completedAt),
       updatedAt := now)
  }

  /** `{ ...agent, ...updates }`: no timestamp is refreshed. */
  function ApplyAgentUpdate(a: Agent, u: AgentUpdate): Agent {
    a.(name := Pick(u.name, a.name),
       status := Pick(u.status, a.status),
       lastHeartbeat := Pick(u.lastHeartbeat, a.lastHeartbeat),
       currentTaskId := Pick(u.currentTaskId, a.currentTaskId),
       capabilities := Pick(u.capabilities, a.capabilities))
  }
}
