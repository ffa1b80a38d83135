/** The activity log of lib/store.ts: skill-use and agent-run records, their
    per-name counts, the progress toward five uses of each tracked skill, and
    the combined newest-first timeline. */
module Activity {
  import opened Types
  import opened ArrayOps
  import StableSort

  /** `SkillLog | AgentLog`, the element type of the timeline. */
  datatype LogEntry = SkillEntry(skillLog: SkillLog) | AgentEntry(agentLog: AgentLog)
  {
    function Timestamp(): nat {
      match this
      case SkillEntry(l) => l.timestamp
      case AgentEntry(l) => l.timestamp
    }
  }

  /** The skills whose progress is reported, in reporting order. */
  const TrackedSkills: seq<string> := ["dev-flow", "audit-flow", "incident-triage", "notion-writer"]

  /** Uses of a skill that count as 100% progress. */
  const UsesGoal: nat := 5

  /** The timeline length used when the caller gives none. */
  const DefaultTimelineLimit: int := 50

  /** What getActivityStats returns: uses per skill name, runs per agent name,
      and progress percentages for the tracked skills. */
  datatype ActivityStats = ActivityStats(
    skillUsage: map<string, nat>,
    agentActivity: map<string, nat>,
    phase4Progress: map<string, nat>)

  /** The skill name of every skill log, in log order. */
  function SkillNames(logs: seq<SkillLog>): (r: seq<string>)
    ensures |r| == |logs|
    ensures forall i | 0 <= i < |logs| :: r[i] == logs[i].skill
  {
    if |logs| == 0 then [] else SkillNames(logs[..|logs| - 1]) + [logs[|logs| - 1].skill]
  }

  /** The agent name of every agent log, in log order. */
  function AgentNames(logs: seq<AgentLog>): (r: seq<string>)
    ensures |r| == |logs|
    ensures forall i | 0 <= i < |logs| :: r[i] == logs[i].agent
  {
    if |logs| == 0 then [] else AgentNames(logs[..|logs| - 1]) + [logs[|logs| - 1].agent]
  }

  /** The record `{ name: occurrences }` built by counting `names`: a key for
      each name that occurs, none for the others. */
  function Counts(names: seq<string>): map<string, nat> {
    map n | n in names :: Count(names, n)
  }

  /** `counts[n] = (counts[n] || 0) + 1` for every `n` of `names`, in order. */
  method Tally(names: seq<string>) returns (counts: map<string, nat>)
    ensures counts.Keys == set n | n in names
    ensures forall n | n in counts :: counts[n] == Count(names, n) && counts[n] > 0
  {
    counts := map[];
    for i := 0 to |names|
      invariant counts.Keys == set n | n in names[..i]
      invariant forall n | n in counts :: counts[n] == Count(names[..i], n) && counts[n] > 0
    {
      var n := names[i];
      assert names[..i + 1] == names[..i] + [n];
      var seen := if n in counts then counts[n] else 0;
      assert n !in counts ==> Count(names[..i], n) == 0 by {
        CountPositive(names[..i], n);
      }
      counts := counts[n := seen + 1];
    }
    assert names[..|names|] == names;
  }

  /** What `Tally` promises pins down `Counts`. */
  lemma TallyIsCounts(names: seq<string>, counts: map<string, nat>)
    requires counts.Keys == set n | n in names
    requires forall n | n in counts :: counts[n] == Count(names, n)
    ensures counts == Counts(names)
  {
  }

  /** `Math.round(num / den)` for a non-negative quotient: halves round up. */
  function RoundDiv(num: nat, den: nat): (r: nat)
    requires den > 0
    ensures (2 * r - 1) * den <= 2 * num < (2 * r + 1) * den
  {
    (2 * num + den) / (2 * den)
  }

  /** `Math.min(100, Math.round(uses / 5 * 100))`: 20 points per use, capped. */
  function Progress(uses: nat): (p: nat)
    ensures p <= 100
    ensures p == if uses >= UsesGoal then 100 else 20 * uses
  {
    Min(100, RoundDiv(uses * 100, UsesGoal))
  }

  /** `skillUsage[skill] || 0` */
  function UsesOf(usage: map<string, nat>, skill: string): nat {
    if skill in usage then usage[skill] else 0
  }

  /** The progress record of `skills`: one entry per skill. */
  function ProgressRecord(usage: map<string, nat>, skills: seq<string>): map<string, nat> {
    map s | s in skills :: Progress(UsesOf(usage, s))
  }

  /** `skills.forEach(skill => { progress[skill] = ... })` */
  method FillProgress(usage: map<string, nat>, skills: seq<string>) returns (progress: map<string, nat>)
    ensures progress == ProgressRecord(usage, skills)
  {
    progress := map[];
    for i := 0 to |skills|
      invariant progress.Keys == set s | s in skills[..i]
      invariant forall s | s in progress :: progress[s] == Progress(UsesOf(usage, s))
    {
      var skill := skills[i];
      assert skills[..i + 1] == skills[..i] + [skill];
      var uses := if skill in usage then usage[skill] else 0;
      progress := progress[skill := Min(100, RoundDiv(uses * 100, UsesGoal))];
    }
    assert skills[..|skills|] == skills;
  }

  /** The statistics of a log, as getActivityStats computes them. */
  function StatsOf(skillLogs: seq<SkillLog>, agentLogs: seq<AgentLog>): ActivityStats {
    var usage := Counts(SkillNames(skillLogs));
    ActivityStats(usage, Counts(AgentNames(agentLogs)), ProgressRecord(usage, TrackedSkills))
  }

  /** The record built by counting has a key exactly for the names that
      occur, and `record[n] || 0` is the number of indices holding `n`. */
  lemma CountsSpec(names: seq<string>)
    ensures forall n :: n in Counts(names) <==> n in names
    ensures forall n :: UsesOf(Counts(names), n) == |Positions(names, n)|
  {
    forall n ensures UsesOf(Counts(names), n) == |Positions(names, n)| {
      CountPositive(names, n);
      CountIndices(names, n);
      if n in names {
        assert UsesOf(Counts(names), n) == Count(names, n);
      } else {
        assert UsesOf(Counts(names), n) == 0 == Count(names, n);
      }
    }
  }

  /** Counting one more name raises its count by one and no other. */
  lemma CountsAppend(names: seq<string>, n: string)
    ensures forall s :: UsesOf(Counts(names + [n]), s) == UsesOf(Counts(names), s) + (if s == n then 1 else 0)
  {
    assert multiset(names + [n]) == multiset(names) + multiset{n};
    forall s ensures UsesOf(Counts(names + [n]), s) == UsesOf(Counts(names), s) + (if s == n then 1 else 0) {
      CountPositive(names, s);
      CountPositive(names + [n], s);
    }
  }

  /** The positions in the skill log holding skill `s`. */
  function SkillLogIndices(skillLogs: seq<SkillLog>, s: string): set<int> {
    set i | 0 <= i < |skillLogs| && skillLogs[i].skill == s
  }

  /** The positions in the agent log holding agent `a`. */
  function AgentLogIndices(agentLogs: seq<AgentLog>, a: string): set<int> {
    set i | 0 <= i < |agentLogs| && agentLogs[i].agent == a
  }

  /** The positions of `s` among the names are its positions in the log. */
  lemma SameSkillPositions(skillLogs: seq<SkillLog>, s: string)
    ensures SkillLogIndices(skillLogs, s) == Positions(SkillNames(skillLogs), s)
    ensures s in SkillNames(skillLogs) <==> exists i :: 0 <= i < |skillLogs| && skillLogs[i].skill == s
  {
    var names := SkillNames(skillLogs);
    if s in names {
      var i :| 0 <= i < |names| && names[i] == s;
      assert skillLogs[i].skill == s;
    }
  }

  /** `skillUsage[s] || 0` is the number of skill logs of skill `s`, and a
      skill has a key only when it was logged. */
  lemma SkillUsageSpec(skillLogs: seq<SkillLog>)
    ensures var usage := Counts(SkillNames(skillLogs));
      && (forall s :: s in usage <==> exists i :: 0 <= i < |skillLogs| && skillLogs[i].skill == s)
      && (forall s :: UsesOf(usage, s) == |SkillLogIndices(skillLogs, s)|)
  {
    var names := SkillNames(skillLogs);
    CountsSpec(names);
    forall s ensures SkillLogIndices(skillLogs, s) == Positions(names, s)
      && (s in names <==> exists i :: 0 <= i < |skillLogs| && skillLogs[i].skill == s)
    {
      SameSkillPositions(skillLogs, s);
    }
  }

  /** The positions of `a` among the names are its positions in the log. */
  lemma SameAgentPositions(agentLogs: seq<AgentLog>, a: string)
    ensures AgentLogIndices(agentLogs, a) == Positions(AgentNames(agentLogs), a)
    ensures a in AgentNames(agentLogs) <==> exists i :: 0 <= i < |agentLogs| && agentLogs[i].agent == a
  {
    var names := AgentNames(agentLogs);
    if a in names {
      var i :| 0 <= i < |names| && names[i] == a;
      assert agentLogs[i].agent == a;
    }
  }

  /** `agentActivity[a] || 0` is the number of agent logs of agent `a`, and
      an agent has a key only when it was logged. */
  lemma AgentActivitySpec(agentLogs: seq<AgentLog>)
    ensures var activity := Counts(AgentNames(agentLogs));
      && (forall a :: a in activity <==> exists i :: 0 <= i < |agentLogs| && agentLogs[i].agent == a)
      && (forall a :: UsesOf(activity, a) == |AgentLogIndices(agentLogs, a)|)
  {
    var names := AgentNames(agentLogs);
    CountsSpec(names);
    forall a ensures AgentLogIndices(agentLogs, a) == Positions(names, a)
      && (a in names <==> exists i :: 0 <= i < |agentLogs| && agentLogs[i].agent == a)
    {
      SameAgentPositions(agentLogs, a);
    }
  }

  /** getActivityStats: the usage counts and activity counts of the two
      lemmas above, and a progress record holding exactly the four tracked
      skills, each at 20 points per use capped at 100. */
  lemma StatsSpec(skillLogs: seq<SkillLog>, agentLogs: seq<AgentLog>)
    ensures var st := StatsOf(skillLogs, agentLogs);
      && (forall s :: UsesOf(st.skillUsage, s) == |SkillLogIndices(skillLogs, s)|)
      && (forall a :: UsesOf(st.agentActivity, a) == |AgentLogIndices(agentLogs, a)|)
      && st.phase4Progress.Keys == set s | s in TrackedSkills
      && (forall s | s in TrackedSkills :: st.phase4Progress[s] == Min(100, 20 * UsesOf(st.skillUsage, s)))
  {
    SkillUsageSpec(skillLogs);
    AgentActivitySpec(agentLogs);
  }

  /** Logging one more use of a skill raises that skill's count by one, leaves
      every other count and the agent counts alone, and raises that skill's
      progress by 20 points until it reaches 100. */
  lemma LogSkillIncrements(skillLogs: seq<SkillLog>, agentLogs: seq<AgentLog>, log: SkillLog)
    ensures var before, after := StatsOf(skillLogs, agentLogs), StatsOf(skillLogs + [log], agentLogs);
      && UsesOf(after.skillUsage, log.skill) == UsesOf(before.skillUsage, log.skill) + 1
      && (forall s | s != log.skill :: UsesOf(after.skillUsage, s) == UsesOf(before.skillUsage, s))
      && after.agentActivity == before.agentActivity
      && (log.skill in TrackedSkills ==>
            after.phase4Progress[log.skill] == Min(100, before.phase4Progress[log.skill] + 20))
  {
    var names := SkillNames(skillLogs);
    assert SkillNames(skillLogs + [log]) == names + [log.skill] by {
      assert (skillLogs + [log])[..|skillLogs|] == skillLogs;
    }
    CountsAppend(names, log.skill);
  }

  /** The same for one more agent run. */
  lemma LogAgentIncrements(skillLogs: seq<SkillLog>, agentLogs: seq<AgentLog>, log: AgentLog)
    ensures var before, after := StatsOf(skillLogs, agentLogs), StatsOf(skillLogs, agentLogs + [log]);
      && UsesOf(after.agentActivity, log.agent) == UsesOf(before.agentActivity, log.agent) + 1
      && (forall a | a != log.agent :: UsesOf(after.agentActivity, a) == UsesOf(before.agentActivity, a))
      && after.skillUsage == before.skillUsage
      && after.phase4Progress == before.phase4Progress
  {
    var names := AgentNames(agentLogs);
    assert AgentNames(agentLogs + [log]) == names + [log.agent] by {
      assert (agentLogs + [log])[..|agentLogs|] == agentLogs;
    }
    CountsAppend(names, log.agent);
  }

  /** The sort key that puts later timestamps first. */
  function NewestKey<T>(ts: T -> nat): T -> int {
    (x: T) => -(ts(x) as int)
  }

  /** `.sort((a, b) => b.timestamp - a.timestamp)`: newest first, ties in
      their original order. */
  function NewestFirst<T(==)>(s: seq<T>, ts: T -> nat): (r: seq<T>)
    ensures multiset(r) == multiset(s)
    ensures forall i, j | 0 <= i < j < |r| :: ts(r[i]) >= ts(r[j])
  {
    var r := StableSort.SortBy(s, NewestKey(ts));
    assert forall i, j | 0 <= i < j < |r| :: NewestKey(ts)(r[i]) <= NewestKey(ts)(r[j]);
    r
  }

  /** Entries with the same timestamp keep their original relative order. */
  lemma NewestFirstIsStable<T>(s: seq<T>, ts: T -> nat, t: nat)
    ensures StableSort.WithKey(NewestFirst(s, ts), NewestKey(ts), -(t as int)) == StableSort.WithKey(s, NewestKey(ts), -(t as int))
  {
    StableSort.SortByIsStable(s, NewestKey(ts), -(t as int));
  }

  /** The skill logs followed by the agent logs, each in insertion order. */
  function AllEntries(skillLogs: seq<SkillLog>, agentLogs: seq<AgentLog>): (r: seq<LogEntry>)
    ensures |r| == |skillLogs| + |agentLogs|
    ensures forall i | 0 <= i < |skillLogs| :: r[i] == SkillEntry(skillLogs[i])
    ensures forall i | 0 <= i < |agentLogs| :: r[|skillLogs| + i] == AgentEntry(agentLogs[i])
  {
    seq(|skillLogs|, i requires 0 <= i < |skillLogs| => SkillEntry(skillLogs[i]))
      + seq(|agentLogs|, i requires 0 <= i < |agentLogs| => AgentEntry(agentLogs[i]))
  }

  /** The end index of `slice(0, limit)` on a sequence of length `len`: a
      negative limit counts back from the end. */
  function SliceEnd(limit: int, len: nat): (e: nat)
    ensures e <= len
  {
    if limit < 0 then (if len + limit < 0 then 0 else len + limit)
    else Min(limit, len)
  }

  /** getActivityTimeline: all entries newest first, cut at `limit`. */
  function Timeline(skillLogs: seq<SkillLog>, agentLogs: seq<AgentLog>, limit: int): seq<LogEntry> {
    var sorted := NewestFirst(AllEntries(skillLogs, agentLogs), (e: LogEntry) => e.Timestamp());
    sorted[..SliceEnd(limit, |sorted|)]
  }

  /** The timeline holds min(limit, #entries) entries for a non-negative
      limit, all of them logged entries, newest first, and no entry left out
      is newer than one kept. */
  lemma TimelineSpec(skillLogs: seq<SkillLog>, agentLogs: seq<AgentLog>, limit: int)
    ensures var r, all := Timeline(skillLogs, agentLogs, limit), AllEntries(skillLogs, agentLogs);
      && (0 <= limit ==> |r| == Min(limit, |all|))
      && (limit < 0 ==> |r| == if |all| + limit < 0 then 0 else |all| + limit)
      && multiset(r) <= multiset(all)
      && (forall i, j | 0 <= i < j < |r| :: r[i].Timestamp() >= r[j].Timestamp())
      && (forall i, e | 0 <= i < |r| && e in all && e !in r :: e.Timestamp() <= r[i].Timestamp())
  {
    TimelineEntries(skillLogs, agentLogs, limit);
    TimelineKeepsNewest(skillLogs, agentLogs, limit);
  }

  lemma TimelineEntries(skillLogs: seq<SkillLog>, agentLogs: seq<AgentLog>, limit: int)
    ensures multiset(Timeline(skillLogs, agentLogs, limit)) <= multiset(AllEntries(skillLogs, agentLogs))
  {
    var sorted := NewestFirst(AllEntries(skillLogs, agentLogs), (e: LogEntry) => e.Timestamp());
    var n := SliceEnd(limit, |sorted|);
    assert sorted == sorted[..n] + sorted[n..];
    assert multiset(sorted) == multiset(sorted[..n]) + multiset(sorted[n..]);
  }

  lemma TimelineKeepsNewest(skillLogs: seq<SkillLog>, agentLogs: seq<AgentLog>, limit: int)
    ensures var r, all := Timeline(skillLogs, agentLogs, limit), AllEntries(skillLogs, agentLogs);
      forall i, e | 0 <= i < |r| && e in all && e !in r :: e.Timestamp() <= r[i].Timestamp()
  {
    var all := AllEntries(skillLogs, agentLogs);
    var ts := (e: LogEntry) => e.Timestamp();
    var sorted := NewestFirst(all, ts);
    var n := SliceEnd(limit, |sorted|);
    var r := sorted[..n];
    StableSort.SortedPrefixIsSmallest(all, NewestKey(ts), n);
    forall i, e | 0 <= i < |r| && e in all && e !in r ensures e.Timestamp() <= r[i].Timestamp() {
      assert NewestKey(ts)(r[i]) <= NewestKey(ts)(e);
    }
  }
}
