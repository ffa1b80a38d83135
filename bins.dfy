/** The six fixed bins and the bookkeeping of which task ids they list
    (lib/store.ts: seeding, the inbox append of createTask, the
    scan-and-remove of deleteTask and moveTaskToBin). */
module Bins {
  import opened Types
  import opened ArrayOps

  const Inbox := "inbox"
  const HighPriority := "high-priority"
  const MediumPriority := "medium-priority"
  const LowPriority := "low-priority"
  const AssignedBin := "assigned"
  const InProgress := "in-progress"

  /** The bins in seeding order, which is the order `bins.forEach` visits them. */
  const BinIds: seq<string> := [Inbox, HighPriority, MediumPriority, LowPriority, AssignedBin, InProgress]

  function SeedBins(): map<string, Bin> {
    map[
      Inbox := Bin(Inbox, "Inbox", "New tasks awaiting processing", [], 50, 0),
      HighPriority := Bin(HighPriority, "High Priority", "Priority 1-2 tasks", [], 10, 2),
      MediumPriority := Bin(MediumPriority, "Medium Priority", "Priority 3 tasks", [], 20, 3),
      LowPriority := Bin(LowPriority, "Low Priority", "Priority 4-5 tasks", [], 30, 5),
      AssignedBin := Bin(AssignedBin, "Assigned", "Tasks assigned to agents", [], 20, 0),
      InProgress := Bin(InProgress, "In Progress", "Tasks being worked on", [], 15, 0)
    ]
  }

  /** Task id `t` is listed in bin `b`. */
  predicate InBin(bins: map<string, Bin>, b: string, t: string) {
    b in bins && t in bins[b].taskIds
  }

  /** The store's bin invariant: every bin stored under its own id, none
      over capacity, every listed id a known task, and each id listed at most
      once overall. */
  ghost predicate BinsValid(bins: map<string, Bin>, taskKeys: set<string>) {
    && (forall b | b in bins :: bins[b].id == b && Distinct(bins[b].taskIds))
    && (forall b | b in bins :: |bins[b].taskIds| <= bins[b].maxCapacity)
    && (forall b, t :: InBin(bins, b, t) ==> t in taskKeys)
    && (forall b, c, t :: InBin(bins, b, t) && InBin(bins, c, t) ==> b == c)
  }

  /** Bin `b` has room for one more id. */
  predicate HasRoom(bins: map<string, Bin>, b: string) {
    b in bins && |bins[b].taskIds| < bins[b].maxCapacity
  }

  /** The guard of moveTaskToBin: known task, known bin, bin not full. */
  predicate MoveAllowed(bins: map<string, Bin>, taskKeys: set<string>, t: string, target: string) {
    t in taskKeys && HasRoom(bins, target)
  }

  /** Every bin with `t` filtered out. */
  function Detach(bins: map<string, Bin>, t: string): (r: map<string, Bin>)
    ensures r.Keys == bins.Keys
    ensures forall b | b in bins :: r[b] == bins[b].(taskIds := Without(bins[b].taskIds, t))
  {
    map b | b in bins :: bins[b].(taskIds := Without(bins[b].taskIds, t))
  }

  /** `t` removed from every bin, then appended to `target`. */
  function Moved(bins: map<string, Bin>, t: string, target: string): (r: map<string, Bin>)
    requires target in bins
    ensures r.Keys == bins.Keys
    ensures forall b | b in bins :: r[b] == bins[b].(taskIds := ListedAfterMove(bins[b].taskIds, t, b == target))
  {
    var d := Detach(bins, t);
    d[target := d[target].(taskIds := d[target].taskIds + [t])]
  }

  function ListedAfterMove(ids: seq<string>, t: string, isTarget: bool): seq<string> {
    if isTarget then Without(ids, t) + [t] else Without(ids, t)
  }

  /** moveTaskToBin's effect on the bins: `Moved` when allowed, else nothing. */
  function TryMove(bins: map<string, Bin>, taskKeys: set<string>, t: string, target: string): map<string, Bin> {
    if MoveAllowed(bins, taskKeys, t, target) then Moved(bins, t, target) else bins
  }

  /** Moving the ids `ts` one after another, as a sequence of assignments does. */
  function MoveEach(bins: map<string, Bin>, taskKeys: set<string>, ts: seq<string>, target: string): map<string, Bin> {
    if |ts| == 0 then bins
    else TryMove(MoveEach(bins, taskKeys, ts[..|ts| - 1], target), taskKeys, ts[|ts| - 1], target)
  }

  /** createTask's effect on the bins: append to the inbox only when it has room. */
  function AddToInbox(bins: map<string, Bin>, t: string): map<string, Bin> {
    if HasRoom(bins, Inbox) then bins[Inbox := bins[Inbox].(taskIds := bins[Inbox].taskIds + [t])]
    else bins
  }

  /** The seeded bins are the six fixed bins, all empty, so they satisfy the
      invariant whatever the tasks. */
  lemma SeedBinsValid(taskKeys: set<string>)
    ensures forall b :: b in SeedBins() <==> b in BinIds
    ensures BinsValid(SeedBins(), taskKeys)
    ensures forall b | b in SeedBins() :: SeedBins()[b].taskIds == []
  {
    assert forall b | b in SeedBins() :: SeedBins()[b].taskIds == [] && SeedBins()[b].id == b;
  }

  /** Filtering one id out of every bin keeps the invariant, for the other tasks. */
  lemma DetachKeepsValid(bins: map<string, Bin>, taskKeys: set<string>, t: string)
    requires BinsValid(bins, taskKeys)
    ensures BinsValid(Detach(bins, t), taskKeys - {t})
    ensures forall b :: !InBin(Detach(bins, t), b, t)
  {
    var d := Detach(bins, t);
    forall b | b in d ensures Distinct(d[b].taskIds) && |d[b].taskIds| <= d[b].maxCapacity {
      WithoutShorter(bins[b].taskIds, t);
    }
    forall b, u | InBin(d, b, u) ensures InBin(bins, b, u) && u != t {
      CountPositive(d[b].taskIds, u);
      CountPositive(bins[b].taskIds, u);
    }
  }

  /** Deleting an unknown task leaves every bin as it was. */
  lemma DetachUnlisted(bins: map<string, Bin>, taskKeys: set<string>, t: string)
    requires BinsValid(bins, taskKeys)
    requires t !in taskKeys
    ensures Detach(bins, t) == bins
  {
    forall b | b in bins ensures Without(bins[b].taskIds, t) == bins[b].taskIds {
      assert !InBin(bins, b, t);
      WithoutAbsent(bins[b].taskIds, t);
    }
  }

  /** moveTaskToBin keeps the invariant: no bin over capacity, each id in at
      most one bin and at most once. */
  lemma MoveKeepsValid(bins: map<string, Bin>, taskKeys: set<string>, t: string, target: string)
    requires BinsValid(bins, taskKeys)
    ensures BinsValid(TryMove(bins, taskKeys, t, target), taskKeys)
  {
    if MoveAllowed(bins, taskKeys, t, target) {
      var r := Moved(bins, t, target);
      forall b | b in r ensures Distinct(r[b].taskIds) && |r[b].taskIds| <= r[b].maxCapacity {
        ListedAfterMoveFacts(bins[b].taskIds, t, b == target);
      }
      forall b, u | InBin(r, b, u) ensures if u == t then b == target else InBin(bins, b, u) {
        ListedAfterMoveFacts(bins[b].taskIds, t, b == target);
      }
    }
  }

  lemma ListedAfterMoveFacts(ids: seq<string>, t: string, isTarget: bool)
    ensures forall u :: u in ListedAfterMove(ids, t, isTarget) <==> (u in ids && u != t) || (isTarget && u == t)
    ensures |ListedAfterMove(ids, t, isTarget)| <= |ids| + (if isTarget then 1 else 0)
    ensures Distinct(ids) ==> Distinct(ListedAfterMove(ids, t, isTarget))
  {
    var w := Without(ids, t);
    WithoutShorter(ids, t);
    forall u ensures u in w <==> u in ids && u != t {
      CountPositive(w, u);
      CountPositive(ids, u);
    }
    if isTarget && Distinct(ids) {
      DistinctAppend(w, t);
    }
  }

  /** After a successful move the id is listed exactly once, last, in the target
      bin and in no other bin, and every bin lists the other ids in the order
      it listed them before. */
  lemma MovePlacement(bins: map<string, Bin>, taskKeys: set<string>, t: string, target: string)
    requires MoveAllowed(bins, taskKeys, t, target)
    ensures var r := TryMove(bins, taskKeys, t, target);
      && r.Keys == bins.Keys
      && Count(r[target].taskIds, t) == 1
      && r[target].taskIds[|r[target].taskIds| - 1] == t
      && (forall b | b in r && b != target :: t !in r[b].taskIds)
      && (forall b | b in r :: Without(r[b].taskIds, t) == Without(bins[b].taskIds, t))
  {
    var r := TryMove(bins, taskKeys, t, target);
    var d := Detach(bins, t);
    forall b | b in r ensures Without(r[b].taskIds, t) == Without(bins[b].taskIds, t) {
      WithoutIdempotent(bins[b].taskIds, t);
      if b == target {
        WithoutAppend(d[b].taskIds, [t], t);
        assert Without([t], t) == [];
      }
    }
    forall b | b in r && b != target ensures t !in r[b].taskIds {
      CountPositive(r[b].taskIds, t);
    }
    assert multiset(r[target].taskIds) == multiset(d[target].taskIds) + multiset{t};
  }

  /** Moving the only copy of `t`, already last, to the end again changes nothing. */
  lemma ReappendLast(s: seq<string>, t: string)
    requires |s| > 0 && s[|s| - 1] == t && Count(s, t) == 1
    ensures ListedAfterMove(s, t, true) == s
  {
    var pre := s[..|s| - 1];
    assert s == pre + [t];
    assert multiset(s) == multiset(pre) + multiset{t};
    CountPositive(pre, t);
    WithoutAppend(pre, [t], t);
    WithoutAbsent(pre, t);
    assert Without([t], t) == [];
  }

  /** Moving a task into the bin it was just moved to changes nothing: it stays
      listed there exactly once. */
  lemma MoveIdempotent(bins: map<string, Bin>, taskKeys: set<string>, t: string, target: string)
    ensures TryMove(TryMove(bins, taskKeys, t, target), taskKeys, t, target) == TryMove(bins, taskKeys, t, target)
  {
    var once := TryMove(bins, taskKeys, t, target);
    if MoveAllowed(once, taskKeys, t, target) {
      assert MoveAllowed(bins, taskKeys, t, target);
      MovePlacement(bins, taskKeys, t, target);
      var twice := TryMove(once, taskKeys, t, target);
      forall b | b in once ensures twice[b] == once[b] {
        if b == target {
          ReappendLast(once[target].taskIds, t);
        } else {
          WithoutAbsent(once[b].taskIds, t);
        }
      }
    }
  }

  /** `ids` ends with exactly `ts`, and lists each of those once. */
  predicate EndsWithOnce(ids: seq<string>, ts: seq<string>) {
    && |ts| <= |ids|
    && ids[|ids| - |ts|..] == ts
    && forall t | t in ts :: Count(ids, t) == 1
  }

  /** A list ending with `ts` and no longer than `ts` is `ts`. */
  lemma EndsWithOnceAll(ids: seq<string>, ts: seq<string>)
    requires EndsWithOnce(ids, ts) && |ids| <= |ts|
    ensures ids == ts
  {
    assert ids[|ids| - |ts|..] == ids;
  }

  /** A list ending with the ids `p`, each listed once, ends with
      `p + [last]` after `last` is moved to its end, each of those listed once. */
  lemma AppendAfterMoved(a: seq<string>, p: seq<string>, last: string)
    requires EndsWithOnce(a, p) && last !in p
    ensures EndsWithOnce(ListedAfterMove(a, last, true), p + [last])
    ensures |ListedAfterMove(a, last, true)| <= |a| + 1
  {
    var pre := a[..|a| - |p|];
    assert a == pre + p;
    WithoutAppend(pre, p, last);
    WithoutAbsent(p, last);
    WithoutShorter(pre, last);
    var s := ListedAfterMove(a, last, true);
    assert s == Without(pre, last) + (p + [last]);
    MovedToEndCounts(a, p, last, s);
  }

  /** Listing `last` once at the end keeps the once-listed ids `p` listed once. */
  lemma MovedToEndCounts(a: seq<string>, p: seq<string>, last: string, s: seq<string>)
    requires last !in p && forall t | t in p :: Count(a, t) == 1
    requires s == Without(a, last) + [last]
    ensures forall t | t in p + [last] :: Count(s, t) == 1
  {
    assert multiset(s) == multiset(a)[last := 0] + multiset{last};
  }

  /** `r` has the bins of `bins` with their capacities, the target ends with
      exactly the ids `ts`, each listed there once, and no other bin lists
      any of them. */
  ghost predicate PlacedLast(bins: map<string, Bin>, r: map<string, Bin>, ts: seq<string>, target: string) {
    && target in bins
    && r.Keys == bins.Keys
    && (forall b | b in bins :: r[b].maxCapacity == bins[b].maxCapacity)
    && |r[target].taskIds| <= |bins[target].taskIds| + |ts|
    && EndsWithOnce(r[target].taskIds, ts)
    && (forall t, b | t in ts && b in r && b != target :: t !in r[b].taskIds)
  }

  /** One more move into the target extends the placed ids by the moved one. */
  lemma MovedPlacedLast(bins: map<string, Bin>, m: map<string, Bin>, p: seq<string>, last: string, target: string)
    requires PlacedLast(bins, m, p, target) && last !in p
    ensures PlacedLast(bins, Moved(m, last, target), p + [last], target)
  {
    assert Moved(m, last, target)[target].taskIds == ListedAfterMove(m[target].taskIds, last, true);
    AppendAfterMoved(m[target].taskIds, p, last);
    MovedKeepsCapacities(bins, m, last, target);
    MovedOthersUnlisted(m, p, last, target);
  }

  /** Moving keeps the bins and their capacities. */
  lemma MovedKeepsCapacities(bins: map<string, Bin>, m: map<string, Bin>, last: string, target: string)
    requires target in m && m.Keys == bins.Keys
    requires forall b | b in bins :: m[b].maxCapacity == bins[b].maxCapacity
    ensures var r := Moved(m, last, target);
      && r.Keys == bins.Keys
      && forall b | b in bins :: r[b].maxCapacity == bins[b].maxCapacity
  {
  }

  /** After the move, no bin but the target lists the moved id or any id that
      only the target listed before. */
  lemma MovedOthersUnlisted(m: map<string, Bin>, p: seq<string>, last: string, target: string)
    requires target in m
    requires forall t, b | t in p && b in m && b != target :: t !in m[b].taskIds
    ensures var r := Moved(m, last, target);
      forall t, b | t in p + [last] && b in r && b != target :: t !in r[b].taskIds
  {
    var r := Moved(m, last, target);
    forall t, b | t in p + [last] && b in r && b != target ensures t !in r[b].taskIds {
      ListedAfterMoveFacts(m[b].taskIds, last, false);
    }
  }

  /** The last of several distinct ids is none of the ones before it. */
  lemma LastNotEarlier(ts: seq<string>)
    requires |ts| > 0 && NoRepeats(ts)
    ensures NoRepeats(ts[..|ts| - 1]) && ts[|ts| - 1] !in ts[..|ts| - 1]
  {
    var p := ts[..|ts| - 1];
    forall i | 0 <= i < |p| ensures p[i] != ts[|ts| - 1] {
      assert p[i] == ts[i];
    }
  }

  /** Moving distinct known ids one after another into a bin with room for
      all of them leaves each listed exactly once, in no other bin, and the
      target ending with exactly those ids in the order they were moved. */
  lemma {:induction false} MoveEachPlacement(bins: map<string, Bin>, taskKeys: set<string>, ts: seq<string>, target: string)
    requires target in bins
    requires NoRepeats(ts)
    requires forall i | 0 <= i < |ts| :: ts[i] in taskKeys
    requires |bins[target].taskIds| + |ts| <= bins[target].maxCapacity
    ensures PlacedLast(bins, MoveEach(bins, taskKeys, ts, target), ts, target)
  {
    if |ts| > 0 {
      var n := |ts| - 1;
      var p, last := ts[..n], ts[n];
      assert ts == p + [last];
      LastNotEarlier(ts);
      MoveEachPlacement(bins, taskKeys, p, target);
      var m := MoveEach(bins, taskKeys, p, target);
      assert MoveAllowed(m, taskKeys, last, target);
      MovedPlacedLast(bins, m, p, last, target);
    } else {
      assert MoveEach(bins, taskKeys, ts, target) == bins;
    }
  }

  /** createTask with a fresh id keeps the invariant, and lists the id in the
      inbox exactly when the inbox had room, and nowhere else. */
  lemma AddToInboxPlacement(bins: map<string, Bin>, taskKeys: set<string>, t: string)
    requires BinsValid(bins, taskKeys)
    requires t !in taskKeys
    ensures BinsValid(AddToInbox(bins, t), taskKeys + {t})
    ensures forall b :: InBin(AddToInbox(bins, t), b, t) <==> b == Inbox && HasRoom(bins, Inbox)
    ensures forall b | b in bins && b != Inbox :: AddToInbox(bins, t)[b] == bins[b]
  {
    var r := AddToInbox(bins, t);
    assert !InBin(bins, Inbox, t);
    if HasRoom(bins, Inbox) {
      DistinctAppend(bins[Inbox].taskIds, t);
      forall b, u | InBin(r, b, u) ensures InBin(bins, b, u) || (b == Inbox && u == t) {
      }
    }
  }

  /** The seeding order lists the six bins once each. */
  lemma BinIdsListed()
    ensures Lists(BinIds, SeedBins().Keys)
  {
    assert NoRepeats(BinIds);
    NoRepeatsDistinct(BinIds);
    SeedBinsValid({});
  }

  /** The bins after the scan has visited the ids in `done`. */
  ghost function PartlyDetached(bins: map<string, Bin>, t: string, done: seq<string>): (r: map<string, Bin>)
    ensures r.Keys == bins.Keys
    ensures forall b | b in bins :: r[b] == if b in done then bins[b].(taskIds := Without(bins[b].taskIds, t)) else bins[b]
  {
    map b | b in bins :: if b in done then bins[b].(taskIds := Without(bins[b].taskIds, t)) else bins[b]
  }

  /** Visiting one more bin of the scan. */
  lemma PartlyDetachedStep(bins: map<string, Bin>, t: string, ids: seq<string>, i: nat)
    requires i < |ids| && ids[i] in bins && ids[i] !in ids[..i]
    ensures var cur := PartlyDetached(bins, t, ids[..i]);
      && cur[ids[i]] == bins[ids[i]]
      && cur[ids[i] := cur[ids[i]].(taskIds := Without(cur[ids[i]].taskIds, t))] == PartlyDetached(bins, t, ids[..i + 1])
  {
    PrefixStep(ids, i);
  }

  /** A scan that has visited every bin has detached the id everywhere. */
  lemma PartlyDetachedAll(bins: map<string, Bin>, t: string, ids: seq<string>)
    requires forall b | b in bins :: b in ids
    ensures PartlyDetached(bins, t, ids) == Detach(bins, t)
  {
  }
}
