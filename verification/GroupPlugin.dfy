/**
 * Group membership of active threads: the group scheduling plugin's callbacks, and the
 * runnable flag that gates them in pmcsched_on_switch_in and pmcsched_on_switch_out for
 * plugins that do not coschedule.
 *
 * Threads and applications are numbered.  Each locked section is one step.
 */
module GroupPlugin {
  import opened Sequences

  /** A thread and the application it belongs to. */
  datatype Thread = Thread(tid: nat, app: nat)

  /** The threads of one application, in the order they are listed. */
  function OfApp(s: seq<Thread>, app: nat): (r: seq<Thread>)
    ensures forall t :: t in r <==> t in s && t.app == app
  {
    if s == [] then [] else if s[0].app == app then [s[0]] + OfApp(s[1..], app) else OfApp(s[1..], app)
  }

  lemma {:induction false} OfAppAppend(s: seq<Thread>, t: Thread, app: nat)
    ensures OfApp(s + [t], app) == if t.app == app then OfApp(s, app) + [t] else OfApp(s, app)
  {
    if s == [] {
      assert s + [t] == [t] && [t][1..] == [];
    } else {
      assert (s + [t])[0] == s[0] && (s + [t])[1..] == s[1..] + [t];
      OfAppAppend(s[1..], t, app);
    }
  }

  /** Taking a thread out of a group's list and out of its application's list keeps the two in step. */
  lemma {:induction false} OfAppWithout(s: seq<Thread>, t: Thread, app: nat)
    ensures OfApp(Without(s, t), app) == Without(OfApp(s, app), t)
  {
    if s != [] {
      OfAppWithout(s[1..], t, app);
      var rest := Without(s[1..], t);
      assert s[0] != t ==> ([s[0]] + rest)[0] == s[0] && ([s[0]] + rest)[1..] == rest;
      var mine := OfApp(s[1..], app);
      assert s[0].app == app ==> ([s[0]] + mine)[0] == s[0] && ([s[0]] + mine)[1..] == mine;
    }
  }

  function Lengths(s: seq<Thread>, nrApps: nat): (r: seq<int>)
    ensures |r| == nrApps && forall a: nat | a < nrApps :: r[a] == |OfApp(s, a)|
  {
    seq(nrApps, a requires 0 <= a => |OfApp(s, a)|)
  }

  /** The lists of the applications make up the list of the group, and no thread is on two of them. */
  lemma DisjointUnion(s: seq<Thread>, nrApps: nat)
    requires forall i | 0 <= i < |s| :: s[i].app < nrApps
    ensures Sum(Lengths(s, nrApps)) == |s|
    ensures forall t | t in s :: t.app < nrApps && t in OfApp(s, t.app)
    ensures forall a: nat, t | t in OfApp(s, a) :: t in s
    ensures forall a: nat, b: nat, t | a < b && t in OfApp(s, a) :: t !in OfApp(s, b)
  {
    LengthsSum(s, nrApps);
    forall t | t in s ensures t.app < nrApps {
      var i :| 0 <= i < |s| && s[i] == t;
    }
  }

  lemma {:induction false} LengthsSum(s: seq<Thread>, nrApps: nat)
    requires forall i | 0 <= i < |s| :: s[i].app < nrApps
    ensures Sum(Lengths(s, nrApps)) == |s|
  {
    hide Sum;
    if s == [] {
      SumConstant(Lengths(s, nrApps), 0);
    } else {
      LengthsSum(s[1..], nrApps);
      var rest := Lengths(s[1..], nrApps);
      var a := s[0].app;
      SumUpdate(rest, a, rest[a] + 1);
      assert Lengths(s, nrApps) == rest[a := rest[a] + 1];
    }
  }

  /** sched_thread_group_t, with the parts of the applications that belong to it. */
  class Group {
    const nrApps: nat
    var activeThreads: seq<Thread>
    var appThreads: seq<seq<Thread>>     // app_active_threads, by application
    var activeApps: seq<nat>

    constructor (nrApps: nat)
      ensures Linked() && activeThreads == [] && this.nrApps == nrApps
    {
      this.nrApps := nrApps;
      activeThreads, appThreads, activeApps := [], seq(nrApps, _ => []), [];
    }

    /**
     * The applications' lists are the group's list, split up and in the same order, and
     * the active applications are those with a thread on their list.
     */
    ghost predicate Linked()
      reads this
    {
      && (forall i | 0 <= i < |activeThreads| :: activeThreads[i].app < nrApps)
      && NoDuplicates(activeThreads) && NoDuplicates(activeApps) && |appThreads| == nrApps
      && (forall a: nat | a < nrApps :: appThreads[a] == OfApp(activeThreads, a))
      && (forall a: nat :: a in activeApps <==> a < nrApps && appThreads[a] != [])
    }

    /** The lists of on_active_thread_group */
    method Insert(t: Thread)
      requires Linked() && t.app < nrApps && t !in activeThreads
      modifies this
      ensures Linked() && activeThreads == old(activeThreads) + [t]
      ensures activeApps == old(activeApps) + if t.app in old(activeApps) then [] else [t.app]
    {
      hide OfApp;
      var app := t.app;
      forall a: nat | a < nrApps
        ensures OfApp(activeThreads + [t], a) == if a == app then appThreads[a] + [t] else appThreads[a]
      {
        OfAppAppend(activeThreads, t, a);
      }
      NoDuplicatesConcat(activeThreads, [t]);
      NoDuplicatesConcat(activeApps, [app]);
      appThreads := appThreads[app := appThreads[app] + [t]];
      activeThreads := activeThreads + [t];
      if |appThreads[app]| == 1 {
        activeApps := activeApps + [app];
      }
    }

    /** The lists of on_inactive_thread_group */
    method Remove(t: Thread)
      requires Linked() && t in activeThreads
      modifies this
      ensures Linked() && activeThreads == Without(old(activeThreads), t)
      ensures activeApps == if exists u :: u in activeThreads && u.app == t.app then old(activeApps)
                            else Without(old(activeApps), t.app)
    {
      hide OfApp;
      hide Without;
      var app := t.app;
      ghost var before := activeThreads;
      forall a: nat | a < nrApps
        ensures OfApp(Without(before, t), a) == if a == app then Without(appThreads[a], t) else appThreads[a]
      {
        OfAppWithout(before, t, a);
        if a != app {
          WithoutOther(appThreads[a], t);
        }
      }
      WithoutKeeps(before, t);
      WithoutKeeps(activeApps, app);
      appThreads := appThreads[app := Without(appThreads[app], t)];
      activeThreads := Without(activeThreads, t);
      assert appThreads[app] == OfApp(activeThreads, app);
      if |appThreads[app]| == 0 {
        activeApps := Without(activeApps, app);
      } else {
        assert appThreads[app][0] in appThreads[app];
      }
      InRange(before, t);
    }

    lemma InRange(before: seq<Thread>, t: Thread)
      requires forall i | 0 <= i < |before| :: before[i].app < nrApps
      ensures forall i | 0 <= i < |Without(before, t)| :: Without(before, t)[i].app < nrApps
    {
      forall i | 0 <= i < |Without(before, t)| ensures Without(before, t)[i].app < nrApps {
        assert Without(before, t)[i] in before;
      }
    }
  }

  /** All groups of the platform, and what the framework keeps for each thread. */
  class Scheduler {
    const groups: seq<Group>
    const nrApps: nat
    var curGroup: map<Thread, nat>      // no entry where cur_group is NULL
    var runnable: set<Thread>

    /** A thread is on the active list of its current group and on no other. */
    ghost predicate Linked()
      reads this, groups
    {
      && NoDuplicates(groups)
      && (forall g: nat | g < |groups| :: groups[g].Linked() && groups[g].nrApps == nrApps)
      && (forall t <- curGroup :: curGroup[t] < |groups|)
      && (forall t, g: nat | g < |groups| :: t in groups[g].activeThreads <==> t in curGroup && curGroup[t] == g)
    }

    /** Threads are active exactly while they are runnable. */
    ghost predicate Gated()
      reads this
    {
      forall t :: t in runnable <==> t in curGroup
    }

    constructor (nrGroups: nat, nrApps: nat)
      ensures Linked() && Gated() && runnable == {}
      ensures |groups| == nrGroups && this.nrApps == nrApps
      ensures forall k | 0 <= k < nrGroups :: fresh(groups[k]) && groups[k].activeThreads == []
    {
      var all: seq<Group> := [];
      for i := 0 to nrGroups
        invariant |all| == i && NoDuplicates(all)
        invariant forall k | 0 <= k < i :: fresh(all[k]) && all[k].Linked() && all[k].nrApps == nrApps && all[k].activeThreads == []
      {
        var g := new Group(nrApps);
        all := all + [g];
      }
      groups, this.nrApps, curGroup, runnable := all, nrApps, map[], {};
    }

    /** on_active_thread_group, on a processor of group g. */
    method OnActiveThread(t: Thread, g: nat)
      requires Linked() && g < |groups| && t.app < nrApps && t !in curGroup
      modifies this`curGroup, groups[g]
      ensures Linked() && curGroup == old(curGroup)[t := g]
      ensures groups[g].activeThreads == old(groups[g].activeThreads) + [t]
    {
      curGroup := curGroup[t := g];
      groups[g].Insert(t);
    }

    lemma NotActiveElsewhere(t: Thread)
      requires Linked()
      ensures forall k: nat | k < |groups| && !(t in curGroup && curGroup[t] == k) ::
                Without(groups[k].activeThreads, t) == groups[k].activeThreads
    {
      forall k: nat | k < |groups| && !(t in curGroup && curGroup[t] == k)
        ensures Without(groups[k].activeThreads, t) == groups[k].activeThreads
      {
        WithoutOther(groups[k].activeThreads, t);
      }
    }

    /** on_inactive_thread_group */
    method OnInactiveThread(t: Thread)
      requires Linked() && t in curGroup
      modifies this`curGroup, groups[curGroup[t]]
      ensures Linked() && curGroup == old(curGroup) - {t}
      ensures forall k: nat | k < |groups| :: groups[k].activeThreads == Without(old(groups[k].activeThreads), t)
    {
      hide Without;
      NotActiveElsewhere(t);
      groups[curGroup[t]].Remove(t);
      curGroup := curGroup - {t};
    }

    /**
     * on_migrate_thread_group, on a processor of group g.  Membership stays coherent in any
     * case; that active threads are runnable is kept just when the thread was runnable,
     * or arrives there for the first time.
     */
    method OnMigrateThread(t: Thread, prevCpu: int, g: nat)
      requires Linked() && g < |groups| && t.app < nrApps
      modifies this`curGroup, groups
      ensures Linked()
      ensures curGroup == if prevCpu == -1 then old(curGroup) else old(curGroup)[t := g]
      ensures forall k: nat | k < |groups| ::
                groups[k].activeThreads == (
                  if prevCpu == -1 || (t in old(curGroup) && old(curGroup[t]) == g) then old(groups[k].activeThreads)
                  else if k == g then old(groups[k].activeThreads) + [t]
                  else Without(old(groups[k].activeThreads), t))
      ensures old(Gated()) ==> (Gated() <==> prevCpu == -1 || t in runnable)
    {
      if prevCpu == -1 || (t in curGroup && curGroup[t] == g) {
        assert t in curGroup ==> curGroup[t := curGroup[t]] == curGroup;
        return;
      }
      hide Without;
      hide Group.Linked;
      if t in curGroup {
        OnInactiveThread(t);
      } else {
        NotActiveElsewhere(t);
      }
      OnActiveThread(t, g);
      assert curGroup == old(curGroup)[t := g];
    }

    /**
     * pmcsched_on_switch_in, on a processor of group g: ignored when the thread is not under
     * the control of the plugin; the group may be profiling an application.
     */
    method OnSwitchIn(t: Thread, g: nat, ignored: bool, profiling: bool, taskRunning: bool)
      requires Linked() && Gated() && g < |groups| && t.app < nrApps
      modifies this, groups[g]
      ensures Linked() && Gated()
      ensures var activated := !ignored && !profiling && t !in old(runnable) && taskRunning;
              && runnable == old(runnable) + (if activated then {t} else {})
              && curGroup == (if activated then old(curGroup)[t := g] else old(curGroup))
              && groups[g].activeThreads == old(groups[g].activeThreads) + if activated then [t] else []
    {
      if ignored {
        return;
      }
      if !profiling && t !in runnable && taskRunning {
        runnable := runnable + {t};
        OnActiveThread(t, g);
      }
    }

    /** pmcsched_on_switch_out; a thread that was killed behind the plugin's back is left to the exit path. */
    method OnSwitchOut(t: Thread, ignored: bool, taskRunning: bool, killed: bool)
      requires Linked() && Gated()
      modifies this, groups
      ensures Linked() && Gated()
      ensures var stopped := !ignored && t in old(runnable) && !taskRunning && !killed;
              && runnable == old(runnable) - (if stopped then {t} else {})
              && curGroup == old(curGroup) - (if stopped then {t} else {})
              && forall k: nat | k < |groups| ::
                   groups[k].activeThreads == if stopped then Without(old(groups[k].activeThreads), t) else old(groups[k].activeThreads)
    {
      if ignored {
        return;
      }
      if t in runnable && !taskRunning {
        if !killed {
          runnable := runnable - {t};
          OnInactiveThread(t);
        }
      }
    }

    /** A thread is runnable exactly when it is on one group's active list, and that group is its current one. */
    lemma RunnableIsActive(t: Thread)
      requires Linked() && Gated()
      ensures t in runnable <==> exists g: nat :: g < |groups| && t in groups[g].activeThreads
      ensures forall g: nat, h: nat | g < |groups| && h < |groups| :: t in groups[g].activeThreads && t in groups[h].activeThreads ==> g == h
      ensures forall g: nat | g < |groups| && t in groups[g].activeThreads ::
                t in groups[g].appThreads[t.app] && t.app in groups[g].activeApps && curGroup[t] == g
    {
      if t in runnable {
        assert t in groups[curGroup[t]].activeThreads;
      }
      forall g: nat | g < |groups| && t in groups[g].activeThreads
        ensures t.app < nrApps && t in groups[g].appThreads[t.app] && t.app in groups[g].activeApps && curGroup[t] == g
      {
        var i :| 0 <= i < |groups[g].activeThreads| && groups[g].activeThreads[i] == t;
        assert t in OfApp(groups[g].activeThreads, t.app);
      }
    }
  }

  /** One group and one thread that has never been switched in: a migration puts it on the active list all the same. */
  method IdleThreadActivated() returns (s: Scheduler)
    ensures s.Linked() && !s.Gated() && Thread(0, 0) !in s.runnable
    ensures |s.groups| == 1 && s.groups[0].activeThreads == [Thread(0, 0)]
  {
    s := new Scheduler(1, 1);
    assert forall g <- s.groups :: g == s.groups[0];
    s.OnMigrateThread(Thread(0, 0), 0, 0);
  }
}
