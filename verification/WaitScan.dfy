/** What a scan of the instance map can miss: the map is read shard by shard, and a shard that has been
    passed is not looked at again. */
module WaitScan {
  import opened WaitProtocol

  /** The start happened during the scan still going on at state n, behind the place it had reached. */
  ghost predicate StartedLate(states: seq<State>, actions: seq<Action>, n: nat, inc: Inc)
    requires |states| == |actions| + 1 && n < |states|
  {
    exists j :: 0 <= j < n && LateAt(states, actions, j, n, inc)
  }

  ghost predicate LateAt(states: seq<State>, actions: seq<Action>, j: nat, n: nat, inc: Inc)
    requires |states| == |actions| + 1 && j < n < |states|
  {
    && actions[j].Start? && actions[j].inc == inc
    && (forall k :: j <= k <= n ==> states[k].waiter.Scanning?)
    && states[j].waiter.at > actions[j].id.shard
  }

  /** The scan has left the place of the identifier without having seen what is there now. */
  predicate Unseen(s: State, id: Id)
    requires s.waiter.Scanning? && id in s.instances
  {
    id.shard < s.waiter.at && s.instances[id] !in s.waiter.stopped
  }

  /** A step inside a scan goes on with that scan. */
  lemma SameScan(s: State, a: Action)
    requires Enabled(s, a) && s.waiter.Scanning? && Apply(s, a).waiter.Scanning?
    ensures var w, w' := s.waiter, Apply(s, a).waiter;
            && w'.at == (if a.ScanNext? then w.at + 1 else w.at)
            && w'.stopped == if a.ScanInstance? then w.stopped + {s.instances[a.id]} else w.stopped
  {
  }

  /** A scan begins at the first shard with nothing seen. */
  lemma NewScan(s: State, a: Action)
    requires Enabled(s, a) && !s.waiter.Scanning? && Apply(s, a).waiter.Scanning?
    ensures Apply(s, a).waiter == FRESH
  {
  }

  lemma LateOrNew(states: seq<State>, actions: seq<Action>, n: nat, m: nat, inc: Inc)
    requires IsRun(states, actions) && n < |actions| && m == n + 1 && StartedLate(states, actions, m, inc)
    ensures states[n].waiter.Scanning?
    ensures StartedLate(states, actions, n, inc)
         || (actions[n].Start? && actions[n].inc == inc && states[n].waiter.at > actions[n].id.shard)
  {
    var j :| 0 <= j < m && LateAt(states, actions, j, m, inc);
    if j < n {
      assert LateAt(states, actions, j, n, inc);
    }
  }

  lemma LateStays(states: seq<State>, actions: seq<Action>, n: nat, m: nat, inc: Inc)
    requires IsRun(states, actions) && n < |actions| && m == n + 1
    requires states[n].waiter.Scanning? && states[m].waiter.Scanning?
    requires StartedLate(states, actions, n, inc)
          || (actions[n].Start? && actions[n].inc == inc && states[n].waiter.at > actions[n].id.shard)
    ensures StartedLate(states, actions, m, inc)
  {
    if StartedLate(states, actions, n, inc) {
      var j :| 0 <= j < n && LateAt(states, actions, j, n, inc);
      assert LateAt(states, actions, j, m, inc);
    } else {
      assert LateAt(states, actions, n, m, inc);
    }
  }

  lemma KnownStays(s: State, a: Action, inc: Inc)
    requires Enabled(s, a) && inc in s.insts
    ensures inc in Apply(s, a).insts && Apply(s, a).insts[inc].id == s.insts[inc].id
  {
  }

  /** What holds of the map and the scan in every run, whatever the steps. */
  ghost predicate ScanInv(s: State) {
    && MapInv(s)
    && (s.waiter.Scanning? ==> forall inc <- s.waiter.stopped :: inc in s.insts && !ThreadAt(s, inc, Running))
  }

  lemma StepKeepsScanInv(s: State, a: Action)
    requires ScanInv(s) && Enabled(s, a)
    ensures ScanInv(Apply(s, a))
  {
    var s' := Apply(s, a);
    forall id | id in s'.instances
      ensures s'.instances[id] in s'.insts && s'.insts[s'.instances[id]].id == id && id.shard < s'.shards
    {
      if !(a.Start? && a.id == id) {
        KnownStays(s, a, s.instances[id]);
      }
    }
    if s'.waiter.Scanning? {
      if s.waiter.Scanning? {
        SameScan(s, a);
      } else {
        NewScan(s, a);
      }
      forall inc | inc in s'.waiter.stopped ensures inc in s'.insts && !ThreadAt(s', inc, Running) {
        StoppedStays(s, a, inc);
      }
    }
  }

  lemma {:induction false} RunKeepsScanInv(states: seq<State>, actions: seq<Action>, n: nat)
    requires IsRun(states, actions) && n < |states|
    ensures ScanInv(states[n])
  {
    if n > 0 {
      RunKeepsScanInv(states, actions, n - 1);
      StepKeepsScanInv(states[n - 1], actions[n - 1]);
    }
  }

  lemma {:induction false} StartedKnown(states: seq<State>, actions: seq<Action>, n: nat, inc: Inc)
    requires IsRun(states, actions) && n < |states| && StartedLate(states, actions, n, inc)
    ensures inc in states[n].insts
  {
    var j :| 0 <= j < n && LateAt(states, actions, j, n, inc);
    if j < n - 1 {
      assert LateAt(states, actions, j, n - 1, inc);
      StartedKnown(states, actions, n - 1, inc);
      KnownStays(states[n - 1], actions[n - 1], inc);
    }
  }

  /** One step: what is unseen stays unseen, and only a start behind the scan adds to it. */
  lemma UnseenStep(s: State, a: Action, id: Id)
    requires ScanInv(s) && Enabled(s, a) && s.waiter.Scanning? && Apply(s, a).waiter.Scanning?
    requires id in Apply(s, a).instances
    ensures Unseen(Apply(s, a), id)
       <==> || (a.Start? && a.id == id && s.waiter.at > id.shard)
            || (!(a.Start? && a.id == id) && id in s.instances && Unseen(s, id))
    ensures !(a.Start? && a.id == id) ==> id in s.instances && Apply(s, a).instances[id] == s.instances[id]
  {
    SameScan(s, a);
    assert a.Start? ==> a.inc !in s.waiter.stopped;
    assert a.ScanInstance? ==> s.insts[s.instances[a.id]].id == a.id;
    assert id in s.instances ==> s.insts[s.instances[id]].id == id;
  }

  /** The start that made the identifier lead where it leads now. */
  lemma NewlyStarted(states: seq<State>, actions: seq<Action>, n: nat, m: nat, id: Id)
    requires IsRun(states, actions) && n < |actions| && m == n + 1
    requires states[n].waiter.Scanning? && states[m].waiter.Scanning? && id in states[m].instances
    requires actions[n].Start? && actions[n].id == id
    ensures Unseen(states[m], id) <==> StartedLate(states, actions, m, states[m].instances[id])
  {
    var inc := states[m].instances[id];
    RunKeepsScanInv(states, actions, n);
    UnseenStep(states[n], actions[n], id);
    if StartedLate(states, actions, m, inc) {
      LateOrNew(states, actions, n, m, inc);
      if StartedLate(states, actions, n, inc) {
        StartedKnown(states, actions, n, inc);
      }
    }
    if Unseen(states[m], id) {
      LateStays(states, actions, n, m, inc);
    }
  }

  /** A step that starts something else, or nothing. */
  lemma StillThere(states: seq<State>, actions: seq<Action>, n: nat, m: nat, id: Id)
    requires IsRun(states, actions) && n < |actions| && m == n + 1
    requires states[n].waiter.Scanning? && states[m].waiter.Scanning? && id in states[m].instances
    requires !(actions[n].Start? && actions[n].id == id)
    requires id in states[n].instances ==>
               (Unseen(states[n], id) <==> StartedLate(states, actions, n, states[n].instances[id]))
    ensures Unseen(states[m], id) <==> StartedLate(states, actions, m, states[m].instances[id])
  {
    var inc := states[m].instances[id];
    RunKeepsScanInv(states, actions, n);
    UnseenStep(states[n], actions[n], id);
    assert inc in states[n].insts;
    if StartedLate(states, actions, m, inc) {
      LateOrNew(states, actions, n, m, inc);
    }
    if Unseen(states[m], id) {
      LateStays(states, actions, n, m, inc);
    }
  }

  /** With a scan just begun, nothing is behind it and nothing was started behind it. */
  lemma ScanJustBegun(states: seq<State>, actions: seq<Action>, n: nat, m: nat, id: Id)
    requires IsRun(states, actions) && n < |actions| && m == n + 1
    requires !states[n].waiter.Scanning? && states[m].waiter.Scanning? && id in states[m].instances
    ensures !Unseen(states[m], id) && !StartedLate(states, actions, m, states[m].instances[id])
  {
    NewScan(states[n], actions[n]);
    forall j | 0 <= j < m ensures !LateAt(states, actions, j, m, states[m].instances[id]) {
    }
  }

  /** One step later, given that it was so before if the scan was on and the identifier led somewhere. */
  lemma UnseenNext(states: seq<State>, actions: seq<Action>, n: nat, m: nat, id: Id)
    requires IsRun(states, actions) && n < |actions| && m == n + 1
    requires states[m].waiter.Scanning? && id in states[m].instances
    requires states[n].waiter.Scanning? && id in states[n].instances ==>
               (Unseen(states[n], id) <==> StartedLate(states, actions, n, states[n].instances[id]))
    ensures Unseen(states[m], id) <==> StartedLate(states, actions, m, states[m].instances[id])
  {
    if !states[n].waiter.Scanning? {
      ScanJustBegun(states, actions, n, m, id);
    } else if actions[n].Start? && actions[n].id == id {
      NewlyStarted(states, actions, n, m, id);
    } else {
      StillThere(states, actions, n, m, id);
    }
  }

  /** At every moment of a scan, an instance of the map is behind the scan and unseen if and only if it
      was started behind the scan. */
  lemma {:induction false} UnseenMeansLate(states: seq<State>, actions: seq<Action>, n: nat, id: Id)
    requires IsRun(states, actions) && n < |states|
    requires states[n].waiter.Scanning? && id in states[n].instances
    ensures Unseen(states[n], id) <==> StartedLate(states, actions, n, states[n].instances[id])
  {
    if n > 0 {
      var m := n - 1;
      if states[m].waiter.Scanning? && id in states[m].instances {
        UnseenMeansLate(states, actions, m, id);
      }
      UnseenNext(states, actions, m, n, id);
    }
  }

  /** When a scan ends, an instance of the map has not been looked at if and only if it was started
      during this scan in a shard already passed; and every instance still running is such a one. */
  lemma ScanMisses(states: seq<State>, actions: seq<Action>, n: nat, id: Id)
    requires IsRun(states, actions) && n < |actions|
    requires actions[n].ScanEnds? && id in states[n].instances
    ensures var inc := states[n].instances[id];
            && (inc !in states[n].waiter.stopped <==> StartedLate(states, actions, n, inc))
            && (ThreadAt(states[n], inc, Running) ==> StartedLate(states, actions, n, inc))
  {
    UnseenMeansLate(states, actions, n, id);
    RunKeepsScanInv(states, actions, n);
  }

  // --- When waiting ends ---

  /** A thread that has not notified belongs to the start its identifier leads to. */
  ghost predicate RunningInMap(s: State) {
    forall inc <- s.insts :: s.insts[inc].thread != Notified ==> InMap(s, inc)
  }

  lemma StepKeepsRunning(s: State, a: Action)
    requires MapInv(s) && RunningInMap(s) && Enabled(s, a)
    ensures RunningInMap(Apply(s, a))
  {
    var s' := Apply(s, a);
    forall inc | inc in s'.insts && s'.insts[inc].thread != Notified ensures InMap(s', inc) {
      if inc in s.insts {
        ThreadsGoOn(s, a, inc);
        assert InMap(s, inc);
        assert a.Delete? ==> s.instances[a.id] != inc;
      }
    }
  }

  /** A start keeps its identifier, and a thread that notified has notified for good. */
  lemma ThreadsGoOn(s: State, a: Action, inc: Inc)
    requires Enabled(s, a) && inc in s.insts
    ensures inc in Apply(s, a).insts && Apply(s, a).insts[inc].id == s.insts[inc].id
    ensures s.insts[inc].thread == Notified ==> Apply(s, a).insts[inc].thread == Notified
    ensures ThreadAt(Apply(s, a), inc, Running) ==> ThreadAt(s, inc, Running)
  {
  }

  lemma {:induction false} RunKeepsRunning(states: seq<State>, actions: seq<Action>, n: nat)
    requires IsRun(states, actions) && n < |states|
    ensures RunningInMap(states[n])
  {
    if n > 0 {
      RunKeepsRunning(states, actions, n - 1);
      RunKeepsScanInv(states, actions, n - 1);
      StepKeepsRunning(states[n - 1], actions[n - 1]);
    }
  }

  /** The last scan before state n, finished or not, had left the shard of this start when it happened. */
  ghost predicate MissedStart(states: seq<State>, actions: seq<Action>, n: nat, inc: Inc)
    requires |states| == |actions| + 1 && n < |states|
  {
    exists j :: 0 <= j < n && MissedAt(states, actions, j, n, inc)
  }

  ghost predicate MissedAt(states: seq<State>, actions: seq<Action>, j: nat, n: nat, inc: Inc)
    requires |states| == |actions| + 1 && j < n < |states|
  {
    && actions[j].Start? && actions[j].inc == inc
    && (forall k :: j <= k <= n ==> states[k].waiter.Scanning? || states[k].waiter.Scanned?)
    && (states[j].waiter.Scanning? ==> states[j].waiter.at > actions[j].id.shard)
  }

  /** Once a scan is over, every instance still running was started behind it. */
  lemma {:induction false} RunningMeansMissed(states: seq<State>, actions: seq<Action>, n: nat, inc: Inc)
    requires IsRun(states, actions) && n < |states| && states[n].waiter.Scanned?
    requires ThreadAt(states[n], inc, Running)
    ensures MissedStart(states, actions, n, inc)
  {
    var s, a := states[n - 1], actions[n - 1];
    if a.Start? && a.inc == inc {
      assert MissedAt(states, actions, n - 1, n, inc);
    } else {
      assert inc in s.insts;
      ThreadsGoOn(s, a, inc);
      if a.ScanEnds? {
        MissedByScan(states, actions, n - 1, inc);
        var j :| 0 <= j < n - 1 && LateAt(states, actions, j, n - 1, inc);
        assert MissedAt(states, actions, j, n, inc);
      } else {
        RunningMeansMissed(states, actions, n - 1, inc);
        var j :| 0 <= j < n - 1 && MissedAt(states, actions, j, n - 1, inc);
        assert MissedAt(states, actions, j, n, inc);
      }
    }
  }

  lemma MissedByScan(states: seq<State>, actions: seq<Action>, n: nat, inc: Inc)
    requires IsRun(states, actions) && n < |actions| && actions[n].ScanEnds?
    requires ThreadAt(states[n], inc, Running)
    ensures StartedLate(states, actions, n, inc)
  {
    RunKeepsRunning(states, actions, n);
    assert InMap(states[n], inc);
    ScanMisses(states, actions, n, states[n].insts[inc].id);
  }

  /** In every run, when the waiter returns no web client is held, and every instance running then was
      started behind its last scan. */
  lemma ReturnMeansIdle(states: seq<State>, actions: seq<Action>, n: nat)
    requires IsRun(states, actions) && n < |actions|
    requires !states[n].waiter.Returned? && states[n + 1].waiter.Returned?
    ensures forall g <- states[n].clients :: states[n].clients[g] != Held
    ensures forall inc :: ThreadAt(states[n], inc, Running) ==> MissedStart(states, actions, n, inc)
  {
    ReturnsAfterScan(states[n], actions[n]);
    forall inc | ThreadAt(states[n], inc, Running) ensures MissedStart(states, actions, n, inc) {
      RunningMeansMissed(states, actions, n, inc);
    }
  }

  lemma ReturnsAfterScan(s: State, a: Action)
    requires Enabled(s, a) && !s.waiter.Returned? && Apply(s, a).waiter.Returned?
    ensures s.waiter.Scanned? && forall g <- s.clients :: s.clients[g] != Held
  {
  }

  /** In every run the waiter goes to sleep again only over something it has seen alive: a web client held
      after the scan, or a running instance in the shard the scan was at. */
  lemma FoundMeansAlive(states: seq<State>, actions: seq<Action>, n: nat)
    requires IsRun(states, actions) && n < |actions|
    requires !states[n].waiter.Found? && states[n + 1].waiter.Found?
    ensures if states[n].waiter.Scanned? then exists g :: ClientAt(states[n], g, Held)
            else && states[n].waiter.Scanning?
                 && exists inc :: ThreadAt(states[n], inc, Running) && InMap(states[n], inc)
                                  && states[n].insts[inc].id.shard == states[n].waiter.at
  {
    RunKeepsScanInv(states, actions, n);
    var s := states[n];
    FoundByLooking(s, actions[n]);
    if actions[n].ScanInstance? {
      var inc := s.instances[actions[n].id];
      assert ThreadAt(s, inc, Running) && InMap(s, inc);
    } else {
      assert ClientAt(s, actions[n].guard, Held);
    }
  }

  lemma FoundByLooking(s: State, a: Action)
    requires Enabled(s, a) && !s.waiter.Found? && Apply(s, a).waiter.Found?
    ensures (a.CheckClients? && s.waiter.Scanned?) || (a.ScanInstance? && ThreadAt(s, s.instances[a.id], Running))
  {
  }

  /** After a scan the waiter can always go on: to return if and only if no client is held, and otherwise
      only to wait again. */
  lemma ScannedDecides(s: State, a: Action)
    requires Enabled(s, a) && s.waiter.Scanned? && Apply(s, a).waiter != s.waiter
    ensures Apply(s, a).waiter == if exists g :: ClientAt(s, g, Held) then Found else Returned
  {
    assert a.CheckClients? ==> ClientAt(s, a.guard, Held);
  }

  lemma ScannedGoesOn(s: State) returns (a: Action)
    requires s.waiter.Scanned?
    ensures Enabled(s, a) && Apply(s, a).waiter != s.waiter
  {
    if g :| g in s.clients && s.clients[g] == Held {
      a := CheckClients(g);
    } else {
      a := CheckFails;
    }
  }

  // --- Every look is owed to a notification ---

  /** The waiter starts to look again in this step. */
  predicate LooksAgain(s: State, s': State) {
    !s.waiter.Scanning? && s'.waiter.Scanning?
  }

  function Looks(states: seq<State>, n: nat): nat
    requires n < |states|
  {
    if n == 0 then 0 else Looks(states, n - 1) + if LooksAgain(states[n - 1], states[n]) then 1 else 0
  }

  predicate Notifies(a: Action) {
    a.WatchNotifies? || a.ReleaseNotifies? || a.NotifyCheck?
  }

  /** Notifications of the waiter in the first n steps. */
  function Notifications(actions: seq<Action>, n: nat): nat
    requires n <= |actions|
  {
    if n == 0 then 0
    else Notifications(actions, n - 1) + if Notifies(actions[n - 1]) then 1 else 0
  }

  lemma LookTakesPermit(s: State, a: Action)
    requires Enabled(s, a)
    ensures var s' := Apply(s, a);
            (if LooksAgain(s, s') then 1 else 0) + (if s'.permit then 1 else 0)
            <= (if s.permit then 1 else 0) + (if Notifies(a) then 1 else 0)
  {
  }

  /** The waiter looks again at most once for each notification; a notification kept for it counts as one
      look still to come. */
  lemma {:induction false} LooksAreOwed(states: seq<State>, actions: seq<Action>, n: nat)
    requires IsRun(states, actions) && n < |states|
    ensures Looks(states, n) + (if states[n].permit then 1 else 0) <= Notifications(actions, n)
  {
    if n > 0 {
      LooksAreOwed(states, actions, n - 1);
      LookTakesPermit(states[n - 1], actions[n - 1]);
    }
  }

  // --- Such a start is missed ---

  /** An instance started behind the scan: the waiter returns while it runs. */
  lemma LateStartMissed() returns (states: seq<State>, actions: seq<Action>)
    ensures IsRun(states, actions) && AllHarmless(states, actions)
    ensures var s := states[|actions|];
            s.waiter.Returned? && exists id <- s.instances :: ThreadAt(s, s.instances[id], Running)
  {
    var id := Id(0, 0);
    var s0 := Init(1);
    var s1 := s0.(waiter := Scanning(1, {}));
    var s2 := s1.(insts := map[0 := Inst(id, Running, false, NotSpawned, false)], instances := map[id := 0]);
    var s3 := s2.(waiter := Scanned);
    var s4 := s3.(waiter := Returned);
    assert Apply(s0, ScanNext) == s1;
    assert Apply(s1, Start(id, 0)) == s2;
    assert Apply(s2, ScanEnds) == s3;
    assert Apply(s3, CheckFails) == s4;
    states, actions := [s0, s1, s2, s3, s4], [ScanNext, Start(id, 0), ScanEnds, CheckFails];
    assert id in s4.instances;
  }
}
