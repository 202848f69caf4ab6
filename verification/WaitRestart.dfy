/** The steps called harmless are exactly those after which no wake-up can get lost: from every good
    state, any other step of an unfinished wait can be continued so that the waiter sleeps on with
    nothing alive and nothing to come. */
module WaitRestart {
  import opened Sets
  import opened WaitProtocol

  // --- Continuations ---

  ghost predicate Legal(s: State, actions: seq<Action>)
    decreases |actions|
  {
    actions != [] ==> Enabled(s, actions[0]) && Legal(Apply(s, actions[0]), actions[1..])
  }

  ghost function After(s: State, actions: seq<Action>): State
    requires Legal(s, actions)
    decreases |actions|
  {
    if actions == [] then s else After(Apply(s, actions[0]), actions[1..])
  }

  ghost predicate Careful(s: State, actions: seq<Action>)
    requires Legal(s, actions)
    decreases |actions|
  {
    actions != [] ==> Harmless(s, actions[0]) && Careful(Apply(s, actions[0]), actions[1..])
  }

  /** However harmless steps go on from here, no wake-up is lost. */
  ghost predicate Safe(s: State) {
    forall actions :: Legal(s, actions) && Careful(s, actions) ==> NoLostWakeup(After(s, actions))
  }

  lemma {:induction false} InvIsSafe(s: State, actions: seq<Action>)
    requires Inv(s) && Legal(s, actions) && Careful(s, actions)
    ensures NoLostWakeup(After(s, actions))
    decreases |actions|
  {
    if actions != [] {
      StepKeepsInv(s, actions[0]);
      InvIsSafe(Apply(s, actions[0]), actions[1..]);
    }
  }

  lemma {:induction false} ReturnedIsSafe(s: State, actions: seq<Action>)
    requires s.waiter.Returned? && Legal(s, actions)
    ensures After(s, actions).waiter.Returned?
    decreases |actions|
  {
    if actions != [] {
      ReturnedStays(s, actions[0]);
      ReturnedIsSafe(Apply(s, actions[0]), actions[1..]);
    }
  }

  lemma ReturnedStays(s: State, a: Action)
    requires s.waiter.Returned? && Enabled(s, a)
    ensures Apply(s, a).waiter.Returned?
  {
    if !OfWaiter(a) {
      OthersAndWaiter(s, a);
    }
  }

  // --- Reaching a state without starting or deleting anything ---

  ghost predicate Plain(actions: seq<Action>) {
    forall i :: 0 <= i < |actions| ==> !actions[i].Start? && !actions[i].Delete?
  }

  ghost predicate Leads(s: State, actions: seq<Action>, t: State) {
    Legal(s, actions) && After(s, actions) == t && Plain(actions)
  }

  ghost predicate Reaches(s: State, t: State) {
    exists actions :: Leads(s, actions, t)
  }

  lemma ReachesSelf(s: State)
    ensures Reaches(s, s)
  {
    assert Leads(s, [], s);
  }

  lemma {:induction false} LeadsTransitive(s: State, first: seq<Action>, t: State, second: seq<Action>, u: State)
    requires Leads(s, first, t) && Leads(t, second, u)
    ensures Leads(s, first + second, u)
    decreases |first|
  {
    if first == [] {
      assert first + second == second;
    } else {
      LeadsTransitive(Apply(s, first[0]), first[1..], t, second, u);
      assert (first + second)[1..] == first[1..] + second;
    }
  }

  lemma Transitive(s: State, t: State, u: State)
    requires Reaches(s, t) && Reaches(t, u)
    ensures Reaches(s, u)
  {
    var first :| Leads(s, first, t);
    var second :| Leads(t, second, u);
    LeadsTransitive(s, first, t, second, u);
  }

  lemma OneStep(t: State, a: Action)
    requires Enabled(t, a) && !a.Start? && !a.Delete?
    ensures Reaches(t, Apply(t, a))
  {
    var u, actions := Apply(t, a), [a];
    assert actions[0] == a && actions[1..] == [];
    assert Legal(u, []) && After(u, []) == u;
    assert Legal(t, actions);
    assert After(t, actions) == After(Apply(t, actions[0]), actions[1..]);
    assert Leads(t, actions, u);
  }

  lemma OneMore(s: State, t: State, a: Action)
    requires Reaches(s, t) && Enabled(t, a) && !a.Start? && !a.Delete?
    ensures Reaches(s, Apply(t, a))
  {
    OneStep(t, a);
    Transitive(s, t, Apply(t, a));
  }

  lemma {:induction false} PlainIsCareful(s: State, actions: seq<Action>)
    requires Legal(s, actions) && Plain(actions)
    ensures Careful(s, actions)
    decreases |actions|
  {
    if actions != [] {
      PlainIsCareful(Apply(s, actions[0]), actions[1..]);
    }
  }

  lemma ReachedLossIsUnsafe(s: State, t: State)
    requires Reaches(s, t) && !NoLostWakeup(t)
    ensures !Safe(s)
  {
    var actions :| Leads(s, actions, t);
    PlainIsCareful(s, actions);
  }

  // --- Letting everything end ---

  /** Everything alive or about to notify. */
  ghost function Hopefuls(s: State): set<Witness> {
    (set inc | inc in s.insts && Hopeful(s, Instance(inc)) :: Instance(inc))
    + (set g | g in s.clients && Hopeful(s, WebClient(g)) :: WebClient(g))
  }

  lemma InHopefuls(s: State, w: Witness)
    ensures w in Hopefuls(s) <==> Hopeful(s, w)
  {
  }

  /** Steps until a witness has ended and notified. */
  function Rank(s: State, w: Witness): nat {
    match w
    case Instance(inc) =>
      if inc !in s.insts then 0
      else
        (match s.insts[inc].thread case Running => 2 case Stopped => 1 case Notified => 0)
        + (match s.insts[inc].watch case NotSpawned => 3 case Waiting => 2 case Woken => 1 case _ => 0)
    case WebClient(g) => if ClientAt(s, g, Held) then 2 else if ClientAt(s, g, Released) then 1 else 0
  }

  /** Ending steps touch one witness, and neither the map nor the handles. */
  ghost predicate Ending(s: State, w: Witness, s': State) {
    && s'.instances == s.instances && s'.stopTasks == s.stopTasks && s'.shards == s.shards
    && (s'.waiter == s.waiter || (s.waiter.Blocked? && s'.waiter == FRESH))
    && (match w
        case Instance(inc) =>
          && inc in s.insts && inc in s'.insts && s'.insts == s.insts[inc := s'.insts[inc]]
          && s'.insts[inc].id == s.insts[inc].id
          && s'.clients == s.clients
        case WebClient(g) =>
          && g in s.clients && g in s'.clients && s'.clients == s.clients[g := s'.clients[g]]
          && s'.insts == s.insts)
  }

  lemma NextPasses(s: State, inc: Inc)
    requires inc in s.insts && InstInv(s, inc) && Hopeful(s, Instance(inc))
    ensures var a := NextStep(s, Instance(inc)); Passes(a) && a.inc == inc && Enabled(s, a)
  {
  }

  lemma PassEnds(s: State, a: Action)
    requires Passes(a) && Enabled(s, a)
    ensures Ending(s, Instance(a.inc), Passed(s, a, Moved(s, a)))
  {
  }

  lemma RankDrops(s: State, a: Action)
    requires Passes(a) && Enabled(s, a) && (a.SpawnWatch? ==> s.insts[a.inc].thread == Notified)
    ensures Rank(Passed(s, a, Moved(s, a)), Instance(a.inc)) < Rank(s, Instance(a.inc))
  {
  }

  lemma InstanceEnds(s: State, inc: Inc)
    requires Base(s) && Hopeful(s, Instance(inc))
    ensures var w, a := Instance(inc), NextStep(s, Instance(inc));
            && Passes(a) && a.inc == inc && Enabled(s, a)
            && Ending(s, w, Apply(s, a)) && Rank(Apply(s, a), w) < Rank(s, w)
  {
    assert InstInv(s, inc);
    NextPasses(s, inc);
    var a := NextStep(s, Instance(inc));
    PassEffect(s, a);
    PassEnds(s, a);
    RankDrops(s, a);
  }

  lemma NextEnds(s: State, w: Witness)
    requires Base(s) && Hopeful(s, w)
    ensures var a := NextStep(s, w);
            && Enabled(s, a) && (Passes(a) || a.Release? || a.ReleaseNotifies?)
            && Ending(s, w, Apply(s, a)) && Rank(Apply(s, a), w) < Rank(s, w)
  {
    if w.Instance? {
      InstanceEnds(s, w.inc);
    }
  }

  /** Nothing else becomes alive or about to notify by an ending step. */
  lemma EndingAddsNothing(s: State, w: Witness, s': State, v: Witness)
    requires Ending(s, w, s') && v != w
    ensures Hopeful(s', v) == Hopeful(s, v)
  {
    if v.Instance? {
      assert InMap(s', v.inc) == InMap(s, v.inc);
    }
  }

  /** Steps of threads and of watchers on their way to the notification. */
  predicate Passes(a: Action) {
    a.SpawnWatch? || a.ThreadStops? || a.ThreadNotifies? || a.WatchWakes? || a.WatchNotifies?
  }

  function Begun(s: State, id: Id, inc: Inc): State {
    Set(s, inc, Inst(id, Running, false, NotSpawned, false)).(instances := s.instances[id := inc])
  }

  lemma MovedAlike(s: State, a: Action, id: Id, inc: Inc)
    requires Passes(a) && Enabled(s, a) && id !in s.instances && inc !in s.insts
    ensures Enabled(Begun(s, id, inc), a) && Moved(Begun(s, id, inc), a) == Moved(s, a)
  {
    assert InMap(Begun(s, id, inc), a.inc) == InMap(s, a.inc);
  }

  function Passed(s: State, a: Action, i: Inst): State
    requires Passes(a)
  {
    if a.WatchNotifies? then Notify(Set(s, a.inc, i)) else Set(s, a.inc, i)
  }

  lemma PassEffect(s: State, a: Action)
    requires Passes(a) && Enabled(s, a)
    ensures Apply(s, a) == Passed(s, a, Moved(s, a))
  {
  }

  lemma BegunAndPassed(s: State, a: Action, i: Inst, id: Id, inc: Inc)
    requires Passes(a) && a.inc != inc
    ensures Passed(Begun(s, id, inc), a, i) == Begun(Passed(s, a, i), id, inc)
  {
    var begun := Inst(id, Running, false, NotSpawned, false);
    assert s.insts[inc := begun][a.inc := i] == s.insts[a.inc := i][inc := begun];
  }

  lemma StartStillEnabled(s: State, a: Action, id: Id, inc: Inc)
    requires Passes(a) && Enabled(s, a) && Enabled(s, Start(id, inc))
    ensures Enabled(Passed(s, a, Moved(s, a)), Start(id, inc))
  {
    assert a.inc in s.insts;
  }

  /** A step next to a further start that nobody has looked at yet. */
  lemma PassCommutes(s: State, a: Action, id: Id, inc: Inc)
    requires Base(s) && Passes(a) && Enabled(s, a) && Enabled(s, Start(id, inc))
    ensures var start := Start(id, inc);
            && Enabled(Apply(s, start), a) && Enabled(Apply(s, a), start)
            && Apply(Apply(s, start), a) == Apply(Apply(s, a), start)
  {
    MovedAlike(s, a, id, inc);
    PassEffect(s, a);
    PassEffect(Apply(s, Start(id, inc)), a);
    StartStillEnabled(s, a, id, inc);
    assert a.inc != inc;
    BegunAndPassed(s, a, Moved(s, a), id, inc);
  }

  lemma ClientCommutes(s: State, a: Action, id: Id, inc: Inc)
    requires (a.Release? || a.ReleaseNotifies?) && Enabled(s, a) && Enabled(s, Start(id, inc))
    ensures var start := Start(id, inc);
            && Enabled(Apply(s, start), a) && Enabled(Apply(s, a), start)
            && Apply(Apply(s, start), a) == Apply(Apply(s, a), start)
  {
  }

  lemma NextCommutes(s: State, w: Witness, id: Id, inc: Inc)
    requires Base(s) && Hopeful(s, w) && Enabled(s, Start(id, inc))
    ensures var a, start := NextStep(s, w), Start(id, inc);
            && Enabled(s, a) && Enabled(Apply(s, start), a)
            && Enabled(Apply(s, a), start)
            && Apply(Apply(s, start), a) == Apply(Apply(s, a), start)
  {
    NextEnds(s, w);
    if w.Instance? {
      PassCommutes(s, NextStep(s, w), id, inc);
    } else {
      ClientCommutes(s, NextStep(s, w), id, inc);
    }
  }

  /** The watcher of an earlier start of the identifier is still at work. */
  ghost predicate OldWatcher(s: State, id: Id, prev: Inc) {
    prev in s.insts && s.insts[prev].id == id && Busy(s.insts[prev].watch) && id !in s.instances
  }

  lemma OldWatcherStays(s: State, w: Witness, id: Id, prev: Inc)
    requires Base(s) && Hopeful(s, w) && OldWatcher(s, id, prev) && Enabled(s, NextStep(s, w))
    requires Ending(s, w, Apply(s, NextStep(s, w)))
    ensures OldWatcher(Apply(s, NextStep(s, w)), id, prev)
  {
    assert InstInv(s, prev);
  }

  /** One step towards the end, next to the new start. */
  lemma EndStep(s: State, id: Id, inc: Inc, prev: Inc, w: Witness) returns (s': State)
    requires Base(s) && Enabled(s, Start(id, inc)) && OldWatcher(s, id, prev) && Hopeful(s, w)
    ensures Base(s') && Enabled(s', Start(id, inc)) && OldWatcher(s', id, prev)
    ensures Ending(s, w, s') && Rank(s', w) < Rank(s, w)
    ensures Reaches(Apply(s, Start(id, inc)), Apply(s', Start(id, inc)))
  {
    var a, start := NextStep(s, w), Start(id, inc);
    NextEnds(s, w);
    NextCommutes(s, w, id, inc);
    OldWatcherStays(s, w, id, prev);
    StepKeepsBase(s, a);
    s' := Apply(s, a);
    ReachesSelf(Apply(s, start));
    OneMore(Apply(s, start), Apply(s, start), a);
  }

  lemma FewerHopefuls(s: State, w: Witness, s': State)
    requires Hopeful(s, w) && Ending(s, w, s')
    ensures |Hopefuls(s')| <= |Hopefuls(s)|
    ensures !Hopeful(s', w) ==> |Hopefuls(s')| < |Hopefuls(s)|
  {
    forall v | v in Hopefuls(s') ensures v in Hopefuls(s) {
      InHopefuls(s', v);
      InHopefuls(s, v);
      if v != w {
        EndingAddsNothing(s, w, s', v);
      }
    }
    SubsetSize(Hopefuls(s'), Hopefuls(s));
    if !Hopeful(s', w) {
      InHopefuls(s', w);
      InHopefuls(s, w);
      SubsetSize(Hopefuls(s'), Hopefuls(s) - {w});
    }
  }

  /** Everything alive or about to notify can come to its end, next to the new start. */
  lemma {:induction false} AllEnd(s: State, id: Id, inc: Inc, prev: Inc, w: Witness) returns (u: State)
    requires Base(s) && Enabled(s, Start(id, inc)) && OldWatcher(s, id, prev)
    requires Hopeful(s, w) || !Hope(s)
    ensures Base(u) && Enabled(u, Start(id, inc)) && OldWatcher(u, id, prev) && !Hope(u)
    ensures u.waiter == s.waiter || (s.waiter.Blocked? && u.waiter == FRESH)
    ensures u.shards == s.shards
    ensures Reaches(Apply(s, Start(id, inc)), Apply(u, Start(id, inc)))
    decreases |Hopefuls(s)|, Rank(s, w)
  {
    if !Hope(s) {
      ReachesSelf(Apply(s, Start(id, inc)));
      return s;
    }
    var s' := EndStep(s, id, inc, prev, w);
    FewerHopefuls(s, w, s');
    var w' := w;
    if !Hopeful(s', w) && Hope(s') {
      w' :| Hopeful(s', w');
    }
    u := AllEnd(s', id, inc, prev, w');
    Transitive(Apply(s, Start(id, inc)), Apply(s', Start(id, inc)), Apply(u, Start(id, inc)));
  }

  // --- The old watcher takes the new one away ---

  /** The only thing alive is a start whose watcher has been aborted, and the wait goes on. */
  ghost predicate Doomed(s: State, id: Id, inc: Inc) {
    && inc in s.insts && s.insts[inc] == Inst(id, Running, false, Aborted, true)
    && id in s.instances && s.instances[id] == inc && MapInv(s)
    && (forall w :: Hopeful(s, w) ==> w == Instance(inc))
    && !s.waiter.Returned? && (s.waiter.Scanning? ==> s.waiter.at <= s.shards)
  }

  /** The state in which the old watcher is gone and the new one aborted. */
  function Robbed(u: State, id: Id, inc: Inc, prev: Inc): State
    requires prev in u.insts
  {
    u.(insts := u.insts[inc := Inst(id, Running, false, Aborted, true)][prev := u.insts[prev].(watch := Gone)],
       instances := u.instances[id := inc], stopTasks := u.stopTasks - {id})
  }

  lemma RobbedIsDoomed(u: State, id: Id, inc: Inc, prev: Inc)
    requires Base(u) && Enabled(u, Start(id, inc)) && OldWatcher(u, id, prev) && !Hope(u)
    requires !u.waiter.Returned? && (u.waiter.Scanning? ==> u.waiter.at <= u.shards)
    ensures Doomed(Robbed(u, id, inc, prev), id, inc)
  {
    var t := Robbed(u, id, inc, prev);
    assert InstInv(u, prev);
    forall w ensures Hopeful(t, w) ==> w == Instance(inc) {
      RobbedHopeless(u, id, inc, prev, w);
    }
  }

  lemma RobbedHopeless(u: State, id: Id, inc: Inc, prev: Inc, w: Witness)
    requires prev in u.insts && u.insts[prev].thread == Notified && !Hopeful(u, w)
    ensures Hopeful(Robbed(u, id, inc, prev), w) ==> w == Instance(inc)
  {
    if w.Instance? && w.inc != inc && w.inc != prev {
      assert InMap(Robbed(u, id, inc, prev), w.inc) ==> InMap(u, w.inc);
    }
  }

  lemma OldWatcherTold(u: State, id: Id, prev: Inc)
    requires Base(u) && OldWatcher(u, id, prev) && !Hope(u)
    ensures u.insts[prev].watch == Told && id in u.stopTasks && u.stopTasks[id] == prev
  {
    assert InstInv(u, prev);
    assert !Hopeful(u, Instance(prev));
  }

  /** The new start with its watcher spawned, and with the handle stored. */
  function Spawned(u: State, id: Id, inc: Inc): State {
    Begun(u, id, inc).(insts := u.insts[inc := Inst(id, Running, false, Waiting, false)])
  }

  function Handled(u: State, id: Id, inc: Inc): State {
    Begun(u, id, inc).(insts := u.insts[inc := Inst(id, Running, false, Waiting, true)],
                       stopTasks := u.stopTasks[id := inc])
  }

  lemma Spawns(u: State, id: Id, inc: Inc)
    ensures Enabled(Begun(u, id, inc), SpawnWatch(inc))
    ensures Apply(Begun(u, id, inc), SpawnWatch(inc)) == Spawned(u, id, inc)
  {
    var v := Begun(u, id, inc);
    assert InMap(v, inc);
    assert v.insts[inc := Moved(v, SpawnWatch(inc))] == Spawned(u, id, inc).insts;
  }

  lemma Stores(u: State, id: Id, inc: Inc, prev: Inc)
    requires prev in u.insts && prev != inc && u.insts[prev].watch == Told
    requires id in u.stopTasks && u.stopTasks[id] == prev
    ensures var v := Spawned(u, id, inc);
            Enabled(v, StoreHandle(inc)) && Apply(v, StoreHandle(inc)) == Handled(u, id, inc)
  {
    var v := Spawned(u, id, inc);
    assert DropHandle(v, id) == v.insts;
    assert v.insts[inc := Moved(v, StoreHandle(inc))] == Handled(u, id, inc).insts;
  }

  lemma Removes(u: State, id: Id, inc: Inc, prev: Inc)
    requires prev in u.insts && prev != inc && u.insts[prev].watch == Told && u.insts[prev].id == id
    ensures var v := Handled(u, id, inc);
            Enabled(v, WatchRemoves(prev)) && Apply(v, WatchRemoves(prev)) == Robbed(u, id, inc, prev)
  {
    var v := Handled(u, id, inc);
    assert DropHandle(v, id) == v.insts[inc := Inst(id, Running, false, Aborted, true)];
    assert DropHandle(v, id)[prev := Moved(v, WatchRemoves(prev))] == Robbed(u, id, inc, prev).insts;
    assert v.stopTasks - {id} == u.stopTasks - {id};
  }

  lemma Robs(u: State, id: Id, inc: Inc, prev: Inc)
    requires Base(u) && Enabled(u, Start(id, inc)) && OldWatcher(u, id, prev) && !Hope(u)
    ensures Reaches(Apply(u, Start(id, inc)), Robbed(u, id, inc, prev))
  {
    OldWatcherTold(u, id, prev);
    var v := Begun(u, id, inc);
    Spawns(u, id, inc);
    Stores(u, id, inc, prev);
    Removes(u, id, inc, prev);
    ReachesSelf(v);
    OneMore(v, v, SpawnWatch(inc));
    OneMore(v, Spawned(u, id, inc), StoreHandle(inc));
    OneMore(v, Handled(u, id, inc), WatchRemoves(prev));
  }

  // --- The waiter goes to sleep on it ---

  ghost function UnseenIds(s: State): set<Id>
    requires s.waiter.Scanning?
  {
    set id | id in s.instances && s.instances[id] !in s.waiter.stopped
  }

  /** Only the waiter and its permit differ. */
  ghost predicate SameBut(s: State, t: State) {
    t == s.(waiter := t.waiter, permit := t.permit)
  }

  lemma DoomedMoves(s: State, t: State, id: Id, inc: Inc)
    requires Doomed(s, id, inc) && SameBut(s, t)
    requires !t.waiter.Returned? && (t.waiter.Scanning? ==> t.waiter.at <= t.shards)
    ensures Doomed(t, id, inc)
  {
    forall w | Hopeful(t, w) ensures w == Instance(inc) {
      assert Hopeful(s, w);
    }
  }

  /** The start is still to be seen by the scan. */
  predicate Ahead(s: State, id: Id, inc: Inc) {
    s.waiter.Scanning? && s.waiter.at <= id.shard && inc !in s.waiter.stopped
  }

  lemma SeeOne(s: State, i: Id, id: Id, inc: Inc) returns (r: State)
    requires Doomed(s, id, inc) && s.waiter.Scanning?
    requires i in s.instances && i.shard == s.waiter.at && s.instances[i] !in s.waiter.stopped
    ensures Enabled(s, ScanInstance(i)) && r == Apply(s, ScanInstance(i))
    ensures SameBut(s, r) && r.permit == s.permit
    ensures r.waiter.Found? || (&& r.waiter.Scanning? && r.waiter.at == s.waiter.at
                                && |UnseenIds(r)| < |UnseenIds(s)| && (Ahead(s, id, inc) ==> Ahead(r, id, inc)))
  {
    r := Apply(s, ScanInstance(i));
    if r.waiter.Scanning? {
      assert UnseenIds(r) <= UnseenIds(s) - {i};
      SubsetSize(UnseenIds(r), UnseenIds(s) - {i});
    }
  }

  /** One step of a scan. */
  lemma ScanOnce(s: State, id: Id, inc: Inc) returns (r: State)
    requires Doomed(s, id, inc) && s.waiter.Scanning?
    ensures Doomed(r, id, inc) && SameBut(s, r) && r.permit == s.permit && Reaches(s, r)
    ensures || r.waiter.Found?
            || (r.waiter.Scanned? && !Ahead(s, id, inc))
            || (&& r.waiter.Scanning? && (Ahead(s, id, inc) ==> Ahead(r, id, inc))
                && (r.waiter.at > s.waiter.at || (r.waiter.at == s.waiter.at && |UnseenIds(r)| < |UnseenIds(s)|)))
  {
    ReachesSelf(s);
    if s.waiter.at == s.shards {
      r := Apply(s, ScanEnds);
      OneMore(s, s, ScanEnds);
    } else if i :| i in s.instances && i.shard == s.waiter.at && s.instances[i] !in s.waiter.stopped {
      r := SeeOne(s, i, id, inc);
      OneMore(s, s, ScanInstance(i));
    } else {
      r := Apply(s, ScanNext);
      OneMore(s, s, ScanNext);
    }
    DoomedMoves(s, r, id, inc);
  }

  /** A scan comes to its end or finds something; it finds the start if its place is still ahead. */
  lemma {:induction false} ScanOn(s: State, id: Id, inc: Inc) returns (t: State)
    requires Doomed(s, id, inc) && s.waiter.Scanning?
    ensures Doomed(t, id, inc) && t.permit == s.permit && Reaches(s, t)
    ensures t.waiter.Found? || (t.waiter.Scanned? && !Ahead(s, id, inc))
    decreases s.shards - s.waiter.at, |UnseenIds(s)|
  {
    t := ScanOnce(s, id, inc);
    if t.waiter.Scanning? {
      var r := t;
      t := ScanOn(r, id, inc);
      Transitive(s, r, t);
    }
  }

  lemma VisitPath(s: State)
    requires s.waiter.Scanned? && (0 in s.clients ==> s.clients[0] == Dropped)
    ensures Reaches(s, s.(clients := s.clients[0 := Dropped], waiter := Found, permit := true))
  {
    var r1 := s.(clients := s.clients[0 := Held]);
    var r2 := r1.(waiter := Found);
    var r3 := r2.(clients := s.clients[0 := Released]);
    assert Apply(s, Register(0)) == r1;
    assert Apply(r1, CheckClients(0)) == r2;
    assert r1.clients[0 := Released] == r3.clients && Apply(r2, Release(0)) == r3;
    assert r3.clients[0 := Dropped] == s.clients[0 := Dropped];
    ReachesSelf(s);
    OneMore(s, s, Register(0));
    OneMore(s, r1, CheckClients(0));
    OneMore(s, r2, Release(0));
    OneMore(s, r3, ReleaseNotifies(0));
  }

  /** A client that comes and goes keeps the waiter from returning. */
  lemma ClientVisit(s: State, id: Id, inc: Inc) returns (t: State)
    requires Doomed(s, id, inc) && s.waiter.Scanned?
    ensures Doomed(t, id, inc) && t.waiter.Found? && Reaches(s, t)
  {
    assert !Hopeful(s, WebClient(0));
    VisitPath(s);
    t := s.(clients := s.clients[0 := Dropped], waiter := Found, permit := true);
    forall w ensures Hopeful(t, w) ==> w == Instance(inc) {
      assert Hopeful(t, w) ==> Hopeful(s, w);
    }
  }

  lemma ToFound(s: State, id: Id, inc: Inc) returns (t: State)
    requires Doomed(s, id, inc)
    ensures Doomed(t, id, inc) && t.waiter.Found? && Reaches(s, t)
  {
    ReachesSelf(s);
    t := s;
    if t.waiter.Blocked? {
      t := Apply(s, NotifyCheck);
      OneMore(s, s, NotifyCheck);
      DoomedMoves(s, t, id, inc);
    }
    if t.waiter.Scanning? {
      var r := ScanOn(t, id, inc);
      Transitive(s, t, r);
      t := r;
    }
    if t.waiter.Scanned? {
      var r := ClientVisit(t, id, inc);
      Transitive(s, t, r);
      t := r;
    }
  }

  lemma FallsAsleep(s: State, id: Id, inc: Inc) returns (t: State)
    requires Doomed(s, id, inc) && s.waiter.Found?
    ensures Doomed(t, id, inc) && t.waiter.Blocked? && Reaches(s, t)
  {
    var r1 := Apply(s, NotifyCheck);
    var r2 := Apply(r1, Await);
    ReachesSelf(s);
    OneMore(s, s, NotifyCheck);
    OneMore(s, r1, Await);
    DoomedMoves(s, r2, id, inc);
    var r3 := ScanOn(r2, id, inc);
    Transitive(s, r2, r3);
    t := Apply(r3, Await);
    OneMore(s, r3, Await);
    DoomedMoves(r3, t, id, inc);
  }

  lemma EndPath(s: State, id: Id, inc: Inc)
    requires inc in s.insts && s.insts[inc] == Inst(id, Running, false, Aborted, true)
    ensures Reaches(s, Set(s, inc, Inst(id, Notified, true, Aborted, true)))
  {
    var r := Set(s, inc, Inst(id, Stopped, false, Aborted, true));
    assert Apply(s, ThreadStops(inc)) == r;
    var ended := Inst(id, Notified, true, Aborted, true);
    assert r.insts[inc := ended] == s.insts[inc := ended];
    ReachesSelf(s);
    OneMore(s, s, ThreadStops(inc));
    OneMore(s, r, ThreadNotifies(inc));
  }

  lemma EndedHopeless(s: State, id: Id, inc: Inc, w: Witness)
    requires Doomed(s, id, inc)
    ensures !Hopeful(Set(s, inc, Inst(id, Notified, true, Aborted, true)), w)
  {
    var t := Set(s, inc, Inst(id, Notified, true, Aborted, true));
    if w != Instance(inc) {
      assert !Hopeful(s, w);
      if w.Instance? {
        assert InMap(t, w.inc) == InMap(s, w.inc);
      }
    }
  }

  /** The start ends, and nobody tells the waiter. */
  lemma EndsUnnoticed(s: State, id: Id, inc: Inc) returns (t: State)
    requires Doomed(s, id, inc) && s.waiter.Blocked?
    ensures Reaches(s, t) && !NoLostWakeup(t)
  {
    t := Set(s, inc, Inst(id, Notified, true, Aborted, true));
    EndPath(s, id, inc);
    forall w ensures !Hopeful(t, w) {
      EndedHopeless(s, id, inc, w);
    }
  }

  lemma DoomedIsLost(s: State, id: Id, inc: Inc)
    requires Doomed(s, id, inc)
    ensures !Safe(s)
  {
    var r1 := ToFound(s, id, inc);
    var r2 := FallsAsleep(r1, id, inc);
    var r3 := EndsUnnoticed(r2, id, inc);
    Transitive(s, r1, r2);
    Transitive(s, r2, r3);
    ReachedLossIsUnsafe(s, r3);
  }

  lemma {:induction false} UnsafeBackwards(s: State, first: seq<Action>, t: State)
    requires Leads(s, first, t) && !Safe(t)
    ensures !Safe(s)
    decreases |first|
  {
    if first != [] {
      var r := Apply(s, first[0]);
      UnsafeBackwards(r, first[1..], t);
      var actions :| Legal(r, actions) && Careful(r, actions) && !NoLostWakeup(After(r, actions));
      assert ([first[0]] + actions)[1..] == actions;
      assert Legal(s, [first[0]] + actions) && Careful(s, [first[0]] + actions);
    }
  }

  /** A restart while the old watcher is at work can always end in a lost wake-up. */
  lemma EarlyRestartUnsafe(s: State, id: Id, inc: Inc)
    requires Inv(s) && Enabled(s, Start(id, inc)) && !Tidy(s, Start(id, inc)) && !s.waiter.Returned?
    ensures !Safe(Apply(s, Start(id, inc)))
  {
    var prev :| prev in s.insts && s.insts[prev].id == id && !Over(s.insts[prev]);
    assert InstInv(s, prev) && OldWatcher(s, id, prev);
    var w := Instance(inc);
    if Hope(s) {
      w :| Hopeful(s, w);
    }
    var u := AllEnd(s, id, inc, prev, w);
    Robs(u, id, inc, prev);
    RobbedIsDoomed(u, id, inc, prev);
    DoomedIsLost(Robbed(u, id, inc, prev), id, inc);
    var v := Apply(s, Start(id, inc));
    Transitive(v, Apply(u, Start(id, inc)), Robbed(u, id, inc, prev));
    var first :| Leads(v, first, Robbed(u, id, inc, prev));
    UnsafeBackwards(v, first, Robbed(u, id, inc, prev));
  }

  // --- Deleting too early ---

  /** A waiter asleep or about to sleep, with nothing to hope for. */
  lemma HopelessIsUnsafe(t: State)
    requires !Hope(t) && (t.waiter.Blocked? || (t.waiter.Found? && !t.permit))
    ensures !Safe(t)
  {
    ReachesSelf(t);
    var r := t.(waiter := Blocked);
    assert !Hope(r) by {
      forall w ensures !Hopeful(r, w) {
        assert !Hopeful(t, w);
      }
    }
    if t.waiter.Found? {
      assert Apply(t, Await) == r;
      OneMore(t, t, Await);
    }
    ReachedLossIsUnsafe(t, r);
  }

  /** Deleted before its start call has looked it up, a start that was the waiter's only hope leaves it
      asleep. */
  lemma EarlyDeleteUnsafe(s: State, id: Id)
    requires Inv(s) && Enabled(s, Delete(id)) && !Settled(s, Delete(id)) && !Spared(s, Delete(id))
    ensures !Safe(Apply(s, Delete(id)))
  {
    var t := Apply(s, Delete(id));
    forall w ensures !Hopeful(t, w) {
      NoHopeLeft(s, id, w);
    }
    HopelessIsUnsafe(t);
  }

  lemma NoHopeLeft(s: State, id: Id, w: Witness)
    requires Inv(s) && Enabled(s, Delete(id)) && !Settled(s, Delete(id))
    requires w != Instance(s.instances[id]) ==> !Hopeful(s, w)
    ensures !Hopeful(Apply(s, Delete(id)), w)
  {
    if w.Instance? {
      assert InMap(Apply(s, Delete(id)), w.inc) ==> InMap(s, w.inc);
      assert w.inc in s.insts ==> InstInv(s, w.inc);
    }
  }

  /** The exact condition: from a good state, a step leaves no way to lose a wake-up if and only if it
      is harmless or the wait is over. */
  lemma HarmlessExact(s: State, a: Action)
    requires Inv(s) && Enabled(s, a)
    ensures Safe(Apply(s, a)) <==> Harmless(s, a) || s.waiter.Returned?
  {
    var s' := Apply(s, a);
    if Harmless(s, a) {
      StepKeepsInv(s, a);
      forall actions | Legal(s', actions) && Careful(s', actions) ensures NoLostWakeup(After(s', actions)) {
        InvIsSafe(s', actions);
      }
    } else if s.waiter.Returned? {
      ReturnedStays(s, a);
      forall actions | Legal(s', actions) && Careful(s', actions) ensures NoLostWakeup(After(s', actions)) {
        ReturnedIsSafe(s', actions);
      }
    } else if a.Start? {
      EarlyRestartUnsafe(s, a.id, a.inc);
    } else {
      EarlyDeleteUnsafe(s, a.id);
    }
  }

  /** Whether a restart is tidy can be read off the stored handle: there is none, or its task is over. */
  lemma TidyGuard(s: State, id: Id, inc: Inc)
    requires Inv(s) && Enabled(s, Start(id, inc))
    ensures Tidy(s, Start(id, inc)) <==> id !in s.stopTasks || Over(s.insts[s.stopTasks[id]])
  {
    forall x | x in s.insts && s.insts[x].id == id && !Over(s.insts[x])
      ensures id in s.stopTasks && s.stopTasks[id] == x
    {
      assert InstInv(s, x);
    }
  }

  // --- When a watcher is ended from outside ---

  /** A stored handle is kept under the identifier of its start. */
  ghost predicate HandlesOwn(s: State) {
    forall id <- s.stopTasks :: s.stopTasks[id] in s.insts && s.insts[s.stopTasks[id]].id == id
  }

  lemma {:induction false} RunKeepsHandles(states: seq<State>, actions: seq<Action>, n: nat)
    requires IsRun(states, actions) && n < |states|
    ensures HandlesOwn(states[n])
  {
    if n > 0 {
      RunKeepsHandles(states, actions, n - 1);
      StepKeepsHandles(states[n - 1], actions[n - 1]);
    }
  }

  lemma StepKeepsHandles(s: State, a: Action)
    requires HandlesOwn(s) && Enabled(s, a)
    ensures HandlesOwn(Apply(s, a))
  {
  }

  /** The step replaces or removes the stored handle of a watcher still waiting, for another start of its
      identifier. */
  predicate EndsOther(s: State, a: Action, inc: Inc)
    requires inc in s.insts
  {
    var id := s.insts[inc].id;
    && s.insts[inc].watch == Waiting && id in s.stopTasks && s.stopTasks[id] == inc
    && (a.StoreHandle? || a.WatchRemoves?) && a.inc != inc && a.inc in s.insts && s.insts[a.inc].id == id
  }

  /** In every run, harmless or not, a watcher is ended from outside if and only if it is still waiting and
      its stored handle is replaced or removed on behalf of another start of its identifier. */
  lemma AbortedExact(states: seq<State>, actions: seq<Action>, n: nat, inc: Inc)
    requires IsRun(states, actions) && n < |actions|
    requires inc in states[n].insts && states[n].insts[inc].watch != Aborted
    ensures WatchAt(states[n + 1], inc, Aborted) <==> EndsOther(states[n], actions[n], inc)
  {
    RunKeepsHandles(states, actions, n);
    AbortStep(states[n], actions[n], inc);
  }

  lemma AbortStep(s: State, a: Action, inc: Inc)
    requires HandlesOwn(s) && Enabled(s, a) && inc in s.insts && s.insts[inc].watch != Aborted
    ensures WatchAt(Apply(s, a), inc, Aborted) <==> EndsOther(s, a, inc)
  {
  }
}
