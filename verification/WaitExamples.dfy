/** Runs in which the waiter sleeps on with nothing alive and nothing to come: an identifier restarted
    under its old watcher, and an instance deleted inside the call that started it. */
module WaitExamples {
  import opened WaitProtocol
  import opened WaitRestart

  const ID := Id(0, 0)

  ghost predicate RunTo(states: seq<State>, actions: seq<Action>, t: State) {
    IsRun(states, actions) && states[|actions|] == t
  }

  /** Some run ends in the state. */
  ghost predicate Reachable(t: State) {
    exists states, actions :: RunTo(states, actions, t)
  }

  lemma Begin(shards: nat)
    ensures Reachable(Init(shards))
  {
    assert RunTo([Init(shards)], [], Init(shards));
  }

  lemma Step(s: State, a: Action, t: State)
    requires Reachable(s) && Enabled(s, a) && Apply(s, a) == t
    ensures Reachable(t)
  {
    var states, actions :| RunTo(states, actions, s);
    assert RunTo(states + [t], actions + [a], t);
  }

  lemma {:induction false} ReachableAfter(s: State, actions: seq<Action>)
    requires Reachable(s) && Legal(s, actions)
    ensures Reachable(After(s, actions))
    decreases |actions|
  {
    if actions != [] {
      Step(s, actions[0], Apply(s, actions[0]));
      ReachableAfter(Apply(s, actions[0]), actions[1..]);
    }
  }

  /** A state with one start of the identifier, no clients, and one shard. */
  function One(i: Inst, instances: map<Id, Inc>, stopTasks: map<Id, Inc>, permit: bool, waiter: Waiter): State {
    State(1, map[0 := i], instances, stopTasks, map[], permit, waiter)
  }

  const HERE := map[ID := 0]

  /** A step about the start and nothing else. */
  lemma Move(s: State, a: Action, i: Inst, j: Inst)
    requires Reachable(s) && s.insts == map[0 := i] && Passes(a) && !a.WatchNotifies? && a.inc == 0
    requires Enabled(s, a) && Moved(s, a) == j
    ensures Reachable(s.(insts := map[0 := j]))
  {
    PassEffect(s, a);
    assert map[0 := i][0 := j] == map[0 := j];
    Step(s, a, s.(insts := map[0 := j]));
  }

  lemma Started()
    ensures Reachable(One(Inst(ID, Running, false, NotSpawned, false), HERE, map[], false, FRESH))
  {
    Begin(1);
    Step(Init(1), Start(ID, 0), One(Inst(ID, Running, false, NotSpawned, false), HERE, map[], false, FRESH));
  }

  lemma Stored()
    requires Reachable(One(Inst(ID, Running, false, Waiting, false), HERE, map[], false, FRESH))
    ensures Reachable(One(Inst(ID, Running, false, Waiting, true), HERE, HERE, false, FRESH))
  {
    var s := One(Inst(ID, Running, false, Waiting, false), HERE, map[], false, FRESH);
    var t := One(Inst(ID, Running, false, Waiting, true), HERE, HERE, false, FRESH);
    assert DropHandle(s, ID)[0 := Moved(s, StoreHandle(0))] == t.insts;
    Step(s, StoreHandle(0), t);
  }

  /** The instance has lived and ended, its watcher spawned and its handle stored. */
  lemma Ended()
    ensures Reachable(One(Inst(ID, Notified, true, Waiting, true), HERE, HERE, false, FRESH))
  {
    var i0, i1 := Inst(ID, Running, false, NotSpawned, false), Inst(ID, Running, false, Waiting, false);
    var i2, i3 := Inst(ID, Running, false, Waiting, true), Inst(ID, Stopped, false, Waiting, true);
    Started();
    Move(One(i0, HERE, map[], false, FRESH), SpawnWatch(0), i0, i1);
    Stored();
    Move(One(i2, HERE, HERE, false, FRESH), ThreadStops(0), i2, i3);
    Move(One(i3, HERE, HERE, false, FRESH), ThreadNotifies(0), i3, Inst(ID, Notified, true, Waiting, true));
  }

  lemma HasTold()
    ensures Reachable(One(Inst(ID, Notified, false, Told, true), HERE, HERE, true, FRESH))
  {
    var i, j := Inst(ID, Notified, true, Waiting, true), Inst(ID, Notified, false, Woken, true);
    Ended();
    Move(One(i, HERE, HERE, false, FRESH), WatchWakes(0), i, j);
    var s, t := One(j, HERE, HERE, false, FRESH), One(j.(watch := Told), HERE, HERE, true, FRESH);
    assert map[0 := j][0 := j.(watch := Told)] == t.insts;
    PassEffect(s, WatchNotifies(0));
    Step(s, WatchNotifies(0), t);
  }

  /** The first life is over and deleted, and its watcher has notified but not yet tidied up. */
  const TOLD := One(Inst(ID, Notified, false, Told, true), map[], HERE, true, FRESH)

  lemma FirstLife()
    ensures Reachable(TOLD)
  {
    HasTold();
    var s := One(Inst(ID, Notified, false, Told, true), HERE, HERE, true, FRESH);
    assert HERE - {ID} == map[];
    Step(s, Delete(ID), TOLD);
  }

  lemma FirstLifeGood()
    ensures Inv(TOLD) && Enabled(TOLD, Start(ID, 1)) && !Tidy(TOLD, Start(ID, 1))
  {
    assert InstInv(TOLD, 0);
    assert 0 in TOLD.insts;
  }

  /** Started again at once, the identifier loses its new watcher to the old one; when the second life
      ends, nobody tells the waiter. */
  lemma ReuseLosesWakeup() returns (t: State)
    ensures Enabled(TOLD, Start(ID, 1)) && Reachable(TOLD)
    ensures Reachable(t) && !NoLostWakeup(t)
  {
    FirstLife();
    FirstLifeGood();
    var s := Apply(TOLD, Start(ID, 1));
    Step(TOLD, Start(ID, 1), s);
    EarlyRestartUnsafe(TOLD, ID, 1);
    var actions :| Legal(s, actions) && Careful(s, actions) && !NoLostWakeup(After(s, actions));
    ReachableAfter(s, actions);
    t := After(s, actions);
  }

  /** The waiter saw the instance alive and sleeps; the call that started it has not yet looked it up. */
  lemma Asleep()
    ensures Reachable(One(Inst(ID, Running, false, NotSpawned, false), HERE, map[], false, Blocked))
  {
    var i := Inst(ID, Running, false, NotSpawned, false);
    Started();
    Step(One(i, HERE, map[], false, FRESH), ScanInstance(ID), One(i, HERE, map[], false, Found));
    Step(One(i, HERE, map[], false, Found), Await, One(i, HERE, map[], false, Blocked));
  }

  lemma EndedUnwatched()
    ensures Reachable(One(Inst(ID, Notified, true, NotSpawned, false), HERE, map[], false, Blocked))
  {
    var i, j := Inst(ID, Running, false, NotSpawned, false), Inst(ID, Stopped, false, NotSpawned, false);
    Asleep();
    Move(One(i, HERE, map[], false, Blocked), ThreadStops(0), i, j);
    Move(One(j, HERE, map[], false, Blocked), ThreadNotifies(0), j, Inst(ID, Notified, true, NotSpawned, false));
  }

  lemma Unwatched()
    ensures Reachable(One(Inst(ID, Notified, true, Failed, false), map[], map[], false, Blocked))
  {
    var i := Inst(ID, Notified, true, NotSpawned, false);
    EndedUnwatched();
    assert HERE - {ID} == map[];
    Step(One(i, HERE, map[], false, Blocked), Delete(ID), One(i, map[], map[], false, Blocked));
    Move(One(i, map[], map[], false, Blocked), SpawnWatch(0), i, i.(watch := Failed));
  }

  /** Deleted before the call that started it looks it up: the call fails, nobody watches, and the waiter
      that saw the instance alive sleeps on. */
  lemma EarlyDeleteLosesWakeup() returns (t: State)
    ensures Reachable(t) && WatchAt(t, 0, Failed) && !NoLostWakeup(t)
  {
    Unwatched();
    t := One(Inst(ID, Notified, true, Failed, false), map[], map[], false, Blocked);
  }
}
