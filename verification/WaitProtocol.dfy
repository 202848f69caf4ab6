/** Waiting for all instances and web clients to end: one waiter, one-permit notifications, instance
    threads that clear their flag and then notify, watcher tasks that pass the notification on, and
    web-client guards that release their count and then notify. */
module WaitProtocol {

  /** An identifier, with the shard of the instance map that its hash falls into. */
  datatype Id = Id(uuid: nat, shard: nat)

  /** One start of an instance; an identifier may be started again after it was deleted. */
  type Inc = nat

  type Guard = nat

  /** An instance thread: alive, flag cleared, notified. */
  datatype Thread = Running | Stopped | Notified

  /** The task watching an instance; Failed when the call that starts it no longer finds the instance. */
  datatype Watch = NotSpawned | Waiting | Woken | Told | Gone | Aborted | Failed

  datatype Client = Held | Released | Dropped

  /** Something the waiter waits for. */
  datatype Witness = Instance(inc: Inc) | WebClient(guard: Guard)

  /** Scanning the instances (the shard the scan is at, and those found stopped so far), then the web
      clients; having found something alive; asleep; returned. */
  datatype Waiter =
    | Scanning(at: nat, stopped: set<Inc>)
    | Scanned
    | Found
    | Blocked
    | Returned

  const FRESH := Scanning(0, {})

  /** One start of an instance: its thread, the permit of its own notifier, its watcher, and whether
      the watcher's handle has been stored. */
  datatype Inst = Inst(id: Id, thread: Thread, permit: bool, watch: Watch, stored: bool)

  datatype State = State(shards: nat, insts: map<Inc, Inst>, instances: map<Id, Inc>,
                         stopTasks: map<Id, Inc>, clients: map<Guard, Client>, permit: bool,
                         waiter: Waiter)

  function Init(shards: nat): State {
    State(shards, map[], map[], map[], map[], false, FRESH)
  }

  datatype Action =
    | Start(id: Id, inc: Inc)
    | SpawnWatch(inc: Inc)
    | StoreHandle(inc: Inc)
    | ThreadStops(inc: Inc)
    | ThreadNotifies(inc: Inc)
    | Delete(id: Id)
    | WatchWakes(inc: Inc)
    | WatchNotifies(inc: Inc)
    | WatchRemoves(inc: Inc)
    | Register(guard: Guard)
    | Release(guard: Guard)
    | ReleaseNotifies(guard: Guard)
    | NotifyCheck
    | ScanInstance(id: Id)
    | ScanNext
    | ScanEnds
    | CheckClients(guard: Guard)
    | CheckFails
    | Await

  predicate ThreadAt(s: State, inc: Inc, t: Thread) {
    inc in s.insts && s.insts[inc].thread == t
  }

  predicate WatchAt(s: State, inc: Inc, w: Watch) {
    inc in s.insts && s.insts[inc].watch == w
  }

  predicate ClientAt(s: State, g: Guard, c: Client) {
    g in s.clients && s.clients[g] == c
  }

  /** The start is the one its identifier leads to. */
  predicate InMap(s: State, inc: Inc) {
    && inc in s.insts && s.insts[inc].id in s.instances
    && s.instances[s.insts[inc].id] == inc
  }

  /** Start calls of one identifier do not overlap. Deleting an instance joins its thread and needs the
      lock that the start call holds from its lookup until the handle is stored. A scan leaves a shard
      once it has looked at everything in it; what happens to a shard after that it does not see. */
  predicate Enabled(s: State, a: Action) {
    match a
    case Start(id, inc) =>
      && id.shard < s.shards && id !in s.instances && inc !in s.insts
      && forall i <- s.insts :: s.insts[i].id == id ==> s.insts[i].watch != NotSpawned
    case SpawnWatch(inc) => WatchAt(s, inc, NotSpawned)
    case StoreHandle(inc) =>
      inc in s.insts && s.insts[inc].watch != NotSpawned && s.insts[inc].watch != Failed
      && !s.insts[inc].stored
    case ThreadStops(inc) => ThreadAt(s, inc, Running)
    case ThreadNotifies(inc) => ThreadAt(s, inc, Stopped)
    case Delete(id) =>
      id in s.instances && ThreadAt(s, s.instances[id], Notified)
      && (WatchAt(s, s.instances[id], NotSpawned) || s.insts[s.instances[id]].stored)
    case WatchWakes(inc) => WatchAt(s, inc, Waiting) && s.insts[inc].permit
    case WatchNotifies(inc) => WatchAt(s, inc, Woken)
    case WatchRemoves(inc) => WatchAt(s, inc, Told)
    case Register(g) => g in s.clients ==> s.clients[g] == Dropped
    case Release(g) => ClientAt(s, g, Held)
    case ReleaseNotifies(g) => ClientAt(s, g, Released)
    case NotifyCheck => true
    case ScanInstance(id) => s.waiter.Scanning? && id in s.instances && id.shard == s.waiter.at
    case ScanNext =>
      && s.waiter.Scanning? && s.waiter.at < s.shards
      && forall id <- s.instances :: id.shard == s.waiter.at ==> s.instances[id] in s.waiter.stopped
    case ScanEnds => s.waiter.Scanning? && s.waiter.at == s.shards
    case CheckClients(g) => s.waiter.Scanned? && ClientAt(s, g, Held)
    case CheckFails => s.waiter.Scanned? && forall g <- s.clients :: s.clients[g] != Held
    case Await => s.waiter.Found?
  }

  /** One permit at most is stored; a sleeping waiter is woken instead. */
  function Notify(s: State): State {
    if s.waiter.Blocked? then s.(waiter := FRESH) else s.(permit := true)
  }

  /** Dropping the handle of a task ends it if it is still waiting; past that it runs to its end. */
  function DropHandle(s: State, id: Id): map<Inc, Inst> {
    if id in s.stopTasks && WatchAt(s, s.stopTasks[id], Waiting)
    then s.insts[s.stopTasks[id] := s.insts[s.stopTasks[id]].(watch := Aborted)] else s.insts
  }

  function Set(s: State, inc: Inc, i: Inst): State {
    s.(insts := s.insts[inc := i])
  }

  /** Steps that change no start of an instance. */
  predicate Quiet(a: Action) {
    || a.Delete? || a.Register? || a.Release? || a.ReleaseNotifies? || a.NotifyCheck?
    || a.ScanInstance? || a.ScanNext? || a.ScanEnds? || a.CheckClients? || a.CheckFails? || a.Await?
  }

  /** The start a step is about, after the step. */
  function Moved(s: State, a: Action): Inst
    requires Enabled(s, a) && !Quiet(a) && !a.Start?
  {
    var i := s.insts[a.inc];
    match a
    case SpawnWatch(inc) => i.(watch := if InMap(s, inc) then Waiting else Failed)
    case StoreHandle(_) => i.(stored := true)
    case ThreadStops(_) => i.(thread := Stopped)
    case ThreadNotifies(_) => i.(thread := Notified, permit := true)
    case WatchWakes(_) => i.(watch := Woken, permit := false)
    case WatchNotifies(_) => i.(watch := Told)
    case WatchRemoves(_) => i.(watch := Gone)
  }

  /** Steps of starts, threads and watchers. */
  function Work(s: State, a: Action): (r: State)
    requires Enabled(s, a) && !Quiet(a)
    ensures r.shards == s.shards && r.clients == s.clients && a.inc in r.insts
    ensures !a.Start? ==> r.instances == s.instances && r.insts[a.inc] == Moved(s, a)
    ensures !a.StoreHandle? && !a.WatchRemoves? ==>
              r.stopTasks == s.stopTasks && r.insts == s.insts[a.inc := r.insts[a.inc]]
  {
    match a
    case Start(id, inc) =>
      Set(s, inc, Inst(id, Running, false, NotSpawned, false)).(instances := s.instances[id := inc])
    case StoreHandle(inc) =>
      var id := s.insts[inc].id;
      s.(insts := DropHandle(s, id)[inc := Moved(s, a)], stopTasks := s.stopTasks[id := inc])
    case WatchRemoves(inc) =>
      var id := s.insts[inc].id;
      s.(insts := DropHandle(s, id)[inc := Moved(s, a)], stopTasks := s.stopTasks - {id})
    case WatchNotifies(inc) => Notify(Set(s, inc, Moved(s, a)))
    case SpawnWatch(inc) => Set(s, inc, Moved(s, a))
    case ThreadStops(inc) => Set(s, inc, Moved(s, a))
    case ThreadNotifies(inc) => Set(s, inc, Moved(s, a))
    case WatchWakes(inc) => Set(s, inc, Moved(s, a))
  }

  /** Steps of deletion, clients and the waiter. */
  function Rest(s: State, a: Action): (r: State)
    requires Enabled(s, a) && Quiet(a)
    ensures r.insts == s.insts && r.stopTasks == s.stopTasks && r.shards == s.shards
    ensures !a.Delete? ==> r.instances == s.instances
  {
    match a
    case Delete(id) => s.(instances := s.instances - {id})
    case Register(g) => s.(clients := s.clients[g := Held])
    case Release(g) => s.(clients := s.clients[g := Released])
    case ReleaseNotifies(g) => Notify(s.(clients := s.clients[g := Dropped]))
    case NotifyCheck => Notify(s)
    case ScanInstance(id) =>
      if ThreadAt(s, s.instances[id], Running) then s.(waiter := Found)
      else s.(waiter := s.waiter.(stopped := s.waiter.stopped + {s.instances[id]}))
    case ScanNext => s.(waiter := s.waiter.(at := s.waiter.at + 1))
    case ScanEnds => s.(waiter := Scanned)
    case CheckClients(_) => s.(waiter := Found)
    case CheckFails => s.(waiter := Returned)
    case Await =>
      if s.permit then s.(permit := false, waiter := FRESH) else s.(waiter := Blocked)
  }

  function Apply(s: State, a: Action): State
    requires Enabled(s, a)
  {
    if Quiet(a) then Rest(s, a) else Work(s, a)
  }

  // --- Alive, or about to notify ---

  predicate Alive(s: State, w: Witness) {
    match w
    case Instance(inc) => ThreadAt(s, inc, Running)
    case WebClient(g) => ClientAt(s, g, Held)
  }

  /** A watcher is waiting for the start's thread, or will be. */
  predicate Watched(s: State, inc: Inc) {
    WatchAt(s, inc, Waiting) || (WatchAt(s, inc, NotSpawned) && InMap(s, inc))
  }

  /** A step is still to come whose last effect is to notify the waiter. */
  predicate WillNotify(s: State, w: Witness) {
    match w
    case Instance(inc) =>
      || (ThreadAt(s, inc, Stopped) && Watched(s, inc))
      || (ThreadAt(s, inc, Notified) && s.insts[inc].permit && Watched(s, inc))
      || WatchAt(s, inc, Woken)
    case WebClient(g) => ClientAt(s, g, Released)
  }

  predicate Hopeful(s: State, w: Witness) {
    Alive(s, w) || WillNotify(s, w)
  }

  ghost predicate Hope(s: State) {
    exists w :: Hopeful(s, w)
  }

  ghost predicate NoLostWakeup(s: State) {
    s.waiter.Blocked? ==> Hope(s)
  }

  // --- Steps that do no harm ---

  predicate Over(i: Inst) {
    i.watch == Gone || i.watch == Failed
  }

  /** An identifier is started again only after the watcher of its last start is gone. */
  ghost predicate Tidy(s: State, a: Action) {
    a.Start? ==> forall inc <- s.insts :: s.insts[inc].id == a.id ==> Over(s.insts[inc])
  }

  /** An instance is deleted only after the call that started it has looked it up. */
  predicate Settled(s: State, a: Action) {
    a.Delete? && a.id in s.instances ==> !WatchAt(s, s.instances[a.id], NotSpawned)
  }

  /** An earlier deletion hurts nobody when the waiter is going to look again anyway, or when something
      else is alive or about to notify it. */
  ghost predicate Spared(s: State, a: Action) {
    a.Delete? && a.id in s.instances ==>
      || !(s.waiter.Blocked? || (s.waiter.Found? && !s.permit))
      || exists w :: Hopeful(s, w) && w != Instance(s.instances[a.id])
  }

  ghost predicate Harmless(s: State, a: Action) {
    Tidy(s, a) && (Settled(s, a) || Spared(s, a))
  }

  // --- The invariant ---

  /** Done with its start call and with its watcher. */
  predicate Finished(i: Inst) {
    i.watch == Failed || (i.watch == Gone && i.stored)
  }

  ghost predicate OneActive(s: State) {
    forall a, b ::
      (a in s.insts && b in s.insts && s.insts[a].id == s.insts[b].id
       && !Finished(s.insts[a]) && !Finished(s.insts[b])) ==> a == b
  }

  ghost predicate MapInv(s: State) {
    forall id <- s.instances :: s.instances[id] in s.insts && s.insts[s.instances[id]].id == id
                                && id.shard < s.shards
  }

  predicate Busy(w: Watch) {
    w == Waiting || w == Woken || w == Told
  }

  /** Handles belong to starts of their identifier, and a stored handle stays while its watcher runs. */
  ghost predicate Handles(s: State) {
    && (forall id <- s.stopTasks ::
          s.stopTasks[id] in s.insts && s.insts[s.stopTasks[id]].id == id && s.insts[s.stopTasks[id]].stored)
    && (forall inc <- s.insts :: s.insts[inc].stored && Busy(s.insts[inc].watch) ==>
          s.insts[inc].id in s.stopTasks && s.stopTasks[s.insts[inc].id] == inc)
  }

  /** A watcher is never aborted, wakes only after its thread notified, and until then holds or will
      get the notification; only a start that is over or was deleted early has left the map. */
  predicate InstInv(s: State, inc: Inc)
    requires inc in s.insts
  {
    var i := s.insts[inc];
    && i.watch != Aborted
    && (i.permit ==> i.thread == Notified)
    && (i.thread != Notified ==> InMap(s, inc) && (i.watch == NotSpawned || i.watch == Waiting))
    && (i.thread == Notified && (i.watch == NotSpawned || i.watch == Waiting) ==> i.permit)
    && (!InMap(s, inc) ==> i.stored || i.watch == NotSpawned || i.watch == Failed)
    && (i.stored ==> i.watch != NotSpawned && i.watch != Failed)
    && (i.watch == Failed ==> !InMap(s, inc))
  }

  ghost predicate WaiterInv(s: State) {
    && (s.waiter.Blocked? ==> Hope(s))
    && (s.waiter.Found? ==> s.permit || Hope(s))
    && (s.waiter.Scanning? ==>
          && s.waiter.at <= s.shards
          && forall inc <- s.waiter.stopped :: inc in s.insts && !ThreadAt(s, inc, Running))
  }

  ghost predicate Base(s: State) {
    && OneActive(s) && MapInv(s) && Handles(s)
    && forall inc <- s.insts :: InstInv(s, inc)
  }

  ghost predicate Inv(s: State) {
    Base(s) && WaiterInv(s)
  }

  // --- What steps leave alone ---

  /** In a good state a handle dropped is never that of a watcher still waiting, except its own. */
  lemma DropHarmless(s: State, inc: Inc)
    requires Base(s) && inc in s.insts && !Finished(s.insts[inc])
    ensures DropHandle(s, s.insts[inc].id) == s.insts
         || (s.insts[inc].watch == Waiting && s.insts[inc].stored)
  {
    var id := s.insts[inc].id;
    if id in s.stopTasks && WatchAt(s, s.stopTasks[id], Waiting) {
      assert s.stopTasks[id] == inc;
    }
  }

  // --- Steps keep the base ---

  lemma StartedInst(s: State, a: Action, inc: Inc)
    requires Base(s) && Enabled(s, a) && a.Start? && inc in Apply(s, a).insts
    ensures InstInv(Apply(s, a), inc)
  {
    if inc != a.inc {
      assert InstInv(s, inc);
      assert InMap(Apply(s, a), inc) <==> InMap(s, inc);
    }
  }

  lemma StartKeepsBase(s: State, a: Action)
    requires Base(s) && Enabled(s, a) && a.Start? && Tidy(s, a)
    ensures Base(Apply(s, a))
  {
    var s' := Apply(s, a);
    forall inc | inc in s'.insts ensures InstInv(s', inc) {
      StartedInst(s, a, inc);
    }
    forall inc | inc in s.insts && s.insts[inc].id == a.id ensures Finished(s.insts[inc]) {
      assert InstInv(s, inc);
    }
    StartedRest(s, s', a.id, a.inc);
  }

  lemma StartedRest(s: State, s': State, id: Id, inc: Inc)
    requires OneActive(s) && MapInv(s) && Handles(s) && inc !in s.insts && id.shard < s.shards
    requires forall i <- s.insts :: s.insts[i].id == id ==> Finished(s.insts[i])
    requires s'.insts == s.insts[inc := Inst(id, Running, false, NotSpawned, false)]
    requires s'.instances == s.instances[id := inc] && s'.stopTasks == s.stopTasks && s'.shards == s.shards
    ensures OneActive(s') && MapInv(s') && Handles(s')
  {
  }

  lemma DeleteKeepsBase(s: State, a: Action)
    requires Base(s) && Enabled(s, a) && a.Delete?
    ensures Base(Apply(s, a))
  {
    var s' := Apply(s, a);
    forall inc | inc in s'.insts ensures InstInv(s', inc) {
      assert InstInv(s, inc);
      assert InMap(s', inc) <==> InMap(s, inc) && s.insts[inc].id != a.id;
    }
  }

  lemma QuietKeepsBase(s: State, a: Action)
    requires Base(s) && Enabled(s, a) && Quiet(a) && !a.Delete?
    ensures Base(Apply(s, a))
  {
    var s' := Apply(s, a);
    forall inc | inc in s'.insts ensures InstInv(s', inc) {
      assert InstInv(s, inc);
    }
  }

  /** One start changed, and handles with it. */
  ghost predicate OneChanged(s: State, s': State, inc: Inc) {
    && inc in s.insts && inc in s'.insts
    && s'.insts == s.insts[inc := s'.insts[inc]]
    && s'.insts[inc].id == s.insts[inc].id
    && s'.instances == s.instances && s'.shards == s.shards
  }

  /** A step about one start changes nothing else about starts. */
  lemma ActiveChangesOne(s: State, a: Action)
    requires Base(s) && Enabled(s, a) && !Quiet(a) && !a.Start?
    ensures OneChanged(s, Apply(s, a), a.inc) && Apply(s, a).clients == s.clients
    ensures Apply(s, a).insts[a.inc] == Moved(s, a)
  {
    if a.StoreHandle? || a.WatchRemoves? {
      DroppingChangesOne(s, a);
    }
  }

  lemma DroppingChangesOne(s: State, a: Action)
    requires Base(s) && Enabled(s, a) && (a.StoreHandle? || a.WatchRemoves?)
    ensures OneChanged(s, Apply(s, a), a.inc) && Apply(s, a).clients == s.clients
    ensures Apply(s, a).insts[a.inc] == Moved(s, a)
  {
    assert InstInv(s, a.inc);
    DropHarmless(s, a.inc);
  }

  lemma OneChangedInMap(s: State, s': State, inc: Inc, i: Inc)
    requires OneChanged(s, s', inc)
    ensures InMap(s', i) == InMap(s, i)
  {
  }

  /** The start itself stays good. */
  lemma MovedInst(s: State, a: Action, s': State)
    requires Enabled(s, a) && !Quiet(a) && !a.Start? && InstInv(s, a.inc)
    requires OneChanged(s, s', a.inc) && s'.insts[a.inc] == Moved(s, a)
    ensures InstInv(s', a.inc)
    ensures Finished(s.insts[a.inc]) ==> Finished(s'.insts[a.inc])
  {
    OneChangedInMap(s, s', a.inc, a.inc);
  }

  /** Which handles there are after an active step. */
  lemma ActiveTasks(s: State, a: Action)
    requires Enabled(s, a) && !Quiet(a) && !a.Start?
    ensures var id, s' := s.insts[a.inc].id, Apply(s, a);
            && s'.stopTasks == (if a.StoreHandle? then s.stopTasks[id := a.inc]
                                else if a.WatchRemoves? then s.stopTasks - {id} else s.stopTasks)
            && s'.insts[a.inc].stored == (a.StoreHandle? || s.insts[a.inc].stored)
            && (Busy(s'.insts[a.inc].watch) && s'.insts[a.inc].stored && !a.StoreHandle? ==>
                  Busy(s.insts[a.inc].watch) || s.insts[a.inc].watch == NotSpawned)
            && (a.WatchRemoves? ==> s'.insts[a.inc].watch == Gone)
  {
  }

  lemma ActiveHandles(s: State, a: Action)
    requires Base(s) && Enabled(s, a) && !Quiet(a) && !a.Start?
    ensures Handles(Apply(s, a))
  {
    var s' := Apply(s, a);
    ActiveChangesOne(s, a);
    ActiveTasks(s, a);
    assert InstInv(s, a.inc);
    if a.StoreHandle? {
      StoredHandles(s, s', a.inc);
    } else if a.WatchRemoves? {
      RemovedHandles(s, s', a.inc);
    } else {
      SameHandles(s, s', a.inc);
    }
  }

  lemma SameHandles(s: State, s': State, inc: Inc)
    requires Handles(s) && OneChanged(s, s', inc) && s'.stopTasks == s.stopTasks
    requires s'.insts[inc].stored == s.insts[inc].stored
    requires Busy(s'.insts[inc].watch) && s'.insts[inc].stored ==> Busy(s.insts[inc].watch)
    ensures Handles(s')
  {
  }

  lemma StoredHandles(s: State, s': State, inc: Inc)
    requires OneActive(s) && Handles(s) && OneChanged(s, s', inc) && !Finished(s.insts[inc])
    requires s'.stopTasks == s.stopTasks[s.insts[inc].id := inc] && s'.insts[inc].stored
    ensures Handles(s')
  {
  }

  lemma RemovedHandles(s: State, s': State, inc: Inc)
    requires OneActive(s) && Handles(s) && OneChanged(s, s', inc) && !Finished(s.insts[inc])
    requires s'.stopTasks == s.stopTasks - {s.insts[inc].id} && s'.insts[inc].watch == Gone
    requires s'.insts[inc].stored == s.insts[inc].stored
    ensures Handles(s')
  {
  }

  lemma OneChangedKeepsBase(s: State, s': State, inc: Inc)
    requires Base(s) && OneChanged(s, s', inc) && InstInv(s', inc) && Handles(s')
    requires Finished(s.insts[inc]) ==> Finished(s'.insts[inc])
    ensures Base(s')
  {
    forall i | i in s'.insts ensures InstInv(s', i) {
      if i != inc {
        assert InstInv(s, i);
        OneChangedInMap(s, s', inc, i);
      }
    }
  }

  lemma ActiveKeepsBase(s: State, a: Action)
    requires Base(s) && Enabled(s, a) && !Quiet(a) && !a.Start?
    ensures Base(Apply(s, a))
  {
    ActiveChangesOne(s, a);
    assert InstInv(s, a.inc);
    MovedInst(s, a, Apply(s, a));
    ActiveHandles(s, a);
    OneChangedKeepsBase(s, Apply(s, a), a.inc);
  }

  lemma StepKeepsBase(s: State, a: Action)
    requires Base(s) && Enabled(s, a) && Tidy(s, a)
    ensures Base(Apply(s, a))
  {
    if a.Start? {
      StartKeepsBase(s, a);
    } else if a.Delete? {
      DeleteKeepsBase(s, a);
    } else if Quiet(a) {
      QuietKeepsBase(s, a);
    } else {
      ActiveKeepsBase(s, a);
    }
  }

  // --- What is alive or about to notify stays so ---

  /** This step notified the waiter. */
  predicate WasNotified(s: State, s': State) {
    if s.waiter.Blocked? then s'.waiter == FRESH else s'.permit
  }

  /** Steps left until the notification. */
  function Remaining(s: State, w: Witness): nat {
    match w
    case Instance(inc) =>
      if WatchAt(s, inc, Woken) then 1
      else (if ThreadAt(s, inc, Stopped) then 1 else 0) + (if WatchAt(s, inc, NotSpawned) then 1 else 0) + 2
    case WebClient(_) => 1
  }

  /** The step does not delete this start before its start call has looked it up. */
  predicate Keeps(s: State, a: Action, w: Witness) {
    a.Delete? && a.id in s.instances && w == Instance(s.instances[a.id]) ==> Settled(s, a)
  }

  lemma ClientKept(s: State, a: Action, g: Guard)
    requires Enabled(s, a) && Hopeful(s, WebClient(g))
    ensures var s', w := Apply(s, a), WebClient(g); Hopeful(s', w) || WasNotified(s, s')
    ensures ClientAt(s, g, Released) ==> ClientAt(Apply(s, a), g, Released) || WasNotified(s, Apply(s, a))
  {
  }

  /** A start left alone, and left in the map while nobody has looked it up. */
  lemma SameInstKept(s: State, s': State, inc: Inc)
    requires inc in s.insts && inc in s'.insts && s'.insts[inc] == s.insts[inc]
    requires InMap(s, inc) && s.insts[inc].watch == NotSpawned ==> InMap(s', inc)
    ensures var w := Instance(inc);
            && (Hopeful(s, w) ==> Hopeful(s', w))
            && (WillNotify(s, w) ==> WillNotify(s', w) && Remaining(s', w) <= Remaining(s, w))
  {
  }

  lemma QuietInstanceKept(s: State, a: Action, inc: Inc)
    requires Enabled(s, a) && (Quiet(a) || a.Start?) && Keeps(s, a, Instance(inc))
    requires Hopeful(s, Instance(inc))
    ensures var s', w := Apply(s, a), Instance(inc);
            && Hopeful(s', w)
            && (WillNotify(s, w) ==> WillNotify(s', w) && Remaining(s', w) <= Remaining(s, w))
  {
    SameInstKept(s, Apply(s, a), inc);
  }

  lemma ActiveInstanceKept(s: State, a: Action, inc: Inc)
    requires Base(s) && Enabled(s, a) && !Quiet(a) && !a.Start? && Hopeful(s, Instance(inc))
    ensures var s', w := Apply(s, a), Instance(inc);
            || WasNotified(s, s')
            || (&& Hopeful(s', w)
                && (WillNotify(s, w) ==> WillNotify(s', w) && Remaining(s', w) <= Remaining(s, w)))
  {
    ActiveChangesOne(s, a);
    if inc == a.inc {
      SelfKept(s, a);
    } else {
      OneChangedInMap(s, Apply(s, a), a.inc, inc);
      SameInstKept(s, Apply(s, a), inc);
    }
  }

  lemma SelfKept(s: State, a: Action)
    requires Base(s) && Enabled(s, a) && !Quiet(a) && !a.Start? && Hopeful(s, Instance(a.inc))
    requires OneChanged(s, Apply(s, a), a.inc) && Apply(s, a).insts[a.inc] == Moved(s, a)
    ensures var s', w := Apply(s, a), Instance(a.inc);
            || WasNotified(s, s')
            || (&& Hopeful(s', w)
                && (WillNotify(s, w) ==> WillNotify(s', w) && Remaining(s', w) <= Remaining(s, w)))
  {
    if !a.WatchNotifies? {
      assert InstInv(s, a.inc);
      MovedKept(s, a, Apply(s, a));
    }
  }

  lemma MovedKept(s: State, a: Action, s': State)
    requires Enabled(s, a) && !Quiet(a) && !a.Start? && !a.WatchNotifies? && InstInv(s, a.inc)
    requires OneChanged(s, s', a.inc) && s'.insts[a.inc] == Moved(s, a) && Hopeful(s, Instance(a.inc))
    ensures var w := Instance(a.inc);
            && Hopeful(s', w)
            && (WillNotify(s, w) ==> WillNotify(s', w) && Remaining(s', w) <= Remaining(s, w))
  {
    OneChangedInMap(s, s', a.inc, a.inc);
  }

  /** Whatever was alive or about to notify stays so, unless this step is the notification. */
  lemma WitnessKept(s: State, a: Action, w: Witness)
    requires Base(s) && Enabled(s, a) && Keeps(s, a, w) && Hopeful(s, w)
    ensures Hopeful(Apply(s, a), w) || WasNotified(s, Apply(s, a))
  {
    match w
    case WebClient(g) => ClientKept(s, a, g);
    case Instance(inc) =>
      if Quiet(a) || a.Start? {
        QuietInstanceKept(s, a, inc);
      } else {
        ActiveInstanceKept(s, a, inc);
      }
  }

  /** No step of anybody sets a notification on its way back. */
  lemma RemainingNeverGrows(s: State, a: Action, w: Witness)
    requires Base(s) && Enabled(s, a) && Keeps(s, a, w) && WillNotify(s, w)
    ensures var s' := Apply(s, a);
            (WillNotify(s', w) && Remaining(s', w) <= Remaining(s, w)) || WasNotified(s, s')
  {
    match w
    case WebClient(g) => ClientKept(s, a, g);
    case Instance(inc) =>
      if Quiet(a) || a.Start? {
        QuietInstanceKept(s, a, inc);
      } else {
        ActiveInstanceKept(s, a, inc);
      }
  }

  /** Hope survives every harmless step that does not notify. */
  lemma HopeKept(s: State, a: Action)
    requires Base(s) && Enabled(s, a) && Harmless(s, a) && Hope(s)
    requires s.waiter.Blocked? || (s.waiter.Found? && !s.permit)
    ensures Hope(Apply(s, a)) || WasNotified(s, Apply(s, a))
  {
    var w :| Hopeful(s, w) && Keeps(s, a, w);
    WitnessKept(s, a, w);
  }

  // --- Steps keep the waiter's part ---

  /** A thread that stopped does not run again. */
  lemma StoppedStays(s: State, a: Action, inc: Inc)
    requires Enabled(s, a) && inc in s.insts && !ThreadAt(s, inc, Running)
    ensures inc in Apply(s, a).insts && !ThreadAt(Apply(s, a), inc, Running)
  {
  }

  /** Steps of the waiter itself. */
  predicate OfWaiter(a: Action) {
    a.ScanInstance? || a.ScanNext? || a.ScanEnds? || a.CheckClients? || a.CheckFails? || a.Await?
  }

  lemma OthersAndWaiter(s: State, a: Action)
    requires Enabled(s, a) && !OfWaiter(a)
    ensures var s' := Apply(s, a);
            && s'.shards == s.shards
            && (s'.waiter == s.waiter || (s.waiter.Blocked? && s'.waiter == FRESH))
            && (s.permit ==> s'.permit)
  {
  }

  lemma ScanKept(s: State, a: Action)
    requires Base(s) && WaiterInv(s) && Enabled(s, a) && s.waiter.Scanning?
    ensures WaiterInv(Apply(s, a))
  {
    var s' := Apply(s, a);
    if a.ScanInstance? && s'.waiter.Found? {
      assert Hopeful(s', Instance(s.instances[a.id]));
    } else if !OfWaiter(a) {
      OthersAndWaiter(s, a);
    }
    if s'.waiter.Scanning? {
      forall inc | inc in s'.waiter.stopped ensures inc in s'.insts && !ThreadAt(s', inc, Running) {
        if inc in s.waiter.stopped {
          StoppedStays(s, a, inc);
        }
      }
    }
  }

  lemma AsleepKept(s: State, a: Action)
    requires Base(s) && WaiterInv(s) && Enabled(s, a) && Harmless(s, a)
    requires s.waiter.Blocked? || s.waiter.Found?
    ensures WaiterInv(Apply(s, a))
  {
    if s.waiter.Blocked? || !s.permit {
      HopeKept(s, a);
    }
    if !OfWaiter(a) {
      OthersAndWaiter(s, a);
    }
  }

  lemma RestKept(s: State, a: Action)
    requires Base(s) && Enabled(s, a) && (s.waiter.Scanned? || s.waiter.Returned?)
    ensures WaiterInv(Apply(s, a))
    ensures s.waiter.Returned? ==> Apply(s, a).waiter.Returned?
  {
    var s' := Apply(s, a);
    if a.CheckClients? {
      assert Hopeful(s', WebClient(a.guard));
    } else if !OfWaiter(a) {
      OthersAndWaiter(s, a);
    }
  }

  lemma StepKeepsInv(s: State, a: Action)
    requires Inv(s) && Enabled(s, a) && Harmless(s, a)
    ensures Inv(Apply(s, a))
  {
    StepKeepsBase(s, a);
    match s.waiter
    case Scanning(_, _) => ScanKept(s, a);
    case Blocked => AsleepKept(s, a);
    case Found => AsleepKept(s, a);
    case Scanned => RestKept(s, a);
    case Returned => RestKept(s, a);
  }

  // --- Runs ---

  ghost predicate IsRun(states: seq<State>, actions: seq<Action>) {
    && |states| == |actions| + 1
    && states[0] == Init(states[0].shards)
    && forall i :: 0 <= i < |actions| ==>
         Enabled(states[i], actions[i]) && states[i + 1] == Apply(states[i], actions[i])
  }

  ghost predicate AllHarmless(states: seq<State>, actions: seq<Action>) {
    |states| == |actions| + 1 && forall i :: 0 <= i < |actions| ==> Harmless(states[i], actions[i])
  }

  lemma {:induction false} RunKeepsInv(states: seq<State>, actions: seq<Action>, n: nat)
    requires IsRun(states, actions) && AllHarmless(states, actions) && n < |states|
    ensures Inv(states[n])
  {
    if n > 0 {
      RunKeepsInv(states, actions, n - 1);
      StepKeepsInv(states[n - 1], actions[n - 1]);
    }
  }

  /** In every state reached by harmless steps, a waiter asleep means that something is alive or that a
      notification is on its way. */
  lemma WakeupNeverLost(states: seq<State>, actions: seq<Action>, n: nat)
    requires IsRun(states, actions) && AllHarmless(states, actions) && n < |states|
    ensures NoLostWakeup(states[n])
  {
    RunKeepsInv(states, actions, n);
  }

  // --- A notification on its way arrives ---

  /** What is alive ends, and what is about to notify takes its next step. */
  function NextStep(s: State, w: Witness): Action {
    match w
    case Instance(inc) =>
      if ThreadAt(s, inc, Running) then ThreadStops(inc)
      else if WatchAt(s, inc, Woken) then WatchNotifies(inc)
      else if ThreadAt(s, inc, Stopped) then ThreadNotifies(inc)
      else if WatchAt(s, inc, NotSpawned) then SpawnWatch(inc)
      else WatchWakes(inc)
    case WebClient(g) => if ClientAt(s, g, Held) then Release(g) else ReleaseNotifies(g)
  }

  /** What is about to notify can always take its next step, and its fourth step at the latest notifies
      the waiter. */
  lemma NotificationArrives(s: State, w: Witness)
    requires Base(s) && WillNotify(s, w)
    ensures Enabled(s, NextStep(s, w)) && 0 < Remaining(s, w) <= 4
    ensures var s' := Apply(s, NextStep(s, w));
            if Remaining(s, w) == 1 then WasNotified(s, s')
            else WillNotify(s', w) && Remaining(s', w) == Remaining(s, w) - 1
  {
    if w.Instance? {
      assert InstInv(s, w.inc);
      if !WatchAt(s, w.inc, Woken) {
        var a := NextStep(s, w);
        ActiveChangesOne(s, a);
        NextMoves(s, w, Apply(s, a));
      }
    }
  }

  lemma NextMoves(s: State, w: Witness, s': State)
    requires w.Instance? && WillNotify(s, w) && !WatchAt(s, w.inc, Woken) && InstInv(s, w.inc)
    requires var a := NextStep(s, w);
             Enabled(s, a) && !Quiet(a) && !a.Start? && s'.insts == s.insts[w.inc := Moved(s, a)]
    requires OneChanged(s, s', w.inc)
    ensures WillNotify(s', w) && Remaining(s', w) == Remaining(s, w) - 1
  {
    OneChangedInMap(s, s', w.inc, w.inc);
  }
}
