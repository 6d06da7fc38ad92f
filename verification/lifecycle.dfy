/** The lifecycle as a transition system: every request, every completion
    of a detached task, every reconcile tick, every per-store turn of a
    reconcile pass and every clock advance is an event, and the
    orchestrator's steps are applied one event at a time in any
    interleaving. The invariant the steps keep is proved here, together with
    the traces in which a late task completion or a stale reconcile turn
    moves a store along an edge `TableEdge` does not list. */
module Lifecycle {
  import opened Common
  import opened StoreDb
  import opened Provisioner
  import opened StoreManager

  /** The orchestrator state together with the cleanup tasks that have been
      started and not yet finished (a store can have two, see
      `SecondDeleteAfterLateReady`), and the reconcile passes under way, each
      as the part of its snapshot it has yet to visit. The interval fires
      whether or not the previous pass has finished, so several can be under
      way at once. */
  datatype World = World(sys: System, cleanups: multiset<Id>, passes: seq<seq<Store>>)

  datatype Event =
    | CreateRequest(name: string, engine: string, ipAddress: Option<string>, freshId: Id)
    | ProvisionFinished(storeId: Id, install: Result<Urls, string>, ready: Result<bool, string>)
    | DeleteRequest(storeId: Id, ipAddress: Option<string>)
    | CleanupFinished(storeId: Id, fault: CleanupFault)
    | ReconcileTick
    | ReconcileTurn(pass: nat, observed: Observation)
    | ClockAdvance(seconds: nat)
    | StartLoop
    | StopLoop

  /** A task can only finish once it has been started, and the interval only
      fires while it is set. */
  predicate Enabled(w: World, e: Event) {
    match e
    case ProvisionFinished(id, _, _) => id in w.sys.provisions
    case CleanupFinished(id, _) => id in w.cleanups
    case ReconcileTick => w.sys.timerSet
    case ReconcileTurn(p, _) => p < |w.passes| && |w.passes[p]| > 0
    case _ => true
  }

  function Step(w: World, cfg: Config, e: Event): World {
    match e
    case CreateRequest(name, engine, ip, freshId) =>
      World(StoreManager.CreateStore(w.sys, cfg, name, engine, ip, freshId).0, w.cleanups, w.passes)
    case ProvisionFinished(id, install, ready) =>
      World(ProvisionOutcome(w.sys, id, install, ready), w.cleanups, w.passes)
    case DeleteRequest(id, ip) =>
      var (sys', r) := DeleteStore(w.sys, id, ip);
      World(sys', if r.Ok? then w.cleanups + multiset{id} else w.cleanups, w.passes)
    case CleanupFinished(id, fault) =>
      World(DeleteCleanup(w.sys, id, fault), w.cleanups - multiset{id}, w.passes)
    case ReconcileTick =>
      World(w.sys, w.cleanups, w.passes + [GetProvisioningStores(w.sys.db)])
    case ReconcileTurn(p, o) =>
      if p < |w.passes| && |w.passes[p]| > 0 then
        World(w.sys.(db := ReconcileStore(w.sys.db, w.passes[p][0], cfg.provisioningTimeoutMs, o)), w.cleanups,
              w.passes[p := w.passes[p][1..]])
      else w
    case ClockAdvance(seconds) =>
      World(w.sys.(db := Tick(w.sys.db, seconds)), w.cleanups, w.passes)
    case StartLoop => World(StartReconcileLoop(w.sys), w.cleanups, w.passes)
    case StopLoop => World(StopReconcileLoop(w.sys), w.cleanups, w.passes)
  }

  // ---------------------------------------------------------------------
  // The invariant
  // ---------------------------------------------------------------------

  /** Among the visible records, names are unique. */
  ghost predicate UniqueVisibleNames(db: Db) {
    forall a, b ::
      (a in db.stores && b in db.stores && Visible(db.stores[a]) && Visible(db.stores[b])
       && db.stores[a].name == db.stores[b].name) ==> a == b
  }

  ghost predicate Inv(w: World, cfg: Config) {
    && WellFormed(w.sys.db)
    && UniqueVisibleNames(w.sys.db)
    && (forall id :: id in w.sys.provisions ==> id in w.sys.db.stores)
    && (forall id :: id in w.cleanups ==> id in w.sys.db.stores)
    && (|w.sys.provisions| <= cfg.maxConcurrentProvisions || w.sys.provisions == {})
  }

  lemma InitialInv(cfg: Config)
    ensures Inv(World(InitialSystem, multiset{}, []), cfg)
  {
    EmptyDbWellFormed();
  }

  /** `r` has the records of `db`, with the same names, and none of them
      has become visible again. */
  ghost predicate Narrows(db: Db, r: Db) {
    && r.stores.Keys == db.stores.Keys
    && forall id :: id in db.stores ==>
         r.stores[id].name == db.stores[id].name && (Visible(r.stores[id]) ==> Visible(db.stores[id]))
  }

  lemma NarrowsKeepsUniqueNames(db: Db, r: Db)
    requires Narrows(db, r) && UniqueVisibleNames(db)
    ensures UniqueVisibleNames(r)
  {
  }

  lemma NarrowsTransitive(a: Db, b: Db, c: Db)
    requires Narrows(a, b) && Narrows(b, c)
    ensures Narrows(a, c)
  {
  }

  lemma UpdateNarrows(db: Db, id: Id, status: Status, extras: Extras)
    ensures Narrows(db, UpdateStoreStatus(db, id, status, extras).0)
  {
  }

  lemma MarkDeletedNarrows(db: Db, id: Id)
    ensures Narrows(db, MarkDeleted(db, id))
  {
  }

  /** One reconcile turn keeps the table well formed and only narrows it,
      whatever row of whatever snapshot it acts on. */
  lemma ReconcileStoreKeeps(db: Db, s: Store, timeoutMs: int, o: Observation)
    requires WellFormed(db)
    ensures WellFormed(ReconcileStore(db, s, timeoutMs, o))
    ensures Narrows(db, ReconcileStore(db, s, timeoutMs, o))
  {
    match Decide(Age(s, o), timeoutMs, o.namespace, o.podsReady)
    case TimedOut => UpdateNarrows(db, s.id, Failed, Extras(None, None, Some(Some(TimedOutError))));
    case NamespaceGone => UpdateNarrows(db, s.id, Failed, Extras(None, None, Some(Some(NamespaceGoneError))));
    case BecameReady => UpdateNarrows(db, s.id, Ready, Extras(None, None, Some(None)));
    case _ =>
  }

  /** A reconcile pass keeps the table well formed and only narrows it. */
  lemma {:induction false} ReconcileAllKeeps(db: Db, snapshot: seq<Store>, timeoutMs: int, observe: Store -> Observation)
    requires WellFormed(db)
    ensures WellFormed(ReconcileAll(db, snapshot, timeoutMs, observe))
    ensures Narrows(db, ReconcileAll(db, snapshot, timeoutMs, observe))
    decreases |snapshot|
  {
    if |snapshot| > 0 {
      var s := snapshot[0];
      var next := ReconcileStore(db, s, timeoutMs, observe(s));
      ReconcileStoreKeeps(db, s, timeoutMs, observe(s));
      ReconcileAllKeeps(next, snapshot[1..], timeoutMs, observe);
      NarrowsTransitive(db, next, ReconcileAll(next, snapshot[1..], timeoutMs, observe));
    }
  }

  lemma FailProvisionKeeps(db: Db, id: Id, message: string)
    requires WellFormed(db)
    ensures WellFormed(FailProvision(db, id, message)) && Narrows(db, FailProvision(db, id, message))
  {
    var db1 := AddEvent(db, id, Error, ProvisioningFailed(message));
    UpdateNarrows(db1, id, Failed, Extras(None, None, Some(Some(message))));
  }

  lemma ProvisionOutcomeKeeps(sys: System, id: Id, install: Result<Urls, string>, ready: Result<bool, string>)
    requires WellFormed(sys.db)
    ensures WellFormed(ProvisionOutcome(sys, id, install, ready).db)
    ensures Narrows(sys.db, ProvisionOutcome(sys, id, install, ready).db)
  {
    var after := ProvisionOutcome(sys, id, install, ready).db;
    match install
    case Err(m) =>
      FailProvisionKeeps(sys.db, id, m);
    case Ok(urls) =>
      var waiting := AddEvent(sys.db, id, Info, WaitingForPods);
      match ready
      case Err(m) =>
        FailProvisionKeeps(waiting, id, m);
        assert after == FailProvision(waiting, id, m);
      case Ok(_) =>
        var live := AddEvent(waiting, id, Success, StoreIsLive);
        var extras := Extras(Some(urls.storeUrl), Some(urls.adminUrl), Some(None));
        UpdateNarrows(live, id, Ready, extras);
        assert after == UpdateStoreStatus(live, id, Ready, extras).0;
  }

  lemma DeleteStoreKeeps(sys: System, id: Id, ip: Option<string>)
    requires WellFormed(sys.db)
    ensures WellFormed(DeleteStore(sys, id, ip).0.db)
    ensures Narrows(sys.db, DeleteStore(sys, id, ip).0.db)
  {
    if GetStore(sys.db, id).Some? && GetStore(sys.db, id).value.status != Deleting {
      UpdateNarrows(sys.db, id, Deleting, NoExtras);
    }
  }

  lemma DeleteCleanupKeeps(sys: System, id: Id, fault: CleanupFault)
    requires WellFormed(sys.db)
    ensures WellFormed(DeleteCleanup(sys, id, fault).db)
    ensures Narrows(sys.db, DeleteCleanup(sys, id, fault).db)
  {
    match fault
    case NoFault => MarkDeletedNarrows(sys.db, id);
    case MarkDeletedFails(m) =>
      var db1 := AddEvent(sys.db, id, Error, DeletionFailed(m));
      UpdateNarrows(db1, id, Failed, Extras(None, None, Some(Some(DeleteFailedError(m)))));
    case SuccessEventFails(m) =>
      var db1 := MarkDeleted(sys.db, id);
      var db2 := AddEvent(db1, id, Error, DeletionFailed(m));
      MarkDeletedNarrows(sys.db, id);
      UpdateNarrows(db2, id, Failed, Extras(None, None, Some(Some(DeleteFailedError(m)))));
      NarrowsTransitive(sys.db, db1, DeleteCleanup(sys, id, fault).db);
  }

  /** Adding a visible record under a name no visible record holds keeps
      visible names unique. */
  lemma InsertKeepsUniqueNames(db: Db, rec: Store)
    requires UniqueVisibleNames(db)
    requires rec.id !in db.stores
    requires forall id :: id in db.stores && Visible(db.stores[id]) ==> db.stores[id].name != rec.name
    ensures UniqueVisibleNames(Insert(db, rec))
  {
  }

  /** When `getStoreByName` finds nothing, no visible record has the name. */
  lemma NameFree(db: Db, name: string)
    requires WellFormed(db) && GetStoreByName(db, name).None?
    ensures forall id :: id in db.stores && Visible(db.stores[id]) ==> db.stores[id].name != name
  {
  }

  /** The writes of an accepted create keep the table well formed and its
      visible names unique, and add exactly the new key. */
  lemma CreateWritesKeep(sys: System, cfg: Config, name: string, engine: string, ip: Option<string>, freshId: Id)
    requires WellFormed(sys.db) && UniqueVisibleNames(sys.db)
    ensures var r := StoreManager.CreateStore(sys, cfg, name, engine, ip, freshId);
            r.1.Ok? ==>
              && WellFormed(r.0.db) && UniqueVisibleNames(r.0.db)
              && r.0.db.stores.Keys == sys.db.stores.Keys + {freshId}
  {
    var r := StoreManager.CreateStore(sys, cfg, name, engine, ip, freshId);
    if r.1.Ok? {
      var rec := r.1.value;
      AcceptedCreateWrites(sys, cfg, name, engine, ip, freshId);
      AcceptedInsertKeeps(sys.db, rec);
    }
  }

  /** What an accepted create writes: a fresh `Provisioning` row under a name
      no visible store held, then the audit entry and the events. */
  lemma AcceptedCreateWrites(sys: System, cfg: Config, name: string, engine: string, ip: Option<string>, freshId: Id)
    ensures var r := StoreManager.CreateStore(sys, cfg, name, engine, ip, freshId);
            r.1.Ok? ==>
              var rec := r.1.value;
              && rec.id == freshId && rec.id !in sys.db.stores && rec.name == name
              && rec.createdAt == sys.db.clock && rec.status == Provisioning
              && GetStoreByName(sys.db, name).None?
              && r.0.db == CreateWrites(Insert(sys.db, rec), name, freshId, cfg.namespacePrefix + freshId, ip)
  {
    var r := StoreManager.CreateStore(sys, cfg, name, engine, ip, freshId);
    if r.1.Ok? {
      var rec := r.1.value;
      assert Rejection(sys, cfg, name, engine).None?;
      assert StoreDb.CreateStore(sys.db, NewRecord(cfg, name, freshId)) == Ok((Insert(sys.db, rec), rec));
    }
  }

  /** Inserting a fresh `Provisioning` row under a name no visible store
      holds keeps the table well formed and its visible names unique. */
  lemma AcceptedInsertKeeps(db: Db, rec: Store)
    requires WellFormed(db) && UniqueVisibleNames(db)
    requires rec.id !in db.stores && rec.createdAt == db.clock && rec.status == Provisioning
    requires GetStoreByName(db, rec.name).None?
    ensures WellFormed(Insert(db, rec)) && UniqueVisibleNames(Insert(db, rec))
  {
    NameFree(db, rec.name);
    InsertKeepsWellFormed(db, rec);
    InsertKeepsUniqueNames(db, rec);
  }

  lemma CreateKeeps(w: World, cfg: Config, name: string, engine: string, ip: Option<string>, freshId: Id)
    requires Inv(w, cfg)
    ensures Inv(World(StoreManager.CreateStore(w.sys, cfg, name, engine, ip, freshId).0, w.cleanups, w.passes), cfg)
  {
    var r := StoreManager.CreateStore(w.sys, cfg, name, engine, ip, freshId);
    CreateWritesKeep(w.sys, cfg, name, engine, ip, freshId);
    if r.1.Ok? {
      RejectionCases(w.sys, cfg, name, engine);
      AdmittedTrackWithinBound(w.sys.provisions, freshId, cfg.maxConcurrentProvisions);
    }
  }

  lemma ProvisionKeeps(w: World, cfg: Config, id: Id, install: Result<Urls, string>, ready: Result<bool, string>)
    requires Inv(w, cfg)
    ensures Inv(World(ProvisionOutcome(w.sys, id, install, ready), w.cleanups, w.passes), cfg)
  {
    var after := World(ProvisionOutcome(w.sys, id, install, ready), w.cleanups, w.passes);
    ProvisionOutcomeKeeps(w.sys, id, install, ready);
    NarrowsKeepsUniqueNames(w.sys.db, after.sys.db);
    TrackSettleCount(w.sys.provisions, id);
    assert after.sys.provisions <= w.sys.provisions;
  }

  lemma DeleteKeeps(w: World, cfg: Config, id: Id, ip: Option<string>)
    requires Inv(w, cfg)
    ensures var (sys', r) := DeleteStore(w.sys, id, ip);
            Inv(World(sys', if r.Ok? then w.cleanups + multiset{id} else w.cleanups, w.passes), cfg)
  {
    DeleteStoreKeeps(w.sys, id, ip);
    NarrowsKeepsUniqueNames(w.sys.db, DeleteStore(w.sys, id, ip).0.db);
  }

  lemma CleanupKeeps(w: World, cfg: Config, id: Id, fault: CleanupFault)
    requires Inv(w, cfg)
    ensures Inv(World(DeleteCleanup(w.sys, id, fault), w.cleanups - multiset{id}, w.passes), cfg)
  {
    DeleteCleanupKeeps(w.sys, id, fault);
    NarrowsKeepsUniqueNames(w.sys.db, DeleteCleanup(w.sys, id, fault).db);
  }

  /** A reconcile pass over any snapshot of records, run with no other
      event in between, keeps the invariant. */
  lemma ReconcileKeeps(w: World, cfg: Config, snapshot: seq<Store>, observe: Store -> Observation)
    requires Inv(w, cfg)
    ensures Inv(World(w.sys.(db := ReconcileAll(w.sys.db, snapshot, cfg.provisioningTimeoutMs, observe)), w.cleanups, w.passes), cfg)
  {
    ReconcileAllKeeps(w.sys.db, snapshot, cfg.provisioningTimeoutMs, observe);
    NarrowedKeeps(w, cfg, ReconcileAll(w.sys.db, snapshot, cfg.provisioningTimeoutMs, observe));
  }

  /** One turn of a pass under way keeps the invariant, whatever has
      happened to its store since the snapshot was taken. */
  lemma TurnKeeps(w: World, cfg: Config, s: Store, o: Observation, passes: seq<seq<Store>>)
    requires Inv(w, cfg)
    ensures Inv(World(w.sys.(db := ReconcileStore(w.sys.db, s, cfg.provisioningTimeoutMs, o)), w.cleanups, passes), cfg)
  {
    ReconcileStoreKeeps(w.sys.db, s, cfg.provisioningTimeoutMs, o);
    NarrowedKeeps(w, cfg, ReconcileStore(w.sys.db, s, cfg.provisioningTimeoutMs, o));
  }

  /** Replacing the database by a well-formed narrowing of it keeps the
      invariant. */
  lemma NarrowedKeeps(w: World, cfg: Config, db: Db)
    requires Inv(w, cfg) && WellFormed(db) && Narrows(w.sys.db, db)
    ensures Inv(World(w.sys.(db := db), w.cleanups, w.passes), cfg)
  {
    NarrowsKeepsUniqueNames(w.sys.db, db);
  }

  /** Every enabled step keeps the invariant. */
  lemma StepKeepsInv(w: World, cfg: Config, e: Event)
    requires Inv(w, cfg) && Enabled(w, e)
    ensures Inv(Step(w, cfg, e), cfg)
  {
    match e
    case CreateRequest(name, engine, ip, freshId) => CreateKeeps(w, cfg, name, engine, ip, freshId);
    case ProvisionFinished(id, install, ready) => ProvisionKeeps(w, cfg, id, install, ready);
    case DeleteRequest(id, ip) => DeleteKeeps(w, cfg, id, ip);
    case CleanupFinished(id, fault) => CleanupKeeps(w, cfg, id, fault);
    case ReconcileTick =>
    case ReconcileTurn(p, o) =>
      if p < |w.passes| && |w.passes[p]| > 0 {
        TurnKeeps(w, cfg, w.passes[p][0], o, w.passes[p := w.passes[p][1..]]);
      }
    case ClockAdvance(seconds) =>
    case StartLoop =>
    case StopLoop =>
  }

  /** The states reachable by enabled steps from the initial one. */
  ghost predicate Reachable(cfg: Config, events: seq<Event>, w: World)
    decreases |events|
  {
    if |events| == 0 then w == World(InitialSystem, multiset{}, [])
    else
      var before := events[..|events| - 1];
      var e := events[|events| - 1];
      exists v :: Reachable(cfg, before, v) && Enabled(v, e) && w == Step(v, cfg, e)
  }

  lemma {:induction false} ReachableInv(cfg: Config, events: seq<Event>, w: World)
    requires Reachable(cfg, events, w)
    ensures Inv(w, cfg)
    decreases |events|
  {
    if |events| == 0 {
      InitialInv(cfg);
    } else {
      var before := events[..|events| - 1];
      var e := events[|events| - 1];
      var v :| Reachable(cfg, before, v) && Enabled(v, e) && w == Step(v, cfg, e);
      ReachableInv(cfg, before, v);
      StepKeepsInv(v, cfg, e);
    }
  }

  // ---------------------------------------------------------------------
  // Traces outside the status table
  // ---------------------------------------------------------------------

  /** The status changes the orchestrator is meant to make: a new store
      leaves `Provisioning` for `Ready`, `Failed` or `Deleting`; a `Ready` or
      `Failed` store can only be deleted; a `Deleting` store ends `Deleted`,
      or `Failed` when its cleanup throws. */
  predicate TableEdge(from: Status, to: Status) {
    || (from == Provisioning && to in {Ready, Failed, Deleting})
    || (from == Ready && to == Deleting)
    || (from == Failed && to == Deleting)
    || (from == Deleting && to in {Deleted, Failed})
  }

  /** A reconcile turn acts on the row as the pass's snapshot saw it. A
      store accepted for deletion after the snapshot was taken is still
      visited: when its namespace is already gone the turn writes `Failed`
      with "Namespace no longer exists" over `Deleting`, and when its pods
      still report ready it writes `Ready` over `Deleting`, an edge the
      table does not have. */
  lemma StaleTurnOverwritesDeleting(sys: System, s: Store, timeoutMs: int, ip: Option<string>, o: Observation)
    requires GetStore(sys.db, s.id) == Some(s) && s.status == Provisioning
    requires Age(s, o) <= timeoutMs && o.namespace.Ok?
    ensures var (deleting, ack) := DeleteStore(sys, s.id, ip);
            var after := ReconcileStore(deleting.db, s, timeoutMs, o);
            && ack.Ok? && s.id in deleting.db.stores && deleting.db.stores[s.id].status == Deleting
            && s.id in after.stores
            && (o.namespace == Ok(false) ==>
                  after.stores[s.id].status == Failed && after.stores[s.id].errorMessage == Some(NamespaceGoneError))
            && (o.namespace == Ok(true) && o.podsReady ==>
                  after.stores[s.id].status == Ready && !TableEdge(Deleting, Ready))
  {
    var deleting := DeleteStore(sys, s.id, ip).0;
    ReconcileStoreEffect(deleting.db, s, timeoutMs, o);
  }

  /** A delete accepted after a tick has taken its snapshot leaves the pass
      holding the row as it was: the next turn is enabled and visits a
      `Provisioning` copy of a store that is now `Deleting`, which is where
      `StaleTurnOverwritesDeleting` applies. */
  lemma TickThenDeleteLeavesStaleRow(w: World, cfg: Config, ip: Option<string>, o: Observation)
    requires WellFormed(w.sys.db) && w.sys.timerSet && w.passes == []
    requires |GetProvisioningStores(w.sys.db)| > 0
    ensures var s := GetProvisioningStores(w.sys.db)[0];
            var w1 := Step(w, cfg, ReconcileTick);
            var w2 := Step(w1, cfg, DeleteRequest(s.id, ip));
            && Enabled(w, ReconcileTick) && Enabled(w2, ReconcileTurn(0, o))
            && w2.passes[0][0] == s && s.status == Provisioning
            && GetStore(w.sys.db, s.id) == Some(s)
            && s.id in w2.sys.db.stores && w2.sys.db.stores[s.id].status == Deleting
            && w2.cleanups == w.cleanups + multiset{s.id}
  {
    var snapshot := GetProvisioningStores(w.sys.db);
    var s := snapshot[0];
    assert GetStore(w.sys.db, s.id) == Some(s) && s.status == Provisioning by {
      ProvisioningStoresComplete(w.sys.db);
      assert s in snapshot;
    }
  }

  /** A provisioning task that succeeds after its store was accepted for
      deletion writes `Ready` over `Deleting`: the outcome writer does not
      re-read the status. The record is visible again in `Ready`. */
  lemma LateReadyOverwritesDeleting(sys: System, id: Id, ip: Option<string>, urls: Urls)
    requires GetStore(sys.db, id).Some? && GetStore(sys.db, id).value.status != Deleting
    ensures var (deleting, ack) := DeleteStore(sys, id, ip);
            && ack.Ok?
            && deleting.db.stores[id].status == Deleting
            && var after := ProvisionOutcome(deleting, id, Ok(urls), Ok(true));
               && after.db.stores[id].status == Ready
               && GetStore(after.db, id).Some?
               && !TableEdge(Deleting, Ready)
  {
  }

  /** Because the record is back in `Ready`, the delete guard lets a second
      delete through, and two cleanup tasks for the same store are pending. */
  lemma SecondDeleteAfterLateReady(w: World, cfg: Config, id: Id, ip: Option<string>, urls: Urls)
    requires GetStore(w.sys.db, id).Some? && GetStore(w.sys.db, id).value.status != Deleting
    ensures var w1 := Step(w, cfg, DeleteRequest(id, ip));
            var w2 := Step(w1, cfg, ProvisionFinished(id, Ok(urls), Ok(true)));
            var w3 := Step(w2, cfg, DeleteRequest(id, ip));
            w3.cleanups[id] == w.cleanups[id] + 2
  {
  }

  /** A provisioning task that fails after deletion was accepted writes
      `Failed` over `Deleting`, an edge the table lists only for a failed
      teardown. */
  lemma LateFailureOverwritesDeleting(sys: System, id: Id, ip: Option<string>, message: string)
    requires GetStore(sys.db, id).Some? && GetStore(sys.db, id).value.status != Deleting
    ensures var deleting := DeleteStore(sys, id, ip).0;
            var after := ProvisionOutcome(deleting, id, Err(message), Ok(true));
            && after.db.stores[id].status == Failed
            && after.db.stores[id].errorMessage == Some(message)
  {
  }

  /** A provisioning task that outlives the whole teardown rewrites the
      status of a `Deleted` record; the record stays hidden, since
      `deleted_at` is never cleared, but `Deleted` is not terminal. */
  lemma LateOutcomeRewritesDeleted(sys: System, id: Id, urls: Urls)
    requires id in sys.db.stores
    ensures var deleted := DeleteCleanup(sys, id, NoFault);
            && deleted.db.stores[id].status == Deleted
            && var after := ProvisionOutcome(deleted, id, Ok(urls), Ok(true));
               && after.db.stores[id].status == Ready
               && GetStore(after.db, id).None?
               && !TableEdge(Deleted, Ready)
  {
  }

  /** The reconciler can give up on a store whose task later succeeds:
      `Failed` then `Ready`. The timeout frees the record's quota slot, and
      the late outcome makes it count against the quota again. */
  lemma TimeoutThenLateReady(db: Db, s: Store, timeoutMs: int, o: Observation, sys: System, urls: Urls)
    requires s.id in db.stores && Visible(db.stores[s.id])
    requires Age(s, o) > timeoutMs
    requires sys.db == ReconcileStore(db, s, timeoutMs, o)
    ensures sys.db.stores[s.id].status == Failed
    ensures s.id !in KeysWhere(sys.db, QuotaRows)
    ensures ProvisionOutcome(sys, s.id, Ok(urls), Ok(true)).db.stores[s.id].status == Ready
    ensures s.id in KeysWhere(ProvisionOutcome(sys, s.id, Ok(urls), Ok(true)).db, QuotaRows)
    ensures !TableEdge(Failed, Ready)
  {
    ReconcileStoreEffect(db, s, timeoutMs, o);
  }

  /** A `Failed` store gives its quota back but keeps its name: it is not
      counted as active, and a create with the same name is refused. */
  lemma FailedStoreFreesQuotaButBlocksName(sys: System, cfg: Config, id: Id, engine: string,
                                          ip: Option<string>, freshId: Id)
    requires WellFormed(sys.db)
    requires id in sys.db.stores && Visible(sys.db.stores[id]) && sys.db.stores[id].status == Failed
    requires engine == "woocommerce" && IsDnsLabel(sys.db.stores[id].name)
    ensures id !in KeysWhere(sys.db, QuotaRows)
    ensures StoreManager.CreateStore(sys, cfg, sys.db.stores[id].name, engine, ip, freshId).1
            == Err(Failure(Some(409), DuplicateNameMessage(sys.db.stores[id].name)))
  {
    var name := sys.db.stores[id].name;
    NamePatternIsDnsLabel(name);
    assert GetStoreByName(sys.db, name).Some?;
    assert Rejection(sys, cfg, name, engine) == Some(Failure(Some(409), DuplicateNameMessage(name)));
  }

  // ---------------------------------------------------------------------
  // End to end
  // ---------------------------------------------------------------------

  const AcmeId := "a1b2c3d4"
  const AcmeUrls := Urls("http://acme.store.localhost", "http://acme.store.localhost/wp-admin")

  /** A request for `acme` on the empty system is accepted, with the
      record `Provisioning`, visible, and its task the only one tracked. */
  lemma AcmeCreated()
    ensures var (s1, created) := StoreManager.CreateStore(InitialSystem, DefaultConfig, "acme", "woocommerce",
                                                          Some("10.0.0.1"), AcmeId);
            && created.Ok? && created.value.status == Provisioning
            && AcmeId in s1.db.stores && s1.db.stores[AcmeId] == created.value && Visible(created.value)
            && s1.provisions == {AcmeId}
  {
    RejectionCases(InitialSystem, DefaultConfig, "acme", "woocommerce");
    assert IsDnsLabel("acme");
    assert GetStoreByName(EmptyDb, "acme").None?;
  }

  /** Right after the `acme` create, the store's event query with a limit
      of 1 returns the creation event, and with the default limit of 50 the
      three opening events in the order they were written. */
  lemma AcmeEventsOldestFirst()
    ensures var s1 := StoreManager.CreateStore(InitialSystem, DefaultConfig, "acme", "woocommerce",
                                               Some("10.0.0.1"), AcmeId).0;
            && GetStoreEvents(s1.db, AcmeId, 1) == [StoreEvent(1, AcmeId, Info, CreationInitiated, 0)]
            && GetStoreEvents(s1.db, AcmeId, 50) == CreateEvents(EmptyDb, AcmeId)
  {
    AcmeCreated();
    var s1 := StoreManager.CreateStore(InitialSystem, DefaultConfig, "acme", "woocommerce", Some("10.0.0.1"), AcmeId).0;
    assert s1.db.events == CreateEvents(EmptyDb, AcmeId);
    OpeningEventsOldestFirst(EmptyDb, s1.db, AcmeId, 1);
    OpeningEventsOldestFirst(EmptyDb, s1.db, AcmeId, 50);
  }

  /** A task that reports the `acme` URLs and readiness for a visible
      record leaves it `Ready` with those URLs and `readyAt`, and frees
      its slot. */
  lemma ReadyAfterProvision(s1: System, id: Id)
    requires id in s1.db.stores && Visible(s1.db.stores[id]) && s1.provisions <= {id}
    ensures var s2 := ProvisionOutcome(s1, id, Ok(AcmeUrls), Ok(true));
            && GetStore(s2.db, id).Some?
            && GetStore(s2.db, id).value.status == Ready
            && GetStore(s2.db, id).value.storeUrl == Some(AcmeUrls.storeUrl)
            && GetStore(s2.db, id).value.readyAt.Some?
            && s2.provisions == {}
  {
  }

  /** Deleting a visible store that is not already being deleted is
      acknowledged; once its cleanup finishes the store is gone and a second
      delete answers 404. */
  lemma DeleteThenGone(s2: System, id: Id)
    requires GetStore(s2.db, id).Some? && GetStore(s2.db, id).value.status != Deleting
    ensures var (s3, ack) := DeleteStore(s2, id, None);
            && ack == Ok(DeleteAck(DeletionInitiated, id))
            && var s4 := DeleteCleanup(s3, id, NoFault);
               && GetStore(s4.db, id).None?
               && DeleteStore(s4, id, None).1 == Err(Failure(Some(404), NotFoundMessage))
  {
  }

  /** Create `acme`, let its task report the install URLs and readiness,
      delete it and let the cleanup finish: the create answers with a
      `Provisioning` record at once, the store is then `Ready` with its URLs
      and `readyAt`, the delete answers with its acknowledgement, and the
      record is gone afterwards. */
  lemma AcmeScenario()
    ensures var cfg := DefaultConfig;
            var (s1, created) := StoreManager.CreateStore(InitialSystem, cfg, "acme", "woocommerce", Some("10.0.0.1"), AcmeId);
            && created.Ok? && created.value.status == Provisioning
            && var s2 := ProvisionOutcome(s1, AcmeId, Ok(AcmeUrls), Ok(true));
               && GetStore(s2.db, AcmeId).Some?
               && GetStore(s2.db, AcmeId).value.status == Ready
               && GetStore(s2.db, AcmeId).value.storeUrl == Some("http://acme.store.localhost")
               && GetStore(s2.db, AcmeId).value.readyAt.Some?
               && s2.provisions == {}
               && var (s3, ack) := DeleteStore(s2, AcmeId, None);
                  && ack == Ok(DeleteAck("Store deletion initiated", AcmeId))
                  && var s4 := DeleteCleanup(s3, AcmeId, NoFault);
                     && GetStore(s4.db, AcmeId).None?
                     && DeleteStore(s4, AcmeId, None).1 == Err(Failure(Some(404), "Store not found"))
  {
    AcmeCreated();
    var s1 := StoreManager.CreateStore(InitialSystem, DefaultConfig, "acme", "woocommerce", Some("10.0.0.1"), AcmeId).0;
    ReadyAfterProvision(s1, AcmeId);
    DeleteThenGone(ProvisionOutcome(s1, AcmeId, Ok(AcmeUrls), Ok(true)), AcmeId);
  }
}
