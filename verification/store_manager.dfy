/** The store manager: the lifecycle orchestrator. `createStore` and
    `deleteStore` validate and record a request and start a detached task;
    the completion of each detached task is a step of its own here
    (`ProvisionOutcome`, `DeleteCleanup`), and so is each reconciliation
    pass. Ids, clocks and cluster answers are parameters. */
module StoreManager {
  import opened Common
  import opened StoreDb
  import opened Provisioner

  /** The configuration values the orchestrator reads. */
  datatype Config = Config(namespacePrefix: string, storeDomain: string, maxTotalStores: int,
                           maxConcurrentProvisions: int, provisioningTimeoutMs: int)

  /** The values used when no environment variable overrides them. */
  const DefaultConfig := Config("store-", "store.localhost", 50, 10, 600000)

  /** Everything the orchestrator's steps read and write: the repository,
      the admission gate, and the reconcile timer (whether one is set, and
      how many `setInterval` calls were made). */
  datatype System = System(db: Db, provisions: Gate, timerSet: bool, intervalsStarted: nat)

  const InitialSystem := System(EmptyDb, NoProvisions, false, 0)

  /** A thrown error: its `statusCode` (absent for an unexpected error,
      which the error handler answers with 500) and its message. */
  datatype Failure = Failure(statusCode: Option<nat>, message: string)

  // ---------------------------------------------------------------------
  // Store names
  // ---------------------------------------------------------------------

  predicate IsLowerAlnum(c: char) {
    ('a' <= c <= 'z') || ('0' <= c <= '9')
  }

  predicate IsLabelChar(c: char) {
    IsLowerAlnum(c) || c == '-'
  }

  /** A DNS label in the sense of section 2.3.1 of RFC 1035 as relaxed by
      section 2.1 of RFC 1123, restricted to lower case: 1 to 63 letters,
      digits and hyphens, with no hyphen at either end. */
  predicate IsDnsLabel(n: string) {
    && 1 <= |n| <= 63
    && (forall i :: 0 <= i < |n| ==> IsLabelChar(n[i]))
    && n[0] != '-' && n[|n| - 1] != '-'
  }

  /** `[a-z0-9-]{lo,hi}` against the whole of `s`. */
  predicate RepeatLabelChars(s: string, lo: nat, hi: nat) {
    lo <= |s| <= hi && forall i :: 0 <= i < |s| ==> IsLabelChar(s[i])
  }

  /** `/^[a-z0-9]([a-z0-9-]{0,61}[a-z0-9])?$/.test(n)`, read off the pattern:
      one alphanumeric, then either the end or a group of up to 61 label
      characters closed by an alphanumeric. */
  predicate MatchesNamePattern(n: string) {
    && |n| >= 1
    && IsLowerAlnum(n[0])
    && var rest := n[1..];
       || rest == []
       || (|rest| >= 1 && RepeatLabelChars(rest[..|rest| - 1], 0, 61) && IsLowerAlnum(rest[|rest| - 1]))
  }

  /** The pattern the orchestrator tests is exactly the DNS label rule. */
  lemma NamePatternIsDnsLabel(n: string)
    ensures MatchesNamePattern(n) <==> IsDnsLabel(n)
  {
    if MatchesNamePattern(n) && |n| > 1 {
      var rest := n[1..];
      forall i | 0 <= i < |n| ensures IsLabelChar(n[i]) {
        if 0 < i < |n| - 1 {
          assert n[i] == rest[..|rest| - 1][i - 1];
        }
      }
    }
    if IsDnsLabel(n) && |n| > 1 {
      var rest := n[1..];
      var middle := rest[..|rest| - 1];
      forall i | 0 <= i < |middle| ensures IsLabelChar(middle[i]) {
        assert middle[i] == n[i + 1];
      }
      assert IsLowerAlnum(n[|n| - 1]) by {
        assert IsLabelChar(n[|n| - 1]);
      }
    }
  }

  // ---------------------------------------------------------------------
  // createStore
  // ---------------------------------------------------------------------

  function InvalidEngineMessage(engine: string): string {
    "Invalid engine: " + engine + ". Supported: woocommerce, medusa"
  }

  const MedusaRejectedMessage := "MedusaJS engine is not yet implemented. Architecture is ready for Round 2."
  const BadNameMessage := "Store name must be DNS-safe: lowercase alphanumeric and hyphens, 1-63 chars"

  function DuplicateNameMessage(name: string): string {
    "Store with name \"" + name + "\" already exists"
  }

  function QuotaMessage(maxTotal: int): string {
    "Maximum total stores (" + IntToString(maxTotal) + ") reached"
  }

  function ConcurrencyMessage(maxConcurrent: int): string {
    "Too many concurrent provisions. Max: " + IntToString(maxConcurrent) + ". Please try again shortly."
  }

  /** The first check of the validation chain that rejects the request:
      engine, Medusa stub, name, duplicate name, quota, admission gate. */
  function Rejection(sys: System, cfg: Config, name: string, engine: string): (r: Option<Failure>)
    ensures r.Some? ==> r.value.statusCode in {Some(400), Some(409), Some(429)}
    ensures (r.Some? && r.value.statusCode == Some(400)) <==> engine != "woocommerce" || name == "" || !MatchesNamePattern(name)
    ensures (r.Some? && r.value.statusCode == Some(409)) <==>
              engine == "woocommerce" && name != "" && MatchesNamePattern(name) && GetStoreByName(sys.db, name).Some?
  {
    if engine != "woocommerce" && engine != "medusa" then Some(Failure(Some(400), InvalidEngineMessage(engine)))
    else if engine == "medusa" then Some(Failure(Some(400), MedusaRejectedMessage))
    else if name == "" || !MatchesNamePattern(name) then Some(Failure(Some(400), BadNameMessage))
    else if GetStoreByName(sys.db, name).Some? then Some(Failure(Some(409), DuplicateNameMessage(name)))
    else if GetActiveStoreCount(sys.db) >= cfg.maxTotalStores then Some(Failure(Some(429), QuotaMessage(cfg.maxTotalStores)))
    else if !CanProvision(sys.provisions, cfg.maxConcurrentProvisions) then
      Some(Failure(Some(429), ConcurrencyMessage(cfg.maxConcurrentProvisions)))
    else None
  }

  /** The chain rejects a request exactly when the engine is not
      WooCommerce, the name is not a DNS label, a visible store holds the
      name, the quota is used up, or the gate is full; the engine checks come
      before the name check. */
  lemma RejectionCases(sys: System, cfg: Config, name: string, engine: string)
    ensures Rejection(sys, cfg, name, engine).None? <==>
              && engine == "woocommerce" && IsDnsLabel(name)
              && GetStoreByName(sys.db, name).None?
              && GetActiveStoreCount(sys.db) < cfg.maxTotalStores
              && CanProvision(sys.provisions, cfg.maxConcurrentProvisions)
    ensures engine == "medusa" ==> Rejection(sys, cfg, name, engine) == Some(Failure(Some(400), MedusaRejectedMessage))
    ensures engine != "woocommerce" && engine != "medusa" ==>
              Rejection(sys, cfg, name, engine) == Some(Failure(Some(400), InvalidEngineMessage(engine)))
    ensures engine == "woocommerce" && !IsDnsLabel(name) ==>
              Rejection(sys, cfg, name, engine) == Some(Failure(Some(400), BadNameMessage))
    ensures engine == "woocommerce" && IsDnsLabel(name) && GetStoreByName(sys.db, name).Some? ==>
              Rejection(sys, cfg, name, engine) == Some(Failure(Some(409), DuplicateNameMessage(name)))
    ensures && engine == "woocommerce" && IsDnsLabel(name) && GetStoreByName(sys.db, name).None?
            && GetActiveStoreCount(sys.db) >= cfg.maxTotalStores ==>
              Rejection(sys, cfg, name, engine) == Some(Failure(Some(429), QuotaMessage(cfg.maxTotalStores)))
    ensures && engine == "woocommerce" && IsDnsLabel(name) && GetStoreByName(sys.db, name).None?
            && GetActiveStoreCount(sys.db) < cfg.maxTotalStores
            && !CanProvision(sys.provisions, cfg.maxConcurrentProvisions) ==>
              Rejection(sys, cfg, name, engine) == Some(Failure(Some(429), ConcurrencyMessage(cfg.maxConcurrentProvisions)))
  {
    NamePatternIsDnsLabel(name);
  }

  const CreationInitiated := "Store creation initiated (engine: woocommerce)"
  const CreatingNamespace := "Creating Kubernetes namespace"
  const InstallingWoo := "Installing WooCommerce via Helm"

  /** The three events a successful create leaves behind: its own, and the
      two the provisioning task writes before its first `await`. */
  function CreateEvents(db: Db, storeId: Id): seq<StoreEvent> {
    [StoreEvent(|db.events| + 1, storeId, Info, CreationInitiated, db.clock),
     StoreEvent(|db.events| + 2, storeId, Info, CreatingNamespace, db.clock),
     StoreEvent(|db.events| + 3, storeId, Info, InstallingWoo, db.clock)]
  }

  /** The model stamps the opening events of a create with one second, since
      its clock moves only between steps; the store's event query then
      returns them oldest first: with a limit of 1 it returns the creation
      event, not the last one written. (The program reads the time at each
      write, so a second boundary between them would change this.) */
  lemma OpeningEventsOldestFirst(db: Db, after: Db, storeId: Id, limit: int)
    requires forall e :: e in db.events ==> e.storeId != storeId
    requires after.events == db.events + CreateEvents(db, storeId)
    ensures GetStoreEvents(after, storeId, limit) == SqlLimit(CreateEvents(db, storeId), limit)
    ensures limit == 1 ==> GetStoreEvents(after, storeId, limit) == [CreateEvents(db, storeId)[0]]
    ensures limit == 1 ==> GetStoreEvents(after, storeId, limit)[0].message == CreationInitiated
  {
    var opening := CreateEvents(db, storeId);
    OpeningEventsOfStore(db, after, storeId);
    OpeningEventsSameSecond(db, storeId);
  }

  /** After the opening events, they are the store's only events. */
  lemma OpeningEventsOfStore(db: Db, after: Db, storeId: Id)
    requires forall e :: e in db.events ==> e.storeId != storeId
    requires after.events == db.events + CreateEvents(db, storeId)
    ensures EventsOf(after, storeId) == CreateEvents(db, storeId)
  {
    var opening := CreateEvents(db, storeId);
    var p := OfStore(storeId);
    FilterAppend(db.events, opening, p);
    FilterNone(db.events, p);
    var o2 := opening[1..][1..];
    assert o2 == [opening[2]] && o2[1..] == [];
    assert Filter(o2, p) == o2;
    assert Filter(opening[1..], p) == [opening[1]] + o2;
    assert Filter(opening, p) == opening;
  }

  /** The query's sort keeps the opening events in the order written. */
  lemma OpeningEventsSameSecond(db: Db, storeId: Id)
    ensures SortNewest(CreateEvents(db, storeId), EventTime, EventRowid) == CreateEvents(db, storeId)
  {
    var opening := CreateEvents(db, storeId);
    forall i, j | 0 <= i < j < |opening|
      ensures EventTime(opening[i]) == EventTime(opening[j]) && EventRowid(opening[i]) < EventRowid(opening[j])
    {
    }
    SameSecondInRowidOrder(opening, EventTime, EventRowid);
  }

  /** The record a successful create inserts. */
  function NewRecord(cfg: Config, name: string, storeId: Id): NewStore {
    var urls := WooUrls(name, cfg.storeDomain);
    NewStore(storeId, name, WooCommerce, Some(Provisioning), cfg.namespacePrefix + storeId,
             Some(urls.storeUrl), Some(urls.adminUrl))
  }

  /** `createStore(name, engine, ipAddress)` with `freshId` the first eight
      characters of the uuid drawn. A rejection changes nothing. An accepted
      request inserts the record, writes the audit entry and the creation
      events, tracks the provisioning task, and returns the record read back
      after the insert. An id that collides with an existing row makes the
      insert throw, with no status code. */
  function CreateStore(sys: System, cfg: Config, name: string, engine: string, ipAddress: Option<string>,
                       freshId: Id): (r: (System, Result<Store, Failure>))
    ensures r.1.Err? ==> r.0 == sys
    ensures Rejection(sys, cfg, name, engine).Some? ==> r.1 == Err(Rejection(sys, cfg, name, engine).value)
    ensures Rejection(sys, cfg, name, engine).None? && freshId in sys.db.stores ==>
              r.1 == Err(Failure(None, DuplicateIdMessage))
    ensures r.1.Ok? <==> Rejection(sys, cfg, name, engine).None? && freshId !in sys.db.stores
    ensures r.1.Ok? ==>
              var rec := r.1.value;
              && rec.id == freshId && rec.name == name && rec.engine == WooCommerce
              && rec.status == Provisioning && rec.namespace == cfg.namespacePrefix + freshId
              && rec.storeUrl == Some("http://" + name + "." + cfg.storeDomain)
              && rec.adminUrl == Some("http://" + name + "." + cfg.storeDomain + "/wp-admin")
              && rec.errorMessage.None? && Visible(rec)
              && r.0.db.stores == sys.db.stores[freshId := rec]
              && r.0.db.order == sys.db.order + [freshId]
              && r.0.db.events == sys.db.events + CreateEvents(sys.db, freshId)
              && r.0.db.audit == sys.db.audit +
                   [AuditEntry(|sys.db.audit| + 1, OrNull(Some(freshId)), "CREATE_STORE",
                               Some(CreateDetails(name, WooCommerce, cfg.namespacePrefix + freshId)),
                               OrNull(ipAddress), sys.db.clock)]
              && r.0.db.clock == sys.db.clock
              && r.0.provisions == Track(sys.provisions, freshId)
              && r.0.timerSet == sys.timerSet && r.0.intervalsStarted == sys.intervalsStarted
    ensures r.1.Ok? ==>
              && StoreDb.CreateStore(sys.db, NewRecord(cfg, name, freshId)) == Ok((Insert(sys.db, r.1.value), r.1.value))
              && r.0.db == CreateWrites(Insert(sys.db, r.1.value), name, freshId, cfg.namespacePrefix + freshId, ipAddress)
  {
    var rejection := Rejection(sys, cfg, name, engine);
    if rejection.Some? then (sys, Err(rejection.value))
    else
      match StoreDb.CreateStore(sys.db, NewRecord(cfg, name, freshId))
      case Err(e) => (sys, Err(Failure(None, e)))
      case Ok((db1, rec)) =>
        assert "http://" + StoreHost(name, cfg.storeDomain) == "http://" + name + "." + cfg.storeDomain;
        (sys.(db := CreateWrites(db1, name, freshId, cfg.namespacePrefix + freshId, ipAddress),
              provisions := Track(sys.provisions, freshId)), Ok(rec))
  }

  /** The writes that follow the insert of an accepted create: the audit
      entry, then the three creation events. */
  function CreateWrites(db: Db, name: string, storeId: Id, namespace: string, ipAddress: Option<string>): (r: Db)
    ensures r.stores == db.stores && r.order == db.order && r.clock == db.clock
    ensures r.events == db.events + CreateEvents(db, storeId)
    ensures r.audit == db.audit +
              [AuditEntry(|db.audit| + 1, OrNull(Some(storeId)), "CREATE_STORE",
                          Some(CreateDetails(name, WooCommerce, namespace)), OrNull(ipAddress), db.clock)]
    ensures WellFormed(db) ==> WellFormed(r)
  {
    var db1 := AddAuditEntry(db, Some(storeId), "CREATE_STORE", Some(CreateDetails(name, WooCommerce, namespace)), ipAddress);
    var db2 := AddEvent(db1, storeId, Info, CreationInitiated);
    var db3 := AddEvent(db2, storeId, Info, CreatingNamespace);
    var db4 := AddEvent(db3, storeId, Info, InstallingWoo);
    assert db4.events == db.events + CreateEvents(db, storeId);
    db4
  }

  // ---------------------------------------------------------------------
  // _provisionStore: the outcome of the detached task
  // ---------------------------------------------------------------------

  const WaitingForPods := "Waiting for pods to become ready"

  /** The success message exactly as the program stores it. The source
      file spells its dash as an em dash whose three UTF-8 bytes were once
      re-read as Windows-1252 and saved again: the three characters U+00E2,
      U+20AC and U+201D, not U+2014. */
  const StoreIsLive := "All pods ready \U{00E2}\U{20AC}\U{201D} store is live!"

  function ProvisioningFailed(message: string): string {
    "Provisioning failed: " + message
  }

  /** `r` holds the events of `db` and one more, written last, for
      `storeId` with the given type and message. */
  predicate Appended(db: Db, r: Db, storeId: Id, eventType: EventType, message: string) {
    && |r.events| == |db.events| + 1 && r.events[..|db.events|] == db.events
    && var last := r.events[|db.events|];
       last.storeId == storeId && last.eventType == eventType && last.message == message
  }

  /** The `catch` of `_provisionStore`: an error event, then `Failed` with the
      error text verbatim. */
  function FailProvision(db: Db, storeId: Id, message: string): (r: Db)
    ensures r.order == db.order && r.audit == db.audit && r.clock == db.clock
    ensures Appended(db, r, storeId, Error, ProvisioningFailed(message))
    ensures storeId !in db.stores ==> r.stores == db.stores
    ensures storeId in db.stores ==>
              var prev := db.stores[storeId];
              && storeId in r.stores && r.stores == db.stores[storeId := r.stores[storeId]]
              && SameIdentity(prev, r.stores[storeId])
              && r.stores[storeId].status == Failed && r.stores[storeId].errorMessage == Some(message)
              && r.stores[storeId].storeUrl == prev.storeUrl && r.stores[storeId].adminUrl == prev.adminUrl
              && r.stores[storeId].readyAt == prev.readyAt && r.stores[storeId].deletedAt == prev.deletedAt
  {
    var db1 := AddEvent(db, storeId, Error, ProvisioningFailed(message));
    UpdateStoreStatus(db1, storeId, Failed, Extras(None, None, Some(Some(message)))).0
  }

  /** The status the provisioning task writes last: `Ready` when both the
      install and the readiness wait succeeded, `Failed` otherwise. */
  function ProvisionVerdict(install: Result<Urls, string>, ready: Result<bool, string>): Status {
    if install.Ok? && ready.Ok? then Ready else Failed
  }

  /** The error text that fails the task, if it fails. */
  function ProvisionError(install: Result<Urls, string>, ready: Result<bool, string>): string
    requires install.Err? || ready.Err?
  {
    if install.Err? then install.error else ready.error
  }

  /** The rest of `_provisionStore` once `installWooCommerce` returned
      `install` and `waitForReady` (awaited only after a good install)
      returned `ready`, followed by the `finally` that settles the task. The
      record is written whatever its current status, so a store deleted in
      the meantime is overwritten. The "Waiting for pods" event, which the
      program writes before the poll starts, is written here together with
      the outcome and stamped with the same second. */
  function ProvisionOutcome(sys: System, storeId: Id, install: Result<Urls, string>,
                            ready: Result<bool, string>): (r: System)
    ensures r.provisions == Settle(sys.provisions, storeId)
    ensures r.timerSet == sys.timerSet && r.intervalsStarted == sys.intervalsStarted
    ensures r.db.order == sys.db.order && r.db.audit == sys.db.audit && r.db.clock == sys.db.clock
    ensures storeId !in sys.db.stores ==> r.db.stores == sys.db.stores
    ensures storeId in sys.db.stores ==> storeId in r.db.stores
    ensures storeId in sys.db.stores ==>
              var prev := sys.db.stores[storeId];
              var rec := r.db.stores[storeId];
              && r.db.stores == sys.db.stores[storeId := rec]
              && SameIdentity(prev, rec) && rec.deletedAt == prev.deletedAt
              && rec.status == ProvisionVerdict(install, ready)
              && rec.updatedAt == sys.db.clock
              && (rec.status == Ready ==>
                    && rec.errorMessage.None? && rec.readyAt == Some(sys.db.clock)
                    && rec.storeUrl == (if install.value.storeUrl != "" then Some(install.value.storeUrl) else prev.storeUrl)
                    && rec.adminUrl == (if install.value.adminUrl != "" then Some(install.value.adminUrl) else prev.adminUrl))
              && (rec.status == Failed ==>
                    && rec.errorMessage == Some(ProvisionError(install, ready))
                    && rec.storeUrl == prev.storeUrl && rec.adminUrl == prev.adminUrl && rec.readyAt == prev.readyAt)
    ensures |r.db.events| > |sys.db.events| && r.db.events[..|sys.db.events|] == sys.db.events
    ensures var last := r.db.events[|r.db.events| - 1];
            && last.storeId == storeId
            && (ProvisionVerdict(install, ready) == Ready ==> last.eventType == Success && last.message == StoreIsLive)
            && (ProvisionVerdict(install, ready) == Failed ==>
                  last.eventType == Error && last.message == ProvisioningFailed(ProvisionError(install, ready)))
  {
    var db := sys.db;
    var db' :=
      match install
      case Err(m) => FailProvision(db, storeId, m)
      case Ok(urls) =>
        var waiting := AddEvent(db, storeId, Info, WaitingForPods);
        match ready
        case Err(m) => FailProvision(waiting, storeId, m)
        case Ok(_) =>
          var live := AddEvent(waiting, storeId, Success, StoreIsLive);
          UpdateStoreStatus(live, storeId, Ready, Extras(Some(urls.storeUrl), Some(urls.adminUrl), Some(None))).0;
    sys.(db := db', provisions := Settle(sys.provisions, storeId))
  }

  // ---------------------------------------------------------------------
  // deleteStore and its detached cleanup
  // ---------------------------------------------------------------------

  const NotFoundMessage := "Store not found"
  const AlreadyDeletingMessage := "Store is already being deleted"
  const DeletionInitiated := "Store deletion initiated"
  const StoreDeletedMessage := "Store and all resources deleted"

  /** The value `deleteStore` resolves with. */
  datatype DeleteAck = DeleteAck(message: string, storeId: Id)

  /** `deleteStore`: 404 for an id with no visible record, 409 while the
      store is already `Deleting`; otherwise `Deleting`, an event and an
      audit entry, and the cleanup task is started. */
  function DeleteStore(sys: System, storeId: Id, ipAddress: Option<string>): (r: (System, Result<DeleteAck, Failure>))
    ensures r.1.Err? ==> r.0 == sys
    ensures GetStore(sys.db, storeId).None? <==> r.1 == Err(Failure(Some(404), NotFoundMessage))
    ensures GetStore(sys.db, storeId).Some? && GetStore(sys.db, storeId).value.status == Deleting <==>
              r.1 == Err(Failure(Some(409), AlreadyDeletingMessage))
    ensures r.1.Ok? ==> r.1.value == DeleteAck(DeletionInitiated, storeId)
    ensures r.1.Ok? ==>
              var prev := sys.db.stores[storeId];
              && storeId in sys.db.stores && Visible(prev) && prev.status != Deleting
              && r.0.db.stores == sys.db.stores[storeId := StatusUpdate(prev, Deleting, NoExtras, sys.db.clock)]
              && r.0.db.order == sys.db.order
              && r.0.db.events == sys.db.events + [StoreEvent(|sys.db.events| + 1, storeId, Info, DeletionInitiated, sys.db.clock)]
              && r.0.db.audit == sys.db.audit +
                   [AuditEntry(|sys.db.audit| + 1, OrNull(Some(storeId)), "DELETE_STORE",
                               Some(DeleteDetails(prev.name, prev.engine)), OrNull(ipAddress), sys.db.clock)]
              && r.0.db.clock == sys.db.clock
              && r.0.provisions == sys.provisions && r.0.timerSet == sys.timerSet
              && r.0.intervalsStarted == sys.intervalsStarted
  {
    match GetStore(sys.db, storeId)
    case None => (sys, Err(Failure(Some(404), NotFoundMessage)))
    case Some(store) =>
      if store.status == Deleting then (sys, Err(Failure(Some(409), AlreadyDeletingMessage)))
      else
        var db1 := UpdateStoreStatus(sys.db, storeId, Deleting, NoExtras).0;
        var db2 := AddEvent(db1, storeId, Info, DeletionInitiated);
        var db3 := AddAuditEntry(db2, Some(storeId), "DELETE_STORE", Some(DeleteDetails(store.name, store.engine)), ipAddress);
        (sys.(db := db3), Ok(DeleteAck(DeletionInitiated, storeId)))
  }

  /** The repository writes of the cleanup task that can throw. The
      uninstall itself never throws, so these are the only ways into the
      `catch`. */
  datatype CleanupFault = NoFault | MarkDeletedFails(message: string) | SuccessEventFails(message: string)

  function DeletionFailed(message: string): string {
    "Deletion failed: " + message
  }

  function DeleteFailedError(message: string): string {
    "Delete failed: " + message
  }

  /** The cleanup task after `uninstallStore` resolved: `markDeleted` and a
      success event, or, when one of them throws, an error event and
      `Failed` with `Delete failed: <message>`. */
  function DeleteCleanup(sys: System, storeId: Id, fault: CleanupFault): (r: System)
    ensures r.provisions == sys.provisions && r.timerSet == sys.timerSet && r.intervalsStarted == sys.intervalsStarted
    ensures r.db.order == sys.db.order && r.db.audit == sys.db.audit && r.db.clock == sys.db.clock
    ensures fault.NoFault? ==>
              && r.db.stores == MarkDeleted(sys.db, storeId).stores
              && r.db.events == sys.db.events + [StoreEvent(|sys.db.events| + 1, storeId, Success, StoreDeletedMessage, sys.db.clock)]
              && GetStore(r.db, storeId).None?
    ensures storeId in sys.db.stores ==> storeId in r.db.stores
    ensures !fault.NoFault? ==>
              && r.db.events == sys.db.events + [StoreEvent(|sys.db.events| + 1, storeId, Error, DeletionFailed(fault.message), sys.db.clock)]
              && (storeId in sys.db.stores ==>
                    && r.db.stores[storeId].status == Failed
                    && r.db.stores[storeId].errorMessage == Some(DeleteFailedError(fault.message)))
    ensures fault.MarkDeletedFails? && storeId in sys.db.stores ==>
              r.db.stores[storeId].deletedAt == sys.db.stores[storeId].deletedAt
    ensures fault.SuccessEventFails? && storeId in sys.db.stores ==> GetStore(r.db, storeId).None?
    ensures forall id :: id != storeId ==> (id in r.db.stores <==> id in sys.db.stores)
    ensures forall id :: id != storeId && id in sys.db.stores ==> r.db.stores[id] == sys.db.stores[id]
  {
    match fault
    case NoFault =>
      var db1 := MarkDeleted(sys.db, storeId);
      sys.(db := AddEvent(db1, storeId, Success, StoreDeletedMessage))
    case MarkDeletedFails(m) =>
      var db1 := AddEvent(sys.db, storeId, Error, DeletionFailed(m));
      sys.(db := UpdateStoreStatus(db1, storeId, Failed, Extras(None, None, Some(Some(DeleteFailedError(m))))).0)
    case SuccessEventFails(m) =>
      var db1 := MarkDeleted(sys.db, storeId);
      var db2 := AddEvent(db1, storeId, Error, DeletionFailed(m));
      sys.(db := UpdateStoreStatus(db2, storeId, Failed, Extras(None, None, Some(Some(DeleteFailedError(m))))).0)
  }

  // ---------------------------------------------------------------------
  // Reconciliation
  // ---------------------------------------------------------------------

  /** What one turn of the reconcile loop observes for a store: the wall
      clock in milliseconds, the host's offset ahead of UTC in milliseconds
      (which `new Date` applies to the zone-less `created_at` text), the
      `namespaceExists` answer, and the `areAllPodsReady` answer (which never
      throws). */
  datatype Observation = Observation(nowMs: int, tzOffsetMs: int, namespace: Result<bool, string>, podsReady: bool)

  /** The age the turn computes for a store, as written: `Date.now()` minus
      `created_at` read as local time. On a host whose zone is UTC it is the
      true age `Elapsed`. */
  function Age(s: Store, o: Observation): (r: int)
    ensures o.tzOffsetMs == 0 ==> r == Elapsed(o.nowMs, s.createdAt)
  {
    ElapsedAsWritten(o.nowMs, s.createdAt, o.tzOffsetMs)
  }

  datatype Decision = TimedOut | NamespaceGone | BecameReady | Unchanged | Skipped(error: string)

  /** How long a record has been provisioning, with `created_at` read as
      the UTC instant the database stamped. */
  function Elapsed(nowMs: int, createdAt: nat): int {
    nowMs - createdAt * 1000
  }

  /** The per-store decision: timeout first, then a vanished namespace, then
      readiness; an error from `namespaceExists` skips the store. */
  function Decide(elapsed: int, timeoutMs: int, namespace: Result<bool, string>, podsReady: bool): (d: Decision)
    ensures d == TimedOut <==> elapsed > timeoutMs
    ensures d.Skipped? <==> elapsed <= timeoutMs && namespace.Err?
    ensures d.Skipped? ==> d.error == namespace.error
    ensures d == NamespaceGone <==> elapsed <= timeoutMs && namespace == Ok(false)
    ensures d == BecameReady <==> elapsed <= timeoutMs && namespace == Ok(true) && podsReady
    ensures d == Unchanged <==> elapsed <= timeoutMs && namespace == Ok(true) && !podsReady
  {
    if elapsed > timeoutMs then TimedOut
    else match namespace
      case Err(e) => Skipped(e)
      case Ok(present) =>
        if !present then NamespaceGone
        else if podsReady then BecameReady
        else Unchanged
  }

  const TimedOutError := "Provisioning timed out during reconciliation"
  const TimedOutEvent := "Provisioning timed out"
  const NamespaceGoneError := "Namespace no longer exists"
  const NamespaceGoneEvent := "Namespace disappeared"
  const ReconciledReady := "Store became ready (detected by reconciler)"

  /** The writes of one decision: the status update, then the event. */
  function ApplyDecision(db: Db, storeId: Id, d: Decision): (r: Db)
    ensures d.Skipped? || d == Unchanged ==> r == db
    ensures d == TimedOut ==>
              r == AddEvent(UpdateStoreStatus(db, storeId, Failed, Extras(None, None, Some(Some(TimedOutError)))).0,
                            storeId, Error, TimedOutEvent)
    ensures d == NamespaceGone ==>
              r == AddEvent(UpdateStoreStatus(db, storeId, Failed, Extras(None, None, Some(Some(NamespaceGoneError)))).0,
                            storeId, Error, NamespaceGoneEvent)
    ensures d == BecameReady ==>
              r == AddEvent(UpdateStoreStatus(db, storeId, Ready, Extras(None, None, Some(None))).0,
                            storeId, Success, ReconciledReady)
    ensures r.order == db.order && r.audit == db.audit && r.clock == db.clock
    ensures forall id :: id != storeId ==> (id in r.stores <==> id in db.stores)
    ensures forall id :: id != storeId && id in db.stores ==> r.stores[id] == db.stores[id]
  {
    match d
    case TimedOut =>
      AddEvent(UpdateStoreStatus(db, storeId, Failed, Extras(None, None, Some(Some(TimedOutError)))).0, storeId, Error, TimedOutEvent)
    case NamespaceGone =>
      AddEvent(UpdateStoreStatus(db, storeId, Failed, Extras(None, None, Some(Some(NamespaceGoneError)))).0, storeId, Error, NamespaceGoneEvent)
    case BecameReady =>
      AddEvent(UpdateStoreStatus(db, storeId, Ready, Extras(None, None, Some(None))).0, storeId, Success, ReconciledReady)
    case _ => db
  }

  /** One turn of the reconcile loop for a store of the snapshot. */
  function ReconcileStore(db: Db, s: Store, timeoutMs: int, o: Observation): (r: Db)
    ensures r.order == db.order && r.audit == db.audit && r.clock == db.clock
    ensures forall id :: id != s.id ==> (id in r.stores <==> id in db.stores)
    ensures forall id :: id != s.id && id in db.stores ==> r.stores[id] == db.stores[id]
    ensures Age(s, o) > timeoutMs ==>
              && Appended(db, r, s.id, Error, TimedOutEvent)
              && (s.id in db.stores ==> s.id in r.stores && r.stores[s.id].status == Failed
                                        && r.stores[s.id].errorMessage == Some(TimedOutError))
    ensures Age(s, o) <= timeoutMs && o.namespace == Ok(false) ==>
              && Appended(db, r, s.id, Error, NamespaceGoneEvent)
              && (s.id in db.stores ==> s.id in r.stores && r.stores[s.id].status == Failed
                                        && r.stores[s.id].errorMessage == Some(NamespaceGoneError))
    ensures Age(s, o) <= timeoutMs && o.namespace == Ok(true) && o.podsReady ==>
              && Appended(db, r, s.id, Success, ReconciledReady)
              && (s.id in db.stores ==> s.id in r.stores && r.stores[s.id].status == Ready
                                        && r.stores[s.id].errorMessage.None?)
    ensures Age(s, o) <= timeoutMs && (o.namespace.Err? || (o.namespace == Ok(true) && !o.podsReady)) ==> r == db
  {
    ApplyDecision(db, s.id, Decide(Age(s, o), timeoutMs, o.namespace, o.podsReady))
  }

  /** The reference reading of a pass: the turns over the snapshot, in
      order, each on the state the previous one left. */
  function ReconcileAll(db: Db, snapshot: seq<Store>, timeoutMs: int, observe: Store -> Observation): (r: Db)
    ensures r.order == db.order && r.audit == db.audit && r.clock == db.clock
    decreases |snapshot|
  {
    if |snapshot| == 0 then db
    else ReconcileAll(ReconcileStore(db, snapshot[0], timeoutMs, observe(snapshot[0])), snapshot[1..], timeoutMs, observe)
  }

  /** `reconcile`: one pass over the visible `Provisioning` records as they
      were when the pass began. `observe` gives what each turn observes. */
  method Reconcile(sys: System, cfg: Config, observe: Store -> Observation) returns (r: System)
    ensures r.db == ReconcileAll(sys.db, GetProvisioningStores(sys.db), cfg.provisioningTimeoutMs, observe)
    ensures r.provisions == sys.provisions && r.timerSet == sys.timerSet && r.intervalsStarted == sys.intervalsStarted
  {
    var snapshot := GetProvisioningStores(sys.db);
    var db := sys.db;
    var i := 0;
    while i < |snapshot|
      invariant 0 <= i <= |snapshot|
      invariant ReconcileAll(db, snapshot[i..], cfg.provisioningTimeoutMs, observe)
                == ReconcileAll(sys.db, snapshot, cfg.provisioningTimeoutMs, observe)
      decreases |snapshot| - i
    {
      var s := snapshot[i];
      assert snapshot[i..][1..] == snapshot[i + 1..];
      db := ReconcileStore(db, s, cfg.provisioningTimeoutMs, observe(s));
      i := i + 1;
    }
    assert snapshot[i..] == [];
    return sys.(db := db);
  }

  /** A pass leaves alone every record that was not in its snapshot. */
  lemma {:induction false} ReconcileTouchesOnlySnapshot(db: Db, snapshot: seq<Store>, timeoutMs: int,
                                                        observe: Store -> Observation, id: Id)
    requires forall k :: 0 <= k < |snapshot| ==> snapshot[k].id != id
    ensures id in ReconcileAll(db, snapshot, timeoutMs, observe).stores <==> id in db.stores
    ensures id in db.stores ==> ReconcileAll(db, snapshot, timeoutMs, observe).stores[id] == db.stores[id]
    decreases |snapshot|
  {
    if |snapshot| > 0 {
      var next := ReconcileStore(db, snapshot[0], timeoutMs, observe(snapshot[0]));
      assert forall k :: 0 <= k < |snapshot[1..]| ==> snapshot[1..][k] == snapshot[k + 1];
      ReconcileTouchesOnlySnapshot(next, snapshot[1..], timeoutMs, observe, id);
    }
  }

  /** Reconcile touches only visible `Provisioning` records. */
  lemma ReconcileTouchesOnlyProvisioning(sys: System, cfg: Config, observe: Store -> Observation, id: Id)
    requires WellFormed(sys.db)
    requires id in sys.db.stores && !(sys.db.stores[id].status == Provisioning && Visible(sys.db.stores[id]))
    ensures var db := ReconcileAll(sys.db, GetProvisioningStores(sys.db), cfg.provisioningTimeoutMs, observe);
            id in db.stores && db.stores[id] == sys.db.stores[id]
  {
    var snapshot := GetProvisioningStores(sys.db);
    ProvisioningStoresComplete(sys.db);
    forall k | 0 <= k < |snapshot| ensures snapshot[k].id != id {
      assert snapshot[k] in snapshot;
    }
    ReconcileTouchesOnlySnapshot(sys.db, snapshot, cfg.provisioningTimeoutMs, observe, id);
  }

  /** A pass over two snapshots run back to back is the pass over the
      second started where the first left off. */
  lemma {:induction false} ReconcileAllAppend(db: Db, a: seq<Store>, b: seq<Store>, timeoutMs: int,
                                              observe: Store -> Observation)
    ensures ReconcileAll(db, a + b, timeoutMs, observe)
            == ReconcileAll(ReconcileAll(db, a, timeoutMs, observe), b, timeoutMs, observe)
    decreases |a|
  {
    if |a| == 0 {
      assert a + b == b;
    } else {
      assert (a + b)[0] == a[0] && (a + b)[1..] == a[1..] + b;
      ReconcileAllAppend(ReconcileStore(db, a[0], timeoutMs, observe(a[0])), a[1..], b, timeoutMs, observe);
    }
  }

  /** An error while checking one store skips that store only: wherever it
      sits in the snapshot, the pass is the pass over the other stores. */
  lemma ErrorSkipsOnlyThatStore(db: Db, before: seq<Store>, s: Store, after: seq<Store>, timeoutMs: int,
                                observe: Store -> Observation)
    requires Age(s, observe(s)) <= timeoutMs && observe(s).namespace.Err?
    ensures ReconcileAll(db, before + [s] + after, timeoutMs, observe)
            == ReconcileAll(db, before + after, timeoutMs, observe)
  {
    var mid := ReconcileAll(db, before, timeoutMs, observe);
    assert before + [s] + after == before + ([s] + after);
    ReconcileAllAppend(db, before, [s] + after, timeoutMs, observe);
    ReconcileAllAppend(db, before, after, timeoutMs, observe);
    assert ([s] + after)[1..] == after;
    assert ReconcileStore(mid, s, timeoutMs, observe(s)) == mid;
  }

  /** A turn writes the store's row from that row and the clock alone, so two
      states that agree on both give the same row. */
  lemma ReconcileStoreLocal(a: Db, b: Db, s: Store, timeoutMs: int, o: Observation)
    requires s.id in a.stores && s.id in b.stores
    requires a.stores[s.id] == b.stores[s.id] && a.clock == b.clock
    ensures s.id in ReconcileStore(a, s, timeoutMs, o).stores && s.id in ReconcileStore(b, s, timeoutMs, o).stores
    ensures ReconcileStore(a, s, timeoutMs, o).stores[s.id] == ReconcileStore(b, s, timeoutMs, o).stores[s.id]
  {
  }

  /** In a snapshot whose other entries have other ids, the pass leaves a
      store's row as its own turn wrote it from the starting state. */
  lemma {:induction false} ReconcileAllAt(db: Db, snapshot: seq<Store>, timeoutMs: int,
                                          observe: Store -> Observation, k: nat)
    requires k < |snapshot| && snapshot[k].id in db.stores
    requires forall j :: 0 <= j < |snapshot| && j != k ==> snapshot[j].id != snapshot[k].id
    ensures var s := snapshot[k];
            var r := ReconcileAll(db, snapshot, timeoutMs, observe);
            && s.id in r.stores
            && r.stores[s.id] == ReconcileStore(db, s, timeoutMs, observe(s)).stores[s.id]
    decreases |snapshot|
  {
    var s := snapshot[k];
    var next := ReconcileStore(db, snapshot[0], timeoutMs, observe(snapshot[0]));
    var tail := snapshot[1..];
    if k == 0 {
      ReconcileStoreLocal(db, db, s, timeoutMs, observe(s));
      assert forall j :: 0 <= j < |tail| ==> tail[j] == snapshot[j + 1];
      ReconcileTouchesOnlySnapshot(next, tail, timeoutMs, observe, s.id);
    } else {
      assert tail[k - 1] == s;
      assert forall j :: 0 <= j < |tail| ==> tail[j] == snapshot[j + 1];
      ReconcileAllAt(next, tail, timeoutMs, observe, k - 1);
      ReconcileStoreLocal(next, db, s, timeoutMs, observe(s));
    }
  }

  /** What a whole pass does to each store of its snapshot: the row ends as
      that store's own turn writes it. A timed-out store fails with the
      reconciliation message, one within its time fails when its namespace
      is gone and becomes `Ready` when its pods are ready, and a store
      whose check errs or whose pods are not ready keeps its row. */
  lemma ReconcilePassEffect(db: Db, timeoutMs: int, observe: Store -> Observation, s: Store)
    requires WellFormed(db) && s in GetProvisioningStores(db)
    ensures var r := ReconcileAll(db, GetProvisioningStores(db), timeoutMs, observe);
            var o := observe(s);
            && s.id in db.stores && s.id in r.stores && s.id in ReconcileStore(db, s, timeoutMs, o).stores
            && r.stores[s.id] == ReconcileStore(db, s, timeoutMs, o).stores[s.id]
            && (Age(s, o) > timeoutMs ==>
                  r.stores[s.id].status == Failed && r.stores[s.id].errorMessage == Some(TimedOutError))
            && (Age(s, o) <= timeoutMs && o.namespace == Ok(false) ==>
                  r.stores[s.id].status == Failed && r.stores[s.id].errorMessage == Some(NamespaceGoneError))
            && (Age(s, o) <= timeoutMs && o.namespace == Ok(true) && o.podsReady ==>
                  r.stores[s.id].status == Ready && r.stores[s.id].errorMessage.None?)
            && (Age(s, o) <= timeoutMs && (o.namespace.Err? || (o.namespace == Ok(true) && !o.podsReady)) ==>
                  r.stores[s.id] == db.stores[s.id])
  {
    ReconcilePassRow(db, timeoutMs, observe, s);
    ReconcileStoreEffect(db, s, timeoutMs, observe(s));
  }

  /** The row a pass leaves for a store of its snapshot is the row that
      store's turn writes from the starting state. */
  lemma ReconcilePassRow(db: Db, timeoutMs: int, observe: Store -> Observation, s: Store)
    requires WellFormed(db) && s in GetProvisioningStores(db)
    ensures s.id in db.stores
    ensures var r := ReconcileAll(db, GetProvisioningStores(db), timeoutMs, observe);
            && s.id in r.stores
            && r.stores[s.id] == ReconcileStore(db, s, timeoutMs, observe(s)).stores[s.id]
  {
    var snapshot := GetProvisioningStores(db);
    ProvisioningStoresComplete(db);
    var k :| 0 <= k < |snapshot| && snapshot[k] == s;
    forall j | 0 <= j < |snapshot| && j != k ensures snapshot[j].id != snapshot[k].id {
      if j < k {
        assert snapshot[j].id != snapshot[k].id;
      } else {
        assert snapshot[k].id != snapshot[j].id;
      }
    }
    ReconcileAllAt(db, snapshot, timeoutMs, observe, k);
  }

  /** A timed-out store fails with the reconciliation message whatever the
      cluster says, and a store within its time fails when its namespace is
      gone, becomes `Ready` with the error cleared when its pods are ready,
      and is otherwise left as it is. */
  lemma ReconcileStoreEffect(db: Db, s: Store, timeoutMs: int, o: Observation)
    requires s.id in db.stores
    ensures var r := ReconcileStore(db, s, timeoutMs, o);
            var rec := r.stores[s.id];
            && (Age(s, o) > timeoutMs ==>
                  rec.status == Failed && rec.errorMessage == Some(TimedOutError))
            && (Age(s, o) <= timeoutMs && o.namespace == Ok(false) ==>
                  rec.status == Failed && rec.errorMessage == Some(NamespaceGoneError))
            && (Age(s, o) <= timeoutMs && o.namespace == Ok(true) && o.podsReady ==>
                  rec.status == Ready && rec.errorMessage.None? && rec.readyAt == Some(db.clock))
            && (Age(s, o) <= timeoutMs && (o.namespace.Err? || (o.namespace == Ok(true) && !o.podsReady)) ==>
                  r == db)
  {
  }

  // ---------------------------------------------------------------------
  // Reading created_at back as a Date
  // ---------------------------------------------------------------------

  /** `new Date(created_at).getTime()` as written: the database text
      `YYYY-MM-DD HH:MM:SS` carries no zone, so JavaScript reads it as local
      time, `tzOffsetMs` ahead of UTC. */
  function CreatedAtAsLocalMs(createdAt: nat, tzOffsetMs: int): int {
    createdAt * 1000 - tzOffsetMs
  }

  /** `Date.now() - new Date(store.created_at).getTime()` as written. */
  function ElapsedAsWritten(nowMs: int, createdAt: nat, tzOffsetMs: int): (r: int)
    ensures r == Elapsed(nowMs, createdAt) + tzOffsetMs
  {
    nowMs - CreatedAtAsLocalMs(createdAt, tzOffsetMs)
  }

  /** On a server east of UTC a store one second old is already past the
      ten-minute timeout: at UTC+05:30 the elapsed time is overstated by
      five and a half hours. */
  lemma LocalParseTimesOutFreshStore()
    ensures var createdAt: nat := 1700000000;
            var nowMs := createdAt * 1000 + 1000;
            && Decide(ElapsedAsWritten(nowMs, createdAt, 19800000), DefaultConfig.provisioningTimeoutMs, Ok(true), false) == TimedOut
            && Decide(Elapsed(nowMs, createdAt), DefaultConfig.provisioningTimeoutMs, Ok(true), false) == Unchanged
  {
  }

  /** With `created_at` read as UTC, a store times out exactly when it is
      older than the timeout; the reading as written agrees only on a server
      whose zone is UTC. */
  lemma UtcElapsedTimesOutExactly(nowMs: int, createdAt: nat, timeoutMs: int, tzOffsetMs: int,
                                  namespace: Result<bool, string>, podsReady: bool)
    ensures Decide(Elapsed(nowMs, createdAt), timeoutMs, namespace, podsReady) == TimedOut
            <==> nowMs - createdAt * 1000 > timeoutMs
    ensures ElapsedAsWritten(nowMs, createdAt, tzOffsetMs) == Elapsed(nowMs, createdAt) <==> tzOffsetMs == 0
  {
  }

  // ---------------------------------------------------------------------
  // Reconcile timer
  // ---------------------------------------------------------------------

  /** `startReconcileLoop`: sets the interval unless one is already set. */
  function StartReconcileLoop(sys: System): (r: System)
    ensures r.timerSet
    ensures r.intervalsStarted == if sys.timerSet then sys.intervalsStarted else sys.intervalsStarted + 1
    ensures r.db == sys.db && r.provisions == sys.provisions
  {
    if sys.timerSet then sys else sys.(timerSet := true, intervalsStarted := sys.intervalsStarted + 1)
  }

  /** `stopReconcileLoop`: clears the interval if one is set. */
  function StopReconcileLoop(sys: System): (r: System)
    ensures !r.timerSet
    ensures r.intervalsStarted == sys.intervalsStarted && r.db == sys.db && r.provisions == sys.provisions
  {
    sys.(timerSet := false)
  }

  /** Starting twice sets one interval, and stopping undoes a start. */
  lemma TimerGuard(sys: System)
    ensures StartReconcileLoop(StartReconcileLoop(sys)) == StartReconcileLoop(sys)
    ensures StopReconcileLoop(StopReconcileLoop(sys)) == StopReconcileLoop(sys)
    ensures !sys.timerSet ==> StopReconcileLoop(StartReconcileLoop(sys)) == sys.(intervalsStarted := sys.intervalsStarted + 1)
    ensures sys.timerSet ==> StartReconcileLoop(sys) == sys
  {
  }
}
