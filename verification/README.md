# Store provisioning platform — a Dafny model of the orchestrator core

The backend provisions e-commerce stores on a Kubernetes cluster. One store is
one namespace with one Helm release (WooCommerce; MedusaJS is stubbed). A create
request is validated: engine, name, unique name, total quota, concurrency gate.
Then a Provisioning record is written and the reply goes back at once. A detached
workflow installs the chart and polls the pods, then sets the store to Ready or
Failed. A delete request moves the store to Deleting and a detached cleanup
uninstalls it and marks it Deleted. A periodic reconciler re-checks every
Provisioning store: it fails stores past the provisioning timeout or whose
namespace is gone, and promotes stores whose pods are all ready.

This project models four layers:

- **`K8sClient`** (`k8s_client.dfy`) interprets what a `kubectl` call returns.
  Each call's result is an input: `Done(stdout)` or `Failed(stderr, message)`,
  plus the parsed JSON.
- **`StoreDb`** (`store_db.dfy`) is the SQLite repository as an in-memory
  database. It holds a map of store rows, the rowid order, the events table, the
  audit table and a seconds clock that stands for `datetime('now')`. The
  `ORDER BY created_at DESC LIMIT ?` queries are modelled as SQLite runs them
  on these unindexed tables: newer rows first, and rows of the same second in
  rowid order, because the sorter breaks ties by scan order. Ties are common,
  since `datetime('now')` has one-second resolution. The model's clock moves
  only between steps (by `Tick`), so all the writes of one step share one
  second; a create's three opening events are stamped alike. In the program
  each `addEvent` reads `datetime('now')` afresh, and a second boundary can
  fall between two of them.
- **`Provisioner`** (`provisioner.dfy`) covers the in-flight gate, the Helm
  install/uninstall plans, and the readiness poll against a time budget.
- **`StoreManager`** (`store_manager.dfy`) is the orchestrator: create, the
  provisioning outcome, delete, the cleanup, reconcile, and the loop timer.

`Common` (`common.dfy`) holds the JavaScript and SQL primitives the others need:
- `includes`;
- `slice(0, n)`;
- SQL `LIMIT`;
- `||` on strings;
- number-to-text rendering.

`Lifecycle` (`lifecycle.dfy`) composes the operations into a step relation. Each
request, each completion of a detached task, each reconcile tick (which takes the
pass's snapshot) and each per-store turn of a pass is a separate event. It proves
an invariant over every reachable state:
- the store table is well formed;
- visible names are unique;
- the gate only tracks existing stores;
- the gate is bounded by the concurrency limit.

It also records traces where the code moves a store along a status change that
`Lifecycle.TableEdge` does not list. That predicate is the lifecycle the
orchestrator is meant to follow:
- Provisioning goes to Ready, Failed or Deleting;
- Ready and Failed go to Deleting;
- Deleting goes to Deleted, or to Failed when the cleanup throws.

External effects are parameters:
- command outcomes;
- JSON parse results;
- the wall clock `Date.now()` (`nowMs`), and the host's UTC offset that `new Date`
  applies to `created_at` (`tzOffsetMs`);
- the database clock (`Tick`);
- the generated store id (`freshId`);
- the request's IP address;
- failures of the repository during cleanup (`CleanupFault`).

### Where the code departs from that lifecycle (the model follows the code)

- **Late outcomes are not ignored.** A provisioning workflow's late success or
  failure is meant to be a no-op once the store is Deleting.
  `_provisionStore` writes `Ready` or `Failed` without re-reading the status.
  `Lifecycle.LateReadyOverwritesDeleting`, `Lifecycle.LateFailureOverwritesDeleting`
  and `Lifecycle.LateOutcomeRewritesDeleted` show the overwrite. After it, a second
  delete is accepted (`Lifecycle.SecondDeleteAfterLateReady`).
- **A reconcile turn acts on a stale row.** A pass takes its snapshot first. It
  then awaits `namespaceExists` and `areAllPodsReady` for each store in turn, so
  a delete can be accepted in between. The turn still writes from the
  snapshot's row. A store already Deleting is set to Failed with "Namespace no
  longer exists" when its namespace is gone, or to Ready when its pods still
  answer ready (`Lifecycle.TickThenDeleteLeavesStaleRow`,
  `Lifecycle.StaleTurnOverwritesDeleting`).
- **A timed-out store can still become Ready.** A store the reconciler failed for
  timeout is moved to Ready by a later workflow outcome. That edge is not in the
  table (`Lifecycle.TimeoutThenLateReady`).
- **Uninstall errors never reach Failed.** The cleanup's `Failed` path is reachable
  only when the repository itself fails. `uninstallStore` swallows every uninstall
  and namespace error (`Provisioner.UninstallAlwaysDeletesNamespace`).
- **Failed stores leave the quota but keep the name.** A `Failed` store still
  blocks its name. The total quota counts every undeleted store that is not
  Failed, so Deleting stores still count (`Lifecycle.FailedStoreFreesQuotaButBlocksName`).

## Model

| member | source | states |
|---|---|---|
| K8sClient.ExecJson | backend/src/services/k8sClient.js:14-28 | Blank output reads as an empty list and other output as its parse. A failed command reads as an empty list exactly when stderr contains "NotFound", "not found" or "No resources found"; otherwise it is an error carrying the command's message. |
| K8sClient.RenderLabelsEmptyIff | backend/src/services/k8sClient.js:45-51 | The rendered `key="value"` label string is empty exactly when there are no labels, so the label command is skipped exactly then. |
| K8sClient.RenderLabelsCons | backend/src/services/k8sClient.js:45-47 | Labels are rendered one `key="value"` per label, separated by single spaces. |
| K8sClient.CreateNamespace | backend/src/services/k8sClient.js:31-57 | An existing namespace is left alone after one probe. Otherwise it is created, and a label command is issued exactly when the create succeeded and labels are given; it names the namespace and the rendered labels. It succeeds exactly when the probe succeeds, or the create succeeds and the labelling is not needed or succeeds. Any error is "Failed to create namespace: " plus the failing command's message. |
| K8sClient.DeleteNamespace | backend/src/services/k8sClient.js:59-71 | Deletion is reported deleted exactly when the command succeeded, and already gone exactly when stderr contains "not found". Other errors are logged and never thrown. |
| K8sClient.NamespaceExists | backend/src/services/k8sClient.js:73-84 | The namespace exists when the probe succeeds. It is absent exactly when stderr contains "NotFound" or "not found". Every other failure is rethrown with the command's message. |
| K8sClient.ReadyFlag | backend/src/services/k8sClient.js:93-100 | A container counts as ready exactly when its first `Ready` condition has status "True". |
| K8sClient.SummarisePods | backend/src/services/k8sClient.js:87-107 | Every pod summary keeps the pod's name, phase, readiness and summed restarts, in order. Summarising fails when some item has no status. |
| K8sClient.GetPodsInNamespace | backend/src/services/k8sClient.js:87-107 | A failed or unparsable query yields no pods. Otherwise the result is the per-pod summary of the listed items. |
| K8sClient.Running | backend/src/services/k8sClient.js:114 | Keeps exactly the pods that take part in the vote: those whose phase is not Succeeded. |
| K8sClient.EveryReady | backend/src/services/k8sClient.js:116 | True exactly when every pod in the list is ready. |
| K8sClient.ReadinessVote | backend/src/services/k8sClient.js:110-117 | The vote is true exactly when at least one pod is outside the Succeeded phase and every such pod is ready. |
| K8sClient.AreAllPodsReady | backend/src/services/k8sClient.js:110-117 | A namespace is ready only if its pod list is non-empty. Readiness is the vote over the listed pods. |
| K8sClient.SummariseEvents | backend/src/services/k8sClient.js:120-138 | One summary per cluster event, in order. |
| K8sClient.SummariseEvent | backend/src/services/k8sClient.js:128-134 | A summary keeps the event's type, reason, message and timestamp. The involved object renders as `kind/name`, or as the empty string when it is missing. |
| K8sClient.NewestSummaries | backend/src/services/k8sClient.js:127-133 | Reversing the listing and cutting it with `slice(0, limit)` keeps the newest `min(limit, n)` of `n` events. A negative `limit` drops that many of the oldest instead, leaving `max(0, n + limit)`. Position `i` holds the summary of the `i`-th newest event. |
| K8sClient.GetEventsInNamespace | backend/src/services/k8sClient.js:120-138 | A failed query yields no events. Otherwise the result holds the newest `min(limit, n)` events for a non-negative `limit`, or `max(0, n + limit)` for a negative one, newest-first, each summarised. |
| K8sClient.RuleUrlsMembership | backend/src/services/k8sClient.js:149-154 | A URL is listed exactly when it is the scheme plus the host of a rule that has a host. |
| K8sClient.IngressSchemeIffTls | backend/src/services/k8sClient.js:147-155 | Every URL of an ingress starts with `https://` when it declares a non-empty TLS list, and with `http://` when it does not. |
| K8sClient.CollectRuleUrls | backend/src/services/k8sClient.js:149-154 | The inner loop yields one URL per rule that has a host, in rule order, each the scheme, `://` and the host. |
| K8sClient.GetIngressUrls | backend/src/services/k8sClient.js:141-162 | A failed query yields no URLs. Otherwise the loop collects the URLs of every ingress in order. |
| K8sClient.GetJobStatus | backend/src/services/k8sClient.js:165-183 | A job status exists exactly when the query succeeded and parsed. A job is complete exactly when it succeeded at least once. Missing counters read as zero. |
| Common.ContainsOccurs | backend/src/services/k8sClient.js:23 | JavaScript `includes` is true exactly when the substring occurs at some position. |
| Common.ShiftOccurrence | backend/src/services/k8sClient.js:23 | When the first character cannot start a match, a substring occurs in the tail exactly when it occurs in the whole string. |
| Common.SliceTo | backend/src/services/k8sClient.js:127 | JavaScript `slice(0, n)`: a prefix of `min(n, length)` elements, or for negative `n` the prefix that drops `-n` elements from the end. |
| Common.SqlLimit | backend/src/models/store.js:148-158 | SQL `LIMIT n`: a prefix of `min(n, length)` rows, and every row when `n` is negative. |
| Common.MillisAsSeconds | backend/src/services/provisioner.js:154 | A whole number of milliseconds renders as the plain integer number of seconds. |
| StoreDb.OrNull | backend/src/models/store.js:127-130 | JavaScript `x \|\| null` on an optional string: present exactly when given and non-empty, and then unchanged. |
| StoreDb.ReverseAscending | backend/src/models/store.js:82-86 | Reversing a list sorted oldest-first gives a newest-first list. |
| StoreDb.InsertNewest | backend/src/models/store.js:136 | Inserting a row into the sorter's output adds exactly that row. |
| StoreDb.InsertNewestOrdered | backend/src/models/store.js:136 | Inserting a row into a list in query order keeps it in query order: newer first, and lower rowid first within a second. |
| StoreDb.SortNewest | backend/src/models/store.js:136 | `ORDER BY created_at DESC` returns every row once, in query order. |
| StoreDb.NewestOrderDescending | backend/src/models/store.js:136 | The query order is newest-first. |
| StoreDb.SameSecondInRowidOrder | backend/src/models/store.js:150 | Rows stamped in one second and inserted in rowid order come out in that order, oldest first. |
| StoreDb.SortedLimitIsTop | backend/src/models/store.js:136 | The sorted rows cut at `LIMIT n` are `min(n, m)` of the `m` rows (all of them for a negative `n`), in query order. Every row left out ranks after every row returned. |
| StoreDb.TopRowsMembers | backend/src/models/store.js:148-158 | The rows returned are rows of the table, and with a negative limit every row is returned. |
| StoreDb.FilterAscending | backend/src/models/store.js:148-151 | Filtering keeps the oldest-first order. |
| StoreDb.Filter | backend/src/models/store.js:148-151 | A WHERE clause keeps exactly the rows that satisfy it. |
| StoreDb.FilterNone | backend/src/models/store.js:148-151 | A WHERE clause no row satisfies selects nothing. |
| StoreDb.FilterAppend | backend/src/models/store.js:148-151 | A WHERE clause over two runs of rows is the clause over each run, concatenated. |
| StoreDb.EmptyDbWellFormed | backend/src/models/store.js:18-54 | A fresh database satisfies the schema's constraints: keys are unique, every row is in the rowid order, rows are oldest-first, and rows with status Deleted have a deletion time. |
| StoreDb.Tick | backend/src/models/store.js:18-54 | Advancing `datetime('now')` changes no table and keeps the database well formed. |
| StoreDb.Select | backend/src/models/store.js:82-119 | A scan returns only rows that satisfy the WHERE clause, never more than were scanned. |
| StoreDb.SelectSound | backend/src/models/store.js:82-119 | Every row a scan returns satisfies the clause and is the row stored under some scanned id. |
| StoreDb.SelectComplete | backend/src/models/store.js:82-119 | Every scanned row that satisfies the clause is returned. |
| StoreDb.MatchingKeysScanned | backend/src/models/store.js:88-93 | An id is counted exactly when it is scanned, present and matching. |
| StoreDb.SelectCountsKeys | backend/src/models/store.js:88-93 | On a duplicate-free scan, the number of rows returned equals the number of distinct matching ids. |
| StoreDb.SelectAscending | backend/src/models/store.js:82-119 | A scan in rowid order returns rows oldest-first. |
| StoreDb.RowsComplete | backend/src/models/store.js:82-119 | A row is selected exactly when it is stored under its id and satisfies the clause. |
| StoreDb.RowsCount | backend/src/models/store.js:88-93 | The size of a selection equals the number of matching keys. |
| StoreDb.RowsFacts | backend/src/models/store.js:82-119 | On a well-formed database a selection is complete and counted, and it is oldest-first. |
| StoreDb.GetStore | backend/src/models/store.js:74-76 | A store is found exactly when its id is present and its `deleted_at` is null, and then it is the stored row. |
| StoreDb.GetStoreByName | backend/src/models/store.js:78-80 | A hit has the name and a null `deleted_at`. On a well-formed database, a miss means no visible store has that name. |
| StoreDb.GetAllStores | backend/src/models/store.js:82-86 | Exactly the stores whose `deleted_at` is null, each once, newest-first. |
| StoreDb.VisibleListing | backend/src/models/store.js:82-86 | The visible selection holds exactly the visible rows and counts the visible keys. Reversed, it is newest-first. |
| StoreDb.GetActiveStoreCount | backend/src/models/store.js:88-93 | The count equals the number of stores that have a null `deleted_at` and are not Failed. Deleting stores still count. |
| StoreDb.GetProvisioningStores | backend/src/models/store.js:115-119 | Every row returned is in Provisioning and has a null `deleted_at`. |
| StoreDb.SelectDistinct | backend/src/models/store.js:82-119 | A scan over duplicate-free ids returns rows with distinct ids. |
| StoreDb.ProvisioningStoresComplete | backend/src/models/store.js:115-119 | On a well-formed table the query returns exactly the stored rows in Provisioning with a null `deleted_at`, one per such id, oldest first. |
| StoreDb.CreateStore | backend/src/models/store.js:57-72 | Insertion fails exactly when the id is taken, with the constraint's message. On success the new row is readable by id. It has the given fields, Provisioning status and the current time. Every other row is kept. |
| StoreDb.CreateStoreKeepsWellFormed | backend/src/models/store.js:57-72 | Inserting a new record keeps the schema's constraints. |
| StoreDb.InsertKeepsWellFormed | backend/src/models/store.js:57-72 | Appending a fresh id stamped with the current time keeps keys unique and the order oldest-first. |
| StoreDb.InsertOrdered | backend/src/models/store.js:57-72 | After an append, every key is listed exactly once in insertion order, and creation times still ascend along that order. |
| StoreDb.RewriteRowKeeps | backend/src/models/store.js:95-113 | Rewriting one existing row keeps the table well formed, as long as the id, name and creation time stay and a soft delete is not undone. |
| StoreDb.StatusUpdate | backend/src/models/store.js:95-107 | The update sets status and `updated_at` and keeps the identity fields. URLs change only when the new value is non-empty. The error message changes whenever one is given, including null. `ready_at` is stamped only on Ready and `deleted_at` only on Deleted. |
| StoreDb.UpdateStoreStatus | backend/src/models/store.js:95-107 | A missing id leaves the database unchanged and returns nothing. Otherwise only that row is rewritten, and the result is the row as re-read. |
| StoreDb.MarkDeleted | backend/src/models/store.js:109-113 | After marking, the store is no longer readable. Only its own row changes. |
| StoreDb.AddEvent | backend/src/models/store.js:141-146 | Appends exactly one event with the next id and the current time, and changes nothing else. |
| StoreDb.EventsOf | backend/src/models/store.js:148-151 | `WHERE store_id = ?` keeps exactly the events of that store. |
| StoreDb.GetStoreEvents | backend/src/models/store.js:148-152 | Returns `min(limit, m)` of the store's `m` events, or all of them with a negative limit. They come newest first, and events of the same second in rowid order. Every event of the store left out ranks after every one returned. |
| StoreDb.EventsOfStoreAscending | backend/src/models/store.js:148-152 | One store's events in insertion order are oldest-first. |
| StoreDb.GetAllEvents | backend/src/models/store.js:154-158 | Returns `min(limit, m)` of the `m` events, or all of them with a negative limit. They come newest first, and events of the same second in rowid order. Every event left out ranks after every one returned. |
| StoreDb.AddAuditEntry | backend/src/models/store.js:122-132 | Appends exactly one audit row. An empty store id or IP is stored as null. |
| StoreDb.GetAuditLog | backend/src/models/store.js:134-138 | Returns `min(limit, m)` of the `m` audit rows, or all of them with a negative limit. They come newest first, and rows of the same second in rowid order. Every row left out ranks after every one returned. |
| StoreDb.SplitByVisibility | backend/src/models/store.js:162-173 | Every row is counted either with a null `deleted_at` or with a stamped one. |
| StoreDb.SplitByStatus | backend/src/models/store.js:162-165 | The visible rows split exactly into the per-status groups. |
| StoreDb.GetMetrics | backend/src/models/store.js:161-185 | Total created = active + deleted, where active is the count of rows with a null `deleted_at`. The per-status map holds the non-zero counts, which sum to the active total. |
| StoreDb.StatusCounts | backend/src/models/store.js:163-176 | Each status maps to its number of visible stores. A status is absent exactly when it has none. |
| StoreDb.MetricsTotals | backend/src/models/store.js:161-185 | The three totals of the metrics query are consistent with one another and with the table. |
| Provisioner.Track | backend/src/services/provisioner.js:174-177 | Tracking adds the store to the in-flight set and touches no other entry. |
| Provisioner.Settle | backend/src/services/provisioner.js:174-177 | Settling removes the store from the in-flight set and touches no other entry. |
| Provisioner.TrackSettleCount | backend/src/services/provisioner.js:160-177 | Tracking raises the active count by one for a new store. Settling lowers it by one for a tracked store. |
| Provisioner.TrackThenSettle | backend/src/services/provisioner.js:167-177 | Tracking then settling a new store restores the gate and its admission verdict. |
| Provisioner.AdmittedTrackWithinBound | backend/src/services/provisioner.js:167-177 | A store admitted by `canProvision` keeps the in-flight count within the limit once tracked. |
| Provisioner.ReleaseName | backend/src/services/provisioner.js:109 | The release is `woo-<id>` for WooCommerce and `medusa-<id>` otherwise. |
| Provisioner.WooUrls | backend/src/services/provisioner.js:92-95 | The store URL is an `http://` URL, and the admin URL is the store URL plus `/wp-admin`. |
| Provisioner.KubeSteps | backend/src/services/provisioner.js:47-52 | Each cluster command becomes one step, in order. |
| Provisioner.InstallWooCommerce | backend/src/services/provisioner.js:35-96 | The first step is always the release probe. An existing release short-circuits to success. Otherwise the namespace is ensured and the chart installed. Success returns the store's URLs. Failures carry the namespace error, or the Helm error prefixed with "Helm install failed: ". |
| Provisioner.InstallIdempotent | backend/src/services/provisioner.js:41-44 | Whatever the later commands would return, a second install of an existing release succeeds with the same URLs. |
| Provisioner.AlreadyExistsIsSuccess | backend/src/services/provisioner.js:84-89 | A Helm error saying "already exists" counts as success. |
| Provisioner.InstallMedusa | backend/src/services/provisioner.js:101-103 | The MedusaJS install always fails with the not-implemented message. |
| Provisioner.UninstallStore | backend/src/services/provisioner.js:108-131 | Both the uninstall and the namespace delete are always issued. The release is removed on success and not found on "not found"; other errors are only logged. The namespace result is the delete's reading. |
| Provisioner.CanProvision | backend/src/services/provisioner.js:167-169 | Admission needs a bound of at least one. An empty gate admits exactly when the bound is at least one. |
| Provisioner.CanProvisionSubset | backend/src/services/provisioner.js:167-169 | A gate holding a subset of another's tasks admits whenever the other does. |
| Provisioner.UninstallAlwaysDeletesNamespace | backend/src/services/provisioner.js:119-131 | No uninstall outcome prevents the namespace deletion. |
| Provisioner.PollOutcome | backend/src/services/provisioner.js:136-155 | The reference poll succeeds only with readiness. Otherwise it fails with the timeout message naming the budget in seconds. |
| Provisioner.PollOutcomeReady | backend/src/services/provisioner.js:136-155 | The poll succeeds exactly when some poll inside the budget reports ready. |
| Provisioner.PollOutcomeAt | backend/src/services/provisioner.js:141-154 | The poll is decided at the first poll that is past the budget or reports ready: a timeout in the first case, success in the second. |
| Provisioner.WaitForReady | backend/src/services/provisioner.js:136-155 | The loop agrees with the reference poll. It stops at the first ready poll inside the budget, or at the first poll past the budget with no earlier ready poll. Check errors are swallowed as "not ready". |
| StoreManager.NamePatternIsDnsLabel | backend/src/services/storeManager.js:31-33 | The name regex accepts exactly the DNS labels: a lower-case letter or digit, optionally followed by up to 61 label characters and a closing letter or digit. |
| StoreManager.Rejection | backend/src/services/storeManager.js:20-49 | Every rejection carries 400, 409 or 429. It is 400 exactly when the request itself is malformed (engine not woocommerce, or a name the pattern refuses). It is 409 exactly when a well-formed request names a visible store. |
| StoreManager.RejectionCases | backend/src/services/storeManager.js:21-49 | A request passes validation exactly when the engine is woocommerce, the name is a label, no visible store has the name, the active count is below the quota, and the gate has room. Each failure has its code and message in source order: 400 with the invalid-engine message, 400 with the Medusa message, 400 with the name message, 409 with the duplicate-name message, 429 with the quota message naming the limit, and 429 with the concurrency message naming the limit. |
| StoreManager.CreateStore | backend/src/services/storeManager.js:16-80 | A rejected request changes nothing. An accepted request inserts one Provisioning record with the derived namespace and writes the audit entry and the three opening events. It tracks the store in the gate and returns the record. A colliding id fails with the repository's error. |
| StoreManager.OpeningEventsOfStore | backend/src/services/storeManager.js:73-94 | When the store had no events before, the three opening events are its only events afterwards. |
| StoreManager.OpeningEventsSameSecond | backend/src/services/storeManager.js:73-94 | The query's sort leaves the three opening events in the order they were written, because they share one second. |
| StoreManager.OpeningEventsOldestFirst | backend/src/models/store.js:148-152 | Right after the opening events, the store's event query returns them in the order written, cut at the limit. With a limit of 1 it returns the creation event. |
| StoreManager.CreateWrites | backend/src/services/storeManager.js:67-94 | The writes append the `CREATE_STORE` audit entry and then the three opening events: creation initiated, creating the namespace, installing WooCommerce. They leave the store table untouched and keep the database well formed. |
| StoreManager.ProvisionOutcome | backend/src/services/storeManager.js:85-114 | The gate always settles the store. A successful install with ready pods sets Ready with the URLs, and its last event is the success event with the message exactly as the source file spells it (the dash is the three characters U+00E2 U+20AC U+201D). Anything else sets Failed with the error, and its last event is "Provisioning failed: " plus the error. The status written does not depend on the current status. |
| StoreManager.FailProvision | backend/src/services/storeManager.js:109-113 | Appends one error event "Provisioning failed: " plus the message for the store. The store's row becomes Failed with the message verbatim, keeping its URLs, ready time and deletion time. No other row changes. |
| StoreManager.DeleteStore | backend/src/services/storeManager.js:119-156 | Fails with 404 exactly when the store is missing and with 409 exactly when it is Deleting; a failure changes nothing. Otherwise it sets Deleting, writes the audit entry and the event, and acknowledges with the id. |
| StoreManager.DeleteCleanup | backend/src/services/storeManager.js:142-153 | Without a fault the store becomes Deleted and unreadable. Any repository fault adds the "Deletion failed: " event and sets Failed with "Delete failed: " plus the message. When the fault comes after the row was marked, that Failed row stays hidden, because `deleted_at` is already set. No other store changes. |
| StoreManager.Decide | backend/src/services/storeManager.js:197-223 | Timed out exactly when elapsed exceeds the budget. Within the budget, a namespace error skips the store, a missing namespace fails it, and ready pods promote it; otherwise nothing happens. |
| StoreManager.ApplyDecision | backend/src/services/storeManager.js:199-223 | Timeout and a missing namespace write Failed with their messages. Readiness writes Ready and clears the error. Skip and no change leave the database as it is. Only the one store changes. |
| StoreManager.Age | backend/src/services/storeManager.js:197-198 | The age a turn computes is the as-written local-time reading. On a host at UTC it is the true age since creation. |
| StoreManager.ReconcileAll | backend/src/services/storeManager.js:190-228 | The reference pass leaves the id order, the audit log and the clock untouched. |
| StoreManager.Reconcile | backend/src/services/storeManager.js:190-228 | The loop over the Provisioning snapshot agrees with the reference pass and leaves the gate and timer alone. |
| StoreManager.ReconcileTouchesOnlySnapshot | backend/src/services/storeManager.js:193-195 | A store not in the snapshot is untouched by the pass. |
| StoreManager.ReconcileTouchesOnlyProvisioning | backend/src/services/storeManager.js:193 | Only stores that were Provisioning at the start can change. |
| StoreManager.ReconcileAllAppend | backend/src/services/storeManager.js:195-227 | A pass over two runs of stores is the pass over the first, then the pass over the second. |
| StoreManager.ErrorSkipsOnlyThatStore | backend/src/services/storeManager.js:224-226 | A store within its time whose namespace check throws is skipped wherever it sits in the snapshot. The pass equals the pass over the other stores. |
| StoreManager.ReconcileStore | backend/src/services/storeManager.js:196-227 | A turn past the budget appends "Provisioning timed out" and sets Failed with the timeout error. Within the budget, a missing namespace appends "Namespace disappeared" and sets Failed. Ready pods append the reconciler's success event and set Ready with the error cleared. A throwing namespace check or unready pods change nothing. Other stores, the audit log and the clock are untouched. |
| StoreManager.ReconcileStoreEffect | backend/src/services/storeManager.js:197-223 | One turn fails a timed-out store with the timeout message. Within its time, it fails a store whose namespace is gone, makes a store with ready pods Ready with the error cleared, and otherwise changes nothing. |
| StoreManager.ReconcileStoreLocal | backend/src/services/storeManager.js:197-223 | A turn's row for its store depends only on that row and the clock. |
| StoreManager.ReconcileAllAt | backend/src/services/storeManager.js:195-227 | When no other snapshot entry shares a store's id, the pass leaves that store's row as its own turn writes it from the starting state. |
| StoreManager.ReconcilePassRow | backend/src/services/storeManager.js:190-228 | Over the Provisioning snapshot of a well-formed table, every store's final row is its own turn's row. |
| StoreManager.ReconcilePassEffect | backend/src/services/storeManager.js:190-228 | After a whole pass, every snapshot store that timed out is Failed with the timeout message. One within its time is Failed when its namespace is gone, or Ready with the error cleared when its pods are ready. Otherwise its row is as before. |
| StoreManager.ElapsedAsWritten | backend/src/services/storeManager.js:198 | The elapsed time as computed reads the database's UTC timestamp as local time, so it is off by the host's UTC offset. |
| StoreManager.LocalParseTimesOutFreshStore | backend/src/services/storeManager.js:198-199 | At UTC+05:30, a store created one second ago counts as timed out under the as-written reading but not under the UTC reading. |
| StoreManager.UtcElapsedTimesOutExactly | backend/src/services/storeManager.js:198-199 | Under the UTC reading a store times out exactly when the budget since its creation has passed. The two readings agree exactly when the offset is zero. |
| StoreManager.StartReconcileLoop | backend/src/services/storeManager.js:233-241 | Starting sets the timer and begins an interval only when none is set. |
| StoreManager.StopReconcileLoop | backend/src/services/storeManager.js:243-248 | Stopping clears the timer and changes nothing else. |
| StoreManager.TimerGuard | backend/src/services/storeManager.js:233-248 | Starting twice is starting once, stopping twice is stopping once, and start-then-stop from idle only counts the started interval. |
| Lifecycle.InitialInv | backend/src/models/store.js:18-54 | The empty platform satisfies the invariant. |
| Lifecycle.NarrowsKeepsUniqueNames | backend/src/models/store.js:95-113 | A step that adds no visible store and renames none keeps visible names unique. |
| Lifecycle.NarrowsTransitive | backend/src/models/store.js:95-113 | Two such narrowing steps compose. |
| Lifecycle.UpdateNarrows | backend/src/models/store.js:95-107 | A status update renames no store and adds no row. |
| Lifecycle.MarkDeletedNarrows | backend/src/models/store.js:109-113 | Marking Deleted renames no store and adds no row. |
| Lifecycle.ReconcileStoreKeeps | backend/src/services/storeManager.js:197-223 | One reconcile turn, on any row, keeps the database well formed and narrows it. |
| Lifecycle.ReconcileAllKeeps | backend/src/services/storeManager.js:190-228 | A reconcile pass keeps the database well formed and narrows it. |
| Lifecycle.FailProvisionKeeps | backend/src/services/storeManager.js:109-113 | Recording a provisioning failure keeps the database well formed and narrows it. |
| Lifecycle.ProvisionOutcomeKeeps | backend/src/services/storeManager.js:85-114 | Any provisioning outcome keeps the database well formed and narrows it. |
| Lifecycle.DeleteStoreKeeps | backend/src/services/storeManager.js:119-156 | A delete request keeps the database well formed and narrows it. |
| Lifecycle.DeleteCleanupKeeps | backend/src/services/storeManager.js:142-153 | The cleanup keeps the database well formed and narrows it, whatever the fault. |
| Lifecycle.InsertKeepsUniqueNames | backend/src/models/store.js:57-72 | Inserting a fresh id under a free name keeps visible names unique. |
| Lifecycle.NameFree | backend/src/services/storeManager.js:36-38 | Passing the duplicate-name check means no visible store has the name. |
| Lifecycle.CreateWritesKeep | backend/src/services/storeManager.js:16-80 | A create request keeps the database well formed and visible names unique. |
| Lifecycle.AcceptedCreateWrites | backend/src/services/storeManager.js:16-80 | An accepted create inserts a fresh Provisioning row under a name no visible store held, then writes the audit entry and the events. |
| Lifecycle.AcceptedInsertKeeps | backend/src/models/store.js:57-72 | Inserting a fresh Provisioning row under a free name keeps the table well formed and its visible names unique. |
| Lifecycle.CreateKeeps | backend/src/services/storeManager.js:16-80 | A create request preserves the invariant, including the concurrency bound on the gate. |
| Lifecycle.ProvisionKeeps | backend/src/services/storeManager.js:85-114 | A provisioning completion preserves the invariant. |
| Lifecycle.DeleteKeeps | backend/src/services/storeManager.js:119-156 | A delete request preserves the invariant and schedules one cleanup. |
| Lifecycle.CleanupKeeps | backend/src/services/storeManager.js:142-153 | A cleanup completion preserves the invariant. |
| Lifecycle.TurnKeeps | backend/src/services/storeManager.js:197-223 | A reconcile turn on any row, stale or not, preserves the invariant. |
| Lifecycle.ReconcileKeeps | backend/src/services/storeManager.js:190-228 | A reconcile pass run with no other event in between, over any snapshot of rows, preserves the invariant. |
| Lifecycle.StepKeepsInv | backend/src/services/storeManager.js:16-248 | Every enabled event preserves the invariant. |
| Lifecycle.ReachableInv | backend/src/services/storeManager.js:16-248 | Every state reachable from start-up satisfies the invariant: unique visible names, the gate within the limit, and the database well formed. |
| Lifecycle.LateReadyOverwritesDeleting | backend/src/services/storeManager.js:101-106 | A delete followed by the workflow's late success leaves the store Ready, not Deleting. |
| Lifecycle.SecondDeleteAfterLateReady | backend/src/services/storeManager.js:128-153 | After a late Ready overwrite, a second delete is accepted and a second cleanup is scheduled. |
| Lifecycle.LateFailureOverwritesDeleting | backend/src/services/storeManager.js:109-113 | A delete followed by the workflow's late failure leaves the store Failed, not Deleting. |
| Lifecycle.LateOutcomeRewritesDeleted | backend/src/services/storeManager.js:101-106 | A late success rewrites a Deleted store to Ready. It stays hidden, because `deleted_at` is never cleared. |
| Lifecycle.TimeoutThenLateReady | backend/src/services/storeManager.js:198-206 | A store the reconciler failed for timeout is moved to Ready by a late outcome, an edge `TableEdge` lacks. It left the quota count when it failed and counts again once Ready. |
| Lifecycle.StaleTurnOverwritesDeleting | backend/src/services/storeManager.js:192-217 | A delete accepted between a pass's snapshot and a turn on the stale row: the store is Deleting, then the turn sets it Failed with "Namespace no longer exists" when the namespace is gone, or Ready when the pods are ready. |
| Lifecycle.TickThenDeleteLeavesStaleRow | backend/src/services/storeManager.js:192-208 | After a tick and a delete of the first snapshot store, the next turn is enabled and visits the Provisioning copy of a store that is now Deleting with a cleanup pending. |
| Lifecycle.FailedStoreFreesQuotaButBlocksName | backend/src/services/storeManager.js:36-44 | A Failed store does not count against the quota but still makes its name a duplicate. |
| Lifecycle.AcmeEventsOldestFirst | backend/src/models/store.js:148-152 | Right after the `acme` create, `getStoreEvents` with limit 1 returns the creation event. With the default limit of 50 it returns the three opening events in the order written. |
| Lifecycle.AcmeCreated | backend/src/services/storeManager.js:16-80 | On the empty system, a create for "acme" is accepted with a visible Provisioning record, and its task is the only one tracked. |
| Lifecycle.ReadyAfterProvision | backend/src/services/storeManager.js:85-108 | Reporting URLs and readiness for a visible record leaves it Ready with those URLs and a ready time, and frees its slot. |
| Lifecycle.DeleteThenGone | backend/src/services/storeManager.js:120-156 | Deleting a visible store that is not already Deleting is acknowledged. After the cleanup the store is unreadable and a second delete answers 404. |
| Lifecycle.AcmeScenario | backend/src/services/storeManager.js:16-156 | Create "acme", then a ready outcome, then delete and cleanup. The reply is Provisioning; then the store is Ready with its URLs and ready time; then the delete is acknowledged; then the store is unreadable. |

## Left out

- Process execution, timeouts on `execSync`/`exec`, `kubectl` argument quoting and logging: each command's outcome is an input.
- `getStoreDetails` (storeManager.js:161-185): it only aggregates reads and external queries that are modelled one by one.
- `listStoreNamespaces` (k8sClient.js:186-195): nothing in the orchestrator core calls it.
- `_generatePassword` (provisioner.js:15-17): randomness; the generated passwords only feed the Helm values.
- The Helm values file and chart contents: they are opaque to the orchestrator.
- The average provisioning time in `getMetrics` (store.js:166-171): it is floating point, from SQLite's `julianday`.
- JSON serialisation of audit details: details are kept structured.
- The schema's `CHECK`/`DEFAULT` DDL is not run. Its constraints are stated as `StoreDb.WellFormed`.
- Concurrency is interleaving only, and no two steps run at once. A reconcile turn's two awaits (`namespaceExists`, `areAllPodsReady`) are one atomic event: no other event falls between them.
- A provisioning task's continuation after the install is merged with its outcome into one `ProvisionFinished` event. The merged part is the "Waiting for pods" event (storeManager.js:98), the awaited readiness poll (:99) and the outcome writes (:101-113).
- StoreManager.ProvisionOutcome: the "Waiting for pods to become ready" event is stamped with the outcome's second and written after any event of the poll's duration. In the program it is written as soon as the install returns, and the install does not wait for the chart (`--wait=false`, provisioner.js:74). The outcome follows only after the poll, which sleeps 5 s between checks (provisioner.js:141-151). So in the program, events written during the poll fall between the two, and the waiting event is normally older than the outcome. In the model both share one second, and the rowid tie order returns the waiting event first. The model promises the outcome's event as the last one written (`last`), not as the newest by `created_at`.
- StoreManager.OpeningEventsOldestFirst: relies on the model stamping a create's three opening events in one second. In the program each `addEvent` (storeManager.js:73, 90, 94) reads `datetime('now')` itself. A second boundary between them makes a later event newer, and with a limit of 1 the query then returns that event instead of the creation event.
- Every turn of a pass is its own event, including the turns of timed-out stores that run without an await. This allows a few interleavings the code does not, an over-approximation that keeps every invariant claim sound.
- The delay between readiness polls (`setTimeout`) and the `Date.now()` reads of `waitForReady`: the poll sequence, with each poll's elapsed time, is an input.
- The `setInterval` callback itself: a `ReconcileTick` event stands for each firing and takes its snapshot, and `ReconcileTurn` events visit the snapshot's stores in order.
- The controller, rate limiting, middleware and dashboard: they are outside the core.
- StoreManager.ProvisionOutcome: a repository write that throws inside `_provisionStore`'s `try` is not modelled. The `catch` (storeManager.js:110-113) would turn a failed Ready write into Failed. The repository calls are treated as not throwing here.
- StoreManager.ReconcileStore: a repository write that throws inside a reconcile turn is not modelled. The turn's `catch` (storeManager.js:224-226) would log it and move on, for example leaving the timeout status without its event. Only a throwing namespace check is modelled (`StoreManager.ErrorSkipsOnlyThatStore`).
- StoreDb.GetAllStores: promises newest-first but no order among stores created in the same second. Its query has no LIMIT, so SQLite's tie order there is not fixed by the same mechanism as the limited queries.
- StoreManager.DeleteCleanup: models only the repository faults that can occur. `uninstallStore` catches every uninstall and namespace error, so those never reach the cleanup's failure path.

## Findings

| source | as written | input that shows it | evidently intended | confidence | as-written member | corrected member |
|---|---|---|---|---|---|---|
| backend/src/services/storeManager.js:198 | `new Date(store.created_at)` parses SQLite's `YYYY-MM-DD HH:MM:SS` text (UTC, no zone marker) as local time, so elapsed time is off by the host's UTC offset | a store created 1 s ago on a host at UTC+05:30 reads as 19 801 000 ms old and is failed for timeout, past the 600 000 ms budget | elapsed is `now - created_at` with `created_at` read as UTC | not executed | StoreManager.ElapsedAsWritten, StoreManager.LocalParseTimesOutFreshStore | StoreManager.Elapsed, StoreManager.UtcElapsedTimesOutExactly |

The reconcile turn (`StoreManager.ReconcileStore`) reads a store's age through
`StoreManager.Age`, which takes the host's offset from the observation. Its
contract states that on a UTC host the age is the corrected `StoreManager.Elapsed`.
Every reconcile lemma is stated in terms of `Age`, so it holds for the as-written
reading on any host and for the corrected reading at offset zero.
