/** The provisioner: the admission gate of running provisioning tasks, the
    Helm install and uninstall decisions, and the readiness poll. Each
    `helm` and `kubectl` run is an `Outcome` given as a parameter; the
    wall clock the poll reads is a sequence of observations. */
module Provisioner {
  import opened Common
  import opened K8sClient
  import opened StoreDb

  // ---------------------------------------------------------------------
  // Admission gate
  // ---------------------------------------------------------------------

  /** The keys of `activeProvisions`: the store ids whose provisioning task
      has been tracked and has not yet settled. */
  type Gate = set<Id>

  const NoProvisions: Gate := {}

  /** `getActiveProvisionCount`: the size of the map. */
  function ActiveProvisionCount(g: Gate): nat {
    |g|
  }

  /** `canProvision`: another task may start while fewer than
      `maxConcurrent` are running. */
  function CanProvision(g: Gate, maxConcurrent: int): (r: bool)
    ensures r ==> maxConcurrent >= 1
    ensures g == NoProvisions ==> (r <==> maxConcurrent >= 1)
  {
    ActiveProvisionCount(g) < maxConcurrent
  }

  /** `trackProvision`: `Map.set` of the id. */
  function Track(g: Gate, storeId: Id): (r: Gate)
    ensures storeId in r
    ensures forall id :: id != storeId ==> (id in r <==> id in g)
  {
    g + {storeId}
  }

  /** The `finally` of a tracked task: `Map.delete` of its id. */
  function Settle(g: Gate, storeId: Id): (r: Gate)
    ensures storeId !in r
    ensures forall id :: id != storeId ==> (id in r <==> id in g)
  {
    g - {storeId}
  }

  /** Tracking adds one to the count for a new id and nothing for an id
      already tracked; settling takes one off for a tracked id and nothing
      otherwise. */
  lemma TrackSettleCount(g: Gate, storeId: Id)
    ensures ActiveProvisionCount(Track(g, storeId)) == if storeId in g then |g| else |g| + 1
    ensures ActiveProvisionCount(Settle(g, storeId)) == if storeId in g then |g| - 1 else |g|
  {
    if storeId in g {
      assert Track(g, storeId) == g;
    } else {
      assert Settle(g, storeId) == g;
    }
  }

  /** A task that is tracked and then settles leaves the gate as it found
      it, so `canProvision` answers as before. */
  lemma TrackThenSettle(g: Gate, storeId: Id, maxConcurrent: int)
    requires storeId !in g
    ensures Settle(Track(g, storeId), storeId) == g
    ensures CanProvision(Settle(Track(g, storeId), storeId), maxConcurrent) <==> CanProvision(g, maxConcurrent)
  {
    assert Settle(Track(g, storeId), storeId) == g;
  }

  /** Fewer running tasks never close the gate: whatever a gate admits, a
      gate holding a subset of its ids admits too. */
  lemma {:induction false} CanProvisionSubset(g: Gate, h: Gate, maxConcurrent: int)
    requires g <= h
    ensures CanProvision(h, maxConcurrent) ==> CanProvision(g, maxConcurrent)
    ensures |g| <= |h|
    decreases |h|
  {
    if h != {} {
      var x :| x in h;
      CanProvisionSubset(g - {x}, h - {x}, maxConcurrent);
    }
  }

  /** Admitted while below the bound, a new task keeps the count within it. */
  lemma AdmittedTrackWithinBound(g: Gate, storeId: Id, maxConcurrent: int)
    requires CanProvision(g, maxConcurrent)
    ensures ActiveProvisionCount(Track(g, storeId)) <= maxConcurrent
  {
    TrackSettleCount(g, storeId);
  }

  // ---------------------------------------------------------------------
  // Release names and URLs
  // ---------------------------------------------------------------------

  /** The Helm release of a store: `woo-<id>` for WooCommerce and
      `medusa-<id>` for every other engine. */
  function ReleaseName(engine: Engine, storeId: Id): (r: string)
    ensures engine == WooCommerce ==> r == "woo-" + storeId
    ensures engine != WooCommerce ==> r == "medusa-" + storeId
  {
    if engine == WooCommerce then "woo-" + storeId else "medusa-" + storeId
  }

  datatype Urls = Urls(storeUrl: string, adminUrl: string)

  /** `<name>.<storeDomain>`. */
  function StoreHost(name: string, domain: string): string {
    name + "." + domain
  }

  /** The URLs a WooCommerce store is served at. */
  function WooUrls(name: string, domain: string): (u: Urls)
    ensures "http://" <= u.storeUrl && u.adminUrl == u.storeUrl + "/wp-admin"
  {
    var url := "http://" + StoreHost(name, domain);
    Urls(url, url + "/wp-admin")
  }

  /** The labels put on a WooCommerce namespace, in insertion order. */
  function WooLabels(storeId: Id, name: string): seq<(string, string)> {
    [("store-platform/store-id", storeId), ("store-platform/store-name", name),
     ("store-platform/engine", "woocommerce"), ("app.kubernetes.io/managed-by", "store-platform")]
  }

  // ---------------------------------------------------------------------
  // Install
  // ---------------------------------------------------------------------

  /** The external commands an install or uninstall issues, in order. */
  datatype Step =
    | HelmStatus(release: string, namespace: string)
    | Kube(command: KubeCommand)
    | HelmInstall(release: string, namespace: string, host: string)
    | HelmUninstall(release: string, namespace: string)

  datatype Install = Install(steps: seq<Step>, result: Result<Urls, string>)

  function KubeSteps(cs: seq<KubeCommand>): (r: seq<Step>)
    ensures |r| == |cs|
    ensures forall i :: 0 <= i < |cs| ==> r[i] == Kube(cs[i])
    decreases |cs|
  {
    if |cs| == 0 then [] else [Kube(cs[0])] + KubeSteps(cs[1..])
  }

  /** The message `installWooCommerce` raises for a failed `helm install`:
      the stderr text, or the error message when stderr is empty. */
  function HelmFailure(stderr: string, message: string): string {
    "Helm install failed: " + (if stderr == "" then message else stderr)
  }

  /** `installWooCommerce`. `releaseExists` is the `helm status` probe,
      `probe`/`create`/`labelRun` the namespace commands, and `helm` the run
      of `helm install` (each consulted only when issued). */
  function InstallWooCommerce(storeId: Id, name: string, namespace: string, domain: string,
                              releaseExists: bool, probe: Outcome, create: Outcome, labelRun: Outcome,
                              helm: Outcome): (r: Install)
    ensures |r.steps| > 0 && r.steps[0] == HelmStatus("woo-" + storeId, namespace)
    ensures releaseExists ==> r == Install([HelmStatus("woo-" + storeId, namespace)], Ok(WooUrls(name, domain)))
    ensures r.result.Ok? ==> r.result.value == WooUrls(name, domain)
    ensures var ns := CreateNamespace(namespace, WooLabels(storeId, name), probe, create, labelRun);
            && (r.result.Err? <==>
                  !releaseExists && (ns.error.Some? || (helm.Failed? && !Contains(helm.stderr, "already exists"))))
            && (!releaseExists && ns.error.Some? ==> r.result == Err(ns.error.value))
            && (!releaseExists && ns.error.None? ==>
                  r.steps == [HelmStatus("woo-" + storeId, namespace)] + KubeSteps(ns.commands)
                             + [HelmInstall("woo-" + storeId, namespace, StoreHost(name, domain))])
            && (!releaseExists && ns.error.None? && r.result.Err? ==> r.result.error == HelmFailure(helm.stderr, helm.message))
  {
    var release := ReleaseName(WooCommerce, storeId);
    var urls := WooUrls(name, domain);
    var status := [HelmStatus(release, namespace)];
    if releaseExists then Install(status, Ok(urls))
    else
      var ns := CreateNamespace(namespace, WooLabels(storeId, name), probe, create, labelRun);
      var prefix := status + KubeSteps(ns.commands);
      if ns.error.Some? then Install(prefix, Err(ns.error.value))
      else
        var steps := prefix + [HelmInstall(release, namespace, StoreHost(name, domain))];
        match helm
        case Done(_) => Install(steps, Ok(urls))
        case Failed(stderr, message) =>
          if Contains(stderr, "already exists") then Install(steps, Ok(urls))
          else Install(steps, Err(HelmFailure(stderr, message)))
  }

  /** Idempotence: finding the release already installed yields exactly the
      URLs a fresh successful install yields. */
  lemma InstallIdempotent(storeId: Id, name: string, namespace: string, domain: string,
                          probe: Outcome, create: Outcome, labelRun: Outcome, helm: Outcome,
                          probe': Outcome, create': Outcome, labelRun': Outcome, helm': Outcome)
    requires InstallWooCommerce(storeId, name, namespace, domain, false, probe, create, labelRun, helm).result.Ok?
    ensures InstallWooCommerce(storeId, name, namespace, domain, true, probe', create', labelRun', helm').result
            == InstallWooCommerce(storeId, name, namespace, domain, false, probe, create, labelRun, helm).result
  {
  }

  /** A race with a concurrent install is not an error: a `helm install`
      whose stderr says the release already exists succeeds as a clean run
      would, after the same commands. */
  lemma AlreadyExistsIsSuccess(storeId: Id, name: string, namespace: string, domain: string,
                               probe: Outcome, create: Outcome, labelRun: Outcome, stderr: string, message: string)
    requires Contains(stderr, "already exists")
    ensures InstallWooCommerce(storeId, name, namespace, domain, false, probe, create, labelRun, Outcome.Failed(stderr, message))
            == InstallWooCommerce(storeId, name, namespace, domain, false, probe, create, labelRun, Done(""))
  {
  }

  const MedusaNotImplemented := "MedusaJS engine is not yet implemented. Architecture is ready for integration."

  /** `installMedusa`: a stub that always rejects. */
  function InstallMedusa(storeId: Id, name: string, namespace: string): (r: Result<Urls, string>)
    ensures r == Err(MedusaNotImplemented)
  {
    Err(MedusaNotImplemented)
  }

  // ---------------------------------------------------------------------
  // Uninstall
  // ---------------------------------------------------------------------

  /** What became of `helm uninstall`: done, skipped as not found, or an
      error that is only logged. */
  datatype ReleaseRemoval = ReleaseRemoved | ReleaseNotFound | UninstallErrorLogged(message: string)

  /** `uninstallStore` has no error result: it always completes. */
  datatype Uninstall = Uninstall(steps: seq<Step>, release: ReleaseRemoval, namespace: NamespaceDeletion)

  /** `uninstallStore`: `helm` is the run of `helm uninstall`, `nsRun` that
      of `kubectl delete ns`. */
  function UninstallStore(storeId: Id, namespace: string, engine: Engine, helm: Outcome, nsRun: Outcome): (r: Uninstall)
    ensures r.steps == [HelmUninstall(ReleaseName(engine, storeId), namespace), Kube(DeleteNamespaceCmd(namespace))]
    ensures r.release.ReleaseRemoved? <==> helm.Done?
    ensures r.release.ReleaseNotFound? <==> helm.Failed? && Contains(helm.stderr, "not found")
    ensures r.release.UninstallErrorLogged? ==> r.release.message == (if helm.stderr == "" then helm.message else helm.stderr)
    ensures r.namespace == DeleteNamespace(nsRun)
  {
    var release := ReleaseName(engine, storeId);
    var removal :=
      match helm
      case Done(_) => ReleaseRemoved
      case Failed(stderr, message) =>
        if Contains(stderr, "not found") then ReleaseNotFound
        else UninstallErrorLogged(if stderr == "" then message else stderr);
    Uninstall([HelmUninstall(release, namespace), Kube(DeleteNamespaceCmd(namespace))], removal, DeleteNamespace(nsRun))
  }

  /** Teardown goes on to delete the namespace whatever `helm uninstall`
      reported: the namespace step depends only on its own run. */
  lemma UninstallAlwaysDeletesNamespace(storeId: Id, namespace: string, engine: Engine,
                                        helm: Outcome, helm': Outcome, nsRun: Outcome)
    ensures UninstallStore(storeId, namespace, engine, helm, nsRun).steps
            == UninstallStore(storeId, namespace, engine, helm', nsRun).steps
    ensures UninstallStore(storeId, namespace, engine, helm, nsRun).namespace
            == UninstallStore(storeId, namespace, engine, helm', nsRun).namespace
  {
  }

  // ---------------------------------------------------------------------
  // Readiness poll
  // ---------------------------------------------------------------------

  /** One turn of the poll loop: `elapsed` is `Date.now() - startTime` when
      the loop condition is evaluated, and `check` is what
      `areAllPodsReady` then returned or threw. */
  datatype Poll = Poll(elapsed: int, check: Result<bool, string>)

  function TimeoutMessage(timeoutMs: int): string {
    "Provisioning timeout: pods not ready after " + MillisAsSeconds(timeoutMs) + "s"
  }

  /** The loop condition still held at every turn up to `k`. */
  ghost predicate WithinBudget(polls: seq<Poll>, k: nat, timeoutMs: int) {
    k < |polls| && forall j :: 0 <= j <= k ==> polls[j].elapsed < timeoutMs
  }

  /** The reference reading of the poll: the first turn past the deadline
      ends it with the timeout error, and before that the first check that
      answers `true` ends it with success. Failed checks and `false` answers
      just go round again. */
  function PollOutcome(polls: seq<Poll>, timeoutMs: int): (r: Result<bool, string>)
    requires exists k :: 0 <= k < |polls| && polls[k].elapsed >= timeoutMs
    ensures r.Ok? ==> r.value
    ensures r.Err? ==> r.error == TimeoutMessage(timeoutMs)
    decreases |polls|
  {
    if polls[0].elapsed >= timeoutMs then Err(TimeoutMessage(timeoutMs))
    else if polls[0].check == Ok(true) then Ok(true)
    else
      var k :| 0 <= k < |polls| && polls[k].elapsed >= timeoutMs;
      assert polls[1..][k - 1] == polls[k];
      PollOutcome(polls[1..], timeoutMs)
  }

  /** The reference reading succeeds exactly when some check within the
      budget answers `true`. */
  lemma {:induction false} PollOutcomeReady(polls: seq<Poll>, timeoutMs: int)
    requires exists k :: 0 <= k < |polls| && polls[k].elapsed >= timeoutMs
    ensures PollOutcome(polls, timeoutMs).Ok? <==>
              exists k: nat :: WithinBudget(polls, k, timeoutMs) && polls[k].check == Ok(true)
    decreases |polls|
  {
    if polls[0].elapsed >= timeoutMs {
      assert forall k: nat :: !WithinBudget(polls, k, timeoutMs);
    } else if polls[0].check == Ok(true) {
      assert WithinBudget(polls, 0, timeoutMs);
    } else {
      var k0 :| 0 <= k0 < |polls| && polls[k0].elapsed >= timeoutMs;
      assert polls[1..][k0 - 1] == polls[k0];
      PollOutcomeReady(polls[1..], timeoutMs);
      var tail := polls[1..];
      forall k: nat | WithinBudget(tail, k, timeoutMs) && tail[k].check == Ok(true)
        ensures WithinBudget(polls, k + 1, timeoutMs) && polls[k + 1].check == Ok(true)
      {
        forall j | 0 <= j <= k + 1 ensures polls[j].elapsed < timeoutMs {
          if j > 0 { assert polls[j] == tail[j - 1]; }
        }
      }
      forall k: nat | WithinBudget(polls, k, timeoutMs) && polls[k].check == Ok(true)
        ensures k > 0 && WithinBudget(tail, k - 1, timeoutMs) && tail[k - 1].check == Ok(true)
      {
        assert k != 0;
        forall j | 0 <= j <= k - 1 ensures tail[j].elapsed < timeoutMs {
          assert tail[j] == polls[j + 1];
        }
      }
    }
  }

  /** When every turn before `i` stayed inside the budget without a `true`
      answer, and turn `i` is past the budget or answers `true`, the reading
      is decided by turn `i`. */
  lemma {:induction false} PollOutcomeAt(polls: seq<Poll>, i: nat, timeoutMs: int)
    requires i < |polls|
    requires exists k :: 0 <= k < |polls| && polls[k].elapsed >= timeoutMs
    requires forall j :: 0 <= j < i ==> polls[j].elapsed < timeoutMs && polls[j].check != Ok(true)
    requires polls[i].elapsed >= timeoutMs || polls[i].check == Ok(true)
    ensures PollOutcome(polls, timeoutMs) == if polls[i].elapsed >= timeoutMs then Err(TimeoutMessage(timeoutMs)) else Ok(true)
    decreases i
  {
    if i > 0 {
      var tail := polls[1..];
      var k :| 0 <= k < |polls| && polls[k].elapsed >= timeoutMs;
      assert k != 0;
      assert tail[k - 1] == polls[k];
      forall j | 0 <= j < i - 1 ensures tail[j].elapsed < timeoutMs && tail[j].check != Ok(true) {
        assert tail[j] == polls[j + 1];
      }
      assert tail[i - 1] == polls[i];
      PollOutcomeAt(tail, i - 1, timeoutMs);
    }
  }

  /** `waitForReady` over the observations of one run. The clock passes the
      deadline at some turn, since every turn sleeps five seconds. `polled`
      counts the readiness checks made. */
  method WaitForReady(polls: seq<Poll>, timeoutMs: int) returns (r: Result<bool, string>, polled: nat)
    requires exists k :: 0 <= k < |polls| && polls[k].elapsed >= timeoutMs
    ensures r == PollOutcome(polls, timeoutMs)
    ensures polled <= |polls|
    ensures r.Ok? ==> 0 < polled && WithinBudget(polls, polled - 1, timeoutMs) && polls[polled - 1].check == Ok(true)
    ensures forall j :: 0 <= j < polled - 1 ==> polls[j].check != Ok(true)
    ensures r.Err? ==> polled < |polls| && polls[polled].elapsed >= timeoutMs
    ensures r.Err? ==> forall j :: 0 <= j < polled ==> polls[j].check != Ok(true)
  {
    ghost var deadline :| 0 <= deadline < |polls| && polls[deadline].elapsed >= timeoutMs;
    var i := 0;
    while i < |polls| && polls[i].elapsed < timeoutMs && polls[i].check != Ok(true)
      invariant 0 <= i <= deadline
      invariant forall j :: 0 <= j < i ==> polls[j].elapsed < timeoutMs && polls[j].check != Ok(true)
      decreases |polls| - i
    {
      i := i + 1;
    }
    PollOutcomeAt(polls, i, timeoutMs);
    if polls[i].elapsed >= timeoutMs {
      return Err(TimeoutMessage(timeoutMs)), i;
    }
    assert WithinBudget(polls, i, timeoutMs);
    return Ok(true), i + 1;
  }
}
