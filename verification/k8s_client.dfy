/** The cluster client: how the platform reads the answers `kubectl` gives.
    Every command is an oracle here. Its run is an `Outcome` (the captured
    stdout, or the stderr and message of the error it raised), and what
    `JSON.parse` makes of the stdout is a `Result` passed in beside it. */
module K8sClient {
  import opened Common

  /** One finished external command. */
  datatype Outcome = Done(stdout: string) | Failed(stderr: string, message: string)

  /** A `kubectl get ... -o json` list document; `items` may be absent. */
  datatype ItemList<T> = ItemList(items: Option<seq<T>>)

  /** `data.items || []`. */
  function Items<T>(doc: ItemList<T>): seq<T> {
    doc.items.GetOr([])
  }

  function EmptyList<T>(): ItemList<T> {
    ItemList(Some([]))
  }

  // ---------------------------------------------------------------------
  // _execJson
  // ---------------------------------------------------------------------

  /** The stderr texts that `_execJson` reads as "nothing there". */
  predicate IsNotFound(stderr: string) {
    || Contains(stderr, "NotFound")
    || Contains(stderr, "not found")
    || Contains(stderr, "No resources found")
  }

  /** `_execJson`: blank stdout is an empty list, other stdout is parsed
      (a parse error propagates), and a failed command is an empty list
      when its stderr says the resource is missing and propagates otherwise. */
  function ExecJson<T>(run: Outcome, parsed: Result<ItemList<T>, string>): (r: Result<ItemList<T>, string>)
    ensures run.Done? && IsBlank(run.stdout) ==> r == Ok(EmptyList())
    ensures run.Done? && !IsBlank(run.stdout) ==> r == parsed
    ensures run.Failed? ==> (r.Ok? <==> IsNotFound(run.stderr))
    ensures run.Failed? && r.Ok? ==> Items(r.value) == []
    ensures run.Failed? && r.Err? ==> r.error == run.message
  {
    match run
    case Done(out) => if IsBlank(out) then Ok(EmptyList()) else parsed
    case Failed(stderr, message) => if IsNotFound(stderr) then Ok(EmptyList()) else Err(message)
  }

  // ---------------------------------------------------------------------
  // Namespaces
  // ---------------------------------------------------------------------

  /** The `kubectl` commands the namespace operations issue, in order. */
  datatype KubeCommand =
    | GetNamespace(name: string)
    | CreateNamespaceCmd(name: string)
    | LabelNamespace(name: string, args: string)
    | DeleteNamespaceCmd(name: string)

  /** One label as `key="value"`. */
  function RenderLabel(kv: (string, string)): string {
    kv.0 + "=\"" + kv.1 + "\""
  }

  /** `Object.entries(labels).map(([k, v]) => `${k}="${v}"`).join(' ')`. */
  function RenderLabels(labels: seq<(string, string)>): string
    decreases |labels|
  {
    if |labels| == 0 then ""
    else if |labels| == 1 then RenderLabel(labels[0])
    else RenderLabel(labels[0]) + " " + RenderLabels(labels[1..])
  }

  /** The label step runs exactly when there is a label to apply: the
      rendered argument list is empty only for an empty label map. */
  lemma {:induction false} RenderLabelsEmptyIff(labels: seq<(string, string)>)
    ensures RenderLabels(labels) == "" <==> labels == []
  {
    if |labels| > 0 {
      assert |RenderLabel(labels[0])| >= 3;
      if |labels| > 1 {
        assert |RenderLabels(labels)| >= |RenderLabel(labels[0])|;
      }
    }
  }

  /** A single label renders on its own, and a longer list is the first
      label, a space, and the rendering of the rest. */
  lemma RenderLabelsCons(kv: (string, string), rest: seq<(string, string)>)
    ensures RenderLabels([kv]) == RenderLabel(kv)
    ensures rest != [] ==> RenderLabels([kv] + rest) == RenderLabel(kv) + " " + RenderLabels(rest)
  {
    assert ([kv] + rest)[1..] == rest;
  }

  datatype NamespaceCreation = NamespaceCreation(commands: seq<KubeCommand>, error: Option<string>)

  /** `createNamespace`: `probe` is `kubectl get ns`, `create` is
      `kubectl create ns`, `labelRun` is `kubectl label ns ... --overwrite`
      (consulted only when that command is issued). */
  function CreateNamespace(name: string, labels: seq<(string, string)>,
                           probe: Outcome, create: Outcome, labelRun: Outcome): (r: NamespaceCreation)
    ensures probe.Done? ==> r == NamespaceCreation([GetNamespace(name)], None)
    ensures probe.Failed? ==> |r.commands| >= 2 && r.commands[..2] == [GetNamespace(name), CreateNamespaceCmd(name)]
    ensures (exists i :: 0 <= i < |r.commands| && r.commands[i].LabelNamespace?)
            <==> probe.Failed? && create.Done? && labels != []
    ensures forall i :: 0 <= i < |r.commands| && r.commands[i].LabelNamespace? ==>
              r.commands[i] == LabelNamespace(name, RenderLabels(labels))
    ensures r.error.None? <==> probe.Done? || (create.Done? && (labels == [] || labelRun.Done?))
    ensures r.error.Some? ==>
              r.error.value == "Failed to create namespace: " + (if create.Failed? then create.message else labelRun.message)
  {
    RenderLabelsEmptyIff(labels);
    var prefix := [GetNamespace(name), CreateNamespaceCmd(name)];
    if probe.Done? then NamespaceCreation([GetNamespace(name)], None)
    else if create.Failed? then NamespaceCreation(prefix, Some("Failed to create namespace: " + create.message))
    else
      var args := RenderLabels(labels);
      if args == "" then NamespaceCreation(prefix, None)
      else
        var commands := prefix + [LabelNamespace(name, args)];
        assert commands[2].LabelNamespace?;
        if labelRun.Failed? then NamespaceCreation(commands, Some("Failed to create namespace: " + labelRun.message))
        else NamespaceCreation(commands, None)
  }

  datatype NamespaceDeletion = NamespaceDeleted | NamespaceAlreadyGone | DeletionErrorLogged(message: string)

  /** `deleteNamespace`: never throws; a "not found" stderr is a skip and any
      other error is only logged. */
  function DeleteNamespace(run: Outcome): (r: NamespaceDeletion)
    ensures r.NamespaceDeleted? <==> run.Done?
    ensures r.NamespaceAlreadyGone? <==> run.Failed? && Contains(run.stderr, "not found")
    ensures r.DeletionErrorLogged? ==> r.message == run.message
  {
    match run
    case Done(_) => NamespaceDeleted
    case Failed(stderr, message) =>
      if Contains(stderr, "not found") then NamespaceAlreadyGone else DeletionErrorLogged(message)
  }

  /** `namespaceExists`: success means present; a NotFound / not found stderr
      means absent; every other error propagates. */
  function NamespaceExists(run: Outcome): (r: Result<bool, string>)
    ensures run.Done? ==> r == Ok(true)
    ensures r == Ok(false) <==> run.Failed? && (Contains(run.stderr, "NotFound") || Contains(run.stderr, "not found"))
    ensures r.Err? <==> run.Failed? && !Contains(run.stderr, "NotFound") && !Contains(run.stderr, "not found")
    ensures r.Err? ==> r.error == run.message
  {
    match run
    case Done(_) => Ok(true)
    case Failed(stderr, message) =>
      if Contains(stderr, "NotFound") || Contains(stderr, "not found") then Ok(false) else Err(message)
  }

  // ---------------------------------------------------------------------
  // Pods
  // ---------------------------------------------------------------------

  datatype Condition = Condition(condType: string, status: string)
  datatype ContainerStatus = ContainerStatus(restartCount: nat)
  datatype PodStatusJson = PodStatusJson(phase: string, conditions: Option<seq<Condition>>,
                                         containerStatuses: Option<seq<ContainerStatus>>)
  /** A pod as `kubectl` returns it; `status` may be missing. */
  datatype PodJson = PodJson(name: string, status: Option<PodStatusJson>)

  /** The summary the platform keeps of a pod; `status` holds the phase. */
  datatype Pod = Pod(name: string, status: string, ready: bool, restarts: nat)

  /** `j` is the first condition of type `Ready`. */
  ghost predicate FirstReadyAt(conds: seq<Condition>, j: int) {
    && 0 <= j < |conds|
    && conds[j].condType == "Ready"
    && forall k :: 0 <= k < j ==> conds[k].condType != "Ready"
  }

  /** `readyCondition ? readyCondition.status === 'True' : false`, where
      `readyCondition` is the first condition of type `Ready`. */
  function ReadyFlag(conds: seq<Condition>): (r: bool)
    ensures r <==> exists j :: FirstReadyAt(conds, j) && conds[j].status == "True"
    decreases |conds|
  {
    if |conds| == 0 then false
    else if conds[0].condType == "Ready" then
      assert FirstReadyAt(conds, 0);
      assert forall j :: FirstReadyAt(conds, j) ==> j == 0;
      conds[0].status == "True"
    else
      var rest := ReadyFlag(conds[1..]);
      assert forall j :: FirstReadyAt(conds[1..], j) <==> FirstReadyAt(conds, j + 1);
      assert forall j :: FirstReadyAt(conds, j) ==> j >= 1;
      rest
  }

  /** The sum of the containers' `restartCount`s. */
  function SumRestarts(cs: seq<ContainerStatus>): nat
    decreases |cs|
  {
    if |cs| == 0 then 0 else cs[0].restartCount + SumRestarts(cs[1..])
  }

  /** One pod's summary; a missing `status` is the TypeError that makes the
      whole query fall back to an empty list. */
  function SummarisePod(p: PodJson): Option<Pod> {
    match p.status
    case None => None
    case Some(st) =>
      Some(Pod(p.name, st.phase, ReadyFlag(st.conditions.GetOr([])),
               SumRestarts(st.containerStatuses.GetOr([]))))
  }

  /** `items.map(...)`: all pods summarised, or nothing if any of them fails. */
  function SummarisePods(items: seq<PodJson>): (r: Option<seq<Pod>>)
    ensures r.Some? <==> forall i :: 0 <= i < |items| ==> items[i].status.Some?
    ensures r.Some? ==> |r.value| == |items|
    ensures r.Some? ==> forall i :: 0 <= i < |items| ==> SummarisePod(items[i]) == Some(r.value[i])
    decreases |items|
  {
    if |items| == 0 then Some([])
    else match (SummarisePod(items[0]), SummarisePods(items[1..]))
      case (Some(p), Some(ps)) =>
        assert forall i :: 1 <= i < |items| ==> items[i] == items[1..][i - 1];
        Some([p] + ps)
      case (None, _) => None
      case (_, None) =>
        assert exists i :: 1 <= i < |items| && items[i] == items[1..][i - 1] && items[i].status.None?;
        None
  }

  /** `getPodsInNamespace`: the summaries of the listed pods in their order,
      or `[]` on any failure of the query or the mapping. */
  function GetPodsInNamespace(run: Outcome, parsed: Result<ItemList<PodJson>, string>): (r: seq<Pod>)
    ensures ExecJson(run, parsed).Err? ==> r == []
    ensures ExecJson(run, parsed).Ok? ==>
              var items := Items(ExecJson(run, parsed).value);
              || (r == [] && exists i :: 0 <= i < |items| && items[i].status.None?)
              || (&& |r| == |items|
                  && forall i :: 0 <= i < |items| ==>
                       && items[i].status.Some?
                       && r[i].name == items[i].name
                       && r[i].status == items[i].status.value.phase
                       && (r[i].ready <==> exists j :: FirstReadyAt(items[i].status.value.conditions.GetOr([]), j)
                                                  && items[i].status.value.conditions.GetOr([])[j].status == "True")
                       && r[i].restarts == SumRestarts(items[i].status.value.containerStatuses.GetOr([])))
  {
    match ExecJson(run, parsed)
    case Err(_) => []
    case Ok(doc) =>
      match SummarisePods(Items(doc))
      case None => []
      case Some(pods) => pods
  }

  /** `p.status !== 'Succeeded'`: the pods that take part in the vote. */
  predicate Votes(p: Pod) {
    p.status != "Succeeded"
  }

  function Running(pods: seq<Pod>): (r: seq<Pod>)
    ensures forall p :: p in r <==> p in pods && Votes(p)
    decreases |pods|
  {
    if |pods| == 0 then []
    else if Votes(pods[0]) then [pods[0]] + Running(pods[1..])
    else Running(pods[1..])
  }

  function EveryReady(pods: seq<Pod>): (r: bool)
    ensures r <==> forall p :: p in pods ==> p.ready
    decreases |pods|
  {
    if |pods| == 0 then true
    else
      assert forall p :: p in pods <==> p == pods[0] || p in pods[1..];
      pods[0].ready && EveryReady(pods[1..])
  }

  /** The readiness vote of `areAllPodsReady`: false for no pods; otherwise
      some pod must be outside the `Succeeded` phase and every such pod ready. */
  function ReadinessVote(pods: seq<Pod>): (r: bool)
    ensures r <==> && (exists i :: 0 <= i < |pods| && Votes(pods[i]))
                   && (forall i :: 0 <= i < |pods| && Votes(pods[i]) ==> pods[i].ready)
  {
    if |pods| == 0 then false
    else
      var running := Running(pods);
      if |running| > 0 then
        assert running[0] in running;
        assert forall i :: 0 <= i < |pods| && Votes(pods[i]) ==> pods[i] in running;
        EveryReady(running)
      else
        assert running == [];
        assert forall i :: 0 <= i < |pods| ==> pods[i] in pods;
        false
  }

  /** `areAllPodsReady(namespace)`: the vote over the namespace's pod
      summaries. It never throws, because the pod query swallows errors. */
  function AreAllPodsReady(run: Outcome, parsed: Result<ItemList<PodJson>, string>): (r: bool)
    ensures r ==> GetPodsInNamespace(run, parsed) != []
    ensures r <==> ReadinessVote(GetPodsInNamespace(run, parsed))
  {
    ReadinessVote(GetPodsInNamespace(run, parsed))
  }

  // ---------------------------------------------------------------------
  // Events
  // ---------------------------------------------------------------------

  datatype InvolvedObject = InvolvedObject(kind: string, name: string)
  datatype EventJson = EventJson(eventType: string, reason: string, message: string,
                                 involvedObject: Option<InvolvedObject>, creationTimestamp: string)
  datatype ClusterEvent = ClusterEvent(eventType: string, reason: string, message: string,
                                       obj: string, timestamp: string)

  /** `Kind/name` of the involved object, or the empty string. */
  function ObjectRef(o: Option<InvolvedObject>): string {
    match o
    case None => ""
    case Some(obj) => obj.kind + "/" + obj.name
  }

  /** The summary of one event; it names the involved object as
      `Kind/name`, and uses the empty string when the event has none. */
  function SummariseEvent(e: EventJson): (r: ClusterEvent)
    ensures r.eventType == e.eventType && r.reason == e.reason && r.message == e.message
    ensures r.timestamp == e.creationTimestamp
    ensures e.involvedObject.None? ==> r.obj == ""
    ensures e.involvedObject.Some? ==> r.obj == e.involvedObject.value.kind + "/" + e.involvedObject.value.name
  {
    ClusterEvent(e.eventType, e.reason, e.message, ObjectRef(e.involvedObject), e.creationTimestamp)
  }

  function SummariseEvents(es: seq<EventJson>): (r: seq<ClusterEvent>)
    ensures |r| == |es|
    ensures forall i :: 0 <= i < |es| ==> r[i] == SummariseEvent(es[i])
  {
    seq(|es|, i requires 0 <= i < |es| => SummariseEvent(es[i]))
  }

  /** `getEventsInNamespace`: the listing (oldest first) reversed, cut to
      `limit` with `slice(0, limit)`, and summarised; `[]` on failure. */
  function GetEventsInNamespace(run: Outcome, parsed: Result<ItemList<EventJson>, string>, limit: int): (r: seq<ClusterEvent>)
    ensures ExecJson(run, parsed).Err? ==> r == []
    ensures ExecJson(run, parsed).Ok? ==> NewestEvents(Items(ExecJson(run, parsed).value), limit, r)
  {
    match ExecJson(run, parsed)
    case Err(_) => []
    case Ok(doc) =>
      NewestSummaries(Items(doc), limit);
      SummariseEvents(SliceTo(Reverse(Items(doc)), limit))
  }

  /** `r` holds the summaries of the newest `limit` events of `items`,
      newest first; a negative `limit` drops that many of the oldest. */
  predicate NewestEvents(items: seq<EventJson>, limit: int, r: seq<ClusterEvent>) {
    && (limit >= 0 ==> |r| == Min(limit, |items|))
    && (limit < 0 ==> |r| == if |items| + limit < 0 then 0 else |items| + limit)
    && |r| <= |items|
    && forall i :: 0 <= i < |r| ==> r[i] == SummariseEvent(items[|items| - 1 - i])
  }

  /** The newest-first cut of a listing, summarised event by event. */
  lemma NewestSummaries(items: seq<EventJson>, limit: int)
    ensures NewestEvents(items, limit, SummariseEvents(SliceTo(Reverse(items), limit)))
  {
    var newest := Reverse(items);
    var cut := SliceTo(newest, limit);
    assert forall i :: 0 <= i < |cut| ==> cut[i] == newest[i];
  }

  // ---------------------------------------------------------------------
  // Ingress URLs
  // ---------------------------------------------------------------------

  /** A rule's `host`; the empty string stands for a missing host. */
  datatype IngressRule = IngressRule(host: string)
  datatype IngressTls = IngressTls(hosts: seq<string>)
  datatype IngressSpec = IngressSpec(rules: Option<seq<IngressRule>>, tls: Option<seq<IngressTls>>)
  datatype IngressJson = IngressJson(spec: Option<IngressSpec>)

  predicate HasTls(sp: IngressSpec) {
    sp.tls.Some? && |sp.tls.value| > 0
  }

  function Scheme(sp: IngressSpec): string {
    if HasTls(sp) then "https" else "http"
  }

  /** The URLs of a list of rules under one scheme, in rule order. */
  function RuleUrls(rules: seq<IngressRule>, scheme: string): seq<string>
    decreases |rules|
  {
    if |rules| == 0 then []
    else
      var last := rules[|rules| - 1];
      RuleUrls(rules[..|rules| - 1], scheme) + (if last.host != "" then [scheme + "://" + last.host] else [])
  }

  function IngressRules(ing: IngressJson): seq<IngressRule> {
    if ing.spec.Some? && ing.spec.value.rules.Some? then ing.spec.value.rules.value else []
  }

  function IngressUrls(ing: IngressJson): seq<string> {
    if ing.spec.Some? then RuleUrls(IngressRules(ing), Scheme(ing.spec.value)) else []
  }

  /** All URLs of a list of ingresses, ingress by ingress. */
  function AllIngressUrls(items: seq<IngressJson>): seq<string>
    decreases |items|
  {
    if |items| == 0 then []
    else AllIngressUrls(items[..|items| - 1]) + IngressUrls(items[|items| - 1])
  }

  /** A URL comes from a rule exactly when that rule has a host, and it is
      the scheme, `://` and the host. */
  lemma {:induction false} RuleUrlsMembership(rules: seq<IngressRule>, scheme: string, u: string)
    ensures u in RuleUrls(rules, scheme) <==>
              exists k :: 0 <= k < |rules| && rules[k].host != "" && u == scheme + "://" + rules[k].host
    decreases |rules|
  {
    if |rules| > 0 {
      var init := rules[..|rules| - 1];
      RuleUrlsMembership(init, scheme, u);
      assert forall k :: 0 <= k < |init| ==> init[k] == rules[k];
    }
  }

  /** https iff TLS: every URL of an ingress starts with `https://` when the
      ingress declares a non-empty `tls` list and with `http://` otherwise. */
  lemma IngressSchemeIffTls(ing: IngressJson, u: string)
    requires u in IngressUrls(ing)
    ensures ing.spec.Some?
    ensures HasTls(ing.spec.value) ==> "https://" <= u
    ensures !HasTls(ing.spec.value) ==> "http://" <= u
  {
    RuleUrlsMembership(IngressRules(ing), Scheme(ing.spec.value), u);
  }

  /** The inner loop of `getIngressUrls`: one URL per rule with a host. */
  method CollectRuleUrls(rules: seq<IngressRule>, scheme: string) returns (out: seq<string>)
    ensures out == RuleUrls(rules, scheme)
  {
    out := [];
    var j := 0;
    while j < |rules|
      invariant 0 <= j <= |rules|
      invariant out == RuleUrls(rules[..j], scheme)
    {
      assert rules[..j + 1][..j] == rules[..j];
      if rules[j].host != "" {
        out := out + [scheme + "://" + rules[j].host];
      }
      j := j + 1;
    }
    assert rules[..j] == rules;
  }

  /** `getIngressUrls`: the nested loops over ingresses and their rules,
      pushing one URL per rule with a host; `[]` when the query fails. */
  method GetIngressUrls(run: Outcome, parsed: Result<ItemList<IngressJson>, string>) returns (urls: seq<string>)
    ensures ExecJson(run, parsed).Err? ==> urls == []
    ensures ExecJson(run, parsed).Ok? ==> urls == AllIngressUrls(Items(ExecJson(run, parsed).value))
  {
    var fetched := ExecJson(run, parsed);
    if fetched.Err? {
      return [];
    }
    var items := Items(fetched.value);
    urls := [];
    var i := 0;
    while i < |items|
      invariant 0 <= i <= |items|
      invariant urls == AllIngressUrls(items[..i])
    {
      var ing := items[i];
      var part: seq<string> := [];
      if ing.spec.Some? && ing.spec.value.rules.Some? {
        part := CollectRuleUrls(ing.spec.value.rules.value, Scheme(ing.spec.value));
      }
      assert part == IngressUrls(ing);
      assert items[..i + 1][..i] == items[..i];
      urls := urls + part;
      i := i + 1;
    }
    assert items[..i] == items;
  }

  // ---------------------------------------------------------------------
  // Jobs
  // ---------------------------------------------------------------------

  datatype JobCounts = JobCounts(active: Option<nat>, succeeded: Option<nat>, failed: Option<nat>)
  datatype JobJson = JobJson(status: Option<JobCounts>)
  datatype JobStatus = JobStatus(active: nat, succeeded: nat, failed: nat, complete: bool)

  /** `getJobStatus`: missing counts read as 0, the job is complete iff some
      pod succeeded, and any error (including an unparsable answer) is null. */
  function GetJobStatus(run: Outcome, parsed: Result<JobJson, string>): (r: Option<JobStatus>)
    ensures r.Some? <==> run.Done? && parsed.Ok?
    ensures r.Some? ==> (r.value.complete <==> r.value.succeeded > 0)
    ensures r.Some? && parsed.value.status.None? ==> r.value == JobStatus(0, 0, 0, false)
    ensures r.Some? && parsed.value.status.Some? ==>
              var c := parsed.value.status.value;
              && r.value.active == c.active.GetOr(0)
              && r.value.succeeded == c.succeeded.GetOr(0)
              && r.value.failed == c.failed.GetOr(0)
  {
    if run.Failed? || parsed.Err? then None
    else
      var c := parsed.value.status.GetOr(JobCounts(None, None, None));
      var succeeded := c.succeeded.GetOr(0);
      Some(JobStatus(c.active.GetOr(0), succeeded, c.failed.GetOr(0), succeeded > 0))
  }
}
