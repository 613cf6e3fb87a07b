/** Comparing two manifests resource by resource, with the fields a cluster
    rewrites on its own filtered out first. */
module SmartDiff {
  import opened Basics
  import opened Trees
  import opened StringOrder
  import FieldDiff

  type Body = map<string, Tree>

  datatype Filters = Filters(
    status: bool, managedFields: bool, generation: bool, annotations: bool, labels: bool, finalizers: bool,
    ownerRefs: bool, defaultedFields: bool, imagePullPolicy: bool, secretRotation: bool)

  // ----- what each filter leaves -----

  function HiddenMeta(f: Filters): set<string> {
    (if f.managedFields then {} else {"managedFields"})
    + (if f.generation then {} else {"generation", "resourceVersion", "uid", "creationTimestamp", "selfLink"})
    + (if f.annotations then {} else {"annotations"})
    + (if f.labels then {} else {"labels"})
    + (if f.finalizers then {} else {"finalizers"})
    + (if f.ownerRefs then {} else {"ownerReferences"})
  }

  predicate HasMap(o: Body, k: string) {
    k in o && o[k].Map?
  }

  function MetaFiltered(o: Body, f: Filters): Body {
    if !HasMap(o, "metadata") then o
    else
      var meta := o["metadata"].fields - HiddenMeta(f);
      if meta == map[] then o - {"metadata"} else o["metadata" := Map(meta)]
  }

  function PortFiltered(p: Tree): Tree {
    if !p.Map? then p
    else Map(p.fields - ((if "protocol" in p.fields && p.fields["protocol"] == Str("TCP") then {"protocol"} else {})
        + {"nodePort"}))
  }

  function PortsFiltered(ps: seq<Tree>): seq<Tree> {
    seq(|ps|, i requires 0 <= i < |ps| => PortFiltered(ps[i]))
  }

  function DefaultKeys(kind: Tree, spec: Body): set<string> {
    if kind == Str("Service") then
      {"clusterIP", "clusterIPs", "ipFamilies", "ipFamilyPolicy"}
      + (if "internalTrafficPolicy" in spec
          && spec["internalTrafficPolicy"] == Str("Cluster") then {"internalTrafficPolicy"} else {})
      + (if "sessionAffinity" in spec && spec["sessionAffinity"] == Str("None") then {"sessionAffinity"} else {})
    else if kind == Str("Deployment") || kind == Str("StatefulSet") || kind == Str("DaemonSet")
        || kind == Str("ReplicaSet") then
      {"revisionHistoryLimit", "progressDeadlineSeconds"}
    else {}
  }

  function SpecDefaulted(kind: Tree, spec: Body): Body {
    var rest := spec - DefaultKeys(kind, spec);
    if kind == Str("Service") && "ports" in rest && rest["ports"].List?
    then rest["ports" := List(PortsFiltered(rest["ports"].items))]
    else rest
  }

  function Kind(o: Body): Tree {
    if "kind" in o then o["kind"] else Null
  }

  function DefaultsFiltered(o: Body): Body {
    if HasMap(o, "spec") then o["spec" := Map(SpecDefaulted(Kind(o), o["spec"].fields))] else o
  }

  function ContainerFiltered(c: Tree): Tree {
    if c.Map? then Map(c.fields - {"imagePullPolicy", "terminationMessagePath", "terminationMessagePolicy"}) else c
  }

  function ContainersFiltered(cs: seq<Tree>): seq<Tree> {
    seq(|cs|, i requires 0 <= i < |cs| => ContainerFiltered(cs[i]))
  }

  function ListFiltered(pod: Body, k: string): Body {
    if k in pod && pod[k].List? then pod[k := List(ContainersFiltered(pod[k].items))] else pod
  }

  function PodFiltered(pod: Body): Body {
    ListFiltered(ListFiltered(ListFiltered(pod, "containers"), "initContainers"), "ephemeralContainers")
  }

  /** Does spec.template.spec, or the like below any other owner, hold a pod spec? */
  predicate HasPod(owner: Body) {
    HasMap(owner, "template") && HasMap(owner["template"].fields, "spec")
  }

  function TemplateFiltered(owner: Body): Body
    requires HasPod(owner)
  {
    var template := owner["template"].fields;
    owner["template" := Map(template["spec" := Map(PodFiltered(template["spec"].fields))])]
  }

  predicate HasJob(spec: Body) {
    HasMap(spec, "jobTemplate") && HasMap(spec["jobTemplate"].fields, "spec")
        && HasPod(spec["jobTemplate"].fields["spec"].fields)
  }

  /** A workload's template, else a cron job's, else the spec of a pod. */
  function SpecContainersFiltered(spec: Body): Body {
    if HasPod(spec) then TemplateFiltered(spec)
    else if HasJob(spec) then
      var job := spec["jobTemplate"].fields;
      spec["jobTemplate" := Map(job["spec" := Map(TemplateFiltered(job["spec"].fields))])]
    else PodFiltered(spec)
  }

  function PullPolicyFiltered(o: Body): Body {
    if HasMap(o, "spec") then o["spec" := Map(SpecContainersFiltered(o["spec"].fields))] else o
  }

  const REDACTED := Str("<redacted-by-smart-diff>")

  function Redacted(data: Body): Body {
    map k | k in data :: REDACTED
  }

  function DataRedacted(o: Body, k: string): Body {
    if HasMap(o, k) then o[k := Map(Redacted(o[k].fields))] else o
  }

  function SecretFiltered(o: Body): Body {
    if Kind(o) == Str("Secret") then DataRedacted(DataRedacted(o, "data"), "stringData") else o
  }

  function Filtered(o: Body, f: Filters): Body {
    var o1 := if f.status then o else o - {"status"};
    var o2 := MetaFiltered(o1, f);
    var o3 := if f.defaultedFields then o2 else DefaultsFiltered(o2);
    var o4 := if f.imagePullPolicy then o3 else PullPolicyFiltered(o3);
    if f.secretRotation then o4 else SecretFiltered(o4)
  }

  // ----- filtering twice is filtering once -----

  lemma PortsTwice(ps: seq<Tree>)
    ensures PortsFiltered(PortsFiltered(ps)) == PortsFiltered(ps)
  {
    forall i | 0 <= i < |ps| ensures PortFiltered(PortFiltered(ps[i])) == PortFiltered(ps[i]) {
      if ps[i].Map? { assert PortFiltered(PortFiltered(ps[i])).fields == PortFiltered(ps[i]).fields; }
    }
  }

  lemma SpecDefaultedTwice(kind: Tree, spec: Body)
    ensures SpecDefaulted(kind, SpecDefaulted(kind, spec)) == SpecDefaulted(kind, spec)
  {
    var once := SpecDefaulted(kind, spec);
    if kind == Str("Service") && "ports" in spec && spec["ports"].List? {
      PortsTwice(spec["ports"].items);
    }
    assert once.Keys !! DefaultKeys(kind, once);
    assert once - DefaultKeys(kind, once) == once;
  }

  lemma ContainersTwice(cs: seq<Tree>)
    ensures ContainersFiltered(ContainersFiltered(cs)) == ContainersFiltered(cs)
  {
    forall i | 0 <= i < |cs| ensures ContainerFiltered(ContainerFiltered(cs[i])) == ContainerFiltered(cs[i]) {
      if cs[i].Map? { assert ContainerFiltered(ContainerFiltered(cs[i])).fields == ContainerFiltered(cs[i]).fields; }
    }
  }

  lemma ListTwice(pod: Body, k: string)
    ensures ListFiltered(ListFiltered(pod, k), k) == ListFiltered(pod, k)
  {
    if k in pod && pod[k].List? { ContainersTwice(pod[k].items); }
  }

  lemma ListsCommute(pod: Body, k: string, l: string)
    requires k != l && ListFiltered(pod, k) == pod
    ensures ListFiltered(ListFiltered(pod, l), k) == ListFiltered(pod, l)
  {
    var p := ListFiltered(pod, l);
    if k in pod && pod[k].List? {
      assert pod[k] == List(ContainersFiltered(pod[k].items));
      assert p[k := p[k]] == p;
    }
  }

  lemma PodTwice(pod: Body)
    ensures PodFiltered(PodFiltered(pod)) == PodFiltered(pod)
  {
    hide ListFiltered;
    var p1 := ListFiltered(pod, "containers");
    var p2 := ListFiltered(p1, "initContainers");
    var p3 := ListFiltered(p2, "ephemeralContainers");
    ListTwice(pod, "containers");
    ListTwice(p1, "initContainers");
    ListTwice(p2, "ephemeralContainers");
    ListsCommute(p1, "containers", "initContainers");
    ListsCommute(p2, "containers", "ephemeralContainers");
    ListsCommute(p2, "initContainers", "ephemeralContainers");
  }

  lemma TemplateTwice(owner: Body)
    requires HasPod(owner)
    ensures HasPod(TemplateFiltered(owner)) && TemplateFiltered(TemplateFiltered(owner)) == TemplateFiltered(owner)
  {
    var template := owner["template"].fields;
    var pod := PodFiltered(template["spec"].fields);
    PodTwice(template["spec"].fields);
    var once := TemplateFiltered(owner);
    assert once["template"].fields == template["spec" := Map(pod)];
    Rewritten(template, "spec", Map(pod), Map(pod));
    Rewritten(owner, "template", once["template"], once["template"]);
  }

  lemma Rewritten(m: Body, k: string, v: Tree, w: Tree)
    ensures m[k := v][k := w] == m[k := w]
  {
  }

  /** Only values of container lists change, never which keys there are or what is a map. */
  lemma PodKeepsShape(pod: Body)
    ensures PodFiltered(pod).Keys == pod.Keys
    ensures forall k :: k in pod && !pod[k].List? ==> PodFiltered(pod)[k] == pod[k]
    ensures forall k :: k in pod && PodFiltered(pod)[k].Map? ==> pod[k].Map?
    ensures forall k :: k in pod && k !in {"containers", "initContainers", "ephemeralContainers"} ==>
        PodFiltered(pod)[k] == pod[k]
  {
  }

  lemma JobTwice(spec: Body)
    requires !HasPod(spec) && HasJob(spec)
    ensures SpecContainersFiltered(SpecContainersFiltered(spec)) == SpecContainersFiltered(spec)
  {
    hide PodFiltered;
    var job := spec["jobTemplate"].fields;
    var inner := TemplateFiltered(job["spec"].fields);
    TemplateTwice(job["spec"].fields);
    var once := SpecContainersFiltered(spec);
    assert !HasPod(once) && once["jobTemplate"].fields == job["spec" := Map(inner)];
    Rewritten(job, "spec", Map(inner), Map(inner));
    Rewritten(spec, "jobTemplate", once["jobTemplate"], once["jobTemplate"]);
  }

  lemma SpecContainersTwice(spec: Body)
    ensures SpecContainersFiltered(SpecContainersFiltered(spec)) == SpecContainersFiltered(spec)
  {
    if HasPod(spec) {
      TemplateTwice(spec);
    } else if HasJob(spec) {
      JobTwice(spec);
    } else {
      PodTwice(spec);
      PodKeepsShape(spec);
    }
  }

  lemma ContainersKeepOthers(spec: Body)
    ensures SpecContainersFiltered(spec).Keys == spec.Keys
    ensures forall k :: k in spec && k !in {"template", "jobTemplate", "containers", "initContainers",
        "ephemeralContainers"} ==>
              SpecContainersFiltered(spec)[k] == spec[k]
  {
    hide PodFiltered;
    PodKeepsShape(spec);
  }

  lemma DefaultsAreLocal(kind: Tree, spec: Body, s: Body)
    requires SpecDefaulted(kind, spec) == spec && s.Keys == spec.Keys
    requires forall k :: k in {"internalTrafficPolicy", "sessionAffinity", "ports"} && k in spec ==> s[k] == spec[k]
    ensures SpecDefaulted(kind, s) == s
  {
    var drop := DefaultKeys(kind, spec);
    assert DefaultKeys(kind, s) == drop;
    assert spec.Keys !! drop by {
      assert spec.Keys == (spec - drop).Keys;
    }
    assert s - drop == s && spec - drop == spec;
    if kind == Str("Service") && "ports" in s && s["ports"].List? {
      assert spec["ports"] == List(PortsFiltered(spec["ports"].items));
      assert s["ports" := s["ports"]] == s;
    }
  }

  lemma DefaultsSurviveContainers(kind: Tree, spec: Body)
    requires SpecDefaulted(kind, spec) == spec
    ensures SpecDefaulted(kind, SpecContainersFiltered(spec)) == SpecContainersFiltered(spec)
  {
    hide SpecContainersFiltered, SpecDefaulted;
    ContainersKeepOthers(spec);
    DefaultsAreLocal(kind, spec, SpecContainersFiltered(spec));
  }

  lemma RedactedTwice(o: Body, k: string)
    ensures DataRedacted(DataRedacted(o, k), k) == DataRedacted(o, k)
  {
    if HasMap(o, k) {
      assert Redacted(Redacted(o[k].fields)) == Redacted(o[k].fields);
      Rewritten(o, k, Map(Redacted(o[k].fields)), Map(Redacted(o[k].fields)));
    }
  }

  /** Filters the fields of spec leave everything else alone. */
  ghost predicate SameBut(o: Body, p: Body, keys: set<string>) {
    o.Keys == p.Keys && forall k :: k in o && k !in keys ==> o[k] == p[k]
  }

  function SpecFiltered(kind: Tree, spec: Body, f: Filters): Body {
    var s := if f.defaultedFields then spec else SpecDefaulted(kind, spec);
    if f.imagePullPolicy then s else SpecContainersFiltered(s)
  }

  lemma SpecFilteredTwice(kind: Tree, spec: Body, f: Filters)
    ensures SpecFiltered(kind, SpecFiltered(kind, spec, f), f) == SpecFiltered(kind, spec, f)
  {
    hide SpecDefaulted, SpecContainersFiltered;
    SpecDefaultedTwice(kind, spec);
    var s := if f.defaultedFields then spec else SpecDefaulted(kind, spec);
    SpecContainersTwice(s);
    if !f.defaultedFields && !f.imagePullPolicy { DefaultsSurviveContainers(kind, s); }
  }

  function Shown(o: Body, f: Filters): Body {
    MetaFiltered(if f.status then o else o - {"status"}, f)
  }

  function WithSpec(o: Body, f: Filters): Body {
    if HasMap(o, "spec") then o["spec" := Map(SpecFiltered(Kind(o), o["spec"].fields, f))] else o
  }

  lemma SpecParts(o: Body, f: Filters)
    ensures var o3 := if f.defaultedFields then o else DefaultsFiltered(o);
            (if f.imagePullPolicy then o3 else PullPolicyFiltered(o3)) == WithSpec(o, f)
  {
    hide SpecDefaulted, SpecContainersFiltered;
    if HasMap(o, "spec") {
      var spec := o["spec"].fields;
      var s := SpecDefaulted(Kind(o), spec);
      Rewritten(o, "spec", Map(s), Map(SpecContainersFiltered(s)));
      assert o["spec" := o["spec"]] == o;
    }
  }

  /** The filters as three independent parts: what is dropped, spec, and secret data. */
  lemma FilteredParts(o: Body, f: Filters)
    ensures Filtered(o, f) == if f.secretRotation
        then WithSpec(Shown(o, f), f) else SecretFiltered(WithSpec(Shown(o, f), f))
  {
    hide DefaultsFiltered, PullPolicyFiltered, MetaFiltered, WithSpec, SecretFiltered;
    SpecParts(Shown(o, f), f);
  }

  lemma ShownTwice(o: Body, f: Filters)
    ensures Shown(Shown(o, f), f) == Shown(o, f)
  {
    var once := Shown(o, f);
    assert !f.status ==> once - {"status"} == once;
    if HasMap(once, "metadata") {
      var meta := once["metadata"].fields;
      assert meta - HiddenMeta(f) == meta;
      assert once["metadata" := Map(meta)] == once;
    }
  }

  /** Shown depends on status and metadata alone. */
  lemma ShownIsLocal(o: Body, p: Body, f: Filters)
    requires Shown(o, f) == o && SameBut(o, p, {"spec", "data", "stringData"})
    ensures Shown(p, f) == p
  {
    hide HiddenMeta;
    assert !f.status ==> "status" !in o && p - {"status"} == p;
    if HasMap(p, "metadata") {
      var meta := p["metadata"].fields;
      assert o["metadata"] == p["metadata"];
      assert !f.status ==> o - {"status"} == o;
      assert meta - HiddenMeta(f) == meta;
      assert p["metadata" := Map(meta)] == p;
    }
  }

  /** Main result: a filtered resource has no noise left to filter. */
  lemma FilteredTwice(o: Body, f: Filters)
    ensures Filtered(Filtered(o, f), f) == Filtered(o, f)
  {
    hide Shown, SpecFiltered, Filtered;
    var o2 := Shown(o, f);
    var o4 := WithSpec(o2, f);
    var o5 := if f.secretRotation then o4 else SecretFiltered(o4);
    FilteredParts(o, f);
    FilteredParts(o5, f);
    ShownTwice(o, f);
    assert SameBut(o2, o5, {"spec", "data", "stringData"});
    ShownIsLocal(o2, o5, f);
    if HasMap(o5, "spec") {
      SpecFilteredTwice(Kind(o2), o2["spec"].fields, f);
      assert o5["spec" := o5["spec"]] == o5;
    }
    if !f.secretRotation { SecretTwice(o4); }
  }

  lemma SecretTwice(o: Body)
    ensures SecretFiltered(SecretFiltered(o)) == SecretFiltered(o)
  {
    RedactedTwice(o, "data");
    var p := DataRedacted(o, "data");
    RedactedTwice(p, "stringData");
    var q := DataRedacted(p, "stringData");
    if HasMap(q, "data") { assert q["data" := q["data"]] == q; }
  }

  /** Fields the filters do not know about are always compared. */
  lemma OtherFieldsShow(o: Body, f: Filters, k: string)
    requires k !in {"status", "metadata", "spec", "data", "stringData"}
    ensures k in Filtered(o, f) <==> k in o
    ensures k in o ==> Filtered(o, f)[k] == o[k]
  {
    hide SpecFiltered, HiddenMeta, Filtered, Redacted;
    FilteredParts(o, f);
  }

  /** Redaction hides what a secret holds, never that an entry came or went. */
  lemma SecretEntriesCompare(o: Body, p: Body)
    requires Kind(o) == Str("Secret") && SameBut(o, p, {"data"}) && HasMap(o, "data") && HasMap(p, "data")
    ensures SecretFiltered(o) == SecretFiltered(p) <==> o["data"].fields.Keys == p["data"].fields.Keys
  {
    var a, b := o["data"].fields, p["data"].fields;
    if a.Keys == b.Keys {
      assert Redacted(a) == Redacted(b);
      assert DataRedacted(o, "data") == DataRedacted(p, "data");
    } else {
      assert Redacted(a).Keys == a.Keys && Redacted(b).Keys == b.Keys;
      assert SecretFiltered(o)["data"] == Map(Redacted(a)) && SecretFiltered(p)["data"] == Map(Redacted(b));
    }
  }

  // ----- the filters as coded -----

  method StripDefaults(o: Body) returns (out: Body)
    ensures out == DefaultsFiltered(o)
  {
    if !HasMap(o, "spec") {
      return o;
    }
    var spec := o["spec"].fields;
    if Kind(o) == Str("Service") {
      spec := spec - {"clusterIP", "clusterIPs", "ipFamilies", "ipFamilyPolicy"};
      if "internalTrafficPolicy" in spec && spec["internalTrafficPolicy"] == Str("Cluster") {
        spec := spec - {"internalTrafficPolicy"};
      }
      if "sessionAffinity" in spec && spec["sessionAffinity"] == Str("None") {
        spec := spec - {"sessionAffinity"};
      }
      assert spec == o["spec"].fields - DefaultKeys(Kind(o), o["spec"].fields);
      if "ports" in spec && spec["ports"].List? {
        var ports := StripPorts(spec["ports"].items);
        spec := spec["ports" := List(ports)];
      }
    } else if Kind(o) in {Str("Deployment"), Str("StatefulSet"), Str("DaemonSet"), Str("ReplicaSet")} {
      spec := spec - {"revisionHistoryLimit"};
      spec := spec - {"progressDeadlineSeconds"};
      assert spec == o["spec"].fields - DefaultKeys(Kind(o), o["spec"].fields);
    } else {
      assert spec - {} == spec;
    }
    out := o["spec" := Map(spec)];
  }

  method StripPorts(ports: seq<Tree>) returns (out: seq<Tree>)
    ensures out == PortsFiltered(ports)
  {
    out := ports;
    for i := 0 to |ports|
      invariant |out| == |ports|
      invariant forall j :: 0 <= j < i ==> out[j] == PortFiltered(ports[j])
      invariant forall j :: i <= j < |ports| ==> out[j] == ports[j]
    {
      if ports[i].Map? {
        var port := ports[i].fields;
        if "protocol" in port && port["protocol"] == Str("TCP") {
          port := port - {"protocol"};
        }
        port := port - {"nodePort"};
        assert Map(port) == PortFiltered(ports[i]);
        out := out[i := Map(port)];
      }
    }
  }

  method StripContainers(pod: Body) returns (out: Body)
    ensures out == PodFiltered(pod)
  {
    out := pod;
    var names := ["containers", "initContainers", "ephemeralContainers"];
    for n := 0 to 3
      invariant n == 0 ==> out == pod
      invariant n == 1 ==> out == ListFiltered(pod, names[0])
      invariant n == 2 ==> out == ListFiltered(ListFiltered(pod, names[0]), names[1])
      invariant n == 3 ==> out == PodFiltered(pod)
    {
      if names[n] in out && out[names[n]].List? {
        var list := StripEach(out[names[n]].items);
        out := out[names[n] := List(list)];
      }
    }
  }

  method StripEach(list: seq<Tree>) returns (out: seq<Tree>)
    ensures out == ContainersFiltered(list)
  {
    out := list;
    for i := 0 to |list|
      invariant |out| == |list|
      invariant forall j :: 0 <= j < i ==> out[j] == ContainerFiltered(list[j])
      invariant forall j :: i <= j < |list| ==> out[j] == list[j]
    {
      if list[i].Map? {
        var c := list[i].fields - {"imagePullPolicy"};
        c := c - {"terminationMessagePath"};
        c := c - {"terminationMessagePolicy"};
        assert Map(c) == ContainerFiltered(list[i]);
        out := out[i := Map(c)];
      }
    }
  }

  method StripImagePullPolicy(o: Body) returns (out: Body)
    ensures out == PullPolicyFiltered(o)
  {
    if !HasMap(o, "spec") {
      return o;
    }
    var spec := o["spec"].fields;
    if HasPod(spec) {
      var template := spec["template"].fields;
      var pod := StripContainers(template["spec"].fields);
      return o["spec" := Map(spec["template" := Map(template["spec" := Map(pod)])])];
    }
    if HasJob(spec) {
      var job := spec["jobTemplate"].fields;
      var template := job["spec"].fields["template"].fields;
      var pod := StripContainers(template["spec"].fields);
      var jobSpec := job["spec"].fields["template" := Map(template["spec" := Map(pod)])];
      return o["spec" := Map(spec["jobTemplate" := Map(job["spec" := Map(jobSpec)])])];
    }
    var pod := StripContainers(spec);
    out := o["spec" := Map(pod)];
  }

  method RedactData(o: Body, k: string) returns (out: Body)
    ensures out == DataRedacted(o, k)
  {
    if !HasMap(o, k) {
      return o;
    }
    var data := o[k].fields;
    var left := data.Keys;
    while left != {}
      invariant left <= data.Keys == o[k].fields.Keys
      invariant forall x :: x in data.Keys - left ==> data[x] == REDACTED
      decreases |left|
    {
      var x :| x in left;
      data := data[x := REDACTED];
      left := left - {x};
    }
    assert data == Redacted(o[k].fields);
    out := o[k := Map(data)];
  }

  method StripMeta(o: Body, f: Filters) returns (out: Body)
    ensures out == MetaFiltered(o, f)
  {
    hide HiddenMeta;
    out := o;
    if HasMap(o, "metadata") {
      var meta := o["metadata"].fields - HiddenMeta(f);
      if |meta| == 0 {
        out := o - {"metadata"};
      } else {
        out := o["metadata" := Map(meta)];
      }
    }
  }

  method RedactSecret(o: Body) returns (out: Body)
    ensures out == SecretFiltered(o)
  {
    hide DataRedacted;
    out := o;
    if Kind(o) == Str("Secret") {
      out := RedactData(out, "data");
      out := RedactData(out, "stringData");
    }
  }

  method FilterNoise(o: Body, f: Filters) returns (out: Body)
    ensures out == Filtered(o, f)
  {
    hide DefaultsFiltered, PullPolicyFiltered, SecretFiltered, MetaFiltered;
    out := o;
    if !f.status {
      out := out - {"status"};
    }
    out := StripMeta(out, f);
    if !f.defaultedFields {
      out := StripDefaults(out);
    }
    if !f.imagePullPolicy {
      out := StripImagePullPolicy(out);
    }
    if !f.secretRotation {
      out := RedactSecret(out);
    }
  }

  // ----- comparing manifests -----

  type Resources = map<string, Body>

  datatype ResourceChange =
    | Added(key: string, body: Body)
    | Removed(key: string, body: Body)
    | Modified(key: string, fields: seq<FieldDiff.Change>)

  /** What is reported about one key, if anything. */
  ghost function ChangesAt(before: Resources, after: Resources, f: Filters, k: string): seq<ResourceChange> {
    if k !in before && k !in after then []
    else if k !in before then [Added(k, Filtered(after[k], f))]
    else if k !in after then [Removed(k, Filtered(before[k], f))]
    else
      var fields := FieldDiff.Diff(Map(Filtered(before[k], f)), Map(Filtered(after[k], f)));
      if fields == [] then [] else [Modified(k, fields)]
  }

  ghost function ChangesFor(before: Resources, after: Resources, f: Filters, ks: seq<string>): seq<ResourceChange> {
    if ks == [] then [] else ChangesFor(before, after, f, ks[..|ks| - 1]) + ChangesAt(before, after, f, ks[|ks| - 1])
  }

  lemma PlainPrefix(cs: seq<FieldDiff.Change>)
    ensures FieldDiff.Prefixed([], cs) == cs
  {
    forall i | 0 <= i < |cs| ensures [] + cs[i].path == cs[i].path {}
  }

  method Compute(before: Resources, after: Resources, f: Filters) returns (out: seq<ResourceChange>)
    ensures out == ChangesFor(before, after, f, SortedKeys(before.Keys + after.Keys))
  {
    hide SortedKeys, Filtered;
    var keys := ListKeys(before.Keys + after.Keys);
    out := [];
    for i := 0 to |keys|
      invariant out == ChangesFor(before, after, f, keys[..i])
    {
      var k := keys[i];
      assert keys[..i + 1][..i] == keys[..i];
      assert k in Elements(keys);
      if k !in before {
        var body := FilterNoise(after[k], f);
        out := out + [Added(k, body)];
      } else if k !in after {
        var body := FilterNoise(before[k], f);
        out := out + [Removed(k, body)];
      } else {
        var b := FilterNoise(before[k], f);
        var a := FilterNoise(after[k], f);
        var fields := FieldDiff.ComputeFieldChanges([], Map(b), Map(a));
        PlainPrefix(FieldDiff.Diff(Map(b), Map(a)));
        if |fields| > 0 {
          out := out + [Modified(k, fields)];
        }
      }
    }
    assert keys[..|keys|] == keys;
  }

  lemma {:induction false} SilentOn(before: Resources, after: Resources, f: Filters, ks: seq<string>)
    ensures ChangesFor(before, after, f, ks) == [] <==> forall k :: k in ks ==> ChangesAt(before, after, f, k) == []
  {
    if ks != [] {
      SilentOn(before, after, f, ks[..|ks| - 1]);
      assert ks == ks[..|ks| - 1] + [ks[|ks| - 1]];
    }
  }

  lemma {:induction false} ReportedFrom(before: Resources, after: Resources, f: Filters, ks: seq<string>,
      c: ResourceChange)
    ensures c in ChangesFor(before, after, f, ks) <==> exists k :: k in ks && c in ChangesAt(before, after, f, k)
  {
    hide ChangesAt;
    if ks != [] {
      ReportedFrom(before, after, f, ks[..|ks| - 1], c);
      assert ks == ks[..|ks| - 1] + [ks[|ks| - 1]];
    }
  }

  ghost predicate Describes(before: Resources, after: Resources, f: Filters, c: ResourceChange) {
    match c
    case Added(k, body) => k in after && k !in before && body == Filtered(after[k], f)
    case Removed(k, body) => k in before && k !in after && body == Filtered(before[k], f)
    case Modified(k, fields) =>
      k in before && k in after && Filtered(before[k], f) != Filtered(after[k], f)
      && fields == FieldDiff.Diff(Map(Filtered(before[k], f)), Map(Filtered(after[k], f)))
  }

  /** Main result: additions, removals and modifications are reported for
      exactly the keys they concern, with the filtered bodies or their differences. */
  lemma ReportedExactly(before: Resources, after: Resources, f: Filters, c: ResourceChange)
    ensures c in ChangesFor(before, after, f, SortedKeys(before.Keys + after.Keys)) <==> Describes(before, after, f, c)
  {
    hide ChangesAt, Describes, SortedKeys, ChangesFor;
    var ks := SortedKeys(before.Keys + after.Keys);
    KeysListed(before.Keys + after.Keys);
    ReportedFrom(before, after, f, ks, c);
    forall k ensures c in ChangesAt(before, after, f, k) <==> k == c.key && Describes(before, after, f, c) {
      ReportedAt(before, after, f, k, c);
    }
    DescribesSome(before, after, f, c);
  }

  lemma ReportedAt(before: Resources, after: Resources, f: Filters, k: string, c: ResourceChange)
    ensures c in ChangesAt(before, after, f, k) <==> k == c.key && Describes(before, after, f, c)
  {
    hide Filtered, FieldDiff.Diff;
    if k in before && k in after {
      FieldDiff.SilentIffEqual(Map(Filtered(before[k], f)), Map(Filtered(after[k], f)));
    }
  }

  lemma DescribesSome(before: Resources, after: Resources, f: Filters, c: ResourceChange)
    ensures Describes(before, after, f, c) ==> c.key in before.Keys + after.Keys
  {
    hide Filtered, FieldDiff.Diff;
  }

  /** Main result: nothing is reported exactly when both sides have the same
      resources and each agrees once filtered. */
  lemma ComputeSilentIff(before: Resources, after: Resources, f: Filters)
    ensures ChangesFor(before, after, f, SortedKeys(before.Keys + after.Keys)) == [] <==>
            before.Keys == after.Keys && forall k :: k in before ==> Filtered(before[k], f) == Filtered(after[k], f)
  {
    hide Filtered;
    KeysListed(before.Keys + after.Keys);
    SilentOn(before, after, f, SortedKeys(before.Keys + after.Keys));
    forall k | k in before && k in after
      ensures ChangesAt(before, after, f, k) == [] <==> Filtered(before[k], f) == Filtered(after[k], f)
    {
      FieldDiff.SilentIffEqual(Map(Filtered(before[k], f)), Map(Filtered(after[k], f)));
    }
    forall k | k in before.Keys + after.Keys && !(k in before && k in after)
        ensures ChangesAt(before, after, f, k) != [] {}
    if before.Keys == after.Keys {
      assert forall k :: k in SortedKeys(before.Keys + after.Keys) <==> k in before;
    } else {
      var k :| k in before.Keys + after.Keys && !(k in before && k in after);
      assert k in SortedKeys(before.Keys + after.Keys);
    }
  }

  /** Filtering a manifest beforehand is never reported as a change. */
  lemma FilteringIsNoChange(before: Resources, f: Filters)
    ensures var after := map k | k in before :: Filtered(before[k], f);
            ChangesFor(before, after, f, SortedKeys(before.Keys + after.Keys)) == []
  {
    hide Filtered;
    var after := map k | k in before :: Filtered(before[k], f);
    forall k | k in before ensures Filtered(before[k], f) == Filtered(after[k], f) {
      FilteredTwice(before[k], f);
    }
    ComputeSilentIff(before, after, f);
  }
}
