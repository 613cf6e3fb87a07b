/** Which paths of a resource the filters hide, and that every other path shows. */
module NoisePaths {
  import opened Basics
  import opened Trees
  import opened FieldDiff
  import opened SmartDiff

  /** What is found at a path: a container, of which only the kind and the length matter, or a value. */
  datatype Node = Nothing | AMap | AList(size: nat) | Leaf(v: Tree)

  function At(t: Tree, p: Path): Node
    decreases |p|
  {
    if p == [] then
      match t
      case Map(_) => AMap
      case List(items) => AList(|items|)
      case _ => Leaf(t)
    else if t.Map? && p[0].Key? && p[0].name in t.fields then At(t.fields[p[0].name], p[1..])
    else if t.List? && p[0].Index? && p[0].at < |t.items| then At(t.items[p[0].at], p[1..])
    else Nothing
  }

  /** The path goes through the keys, one after the other, from position i on. */
  predicate Through(p: Path, i: nat, keys: seq<string>) {
    i + |keys| <= |p| && forall j :: 0 <= j < |keys| ==> p[i + j] == Key(keys[j])
  }

  predicate KeyAt(p: Path, i: nat, keys: set<string>) {
    i < |p| && p[i].Key? && p[i].name in keys
  }

  // ----- the hidden paths -----

  predicate IsKind(o: Tree, kind: string) {
    At(o, [Key("kind")]) == Leaf(Str(kind))
  }

  function MetaKeys(f: Filters): set<string> {
    (if f.managedFields then {} else {"managedFields"})
    + (if f.generation then {} else {"generation", "resourceVersion", "uid", "creationTimestamp", "selfLink"})
    + (if f.annotations then {} else {"annotations"})
    + (if f.labels then {} else {"labels"})
    + (if f.finalizers then {} else {"finalizers"})
    + (if f.ownerRefs then {} else {"ownerReferences"})
  }

  /** Hidden keys of metadata, and metadata itself when nothing else is in it. */
  ghost predicate MetaHides(o: Tree, f: Filters, p: Path) {
    && Through(p, 0, ["metadata"])
    && (KeyAt(p, 1, MetaKeys(f))
        || (|p| == 1 && At(o, p) == AMap && forall k :: At(o, [Key("metadata"), Key(k)]) != Nothing ==>
            k in MetaKeys(f)))
  }

  /** What a cluster fills in by itself: some fields always, others only at their default. */
  ghost predicate DefaultsHide(o: Tree, p: Path) {
    && Through(p, 0, ["spec"])
    && (IsKind(o, "Service") ==>
          || KeyAt(p, 1, {"clusterIP", "clusterIPs", "ipFamilies", "ipFamilyPolicy"})
          || (KeyAt(p, 1, {"internalTrafficPolicy"}) && At(o, p[..2]) == Leaf(Str("Cluster")))
          || (KeyAt(p, 1, {"sessionAffinity"}) && At(o, p[..2]) == Leaf(Str("None")))
          || (KeyAt(p, 1, {"ports"}) && |p| >= 4 && p[2].Index?
              && (KeyAt(p, 3, {"nodePort"}) || (KeyAt(p, 3, {"protocol"}) && At(o, p[..4]) == Leaf(Str("TCP"))))))
    && (!IsKind(o, "Service") ==>
          && (IsKind(o, "Deployment") || IsKind(o, "StatefulSet") || IsKind(o, "DaemonSet") || IsKind(o, "ReplicaSet"))
          && KeyAt(p, 1, {"revisionHistoryLimit", "progressDeadlineSeconds"}))
  }

  const WORKLOAD := ["spec", "template", "spec"]
  const CRON_JOB := ["spec", "jobTemplate", "spec", "template", "spec"]

  function Keys(names: seq<string>): Path {
    seq(|names|, i requires 0 <= i < |names| => Key(names[i]))
  }

  /** Where the pod spec is: in a workload, else in a cron job, else the resource is a pod. */
  function PodKeys(o: Tree): seq<string> {
    if At(o, Keys(WORKLOAD)) == AMap then WORKLOAD
    else if At(o, Keys(CRON_JOB)) == AMap then CRON_JOB
    else ["spec"]
  }

  /** Three fields of every container, from position i on. */
  predicate ContainerHides(p: Path, i: nat) {
    && KeyAt(p, i, {"containers", "initContainers", "ephemeralContainers"})
    && i + 1 < |p| && p[i + 1].Index?
    && KeyAt(p, i + 2, {"imagePullPolicy", "terminationMessagePath", "terminationMessagePolicy"})
  }

  predicate PoliciesHide(o: Tree, p: Path) {
    Through(p, 0, PodKeys(o)) && ContainerHides(p, |PodKeys(o)|)
  }

  predicate IsSecretEntry(o: Tree, p: Path) {
    IsKind(o, "Secret") && KeyAt(p, 0, {"data", "stringData"}) && |p| >= 2 && p[1].Key?
  }

  ghost predicate Hidden(o: Tree, f: Filters, p: Path) {
    || (!f.status && KeyAt(p, 0, {"status"}))
    || MetaHides(o, f, p)
    || (!f.defaultedFields && DefaultsHide(o, p))
    || (!f.imagePullPolicy && PoliciesHide(o, p))
    || (!f.secretRotation && IsSecretEntry(o, p) && |p| > 2)
  }

  // ----- what one deletion or one rewriting does to paths -----

  lemma DropAt(m: Body, dropped: set<string>, p: Path)
    ensures At(Map(m - dropped), p) == if KeyAt(p, 0, dropped) then Nothing else At(Map(m), p)
  {
  }

  lemma PutAt(m: Body, k: string, t: Tree, p: Path)
    requires k in m
    ensures At(Map(m[k := t]), p) == if KeyAt(p, 0, {k}) then At(t, p[1..]) else At(Map(m), p)
  {
  }

  lemma StatusAt(o: Body, p: Path)
    ensures At(Map(o - {"status"}), p) == if KeyAt(p, 0, {"status"}) then Nothing else At(Map(o), p)
  {
    DropAt(o, {"status"}, p);
  }

  lemma EntryAt(o: Body, k: string, l: string)
    ensures At(Map(o), [Key(k)]) == if k in o then At(o[k], []) else Nothing
    ensures At(Map(o), [Key(k), Key(l)]) != Nothing <==> HasMap(o, k) && l in o[k].fields
  {
    assert [Key(k)][1..] == [] && [Key(k), Key(l)][1..] == [Key(l)] && [Key(l)][1..] == [];
    if k in o && o[k].Map? && l in o[k].fields { assert At(o[k].fields[l], []) != Nothing; }
  }

  lemma SameMeta(f: Filters)
    ensures MetaKeys(f) == HiddenMeta(f)
  {
  }

  lemma FirstKey(p: Path, k: string)
    ensures Through(p, 0, [k]) <==> KeyAt(p, 0, {k})
  {
    assert [k][0] == k;
  }

  lemma MetaAt(o: Body, f: Filters, p: Path)
    ensures At(Map(MetaFiltered(o, f)), p) == if MetaHides(Map(o), f, p) then Nothing else At(Map(o), p)
  {
    hide HiddenMeta, MetaKeys;
    SameMeta(f);
    FirstKey(p, "metadata");
    if !HasMap(o, "metadata") {
      if KeyAt(p, 0, {"metadata"}) && "metadata" in o {
        assert At(Map(o), p) == At(o["metadata"], p[1..]);
      }
    } else {
      var fields := o["metadata"].fields;
      var meta := fields - HiddenMeta(f);
      PutAt(o, "metadata", Map(meta), p);
      DropAt(o, {"metadata"}, p);
      if KeyAt(p, 0, {"metadata"}) {
        DropAt(fields, HiddenMeta(f), p[1..]);
        assert At(Map(o), p) == At(Map(fields), p[1..]);
        if |p| == 1 {
          forall k { EntryAt(o, "metadata", k); }
          if meta == map[] {
            forall k | k in fields ensures k in HiddenMeta(f) { assert k !in meta; }
          } else {
            var k :| k in meta;
          }
        } else {
          assert p[1..][0] == p[1];
        }
      }
    }
  }

  // ----- defaults -----

  lemma KindIs(o: Body, kind: string)
    ensures IsKind(Map(o), kind) <==> Kind(o) == Str(kind)
  {
    EntryAt(o, "kind", "");
  }

  lemma PortAt(port: Tree, q: Path)
    ensures At(PortFiltered(port), q) ==
      if KeyAt(q, 0, {"nodePort"}) || (KeyAt(q, 0, {"protocol"}) && At(port, q[..1]) == Leaf(Str("TCP"))) then Nothing
      else At(port, q)
  {
    if port.Map? {
      var tcp := "protocol" in port.fields && port.fields["protocol"] == Str("TCP");
      DropAt(port.fields, (if tcp then {"protocol"} else {}) + {"nodePort"}, q);
      if KeyAt(q, 0, {"protocol"}) {
        assert q[..1] == [Key("protocol")];
        EntryAt(port.fields, "protocol", "");
      }
    }
  }

  lemma PortsAt(ports: seq<Tree>, q: Path)
    ensures At(List(PortsFiltered(ports)), q) ==
      if q != [] && q[0].Index? && q[0].at < |ports| then At(PortFiltered(ports[q[0].at]), q[1..])
      else At(List(ports), q)
  {
  }

  /** As DefaultsHide, below the spec. */
  ghost predicate SpecHides(kind: Tree, spec: Tree, q: Path) {
    if kind == Str("Service") then
      || KeyAt(q, 0, {"clusterIP", "clusterIPs", "ipFamilies", "ipFamilyPolicy"})
      || (KeyAt(q, 0, {"internalTrafficPolicy"}) && At(spec, q[..1]) == Leaf(Str("Cluster")))
      || (KeyAt(q, 0, {"sessionAffinity"}) && At(spec, q[..1]) == Leaf(Str("None")))
      || (KeyAt(q, 0, {"ports"}) && |q| >= 3 && q[1].Index?
          && (KeyAt(q, 2, {"nodePort"}) || (KeyAt(q, 2, {"protocol"}) && At(spec, q[..3]) == Leaf(Str("TCP")))))
    else
      && kind in {Str("Deployment"), Str("StatefulSet"), Str("DaemonSet"), Str("ReplicaSet")}
      && KeyAt(q, 0, {"revisionHistoryLimit", "progressDeadlineSeconds"})
  }

  lemma KeysDropped(kind: Tree, spec: Body, q: Path)
    requires !KeyAt(q, 0, {"ports"})
    ensures KeyAt(q, 0, DefaultKeys(kind, spec)) <==> SpecHides(kind, Map(spec), q)
  {
    if q != [] && q[0].Key? {
      assert q[..1] == [Key(q[0].name)];
      EntryAt(spec, q[0].name, "");
    }
  }

  lemma PortHidden(spec: Body, q: Path)
    requires KeyAt(q, 0, {"ports"}) && |q| >= 2 && q[1].Index? && "ports" in spec && spec["ports"].List?
    requires q[1].at < |spec["ports"].items|
    ensures At(PortFiltered(spec["ports"].items[q[1].at]), q[2..]) ==
            if SpecHides(Str("Service"), Map(spec), q) then Nothing else At(spec["ports"].items[q[1].at], q[2..])
  {
    var port := spec["ports"].items[q[1].at];
    PortAt(port, q[2..]);
    if |q| >= 3 {
      assert q[2..][..1] == q[..3][2..] && q[..3][1..][1..] == q[..3][2..];
      assert q[..3][1..][0] == q[1];
      assert At(Map(spec), q[..3]) == At(spec["ports"], q[..3][1..]) == At(port, q[..3][2..]);
    }
  }

  lemma SpecAt(kind: Tree, spec: Body, q: Path)
    ensures At(Map(SpecDefaulted(kind, spec)), q) ==
            if SpecHides(kind, Map(spec), q) then Nothing else At(Map(spec), q)
  {
    hide DefaultKeys, SpecHides, PortFiltered, PortsFiltered;
    var rest := spec - DefaultKeys(kind, spec);
    DropAt(spec, DefaultKeys(kind, spec), q);
    NoPortsDropped(kind, spec);
    if !KeyAt(q, 0, {"ports"}) {
      KeysDropped(kind, spec, q);
      if "ports" in rest && rest["ports"].List? {
        PutAt(rest, "ports", List(PortsFiltered(rest["ports"].items)), q);
      }
    } else {
      PortsOfService(kind, spec, rest, q);
    }
  }

  lemma NoPortsDropped(kind: Tree, spec: Body)
    ensures "ports" !in DefaultKeys(kind, spec)
  {
  }

  lemma PortsOfService(kind: Tree, spec: Body, rest: Body, q: Path)
    requires KeyAt(q, 0, {"ports"}) && ("ports" in rest <==> "ports" in spec)
    requires "ports" in rest ==> rest["ports"] == spec["ports"]
    ensures At(Map(if kind == Str("Service") && "ports" in rest && rest["ports"].List?
                   then rest["ports" := List(PortsFiltered(rest["ports"].items))] else rest), q) ==
            if SpecHides(kind, Map(spec), q) then Nothing else At(Map(spec), q)
  {
    hide SpecHides, PortFiltered, PortsFiltered;
    if kind == Str("Service") && "ports" in rest && rest["ports"].List? {
      var ports := spec["ports"].items;
      PutAt(rest, "ports", List(PortsFiltered(ports)), q);
      PortsAt(ports, q[1..]);
      assert At(Map(spec), q) == At(List(ports), q[1..]);
      if |q| >= 2 && q[1].Index? && q[1].at < |ports| {
        assert q[1..][1..] == q[2..] && q[1..][0] == q[1];
        PortHidden(spec, q);
      } else {
        NothingThere(kind, spec, q);
      }
    } else {
      NothingThere(kind, spec, q);
    }
  }

  /** Where there is no port to filter, what is hidden is not there anyway. */
  lemma NothingThere(kind: Tree, spec: Body, q: Path)
    requires KeyAt(q, 0, {"ports"})
    requires kind == Str("Service") && "ports" in spec && spec["ports"].List? ==>
      !(|q| >= 2 && q[1].Index? && q[1].at < |spec["ports"].items|)
    ensures SpecHides(kind, Map(spec), q) ==> At(Map(spec), q) == Nothing
  {
    if |q| >= 2 && "ports" in spec {
      assert At(Map(spec), q) == At(spec["ports"], q[1..]);
      assert q[1..][0] == q[1];
    }
  }

  lemma DefaultsAt(o: Body, p: Path)
    ensures At(Map(DefaultsFiltered(o)), p) == if DefaultsHide(Map(o), p) then Nothing else At(Map(o), p)
  {
    hide SpecDefaulted, SpecHides;
    FirstKey(p, "spec");
    if HasMap(o, "spec") {
      var spec := o["spec"].fields;
      PutAt(o, "spec", Map(SpecDefaulted(Kind(o), spec)), p);
      if KeyAt(p, 0, {"spec"}) {
        SpecAt(Kind(o), spec, p[1..]);
        BelowSpec(o, p);
      }
    } else if KeyAt(p, 0, {"spec"}) && "spec" in o {
      assert At(Map(o), p) == At(o["spec"], p[1..]);
      if |p| >= 2 { assert p[1..][0] == p[1]; }
    }
  }

  lemma BelowSpec(o: Body, p: Path)
    requires HasMap(o, "spec") && KeyAt(p, 0, {"spec"})
    ensures DefaultsHide(Map(o), p) <==> SpecHides(Kind(o), o["spec"], p[1..])
  {
    FirstKey(p, "spec");
    KindIs(o, "Service");
    KindIs(o, "Deployment");
    KindIs(o, "StatefulSet");
    KindIs(o, "DaemonSet");
    KindIs(o, "ReplicaSet");
    forall i: nat | 1 <= i <= |p| ensures At(Map(o), p[..i]) == At(o["spec"], p[1..][..i - 1]) {
      assert p[..i][1..] == p[1..][..i - 1];
    }
  }

  // ----- containers -----

  lemma ContainerAt(c: Tree, q: Path)
    ensures At(ContainerFiltered(c), q) ==
      if KeyAt(q, 0, {"imagePullPolicy", "terminationMessagePath", "terminationMessagePolicy"}) then Nothing
      else At(c, q)
  {
    if c.Map? {
      DropAt(c.fields, {"imagePullPolicy", "terminationMessagePath", "terminationMessagePolicy"}, q);
    }
  }

  lemma ContainersAt(cs: seq<Tree>, q: Path)
    ensures At(List(ContainersFiltered(cs)), q) ==
      if q != [] && q[0].Index? && q[0].at < |cs| then At(ContainerFiltered(cs[q[0].at]), q[1..])
      else At(List(cs), q)
  {
  }

  predicate OneListHides(q: Path, k: string) {
    KeyAt(q, 0, {k}) && ContainerHides(q, 0)
  }

  lemma OneListAt(pod: Body, k: string, q: Path)
    requires k in {"containers", "initContainers", "ephemeralContainers"}
    ensures At(Map(ListFiltered(pod, k)), q) == if OneListHides(q, k) then Nothing else At(Map(pod), q)
  {
    hide ContainersFiltered, ContainerFiltered;
    if KeyAt(q, 0, {k}) && k in pod {
      assert At(Map(pod), q) == At(pod[k], q[1..]);
      if |q| >= 2 { assert q[1..][0] == q[1] && q[1..][1..] == q[2..]; }
      if |q| >= 3 { assert q[2..][0] == q[2]; }
    }
    if k in pod && pod[k].List? {
      var cs := pod[k].items;
      PutAt(pod, k, List(ContainersFiltered(cs)), q);
      if KeyAt(q, 0, {k}) {
        ContainersAt(cs, q[1..]);
        if |q| >= 2 && q[1].Index? && q[1].at < |cs| { ContainerAt(cs[q[1].at], q[2..]); }
      }
    }
  }

  lemma PodAt(pod: Body, q: Path)
    ensures At(Map(PodFiltered(pod)), q) == if ContainerHides(q, 0) then Nothing else At(Map(pod), q)
  {
    hide ListFiltered;
    var p1 := ListFiltered(pod, "containers");
    var p2 := ListFiltered(p1, "initContainers");
    OneListAt(pod, "containers", q);
    OneListAt(p1, "initContainers", q);
    OneListAt(p2, "ephemeralContainers", q);
  }

  /** The keys lead from map to map. */
  predicate Leads(t: Tree, ks: seq<string>) {
    t.Map? && (ks != [] ==> ks[0] in t.fields && Leads(t.fields[ks[0]], ks[1..]))
  }

  function Get(t: Tree, ks: seq<string>): (r: Tree)
    requires Leads(t, ks)
    ensures r.Map?
  {
    if ks == [] then t else Get(t.fields[ks[0]], ks[1..])
  }

  function Put(t: Tree, ks: seq<string>, v: Body): Tree
    requires Leads(t, ks)
  {
    if ks == [] then Map(v) else Map(t.fields[ks[0] := Put(t.fields[ks[0]], ks[1..], v)])
  }

  lemma {:induction false} LeadsIff(t: Tree, ks: seq<string>)
    ensures Leads(t, ks) <==> At(t, Keys(ks)) == AMap
    decreases |ks|
  {
    if ks != [] {
      assert Keys(ks)[1..] == Keys(ks[1..]) && Keys(ks)[0] == Key(ks[0]);
      if t.Map? && ks[0] in t.fields { LeadsIff(t.fields[ks[0]], ks[1..]); }
    }
  }

  lemma {:induction false} PutDeepAt(t: Tree, ks: seq<string>, v: Body, q: Path)
    requires Leads(t, ks)
    ensures At(Put(t, ks, v), q) == if Through(q, 0, ks) then At(Map(v), q[|ks|..]) else At(t, q)
    ensures Through(q, 0, ks) ==> At(t, q) == At(Get(t, ks), q[|ks|..])
    decreases |ks|
  {
    if ks == [] {
      assert q[0..] == q;
    } else {
      PutAt(t.fields, ks[0], Put(t.fields[ks[0]], ks[1..], v), q);
      if KeyAt(q, 0, {ks[0]}) {
        PutDeepAt(t.fields[ks[0]], ks[1..], v, q[1..]);
        ThroughRest(q, ks);
        if Through(q, 0, ks) { assert q[1..][|ks[1..]|..] == q[|ks|..]; }
      }
    }
  }

  lemma ThroughRest(q: Path, ks: seq<string>)
    requires ks != [] && KeyAt(q, 0, {ks[0]})
    ensures Through(q, 0, ks) <==> Through(q[1..], 0, ks[1..])
  {
    if Through(q[1..], 0, ks[1..]) {
      forall j | 0 <= j < |ks| ensures q[j] == Key(ks[j]) {
        if j > 0 { assert q[1..][j - 1] == q[j] && ks[1..][j - 1] == ks[j]; }
      }
    } else if Through(q, 0, ks) {
      forall j | 0 <= j < |ks| - 1 ensures q[1..][j] == Key(ks[1..][j]) {
        assert q[0 + (j + 1)] == Key(ks[j + 1]);
      }
    }
  }

  lemma LeadsOn(t: Tree, k: string, rest: seq<string>)
    ensures Leads(t, [k] + rest) <==> t.Map? && k in t.fields && Leads(t.fields[k], rest)
    ensures Leads(t, [k] + rest) ==> Get(t, [k] + rest) == Get(t.fields[k], rest)
    ensures Leads(t, [k] + rest) ==> forall v ::
      Put(t, [k] + rest, v) == Map(t.fields[k := Put(t.fields[k], rest, v)])
  {
    assert ([k] + rest)[1..] == rest;
  }

  lemma TemplateIsPut(owner: Body)
    ensures HasPod(owner) <==> Leads(Map(owner), ["template", "spec"])
    ensures HasPod(owner) ==>
      Map(TemplateFiltered(owner)) == Put(Map(owner), ["template", "spec"],
                                          PodFiltered(Get(Map(owner), ["template", "spec"]).fields))
  {
    hide PodFiltered;
    assert ["template"] + ["spec"] == ["template", "spec"] && ["spec"] + [] == ["spec"];
    LeadsOn(Map(owner), "template", ["spec"]);
    if "template" in owner { LeadsOn(owner["template"], "spec", []); }
  }

  lemma JobIsPut(spec: Body)
    ensures HasJob(spec) <==> Leads(Map(spec), ["jobTemplate", "spec", "template", "spec"])
    ensures !HasPod(spec) && HasJob(spec) ==>
      Map(SpecContainersFiltered(spec)) == Put(Map(spec), ["jobTemplate", "spec", "template", "spec"],
          PodFiltered(Get(Map(spec), ["jobTemplate", "spec", "template", "spec"]).fields))
  {
    hide PodFiltered, TemplateFiltered, HasPod;
    var inner := ["template", "spec"];
    assert ["jobTemplate"] + (["spec"] + inner) == ["jobTemplate", "spec", "template", "spec"];
    LeadsOn(Map(spec), "jobTemplate", ["spec"] + inner);
    if "jobTemplate" in spec {
      LeadsOn(spec["jobTemplate"], "spec", inner);
      if HasMap(spec, "jobTemplate") && HasMap(spec["jobTemplate"].fields, "spec") {
        TemplateIsPut(spec["jobTemplate"].fields["spec"].fields);
      }
    }
  }

  lemma PodKeysLead(o: Body)
    ensures Leads(Map(o), PodKeys(Map(o))) <==> HasMap(o, "spec")
    ensures HasMap(o, "spec") ==>
      Map(PullPolicyFiltered(o)) == Put(Map(o), PodKeys(Map(o)), PodFiltered(Get(Map(o), PodKeys(Map(o))).fields))
  {
    hide PodFiltered, TemplateFiltered, HasPod, HasJob, SpecContainersFiltered, Put, Get;
    LeadsIff(Map(o), WORKLOAD);
    LeadsIff(Map(o), CRON_JOB);
    assert ["spec"] + ["template", "spec"] == WORKLOAD;
    assert ["spec"] + ["jobTemplate", "spec", "template", "spec"] == CRON_JOB;
    assert ["spec"] + [] == ["spec"];
    LeadsOn(Map(o), "spec", ["template", "spec"]);
    LeadsOn(Map(o), "spec", ["jobTemplate", "spec", "template", "spec"]);
    LeadsOn(Map(o), "spec", []);
    if HasMap(o, "spec") {
      SpecIsPut(o["spec"].fields);
    }
  }

  /** The keys of the pod spec below spec. */
  function PodBelow(spec: Body): seq<string> {
    if HasPod(spec) then ["template", "spec"]
    else if HasJob(spec) then ["jobTemplate", "spec", "template", "spec"]
    else []
  }

  lemma SpecIsPut(spec: Body)
    ensures HasPod(spec) <==> Leads(Map(spec), ["template", "spec"])
    ensures HasJob(spec) <==> Leads(Map(spec), ["jobTemplate", "spec", "template", "spec"])
    ensures Leads(Map(spec), PodBelow(spec))
    ensures Map(SpecContainersFiltered(spec)) ==
            Put(Map(spec), PodBelow(spec), PodFiltered(Get(Map(spec), PodBelow(spec)).fields))
  {
    hide PodFiltered, HasPod, HasJob, TemplateFiltered;
    TemplateIsPut(spec);
    JobIsPut(spec);
    if HasPod(spec) { assert SpecContainersFiltered(spec) == TemplateFiltered(spec); }
  }

  lemma ContainersBelow(p: Path, i: nat)
    requires i <= |p|
    ensures ContainerHides(p, i) <==> ContainerHides(p[i..], 0)
  {
  }

  lemma PoliciesAt(o: Body, p: Path)
    ensures At(Map(PullPolicyFiltered(o)), p) == if PoliciesHide(Map(o), p) then Nothing else At(Map(o), p)
  {
    hide PodFiltered, SpecContainersFiltered, Get, Put, ContainerHides, PodKeys;
    PodKeysLead(o);
    var ks := PodKeys(Map(o));
    if HasMap(o, "spec") {
      var pod := Get(Map(o), ks).fields;
      PutDeepAt(Map(o), ks, PodFiltered(pod), p);
      if Through(p, 0, ks) {
        PodAt(pod, p[|ks|..]);
        ContainersBelow(p, |ks|);
      }
    } else if PoliciesHide(Map(o), p) {
      NoSpecNoPolicies(o, p);
    }
  }

  lemma NoSpecNoPolicies(o: Body, p: Path)
    requires !HasMap(o, "spec") && PoliciesHide(Map(o), p)
    ensures At(Map(o), p) == Nothing
  {
    hide Leads;
    PodKeysStart(o);
    assert p[0 + 0] == Key("spec");
    if "spec" in o {
      assert At(Map(o), p) == At(o["spec"], p[1..]);
      assert p[1..][0] == p[1];
    }
  }

  lemma PodKeysStart(o: Body)
    requires !HasMap(o, "spec")
    ensures PodKeys(Map(o)) == ["spec"]
  {
    LeadsIff(Map(o), WORKLOAD);
    LeadsIff(Map(o), CRON_JOB);
    assert ["spec"] + ["template", "spec"] == WORKLOAD;
    assert ["spec"] + ["jobTemplate", "spec", "template", "spec"] == CRON_JOB;
    LeadsOn(Map(o), "spec", ["template", "spec"]);
    LeadsOn(Map(o), "spec", ["jobTemplate", "spec", "template", "spec"]);
  }

  // ----- secrets -----

  lemma RedactedAt(data: Body, q: Path)
    ensures At(Map(Redacted(data)), q) ==
      if q == [] || !q[0].Key? then At(Map(data), q)
      else if |q| == 1 && At(Map(data), q) != Nothing then Leaf(Str("<redacted-by-smart-diff>"))
      else Nothing
  {
    if q != [] && q[0].Key? && q[0].name in data {
      assert At(Map(data), q) == At(data[q[0].name], q[1..]);
      if |q| == 1 { assert q[1..] == []; }
    }
  }

  lemma DataAt(o: Body, k: string, p: Path)
    ensures At(Map(DataRedacted(o, k)), p) ==
      if KeyAt(p, 0, {k}) && |p| >= 2 && p[1].Key? then
        if |p| == 2 && At(Map(o), p) != Nothing then Leaf(Str("<redacted-by-smart-diff>")) else Nothing
      else At(Map(o), p)
  {
    hide Redacted;
    if KeyAt(p, 0, {k}) && k in o {
      assert At(Map(o), p) == At(o[k], p[1..]);
      if |p| >= 2 { assert p[1..][0] == p[1]; }
    }
    if HasMap(o, k) {
      PutAt(o, k, Map(Redacted(o[k].fields)), p);
      if p != [] { RedactedAt(o[k].fields, p[1..]); }
    }
  }

  lemma SecretAt(o: Body, p: Path)
    ensures At(Map(SecretFiltered(o)), p) ==
      if IsSecretEntry(Map(o), p) then
        if |p| == 2 && At(Map(o), p) != Nothing then Leaf(Str("<redacted-by-smart-diff>")) else Nothing
      else At(Map(o), p)
  {
    hide DataRedacted;
    KindIs(o, "Secret");
    DataAt(o, "data", p);
    DataAt(DataRedacted(o, "data"), "stringData", p);
  }

  // ----- all filters -----

  /** The two show the same below the key. */
  ghost predicate SameBelow(o: Body, u: Body, k: string) {
    forall q: Path :: KeyAt(q, 0, {k}) ==> At(Map(u), q) == At(Map(o), q)
  }

  lemma SameKind(o: Body, u: Body, kind: string)
    requires SameBelow(o, u, "kind")
    ensures IsKind(Map(u), kind) <==> IsKind(Map(o), kind)
  {
    assert KeyAt([Key("kind")], 0, {"kind"});
  }

  lemma SameDefaults(o: Body, u: Body, p: Path)
    requires SameBelow(o, u, "kind") && SameBelow(o, u, "spec")
    ensures DefaultsHide(Map(u), p) <==> DefaultsHide(Map(o), p)
  {
    hide At;
    FirstKey(p, "spec");
    SameKind(o, u, "Service");
    SameKind(o, u, "Deployment");
    SameKind(o, u, "StatefulSet");
    SameKind(o, u, "DaemonSet");
    SameKind(o, u, "ReplicaSet");
    if KeyAt(p, 0, {"spec"}) {
      forall i: nat | 1 <= i <= |p| ensures At(Map(u), p[..i]) == At(Map(o), p[..i]) {
        assert KeyAt(p[..i], 0, {"spec"});
      }
    }
  }

  lemma SamePodKeys(o: Body, u: Body)
    requires At(Map(u), Keys(WORKLOAD)) == At(Map(o), Keys(WORKLOAD))
    requires At(Map(u), Keys(CRON_JOB)) == At(Map(o), Keys(CRON_JOB))
    ensures PodKeys(Map(u)) == PodKeys(Map(o))
  {
  }

  /** The defaults hide nothing on the way to a pod spec. */
  lemma DefaultsSparePods(o: Body)
    ensures At(Map(DefaultsFiltered(o)), Keys(WORKLOAD)) == At(Map(o), Keys(WORKLOAD))
    ensures At(Map(DefaultsFiltered(o)), Keys(CRON_JOB)) == At(Map(o), Keys(CRON_JOB))
    ensures SameBelow(o, DefaultsFiltered(o), "kind")
  {
    hide DefaultsFiltered, At;
    DefaultsAt(o, Keys(WORKLOAD));
    DefaultsAt(o, Keys(CRON_JOB));
    forall q: Path | KeyAt(q, 0, {"kind"}) ensures At(Map(DefaultsFiltered(o)), q) == At(Map(o), q) {
      DefaultsAt(o, q);
      FirstKey(q, "spec");
    }
  }

  lemma EarlySame(o: Body, f: Filters, k: string)
    requires k != "status" && k != "metadata"
    ensures var o1 := if f.status then o else o - {"status"};
            SameBelow(o, MetaFiltered(o1, f), k)
  {
    hide MetaFiltered, At;
    var o1 := if f.status then o else o - {"status"};
    forall q: Path | KeyAt(q, 0, {k}) ensures At(Map(MetaFiltered(o1, f)), q) == At(Map(o), q) {
      StatusAt(o, q);
      MetaAt(o1, f, q);
      FirstKey(q, "metadata");
    }
  }

  lemma EarlyAt(o: Body, f: Filters, p: Path)
    ensures var o1 := if f.status then o else o - {"status"};
            At(Map(MetaFiltered(o1, f)), p) ==
              if (!f.status && KeyAt(p, 0, {"status"})) || MetaHides(Map(o), f, p) then Nothing else At(Map(o), p)
  {
    hide MetaFiltered, At, MetaKeys;
    var o1 := if f.status then o else o - {"status"};
    StatusAt(o, p);
    MetaAt(o1, f, p);
    FirstKey(p, "metadata");
    forall k {
      StatusAt(o, [Key("metadata"), Key(k)]);
    }
  }

  /** Main result: a filtered resource shows at every path what the resource
      itself holds there, except at the hidden paths, where it shows nothing,
      and at the entries of a secret, which all read the same. */
  lemma ShownExactly(o: Body, f: Filters, p: Path)
    ensures At(Map(Filtered(o, f)), p) ==
      if Hidden(Map(o), f, p) then Nothing
      else if !f.secretRotation && IsSecretEntry(Map(o), p) && At(Map(o), p) != Nothing
      then Leaf(Str("<redacted-by-smart-diff>"))
      else At(Map(o), p)
  {
    hide At, MetaFiltered, DefaultsFiltered, PullPolicyFiltered, SecretFiltered, MetaHides, DefaultsHide, PodKeys,
        SameBelow, ContainerHides, KeyAt, Through;
    var o1 := if f.status then o else o - {"status"};
    var o2 := MetaFiltered(o1, f);
    var o3 := if f.defaultedFields then o2 else DefaultsFiltered(o2);
    var o4 := if f.imagePullPolicy then o3 else PullPolicyFiltered(o3);
    EarlyAt(o, f, p);
    EarlySame(o, f, "kind");
    EarlySame(o, f, "spec");
    SameDefaults(o, o2, p);
    DefaultsAt(o2, p);
    LateSame(o, f, o2);
    PoliciesAt(o3, p);
    SameKind(o, o4, "Secret");
    SecretAt(o4, p);
  }

  lemma LateSame(o: Body, f: Filters, o2: Body)
    requires SameBelow(o, o2, "kind") && SameBelow(o, o2, "spec")
    ensures var o3 := if f.defaultedFields then o2 else DefaultsFiltered(o2);
            var o4 := if f.imagePullPolicy then o3 else PullPolicyFiltered(o3);
            PodKeys(Map(o3)) == PodKeys(Map(o)) && SameBelow(o, o4, "kind")
  {
    hide At, DefaultsFiltered, PullPolicyFiltered, PodKeys;
    var o3 := if f.defaultedFields then o2 else DefaultsFiltered(o2);
    var o4 := if f.imagePullPolicy then o3 else PullPolicyFiltered(o3);
    DefaultsSparePods(o2);
    assert KeyAt(Keys(WORKLOAD), 0, {"spec"}) && KeyAt(Keys(CRON_JOB), 0, {"spec"});
    SamePodKeys(o, o3);
    forall q: Path | KeyAt(q, 0, {"kind"}) ensures At(Map(o4), q) == At(Map(o), q) {
      PoliciesAt(o3, q);
      PodKeysStartWithSpec(o3);
      if Through(q, 0, PodKeys(Map(o3))) { assert q[0 + 0] == Key(PodKeys(Map(o3))[0]); }
    }
  }

  lemma PodKeysStartWithSpec(o: Body)
    ensures PodKeys(Map(o)) != [] && PodKeys(Map(o))[0] == "spec"
  {
  }
}
