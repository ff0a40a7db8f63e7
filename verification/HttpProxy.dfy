/** neco-admission for HTTPProxy: a mutator and a validator that see every write in turn. */
module HttpProxy {
  import opened Text

  const K8S_CLASS := "kubernetes.io/ingress.class"
  const CONTOUR_CLASS := "projectcontour.io/ingress.class"
  const IP_POLICY := "admission.cybozu.com/ip-policy"

  /** A field of an unstructured object: absent, of the wrong type, or with a value. */
  datatype Field<+T> = Absent | BadType | Has(value: T)

  datatype Filter = Filter(source: string, cidr: string)

  datatype Route = Route(ipAllowPolicy: Field<seq<Filter>>, rest: string)

  datatype Proxy = Proxy(
    ann: map<string, string>,
    ingressClassName: Field<string>,
    routes: Field<seq<Route>>,
    rest: string)

  datatype Policy = Policy(name: string, ipAllowPolicy: seq<Filter>)

  datatype Config = Config(defaultClass: string, policies: seq<Policy>)

  // ---- the mutator ----

  /** Policy k is the first one of that name. */
  ghost predicate FirstNamed(policies: seq<Policy>, key: string, k: nat) {
    k < |policies| && policies[k].name == key && forall j | 0 <= j < k :: policies[j].name != key
  }

  ghost predicate NoneNamed(policies: seq<Policy>, key: string) {
    forall j | 0 <= j < |policies| :: policies[j].name != key
  }

  function GetPolicy(policies: seq<Policy>, key: string): (r: Option<Policy>)
    ensures r.None? <==> NoneNamed(policies, key)
    ensures r.Some? ==> exists k: nat :: FirstNamed(policies, key, k) && policies[k] == r.value
  {
    if policies == [] then None
    else if policies[0].name == key then assert FirstNamed(policies, key, 0); Some(policies[0])
    else
      var r := GetPolicy(policies[1..], key);
      assert r.Some? ==> exists k: nat :: FirstNamed(policies, key, k) && policies[k] == r.value by {
        if r.Some? {
          var k: nat :| FirstNamed(policies[1..], key, k) && policies[1..][k] == r.value;
          assert FirstNamed(policies, key, k + 1);
        }
      }
      r
  }

  ghost predicate ClassUnset(c: Config, p: Proxy) {
    c.defaultClass != "" && K8S_CLASS !in p.ann && CONTOUR_CLASS !in p.ann
  }

  ghost predicate ClassFails(c: Config, p: Proxy) {
    ClassUnset(c, p) && p.ingressClassName.BadType?
  }

  ghost function WithClass(c: Config, p: Proxy): Proxy {
    if ClassUnset(c, p) && p.ingressClassName.Absent? then p.(ingressClassName := Has(c.defaultClass)) else p
  }

  ghost function FiltersIn(f: Field<seq<Filter>>): set<Filter> {
    if f.Has? then Elems(f.value) else {}
  }

  /** The filters are those of before and those of the policy, each once, in some order. */
  ghost predicate Merged(before: Route, after: Route, policy: Policy) {
    && after.rest == before.rest
    && after.ipAllowPolicy.Has? && NoDup(after.ipAllowPolicy.value)
    && Elems(after.ipAllowPolicy.value) == FiltersIn(before.ipAllowPolicy) + Elems(policy.ipAllowPolicy)
  }

  ghost predicate RoutesMerged(before: Field<seq<Route>>, after: Field<seq<Route>>, policy: Policy) {
    match before
    case Has(routes) =>
      && after.Has? && |after.value| == |routes|
      && forall i | 0 <= i < |routes| :: Merged(routes[i], after.value[i], policy)
    case _ => after == before
  }

  ghost predicate RoutesFail(routes: Field<seq<Route>>) {
    routes.BadType? || (routes.Has? && exists i | 0 <= i < |routes.value| :: routes.value[i].ipAllowPolicy.BadType?)
  }

  ghost predicate MutationFails(c: Config, p: Proxy) {
    || ClassFails(c, p)
    || (IP_POLICY in p.ann && (GetPolicy(c.policies, p.ann[IP_POLICY]).None? || RoutesFail(p.routes)))
  }

  /** What the mutator may turn a manifest into; only the order of filters is left open. */
  ghost predicate Mutated(c: Config, before: Proxy, after: Proxy) {
    && !MutationFails(c, before)
    && var p := WithClass(c, before);
       if IP_POLICY in p.ann then
         && after == p.(routes := after.routes)
         && RoutesMerged(p.routes, after.routes, GetPolicy(c.policies, p.ann[IP_POLICY]).value)
       else after == p
  }

  /** The object under admission, changed in place. */
  class Object {
    const ann: map<string, string>
    const rest: string
    var ingressClassName: Field<string>
    var routes: Field<seq<Route>>

    ghost function View(): Proxy
      reads this
    {
      Proxy(ann, ingressClassName, routes, rest)
    }

    constructor (p: Proxy)
      ensures View() == p
    {
      ann, rest, ingressClassName, routes := p.ann, p.rest, p.ingressClassName, p.routes;
    }

    method MutateIngressClassNameField(c: Config) returns (allowed: bool)
      modifies this`ingressClassName
      ensures allowed <==> !ClassFails(c, old(View()))
      ensures allowed ==> View() == WithClass(c, old(View()))
    {
      if c.defaultClass == "" { return true; }
      if K8S_CLASS in ann { return true; }
      if CONTOUR_CLASS in ann { return true; }
      if ingressClassName.BadType? { return false; }
      if ingressClassName.Has? { return true; }
      ingressClassName := Has(c.defaultClass);
      return true;
    }

    method SetPolicyField(policy: Policy) returns (ok: bool)
      modifies this`routes
      ensures ok <==> !RoutesFail(old(routes))
      ensures ok ==> RoutesMerged(old(routes), routes, policy)
    {
      if routes.BadType? { return false; }
      if routes.Absent? { return true; }
      var org := routes.value;
      var done: seq<Route> := [];
      for n := 0 to |org|
        invariant |done| == n
        invariant forall i | 0 <= i < n :: !org[i].ipAllowPolicy.BadType? && Merged(org[i], done[i], policy)
      {
        if org[n].ipAllowPolicy.BadType? { return false; }
        var ipPolicies := if org[n].ipAllowPolicy.Has? then org[n].ipAllowPolicy.value else [];
        ipPolicies := ipPolicies + policy.ipAllowPolicy;
        var uniq := Unique(ipPolicies);
        done := done + [org[n].(ipAllowPolicy := Has(uniq))];
      }
      routes := Has(done);
      return true;
    }

    method MutatePolicy(c: Config) returns (allowed: bool)
      modifies this`routes
      ensures allowed <==> ("admission.cybozu.com/ip-policy" in ann ==>
                !NoneNamed(c.policies, ann["admission.cybozu.com/ip-policy"]) && !RoutesFail(old(routes)))
      ensures allowed && "admission.cybozu.com/ip-policy" in ann ==>
                exists k: nat :: FirstNamed(c.policies, ann["admission.cybozu.com/ip-policy"], k) &&
                                 RoutesMerged(old(routes), routes, c.policies[k])
      ensures "admission.cybozu.com/ip-policy" !in ann ==> routes == old(routes)
    {
      if IP_POLICY in ann {
        var policy := GetPolicy(c.policies, ann[IP_POLICY]);
        if policy.None? { return false; }
        allowed := SetPolicyField(policy.value);
        return;
      }
      return true;
    }

    method Mutate(c: Config) returns (allowed: bool)
      modifies this
      ensures allowed <==> !MutationFails(c, old(View()))
      ensures allowed ==> Mutated(c, old(View()), View())
    {
      allowed := MutateIngressClassNameField(c);
      if allowed {
        allowed := MutatePolicy(c);
        if allowed && IP_POLICY in ann { ChosenIs(c.policies, ann[IP_POLICY]); }
      }
    }
  }

  lemma {:induction false} FirstIsUnique(policies: seq<Policy>, key: string, j: nat, k: nat)
    requires FirstNamed(policies, key, j) && FirstNamed(policies, key, k)
    ensures j == k
  {
    assert j < |policies| && policies[j].name == key && k < |policies| && policies[k].name == key;
  }

  lemma {:induction false} ChosenIs(policies: seq<Policy>, key: string)
    ensures forall k: nat | FirstNamed(policies, key, k) :: GetPolicy(policies, key) == Some(policies[k])
  {
    forall k: nat | FirstNamed(policies, key, k) ensures GetPolicy(policies, key) == Some(policies[k]) {
      var j: nat :| FirstNamed(policies, key, j) && policies[j] == GetPolicy(policies, key).value;
      FirstIsUnique(policies, key, j, k);
    }
  }

  // ---- what the mutator means ----

  /** Neither annotation names a class, and there is a default one. */
  ghost predicate Unclassed(c: Config, p: Proxy) {
    c.defaultClass != "" && "kubernetes.io/ingress.class" !in p.ann && "projectcontour.io/ingress.class" !in p.ann
  }

  /** A manifest is refused exactly for a class field or a route of the wrong type, or an unknown ip-policy. */
  lemma {:induction false} RefusedIff(c: Config, p: Proxy)
    ensures MutationFails(c, p) <==>
              || (Unclassed(c, p) && p.ingressClassName.BadType?)
              || ("admission.cybozu.com/ip-policy" in p.ann &&
                  (|| NoneNamed(c.policies, p.ann["admission.cybozu.com/ip-policy"])
                   || p.routes.BadType?
                   || (p.routes.Has? &&
                       exists i | 0 <= i < |p.routes.value| :: p.routes.value[i].ipAllowPolicy.BadType?)))
  {
  }

  /** A route keeps what it is; its filters are those it had and those of the policy, none twice. */
  ghost predicate Extended(before: Route, after: Route, policy: Policy) {
    && after.rest == before.rest && after.ipAllowPolicy.Has?
    && var fs := after.ipAllowPolicy.value;
       && (forall x :: x in fs <==>
             (before.ipAllowPolicy.Has? && x in before.ipAllowPolicy.value) || x in policy.ipAllowPolicy)
       && (forall i, j | 0 <= i < j < |fs| :: fs[i] != fs[j])
  }

  /** The default class goes where none is given, the first policy of the name into every route, and nothing else. */
  lemma {:induction false} MutatedMeans(c: Config, before: Proxy, after: Proxy)
    requires Mutated(c, before, after)
    ensures after == before.(ingressClassName := after.ingressClassName, routes := after.routes)
    ensures after.ingressClassName ==
            if Unclassed(c, before) && before.ingressClassName.Absent? then Has(c.defaultClass)
            else before.ingressClassName
    ensures "admission.cybozu.com/ip-policy" !in before.ann || !before.routes.Has? ==> after.routes == before.routes
    ensures "admission.cybozu.com/ip-policy" in before.ann && before.routes.Has? ==>
              exists k: nat :: FirstNamed(c.policies, before.ann["admission.cybozu.com/ip-policy"], k) &&
                AllExtended(before.routes.value, after.routes, c.policies[k])
  {
    if IP_POLICY in before.ann && before.routes.Has? {
      var key := before.ann[IP_POLICY];
      var k: nat :| FirstNamed(c.policies, key, k) && c.policies[k] == GetPolicy(c.policies, key).value;
      MergedExtends(before.routes.value, after.routes, c.policies[k]);
    }
  }

  ghost predicate AllExtended(before: seq<Route>, after: Field<seq<Route>>, policy: Policy) {
    && after.Has? && |after.value| == |before|
    && forall i | 0 <= i < |before| :: Extended(before[i], after.value[i], policy)
  }

  lemma {:induction false} MergedExtends(before: seq<Route>, after: Field<seq<Route>>, policy: Policy)
    requires RoutesMerged(Has(before), after, policy)
    ensures AllExtended(before, after, policy)
  {
    forall i | 0 <= i < |before| ensures Extended(before[i], after.value[i], policy) {
      var b, fs := before[i].ipAllowPolicy, after.value[i].ipAllowPolicy.value;
      assert Merged(before[i], after.value[i], policy);
      forall x ensures x in fs <==> (b.Has? && x in b.value) || x in policy.ipAllowPolicy {
        assert x in fs <==> x in Elems(fs);
      }
    }
  }

  /** Through a map and back: each element once, in whatever order the map yields. */
  method Unique(xs: seq<Filter>) returns (ys: seq<Filter>)
    ensures NoDup(ys) && Elems(ys) == Elems(xs)
  {
    var seen: set<Filter> := {};
    for n := 0 to |xs|
      invariant forall x :: x in seen <==> x in xs[..n]
    {
      assert xs[..n + 1] == xs[..n] + [xs[n]];
      seen := seen + {xs[n]};
    }
    assert xs[..|xs|] == xs;
    ys := Enumerate(seen);
  }

  // ---- the validator ----

  datatype Verdict = Allowed | Denied | Errored

  function Value(ann: map<string, string>, key: string): string {
    if key in ann then ann[key] else ""
  }

  /** Absent counts as empty. */
  function ClassField(p: Proxy): string {
    if p.ingressClassName.Has? then p.ingressClassName.value else ""
  }

  function ValidateCreate(p: Proxy): Verdict {
    if p.ingressClassName.BadType? then Errored
    else if Value(p.ann, K8S_CLASS) == "" && Value(p.ann, CONTOUR_CLASS) == "" && ClassField(p) == "" then Denied
    else Allowed
  }

  function ValidateUpdate(old': Proxy, p: Proxy): Verdict {
    if p.ingressClassName.BadType? || old'.ingressClassName.BadType? then Errored
    else if Value(p.ann, K8S_CLASS) != Value(old'.ann, K8S_CLASS) then Denied
    else if Value(p.ann, CONTOUR_CLASS) != Value(old'.ann, CONTOUR_CLASS) then Denied
    else if ClassField(p) != ClassField(old') then Denied
    else if IP_POLICY in old'.ann && old'.ann[IP_POLICY] != Value(p.ann, IP_POLICY) then Denied
    else Allowed
  }

  /** An annotation or field that is absent counts as empty. */
  ghost function OrEmpty(ann: map<string, string>, key: string): string {
    if key in ann then ann[key] else ""
  }

  ghost function Classes(p: Proxy): (string, string, string) {
    (OrEmpty(p.ann, "kubernetes.io/ingress.class"), OrEmpty(p.ann, "projectcontour.io/ingress.class"),
     if p.ingressClassName.Has? then p.ingressClassName.value else "")
  }

  /** A creation needs a class in one of the three places. */
  lemma {:induction false} CreateAllowedIff(p: Proxy)
    ensures ValidateCreate(p).Allowed? <==> !p.ingressClassName.BadType? && Classes(p) != ("", "", "")
  {
  }

  /** An update keeps all three, and the ip-policy if there is one. */
  lemma {:induction false} UpdateAllowedIff(old': Proxy, p: Proxy)
    ensures ValidateUpdate(old', p).Allowed? <==>
              && !p.ingressClassName.BadType? && !old'.ingressClassName.BadType? && Classes(p) == Classes(old')
              && ("admission.cybozu.com/ip-policy" in old'.ann ==>
                    OrEmpty(p.ann, "admission.cybozu.com/ip-policy") == old'.ann["admission.cybozu.com/ip-policy"])
  {
  }

  // ---- histories ----

  /** A write that was admitted: the manifest sent and the object stored. */
  datatype Write = Write(manifest: Proxy, stored: Proxy)

  ghost predicate Created(c: Config, w: Write) {
    Mutated(c, w.manifest, w.stored) && ValidateCreate(w.stored).Allowed?
  }

  ghost predicate UpdatedTo(c: Config, old': Proxy, w: Write) {
    Mutated(c, w.manifest, w.stored) && ValidateUpdate(old', w.stored).Allowed?
  }

  /** One object's life: a create followed by updates, all admitted under one configuration. */
  ghost predicate History(c: Config, h: seq<Write>) {
    h != [] && Created(c, h[0]) && forall i | 0 < i < |h| :: UpdatedTo(c, h[i - 1].stored, h[i])
  }

  /** The class values are those of the creation for ever, and one of them is set. */
  lemma {:induction false} ClassesNeverChange(c: Config, h: seq<Write>, i: nat)
    requires History(c, h) && i < |h|
    ensures Classes(h[i].stored) == Classes(h[0].stored) && Classes(h[i].stored) != ("", "", "")
    ensures !h[i].stored.ingressClassName.BadType?
  {
    if i == 0 {
    } else {
      ClassesNeverChange(c, h, i - 1);
      assert UpdatedTo(c, h[i - 1].stored, h[i]);
    }
  }

  /** Once an ip-policy is set it stays. */
  lemma {:induction false} PolicyNeverChanges(c: Config, h: seq<Write>, i: nat, j: nat)
    requires History(c, h) && i <= j < |h| && OrEmpty(h[i].stored.ann, "admission.cybozu.com/ip-policy") != ""
    ensures OrEmpty(h[j].stored.ann, "admission.cybozu.com/ip-policy") ==
            OrEmpty(h[i].stored.ann, "admission.cybozu.com/ip-policy")
  {
    if i == j {
    } else {
      PolicyNeverChanges(c, h, i, j - 1);
      assert UpdatedTo(c, h[j - 1].stored, h[j]);
    }
  }

  ghost predicate Enforced(p: Proxy, policy: Policy) {
    p.routes.Has? ==> forall i | 0 <= i < |p.routes.value| ::
      var f := p.routes.value[i].ipAllowPolicy;
      f.Has? && NoDup(f.value) && forall x | x in policy.ipAllowPolicy :: x in f.value
  }

  /** While it is set, it names a policy, and every route allows the addresses of the first one of that name. */
  lemma {:induction false} PolicyIsEnforced(c: Config, h: seq<Write>, i: nat)
    requires History(c, h) && i < |h| && "admission.cybozu.com/ip-policy" in h[i].stored.ann
    ensures exists k: nat ::
              FirstNamed(c.policies, h[i].stored.ann["admission.cybozu.com/ip-policy"], k) &&
              Enforced(h[i].stored, c.policies[k])
  {
    var w := h[i];
    if i > 0 { assert UpdatedTo(c, h[i - 1].stored, w); }
    MutatedMeans(c, w.manifest, w.stored);
    RefusedIff(c, w.manifest);
    var key := w.stored.ann["admission.cybozu.com/ip-policy"];
    if w.stored.routes.Has? {
      var k: nat :| FirstNamed(c.policies, key, k) &&
        AllExtended(w.manifest.routes.value, w.stored.routes, c.policies[k]);
      assert Enforced(w.stored, c.policies[k]);
    } else {
      var k: nat :| FirstNamed(c.policies, key, k) && c.policies[k] == GetPolicy(c.policies, key).value;
      assert Enforced(w.stored, c.policies[k]);
    }
  }

  // ---- applying a manifest again ----

  ghost predicate SameFilters(a: Field<seq<Filter>>, b: Field<seq<Filter>>) {
    a == b || (a.Has? && b.Has? && multiset(a.value) == multiset(b.value))
  }

  ghost predicate SameUpToOrder(p: Proxy, q: Proxy) {
    && p == q.(routes := p.routes)
    && (p.routes == q.routes ||
        (p.routes.Has? && q.routes.Has? && |p.routes.value| == |q.routes.value| &&
         forall i | 0 <= i < |p.routes.value| ::
           p.routes.value[i].rest == q.routes.value[i].rest &&
           SameFilters(p.routes.value[i].ipAllowPolicy, q.routes.value[i].ipAllowPolicy)))
  }

  lemma {:induction false} SameElemsSameMultiset(a: seq<Filter>, b: seq<Filter>)
    requires NoDup(a) && NoDup(b) && Elems(a) == Elems(b)
    ensures multiset(a) == multiset(b)
  {
    forall x ensures multiset(a)[x] == multiset(b)[x] {
      CountOne(a, x);
      CountOne(b, x);
      assert x in Elems(a) <==> x in a;
      assert x in Elems(b) <==> x in b;
    }
  }

  lemma MergedTwice(before: Route, once: Route, again: Route, policy: Policy)
    requires Merged(before, once, policy) && (Merged(before, again, policy) || Merged(once, again, policy))
    ensures SameFilters(again.ipAllowPolicy, once.ipAllowPolicy) && again.rest == once.rest
  {
    SameElemsSameMultiset(again.ipAllowPolicy.value, once.ipAllowPolicy.value);
  }

  /** Two mutations of one manifest, or a mutation of a result, agree up to the order of filters. */
  lemma MutationStable(c: Config, m: Proxy, once: Proxy, again: Proxy)
    requires Mutated(c, m, once) && (Mutated(c, m, again) || Mutated(c, once, again))
    ensures SameUpToOrder(again, once)
  {
    assert WithClass(c, once).ingressClassName == once.ingressClassName;
    if IP_POLICY in m.ann && m.routes.Has? {
      var policy := GetPolicy(c.policies, m.ann[IP_POLICY]).value;
      forall i | 0 <= i < |once.routes.value|
        ensures again.routes.value[i].rest == once.routes.value[i].rest &&
                SameFilters(again.routes.value[i].ipAllowPolicy, once.routes.value[i].ipAllowPolicy)
      {
        MergedTwice(m.routes.value[i], once.routes.value[i], again.routes.value[i], policy);
      }
    }
  }

  /** Sending the stored object back never fails, is admitted, and changes at most the order of filters. */
  lemma StoredIsFixpoint(c: Config, h: seq<Write>, i: nat, again: Proxy)
    requires History(c, h) && i < |h|
    ensures !MutationFails(c, h[i].stored)
    ensures Mutated(c, h[i].stored, again) ==>
              ValidateUpdate(h[i].stored, again).Allowed? && SameUpToOrder(again, h[i].stored)
  {
    var w := h[i];
    if i > 0 { assert UpdatedTo(c, h[i - 1].stored, w); }
    ClassesNeverChange(c, h, i);
    if Mutated(c, w.stored, again) { MutationStable(c, w.manifest, w.stored, again); }
  }

  /**
   Applying the created manifest again, at any time: it gives the created object up to the order of filters,
   and it is admitted if and only if no other ip-policy has been added since.
   */
  lemma ReapplyAdmittedIff(c: Config, h: seq<Write>, i: nat, again: Proxy)
    requires History(c, h) && i < |h| && Mutated(c, h[0].manifest, again)
    ensures SameUpToOrder(again, h[0].stored)
    ensures ValidateUpdate(h[i].stored, again).Allowed? <==>
              ("admission.cybozu.com/ip-policy" in h[i].stored.ann ==>
                 h[i].stored.ann["admission.cybozu.com/ip-policy"] ==
                 OrEmpty(h[0].manifest.ann, "admission.cybozu.com/ip-policy"))
  {
    MutationStable(c, h[0].manifest, h[0].stored, again);
    ClassesNeverChange(c, h, i);
    ClassesNeverChange(c, h, 0);
  }

  /** Right after the creation that is always so. */
  lemma ReapplyAtOnceIsAdmitted(c: Config, h: seq<Write>, again: Proxy)
    requires History(c, h) && |h| == 1 && Mutated(c, h[0].manifest, again)
    ensures UpdatedTo(c, h[0].stored, Write(h[0].manifest, again)) && SameUpToOrder(again, h[0].stored)
  {
    ReapplyAdmittedIff(c, h, 0, again);
  }

  ghost function Plain(): Proxy {
    Proxy(map[K8S_CLASS := "forest"], Absent, Absent, "")
  }

  ghost function WithPolicy(): Proxy {
    Plain().(ann := Plain().ann[IP_POLICY := "cybozu"])
  }

  /** The failing side is reached: once an ip-policy has been added, the created manifest is denied. */
  lemma {:induction false} ReapplyDenied()
    ensures var c := Config("", [Policy("cybozu", [])]);
            && History(c, [Write(Plain(), Plain()), Write(WithPolicy(), WithPolicy())])
            && Mutated(c, Plain(), Plain()) && ValidateUpdate(WithPolicy(), Plain()).Denied?
  {
    var c, h := Config("", [Policy("cybozu", [])]), [Write(Plain(), Plain()), Write(WithPolicy(), WithPolicy())];
    assert |K8S_CLASS| < |IP_POLICY| < |CONTOUR_CLASS|;
    assert GetPolicy(c.policies, "cybozu") == Some(c.policies[0]);
    assert Created(c, h[0]) && UpdatedTo(c, h[0].stored, h[1]);
  }
}
