/** neco-exporter's Cilium identity metrics: security labels as Prometheus labels and as one text. */
module SecurityLabels {
  import opened Text
  import opened MetricName
  import opened IdentityWatcher

  const CONFLICTED := "<CONFLICTED>"

  // ---- label names ----

  predicate LabelChar(c: char) {
    'a' <= c <= 'z' || 'A' <= c <= 'Z' || '0' <= c <= '9' || c == '_'
  }

  function Sanitize(key: string): string {
    "label_" + seq(|key|, i requires 0 <= i < |key| => if LabelChar(key[i]) then key[i] else '_')
  }

  /** The prefix, then each character; only letters, digits and underscores stay. */
  lemma {:induction false} SanitizeMeans(key: string, i: nat)
    ensures |Sanitize(key)| == 6 + |key| && Sanitize(key)[..6] == "label_"
    ensures i < |key| ==>
              var plain := 'a' <= key[i] <= 'z' || 'A' <= key[i] <= 'Z' || '0' <= key[i] <= '9' || key[i] == '_';
              Sanitize(key)[6 + i] == if plain then key[i] else '_'
  {
  }

  method SanitizeLabelName(key: string) returns (b: string)
    ensures b == Sanitize(key)
  {
    b := "label_";
    for n := 0 to |key|
      invariant b == Sanitize(key[..n])
    {
      if LabelChar(key[n]) {
        b := b + [key[n]];
      } else {
        b := b + ['_'];
      }
    }
    assert key[..|key|] == key;
  }

  /** Key k of the security labels becomes label n. */
  ghost predicate Source(labels: map<string, string>, k: string, n: string) {
    k in labels && k != "k8s:io.kubernetes.pod.namespace" && Sanitize(k) == n
  }

  ghost predicate Clash(labels: map<string, string>, n: string) {
    exists k1, k2 :: k1 != k2 && Source(labels, k1, n) && Source(labels, k2, n)
  }

  ghost function PromLabels(labels: map<string, string>): map<string, string> {
    map k | k in labels && k != NAMESPACE_LABEL ::
      Sanitize(k) := if Clash(labels, Sanitize(k)) then CONFLICTED else ValueFor(labels, Sanitize(k))
  }

  ghost function ValueFor(labels: map<string, string>, n: string): string
  {
    if k :| Source(labels, k, n) then labels[k] else ""
  }

  /** A name with one source has its value; a name with two or more has the conflict marker. */
  lemma {:induction false} PromLabelsMeaning(labels: map<string, string>, n: string)
    ensures n in PromLabels(labels) <==> exists k :: Source(labels, k, n)
    ensures Clash(labels, n) ==> n in PromLabels(labels) && PromLabels(labels)[n] == "<CONFLICTED>"
    ensures forall k | Source(labels, k, n) && !Clash(labels, n) :: PromLabels(labels)[n] == labels[k]
  {
    if n in PromLabels(labels) {
      var k :| k in labels && k != NAMESPACE_LABEL && Sanitize(k) == n;
      assert Source(labels, k, n);
    }
    forall k | Source(labels, k, n) ensures n in PromLabels(labels) {
      assert Sanitize(k) in PromLabels(labels);
    }
  }

  ghost function Part(labels: map<string, string>, ks: seq<string>): map<string, string> {
    map k | k in ks && k in labels :: labels[k]
  }

  /** The result does not depend on the order in which the map is read. */
  method SecurityLabelsToPromLabels(securityLabels: map<string, string>) returns (labels: map<string, string>)
    ensures labels == PromLabels(securityLabels)
  {
    labels := map[];
    var keys := Enumerate(securityLabels.Keys);
    for n := 0 to |keys|
      invariant labels == PromLabels(Part(securityLabels, keys[..n]))
    {
      var k := keys[n];
      ghost var part := Part(securityLabels, keys[..n]);
      PartGrows(securityLabels, keys, n);
      var v := securityLabels[k];
      AddLabel(part, k, v);
      if k != NAMESPACE_LABEL {
        var name := SanitizeLabelName(k);
        if name in labels {
          v := CONFLICTED;
        }
        labels := labels[name := v];
      }
    }
    PartIsAll(securityLabels, keys);
  }

  lemma {:induction false} PartGrows(labels: map<string, string>, keys: seq<string>, n: nat)
    requires n < |keys| && NoDup(keys) && Elems(keys) == labels.Keys
    ensures keys[n] in labels && keys[n] !in Part(labels, keys[..n])
    ensures Part(labels, keys[..n + 1]) == Part(labels, keys[..n])[keys[n] := labels[keys[n]]]
  {
    assert keys[n] in Elems(keys);
    assert keys[..n + 1] == keys[..n] + [keys[n]];
  }

  lemma {:induction false} PartIsAll(labels: map<string, string>, keys: seq<string>)
    requires Elems(keys) == labels.Keys
    ensures Part(labels, keys[..|keys|]) == labels
  {
    assert keys[..|keys|] == keys;
    assert forall k :: k in keys <==> k in Elems(keys);
  }

  lemma {:induction false} AddLabel(part: map<string, string>, k: string, v: string)
    requires k !in part
    ensures PromLabels(part[k := v]) ==
            if k == NAMESPACE_LABEL then PromLabels(part)
            else PromLabels(part)[Sanitize(k) := if Sanitize(k) in PromLabels(part) then CONFLICTED else v]
  {
    var a, old', name := PromLabels(part[k := v]), PromLabels(part), Sanitize(k);
    var b := if k == NAMESPACE_LABEL then old' else old'[name := if name in old' then CONFLICTED else v];
    forall n: string ensures Get(a, n) == Get(b, n) {
      AddLabelAt(part, k, v, n);
    }
    SameMap(a, b);
  }

  lemma {:induction false} AddLabelAt(part: map<string, string>, k: string, v: string, n: string)
    requires k !in part
    ensures var old' := Get(PromLabels(part), n);
            Get(PromLabels(part[k := v]), n) ==
            if k != NAMESPACE_LABEL && n == Sanitize(k) then Some(if old'.Some? then CONFLICTED else v) else old'
  {
    var next := part[k := v];
    PromLabelsMeaning(part, n);
    PromLabelsMeaning(next, n);
    assert forall x :: Source(next, x, n) <==>
             Source(part, x, n) || (x == k && k != NAMESPACE_LABEL && n == Sanitize(k));
    if k != NAMESPACE_LABEL && n == Sanitize(k) {
      assert Source(next, k, n);
      if x :| Source(part, x, n) {
        assert Source(next, x, n) && x != k;
        assert Clash(next, n);
      }
    } else {
      assert Clash(next, n) <==> Clash(part, n);
      if x :| Source(part, x, n) {
        assert Source(next, x, n) && next[x] == part[x];
      }
    }
  }

  // ---- the labels as one text ----

  function EntryText(k: string, v: string): string {
    if v == "" then k else k + "=" + v
  }

  function Join(es: seq<string>): string {
    if es == [] then "" else if |es| == 1 then es[0] else es[0] + "," + Join(es[1..])
  }

  /** The entries, one for each key. */
  ghost function Bag(labels: map<string, string>, keys: set<string>): multiset<string>
    requires keys <= labels.Keys
  {
    if keys == {} then multiset{} else
      var k :| k in keys;
      Bag(labels, keys - {k}) + multiset{EntryText(k, labels[k])}
  }

  lemma {:induction false} BagTake(labels: map<string, string>, keys: set<string>, k: string)
    requires keys <= labels.Keys && k in keys
    ensures Bag(labels, keys) == Bag(labels, keys - {k}) + multiset{EntryText(k, labels[k])}
    decreases |keys|
  {
    var x :| x in keys && Bag(labels, keys) == Bag(labels, keys - {x}) + multiset{EntryText(x, labels[x])};
    if x != k {
      BagTake(labels, keys - {x}, k);
      BagTake(labels, keys - {k}, x);
      assert keys - {x} - {k} == keys - {k} - {x};
    }
  }

  lemma {:induction false} BagMember(labels: map<string, string>, keys: set<string>, e: string)
    requires keys <= labels.Keys
    ensures e in Bag(labels, keys) <==> exists k | k in keys :: e == EntryText(k, labels[k])
  {
    if keys == {} {
    } else {
      var k :| k in keys && Bag(labels, keys) == Bag(labels, keys - {k}) + multiset{EntryText(k, labels[k])};
      BagMember(labels, keys - {k}, e);
    }
  }

  ghost predicate IsFormatted(labels: map<string, string>, es: seq<string>) {
    Ordered(es, Same) && multiset(es) == Bag(labels, labels.Keys)
  }

  /** The text does not depend on the order in which the map is read. */
  method FormatSecurityLabels(labels: map<string, string>) returns (text: string)
    ensures text == Formatted(labels)
  {
    var keys := Enumerate(labels.Keys);
    var entries: seq<string> := [];
    for n := 0 to |keys|
      invariant Elems(keys[..n]) <= labels.Keys && multiset(entries) == Bag(labels, Elems(keys[..n]))
    {
      var k := keys[n];
      BagGrows(labels, keys, n);
      if labels[k] == "" {
        entries := entries + [k];
      } else {
        entries := entries + [k + "=" + labels[k]];
      }
    }
    assert keys[..|keys|] == keys;
    FormattedIs(labels, SortBy(entries, Same));
    text := Join(SortBy(entries, Same));
  }

  lemma {:induction false} BagGrows(labels: map<string, string>, keys: seq<string>, n: nat)
    requires n < |keys| && NoDup(keys) && Elems(keys) == labels.Keys
    ensures keys[n] in labels && Elems(keys[..n]) <= labels.Keys && Elems(keys[..n + 1]) <= labels.Keys
    ensures Bag(labels, Elems(keys[..n + 1])) ==
            Bag(labels, Elems(keys[..n])) + multiset{EntryText(keys[n], labels[keys[n]])}
  {
    var k, done := keys[n], Elems(keys[..n + 1]);
    assert forall x | x in keys :: x in Elems(keys);
    assert keys[..n + 1] == keys[..n] + [k];
    assert done - {k} == Elems(keys[..n]) && k in done;
    BagTake(labels, done, k);
  }

  lemma {:induction false} OrderedLeast(t: seq<string>, x: string)
    requires Ordered(t, Same) && x in t
    ensures !Less(x, t[0])
  {
    var i :| 0 <= i < |t| && t[i] == x;
    LessIrreflexive(x);
    assert i > 0 ==> !Less(Same(t[i]), Same(t[0]));
  }

  lemma {:induction false} TailOf(s: seq<string>)
    requires s != [] && Ordered(s, Same)
    ensures multiset(s[1..]) == multiset(s) - multiset{s[0]} && Ordered(s[1..], Same)
  {
    assert s == [s[0]] + s[1..];
  }

  lemma {:induction false} SameFirst(s: seq<string>, t: seq<string>)
    requires s != [] && t != [] && Ordered(s, Same) && Ordered(t, Same) && multiset(s) == multiset(t)
    ensures s[0] == t[0]
  {
    assert s[0] in multiset(t) && t[0] in multiset(s);
    OrderedLeast(t, s[0]);
    OrderedLeast(s, t[0]);
    LessTotal(s[0], t[0]);
  }

  /** An ordered text sequence is determined by its elements, counted. */
  lemma {:induction false} OrderedUnique(s: seq<string>, t: seq<string>)
    requires Ordered(s, Same) && Ordered(t, Same) && multiset(s) == multiset(t)
    ensures s == t
  {
    assert |s| == |multiset(s)| == |multiset(t)| == |t|;
    if s == [] {
    } else {
      assert s[1..] == t[1..] by {
        SameFirst(s, t);
        TailOf(s);
        TailOf(t);
        OrderedUnique(s[1..], t[1..]);
      }
      assert s[0] == t[0] by { SameFirst(s, t); }
      assert s == [s[0]] + s[1..] && t == [t[0]] + t[1..];
    }
  }

  // ---- reading the text back ----

  function Split(s: string): seq<string>
    decreases |s|
  {
    var i := IndexOf(s, ',');
    if i == |s| then [s] else [s[..i]] + Split(s[i + 1..])
  }

  lemma {:induction false} SplitUndoesJoin(es: seq<string>)
    requires es != [] && forall e | e in es :: ',' !in e
    ensures Split(Join(es)) == es
  {
    var e := es[0];
    assert e in es;
    if |es| == 1 {
      assert IndexOf(e, ',') == |e|;
    } else {
      var more := Join(es[1..]);
      assert Join(es) == e + [','] + more;
      IndexOfAfter(e, ',', more);
      assert Join(es)[|e| + 1..] == more && Join(es)[..|e|] == e;
      SplitUndoesJoin(es[1..]);
    }
  }

  function KeyOf(e: string): string { e[..IndexOf(e, '=')] }

  function ValueOf(e: string): string {
    var i := IndexOf(e, '=');
    if i == |e| then "" else e[i + 1..]
  }

  function DecodeEntries(es: seq<string>): map<string, string> {
    if es == [] then map[] else DecodeEntries(es[1..])[KeyOf(es[0]) := ValueOf(es[0])]
  }

  function Decode(text: string): map<string, string> {
    if text == "" then map[] else DecodeEntries(Split(text))
  }

  ghost predicate Decodable(labels: map<string, string>) {
    forall k | k in labels :: k != "" && '=' !in k && ',' !in k && ',' !in labels[k]
  }

  lemma {:induction false} EntryReadsBack(k: string, v: string)
    requires '=' !in k
    ensures KeyOf(EntryText(k, v)) == k && ValueOf(EntryText(k, v)) == v
  {
    var e := EntryText(k, v);
    if v == "" {
      assert IndexOf(e, '=') == |e|;
    } else {
      assert e == k + ['='] + v;
      IndexOfAfter(k, '=', v);
    }
  }

  lemma {:induction false} DecodeEntriesExact(es: seq<string>, labels: map<string, string>)
    requires forall e | e in es :: KeyOf(e) in labels && ValueOf(e) == labels[KeyOf(e)]
    ensures var m := DecodeEntries(es);
            && (forall e | e in es :: KeyOf(e) in m)
            && (forall k | k in m :: k in labels && m[k] == labels[k])
  {
    if es == [] {
    } else {
      DecodeEntriesExact(es[1..], labels);
    }
  }

  lemma {:induction false} EntriesOf(labels: map<string, string>, es: seq<string>)
    requires Decodable(labels) && IsFormatted(labels, es)
    ensures forall k | k in labels :: EntryText(k, labels[k]) in es && KeyOf(EntryText(k, labels[k])) == k
    ensures forall e | e in es :: ',' !in e && e != "" && KeyOf(e) in labels && ValueOf(e) == labels[KeyOf(e)]
  {
    forall k | k in labels ensures EntryText(k, labels[k]) in es && KeyOf(EntryText(k, labels[k])) == k {
      BagMember(labels, labels.Keys, EntryText(k, labels[k]));
      assert EntryText(k, labels[k]) in multiset(es);
      EntryReadsBack(k, labels[k]);
    }
    forall e | e in es ensures ',' !in e && e != "" && KeyOf(e) in labels && ValueOf(e) == labels[KeyOf(e)] {
      BagMember(labels, labels.Keys, e);
      assert e in multiset(es);
      var k :| k in labels && e == EntryText(k, labels[k]);
      EntryReadsBack(k, labels[k]);
    }
  }

  /** The text determines the labels. */
  lemma {:induction false} DecodeUndoesFormat(labels: map<string, string>, es: seq<string>)
    requires Decodable(labels) && IsFormatted(labels, es)
    ensures Decode(Join(es)) == labels
  {
    EntriesOf(labels, es);
    EntriesDecode(labels, es);
    if es != [] {
      assert es[0] in es;
      JoinNotEmpty(es);
      SplitUndoesJoin(es);
    }
  }

  lemma {:induction false} JoinNotEmpty(es: seq<string>)
    requires es != [] && es[0] != ""
    ensures Join(es) != ""
  {
  }

  lemma {:induction false} EntriesDecode(labels: map<string, string>, es: seq<string>)
    requires forall k | k in labels :: EntryText(k, labels[k]) in es && KeyOf(EntryText(k, labels[k])) == k
    requires forall e | e in es :: KeyOf(e) in labels && ValueOf(e) == labels[KeyOf(e)]
    ensures DecodeEntries(es) == labels
  {
    DecodeEntriesExact(es, labels);
  }

  // ---- the series of an identity ----

  ghost function Formatted(labels: map<string, string>): string {
    Join(SortBy(AnySequence(Bag(labels, labels.Keys)), Same))
  }

  ghost function AnySequence(b: multiset<string>): (s: seq<string>)
    ensures multiset(s) == b
    decreases |b|
  {
    if b == multiset{} then [] else
      var x :| x in b;
      AnySequence(b - multiset{x}) + [x]
  }

  lemma {:induction false} FormattedIs(labels: map<string, string>, es: seq<string>)
    requires IsFormatted(labels, es)
    ensures Join(es) == Formatted(labels)
  {
    OrderedUnique(es, SortBy(AnySequence(Bag(labels, labels.Keys)), Same));
  }

  const INFO := "identity_info"
  const COUNT := "identity_count"

  /** The labels that are set by name, on top of the sanitised ones. */
  ghost function Assembled(prom: map<string, string>, name: string, uid: string, text: string, ns: Option<string>)
      : map<string, string>
  {
    var base := prom["identity" := name]["uid" := uid]["security_labels" := text];
    if ns.Some? then base["namespace" := ns.value] else base
  }

  ghost function InfoLabels(name: string, info: Info): map<string, string> {
    Assembled(PromLabels(info.labels), name, info.uid, Formatted(info.labels), Get(info.labels, NAMESPACE_LABEL))
  }

  ghost function CountMetric(ns: string, n: nat): Metric {
    Metric(COUNT, map["namespace" := ns], n as real)
  }

  ghost function InfoMetric(name: string, info: Info): Metric {
    Metric(INFO, InfoLabels(name, info), 1.0)
  }

  method IdentityLabels(name: string, info: Info) returns (labels: map<string, string>)
    ensures labels == InfoLabels(name, info)
  {
    labels := SecurityLabelsToPromLabels(info.labels);
    var text := FormatSecurityLabels(info.labels);
    labels := SetFixed(labels, name, info.uid, text, info.labels);
  }

  method SetFixed(prom: map<string, string>, name: string, uid: string, text: string,
                  securityLabels: map<string, string>)
      returns (labels: map<string, string>)
    ensures labels == Assembled(prom, name, uid, text, Get(securityLabels, NAMESPACE_LABEL))
  {
    labels := prom;
    labels := labels["identity" := name];
    labels := labels["uid" := uid];
    labels := labels["security_labels" := text];
    if NAMESPACE_LABEL in securityLabels {
      labels := labels["namespace" := securityLabels[NAMESPACE_LABEL]];
    }
  }

  /** `order` lists the keys of the map, each once. */
  ghost predicate Lists(order: seq<string>, keys: set<string>) {
    NoDup(order) && Elems(order) == keys
  }

  /** The metric of each namespace. */
  ghost function CountFor(counts: map<string, nat>): string -> Metric {
    ns => if ns in counts then CountMetric(ns, counts[ns]) else Metric("", map[], 0.0)
  }

  ghost function CountMetrics(counts: map<string, nat>): set<Metric> {
    Image(counts.Keys, CountFor(counts))
  }

  /** The metric of each identity by name. */
  ghost function InfoFor(identities: map<string, Info>): string -> Metric {
    name => if name in identities then InfoMetric(name, identities[name]) else Metric("", map[], 0.0)
  }

  ghost function InfoMetrics(identities: map<string, Info>): set<Metric> {
    Image(identities.Keys, InfoFor(identities))
  }

  ghost function Image(keys: set<string>, f: string -> Metric): set<Metric> {
    set k | k in keys :: f(k)
  }

  ghost predicate Injective(keys: set<string>, f: string -> Metric) {
    forall a, b | a in keys && b in keys && f(a) == f(b) :: a == b
  }

  ghost function Mapped(names: seq<string>, f: string -> Metric): seq<Metric> {
    if names == [] then [] else Mapped(names[..|names| - 1], f) + [f(names[|names| - 1])]
  }

  lemma {:induction false} MappedAt(names: seq<string>, f: string -> Metric)
    ensures |Mapped(names, f)| == |names| && forall i | 0 <= i < |names| :: Mapped(names, f)[i] == f(names[i])
  {
    if names == [] {
    } else {
      MappedAt(names[..|names| - 1], f);
    }
  }

  lemma {:induction false} MappedExact(order: seq<string>, keys: set<string>, f: string -> Metric)
    requires Lists(order, keys) && Injective(keys, f)
    ensures NoDup(Mapped(order, f)) && Elems(Mapped(order, f)) == Image(keys, f)
  {
    var ms := Mapped(order, f);
    MappedAt(order, f);
    assert forall i | 0 <= i < |order| :: order[i] in Elems(order);
    forall k | k in keys ensures f(k) in ms {
      assert k in Elems(order);
      var i :| 0 <= i < |order| && order[i] == k;
      assert ms[i] == f(k);
    }
  }

  method CollectCounts(counts: map<string, nat>) returns (ret: seq<Metric>)
    ensures NoDup(ret) && Elems(ret) == CountMetrics(counts)
  {
    ret := [];
    var order := Enumerate(counts.Keys);
    assert forall ns :: ns in order <==> ns in Elems(order);
    for n := 0 to |order|
      invariant ret == Mapped(order[..n], CountFor(counts))
    {
      var ns := order[n];
      ret := ret + [Metric(COUNT, map["namespace" := ns], counts[ns] as real)];
      assert order[..n + 1][..n] == order[..n];
    }
    assert order[..|order|] == order;
    CountsDiffer(counts);
    MappedExact(order, counts.Keys, CountFor(counts));
  }

  lemma {:induction false} CountsDiffer(counts: map<string, nat>)
    ensures Injective(counts.Keys, CountFor(counts))
  {
    var f := CountFor(counts);
    forall a, b | a in counts && b in counts && f(a) == f(b) ensures a == b {
      assert f(a).labels["namespace"] == a && f(b).labels["namespace"] == b;
    }
  }

  method CollectInfos(identities: map<string, Info>) returns (ret: seq<Metric>)
    ensures NoDup(ret) && Elems(ret) == InfoMetrics(identities)
  {
    ret := [];
    var order := Enumerate(identities.Keys);
    assert forall name :: name in order <==> name in Elems(order);
    for n := 0 to |order|
      invariant ret == Mapped(order[..n], InfoFor(identities))
    {
      var name := order[n];
      var labels := IdentityLabels(name, identities[name]);
      ret := ret + [Metric(INFO, labels, 1.0)];
      assert order[..n + 1][..n] == order[..n];
    }
    assert order[..|order|] == order;
    InfosDiffer(identities);
    MappedExact(order, identities.Keys, InfoFor(identities));
  }

  lemma {:induction false} InfosDiffer(identities: map<string, Info>)
    ensures Injective(identities.Keys, InfoFor(identities))
  {
    var f := InfoFor(identities);
    forall a, b | a in identities && b in identities && f(a) == f(b) ensures a == b {
      if a != b { LabelsDiffer(a, identities[a], b, identities[b]); }
    }
  }

  /** One metric for each namespace and one for each identity, each once. */
  ghost predicate Collected(counts: map<string, nat>, identities: map<string, Info>, ms: seq<Metric>) {
    NoDup(ms) && Elems(ms) == CountMetrics(counts) + InfoMetrics(identities)
  }

  method Collect(counts: map<string, nat>, identities: map<string, Info>) returns (ret: seq<Metric>)
    ensures Collected(counts, identities, ret)
  {
    var nsMetrics := CollectCounts(counts);
    var infos := CollectInfos(identities);
    AppendDistinct(nsMetrics, infos);
    ret := nsMetrics + infos;
  }

  lemma {:induction false} AppendDistinct(a: seq<Metric>, b: seq<Metric>)
    requires NoDup(a) && NoDup(b)
    requires (forall x | x in Elems(a) :: x.name == COUNT) && (forall x | x in Elems(b) :: x.name == INFO)
    ensures NoDup(a + b) && Elems(a + b) == Elems(a) + Elems(b)
  {
    assert |COUNT| != |INFO|;
    assert forall i | 0 <= i < |a| :: a[i] in Elems(a);
    assert forall i | 0 <= i < |b| :: b[i] in Elems(b);
  }

  lemma {:induction false} SanitizedShape(x: string)
    ensures Sanitize(x) != "" && Sanitize(x)[0] == 'l' && '=' !in Sanitize(x)
  {
  }

  lemma {:induction false} PromLabelsShape(labels: map<string, string>, n: string)
    requires n in PromLabels(labels)
    ensures n != "" && n[0] == 'l' && '=' !in n
  {
    var x :| x in labels && x != NAMESPACE_LABEL && Sanitize(x) == n;
    SanitizedShape(x);
  }

  ghost predicate Sanitised(prom: map<string, string>) {
    forall k | k in prom :: k != "" && k[0] == 'l' && '=' !in k
  }

  /** Sanitised labels cannot stand in the way of the fixed ones, nor these in theirs. */
  lemma {:induction false} AssembledKeeps(prom: map<string, string>, name: string, uid: string, text: string,
                                          ns: Option<string>)
    requires Sanitised(prom)
    ensures var l := Assembled(prom, name, uid, text, ns);
            && Get(l, "identity") == Some(name) && Get(l, "uid") == Some(uid) && Get(l, "security_labels") == Some(text)
            && Get(l, "namespace") == ns
            && (forall k | k in prom :: k in l && l[k] == prom[k])
  {
    var a, b, c, d := "identity", "uid", "security_labels", "namespace";
    assert |a| == 8 && |b| == 3 && |c| == 15 && |d| == 9;
    assert a[0] == 'i' && b[0] == 'u' && c[0] == 's' && d[0] == 'n';
    assert a !in prom && b !in prom && c !in prom && d !in prom;
  }

  lemma {:induction false} AssembledPlain(prom: map<string, string>, name: string, uid: string, text: string,
                                          ns: Option<string>)
    requires Sanitised(prom)
    ensures PlainKeys(Assembled(prom, name, uid, text, ns))
  {
    assert '=' !in "identity" && '=' !in "uid" && '=' !in "security_labels" && '=' !in "namespace";
  }

  lemma {:induction false} PromLabelsSanitised(labels: map<string, string>)
    ensures Sanitised(PromLabels(labels))
  {
    forall k | k in PromLabels(labels) ensures k != "" && k[0] == 'l' && '=' !in k {
      PromLabelsShape(labels, k);
    }
  }

  /** The four fixed labels and the sanitised ones all come through. */
  lemma {:induction false} InfoLabelsKeep(name: string, info: Info)
    ensures var l := InfoLabels(name, info);
            && Get(l, "identity") == Some(name) && Get(l, "uid") == Some(info.uid)
            && Get(l, "security_labels") == Some(Formatted(info.labels))
            && Get(l, "namespace") == Get(info.labels, NAMESPACE_LABEL)
            && (forall k | k in PromLabels(info.labels) :: k in l && l[k] == PromLabels(info.labels)[k])
    ensures PlainKeys(InfoLabels(name, info))
  {
    PromLabelsSanitised(info.labels);
    AssembledKeeps(PromLabels(info.labels), name, info.uid, Formatted(info.labels), Get(info.labels, NAMESPACE_LABEL));
    AssembledPlain(PromLabels(info.labels), name, info.uid, Formatted(info.labels), Get(info.labels, NAMESPACE_LABEL));
  }

  lemma {:induction false} NamesDiffer(scope: string, prefix: string, name: string, l1: map<string, string>,
                                       l2: map<string, string>)
    requires '{' !in scope && '{' !in prefix && '{' !in name && l1 != l2
    requires PlainKeys(l1) && Printable(l1) && PlainKeys(l2) && Printable(l2)
    ensures Rendered(scope, prefix, name, l1) != Rendered(scope, prefix, name, l2)
  {
    if Rendered(scope, prefix, name, l1) == Rendered(scope, prefix, name, l2) {
      RenderInjective(scope, prefix, name, l1, name, l2);
    }
  }

  lemma {:induction false} LabelsDiffer(name1: string, info1: Info, name2: string, info2: Info)
    requires name1 != name2
    ensures InfoLabels(name1, info1) != InfoLabels(name2, info2)
    ensures PlainKeys(InfoLabels(name1, info1)) && PlainKeys(InfoLabels(name2, info2))
  {
    InfoLabelsKeep(name1, info1);
    InfoLabelsKeep(name2, info2);
  }

  lemma {:induction false} InfoIsPlain()
    ensures '{' !in INFO
  {
  }

  /** Two identities never share an identity_info series. */
  lemma {:induction false} SeriesDistinct(scope: string, prefix: string, name1: string, info1: Info,
                                          name2: string, info2: Info)
    requires '{' !in scope && '{' !in prefix && name1 != name2
    requires Printable(InfoLabels(name1, info1)) && Printable(InfoLabels(name2, info2))
    ensures Rendered(scope, prefix, INFO, InfoLabels(name1, info1)) !=
            Rendered(scope, prefix, INFO, InfoLabels(name2, info2))
  {
    LabelsDiffer(name1, info1, name2, info2);
    InfoIsPlain();
    NamesDiffer(scope, prefix, INFO, InfoLabels(name1, info1), InfoLabels(name2, info2));
  }

  /** The labels of a series tell the whole identity: its name, its uid and its security labels. */
  lemma {:induction false} SeriesTellsIdentity(name1: string, info1: Info, name2: string, info2: Info)
    requires Decodable(info1.labels) && Decodable(info2.labels)
    requires InfoLabels(name1, info1) == InfoLabels(name2, info2)
    ensures name1 == name2 && info1 == info2
  {
    InfoLabelsKeep(name1, info1);
    InfoLabelsKeep(name2, info2);
    FormattedDecodes(info1.labels);
    FormattedDecodes(info2.labels);
  }

  lemma {:induction false} FormattedDecodes(labels: map<string, string>)
    requires Decodable(labels)
    ensures Decode(Formatted(labels)) == labels
  {
    DecodeUndoesFormat(labels, SortBy(AnySequence(Bag(labels, labels.Keys)), Same));
  }

  // ---- the text and the metrics, spelled out ----

  lemma {:induction false} EntryMeans(k: string, v: string)
    ensures EntryText(k, "") == k && (v != "" ==> EntryText(k, v) == k + "=" + v)
  {
  }

  lemma {:induction false} FormattedNone()
    ensures Formatted(map[]) == ""
  {
    FormattedIs(map[], []);
  }

  /** One label is its key, with its value behind an equals sign if it has one. */
  lemma {:induction false} FormattedOne(k: string, v: string)
    ensures Formatted(map[k := v]) == if v == "" then k else k + "=" + v
  {
    var labels := map[k := v];
    BagTake(labels, {k}, k);
    assert {k} - {k} == {};
    FormattedIs(labels, [EntryText(k, v)]);
  }

  lemma {:induction false} BagOfTwo(labels: map<string, string>, a: string, b: string)
    requires a != b && labels.Keys == {a, b}
    ensures Bag(labels, labels.Keys) == multiset{EntryText(b, labels[b])} + multiset{EntryText(a, labels[a])}
  {
    BagTake(labels, {a, b}, a);
    assert {a, b} - {a} == {b};
    BagTake(labels, {b}, b);
    assert {b} - {b} == {};
  }

  lemma {:induction false} PairInOrder(x: string, y: string)
    requires Before(x, y)
    ensures Ordered([x, y], Same)
  {
    LessIsBefore(x, y);
    if Less(y, x) {
      LessTrans(x, y, x);
      LessIrreflexive(x);
    }
  }

  lemma {:induction false} JoinTwo(x: string, y: string)
    ensures Join([x, y]) == x + "," + y
  {
    assert [x, y][1..] == [y];
  }

  /** Two entries stand in the order of a dictionary, with a comma between them. */
  lemma {:induction false} FormattedTwo(a: string, v: string, b: string, w: string)
    requires a != b && Before(EntryText(a, v), EntryText(b, w))
    ensures Formatted(map[a := v, b := w]) == EntryText(a, v) + "," + EntryText(b, w)
  {
    var labels := map[a := v, b := w];
    assert labels.Keys == {a, b} && labels[a] == v && labels[b] == w;
    TwoFormat(labels, a, b, EntryText(a, v), EntryText(b, w));
  }

  lemma {:induction false} TwoFormat(labels: map<string, string>, a: string, b: string, x: string, y: string)
    requires a != b && labels.Keys == {a, b} && x == EntryText(a, labels[a]) && y == EntryText(b, labels[b])
    requires Before(x, y)
    ensures Formatted(labels) == x + "," + y
  {
    BagOfTwo(labels, a, b);
    PairInOrder(x, y);
    assert multiset([x, y]) == multiset{y} + multiset{x};
    FormattedIs(labels, [x, y]);
    JoinTwo(x, y);
  }

  /** What Collect returns: a count for each namespace and an info for each identity, as many as there are. */
  lemma {:induction false} CollectedMeans(counts: map<string, nat>, identities: map<string, Info>, ms: seq<Metric>)
    requires Collected(counts, identities, ms)
    ensures forall ns | ns in counts ::
              Metric("identity_count", map["namespace" := ns], counts[ns] as real) in ms
    ensures forall name | name in identities :: exists x | x in ms :: IsInfo(x, name, identities[name])
    ensures forall x | x in ms ::
              || (exists ns | ns in counts :: x == Metric("identity_count", map["namespace" := ns], counts[ns] as real))
              || (exists name | name in identities :: IsInfo(x, name, identities[name]))
  {
    forall ns | ns in counts ensures Metric("identity_count", map["namespace" := ns], counts[ns] as real) in ms {
      assert CountFor(counts)(ns) in Elems(ms);
    }
    forall name | name in identities ensures exists x | x in ms :: IsInfo(x, name, identities[name]) {
      assert InfoFor(identities)(name) in Elems(ms);
      InfoIs(identities, name);
    }
    forall x | x in ms
      ensures (exists ns | ns in counts :: x == Metric("identity_count", map["namespace" := ns], counts[ns] as real)) ||
              (exists name | name in identities :: IsInfo(x, name, identities[name]))
    {
      assert x in Elems(ms);
      if x in InfoMetrics(identities) {
        var name :| name in identities && x == InfoFor(identities)(name);
        InfoIs(identities, name);
      } else {
        var ns :| ns in counts && x == CountFor(counts)(ns);
      }
    }
  }

  /** An identity_info metric with value 1, naming the identity, its uid and its labels as one text. */
  ghost predicate IsInfo(x: Metric, name: string, info: Info) {
    && x.name == "identity_info" && x.value == 1.0
    && Get(x.labels, "identity") == Some(name) && Get(x.labels, "uid") == Some(info.uid)
    && Get(x.labels, "security_labels") == Some(Formatted(info.labels))
    && Get(x.labels, "namespace") == Get(info.labels, "k8s:io.kubernetes.pod.namespace")
  }

  lemma {:induction false} InfoIs(identities: map<string, Info>, name: string)
    requires name in identities
    ensures IsInfo(InfoFor(identities)(name), name, identities[name])
  {
    InfoLabelsKeep(name, identities[name]);
  }
}
