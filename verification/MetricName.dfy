/** neco-exporter's metric names: the printer, and a parser that undoes it. */
module MetricName {
  import opened Text

  /** What a collector returns. */
  datatype Metric = Metric(name: string, labels: map<string, string>, value: real)

  /** Characters that the Prometheus text format would need escaped in a label value. */
  predicate NeedsEscape(v: string): (b: bool)
    ensures b <==> '\\' in v || '"' in v || '\n' in v
  {
    exists i | 0 <= i < |v| :: v[i] in {'\\', '"', '\n'}
  }

  ghost predicate Printable(labels: map<string, string>) {
    forall k | k in labels :: !NeedsEscape(labels[k])
  }

  function Item(k: string, v: string): string {
    k + "=\"" + v + "\""
  }

  /** `,k="v"` for each key in turn. */
  ghost function Items(ks: seq<string>, labels: map<string, string>): string
    requires forall k | k in ks :: k in labels
  {
    if ks == [] then "" else "," + Item(ks[0], labels[ks[0]]) + Items(ks[1..], labels)
  }

  ghost function Suffix(labels: map<string, string>): string {
    if labels == map[] then "" else "{" + Items(SortedKeys(labels.Keys), labels)[1..] + "}"
  }

  function Stem(scope: string, prefix: string): string {
    "neco_" + scope + "_" + prefix + "_"
  }

  ghost function Rendered(scope: string, prefix: string, name: string, labels: map<string, string>): string {
    Stem(scope, prefix) + name + Suffix(labels)
  }

  /** None stands for the panic on a value that would need escaping. */
  method BuildMetricName(scope: string, prefix: string, name: string, labels: map<string, string>)
      returns (r: Option<string>)
    ensures r.Some? <==> Printable(labels)
    ensures r.Some? ==> r.value == Rendered(scope, prefix, name, labels)
  {
    var lbls := "";
    if |labels| > 0 {
      var keys := Enumerate(labels.Keys);
      SortedKeysUnique(keys, labels.Keys);
      var items := FormatItems(SortBy(keys, Same), labels);
      if items.None? { return None; }
      NonEmptyKeys(labels);
      lbls := "{" + items.value[1..] + "}";
    }
    return Some("neco_" + scope + "_" + prefix + "_" + name + lbls);
  }

  /** The loop over the sorted keys. */
  method FormatItems(ks: seq<string>, labels: map<string, string>) returns (r: Option<string>)
    requires Elems(ks) == labels.Keys
    ensures r.Some? <==> Printable(labels)
    ensures r.Some? ==> (forall k | k in ks :: k in labels) && r.value == Items(ks, labels)
  {
    assert forall k :: k in ks <==> k in Elems(ks);
    var lbls := "";
    for n := 0 to |ks|
      invariant forall i | 0 <= i < n :: !NeedsEscape(labels[ks[i]])
      invariant lbls == Items(ks[..n], labels)
    {
      var v := labels[ks[n]];
      if NeedsEscape(v) { return None; }
      ItemsSnoc(ks[..n], ks[n], labels);
      assert ks[..n + 1] == ks[..n] + [ks[n]];
      lbls := lbls + "," + Item(ks[n], v);
    }
    assert ks[..|ks|] == ks;
    return Some(lbls);
  }

  lemma {:induction false} NonEmptyKeys(labels: map<string, string>)
    requires labels != map[]
    ensures SortedKeys(labels.Keys) != [] && |Items(SortedKeys(labels.Keys), labels)| > 0
  {
    var ks := SortedKeys(labels.Keys);
    assert forall k :: k in ks <==> k in Elems(ks);
    var k :| k in labels;
    assert k in ks;
  }

  lemma {:induction false} ItemsSnoc(ks: seq<string>, k: string, labels: map<string, string>)
    requires forall x | x in ks + [k] :: x in labels
    ensures forall x | x in ks :: x in labels
    ensures Items(ks + [k], labels) == Items(ks, labels) + "," + Item(k, labels[k])
  {
    assert forall x | x in ks :: x in ks + [k];
    if ks == [] {
      assert [k][1..] == [] && ks + [k] == [k];
    } else {
      assert (ks + [k])[1..] == ks[1..] + [k];
      ItemsSnoc(ks[1..], k, labels);
    }
  }

  // ---- reading a name back ----

  /** The labels in `k="v",...,k="v"}`. */
  function ParseItems(s: string): Option<map<string, string>>
    decreases |s|
  {
    var i := IndexOf(s, '=');
    if i + 2 > |s| || s[i + 1] != '"' then None
    else
      var t := s[i + 2..];
      var j := IndexOf(t, '"');
      if j == |t| then None
      else
        var u := t[j + 1..];
        if u == "}" then Some(map[s[..i] := t[..j]])
        else if u == "" || u[0] != ',' then None
        else
          var rest := ParseItems(u[1..]);
          if rest.None? then None else Some(rest.value[s[..i] := t[..j]])
  }

  /** A metric name and its labels. */
  function Parse(s: string): Option<(string, map<string, string>)> {
    var i := IndexOf(s, '{');
    if i == |s| then Some((s, map[]))
    else
      var labels := ParseItems(s[i + 1..]);
      if labels.None? then None else Some((s[..i], labels.value))
  }

  ghost predicate PlainKeys(labels: map<string, string>) {
    forall k | k in labels :: '=' !in k
  }

  lemma {:induction false} ParseItem(k: string, v: string, more: string)
    requires '=' !in k && '"' !in v
    ensures ParseItems(Item(k, v) + more) ==
            if more == "}" then Some(map[k := v])
            else if more == "" || more[0] != ',' || ParseItems(more[1..]).None? then None
            else Some(ParseItems(more[1..]).value[k := v])
  {
    var s := Item(k, v) + more;
    var after := ['"'] + v + ['"'] + more;
    assert s == k + ['='] + after;
    IndexOfAfter(k, '=', after);
    var t := s[|k| + 2..];
    assert t == v + ['"'] + more;
    IndexOfAfter(v, '"', more);
    assert s[..|k|] == k && t[..|v|] == v && t[|v| + 1..] == more;
  }

  lemma {:induction false} ParseMore(k: string, v: string, u: string, m: map<string, string>)
    requires '=' !in k && '"' !in v && ParseItems(u) == Some(m)
    ensures ParseItems(Item(k, v) + ("," + u)) == Some(m[k := v])
  {
    var more := "," + u;
    assert more[1..] == u;
    ParseItem(k, v, more);
  }

  ghost function Restricted(labels: map<string, string>, ks: seq<string>): map<string, string>
    requires forall k | k in ks :: k in labels
  {
    map k | k in ks :: labels[k]
  }

  /** What stands between the braces. */
  ghost function Inside(ks: seq<string>, labels: map<string, string>): string
    requires ks != [] && forall k | k in ks :: k in labels
  {
    Items(ks, labels)[1..] + "}"
  }

  lemma {:induction false} InsideSplits(ks: seq<string>, labels: map<string, string>)
    requires ks != [] && forall k | k in ks :: k in labels
    ensures Inside(ks, labels) == Item(ks[0], labels[ks[0]]) +
              (if |ks| == 1 then "}" else "," + Inside(ks[1..], labels))
  {
    if |ks| > 1 {
      var more := Items(ks[1..], labels);
      assert more == "," + more[1..];
    }
  }

  lemma {:induction false} RestrictedSplits(ks: seq<string>, labels: map<string, string>)
    requires ks != [] && forall k | k in ks :: k in labels
    ensures Restricted(labels, ks) ==
            (if |ks| == 1 then map[] else Restricted(labels, ks[1..]))[ks[0] := labels[ks[0]]]
  {
    assert forall k :: k in ks <==> k == ks[0] || k in ks[1..];
  }

  lemma {:induction false} ParseItemsUndoes(ks: seq<string>, labels: map<string, string>)
    requires ks != [] && forall k | k in ks :: k in labels
    requires PlainKeys(labels) && Printable(labels)
    ensures ParseItems(Inside(ks, labels)) == Some(Restricted(labels, ks))
  {
    InsideSplits(ks, labels);
    RestrictedSplits(ks, labels);
    var k, v := ks[0], labels[ks[0]];
    assert '"' !in v by { assert !NeedsEscape(v); }
    if |ks| == 1 {
      ParseItem(k, v, "}");
    } else {
      ParseItemsUndoes(ks[1..], labels);
      ParseMore(k, v, Inside(ks[1..], labels), Restricted(labels, ks[1..]));
    }
  }

  lemma {:induction false} ParseAt(full: string, body: string)
    requires '{' !in full
    ensures Parse(full + ['{'] + body) ==
            if ParseItems(body).None? then None else Some((full, ParseItems(body).value))
  {
    var s := full + ['{'] + body;
    IndexOfAfter(full, '{', body);
    assert s[|full| + 1..] == body && s[..|full|] == full;
  }

  /** The printer is undone: name and labels come back, whatever the order of the label map was. */
  lemma {:induction false} ParseUndoesRender(scope: string, prefix: string, name: string, labels: map<string, string>)
    requires '{' !in scope && '{' !in prefix && '{' !in name
    requires PlainKeys(labels) && Printable(labels)
    ensures Parse(Rendered(scope, prefix, name, labels)) == Some((Stem(scope, prefix) + name, labels))
  {
    NoBrace(scope, prefix, name);
    ParseFull(Stem(scope, prefix) + name, labels);
  }

  lemma NoBrace(scope: string, prefix: string, name: string)
    requires '{' !in scope && '{' !in prefix && '{' !in name
    ensures '{' !in Stem(scope, prefix) + name
  {
  }

  lemma {:induction false} ParseFull(full: string, labels: map<string, string>)
    requires '{' !in full && PlainKeys(labels) && Printable(labels)
    ensures Parse(full + Suffix(labels)) == Some((full, labels))
  {
    if labels == map[] {
      assert full + Suffix(labels) == full;
      assert IndexOf(full, '{') == |full|;
    } else {
      var ks := SuffixInside(labels);
      ParseItemsUndoes(ks, labels);
      assert full + Suffix(labels) == full + ['{'] + Inside(ks, labels);
      ParseAt(full, Inside(ks, labels));
    }
  }

  lemma {:induction false} SuffixInside(labels: map<string, string>) returns (ks: seq<string>)
    requires labels != map[]
    ensures ks != [] && forall k | k in ks :: k in labels
    ensures Suffix(labels) == ['{'] + Inside(ks, labels) && Restricted(labels, ks) == labels
  {
    ks := SortedKeys(labels.Keys);
    NonEmptyKeys(labels);
    assert forall k :: k in ks <==> k in Elems(ks);
  }

  /** Two series have one name only if they agree in stem, metric name and labels. */
  lemma {:induction false} RenderInjective(scope: string, prefix: string, name1: string, labels1: map<string, string>,
                        name2: string, labels2: map<string, string>)
    requires '{' !in scope && '{' !in prefix && '{' !in name1 && '{' !in name2
    requires PlainKeys(labels1) && Printable(labels1) && PlainKeys(labels2) && Printable(labels2)
    requires Rendered(scope, prefix, name1, labels1) == Rendered(scope, prefix, name2, labels2)
    ensures name1 == name2 && labels1 == labels2
  {
    ParseUndoesRender(scope, prefix, name1, labels1);
    ParseUndoesRender(scope, prefix, name2, labels2);
    var stem := Stem(scope, prefix);
    assert name1 == (stem + name1)[|stem|..] && name2 == (stem + name2)[|stem|..];
  }

  /** Names under different underscore-free prefixes never meet. */
  lemma {:induction false} StemsDisjoint(scope: string, p: string, q: string, s: string)
    requires '_' !in p && '_' !in q && p != q
    ensures !(Stem(scope, p) <= s && Stem(scope, q) <= s)
  {
    var head := "neco_" + scope + "_";
    if Stem(scope, p) <= s && Stem(scope, q) <= s {
      var rest := s[|head|..];
      assert p + "_" <= rest && q + "_" <= rest;
      PrefixesMeet(p, q, rest);
    }
  }

  lemma {:induction false} PrefixesMeet(p: string, q: string, rest: string)
    requires '_' !in p && '_' !in q && p + "_" <= rest && q + "_" <= rest
    ensures p == q
  {
    var a, b := rest[|p| + 1..], rest[|q| + 1..];
    assert rest == p + ['_'] + a && rest == q + ['_'] + b;
    IndexOfAfter(p, '_', a);
    IndexOfAfter(q, '_', b);
    assert p == rest[..|p|] && q == rest[..|q|];
  }

  // ---- the printed form, spelled out ----

  /** The items with commas between them. */
  ghost function CommaList(ks: seq<string>, labels: map<string, string>): string
    requires ks != [] && forall k | k in ks :: k in labels
  {
    var first := ks[0] + "=\"" + labels[ks[0]] + "\"";
    if |ks| == 1 then first else first + "," + CommaList(ks[1..], labels)
  }

  /** The keys in the order of a dictionary, each once. */
  ghost predicate InOrder(ks: seq<string>, labels: map<string, string>) {
    && (forall k :: k in ks <==> k in labels)
    && (forall i, j | 0 <= i < j < |ks| :: Before(ks[i], ks[j]))
  }

  lemma {:induction false} CommaListIs(ks: seq<string>, labels: map<string, string>)
    requires ks != [] && forall k | k in ks :: k in labels
    ensures Items(ks, labels) == "," + CommaList(ks, labels)
  {
    if |ks| == 1 {
      assert ks[1..] == [];
    } else {
      CommaListIs(ks[1..], labels);
    }
  }

  lemma {:induction false} OrderedKeys(ks: seq<string>, labels: map<string, string>)
    requires InOrder(ks, labels)
    ensures SortedKeys(labels.Keys) == ks
  {
    var sorted := SortedKeys(labels.Keys);
    forall i, j | 0 <= i < j < |ks| ensures Less(Same(ks[i]), Same(ks[j])) {
      LessIsBefore(ks[i], ks[j]);
    }
    forall k ensures k in ks <==> k in sorted {
      assert k in sorted <==> k in Elems(sorted);
    }
    AscendingUnique(ks, sorted, Same);
  }

  /** A metric without labels is its scope, prefix and name. */
  lemma {:induction false} RenderedBare(scope: string, prefix: string, name: string)
    ensures Rendered(scope, prefix, name, map[]) == "neco_" + scope + "_" + prefix + "_" + name
  {
  }

  /** One with labels has them behind, in order, in braces. */
  lemma {:induction false} RenderedWith(scope: string, prefix: string, name: string, labels: map<string, string>,
                                        ks: seq<string>)
    requires ks != [] && InOrder(ks, labels)
    ensures Rendered(scope, prefix, name, labels) ==
            "neco_" + scope + "_" + prefix + "_" + name + "{" + CommaList(ks, labels) + "}"
  {
    assert ks[0] in labels;
    OrderedKeys(ks, labels);
    CommaListIs(ks, labels);
    assert Suffix(labels) == "{" + CommaList(ks, labels) + "}";
    Regrouped("neco_" + scope + "_" + prefix + "_" + name, CommaList(ks, labels));
  }

  lemma {:induction false} Regrouped(a: string, b: string)
    ensures a + ("{" + b + "}") == a + "{" + b + "}"
  {
  }

  lemma {:induction false} RenderedWithOne(scope: string, prefix: string, name: string, k: string, v: string)
    ensures Rendered(scope, prefix, name, map[k := v]) ==
            "neco_" + scope + "_" + prefix + "_" + name + "{" + (k + "=\"" + v + "\"") + "}"
  {
    RenderedWith(scope, prefix, name, map[k := v], [k]);
  }
}
