/** machines-endpoints' port flags: "port:name" specs into a list sorted by name. */
module NamedPorts {
  import opened Text

  datatype NamedPort = NamedPort(name: string, port: nat)

  function NameOf(p: NamedPort): string { p.name }

  /** A label as in section 2.1 of RFC 1123, in lower case. */
  predicate IsDNS1123Label(s: string) {
    && 1 <= |s| <= 63
    && (forall i | 0 <= i < |s| :: 'a' <= s[i] <= 'z' || '0' <= s[i] <= '9' || s[i] == '-')
    && s[0] != '-' && s[|s| - 1] != '-'
  }

  /** strconv.ParseUint(s, 10, 16). */
  function ParseUint16(s: string): Option<nat> {
    if s == "" || !AllDigits(s) || NumberOf(s) > 65535 then None else Some(NumberOf(s))
  }

  function ParseSpec(spec: string): Option<NamedPort> {
    var i := IndexOf(spec, ':');
    if i == |spec| then None
    else
      var port, name := ParseUint16(spec[..i]), spec[i + 1..];
      if port.None? || port.value == 0 || !IsDNS1123Label(name) then None else Some(NamedPort(name, port.value))
  }

  // ---- what is accepted, for any way of reading one spec ----

  ghost function ValidBy(parse: string -> Option<NamedPort>): string -> bool {
    spec => parse(spec).Some?
  }

  ghost function NameBy(parse: string -> Option<NamedPort>): string -> string {
    spec => if parse(spec).Some? then parse(spec).value.name else ""
  }

  ghost function PortBy(parse: string -> Option<NamedPort>): string -> nat {
    spec => if parse(spec).Some? then parse(spec).value.port else 0
  }

  ghost predicate All(xs: seq<string>, p: string -> bool) {
    forall i | 0 <= i < |xs| :: p(xs[i])
  }

  ghost predicate AcceptableBy(specs: seq<string>, parse: string -> Option<NamedPort>) {
    All(specs, ValidBy(parse)) && DistinctKeys(specs, NameBy(parse)) && DistinctKeys(specs, PortBy(parse))
  }

  ghost predicate ParsedBy(specs: seq<string>, ports: seq<NamedPort>, parse: string -> Option<NamedPort>) {
    |ports| == |specs| && forall i | 0 <= i < |specs| :: parse(specs[i]) == Some(ports[i])
  }

  ghost predicate ResultBy(specs: seq<string>, ports: seq<NamedPort>, parse: string -> Option<NamedPort>) {
    && |ports| == |specs| && Ascending(ports, NameOf)
    && forall p :: p in ports <==> exists spec | spec in specs :: parse(spec) == Some(p)
  }

  /** Every spec is valid, and names and ports are each distinct. */
  ghost predicate Acceptable(specs: seq<string>) {
    AcceptableBy(specs, ParseSpec)
  }

  /** The ports of the specs, in the one order in which their names ascend. */
  ghost predicate IsResult(specs: seq<string>, ports: seq<NamedPort>) {
    ResultBy(specs, ports, ParseSpec)
  }

  // ---- the program ----

  method ParseNamedPorts(specs: seq<string>) returns (r: Option<seq<NamedPort>>)
    ensures r.Some? <==> Acceptable(specs)
    ensures r.Some? ==> IsResult(specs, r.value)
  {
    assert Reads(ParseSpec) by { assert forall spec: string :: SameReading(ParseSpec, spec); }
    r := ParseAll(specs, ParseSpec);
  }

  ghost predicate SameReading(parse: string -> Option<NamedPort>, spec: string) {
    parse(spec) == ParseSpec(spec)
  }

  ghost predicate Reads(parse: string -> Option<NamedPort>) {
    forall spec: string :: SameReading(parse, spec)
  }

  /** The loop over the specs. */
  method ParseAll(specs: seq<string>, ghost parse: string -> Option<NamedPort>) returns (r: Option<seq<NamedPort>>)
    requires Reads(parse)
    ensures r.Some? <==> AcceptableBy(specs, parse)
    ensures r.Some? ==> ResultBy(specs, r.value, parse)
  {
    var seenPorts: set<nat> := {};
    var seenNames: set<string> := {};
    var ports: seq<NamedPort> := [];
    for n := 0 to |specs|
      invariant ParsedBy(specs[..n], ports, parse) && AcceptableBy(specs[..n], parse)
      invariant seenNames == set p | p in ports :: p.name
      invariant seenPorts == set p | p in ports :: p.port
    {
      var parsed := CheckSpec(specs[n], parse);
      OneMoreSpec(specs, n, ports, parse);
      if parsed.None? { return None; }
      var NamedPort(name, port) := parsed.value;
      if name in seenNames { return None; }
      if port in seenPorts { return None; }
      seenNames := seenNames + {name};
      seenPorts := seenPorts + {port};
      ports := ports + [NamedPort(name, port)];
    }
    assert specs[..|specs|] == specs;
    SortedResult(specs, ports, parse);
    return Some(SortBy(ports, NameOf));
  }

  /** The checks on one spec. */
  method CheckSpec(spec: string, ghost parse: string -> Option<NamedPort>) returns (r: Option<NamedPort>)
    requires Reads(parse)
    ensures r == parse(spec)
  {
    assert SameReading(parse, spec);
    var i := IndexOf(spec, ':');
    if i == |spec| { return None; }
    var port, name := ParseUint16(spec[..i]), spec[i + 1..];
    if port.None? { return None; }
    if port.value == 0 { return None; }
    if !IsDNS1123Label(name) { return None; }
    return Some(NamedPort(name, port.value));
  }

  /** One more spec is acceptable if it is valid and repeats no name and no port; otherwise none of it is. */
  lemma {:induction false} OneMoreSpec(specs: seq<string>, n: nat, ports: seq<NamedPort>,
                                       parse: string -> Option<NamedPort>)
    requires n < |specs| && ParsedBy(specs[..n], ports, parse) && AcceptableBy(specs[..n], parse)
    ensures if parse(specs[n]).Some? && NewTo(ports, parse(specs[n]).value)
            then AcceptableBy(specs[..n + 1], parse) && ParsedBy(specs[..n + 1], ports + [parse(specs[n]).value], parse)
            else !AcceptableBy(specs, parse)
  {
    AllSnoc(specs, n, ValidBy(parse));
    DistinctSnoc(specs, n, NameBy(parse));
    DistinctSnoc(specs, n, PortBy(parse));
    if parse(specs[n]).Some? {
      var p, front := parse(specs[n]).value, specs[..n];
      assert forall i | 0 <= i < n :: front[i] == specs[i];
      assert forall i | 0 <= i < n :: parse(specs[i]) == Some(ports[i]);
      if q :| q in ports && (q.name == p.name || q.port == p.port) {
        var i :| 0 <= i < n && ports[i] == q;
        assert parse(specs[i]) == Some(q);
      } else {
        assert forall i | 0 <= i < n :: ports[i] in ports;
      }
    }
  }

  ghost predicate NewTo(ports: seq<NamedPort>, p: NamedPort) {
    forall q | q in ports :: q.name != p.name && q.port != p.port
  }

  lemma {:induction false} AllSnoc(xs: seq<string>, n: nat, p: string -> bool)
    requires n < |xs| && All(xs[..n], p)
    ensures All(xs[..n + 1], p) <==> p(xs[n])
    ensures All(xs, p) ==> p(xs[n])
  {
    var front, longer := xs[..n], xs[..n + 1];
    assert forall i | 0 <= i <= n :: longer[i] == if i < n then front[i] else xs[n];
  }

  lemma {:induction false} DistinctSnoc<K>(xs: seq<string>, n: nat, key: string -> K)
    requires n < |xs| && DistinctKeys(xs[..n], key)
    ensures DistinctKeys(xs[..n + 1], key) <==> forall i | 0 <= i < n :: key(xs[i]) != key(xs[n])
    ensures DistinctKeys(xs, key) ==> DistinctKeys(xs[..n + 1], key)
  {
    var front, longer := xs[..n], xs[..n + 1];
    assert forall i | 0 <= i < n :: front[i] == xs[i];
    assert forall i | 0 <= i <= n :: longer[i] == xs[i];
    if forall i | 0 <= i < n :: key(xs[i]) != key(xs[n]) {
      forall i, j | 0 <= i < j < |longer| ensures key(longer[i]) != key(longer[j]) {
        assert j < n ==> key(front[i]) != key(front[j]);
      }
    } else {
      var i :| 0 <= i < n && key(xs[i]) == key(xs[n]);
      assert key(longer[i]) == key(longer[n]);
    }
  }

  lemma {:induction false} SortedResult(specs: seq<string>, ports: seq<NamedPort>, parse: string -> Option<NamedPort>)
    requires AcceptableBy(specs, parse) && ParsedBy(specs, ports, parse)
    ensures ResultBy(specs, SortBy(ports, NameOf), parse)
  {
    var sorted := SortBy(ports, NameOf);
    forall i, j | 0 <= i < j < |ports| ensures NameOf(ports[i]) != NameOf(ports[j]) {
      assert NameBy(parse)(specs[i]) != NameBy(parse)(specs[j]);
    }
    DistinctAcrossMultisets(ports, sorted, NameOf);
    OrderedDistinctIsAscending(sorted, NameOf);
    assert |sorted| == |multiset(sorted)| == |multiset(ports)| == |ports|;
    forall p ensures p in sorted <==> exists spec | spec in specs :: parse(spec) == Some(p) {
      assert p in multiset(sorted) <==> p in multiset(ports);
      if p in ports {
        var i :| 0 <= i < |ports| && ports[i] == p;
        assert specs[i] in specs;
      }
    }
  }

  /** The result is determined by the set of specs. */
  lemma {:induction false} ResultUnique(specs: seq<string>, others: seq<string>, a: seq<NamedPort>, b: seq<NamedPort>)
    requires IsResult(specs, a) && IsResult(others, b) && forall x :: x in specs <==> x in others
    ensures a == b
  {
    ResultUniqueBy(specs, others, a, b, ParseSpec);
  }

  lemma {:induction false} ResultUniqueBy(specs: seq<string>, others: seq<string>, a: seq<NamedPort>, b: seq<NamedPort>,
                                          parse: string -> Option<NamedPort>)
    requires ResultBy(specs, a, parse) && ResultBy(others, b, parse) && forall x :: x in specs <==> x in others
    ensures a == b
  {
    forall p ensures p in a <==> p in b {
    }
    AscendingUnique(a, b, NameOf);
  }

  /** The order of the flags does not matter: any permutation succeeds alike and gives the same list. */
  lemma {:induction false} OrderIrrelevant(specs: seq<string>, others: seq<string>)
    requires multiset(specs) == multiset(others)
    ensures Acceptable(specs) <==> Acceptable(others)
    ensures forall a, b | IsResult(specs, a) && IsResult(others, b) :: a == b
  {
    forall x ensures x in specs <==> x in others {
      assert x in multiset(specs) <==> x in multiset(others);
    }
    if Acceptable(specs) { AcceptablePermutes(specs, others, ParseSpec); }
    if Acceptable(others) { AcceptablePermutes(others, specs, ParseSpec); }
    forall a, b | IsResult(specs, a) && IsResult(others, b) ensures a == b {
      ResultUnique(specs, others, a, b);
    }
  }

  lemma {:induction false} AcceptablePermutes(specs: seq<string>, others: seq<string>,
                                              parse: string -> Option<NamedPort>)
    requires multiset(specs) == multiset(others) && AcceptableBy(specs, parse)
    ensures AcceptableBy(others, parse)
  {
    DistinctAcrossMultisets(specs, others, NameBy(parse));
    DistinctAcrossMultisets(specs, others, PortBy(parse));
    forall i | 0 <= i < |others| ensures ValidBy(parse)(others[i]) {
      assert others[i] in multiset(specs);
    }
  }

  // ---- which specs are valid ----

  /** A number from 1 to 65535, a colon, and a name of lower-case letters, digits and inner dashes. */
  ghost predicate IsSpec(spec: string, name: string, port: nat) {
    && (exists digits :: spec == digits + ":" + name && digits != "" && AllDigits(digits) && NumberOf(digits) == port)
    && 1 <= port <= 65535 && 1 <= |name| <= 63
    && (forall c | c in name :: 'a' <= c <= 'z' || '0' <= c <= '9' || c == '-')
    && name[0] != '-' && name[|name| - 1] != '-'
  }

  lemma {:induction false} SpecMeans(spec: string, name: string, port: nat)
    ensures ParseSpec(spec) == Some(NamedPort(name, port)) <==> IsSpec(spec, name, port)
  {
    if ParseSpec(spec) == Some(NamedPort(name, port)) { ParsedIsSpec(spec, name, port); }
    if IsSpec(spec, name, port) {
      var digits :| spec == digits + ":" + name && digits != "" && AllDigits(digits) && NumberOf(digits) == port;
      SpecIsParsed(digits, name, port);
    }
  }

  lemma {:induction false} ParsedIsSpec(spec: string, name: string, port: nat)
    requires ParseSpec(spec) == Some(NamedPort(name, port))
    ensures IsSpec(spec, name, port)
  {
    var i := IndexOf(spec, ':');
    assert spec == spec[..i] + ":" + spec[i + 1..];
    forall c | c in name ensures 'a' <= c <= 'z' || '0' <= c <= '9' || c == '-' {
      var j :| 0 <= j < |name| && name[j] == c;
    }
  }

  lemma {:induction false} SpecIsParsed(digits: string, name: string, port: nat)
    requires digits != "" && AllDigits(digits) && NumberOf(digits) == port && 1 <= port <= 65535
    requires 1 <= |name| <= 63 && name[0] != '-' && name[|name| - 1] != '-'
    requires forall c | c in name :: 'a' <= c <= 'z' || '0' <= c <= '9' || c == '-'
    ensures ParseSpec(digits + ":" + name) == Some(NamedPort(name, port))
  {
    LabelIs(name);
    CutAtColon(digits, name);
  }

  lemma {:induction false} LabelIs(name: string)
    requires 1 <= |name| <= 63 && name[0] != '-' && name[|name| - 1] != '-'
    requires forall c | c in name :: 'a' <= c <= 'z' || '0' <= c <= '9' || c == '-'
    ensures IsDNS1123Label(name)
  {
    assert forall j | 0 <= j < |name| :: name[j] in name;
  }

  lemma {:induction false} CutAtColon(digits: string, name: string)
    requires AllDigits(digits)
    ensures var spec, i := digits + ":" + name, IndexOf(digits + ":" + name, ':');
            i == |digits| < |spec| && spec[..i] == digits && spec[i + 1..] == name
  {
    assert ':' !in digits;
    assert digits + ":" + name == digits + [':'] + name;
    IndexOfAfter(digits, ':', name);
  }

  /** The result stands in the order of a dictionary. */
  lemma {:induction false} ResultInOrder(specs: seq<string>, ports: seq<NamedPort>)
    requires IsResult(specs, ports)
    ensures forall i, j | 0 <= i < j < |ports| :: Before(ports[i].name, ports[j].name)
  {
    forall i, j | 0 <= i < j < |ports| ensures Before(ports[i].name, ports[j].name) {
      assert Less(NameOf(ports[i]), NameOf(ports[j]));
      LessIsBefore(ports[i].name, ports[j].name);
    }
  }
}
