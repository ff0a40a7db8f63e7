/** The BMC name map: machines-endpoints writes it, bmc-reverse-proxy decodes host names against it. */
module BmcResolve {
  import opened Text

  datatype Machine = Machine(
    serial: string,
    ipv4: seq<string>,
    rack: nat,
    indexInRack: nat,
    role: string,
    bmcIPv4: string)

  predicate IsBootServer(m: Machine) { m.role == "boot" }

  predicate Eligible(m: Machine) { m.bmcIPv4 != "" && m.ipv4 != [] }

  function Hostname(m: Machine): string {
    if IsBootServer(m) then "boot-" + Decimal(m.rack)
    else "rack" + Decimal(m.rack) + "-" + (m.role + Decimal(m.indexInRack))
  }

  function Dashed(ip: string): string {
    seq(|ip|, i requires 0 <= i < |ip| => if ip[i] == '.' then '-' else ip[i])
  }

  // ---- the map ----

  /** rackR-roleI, or boot-R for a boot server, with R and I in decimal. */
  ghost predicate IsHostname(m: Machine, k: string) {
    if m.role == "boot" then exists r :: Numeral(r, m.rack) && k == "boot-" + r
    else exists r, i :: Numeral(r, m.rack) && Numeral(i, m.indexInRack) && k == "rack" + r + "-" + m.role + i
  }

  /** An address with dashes for dots. */
  ghost predicate IsDashed(ip: string, k: string) {
    |k| == |ip| && forall j | 0 <= j < |k| :: k[j] == if ip[j] == '.' then '-' else ip[j]
  }

  /** The names of a machine in the map: it needs a BMC and a node address, and its first address counts. */
  ghost predicate Claims(m: Machine, k: string) {
    m.bmcIPv4 != "" && m.ipv4 != [] && (IsHostname(m, k) || IsDashed(m.ipv4[0], k) || k == m.serial)
  }

  lemma {:induction false} HostnameIs(m: Machine, k: string)
    ensures IsHostname(m, k) <==> k == Hostname(m)
  {
    NumeralIff(Decimal(m.rack), m.rack);
    NumeralIff(Decimal(m.indexInRack), m.indexInRack);
    if m.role == "boot" {
      if r :| Numeral(r, m.rack) && k == "boot-" + r { NumeralIff(r, m.rack); }
    } else {
      RackNameIs(Decimal(m.rack), m.role, Decimal(m.indexInRack));
      if r, i :| Numeral(r, m.rack) && Numeral(i, m.indexInRack) && k == "rack" + r + "-" + m.role + i {
        NumeralIff(r, m.rack);
        NumeralIff(i, m.indexInRack);
      }
    }
  }

  lemma {:induction false} RackNameIs(r: string, role: string, i: string)
    ensures "rack" + r + "-" + role + i == "rack" + r + "-" + (role + i)
  {
  }

  lemma {:induction false} ClaimsAre(m: Machine, k: string)
    ensures Claims(m, k) <==> Eligible(m) && (k == Hostname(m) || k == Dashed(m.ipv4[0]) || k == m.serial)
  {
    HostnameIs(m, k);
    if m.ipv4 != [] && IsDashed(m.ipv4[0], k) { assert k == Dashed(m.ipv4[0]); }
  }

  /** The BMC address of the last machine that claims a name. */
  ghost function Owner(machines: seq<Machine>, k: string): Option<string> {
    if machines == [] then None
    else if Claims(machines[|machines| - 1], k) then Some(machines[|machines| - 1].bmcIPv4)
    else Owner(machines[..|machines| - 1], k)
  }

  /** A later machine takes a name from an earlier one. */
  lemma {:induction false} OwnerIsLast(machines: seq<Machine>, k: string, i: nat)
    requires i < |machines| && Claims(machines[i], k) && forall j | i < j < |machines| :: !Claims(machines[j], k)
    ensures Owner(machines, k) == Some(machines[i].bmcIPv4)
  {
    if i == |machines| - 1 {
    } else {
      OwnerIsLast(machines[..|machines| - 1], k, i);
    }
  }

  method BmcReverseProxyConfigMapData(machines: seq<Machine>) returns (addresses: map<string, string>)
    ensures forall k: string :: Get(addresses, k) == Owner(machines, k)
  {
    addresses := map[];
    for n := 0 to |machines|
      invariant forall k: string :: Get(addresses, k) == Owner(machines[..n], k)
    {
      assert machines[..n + 1][..n] == machines[..n];
      var machine := machines[n];
      if machine.bmcIPv4 != "" && |machine.ipv4| > 0 {
        var hostname;
        if IsBootServer(machine) {
          hostname := "boot-" + Decimal(machine.rack);
        } else {
          hostname := "rack" + Decimal(machine.rack) + "-" + (machine.role + Decimal(machine.indexInRack));
        }
        assert hostname == Hostname(machine);
        forall k: string
          ensures Claims(machine, k) <==> k == hostname || k == Dashed(machine.ipv4[0]) || k == machine.serial
        {
          ClaimsAre(machine, k);
        }
        addresses := addresses[hostname := machine.bmcIPv4];
        addresses := addresses[Dashed(machine.ipv4[0]) := machine.bmcIPv4];
        addresses := addresses[machine.serial := machine.bmcIPv4];
      }
    }
    assert machines[..|machines|] == machines;
  }

  // ---- the decoder ----

  /** strings.Split(fqdn, ".")[0]. */
  function FirstLabel(fqdn: string): string {
    fqdn[..IndexOf(fqdn, '.')]
  }

  /** The number of digits at the end. */
  function TrailingDigits(s: string): (d: nat)
    ensures d <= |s|
  {
    if s == [] || !IsDigit(s[|s| - 1]) then 0 else TrailingDigits(s[..|s| - 1]) + 1
  }

  predicate EndsWith(s: string, t: string) {
    |t| <= |s| && s[|s| - |t|..] == t
  }

  /** A label, cut down to boot-N when the expression -(boot-\d+)$ matches it. */
  function Shortened(h: string): string {
    var d := TrailingDigits(h);
    if d > 0 && EndsWith(h[..|h| - d], "-boot-") then "boot-" + h[|h| - d..] else h
  }

  function GetHostname(fqdn: string): string {
    Shortened(FirstLabel(fqdn))
  }

  function ToUpper(s: string): string { seq(|s|, i requires 0 <= i < |s| => Upper(s[i])) }
  function ToLower(s: string): string { seq(|s|, i requires 0 <= i < |s| => Lower(s[i])) }

  function Resolve(addresses: map<string, string>, host: string): string {
    var hostname := GetHostname(host);
    if hostname in addresses then addresses[hostname]
    else if ToUpper(hostname) in addresses then addresses[ToUpper(hostname)]
    else "0.0.0.0"
  }

  class Request {
    const host: string
    var urlHost: string
    var urlScheme: string

    constructor (host: string)
      ensures this.host == host
    {
      this.host, urlHost, urlScheme := host, "", "";
    }

    method DirectorToInner(inner: nat, addresses: map<string, string>)
      modifies this
      ensures urlScheme == "https" && IsHostPort(urlHost, Resolve(addresses, host), inner)
    {
      var hostname := GetHostname(host);
      var address := "0.0.0.0";
      if hostname in addresses {
        address := addresses[hostname];
      } else {
        var upper := ToUpper(hostname);
        if upper in addresses { address := addresses[upper]; }
      }
      urlHost := JoinHostPort(address, Decimal(inner));
      NumeralIff(Decimal(inner), inner);
      urlScheme := "https";
    }
  }

  /** An address, in brackets if it has colons of its own, and a port in decimal. */
  ghost predicate IsHostPort(s: string, address: string, inner: nat) {
    exists port ::
      Numeral(port, inner) && s == (if ':' in address then "[" + address + "]" else address) + ":" + port
  }

  function JoinHostPort(host: string, port: string): string {
    if ':' in host then "[" + host + "]" + ":" + port else host + ":" + port
  }

  // ---- the fleet ----

  predicate IsLetter(c: char) { 'a' <= c <= 'z' || 'A' <= c <= 'Z' }

  ghost predicate WellNamed(m: Machine)
    requires Eligible(m)
  {
    && (forall c | c in m.role :: IsLetter(c))
    && (forall c | c in m.serial :: IsDigit(c) || 'A' <= c <= 'Z')
    && (forall c | c in m.ipv4[0] :: IsDigit(c) || c == '.') && '.' in m.ipv4[0]
  }

  ghost predicate Apart(a: Machine, b: Machine)
    requires Eligible(a) && Eligible(b)
  {
    && a.serial != b.serial && a.ipv4[0] != b.ipv4[0]
    && (IsBootServer(a) && IsBootServer(b) ==> a.rack != b.rack)
    && (!IsBootServer(a) && !IsBootServer(b) ==> (a.rack, a.role, a.indexInRack) != (b.rack, b.role, b.indexInRack))
  }

  ghost predicate Fleet(ms: seq<Machine>) {
    && (forall i | 0 <= i < |ms| && Eligible(ms[i]) :: WellNamed(ms[i]))
    && (forall i, j | 0 <= i < j < |ms| && Eligible(ms[i]) && Eligible(ms[j]) :: Apart(ms[i], ms[j]))
  }

  /**
   The first labels under which a machine's BMC is to be reached: its host name, for a boot server with anything
   and a dash before it, its dashed address, and its serial as it is or in lower case.
   */
  ghost predicate Answers(m: Machine, label': string)
    requires m.ipv4 != []
  {
    || IsHostname(m, label')
    || (m.role == "boot" && IsPrefixed(m.rack, label'))
    || IsDashed(m.ipv4[0], label')
    || label' == m.serial
    || IsLowered(m.serial, label')
  }

  /** Something without a dot, and -boot-R. */
  ghost predicate IsPrefixed(rack: nat, k: string) {
    exists any, r: string :: Numeral(r, rack) && '.' !in any && k == any + "-boot-" + r
  }

  lemma {:induction false} PrefixedIs(rack: nat, k: string)
    requires IsPrefixed(rack, k)
    ensures exists any: string :: '.' !in any && k == any + "-" + ("boot-" + Decimal(rack))
  {
    var any, r: string :| Numeral(r, rack) && '.' !in any && k == any + "-boot-" + r;
    NumeralIff(r, rack);
    assert any + "-boot-" + r == any + "-" + ("boot-" + r);
  }

  /** Letter by letter in lower case, as ASCII has it. */
  ghost predicate IsLowered(s: string, k: string) {
    && |k| == |s|
    && forall j | 0 <= j < |s| :: k[j] as int == if 65 <= s[j] as int <= 90 then s[j] as int + 32 else s[j] as int
  }

  lemma {:induction false} LoweredIs(s: string, k: string)
    ensures IsLowered(s, k) <==> k == ToLower(s)
  {
    forall j | 0 <= j < |s| && |k| == |s|
      ensures k[j] == Lower(s[j]) <==>
                k[j] as int == if 65 <= s[j] as int <= 90 then s[j] as int + 32 else s[j] as int
    {
      CaseOf(s[j]);
    }
  }

  lemma {:induction false} AnswersAre(m: Machine, label': string)
    requires m.ipv4 != [] && Answers(m, label')
    ensures label' == Hostname(m) || label' == Dashed(m.ipv4[0]) || label' == m.serial || label' == ToLower(m.serial) ||
            (IsBootServer(m) && exists any: string :: '.' !in any && label' == any + "-" + Hostname(m))
  {
    HostnameIs(m, label');
    LoweredIs(m.serial, label');
    if IsDashed(m.ipv4[0], label') { assert label' == Dashed(m.ipv4[0]); }
    if m.role == "boot" && IsPrefixed(m.rack, label') { PrefixedIs(m.rack, label'); }
  }

  // ---- names of different machines differ ----

  lemma {:induction false} HostnameShape(m: Machine)
    requires Eligible(m) && WellNamed(m)
    ensures var h := Hostname(m); h != "" && (h[0] == 'b' || h[0] == 'r') && '-' in h && '.' !in h
    ensures var d := Dashed(m.ipv4[0]); '-' in d && forall c | c in d :: IsDigit(c) || c == '-'
    ensures '-' !in m.serial && '.' !in m.serial
  {
    DecimalRoundTrip(m.rack);
    DecimalRoundTrip(m.indexInRack);
    var ip := m.ipv4[0];
    var i :| 0 <= i < |ip| && ip[i] == '.';
    assert Dashed(ip)[i] == '-';
    forall c | c in Dashed(ip) ensures IsDigit(c) || c == '-' {
      var j :| 0 <= j < |ip| && Dashed(ip)[j] == c;
      assert ip[j] in ip;
    }
    if IsBootServer(m) {
      assert Hostname(m)[4] == '-';
    } else {
      assert Hostname(m)[4 + |Decimal(m.rack)|] == '-';
    }
  }

  lemma DashedInjective(a: string, b: string)
    requires '-' !in a && '-' !in b && Dashed(a) == Dashed(b)
    ensures a == b
  {
    assert |a| == |Dashed(a)| == |Dashed(b)| == |b|;
    forall i | 0 <= i < |a| ensures a[i] == b[i] {
      assert Dashed(a)[i] == Dashed(b)[i] && a[i] in a && b[i] in b;
    }
  }

  /** The digits at the end are found whatever stands before them. */
  lemma {:induction false} TrailingDigitsOf(s: string, t: string)
    requires AllDigits(t) && (s == [] || !IsDigit(s[|s| - 1]))
    ensures TrailingDigits(s + t) == |t|
  {
    if t == [] {
      assert s + t == s;
    } else {
      assert (s + t)[..|s + t| - 1] == s + t[..|t| - 1];
      TrailingDigitsOf(s, t[..|t| - 1]);
    }
  }

  /** Text after a dash-free head is found again. */
  lemma {:induction false} DashSplits(r1: string, t1: string, r2: string, t2: string)
    requires '-' !in r1 && '-' !in r2 && r1 + ['-'] + t1 == r2 + ['-'] + t2
    ensures r1 == r2 && t1 == t2
  {
    var s := r1 + ['-'] + t1;
    IndexOfAfter(r1, '-', t1);
    IndexOfAfter(r2, '-', t2);
    assert r1 == s[..|r1|] && r2 == s[..|r2|] && t1 == s[|r1| + 1..] && t2 == s[|r2| + 1..];
  }

  /** Letters followed by digits split in one way. */
  lemma {:induction false} LettersDigitsSplit(s1: string, t1: string, s2: string, t2: string)
    requires (forall c | c in s1 + s2 :: IsLetter(c)) && AllDigits(t1) && AllDigits(t2) && s1 + t1 == s2 + t2
    ensures s1 == s2 && t1 == t2
  {
    assert s1 == [] || s1[|s1| - 1] in s1 + s2;
    assert s2 == [] || s2[|s2| - 1] in s1 + s2;
    TrailingDigitsOf(s1, t1);
    TrailingDigitsOf(s2, t2);
    var u := s1 + t1;
    assert s1 == u[..|s1|] && s2 == u[..|s2|] && t1 == u[|s1|..] && t2 == u[|s2|..];
  }

  lemma {:induction false} HostnameInjective(a: Machine, b: Machine)
    requires Eligible(a) && Eligible(b) && WellNamed(a) && WellNamed(b) && Hostname(a) == Hostname(b)
    ensures IsBootServer(a) == IsBootServer(b) && a.rack == b.rack
    ensures !IsBootServer(a) ==> a.role == b.role && a.indexInRack == b.indexInRack
  {
    var ra, rb := Decimal(a.rack), Decimal(b.rack);
    DecimalRoundTrip(a.rack);
    DecimalRoundTrip(b.rack);
    assert (if IsBootServer(a) then 'b' else 'r') == Hostname(a)[0] == Hostname(b)[0] ==
           (if IsBootServer(b) then 'b' else 'r');
    if IsBootServer(a) {
      assert Hostname(a)[5..] == ra && Hostname(b)[5..] == rb;
    } else {
      RackParts(a, b);
    }
    DecimalInjective(a.rack, b.rack);
  }

  lemma {:induction false} RackParts(a: Machine, b: Machine)
    requires Eligible(a) && Eligible(b) && WellNamed(a) && WellNamed(b) && Hostname(a) == Hostname(b)
    requires !IsBootServer(a) && !IsBootServer(b)
    ensures Decimal(a.rack) == Decimal(b.rack) && a.role == b.role && a.indexInRack == b.indexInRack
  {
    DecimalRoundTrip(a.rack);
    DecimalRoundTrip(b.rack);
    DecimalRoundTrip(a.indexInRack);
    DecimalRoundTrip(b.indexInRack);
    RackTextParts(Decimal(a.rack), a.role, Decimal(a.indexInRack), Decimal(b.rack), b.role, Decimal(b.indexInRack));
    DecimalInjective(a.indexInRack, b.indexInRack);
  }

  lemma {:induction false} RackTextParts(ra: string, sa: string, ia: string, rb: string, sb: string, ib: string)
    requires AllDigits(ra) && AllDigits(rb) && AllDigits(ia) && AllDigits(ib)
    requires forall c | c in sa + sb :: IsLetter(c)
    requires "rack" + ra + "-" + (sa + ia) == "rack" + rb + "-" + (sb + ib)
    ensures ra == rb && sa == sb && ia == ib
  {
    var ta, tb := sa + ia, sb + ib;
    var a, b := "rack" + ra + "-" + ta, "rack" + rb + "-" + tb;
    assert a[4..] == ra + ['-'] + ta && b[4..] == rb + ['-'] + tb;
    DashSplits(ra, ta, rb, tb);
    LettersDigitsSplit(sa, ia, sb, ib);
  }

  /** No two machines of the fleet claim one name. */
  lemma {:induction false} ClaimsUnique(a: Machine, b: Machine, k: string)
    requires Eligible(a) && Eligible(b) && WellNamed(a) && WellNamed(b) && Apart(a, b)
    ensures !(Claims(a, k) && Claims(b, k))
  {
    ClaimsAre(a, k);
    ClaimsAre(b, k);
    HostnameShape(a);
    HostnameShape(b);
    assert Hostname(a) != Hostname(b) by { if Hostname(a) == Hostname(b) { HostnameInjective(a, b); } }
    assert Dashed(a.ipv4[0]) != Dashed(b.ipv4[0]) by {
      if Dashed(a.ipv4[0]) == Dashed(b.ipv4[0]) { DashedInjective(a.ipv4[0], b.ipv4[0]); }
    }
    assert Hostname(a)[0] in Hostname(a) && Hostname(b)[0] in Hostname(b);
  }

  lemma {:induction false} FleetShrinks(ms: seq<Machine>)
    requires Fleet(ms) && ms != []
    ensures Fleet(ms[..|ms| - 1])
  {
  }

  /** In a fleet the owner of a claimed name is the machine that claims it. */
  lemma {:induction false} OwnerIsClaimant(ms: seq<Machine>, i: nat, k: string)
    requires Fleet(ms) && i < |ms| && Claims(ms[i], k)
    ensures Owner(ms, k) == Some(ms[i].bmcIPv4)
  {
    var n := |ms| - 1;
    if i == n {
    } else {
      assert !Claims(ms[n], k) by {
        if Eligible(ms[n]) { ClaimsUnique(ms[i], ms[n], k); }
      }
      FleetShrinks(ms);
      OwnerIsClaimant(ms[..n], i, k);
    }
  }

  // ---- every such host reaches its machine ----

  lemma {:induction false} FirstLabelOf(label': string, rest: string)
    requires '.' !in label' && (rest == "" || rest[0] == '.')
    ensures FirstLabel(label' + rest) == label'
  {
    if rest == "" {
      assert label' + rest == label' && IndexOf(label', '.') == |label'|;
    } else {
      assert label' + rest == label' + ['.'] + rest[1..];
      IndexOfAfter(label', '.', rest[1..]);
    }
  }

  /** A label that does not end in -boot-N is looked up as it is. */
  lemma {:induction false} PlainLabel(label': string, s: string, t: string)
    requires label' == s + t && AllDigits(t) && (s == [] || !IsDigit(s[|s| - 1])) && !EndsWith(s, "-boot-")
    ensures Shortened(label') == label'
  {
    TrailingDigitsOf(s, t);
    assert label'[..|label'| - |t|] == s;
  }

  lemma {:induction false} BootLabel(label': string, any: string, rack: nat)
    requires label' == any + "-boot-" + Decimal(rack)
    ensures Shortened(label') == "boot-" + Decimal(rack)
  {
    var s, t := any + "-boot-", Decimal(rack);
    DecimalRoundTrip(rack);
    TrailingDigitsOf(s, t);
    assert label'[..|label'| - |t|] == s && label'[|label'| - |t|..] == t;
    assert s[|s| - 6..] == "-boot-";
  }

  lemma {:induction false} BootEnding(s: string)
    ensures EndsWith(s, "-boot-") ==>
              |s| >= 6 && s[|s| - 6] == '-' && s[|s| - 4] == 'o' && s[|s| - 2] == 't' && s[|s| - 1] == '-'
  {
    if EndsWith(s, "-boot-") {
      var t := s[|s| - 6..];
      assert t[0] == '-' && t[2] == 'o' && t[4] == 't' && t[5] == '-';
    }
  }

  /** Labels without a dash or without an "o" keep their form. */
  lemma {:induction false} NoBootLabel(label': string)
    requires '-' !in label' || 'o' !in label'
    ensures Shortened(label') == label'
  {
    var s := label'[..|label'| - TrailingDigits(label')];
    BootEnding(s);
    assert forall i | 0 <= i < |s| :: s[i] == label'[i];
  }

  /** Exactly the labels that end in -boot- and a number are cut. */
  lemma {:induction false} ShortenedExact(h: string)
    ensures forall any, r: string | h == any + "-boot-" + r && r != "" && AllDigits(r) :: Shortened(h) == "boot-" + r
    ensures (forall any, r: string :: h == any + "-boot-" + r && AllDigits(r) ==> r == "") ==> Shortened(h) == h
  {
    forall any, r: string | h == any + "-boot-" + r && r != "" && AllDigits(r) ensures Shortened(h) == "boot-" + r {
      var s := any + "-boot-";
      TrailingDigitsOf(s, r);
      assert h[..|h| - |r|] == s && h[|h| - |r|..] == r && s[|s| - 6..] == "-boot-";
    }
    var d := TrailingDigits(h);
    TrailingAreDigits(h);
    var s, r := h[..|h| - d], h[|h| - d..];
    if d > 0 && EndsWith(s, "-boot-") {
      var any := s[..|s| - 6];
      assert s == any + s[|s| - 6..] && h == s + r;
      assert h == any + "-boot-" + r;
    }
  }

  lemma {:induction false} TrailingAreDigits(s: string)
    ensures AllDigits(s[|s| - TrailingDigits(s)..])
  {
    if s == [] || !IsDigit(s[|s| - 1]) {
    } else {
      var front, d := s[..|s| - 1], TrailingDigits(s);
      TrailingAreDigits(front);
      assert s[|s| - d..] == front[|front| - (d - 1)..] + [s[|s| - 1]];
    }
  }

  lemma {:induction false} HostnameLabel(m: Machine)
    requires Eligible(m) && WellNamed(m)
    ensures Shortened(Hostname(m)) == Hostname(m)
  {
    var r := Decimal(m.rack);
    DecimalRoundTrip(m.rack);
    DecimalRoundTrip(m.indexInRack);
    if IsBootServer(m) {
      PlainLabel(Hostname(m), "boot-", r);
    } else {
      var s := "rack" + r + "-" + m.role;
      assert Hostname(m) == s + Decimal(m.indexInRack);
      BootEnding(s);
      if m.role == "" {
        assert s[|s| - 2] == r[|r| - 1];
      } else {
        assert s[|s| - 1] == m.role[|m.role| - 1] && m.role[|m.role| - 1] in m.role;
      }
      PlainLabel(Hostname(m), s, Decimal(m.indexInRack));
    }
  }

  lemma UpperOfLower(s: string)
    requires forall c | c in s :: IsDigit(c) || 'A' <= c <= 'Z'
    ensures ToUpper(ToLower(s)) == s
    ensures '-' !in ToLower(s) && '.' !in ToLower(s)
    ensures ToLower(s) == s || exists c | c in ToLower(s) :: 'a' <= c <= 'z'
  {
    forall i | 0 <= i < |s| ensures ToUpper(ToLower(s))[i] == s[i] && ToLower(s)[i] != '-' && ToLower(s)[i] != '.' {
      assert s[i] in s;
    }
    if i :| 0 <= i < |s| && ToLower(s)[i] != s[i] {
      assert ToLower(s)[i] in ToLower(s);
    }
  }

  /** A lower-cased serial is claimed by nobody, unless it has no letters and is the serial itself. */
  lemma LowerSerialUnclaimed(m: Machine, other: Machine)
    requires Eligible(m) && WellNamed(m) && Eligible(other) && WellNamed(other)
    requires ToLower(m.serial) != m.serial
    ensures !Claims(other, ToLower(m.serial))
  {
    ClaimsAre(other, ToLower(m.serial));
    UpperOfLower(m.serial);
    HostnameShape(other);
  }

  lemma {:induction false} UnclaimedHasNoOwner(ms: seq<Machine>, k: string)
    requires forall i | 0 <= i < |ms| :: !Claims(ms[i], k)
    ensures Owner(ms, k) == None
  {
    if ms == [] {
    } else {
      UnclaimedHasNoOwner(ms[..|ms| - 1], k);
    }
  }

  /** Every label a machine answers to is decoded to a name it claims, or to its serial in lower case. */
  lemma {:induction false} LabelDecodes(m: Machine, label': string, fqdn: string)
    requires Eligible(m) && WellNamed(m) && Answers(m, label') && FirstLabel(fqdn) == label'
    ensures Claims(m, GetHostname(fqdn)) || GetHostname(fqdn) == ToLower(m.serial)
  {
    AnswersAre(m, label');
    ClaimsAre(m, GetHostname(fqdn));
    if label' == Hostname(m) {
      HostnameLabel(m);
    } else if label' == Dashed(m.ipv4[0]) || label' == m.serial || label' == ToLower(m.serial) {
      HostnameShape(m);
      UpperOfLower(m.serial);
      NoBootLabel(label');
    } else {
      PrefixedBootLabel(m, label', fqdn);
    }
  }

  lemma {:induction false} PrefixedBootLabel(m: Machine, label': string, fqdn: string)
    requires IsBootServer(m) && (exists any: string :: label' == any + "-" + Hostname(m)) && FirstLabel(fqdn) == label'
    ensures GetHostname(fqdn) == Hostname(m)
  {
    var any: string :| label' == any + "-" + Hostname(m);
    assert label' == any + "-boot-" + Decimal(m.rack);
    BootLabel(label', any, m.rack);
  }

  lemma {:induction false} LabelHasNoDot(m: Machine, label': string)
    requires Eligible(m) && WellNamed(m) && Answers(m, label')
    ensures '.' !in label'
  {
    AnswersAre(m, label');
    HostnameShape(m);
    UpperOfLower(m.serial);
  }

  /**
   Cross-program resolution: with the map that machines-endpoints writes for a fleet, bmc-reverse-proxy
   resolves every label a machine answers to, with or without a domain behind it, to that machine's BMC.
   */
  lemma {:induction false} HostResolves(ms: seq<Machine>, addresses: map<string, string>, i: nat, label': string,
                                        rest: string)
    requires Fleet(ms) && (forall k: string :: Get(addresses, k) == Owner(ms, k))
    requires i < |ms| && ms[i].bmcIPv4 != "" && ms[i].ipv4 != [] && Answers(ms[i], label')
    requires rest == "" || rest[0] == '.'
    ensures Resolve(addresses, label' + rest) == ms[i].bmcIPv4
  {
    var m, hostname := ms[i], GetHostname(label' + rest);
    LabelHasNoDot(m, label');
    FirstLabelOf(label', rest);
    LabelDecodes(m, label', label' + rest);
    assert Get(addresses, hostname) == Owner(ms, hostname);
    if Claims(m, hostname) {
      OwnerIsClaimant(ms, i, hostname);
    } else {
      UpperOfLower(m.serial);
      forall j | 0 <= j < |ms| ensures !Claims(ms[j], hostname) {
        if Eligible(ms[j]) { LowerSerialUnclaimed(m, ms[j]); }
      }
      UnclaimedHasNoOwner(ms, hostname);
      OwnerIsClaimant(ms, i, m.serial);
      assert Get(addresses, m.serial) == Owner(ms, m.serial);
    }
  }

  ghost predicate Unclaimed(ms: seq<Machine>, k: string) {
    forall i | 0 <= i < |ms| :: !Claims(ms[i], k)
  }

  /**
   No host reaches a wrong BMC: whatever it is, it goes to the machine that claims the decoded name; if none does,
   to the one that claims it in upper case; and if there is none either, to 0.0.0.0.
   */
  lemma {:induction false} ResolveExact(ms: seq<Machine>, addresses: map<string, string>, host: string)
    requires Fleet(ms) && (forall k: string :: Get(addresses, k) == Owner(ms, k))
    ensures var h, address := GetHostname(host), Resolve(addresses, host);
            && (forall i | 0 <= i < |ms| && Claims(ms[i], h) :: address == ms[i].bmcIPv4)
            && (forall i | 0 <= i < |ms| && Unclaimed(ms, h) && Claims(ms[i], ToUpper(h)) :: address == ms[i].bmcIPv4)
            && (Unclaimed(ms, h) && Unclaimed(ms, ToUpper(h)) ==> address == "0.0.0.0")
  {
    var h := GetHostname(host);
    assert Get(addresses, h) == Owner(ms, h) && Get(addresses, ToUpper(h)) == Owner(ms, ToUpper(h));
    forall i | 0 <= i < |ms| && Claims(ms[i], h) ensures Resolve(addresses, host) == ms[i].bmcIPv4 {
      OwnerIsClaimant(ms, i, h);
    }
    if Unclaimed(ms, h) {
      UnclaimedHasNoOwner(ms, h);
      forall i | 0 <= i < |ms| && Claims(ms[i], ToUpper(h)) ensures Resolve(addresses, host) == ms[i].bmcIPv4 {
        OwnerIsClaimant(ms, i, ToUpper(h));
      }
      if Unclaimed(ms, ToUpper(h)) { UnclaimedHasNoOwner(ms, ToUpper(h)); }
    }
  }
}
