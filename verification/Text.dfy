/** Strings as the Go programs use them: byte-wise comparison, decimal printing, sorting by a key. */
module Text {

  datatype Option<+T> = None | Some(value: T)

  ghost function Elems<T>(s: seq<T>): set<T> {
    set x | x in s
  }

  ghost predicate NoDup<T(!new)>(s: seq<T>) {
    forall i, j | 0 <= i < j < |s| :: s[i] != s[j]
  }

  /** Without duplicates an element counts once. */
  lemma {:induction false} CountOne<T(!new)>(a: seq<T>, x: T)
    requires NoDup(a)
    ensures multiset(a)[x] == if x in a then 1 else 0
  {
    if x in a {
      var i :| 0 <= i < |a| && a[i] == x;
      assert a == a[..i] + [x] + a[i + 1..];
      assert x !in a[..i] && x !in a[i + 1..];
    }
  }

  /** None of the calls from a up to b meets a fault. */
  predicate NoFault(faults: set<nat>, a: nat, b: nat) {
    forall k | a <= k < b :: k !in faults
  }

  function Get<V>(m: map<string, V>, k: string): Option<V> {
    if k in m then Some(m[k]) else None
  }

  lemma SameMap<V>(a: map<string, V>, b: map<string, V>)
    requires forall n: string :: Get(a, n) == Get(b, n)
    ensures a == b
  {
    assert forall n: string :: n in a <==> Get(a, n).Some?;
    assert forall n: string :: n in b <==> Get(b, n).Some?;
    assert forall n | n in a :: Get(a, n).value == a[n];
    assert forall n | n in b :: Get(b, n).value == b[n];
  }

  function Upper(c: char): char { if 'a' <= c <= 'z' then c - ('a' - 'A') else c }

  function Lower(c: char): char { if 'A' <= c <= 'Z' then c + ('a' - 'A') else c }

  /** The letters of ASCII change their case, nothing else does. */
  lemma {:induction false} CaseOf(c: char)
    ensures Lower(c) as int == if 65 <= c as int <= 90 then c as int + 32 else c as int
    ensures Upper(c) as int == if 97 <= c as int <= 122 then c as int - 32 else c as int
  {
  }

  /** The first position of c, or the length when there is none. */
  function IndexOf(s: string, c: char): (i: nat)
    ensures i <= |s| && c !in s[..i] && (i < |s| ==> s[i] == c)
  {
    if s == [] || s[0] == c then 0
    else
      var i := 1 + IndexOf(s[1..], c);
      assert s[..i] == [s[0]] + s[1..][..i - 1];
      i
  }

  lemma {:induction false} IndexOfAfter(a: string, c: char, b: string)
    requires c !in a
    ensures IndexOf(a + [c] + b, c) == |a|
  {
    var s, i := a + [c] + b, IndexOf(a + [c] + b, c);
    assert s[|a|] == c;
    assert forall j | 0 <= j < |a| :: s[j] == a[j] && a[j] != c;
    assert forall j | 0 <= j < i :: s[..i][j] == s[j];
  }

  /** Go's `<` on strings. Code-point order and UTF-8 byte order coincide. */
  predicate Less(a: string, b: string) {
    if a == [] then b != []
    else b != [] && (a[0] < b[0] || (a[0] == b[0] && Less(a[1..], b[1..])))
  }

  /** a comes before b in a dictionary: it is a shorter beginning of b, or smaller where they first differ. */
  ghost predicate Before(a: string, b: string) {
    exists k: nat :: k <= |a| && k < |b| && a[..k] == b[..k] && (k == |a| || a[k] < b[k])
  }

  lemma {:induction false} LessIsBefore(a: string, b: string)
    ensures Less(a, b) <==> Before(a, b)
  {
    if a == [] {
      if b != [] { assert a[..0] == b[..0]; }
    } else if b == [] {
    } else {
      LessIsBefore(a[1..], b[1..]);
      if Less(a, b) {
        if a[0] < b[0] {
          assert a[..0] == b[..0];
        } else {
          var k: nat :| k <= |a[1..]| && k < |b[1..]| && a[1..][..k] == b[1..][..k] &&
                        (k == |a[1..]| || a[1..][k] < b[1..][k]);
          assert a[..k + 1] == [a[0]] + a[1..][..k] && b[..k + 1] == [b[0]] + b[1..][..k];
        }
      }
      if k: nat :| k <= |a| && k < |b| && a[..k] == b[..k] && (k == |a| || a[k] < b[k]) {
        if k > 0 {
          assert a[..k][0] == b[..k][0];
          assert a[1..][..k - 1] == a[..k][1..] && b[1..][..k - 1] == b[..k][1..];
        }
      }
    }
  }

  lemma {:induction false} LessTrans(a: string, b: string, c: string)
    requires Less(a, b) && Less(b, c)
    ensures Less(a, c)
  {
    if a != [] && a[0] == b[0] && b[0] == c[0] {
      LessTrans(a[1..], b[1..], c[1..]);
    }
  }

  lemma {:induction false} LessIrreflexive(a: string)
    ensures !Less(a, a)
  {
    if a == [] {
    } else {
      LessIrreflexive(a[1..]);
    }
  }

  lemma {:induction false} LessTotal(a: string, b: string)
    ensures Less(a, b) || a == b || Less(b, a)
  {
    if a != [] && b != [] && a[0] == b[0] {
      LessTotal(a[1..], b[1..]);
      assert a == [a[0]] + a[1..] && b == [b[0]] + b[1..];
    }
  }

  /** `ys` is ordered by `key`, equal keys allowed. */
  ghost predicate Ordered<T>(ys: seq<T>, key: T -> string) {
    forall i, j | 0 <= i < j < |ys| :: !Less(key(ys[j]), key(ys[i]))
  }

  /** `ys` is ordered by `key` with no key repeated. */
  ghost predicate Ascending<T>(ys: seq<T>, key: T -> string) {
    forall i, j | 0 <= i < j < |ys| :: Less(key(ys[i]), key(ys[j]))
  }

  ghost predicate DistinctKeys<T, K>(ys: seq<T>, key: T -> K) {
    forall i, j | 0 <= i < j < |ys| :: key(ys[i]) != key(ys[j])
  }

  lemma OrderedDistinctIsAscending<T>(ys: seq<T>, key: T -> string)
    requires Ordered(ys, key) && DistinctKeys(ys, key)
    ensures Ascending(ys, key)
  {
    forall i, j | 0 <= i < j < |ys| ensures Less(key(ys[i]), key(ys[j])) {
      LessTotal(key(ys[i]), key(ys[j]));
    }
  }

  /** A strictly ordered sequence is determined by its elements. */
  lemma {:induction false} AscendingUnique<T>(s: seq<T>, t: seq<T>, key: T -> string)
    requires Ascending(s, key) && Ascending(t, key)
    requires forall x :: x in s <==> x in t
    ensures s == t
  {
    assert t == [] || t[0] in t;
    if s == [] {
      return;
    }
    assert s[0] in s;
    FirstIsLeast(s, key);
    FirstIsLeast(t, key);
    assert s[0] == t[0] by {
      LessIrreflexive(key(s[0]));
      if Less(key(s[0]), key(t[0])) && Less(key(t[0]), key(s[0])) {
        LessTrans(key(s[0]), key(t[0]), key(s[0]));
      }
    }
    forall x ensures x in s[1..] <==> x in t[1..] {
      assert x in s <==> x == s[0] || x in s[1..];
      assert x in t <==> x == t[0] || x in t[1..];
      if x == s[0] {
        assert x !in s[1..] && x !in t[1..];
      }
    }
    AscendingUnique(s[1..], t[1..], key);
    assert s == [s[0]] + s[1..] && t == [t[0]] + t[1..];
  }

  lemma FirstIsLeast<T>(s: seq<T>, key: T -> string)
    requires s != [] && Ascending(s, key)
    ensures forall x | x in s && x != s[0] :: Less(key(s[0]), key(x))
    ensures s[0] !in s[1..]
  {
    LessIrreflexive(key(s[0]));
    forall x | x in s && x != s[0] ensures Less(key(s[0]), key(x)) {
      var i :| 0 <= i < |s| && s[i] == x;
      assert i > 0;
    }
    forall i | 0 < i < |s| ensures s[i] != s[0] {
      assert Less(key(s[0]), key(s[i]));
    }
  }

  /** `x` put in place among ordered elements. */
  function Insert<T>(ys: seq<T>, x: T, key: T -> string): (zs: seq<T>)
    requires Ordered(ys, key)
    ensures multiset(zs) == multiset(ys) + multiset{x}
    ensures Ordered(zs, key)
  {
    if ys == [] then [x]
    else if Less(key(x), key(ys[0])) then
      assert Ordered([x] + ys, key) by { InsertFront(ys, x, key); }
      [x] + ys
    else
      var rest := Insert(ys[1..], x, key);
      assert ys == [ys[0]] + ys[1..];
      assert Ordered([ys[0]] + rest, key) by { InsertLater(ys, x, rest, key); }
      [ys[0]] + rest
  }

  lemma InsertFront<T>(ys: seq<T>, x: T, key: T -> string)
    requires ys != [] && Ordered(ys, key) && Less(key(x), key(ys[0]))
    ensures Ordered([x] + ys, key)
  {
    forall j | 0 <= j < |ys| ensures !Less(key(ys[j]), key(x)) {
      LessIrreflexive(key(ys[0]));
      if Less(key(ys[j]), key(x)) {
        LessTrans(key(ys[j]), key(x), key(ys[0]));
      }
    }
  }

  lemma InsertLater<T>(ys: seq<T>, x: T, rest: seq<T>, key: T -> string)
    requires ys != [] && Ordered(ys, key) && !Less(key(x), key(ys[0]))
    requires Ordered(rest, key) && multiset(rest) == multiset(ys[1..]) + multiset{x}
    ensures Ordered([ys[0]] + rest, key)
  {
    forall j | 0 <= j < |rest| ensures !Less(key(rest[j]), key(ys[0])) {
      assert rest[j] in multiset(rest);
      assert rest[j] == x || rest[j] in ys[1..];
    }
  }

  /** slices.Sort and slices.SortFunc: an ordered rearrangement. */
  function SortBy<T>(xs: seq<T>, key: T -> string): (ys: seq<T>)
    ensures multiset(ys) == multiset(xs)
    ensures Ordered(ys, key)
  {
    if xs == [] then [] else
      assert xs == [xs[0]] + xs[1..];
      Insert(SortBy(xs[1..], key), xs[0], key)
  }

  function Same(s: string): string { s }

  /** The elements of a finite set in some order. */
  ghost function AnyOrder<T(!new)>(xs: set<T>): (s: seq<T>)
    ensures Elems(s) == xs && NoDup(s)
  {
    if xs == {} then [] else
      var x :| x in xs;
      var rest := AnyOrder(xs - {x});
      assert forall y :: y in [x] + rest <==> y == x || y in Elems(rest);
      [x] + rest
  }

  lemma {:induction false} DistinctAcrossMultisets<T, K>(s: seq<T>, t: seq<T>, key: T -> K)
    requires multiset(s) == multiset(t) && DistinctKeys(s, key)
    ensures DistinctKeys(t, key)
  {
    forall i, j | 0 <= i < j < |t| ensures key(t[i]) != key(t[j]) {
      if key(t[i]) == key(t[j]) {
        assert t[i] in multiset(t) && t[j] in multiset(t);
        var a :| 0 <= a < |s| && s[a] == t[i];
        var b :| 0 <= b < |s| && s[b] == t[j];
        assert a == b;
        OnlyOnce(s, a, key);
        TwiceCounts(t, i, j);
      }
    }
  }

  lemma OnlyOnce<T, K>(s: seq<T>, a: int, key: T -> K)
    requires 0 <= a < |s| && DistinctKeys(s, key)
    ensures multiset(s)[s[a]] == 1
  {
    assert s == s[..a] + [s[a]] + s[a + 1..];
    assert s[a] !in s[..a] && s[a] !in s[a + 1..];
  }

  lemma TwiceCounts<T>(t: seq<T>, i: int, j: int)
    requires 0 <= i < j < |t| && t[i] == t[j]
    ensures multiset(t)[t[i]] >= 2
  {
    assert t == t[..i] + [t[i]] + t[i + 1..j] + [t[j]] + t[j + 1..];
  }

  /** slices.Sorted(maps.Keys(m)). */
  ghost function SortedKeys(keys: set<string>): (ks: seq<string>)
    ensures Ascending(ks, Same) && Elems(ks) == keys
  {
    SortDistinct(AnyOrder(keys), keys);
    SortBy(AnyOrder(keys), Same)
  }

  lemma SortDistinct(s: seq<string>, keys: set<string>)
    requires Elems(s) == keys && NoDup(s)
    ensures Ascending(SortBy(s, Same), Same) && Elems(SortBy(s, Same)) == keys
  {
    var t := SortBy(s, Same);
    DistinctAcrossMultisets(s, t, Same);
    OrderedDistinctIsAscending(t, Same);
    forall x ensures x in t <==> x in s {
      assert x in multiset(t) <==> x in multiset(s);
    }
  }

  /** Ranging over a map: every key once, in an order the caller cannot rely on. */
  method Enumerate<T(==, !new)>(xs: set<T>) returns (s: seq<T>)
    ensures Elems(s) == xs && NoDup(s)
  {
    s := [];
    var todo := xs;
    while todo != {}
      invariant Elems(s) == xs - todo && todo <= xs && NoDup(s)
      decreases |todo|
    {
      var x :| x in todo;
      assert x !in Elems(s);
      assert forall y :: y in s + [x] <==> y == x || y in Elems(s);
      s := s + [x];
      todo := todo - {x};
    }
  }

  /** Sorting forgets the order in which the keys were enumerated. */
  lemma SortedKeysUnique(s: seq<string>, keys: set<string>)
    requires Elems(s) == keys && NoDup(s)
    ensures SortBy(s, Same) == SortedKeys(keys)
  {
    SortDistinct(s, keys);
    var t, u := SortBy(s, Same), SortedKeys(keys);
    forall x ensures x in t <==> x in u {
      assert x in Elems(t) <==> x in Elems(u);
    }
    AscendingUnique(t, u, Same);
  }

  // ---- decimal notation ----

  predicate IsDigit(c: char) { '0' <= c <= '9' }

  predicate AllDigits(s: string) { forall i | 0 <= i < |s| :: IsDigit(s[i]) }

  function Digit(d: nat): char
    requires d < 10
  {
    ('0' as int + d) as char
  }

  /** fmt's %d for a non-negative number. */
  function Decimal(n: nat): string {
    if n < 10 then [Digit(n)] else Decimal(n / 10) + [Digit(n % 10)]
  }

  /** The number that a string of digits denotes. */
  function NumberOf(s: string): nat
    requires AllDigits(s)
  {
    if s == [] then 0 else 10 * NumberOf(s[..|s| - 1]) + (s[|s| - 1] as int - '0' as int)
  }

  lemma {:induction false} DecimalRoundTrip(n: nat)
    ensures AllDigits(Decimal(n)) && Decimal(n) != []
    ensures NumberOf(Decimal(n)) == n
  {
    if n >= 10 {
      DecimalRoundTrip(n / 10);
      var d := Decimal(n);
      assert d[..|d| - 1] == Decimal(n / 10);
    } else {
      assert Decimal(n)[..0] == [];
    }
  }

  lemma DecimalInjective(m: nat, n: nat)
    requires Decimal(m) == Decimal(n)
    ensures m == n
  {
    DecimalRoundTrip(m);
    DecimalRoundTrip(n);
  }

  const DIGITS := "0123456789"

  /** s is n in decimal notation, most significant digit first, without leading zeros. */
  ghost predicate Numeral(s: string, n: nat) {
    if n < 10 then s == [DIGITS[n]]
    else s != [] && s[|s| - 1] == DIGITS[n % 10] && Numeral(s[..|s| - 1], n / 10)
  }

  lemma {:induction false} DigitsAre(c: char, d: nat)
    ensures IsDigit(c) <==> c in DIGITS
    ensures d < 10 ==> Digit(d) == DIGITS[d]
  {
    if IsDigit(c) { assert DIGITS[c as int - '0' as int] == c; }
  }

  /** Decimal gives the one numeral of a number. */
  lemma {:induction false} NumeralIff(s: string, n: nat)
    ensures Numeral(s, n) <==> s == Decimal(n)
  {
    DigitsAre('0', n % 10);
    if n < 10 {
      DigitsAre('0', n);
    } else {
      if s != [] { NumeralIff(s[..|s| - 1], n / 10); }
      assert s != [] ==> s == s[..|s| - 1] + [s[|s| - 1]];
      assert Decimal(n)[..|Decimal(n)| - 1] == Decimal(n / 10);
    }
  }

  /** What a string of digits denotes, digit by digit; leading zeros do not count. */
  lemma {:induction false} NumberOfSnoc(s: string, d: nat)
    requires AllDigits(s) && d < 10
    ensures AllDigits(s + [DIGITS[d]]) && NumberOf(s + [DIGITS[d]]) == 10 * NumberOf(s) + d
    ensures NumberOf([]) == 0
  {
    DigitsAre(DIGITS[d], d);
    assert (s + [DIGITS[d]])[..|s|] == s;
  }
}
