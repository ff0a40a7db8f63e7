/** local-pv-provisioner's PV names: every run of other characters becomes one dash, then all is lower-cased. */
module PvName {
  import opened Text

  /** The complement of the class in the regular expression [^.0-9A-Za-z]+. */
  predicate Kept(c: char) {
    c == '.' || '0' <= c <= '9' || 'A' <= c <= 'Z' || 'a' <= c <= 'z'
  }

  function LowerAll(s: string): string {
    if s == [] then [] else [Lower(s[0])] + LowerAll(s[1..])
  }

  /** s without the dropped characters it starts with. */
  function SkipDropped(s: string): (t: string)
    ensures |t| <= |s| && (t == [] || Kept(t[0]))
  {
    if s == [] || Kept(s[0]) then s else SkipDropped(s[1..])
  }

  /** regexp.ReplaceAllString(s, "-"). */
  function Collapse(s: string): string
    decreases |s|
  {
    if s == [] then []
    else if Kept(s[0]) then [s[0]] + Collapse(s[1..])
    else ['-'] + Collapse(SkipDropped(s[1..]))
  }

  function Sanitized(s: string): string {
    LowerAll(Collapse(s))
  }

  /** filepath.Base of a path, as far as slashes go. */
  function Base(path: string): string {
    if path == [] then "."
    else if path[|path| - 1] == '/' then
      if |path| == 1 then "/"
      else if path[|path| - 2] == '/' then Base(path[..|path| - 1])
      else AfterSlash(path[..|path| - 1])
    else AfterSlash(path)
  }

  function AfterSlash(path: string): string {
    if path == [] || path[|path| - 1] == '/' then []
    else AfterSlash(path[..|path| - 1]) + [path[|path| - 1]]
  }

  function Named(node: string, base: string): string {
    Sanitized("local-" + node + "-" + base)
  }

  function Name(node: string, path: string): string {
    Named(node, Base(path))
  }

  predicate NameChar(c: char) {
    c == '.' || c == '-' || '0' <= c <= '9' || 'a' <= c <= 'z'
  }

  ghost predicate NoDoubleDash(s: string) {
    forall i | 0 <= i < |s| - 1 :: !(s[i] == '-' && s[i + 1] == '-')
  }

  function Undashed(s: string): string {
    if s != [] && s[0] == '-' then s[1..] else s
  }

  lemma {:induction false} LowerAllAt(s: string)
    ensures |LowerAll(s)| == |s| && forall i | 0 <= i < |s| :: LowerAll(s)[i] == Lower(s[i])
  {
    if s == [] {
    } else {
      LowerAllAt(s[1..]);
    }
  }

  lemma {:induction false} LowerAllConcat(a: string, b: string)
    ensures LowerAll(a + b) == LowerAll(a) + LowerAll(b)
  {
    if a == [] {
      assert a + b == b;
    } else {
      assert (a + b)[1..] == a[1..] + b;
      LowerAllConcat(a[1..], b);
    }
  }

  lemma {:induction false} CollapseShape(s: string)
    ensures forall i | 0 <= i < |Collapse(s)| :: Kept(Collapse(s)[i]) || Collapse(s)[i] == '-'
    ensures NoDoubleDash(Collapse(s))
    ensures Collapse(s) != [] && Collapse(s)[0] == '-' ==> s != [] && !Kept(s[0])
    decreases |s|
  {
    if s == [] {
    } else {
      CollapseShape(if Kept(s[0]) then s[1..] else SkipDropped(s[1..]));
    }
  }

  /** The names are made of name characters, with no two dashes in a row. */
  lemma SanitizedIsName(s: string)
    ensures forall i | 0 <= i < |Sanitized(s)| :: NameChar(Sanitized(s)[i])
    ensures NoDoubleDash(Sanitized(s))
  {
    CollapseShape(s);
    LowerAllAt(Collapse(s));
  }

  lemma {:induction false} NamesAreFixed(s: string)
    requires NoDoubleDash(s) && forall i | 0 <= i < |s| :: NameChar(s[i])
    ensures Sanitized(s) == s
  {
    if s == [] {
    } else {
      var t := s[1..];
      assert forall i | 0 <= i < |t| :: t[i] == s[i + 1];
      NamesAreFixed(t);
      if s[0] == '-' {
        assert t == [] || t[0] == s[1];
        assert SkipDropped(t) == t;
      }
      assert Collapse(s)[1..] == Collapse(t);
    }
  }

  /** Sanitising a name again changes nothing. */
  lemma SanitizeIdempotent(s: string)
    ensures Sanitized(Sanitized(s)) == Sanitized(s)
  {
    SanitizedIsName(s);
    NamesAreFixed(Sanitized(s));
  }

  lemma {:induction false} SkipDroppedSplit(a: string, b: string)
    ensures SkipDropped(a + b) == if SkipDropped(a) == [] then SkipDropped(b) else SkipDropped(a) + b
  {
    if a == [] {
      assert a + b == b;
    } else if !Kept(a[0]) {
      assert (a + b)[1..] == a[1..] + b;
      SkipDroppedSplit(a[1..], b);
    }
  }

  lemma SkippedCollapse(s: string)
    ensures Collapse(SkipDropped(s)) == Undashed(Collapse(s))
  {
    if s != [] && !Kept(s[0]) {
      assert SkipDropped(s) == SkipDropped(s[1..]);
    } else if s != [] {
      assert Collapse(s)[0] == s[0];
    }
  }

  /** After a dropped character the rest is collapsed on its own and loses the dash it may start with. */
  lemma {:induction false} CollapseAppend(a: string, b: string)
    requires a != [] && !Kept(a[|a| - 1])
    ensures Collapse(a + b) == Collapse(a) + Undashed(Collapse(b))
    decreases |a|
  {
    if Kept(a[0]) {
      assert (a + b)[1..] == a[1..] + b;
      CollapseAppend(a[1..], b);
    } else {
      assert (a + b)[1..] == a[1..] + b;
      var rest := SkipDropped(a[1..]);
      SkipDroppedSplit(a[1..], b);
      if rest == [] {
        SkippedCollapse(b);
      } else {
        SkipKeepsLast(a[1..]);
        CollapseAppend(rest, b);
      }
    }
  }

  lemma {:induction false} SkipKeepsLast(s: string)
    requires SkipDropped(s) != []
    ensures s != [] && SkipDropped(s)[|SkipDropped(s)| - 1] == s[|s| - 1]
  {
    if !Kept(s[0]) {
      SkipKeepsLast(s[1..]);
    }
  }

  lemma LowerUndashed(s: string)
    ensures LowerAll(Undashed(s)) == Undashed(LowerAll(s))
  {
    LowerAllAt(s);
  }

  /** Two devices of a node get one name exactly when their sanitised base names agree up to a leading dash. */
  lemma NamesCollide(node: string, b1: string, b2: string)
    ensures Named(node, b1) == Named(node, b2) <==> Undashed(Sanitized(b1)) == Undashed(Sanitized(b2))
  {
    var head := "local-" + node + "-";
    NameSplits(head, b1);
    NameSplits(head, b2);
    var h := Sanitized(head);
    assert forall b: string :: (h + b)[|h|..] == b;
  }

  lemma NameSplits(head: string, b: string)
    requires head != [] && head[|head| - 1] == '-'
    ensures Sanitized(head + b) == Sanitized(head) + Undashed(Sanitized(b))
  {
    CollapseAppend(head, b);
    LowerAllConcat(Collapse(head), Undashed(Collapse(b)));
    LowerUndashed(Collapse(b));
  }

  // ---- what a name is, without the collapsing ----

  lemma {:induction false} AfterSlashOf(dir: string, b: string)
    requires '/' !in b && (dir == "" || dir[|dir| - 1] == '/')
    ensures AfterSlash(dir + b) == b
  {
    if b == "" {
      assert dir + b == dir;
    } else {
      assert (dir + b)[..|dir + b| - 1] == dir + b[..|b| - 1];
      AfterSlashOf(dir, b[..|b| - 1]);
    }
  }

  ghost predicate Slashes(s: string) {
    forall i | 0 <= i < |s| :: s[i] == '/'
  }

  /** The base of a path is its last element; slashes at the end do not count. */
  lemma {:induction false} BaseIsLast(dir: string, b: string, tail: string)
    requires b != "" && '/' !in b && (dir == "" || dir[|dir| - 1] == '/') && Slashes(tail)
    ensures Base(dir + b + tail) == b
  {
    var path := dir + b + tail;
    AfterSlashOf(dir, b);
    if tail == "" {
      assert path == dir + b && path[|path| - 1] == b[|b| - 1];
    } else {
      assert path[|path| - 1] == '/' && path[..|path| - 1] == dir + b + tail[..|tail| - 1];
      if |tail| == 1 {
        assert path[..|path| - 1] == dir + b && path[|path| - 2] == b[|b| - 1];
      } else {
        assert path[|path| - 2] == tail[|tail| - 2];
        BaseIsLast(dir, b, tail[..|tail| - 1]);
      }
    }
  }

  /** A path without an element is the root, or nothing. */
  lemma {:induction false} BaseOfRoot(tail: string)
    requires Slashes(tail)
    ensures Base(tail) == if tail == "" then "." else "/"
  {
    if |tail| <= 1 {
    } else {
      assert tail[|tail| - 1] == '/' && tail[|tail| - 2] == '/';
      BaseOfRoot(tail[..|tail| - 1]);
    }
  }

  /** Any run of other characters counts as one dash. */
  lemma {:induction false} RunIsOneDash(a: string, x: string, b: string)
    requires x != "" && forall c | c in x :: !(c == '.' || '0' <= c <= '9' || 'A' <= c <= 'Z' || 'a' <= c <= 'z')
    ensures Sanitized(a + x + b) == Sanitized(a + "-" + b)
  {
    CollapsedRun(a, x, b);
  }

  lemma {:induction false} SkipsAll(x: string, b: string)
    requires forall c | c in x :: !Kept(c)
    ensures SkipDropped(x + b) == SkipDropped(b)
  {
    if x == "" {
      assert x + b == b;
    } else {
      assert x[0] in x && (x + b)[1..] == x[1..] + b;
      SkipsAll(x[1..], b);
    }
  }

  lemma {:induction false} CollapsedRun(a: string, x: string, b: string)
    requires x != "" && forall c | c in x :: !Kept(c)
    ensures Collapse(a + x + b) == Collapse(a + "-" + b)
    decreases |a|
  {
    if a == "" {
      CollapsedFront(x, b);
      CollapsedFront("-", b);
      assert a + x + b == x + b && a + "-" + b == "-" + b;
    } else if Kept(a[0]) {
      CollapsedRun(a[1..], x, b);
      CollapsedKept(a, x, b);
      CollapsedKept(a, "-", b);
    } else {
      var rest := SkipDropped(a[1..]);
      CollapsedAfterDrop(a, x, b);
      CollapsedAfterDrop(a, "-", b);
      if rest != "" { CollapsedRun(rest, x, b); }
    }
  }

  lemma {:induction false} CollapsedKept(a: string, x: string, b: string)
    requires a != "" && Kept(a[0])
    ensures Collapse(a + x + b) == [a[0]] + Collapse(a[1..] + x + b)
  {
    assert (a + x + b)[1..] == a[1..] + x + b;
  }

  lemma {:induction false} CollapsedFront(x: string, b: string)
    requires x != "" && forall c | c in x :: !Kept(c)
    ensures Collapse(x + b) == ['-'] + Collapse(SkipDropped(b))
  {
    assert x[0] in x && (x + b)[1..] == x[1..] + b;
    SkipsAll(x[1..], b);
  }

  lemma {:induction false} CollapsedAfterDrop(a: string, x: string, b: string)
    requires a != "" && !Kept(a[0]) && x != "" && forall c | c in x :: !Kept(c)
    ensures var rest := SkipDropped(a[1..]);
            Collapse(a + x + b) == ['-'] + if rest == "" then Collapse(SkipDropped(b)) else Collapse(rest + x + b)
  {
    var rest := SkipDropped(a[1..]);
    assert (a + x + b)[1..] == a[1..] + (x + b);
    SkipDroppedSplit(a[1..], x + b);
    SkipsAll(x, b);
    assert rest + (x + b) == rest + x + b;
  }

  /** Upper-case letters count as lower-case ones. */
  lemma {:induction false} CaseDoesNotCount(s: string)
    ensures Sanitized(LowerAll(s)) == Sanitized(s)
  {
    LowerThenCollapse(s);
    LowerAllTwice(Collapse(s));
  }

  lemma {:induction false} LowerAllTwice(s: string)
    ensures LowerAll(LowerAll(s)) == LowerAll(s)
  {
    LowerAllAt(s);
    LowerAllAt(LowerAll(s));
  }

  lemma {:induction false} LowerThenSkip(s: string)
    ensures SkipDropped(LowerAll(s)) == LowerAll(SkipDropped(s))
  {
    if s == "" {
    } else {
      LowerThenSkip(s[1..]);
    }
  }

  lemma {:induction false} LowerThenCollapse(s: string)
    ensures Collapse(LowerAll(s)) == LowerAll(Collapse(s))
    decreases |s|
  {
    if s == "" {
    } else if Kept(s[0]) {
      LowerThenCollapse(s[1..]);
    } else {
      LowerThenSkip(s[1..]);
      LowerThenCollapse(SkipDropped(s[1..]));
      LowerAllConcat(['-'], Collapse(SkipDropped(s[1..])));
    }
  }

  /** A name that needs no change is "local", the node and the device with dashes between them. */
  lemma {:induction false} PlainName(node: string, dir: string, base: string)
    requires base != "" && '/' !in base && (dir == "" || dir[|dir| - 1] == '/')
    requires var s := "local-" + node + "-" + base; NoDoubleDash(s) && forall i | 0 <= i < |s| :: NameChar(s[i])
    ensures Name(node, dir + base) == "local-" + node + "-" + base
  {
    assert dir + base + "" == dir + base;
    BaseIsLast(dir, base, "");
    NamesAreFixed("local-" + node + "-" + base);
  }
}
