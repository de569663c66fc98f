/** POSIX path helpers as Python's posixpath defines them (separator '/'):
    os.path.basename, os.path.dirname and the two-argument os.path.join. */
module Paths {

  /** The index just after the last '/' of p, 0 when p has none (p.rfind('/') + 1). */
  function SplitPoint(p: string): (k: nat)
    ensures k <= |p|
  {
    if p == [] then 0 else if p[|p| - 1] == '/' then |p| else SplitPoint(p[..|p| - 1])
  }

  /** The split point follows the last '/' of p. */
  lemma {:induction false} SplitPointFacts(p: string)
    ensures var k := SplitPoint(p);
            && (k > 0 ==> p[k - 1] == '/')
            && (forall j :: k <= j < |p| ==> p[j] != '/')
  {
    if p != [] && p[|p| - 1] != '/' {
      SplitPointFacts(p[..|p| - 1]);
    }
  }

  /** os.path.basename: everything after the last '/'. */
  function Basename(p: string): string {
    p[SplitPoint(p)..]
  }

  predicate AllSlashes(s: string) {
    forall i :: 0 <= i < |s| ==> s[i] == '/'
  }

  /** s.rstrip('/'). */
  function RStripSlashes(s: string): string {
    if s != [] && s[|s| - 1] == '/' then RStripSlashes(s[..|s| - 1]) else s
  }

  /** rstrip('/') drops the trailing slashes and nothing else. */
  lemma {:induction false} RStripSlashesFacts(s: string)
    ensures var r := RStripSlashes(s);
            && |r| <= |s| && r == s[..|r|]
            && (r == [] || r[|r| - 1] != '/')
            && (forall i :: |r| <= i < |s| ==> s[i] == '/')
  {
    if s != [] && s[|s| - 1] == '/' {
      RStripSlashesFacts(s[..|s| - 1]);
    }
  }

  /** os.path.dirname: everything up to the last '/', with the trailing slashes removed
      unless it consists of slashes only. */
  function Dirname(p: string): string {
    var head := p[..SplitPoint(p)];
    if head != [] && !AllSlashes(head) then RStripSlashes(head) else head
  }

  /** os.path.join(a, b). */
  function Join(a: string, b: string): string {
    if b != [] && b[0] == '/' then b
    else if a == [] || a[|a| - 1] == '/' then a + b
    else a + "/" + b
  }

  /** A single path component, as os.listdir returns them. */
  predicate IsName(n: string) {
    '/' !in n
  }

  /** The shape every result of Dirname has: empty, all slashes, or not ending in '/'. */
  predicate IsDirnameShape(d: string) {
    d == [] || AllSlashes(d) || d[|d| - 1] != '/'
  }

  lemma {:induction false} SplitPointAfterSeparator(x: string, n: string)
    requires x == [] || x[|x| - 1] == '/'
    requires IsName(n)
    ensures SplitPoint(x + n) == |x|
    decreases |n|
  {
    if n == [] {
      assert x + n == x;
    } else {
      var n' := n[..|n| - 1];
      assert n[|n| - 1] in n;
      assert forall c :: c in n' ==> c in n;
      assert (x + n)[..|x + n| - 1] == x + n';
      SplitPointAfterSeparator(x, n');
    }
  }

  /** Joining a name onto any directory gives a path whose basename is that name. */
  lemma BasenameOfJoin(d: string, n: string)
    requires IsName(n)
    ensures Basename(Join(d, n)) == n
  {
    assert n != [] ==> n[0] in n;
    var x := if d == [] || d[|d| - 1] == '/' then d else d + "/";
    assert Join(d, n) == x + n;
    SplitPointAfterSeparator(x, n);
    assert (x + n)[|x|..] == n;
  }

  /** A name joined onto "" or onto a directory ending in '/' keeps that directory as dirname
      when the directory is "" or all slashes. */
  lemma DirnameOfJoinSlash(d: string, n: string)
    requires IsName(n) && (d == [] || d[|d| - 1] == '/') && (d == [] || AllSlashes(d))
    ensures Dirname(d + n) == d
  {
    SplitPointAfterSeparator(d, n);
    assert (d + n)[..|d|] == d;
  }

  /** A name joined onto a directory that does not end in '/' has that directory as dirname. */
  lemma DirnameOfJoinPlain(d: string, n: string)
    requires IsName(n) && d != [] && d[|d| - 1] != '/'
    ensures Dirname(d + "/" + n) == d
  {
    var x := d + "/";
    assert d + "/" + n == x + n;
    SplitPointAfterSeparator(x, n);
    assert (x + n)[..|x|] == x;
    assert x[|x| - 2] != '/';
    assert !AllSlashes(x);
    assert x[..|x| - 1] == d;
    assert RStripSlashes(x) == RStripSlashes(d) == d;
  }

  /** Joining a name onto a directory of dirname shape gives a path whose dirname is that directory. */
  lemma DirnameOfJoin(d: string, n: string)
    requires IsName(n)
    requires IsDirnameShape(d)
    ensures Dirname(Join(d, n)) == d
  {
    assert n != [] ==> n[0] in n;
    if d == [] {
      assert Join(d, n) == d + n;
      DirnameOfJoinSlash(d, n);
    } else if d[|d| - 1] == '/' {
      assert Join(d, n) == d + n;
      DirnameOfJoinSlash(d, n);
    } else {
      assert Join(d, n) == d + "/" + n;
      DirnameOfJoinPlain(d, n);
    }
  }

  lemma DirnameShape(p: string)
    ensures IsDirnameShape(Dirname(p))
  {
    RStripSlashesFacts(p[..SplitPoint(p)]);
  }

  /** The rename target join(dirname(p), n) lies in the directory of p and is called n. */
  lemma RenameTarget(p: string, n: string)
    requires IsName(n)
    ensures Basename(Join(Dirname(p), n)) == n
    ensures Dirname(Join(Dirname(p), n)) == Dirname(p)
  {
    BasenameOfJoin(Dirname(p), n);
    DirnameShape(p);
    DirnameOfJoin(Dirname(p), n);
  }

  /** Distinct names give distinct joined paths under one directory. */
  lemma JoinInjective(d: string, a: string, b: string)
    requires IsName(a) && IsName(b)
    ensures Join(d, a) == Join(d, b) <==> a == b
  {
    BasenameOfJoin(d, a);
    BasenameOfJoin(d, b);
  }
}
