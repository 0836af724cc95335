/** Path strings and the order on node names: _inode_compare and inode_nextname. */
module InodeNames {

  // The part of a path before the next slash, and the part after it.
  function Component(p: string): (c: string)
    ensures '/' !in c && |c| <= |p|
  {
    if p == "" || p[0] == '/' then "" else [p[0]] + Component(p[1..])
  }

  function NextName(p: string): (q: string)
    ensures |q| <= |p| && (p != "" ==> |q| < |p|)
  {
    if p == "" then "" else if p[0] == '/' then p[1..] else NextName(p[1..])
  }

  // The names a path is made of; a single trailing slash adds none.
  function Components(p: string): (cs: seq<string>)
    ensures |cs| > 0
    decreases |p|
  {
    if NextName(p) == "" then [Component(p)] else [Component(p)] + Components(NextName(p))
  }

  // A path without a slash is one component, and what stands in front of the first slash is
  // the first one, all of it.
  lemma {:induction false} OneComponent(p: string)
    requires '/' !in p
    ensures Component(p) == p && NextName(p) == ""
  {
    if p != "" { OneComponent(p[1..]); }
  }

  lemma {:induction false} FirstComponent(c: string, q: string)
    requires '/' !in c
    ensures Component(c + "/" + q) == c && NextName(c + "/" + q) == q
  {
    var p := c + "/" + q;
    if c == "" {
      assert p[1..] == q;
    } else {
      FirstComponent(c[1..], q);
      assert p[1..] == c[1..] + "/" + q;
    }
  }

  // Every path is of one of these two forms.
  lemma {:induction false} SplitPath(p: string)
    ensures '/' in p ==> p == Component(p) + "/" + NextName(p)
    ensures '/' !in p ==> p == Component(p) && NextName(p) == ""
  {
    if p != "" && p[0] != '/' {
      SplitPath(p[1..]);
      assert p == [p[0]] + p[1..];
    }
  }

  function Joined(cs: seq<string>): string
    requires |cs| > 0
  {
    if |cs| == 1 then cs[0] else cs[0] + "/" + Joined(cs[1..])
  }

  // The path without its trailing slash, if it has one; only one is taken off.
  function Unslashed(p: string): string {
    if p != "" && p[|p| - 1] == '/' then p[..|p| - 1] else p
  }

  // The components with slashes between them are the path, but for a trailing slash.
  lemma {:induction false} JoinComponents(p: string)
    ensures Joined(Components(p)) == Unslashed(p)
    decreases |p|
  {
    SplitPath(p);
    var c, q := Component(p), NextName(p);
    if q == "" {
      assert p == c || p == c + "/" + "";
    } else {
      JoinComponents(q);
      assert Components(p)[1..] == Components(q);
      assert Unslashed(p) == c + "/" + Unslashed(q);
    }
  }

  lemma {:induction false} TrailingSlash(p: string)
    requires p == "" || p[|p| - 1] != '/'
    ensures Components(p + "/") == Components(p)
    decreases |p|
  {
    SplitPath(p);
    var c, q := Component(p), NextName(p);
    if '/' in p {
      TrailingSlash(q);
      assert p + "/" == c + "/" + (q + "/");
      FirstComponent(c, q + "/");
      FirstComponent(c, q);
    } else {
      assert p + "/" == c + "/" + "";
      FirstComponent(c, "");
    }
  }

  // So two paths have the same components exactly when they are the same up to a trailing slash.
  lemma SameComponents(p: string, q: string)
    ensures Components(p) == Components(q) <==> Unslashed(p) == Unslashed(q)
  {
    JoinComponents(p);
    JoinComponents(q);
    if Unslashed(p) == Unslashed(q) && p != q {
      var r := Unslashed(p);
      if p == r {
        assert q == r + "/";
        TrailingSlash(p);
      } else {
        assert p == r + "/";
        assert q == r || q == r + "/";
        TrailingSlash(q);
      }
    }
  }

  // Dictionary order: -1, 0 or 1.
  function Compare(a: string, b: string): int {
    if b == "" then (if a == "" then 0 else 1)
    else if a == "" then -1
    else if a[0] > b[0] then 1
    else if a[0] < b[0] then -1
    else Compare(a[1..], b[1..])
  }

  lemma {:induction false} CompareEqual(a: string, b: string)
    ensures Compare(a, b) == 0 <==> a == b
  {
    if a != "" && b != "" && a[0] == b[0] {
      CompareEqual(a[1..], b[1..]);
      assert a == [a[0]] + a[1..] && b == [b[0]] + b[1..];
    }
  }

  // a and b agree up to i, where a has ended or goes on with the smaller character.
  predicate LessAt(a: string, b: string, i: nat) {
    i <= |a| && i < |b| && a[..i] == b[..i] && (i < |a| ==> a[i] < b[i])
  }

  lemma LessTail(a: string, b: string, i: nat)
    requires a != "" && b != "" && a[0] == b[0]
    ensures LessAt(a[1..], b[1..], i) <==> LessAt(a, b, i + 1)
  {
    if i < |a| && i < |b| {
      assert a[..i + 1] == [a[0]] + a[1..][..i] && b[..i + 1] == [b[0]] + b[1..][..i];
      assert a[1..][..i] == a[..i + 1][1..] && b[1..][..i] == b[..i + 1][1..];
    }
  }

  // That is what the order is.
  lemma {:induction false} CompareLess(a: string, b: string)
    ensures Compare(a, b) < 0 <==> exists i: nat :: LessAt(a, b, i)
  {
    if b == "" {
    } else if a == "" || a[0] < b[0] {
      assert LessAt(a, b, 0);
    } else {
      forall i: nat | LessAt(a, b, i) ensures i > 0 && a[0] == b[0] {
        assert i > 0 ==> a[..i][0] == b[..i][0];
      }
      if a[0] == b[0] {
        CompareLess(a[1..], b[1..]);
        forall i: nat ensures LessAt(a[1..], b[1..], i) <==> LessAt(a, b, i + 1) { LessTail(a, b, i); }
        if i: nat :| LessAt(a, b, i) { assert LessAt(a[1..], b[1..], i - 1); }
      }
    }
  }

  lemma {:induction false} CompareSwap(a: string, b: string)
    ensures Compare(a, b) == -Compare(b, a)
  {
    if a != "" && b != "" && a[0] == b[0] { CompareSwap(a[1..], b[1..]); }
  }

  lemma {:induction false} CompareTransitive(a: string, b: string, c: string)
    requires Compare(a, b) < 0 && Compare(b, c) < 0
    ensures Compare(a, c) < 0
  {
    if a != "" && b != "" && c != "" && a[0] == b[0] && b[0] == c[0] {
      CompareTransitive(a[1..], b[1..], c[1..]);
    }
  }

  // _inode_compare: the path is compared up to its next slash.
  method InodeCompare(fname: string, nname: string) returns (result: int)
    ensures result == Compare(Component(fname), nname)
  {
    var i := 0;
    while true
      invariant 0 <= i <= |fname| && i <= |nname|
      invariant Compare(Component(fname), nname) == Compare(Component(fname[i..]), nname[i..])
      decreases |nname| - i
    {
      if i == |nname| {
        return if i == |fname| || fname[i] == '/' then 0 else 1;
      } else if i == |fname| || fname[i] == '/' {
        return -1;
      } else if fname[i] > nname[i] {
        return 1;
      } else if fname[i] < nname[i] {
        return -1;
      }
      i := i + 1;
    }
  }

  // inode_nextname
  method InodeNextName(name: string) returns (next: string)
    ensures next == NextName(name)
  {
    var i := 0;
    while i < |name| && name[i] != '/'
      invariant 0 <= i <= |name|
      invariant NextName(name) == NextName(name[i..])
    {
      i := i + 1;
    }
    if i < |name| {
      i := i + 1;
    }
    next := name[i..];
  }
}
