/** The inode tree in memory: search, reserve, remove, and deferred deletion. */
module Vfs {
  import opened InodeNames
  import opened InodeForest
  import opened InodeShape

  // Removed inodes that are still referenced: each has no siblings, but keeps its children.
  ghost predicate Buried(k: Links, g: Forest) {
    match g
    case Nil => true
    case Cons(n, c, p) => Has(k, n) && k.peer[n] == null && Shape(k, k.child[n], c) && Buried(k, p)
  }

  function Tops(g: Forest): set<Inode> {
    match g
    case Nil => {}
    case Cons(n, _, p) => {n} + Tops(p)
  }

  lemma {:induction false} BuriedKept(k: Links, k': Links, g: Forest)
    requires Buried(k, g)
    requires forall n :: n in Nodes(g) ==> Has(k', n)
    requires forall n :: n in Nodes(g) && Has(k, n) && Has(k', n) ==>
      k'.child[n] == k.child[n] && k'.peer[n] == k.peer[n]
    ensures Buried(k', g)
  {
    if g.Cons? {
      ShapeKept(k, k', k.child[g.node], g.kids);
      BuriedKept(k, k', g.peers);
    }
  }

  // The tree and the removed inodes partition what is allocated, and the pointers show both.
  ghost predicate WiredTree(k: Links, h: Inode?, tree: Forest, graves: Forest, live: set<Inode>) {
    && Shape(k, h, tree) && Buried(k, graves)
    && Distinct(tree) && Distinct(graves) && Nodes(tree) !! Nodes(graves)
    && live == Nodes(tree) + Nodes(graves)
  }

  ghost predicate Blank(n: Inode)
    reads n
  {
    n.i_child == null && n.i_crefs == 0 && !n.deleted && !n.mountpt
  }

  // A removed inode leaves the graves.
  function Exhume(g: Forest, node: Inode): Forest {
    match g
    case Nil => Nil
    case Cons(n, c, p) => if n == node then p else Cons(n, c, Exhume(p, node))
  }

  function GraveKids(g: Forest, node: Inode): Forest {
    match g
    case Nil => Nil
    case Cons(n, c, p) => if n == node then c else GraveKids(p, node)
  }

  lemma {:induction false} TopsInside(g: Forest)
    ensures Tops(g) <= Nodes(g)
  {
    if g.Cons? { TopsInside(g.peers); }
  }

  lemma {:induction false} ExhumeNodes(g: Forest, node: Inode)
    requires Distinct(g) && node in Tops(g)
    ensures Nodes(g) == Nodes(Exhume(g, node)) + {node} + Nodes(GraveKids(g, node))
    ensures node !in Nodes(Exhume(g, node)) && node !in Nodes(GraveKids(g, node))
    ensures Nodes(Exhume(g, node)) !! Nodes(GraveKids(g, node)) && Nodes(GraveKids(g, node)) !! Tops(g)
    ensures Distinct(Exhume(g, node)) && Distinct(GraveKids(g, node)) && Tops(Exhume(g, node)) == Tops(g) - {node}
  {
    TopsInside(g.peers);
    if g.node != node { ExhumeNodes(g.peers, node); }
  }

  lemma {:induction false} GraveShape(k: Links, g: Forest, node: Inode)
    requires Buried(k, g) && node in Tops(g)
    ensures Has(k, node) && Shape(k, k.child[node], GraveKids(g, node)) && Buried(k, Exhume(g, node))
  {
    if g.node != node { GraveShape(k, g.peers, node); }
  }

  lemma ExhumedTree(k: Links, k': Links, h: Inode?, f: Forest, g: Forest, node: Inode, live: set<Inode>)
    requires WiredTree(k, h, f, g, live) && node in Tops(g)
    requires forall n :: n in live && n != node && n !in Nodes(GraveKids(g, node)) ==> Has(k, n) && Has(k', n)
    requires forall n :: n in live && Has(k, n) && Has(k', n) ==> k'.child[n] == k.child[n] && k'.peer[n] == k.peer[n]
    ensures WiredTree(k', h, f, Exhume(g, node), live - {node} - Nodes(GraveKids(g, node)))
  {
    ExhumeNodes(g, node);
    GraveShape(k, g, node);
    ShapeKept(k, k', h, f);
    BuriedKept(k, k', Exhume(g, node));
  }

  datatype Status = OK | EINVAL | ENOENT | EBUSY

  // The inode a removal of p takes out, and what hangs below it.
  ghost function Victim(f: Forest, ms: set<Inode>, p: string): Inode
    requires Resolve(f, ms, Components(p)).Some?
  {
    Resolve(f, ms, Components(p)).value.0
  }

  ghost function Orphans(f: Forest, ms: set<Inode>, p: string): Forest
    requires Resolve(f, ms, Components(p)).Some?
  {
    Below(f, Victim(f, ms, p))
  }

  // In the tree f' the names that led to the victim, and all below them, lead nowhere.
  ghost predicate RemovalOf(f: Forest, ms: set<Inode>, p: string, f': Forest, ms': set<Inode>) {
    var cs := Components(p);
    var r := Resolve(f, ms, cs);
    r.Some? && forall qs :: |qs| > 0 ==>
      Resolve(f', ms', qs) == if Under(qs, cs, |cs| - |r.value.1|) then None else Resolve(f, ms, qs)
  }

  lemma RemovalWorks(f: Forest, ms: set<Inode>, p: string)
    requires Sorted(f) && Distinct(f) && Search(f, ms, null, null, p).Hit?
    ensures RemovalOf(f, ms, p, Drop(f, Search(f, ms, null, null, p).node), ms)
    ensures Resolve(f, ms, Components(p)).Some? && Victim(f, ms, p) == Search(f, ms, null, null, p).node
  {
    SearchResolves(f, ms, null, null, p);
    forall qs: seq<string> | |qs| > 0
      ensures Resolve(Drop(f, Victim(f, ms, p)), ms, qs)
        == if Under(qs, Components(p), |Components(p)| - |Resolve(f, ms, Components(p)).value.1|) then None
           else Resolve(f, ms, qs)
    {
      DropResolves(f, ms, null, null, p, qs);
    }
  }

  lemma {:induction false} SameMounts(f: Forest, ms: set<Inode>, ms': set<Inode>, qs: seq<string>)
    requires |qs| > 0 && ms * Nodes(f) == ms' * Nodes(f)
    ensures Resolve(f, ms, qs) == Resolve(f, ms', qs)
    decreases |qs|, f
  {
    if f.Cons? {
      assert f.node in ms <==> f.node in ms * Nodes(f);
      assert f.node in ms' <==> f.node in ms' * Nodes(f);
      if f.node.i_name == qs[0] {
        assert ms * Nodes(f.kids) == (ms * Nodes(f)) * Nodes(f.kids) == ms' * Nodes(f.kids);
        if |qs| > 1 { SameMounts(f.kids, ms, ms', qs[1..]); }
      } else {
        assert ms * Nodes(f.peers) == (ms * Nodes(f)) * Nodes(f.peers) == ms' * Nodes(f.peers);
        SameMounts(f.peers, ms, ms', qs);
        assert Sibling(f, qs[0]) == Sibling(f.peers, qs[0]);
      }
    }
  }

  lemma MountsAgree(f: Forest, ms: set<Inode>, p: string, f': Forest, ms': set<Inode>)
    requires RemovalOf(f, ms, p, f', ms) && ms * Nodes(f') == ms' * Nodes(f')
    ensures RemovalOf(f, ms, p, f', ms')
  {
    forall qs: seq<string> | |qs| > 0 ensures Resolve(f', ms, qs) == Resolve(f', ms', qs) {
      SameMounts(f', ms, ms', qs);
    }
  }

  lemma FreedTree(k: Links, k': Links, h: Inode?, rest: Forest, node: Inode, kids: Forest, g: Forest, live: set<Inode>)
    requires WiredTree(k, h, rest, Cons(node, kids, g), live)
    requires forall n :: n in live && n != node && n !in Nodes(kids) ==> Has(k, n) && Has(k', n)
    requires forall n :: n in live && Has(k, n) && Has(k', n) ==> k'.child[n] == k.child[n] && k'.peer[n] == k.peer[n]
    ensures WiredTree(k', h, rest, g, live - {node} - Nodes(kids))
  {
    ShapeKept(k, k', h, rest);
    BuriedKept(k, k', g);
  }

  // The pointers the search reports lie outside what hangs below the inode found.
  lemma {:induction false} AboveOutside(f: Forest, ms: set<Inode>, left: Inode?, above: Inode?, name: string)
    requires Distinct(f) && Search(f, ms, left, above, name).Hit?
    requires (left == null || left !in Nodes(f)) && (above == null || above !in Nodes(f))
    ensures var m := Search(f, ms, left, above, name);
      && (m.left == null || m.left !in Nodes(Below(f, m.node)))
      && (m.above == null || m.above !in Nodes(Below(f, m.node)))
      && m.node != m.left && m.node != m.above
    decreases f
  {
    var n := f.node;
    var c := Compare(Component(name), n.i_name);
    HitShorter(f, ms, left, above, name);
    if c > 0 {
      HitShorter(f.peers, ms, n, above, name);
      AboveOutside(f.peers, ms, n, above, name);
    } else if NextName(name) != "" && n !in ms {
      HitShorter(f.kids, ms, null, n, NextName(name));
      AboveOutside(f.kids, ms, null, n, NextName(name));
    }
    DropNodes(f, Search(f, ms, left, above, name).node);
  }

  lemma Inside(f: Forest, ms: set<Inode>, p: string)
    requires Search(f, ms, null, null, p).Hit? && Distinct(f)
    ensures var m := Search(f, ms, null, null, p);
      && m.node in Nodes(f) && (m.left != null ==> m.left in Nodes(f)) && (m.above != null ==> m.above in Nodes(f))
      && m.node != m.left && m.node != m.above
  {
    HitShorter(f, ms, null, null, p);
    HitPlace(f, ms, null, null, p);
    AboveOutside(f, ms, null, null, p);
  }

  // What inode_unlink does to the links.
  ghost predicate CutOut(k: Links, k': Links, h: Inode?, h': Inode?, live: set<Inode>,
                         l: Inode?, a: Inode?, node: Inode)
  {
    && Has(k, node) && Has(k', node) && k'.peer[node] == null
    && (forall n :: n in live ==> Has(k, n) && Has(k', n))
    && (forall n :: n in live && n != node && n != l && Has(k, n) && Has(k', n) ==> k'.peer[n] == k.peer[n])
    && (forall n :: n in live && (n != a || l != null) && Has(k, n) && Has(k', n) ==> k'.child[n] == k.child[n])
    && (l != null ==> Has(k', l) && k'.peer[l] == k.peer[node])
    && (l == null && a != null ==> Has(k', a) && k'.child[a] == k.peer[node])
    && h' == if l == null && a == null then k.peer[node] else h
  }

  lemma {:induction false} BelowShape(k: Links, h: Inode?, f: Forest, node: Inode)
    requires Shape(k, h, f) && node in Nodes(f)
    ensures Has(k, node) && Shape(k, k.child[node], Below(f, node))
  {
    if f.node != node {
      if node in Nodes(f.kids) { BelowShape(k, k.child[f.node], f.kids, node); }
      else { BelowShape(k, k.peer[f.node], f.peers, node); }
    }
  }

  lemma BuriedNext(k: Links, k': Links, h: Inode?, f: Forest, g: Forest, live: set<Inode>, node: Inode)
    requires WiredTree(k, h, f, g, live) && node in Nodes(f) && Has(k, node) && Has(k', node) && k'.peer[node] == null
    requires forall n :: n in live ==> Has(k, n) && Has(k', n)
    requires forall n :: n in Nodes(g) + Nodes(Below(f, node)) && Has(k, n) && Has(k', n) ==>
      k'.peer[n] == k.peer[n] && k'.child[n] == k.child[n]
    requires k'.child[node] == k.child[node]
    ensures Buried(k', Cons(node, Below(f, node), g))
  {
    DropNodes(f, node);
    BelowShape(k, h, f, node);
    ShapeKept(k, k', k.child[node], Below(f, node));
    BuriedKept(k, k', g);
  }

  lemma CutShape(k: Links, k': Links, h: Inode?, h': Inode?, f: Forest, live: set<Inode>,
                 ms: set<Inode>, p: string, m: Found)
    requires Shape(k, h, f) && Distinct(f) && Nodes(f) <= live && Search(f, ms, null, null, p) == m && m.Hit?
    requires CutOut(k, k', h, h', live, m.left, m.above, m.node)
    ensures Shape(k', h', Drop(f, m.node)) && m.node in Nodes(f)
    ensures (m.left != null ==> m.left in Nodes(f)) && (m.above != null ==> m.above in Nodes(f))
  {
    HitShorter(f, ms, null, null, p);
    HitPlace(f, ms, null, null, p);
    DropShape(k, k', h, f, ms, null, null, p);
  }

  // Cutting out what a search found leaves the tree without it, and the inode with its
  // children beside the tree.
  lemma RemovedTree(k: Links, k': Links, h: Inode?, h': Inode?, f: Forest, g: Forest, live: set<Inode>,
                    ms: set<Inode>, p: string, m: Found)
    requires WiredTree(k, h, f, g, live) && Search(f, ms, null, null, p) == m && m.Hit?
    requires CutOut(k, k', h, h', live, m.left, m.above, m.node)
    ensures WiredTree(k', h', Drop(f, m.node), Cons(m.node, Below(f, m.node), g), live)
  {
    CutShape(k, k', h, h', f, live, ms, p, m);
    DropNodes(f, m.node);
    AboveOutside(f, ms, null, null, p);
    BuriedNext(k, k', h, f, g, live, m.node);
  }

  // Where qs leads after the path cs has been reserved.
  ghost function Reserved(f: Forest, ms: set<Inode>, cs: seq<string>, ns: seq<Inode>, qs: seq<string>):
    Option<(Inode, seq<string>)>
    requires |qs| > 0
  {
    if Added(qs, cs, ns) then Some((ns[|qs| - 1 - (|cs| - |ns|)], [])) else Resolve(f, ms, qs)
  }

  // Every path leads where it should in the new tree f'.
  ghost predicate ReservationOf(f: Forest, ms: set<Inode>, cs: seq<string>, ns: seq<Inode>, f': Forest) {
    0 < |ns| <= |cs| && forall qs :: |qs| > 0 ==> Resolve(f', ms, qs) == Reserved(f, ms, cs, ns, qs)
  }

  lemma ReserveWorks(f: Forest, ms: set<Inode>, p: string, ns: seq<Inode>)
    requires Sorted(f) && |ns| > 0 && Search(f, ms, null, null, p).Miss?
    requires Named(ns, Components(Search(f, ms, null, null, p).name)) && forall n :: n in ns ==> n !in ms
    ensures Sorted(Add(f, ms, p, ns)) && ReservationOf(f, ms, Components(p), ns, Add(f, ms, p, ns))
  {
    AddSorted(f, ms, null, null, p, ns);
    MissShorter(f, ms, null, null, p);
    forall qs: seq<string> | |qs| > 0
      ensures Resolve(Add(f, ms, p, ns), ms, qs) == Reserved(f, ms, Components(p), ns, qs)
    {
      AddResolves(f, ms, null, null, p, ns, qs);
    }
  }

  // The tree so far is the old one with the chain ns added, and the names still to come.
  ghost predicate Growing(f0: Forest, ms: set<Inode>, p: string, ns: seq<Inode>, f: Forest,
                          left: Inode?, above: Inode?, name: string, name0: string)
  {
    match Search(f0, ms, null, null, p)
    case Hit(_, _, _, _) => false
    case Miss(left0, above0, rest) =>
      && rest == name0 && Distinct(f0) && (forall n :: n in ns ==> n !in Nodes(f0))
      && (forall i, j :: 0 <= i < j < |ns| ==> ns[i] != ns[j])
      && |ns| < |Components(name0)| && Named(ns, Components(name0)[..|ns|])
      && Components(name0)[|ns|..] == Components(name)
      && (left != null ==> left in Nodes(f)) && (above != null ==> above in Nodes(f))
      && if ns == [] then f == f0 && Miss(left0, above0, rest) == Miss(left, above, name)
         else f == Add(f0, ms, p, ns) && left == null && above == ns[|ns| - 1]
  }

  lemma StartGrowing(f0: Forest, ms: set<Inode>, p: string, left: Inode?, above: Inode?, name: string)
    requires Distinct(f0) && Search(f0, ms, null, null, p) == Miss(left, above, name)
    ensures Growing(f0, ms, p, [], f0, left, above, name, name)
  {
    MissPlace(f0, ms, null, null, p);
    assert Components(name)[0..] == Components(name);
  }

  lemma GrowNames(ns: seq<Inode>, name0: string, name: string, t: Inode)
    requires |ns| < |Components(name0)| && Named(ns, Components(name0)[..|ns|])
    requires Components(name0)[|ns|..] == Components(name) && t.i_name == Component(name)
    ensures Named(ns + [t], Components(name0)[..|ns| + 1])
    ensures NextName(name) == "" ==> |ns| + 1 == |Components(name0)|
    ensures NextName(name) != "" ==> |ns| + 1 < |Components(name0)|
    ensures NextName(name) != "" ==> Components(name0)[|ns| + 1..] == Components(NextName(name))
  {
    var cs := Components(name0);
    assert cs[|ns|] == cs[|ns|..][0] == Component(name);
    assert cs[|ns| + 1..] == cs[|ns|..][1..];
    forall i | 0 <= i < |ns| ensures ns[i].i_name == cs[i] && '/' !in cs[i] { assert cs[i] == cs[..|ns|][i]; }
  }

  lemma GrowTree(f0: Forest, ms: set<Inode>, p: string, ns: seq<Inode>, f: Forest,
                 left: Inode?, above: Inode?, name: string, name0: string, t: Inode)
    requires Growing(f0, ms, p, ns, f, left, above, name, name0)
    requires t !in Nodes(f0) && t !in ns && t.i_name == Component(name)
    ensures InsertAt(f, left, above, t) == Add(f0, ms, p, ns + [t])
    ensures t in Nodes(InsertAt(f, left, above, t))
  {
    if ns == [] {
      AddIsInsert(f0, ms, null, null, p, t);
      assert ns + [t] == [t];
    } else {
      AddGrows(f0, ms, null, null, p, ns, t);
    }
    AddNodes(f0, ms, null, null, p, ns + [t]);
  }

  lemma GrowStep(f0: Forest, ms: set<Inode>, p: string, ns: seq<Inode>, f: Forest,
                 left: Inode?, above: Inode?, name: string, name0: string, t: Inode)
    requires Growing(f0, ms, p, ns, f, left, above, name, name0)
    requires t !in Nodes(f0) && t !in ns && t.i_name == Component(name)
    ensures InsertAt(f, left, above, t) == Add(f0, ms, p, ns + [t])
    ensures if NextName(name) == "" then Named(ns + [t], Components(name0))
      else Growing(f0, ms, p, ns + [t], InsertAt(f, left, above, t), null, t, NextName(name), name0)
  {
    GrowTree(f0, ms, p, ns, f, left, above, name, name0, t);
    GrowNames(ns, name0, name, t);
  }

  // What those writes do to the links, seen from outside.
  ghost predicate LinkedIn(k: Links, k': Links, h: Inode?, h': Inode?, live: set<Inode>,
                           left: Inode?, above: Inode?, t: Inode)
  {
    && Has(k', t) && k'.child[t] == null
    && (forall n :: n in live ==> Has(k, n) && Has(k', n))
    && (forall n :: n in live && Has(k, n) && Has(k', n) && n != left ==> k'.peer[n] == k.peer[n])
    && (forall n :: n in live && Has(k, n) && Has(k', n) && (n != above || left != null) ==> k'.child[n] == k.child[n])
    && (left != null ==> Has(k, left) && Has(k', left) && k'.peer[left] == t && k'.peer[t] == k.peer[left])
    && (left == null && above != null ==>
        Has(k, above) && Has(k', above) && k'.child[above] == t && k'.peer[t] == k.child[above])
    && (left == null && above == null ==> k'.peer[t] == h)
    && h' == if left == null && above == null then t else h
  }

  lemma {:induction false} PeerNodes(f: Forest, l: Inode, t: Inode)
    requires Distinct(f) && t !in Nodes(f) && l in Nodes(f)
    ensures Nodes(InsertPeer(f, l, t)) == Nodes(f) + {t} && Distinct(InsertPeer(f, l, t))
  {
    if f.node != l {
      OneSide(f, l, t);
      if l in Nodes(f.kids) { PeerNodes(f.kids, l, t); } else { PeerNodes(f.peers, l, t); }
    } else {
      assert Nodes(Cons(t, Nil, f.peers)) == {t} + Nodes(f.peers);
    }
  }

  lemma {:induction false} KidNodes(f: Forest, l: Inode, t: Inode)
    requires Distinct(f) && t !in Nodes(f) && l in Nodes(f)
    ensures Nodes(InsertKid(f, l, t)) == Nodes(f) + {t} && Distinct(InsertKid(f, l, t))
  {
    if f.node != l {
      OneSide(f, l, t);
      if l in Nodes(f.kids) { KidNodes(f.kids, l, t); } else { KidNodes(f.peers, l, t); }
    } else {
      assert Nodes(Cons(t, Nil, f.kids)) == {t} + Nodes(f.kids);
    }
  }

  lemma InsertNodes(f: Forest, l: Inode, t: Inode)
    requires Distinct(f) && t !in Nodes(f) && l in Nodes(f)
    ensures Nodes(InsertPeer(f, l, t)) == Nodes(f) + {t} && Distinct(InsertPeer(f, l, t))
    ensures Nodes(InsertKid(f, l, t)) == Nodes(f) + {t} && Distinct(InsertKid(f, l, t))
  {
    PeerNodes(f, l, t);
    KidNodes(f, l, t);
  }

  lemma InsertedShape(k: Links, k': Links, h: Inode?, f: Forest, left: Inode?, above: Inode?, t: Inode)
    requires Shape(k, h, f) && Distinct(f) && t !in Nodes(f) && Has(k', t) && k'.child[t] == null
    requires forall n :: n in Nodes(f) ==> Has(k, n) && Has(k', n)
    requires forall n :: n in Nodes(f) && Has(k, n) && Has(k', n) && n != left ==> k'.peer[n] == k.peer[n]
    requires forall n :: n in Nodes(f) && Has(k, n) && Has(k', n) && (n != above || left != null) ==>
      k'.child[n] == k.child[n]
    requires left != null ==> left in Nodes(f) && Has(k, left) && Has(k', left)
    requires left != null ==> k'.peer[left] == t && k'.peer[t] == k.peer[left]
    requires left == null && above != null ==> above in Nodes(f) && Has(k, above) && Has(k', above)
    requires left == null && above != null ==> k'.child[above] == t && k'.peer[t] == k.child[above]
    requires left == null && above == null ==> k'.peer[t] == h
    ensures Shape(k', if left == null && above == null then t else h, InsertAt(f, left, above, t))
    ensures Nodes(InsertAt(f, left, above, t)) == Nodes(f) + {t} && Distinct(InsertAt(f, left, above, t))
  {
    if left != null {
      PeerShape(k, k', h, f, left, t);
      InsertNodes(f, left, t);
    } else if above != null {
      KidShape(k, k', h, f, above, t);
      InsertNodes(f, above, t);
    } else {
      ShapeKept(k, k', h, f);
    }
  }

  lemma InsertedTree(k: Links, k': Links, h: Inode?, h': Inode?, f: Forest, g: Forest, live: set<Inode>,
                     left: Inode?, above: Inode?, t: Inode)
    requires WiredTree(k, h, f, g, live) && t !in live && LinkedIn(k, k', h, h', live, left, above, t)
    requires (left != null ==> left in Nodes(f)) && (above != null ==> above in Nodes(f))
    ensures WiredTree(k', h', InsertAt(f, left, above, t), g, live + {t})
  {
    InsertedShape(k, k', h, f, left, above, t);
    BuriedKept(k, k', g);
  }

  // The inodes ns have come to be since live0 was all there was.
  ghost predicate Newly(live0: set<Inode>, live: set<Inode>, ns: seq<Inode>) {
    live0 <= live && forall n :: n in ns ==> n in live - live0
  }

  lemma NewlyMore(live0: set<Inode>, live: set<Inode>, ns: seq<Inode>, f0: Forest, t: Inode)
    requires Newly(live0, live, ns) && t !in live && Nodes(f0) <= live0
    ensures Newly(live0, live + {t}, ns + [t]) && t !in Nodes(f0) && t !in ns
  {
  }

  class FileSystem {
    var root_inode: Inode?
    ghost var tree: Forest
    ghost var graves: Forest
    ghost var live: set<Inode>  // allocated and not yet freed

    ghost function Deleted(): set<Inode>
      reads `live, live
    {
      set n | n in live && n.deleted
    }

    ghost function Held(): set<Inode>
      reads `live, live
    {
      set n | n in live && n.i_crefs > 0
    }

    ghost predicate Wired()
      reads this, live
    {
      && WiredTree(LinksOf(live), root_inode, tree, graves, live)
      && Deleted() == Tops(graves) <= Held()
    }

    ghost predicate Valid()
      reads this, live
    {
      Wired() && Sorted(tree)
    }

    // No referenced inode hangs below a removed one.
    ghost predicate Quiet()
      reads this, live
    {
      (Nodes(graves) - Tops(graves)) !! Held()
    }

    ghost function Mounts(): set<Inode>
      reads `live, live
    {
      set n | n in live && n.mountpt
    }

    // A removed inode, and whatever hangs below it, cannot be reached by any path.
    lemma RemovedUnreachable(qs: seq<string>)
      requires Valid() && |qs| > 0 && Resolve(tree, Mounts(), qs).Some?
      ensures Resolve(tree, Mounts(), qs).value.0 in live - Nodes(graves)
      ensures !Resolve(tree, Mounts(), qs).value.0.deleted
    {
      ResolveInside(tree, Mounts(), qs);
      TopsInside(graves);
      assert Resolve(tree, Mounts(), qs).value.0 !in Deleted();
    }

    constructor ()
      ensures Valid() && Quiet() && tree == Nil && live == {}
    {
      root_inode := null;
      tree, graves, live := Nil, Nil, {};
    }

    // The loop of inode_search, from the root or further down.
    method InodeSearch(path: string) returns (node: Inode?, left: Inode?, above: Inode?, name: string)
      requires Valid() && path != ""
      ensures (if node == null then Miss(left, above, name) else Hit(node, left, above, name))
        == Search(tree, Mounts(), null, null, path[1..])
    {
      name, node, left, above := path[1..], root_inode, null, null;
      ghost var f, k, ms := tree, LinksOf(live), Mounts();
      while node != null
        invariant Shape(k, node, f) && Nodes(f) <= live
        invariant Search(f, ms, left, above, name) == Search(tree, ms, null, null, path[1..])
        decreases f
      {
        var result := InodeCompare(name, node.i_name);
        if result < 0 {
          node := null;
          return;
        } else if result > 0 {
          left, node := node, node.i_peer;
          f := f.peers;
        } else {
          name := InodeNextName(name);
          if name == "" || node.mountpt {
            return;
          }
          above, left, node := node, null, node.i_child;
          f := f.kids;
        }
      }
    }

    // The ghost side of an insertion.
    ghost method Adopt(node: Inode, f: Forest)
      requires WiredTree(LinksOf(live + {node}), root_inode, f, graves, live + {node})
      requires Deleted() == Tops(graves) <= Held() && !node.deleted && node.i_crefs == 0 && !node.mountpt
      modifies `tree, `live
      ensures Wired() && tree == f && live == old(live) + {node}
      ensures Mounts() == old(Mounts()) && Held() == old(Held())
    {
      tree, live := f, live + {node};
      assert Deleted() == old(Deleted());
      assert Held() == old(Held());
    }

    method WritePointers(node: Inode, left: Inode?, above: Inode?)
      requires node !in live && (left != null ==> left in live) && (above != null ==> above in live)
      requires Blank(node)
      modifies `root_inode, node`i_peer
      modifies (if left == null then {} else {left})`i_peer, (if above == null then {} else {above})`i_child
      ensures LinkedIn(old(LinksOf(live)), LinksOf(live + {node}), old(root_inode), root_inode, live, left, above, node)
    {
      if left != null {
        node.i_peer := left.i_peer;
        left.i_peer := node;
      } else if above != null {
        node.i_peer := above.i_child;
        above.i_child := node;
      } else {
        node.i_peer := root_inode;
        root_inode := node;
      }
    }

    method WriteLinks(node: Inode, left: Inode?, above: Inode?)
      requires node !in live && (left != null ==> left in live) && (above != null ==> above in live)
      requires Blank(node)
      modifies `root_inode, node`i_peer
      modifies (if left == null then {} else {left})`i_peer, (if above == null then {} else {above})`i_child
      ensures LinkedIn(old(LinksOf(live)), LinksOf(live + {node}), old(root_inode), root_inode, live, left, above, node)
      ensures Deleted() == old(Deleted()) && Held() == old(Held()) && Mounts() == old(Mounts()) && Blank(node)
    {
      WritePointers(node, left, above);
    }

    // inode_insert
    method InodeInsert(node: Inode, left: Inode?, above: Inode?)
      requires Wired() && (left != null ==> left in Nodes(tree)) && (above != null ==> above in Nodes(tree))
      requires node !in live && Blank(node)
      modifies `root_inode, `tree, `live, node`i_peer, live`i_peer, live`i_child
      ensures Wired() && tree == InsertAt(old(tree), left, above, node)
      ensures live == old(live) + {node} && Mounts() == old(Mounts()) && Held() == old(Held())
    {
      WriteLinks(node, left, above);
      InsertedTree(old(LinksOf(live)), LinksOf(live + {node}), old(root_inode), root_inode, tree, graves, live,
                   left, above, node);
      Adopt(node, InsertAt(tree, left, above, node));
    }

    // inode_alloc and inode_insert
    method NewInode(left: Inode?, above: Inode?, name: string) returns (node: Inode)
      requires Wired() && (left != null ==> left in Nodes(tree)) && (above != null ==> above in Nodes(tree))
      modifies `root_inode, `tree, `live, live`i_peer, live`i_child
      ensures Wired() && fresh(node) && live == old(live) + {node} && node.i_name == name
      ensures Mounts() == old(Mounts()) && Held() == old(Held())
      ensures tree == InsertAt(old(tree), left, above, node)
    {
      node := new Inode(name);
      InodeInsert(node, left, above);
    }

    // One new inode: inode_alloc and inode_insert.
    method AddOne(ghost f0: Forest, ghost ms: set<Inode>, ghost p: string, ghost ns: seq<Inode>,
                  left: Inode?, above: Inode?, name: string, ghost name0: string, ghost live0: set<Inode>)
      returns (node: Inode, next: string)
      requires Wired() && Growing(f0, ms, p, ns, tree, left, above, name, name0)
      requires Nodes(f0) <= live0 && Newly(live0, live, ns)
      modifies `root_inode, `tree, `live, live`i_peer, live`i_child
      ensures Wired() && fresh(node) && live == old(live) + {node} && Newly(live0, live, ns + [node])
      ensures Mounts() == old(Mounts()) && Held() == old(Held())
      ensures if next == "" then tree == Add(f0, ms, p, ns + [node]) && Named(ns + [node], Components(name0))
        else Growing(f0, ms, p, ns + [node], tree, null, node, next, name0) && |next| < |name|
    {
      ghost var f := tree;
      node := NewInode(left, above, Component(name));
      NewlyMore(live0, old(live), ns, f0, node);
      GrowStep(f0, ms, p, ns, f, left, above, name, name0, node);
      next := InodeNextName(name);
    }

    // The loop of inode_reserve: one new inode for each missing name.
    method InsertMissing(ghost p: string, left0: Inode?, above0: Inode?, name0: string)
      returns (node: Inode, ghost ns: seq<Inode>)
      requires Wired() && Search(tree, Mounts(), null, null, p) == Miss(left0, above0, name0)
      modifies `root_inode, `tree, `live, live`i_peer, live`i_child
      ensures Wired() && fresh(live - old(live)) && Newly(old(live), live, ns)
      ensures |ns| > 0 && Named(ns, Components(name0)) && node == ns[|ns| - 1]
      ensures tree == Add(old(tree), old(Mounts()), p, ns)
      ensures Mounts() == old(Mounts()) && Held() == old(Held())
    {
      ghost var f0, ms := tree, Mounts();
      var left, above, name := left0, above0, name0;
      ns := [];
      StartGrowing(f0, ms, p, left, above, name);
      while true
        invariant Wired() && fresh(live - old(live)) && Newly(old(live), live, ns)
        invariant Growing(f0, ms, p, ns, tree, left, above, name, name0)
        invariant Mounts() == ms && Held() == old(Held())
        decreases |name|
      {
        var next;
        node, next := AddOne(f0, ms, p, ns, left, above, name, name0, old(live));
        ns := ns + [node];
        if next == "" { return; }
        name, left, above := next, null, node;
      }
    }

    // inode_search, with what the result means.
    method Lookup(path: string) returns (node: Inode?, left: Inode?, above: Inode?, name: string)
      requires Valid() && path != ""
      ensures (if node == null then Miss(left, above, name) else Hit(node, left, above, name))
        == Search(tree, Mounts(), null, null, path[1..])
      ensures Resolve(tree, Mounts(), Components(path[1..])) == if node == null then None else Some((node, Rest(name)))
    {
      node, left, above, name := InodeSearch(path);
      SearchResolves(tree, Mounts(), null, null, path[1..]);
    }

    method ReserveAt(ghost p: string, left: Inode?, above: Inode?, name: string)
      returns (node: Inode, ghost ns: seq<Inode>)
      requires Valid() && Search(tree, Mounts(), null, null, p) == Miss(left, above, name)
      modifies `root_inode, `tree, `live, live`i_peer, live`i_child
      ensures Valid() && fresh(live - old(live)) && Newly(old(live), live, ns)
      ensures Mounts() == old(Mounts()) && Held() == old(Held())
      ensures |ns| > 0 && node == ns[|ns| - 1]
      ensures ReservationOf(old(tree), Mounts(), Components(p), ns, tree)
    {
      node, ns := InsertMissing(p, left, above, name);
      ReserveWorks(old(tree), Mounts(), p, ns);
    }

    // The work of inode_reserve on an absolute path.
    method ReserveNew(path: string) returns (node: Inode?, ghost ns: seq<Inode>)
      requires Valid() && path != ""
      modifies `root_inode, `tree, `live, live`i_peer, live`i_child
      ensures Valid() && fresh(live - old(live)) && Newly(old(live), live, ns)
      ensures Mounts() == old(Mounts()) && Held() == old(Held())
      ensures node != null <==> old(Resolve(tree, Mounts(), Components(path[1..]))).None?
      ensures if node == null then tree == old(tree) && live == old(live)
        else |ns| > 0 && node == ns[|ns| - 1] && ReservationOf(old(tree), Mounts(), Components(path[1..]), ns, tree)
    {
      node, ns := null, [];
      var hit, left, above, name := Lookup(path);
      if hit == null {
        node, ns := ReserveAt(path[1..], left, above, name);
      }
    }

    // inode_reserve: nothing happens when the path is malformed or already leads somewhere;
    // otherwise exactly the path and its missing ancestors are added.
    method InodeReserve(path: string) returns (node: Inode?, ghost ns: seq<Inode>)
      requires Valid()
      modifies `root_inode, `tree, `live, live`i_peer, live`i_child
      ensures Valid() && fresh(live - old(live)) && Newly(old(live), live, ns)
      ensures Mounts() == old(Mounts()) && Held() == old(Held())
      ensures node != null <==>
        path != "" && path[0] == '/' && old(Resolve(tree, Mounts(), Components(path[1..]))).None?
      ensures if node == null then tree == old(tree) && live == old(live)
        else |ns| > 0 && node == ns[|ns| - 1] && ReservationOf(old(tree), Mounts(), Components(path[1..]), ns, tree)
    {
      node, ns := null, [];
      if path == "" || path[0] != '/' {
        return;
      }
      node, ns := ReserveNew(path);
    }

    method CutPointers(node: Inode, left: Inode?, above: Inode?)
      requires node in live && (left != null ==> left in live) && (above != null ==> above in live)
      requires node != left && node != above
      modifies `root_inode, node`i_peer
      modifies (if left == null then {} else {left})`i_peer, (if above == null then {} else {above})`i_child
      ensures CutOut(old(LinksOf(live)), LinksOf(live), old(root_inode), root_inode, live, left, above, node)
    {
      if left != null {
        left.i_peer := node.i_peer;
      } else if above != null {
        above.i_child := node.i_peer;
      } else {
        root_inode := node.i_peer;
      }
      node.i_peer := null;
    }

    // inode_unlink
    method InodeUnlink(node: Inode, left: Inode?, above: Inode?)
      requires node in live && (left != null ==> left in live) && (above != null ==> above in live)
      requires node != left && node != above
      modifies `root_inode, node`i_peer
      modifies (if left == null then {} else {left})`i_peer, (if above == null then {} else {above})`i_child
      ensures CutOut(old(LinksOf(live)), LinksOf(live), old(root_inode), root_inode, live, left, above, node)
      ensures Deleted() == old(Deleted()) && Held() == old(Held()) && Mounts() == old(Mounts())
    {
      CutPointers(node, left, above);
    }

    // free: an inode is freed at most once, and only while it is allocated.
    ghost method Free(node: Inode)
      requires node in live
      modifies `live
      ensures live == old(live) - {node}
    {
      live := live - {node};
    }

    // inode_free: a list of siblings and everything below them.
    method InodeFree(node: Inode?, ghost f: Forest)
      requires Shape(LinksOf(live), node, f) && Distinct(f) && Nodes(f) <= live
      modifies `live
      ensures live == old(live) - Nodes(f)
      decreases f
    {
      if node != null {
        InodeFree(node.i_peer, f.peers);
        ShapeKept(old(LinksOf(live)), LinksOf(live), node.i_child, f.kids);
        InodeFree(node.i_child, f.kids);
        Free(node);
      }
    }

    method FreeWithKids(node: Inode, ghost kids: Forest)
      requires Shape(LinksOf(live), node.i_child, kids) && Distinct(kids) && Nodes(kids) <= live
      requires node in live && node !in Nodes(kids)
      modifies `live
      ensures live == old(live) - {node} - Nodes(kids)
      ensures Deleted() == old(Deleted()) * live && Held() == old(Held()) * live && Mounts() == old(Mounts()) * live
    {
      InodeFree(node.i_child, kids);
      Free(node);
    }

    method Mark(node: Inode)
      requires node in live
      modifies node`deleted
      ensures node.deleted && LinksOf(live) == old(LinksOf(live))
      ensures Deleted() == old(Deleted()) + {node} && Held() == old(Held()) && Mounts() == old(Mounts())
    {
      node.deleted := true;
    }

    // The ghost side of it.
    ghost method Entomb(node: Inode, kids: Forest, rest: Forest)
      requires WiredTree(LinksOf(live), root_inode, rest, Cons(node, kids, graves), live)
      requires Deleted() == Tops(graves) + {node} <= Held() && Sorted(rest)
      modifies `tree, `graves
      ensures Valid() && tree == rest && graves == Cons(node, kids, old(graves))
    {
      tree, graves := rest, Cons(node, kids, graves);
    }

    // Still referenced: the inode is only marked.
    method Bury(node: Inode, ghost kids: Forest, ghost rest: Forest)
      requires WiredTree(LinksOf(live), root_inode, rest, Cons(node, kids, graves), live)
      requires Deleted() == Tops(graves) <= Held() && Sorted(rest) && node.i_crefs > 0
      modifies node`deleted, `tree, `graves
      ensures Valid() && tree == rest && graves == Cons(node, kids, old(graves)) && node.deleted
      ensures Held() == old(Held()) && Mounts() == old(Mounts())
    {
      Mark(node);
      Entomb(node, kids, rest);
    }

    // The ghost side of the unreferenced removal.
    ghost method Settle(rest: Forest, del: set<Inode>, held: set<Inode>, ms: set<Inode>)
      requires WiredTree(LinksOf(live), root_inode, rest, graves, live) && Sorted(rest)
      requires del == Tops(graves) <= held
      requires Deleted() == del * live && Held() == held * live && Mounts() == ms * live
      modifies `tree
      ensures Valid() && tree == rest && Held() == held * live && Mounts() == ms * live
    {
      TopsInside(graves);
      assert del * live == del;
      tree := rest;
    }

    // Unreferenced: the inode and everything below it go at once.
    method FreeUnlinked(node: Inode, ghost kids: Forest, ghost rest: Forest)
      requires WiredTree(LinksOf(live), root_inode, rest, Cons(node, kids, graves), live)
      requires Deleted() == Tops(graves) <= Held() && Sorted(rest)
      modifies `tree, `live
      ensures Valid() && tree == rest && live == old(live) - {node} - Nodes(kids)
      ensures Held() == old(Held()) * live && Mounts() == old(Mounts()) * live
    {
      FreeWithKids(node, kids);
      FreedTree(old(LinksOf(live)), LinksOf(live), root_inode, rest, node, kids, graves, old(live));
      Settle(rest, old(Deleted()), old(Held()), old(Mounts()));
    }

    // What was found is unlinked; the ghost trees have yet to follow.
    method Unhook(node: Inode, left: Inode?, above: Inode?, ghost p: string)
      requires Valid() && Search(tree, Mounts(), null, null, p).Hit?
      requires var m := Search(tree, Mounts(), null, null, p); m.node == node && m.left == left && m.above == above
      modifies `root_inode, live`i_peer, live`i_child
      ensures node in live && Sorted(Drop(tree, node))
      ensures WiredTree(LinksOf(live), root_inode, Drop(tree, node), Cons(node, Below(tree, node), graves), live)
      ensures Deleted() == Tops(graves) <= Held() && Held() == old(Held()) && Mounts() == old(Mounts())
    {
      ghost var m := Search(tree, Mounts(), null, null, p);
      Inside(tree, Mounts(), p);
      InodeUnlink(node, left, above);
      RemovedTree(old(LinksOf(live)), LinksOf(live), old(root_inode), root_inode, tree, graves, live,
                  old(Mounts()), p, m);
      DropSorted(tree, node);
    }

    // The rest of inode_remove once the inode has been found.
    method RemoveHit(node: Inode, left: Inode?, above: Inode?, ghost p: string) returns (busy: bool)
      requires Valid()
      requires Search(tree, Mounts(), null, null, p).Hit?
      requires var m := Search(tree, Mounts(), null, null, p); m.node == node && m.left == left && m.above == above
      modifies `root_inode, `tree, `graves, `live, live`i_peer, live`i_child, live`deleted
      ensures Valid() && tree == Drop(old(tree), node)
      ensures busy <==> old(node.i_crefs) > 0
      ensures busy ==> node.deleted && live == old(live) && graves == Cons(node, Below(old(tree), node), old(graves))
      ensures !busy ==> live == old(live) - {node} - Nodes(Below(old(tree), node)) && graves == old(graves)
      ensures Held() == old(Held()) * live && Mounts() == old(Mounts()) * live
    {
      Unhook(node, left, above, p);
      ghost var kids, rest := Below(tree, node), Drop(tree, node);
      if node.i_crefs > 0 {
        Bury(node, kids, rest);
        busy := true;
      } else {
        FreeUnlinked(node, kids, rest);
        busy := false;
      }
    }

    method RemoveAt(node: Inode, left: Inode?, above: Inode?, ghost p: string) returns (busy: bool)
      requires Valid() && Search(tree, Mounts(), null, null, p).Hit?
      requires var m := Search(tree, Mounts(), null, null, p); m.node == node && m.left == left && m.above == above
      modifies `root_inode, `tree, `graves, `live, live`i_peer, live`i_child, live`deleted
      ensures Valid() && RemovalOf(old(tree), old(Mounts()), p, tree, Mounts())
      ensures node == old(Victim(tree, Mounts(), p)) && (busy <==> node in old(Held()))
      ensures busy ==> live == old(live) && Held() == old(Held())
      ensures busy ==> graves == Cons(node, old(Orphans(tree, Mounts(), p)), old(graves))
      ensures !busy ==> graves == old(graves) && Held() == old(Held()) * live
      ensures !busy ==> live == old(live) - {node} - old(Nodes(Orphans(tree, Mounts(), p)))
    {
      RemovalWorks(tree, Mounts(), p);
      Inside(tree, Mounts(), p);
      busy := RemoveHit(node, left, above, p);
      MountsAgree(old(tree), old(Mounts()), p, tree, Mounts());
    }

    // inode_remove.  The paths through the inode found lead nowhere afterwards, all others
    // where they did.  An unreferenced inode is freed with everything below it: no
    // referenced inode is lost exactly when none hangs below.
    method InodeRemove(path: string) returns (ret: Status)
      requires Valid()
      modifies `root_inode, `tree, `graves, `live, live`i_peer, live`i_child, live`deleted
      ensures Valid()
      ensures ret == EINVAL <==> path == "" || path[0] != '/'
      ensures ret == ENOENT <==> ret != EINVAL && old(Resolve(tree, Mounts(), Components(path[1..]))).None?
      ensures ret == EINVAL || ret == ENOENT ==> tree == old(tree) && graves == old(graves) && live == old(live)
      ensures ret == EBUSY || ret == OK ==> RemovalOf(old(tree), old(Mounts()), path[1..], tree, Mounts())
      ensures ret == EBUSY || ret == OK ==> (ret == EBUSY <==> old(Victim(tree, Mounts(), path[1..])) in old(Held()))
      ensures ret == EBUSY ==> live == old(live) && Held() == old(Held())
      ensures ret == EBUSY ==>
        graves == Cons(old(Victim(tree, Mounts(), path[1..])), old(Orphans(tree, Mounts(), path[1..])), old(graves))
      ensures ret == OK ==> graves == old(graves) && Held() == old(Held()) * live
      ensures ret == OK ==>
        live == old(live) - {old(Victim(tree, Mounts(), path[1..]))} - old(Nodes(Orphans(tree, Mounts(), path[1..])))
    {
      if path == "" || path[0] != '/' {
        return EINVAL;
      }
      var hit, left, above, name := Lookup(path);
      if hit == null {
        return ENOENT;
      }
      var busy := RemoveAt(hit, left, above, path[1..]);
      return if busy then EBUSY else OK;
    }

    // inode_addref
    method InodeAddref(node: Inode?)
      requires Valid() && (node != null ==> node in live)
      modifies (if node == null then {} else {node})`i_crefs
      ensures Valid() && Mounts() == old(Mounts())
      ensures node != null ==> node.i_crefs == old(node.i_crefs) + 1 && Held() == old(Held()) + {node}
      ensures node != null && node !in Nodes(graves) - Tops(graves) && old(Quiet()) ==> Quiet()
    {
      if node != null {
        node.i_crefs := node.i_crefs + 1;
        assert LinksOf(live) == old(LinksOf(live)) && Deleted() == old(Deleted());
      }
    }

    // inode_find: the reference keeps the inode alive.
    method InodeFind(path: string) returns (node: Inode?, relpath: string)
      requires Valid()
      modifies live`i_crefs
      ensures Valid() && Mounts() == old(Mounts())
      ensures node != null <==> path != "" && path[0] == '/' && Resolve(tree, Mounts(), Components(path[1..])).Some?
      ensures node != null ==> Resolve(tree, Mounts(), Components(path[1..])) == Some((node, Rest(relpath)))
      ensures node != null ==> node in live && node.i_crefs == old(node.i_crefs) + 1 && Held() == old(Held()) + {node}
      ensures forall n :: n in live && n != node ==> n.i_crefs == old(n.i_crefs)
      ensures old(Quiet()) ==> Quiet()
    {
      node, relpath := null, "";
      if path == "" || path[0] != '/' {
        return;
      }
      var left, above;
      node, left, above, relpath := Lookup(path);
      if node != null {
        Inside(tree, Mounts(), path[1..]);
        InodeAddref(node);
      }
    }

    method DropReference(node: Inode)
      requires node in live
      modifies node`i_crefs
      ensures node.i_crefs == if old(node.i_crefs) > 0 then old(node.i_crefs) - 1 else 0
      ensures LinksOf(live) == old(LinksOf(live)) && Deleted() == old(Deleted()) && Mounts() == old(Mounts())
      ensures Held() == if old(node.i_crefs) <= 1 then old(Held()) - {node} else old(Held())
    {
      if node.i_crefs > 0 {
        node.i_crefs := node.i_crefs - 1;
      }
    }

    // The ghost side of it.
    ghost method SettleGraves(g: Forest, del: set<Inode>, held: set<Inode>, ms: set<Inode>, node: Inode)
      requires WiredTree(LinksOf(live), root_inode, tree, g, live) && Sorted(tree)
      requires Tops(g) == del - {node} <= held && node !in live
      requires Deleted() == del * live && Held() == held * live && Mounts() == ms * live
      modifies `graves
      ensures Valid() && graves == g && Held() == held * live && Mounts() == ms * live
    {
      TopsInside(g);
      assert del * live == del - {node};
      graves := g;
    }

    // Past the last reference.
    method FreeBuried(node: Inode)
      requires WiredTree(LinksOf(live), root_inode, tree, graves, live) && Sorted(tree)
      requires node in live && Deleted() == Tops(graves) && node in Tops(graves)
      requires Tops(graves) - {node} <= Held() && node !in Held()
      modifies `graves, `live
      ensures Valid() && tree == old(tree)
      ensures live == old(live) - {node} - Nodes(GraveKids(old(graves), node)) && graves == Exhume(old(graves), node)
      ensures Held() == old(Held()) * live && Mounts() == old(Mounts()) * live
    {
      ExhumeNodes(graves, node);
      GraveShape(LinksOf(live), graves, node);
      FreeWithKids(node, GraveKids(graves, node));
      ExhumedTree(old(LinksOf(live)), LinksOf(live), root_inode, tree, graves, node, old(live));
      SettleGraves(Exhume(graves, node), old(Deleted()), old(Held()), old(Mounts()), node);
    }

    // inode_release: the last reference to a removed inode frees it and what hangs below
    // it, each inode once, and nothing else.
    method InodeRelease(node: Inode?)
      requires Valid() && (node != null ==> node in live)
      modifies (if node == null then {} else {node})`i_crefs, `graves, `live
      ensures Valid() && tree == old(tree) && Mounts() == old(Mounts()) * live
      ensures node != null ==> node.i_crefs == if old(node.i_crefs) > 0 then old(node.i_crefs) - 1 else 0
      ensures node != null ==>
        Held() == (if old(node.i_crefs) <= 1 then old(Held()) - {node} else old(Held())) * live
      ensures node != null && old(node.deleted) && old(node.i_crefs) == 1 ==>
        live == old(live) - {node} - Nodes(GraveKids(old(graves), node)) && graves == Exhume(old(graves), node)
      ensures node == null || !old(node.deleted) || old(node.i_crefs) > 1 ==> live == old(live) && graves == old(graves)
      ensures old(Quiet()) ==> Quiet() && (node != null ==> old(Held()) - {node} <= live)
    {
      if node != null {
        DropReference(node);
        if node.i_crefs == 0 && node.deleted {
          TopsInside(graves);
          ExhumeNodes(graves, node);
          FreeBuried(node);
        }
      }
    }
  }
}
