/** The tree value and the i_peer and i_child pointers that represent it. */
module InodeShape {
  import opened InodeNames
  import opened InodeForest

  // The values of the two pointer fields over a set of inodes.
  datatype Links = Links(child: map<Inode, Inode?>, peer: map<Inode, Inode?>)

  ghost function LinksOf(s: set<Inode>): (k: Links)
    reads s
    ensures k.child.Keys == k.peer.Keys == s
    ensures forall n :: n in s ==> k.child[n] == n.i_child && k.peer[n] == n.i_peer
  {
    Links(map n | n in s :: n.i_child, map n | n in s :: n.i_peer)
  }

  ghost predicate Has(k: Links, n: Inode) {
    n in k.child && n in k.peer
  }

  ghost predicate Shape(k: Links, h: Inode?, f: Forest) {
    match f
    case Nil => h == null
    case Cons(n, c, p) => h == n && Has(k, n) && Shape(k, k.child[n], c) && Shape(k, k.peer[n], p)
  }

  // Only the links of the tree's own inodes matter.
  lemma {:induction false} ShapeKept(k: Links, k': Links, h: Inode?, f: Forest)
    requires Shape(k, h, f)
    requires forall n :: n in Nodes(f) ==> Has(k', n)
    requires forall n :: n in Nodes(f) && Has(k, n) && Has(k', n) ==>
      k'.child[n] == k.child[n] && k'.peer[n] == k.peer[n]
    ensures Shape(k', h, f)
  {
    if f.Cons? {
      ShapeKept(k, k', k.child[f.node], f.kids);
      ShapeKept(k, k', k.peer[f.node], f.peers);
    }
  }

  // inode_insert's three cases, on the value.
  function InsertPeer(f: Forest, l: Inode, t: Inode): Forest {
    match f
    case Nil => Nil
    case Cons(n, k, p) =>
      if n == l then Cons(n, k, Cons(t, Nil, p)) else Cons(n, InsertPeer(k, l, t), InsertPeer(p, l, t))
  }

  function InsertKid(f: Forest, a: Inode, t: Inode): Forest {
    match f
    case Nil => Nil
    case Cons(n, k, p) =>
      if n == a then Cons(n, Cons(t, Nil, k), p) else Cons(n, InsertKid(k, a, t), InsertKid(p, a, t))
  }

  function InsertAt(f: Forest, left: Inode?, above: Inode?, t: Inode): Forest {
    if left != null then InsertPeer(f, left, t)
    else if above != null then InsertKid(f, above, t)
    else Cons(t, Nil, f)
  }

  lemma {:induction false} InsertAbsent(f: Forest, l: Inode, t: Inode)
    requires l !in Nodes(f)
    ensures InsertPeer(f, l, t) == f && InsertKid(f, l, t) == f
  {
    if f.Cons? {
      InsertAbsent(f.kids, l, t);
      InsertAbsent(f.peers, l, t);
    }
  }

  // Writing two pointers carries the represented tree from f to the tree with t inserted.
  lemma {:induction false} PeerShape(k: Links, k': Links, h: Inode?, f: Forest, l: Inode, t: Inode)
    requires Shape(k, h, f) && Distinct(f) && t !in Nodes(f) && Has(k, l) && Has(k', l) && Has(k', t)
    requires forall n :: n in Nodes(f) ==> Has(k', n)
    requires forall n :: n in Nodes(f) && Has(k, n) && Has(k', n) ==> k'.child[n] == k.child[n]
    requires forall n :: n in Nodes(f) && Has(k, n) && Has(k', n) && n != l ==> k'.peer[n] == k.peer[n]
    requires k'.peer[l] == t && k'.peer[t] == k.peer[l] && k'.child[t] == null
    ensures Shape(k', h, InsertPeer(f, l, t))
  {
    if f.Cons? {
      PeerShape(k, k', k.child[f.node], f.kids, l, t);
      PeerShape(k, k', k.peer[f.node], f.peers, l, t);
      if f.node == l {
        InsertAbsent(f.kids, l, t);
        InsertAbsent(f.peers, l, t);
      }
    }
  }

  lemma {:induction false} KidShape(k: Links, k': Links, h: Inode?, f: Forest, a: Inode, t: Inode)
    requires Shape(k, h, f) && Distinct(f) && t !in Nodes(f) && Has(k, a) && Has(k', a) && Has(k', t)
    requires forall n :: n in Nodes(f) ==> Has(k', n)
    requires forall n :: n in Nodes(f) && Has(k, n) && Has(k', n) ==> k'.peer[n] == k.peer[n]
    requires forall n :: n in Nodes(f) && Has(k, n) && Has(k', n) && n != a ==> k'.child[n] == k.child[n]
    requires k'.child[a] == t && k'.peer[t] == k.child[a] && k'.child[t] == null
    ensures Shape(k', h, InsertKid(f, a, t))
  {
    if f.Cons? {
      KidShape(k, k', k.child[f.node], f.kids, a, t);
      KidShape(k, k', k.peer[f.node], f.peers, a, t);
      if f.node == a {
        InsertAbsent(f.kids, a, t);
        InsertAbsent(f.peers, a, t);
      }
    }
  }

  // The search reports pointers into the tree.
  lemma {:induction false} MissPlace(f: Forest, mounts: set<Inode>, left: Inode?, above: Inode?, name: string)
    requires Search(f, mounts, left, above, name).Miss?
    ensures var m := Search(f, mounts, left, above, name);
      (m.above == above && (m.left == left || m.left in Nodes(f)))
      || (m.above in Nodes(f) && (m.left == null || m.left in Nodes(f)))
    decreases f
  {
    if f.Cons? {
      var c := Compare(Component(name), f.node.i_name);
      if c > 0 {
        MissPlace(f.peers, mounts, f.node, above, name);
      } else if c == 0 {
        MissPlace(f.kids, mounts, null, f.node, NextName(name));
      }
    }
  }

  // An insertion at the place the search reports is the insertion of the path, seen from a
  // list of siblings whose search started with left and above.
  function Replace(f: Forest, m: Found, left: Inode?, above: Inode?, t: Inode): Forest
    requires m.Miss?
  {
    if m.above == above && m.left == left then Cons(t, Nil, f)
    else if m.left != null then InsertPeer(f, m.left, t)
    else if m.above != null then InsertKid(f, m.above, t)
    else f
  }

  lemma OneSide(f: Forest, l: Inode, t: Inode)
    requires f.Cons? && Distinct(f)
    ensures l !in Nodes(f.kids) ==> InsertPeer(f.kids, l, t) == f.kids && InsertKid(f.kids, l, t) == f.kids
    ensures l !in Nodes(f.peers) ==> InsertPeer(f.peers, l, t) == f.peers && InsertKid(f.peers, l, t) == f.peers
  {
    if l !in Nodes(f.kids) { InsertAbsent(f.kids, l, t); }
    if l !in Nodes(f.peers) { InsertAbsent(f.peers, l, t); }
  }

  lemma {:induction false} AddIsInsert(f: Forest, mounts: set<Inode>, left: Inode?, above: Inode?, name: string,
                                       t: Inode)
    requires Distinct(f) && Search(f, mounts, left, above, name).Miss?
    requires (left == null || left !in Nodes(f)) && (above == null || above !in Nodes(f))
    ensures Add(f, mounts, name, [t]) == Replace(f, Search(f, mounts, left, above, name), left, above, t)
    decreases f
  {
    if f.Cons? {
      var n, m := f.node, Search(f, mounts, left, above, name);
      var c := Compare(Component(name), n.i_name);
      if c > 0 {
        MissPlace(f.peers, mounts, n, above, name);
        AddIsInsert(f.peers, mounts, n, above, name, t);
        if m.left != null { OneSide(f, m.left, t); }
        if m.above != null { OneSide(f, m.above, t); }
      } else if c == 0 {
        MissPlace(f.kids, mounts, null, n, NextName(name));
        AddIsInsert(f.kids, mounts, null, n, NextName(name), t);
        if m.left != null { OneSide(f, m.left, t); }
        if m.above != null { OneSide(f, m.above, t); }
      }
    }
  }

  lemma {:induction false} ChainGrows(ns: seq<Inode>, t: Inode, peers: Forest)
    requires |ns| > 0 && (forall i, j :: 0 <= i < j < |ns| ==> ns[i] != ns[j]) && ns[|ns| - 1] !in Nodes(peers)
    ensures Chain(ns + [t], peers) == InsertKid(Chain(ns, peers), ns[|ns| - 1], t)
    decreases |ns|
  {
    InsertAbsent(peers, ns[|ns| - 1], t);
    assert (ns + [t])[1..] == ns[1..] + [t];
    if |ns| > 1 { ChainGrows(ns[1..], t, Nil); }
  }

  // A chain grows by one at its lower end.
  lemma {:induction false} AddGrows(f: Forest, mounts: set<Inode>, left: Inode?, above: Inode?, name: string,
                                    ns: seq<Inode>, t: Inode)
    requires |ns| > 0 && Search(f, mounts, left, above, name).Miss?
    requires (forall n :: n in ns ==> n !in Nodes(f)) && (forall i, j :: 0 <= i < j < |ns| ==> ns[i] != ns[j])
    ensures Add(f, mounts, name, ns + [t]) == InsertKid(Add(f, mounts, name, ns), ns[|ns| - 1], t)
    decreases f
  {
    var a := ns[|ns| - 1];
    assert a in ns && a !in Nodes(f);
    match f
    case Nil => ChainGrows(ns, t, Nil);
    case Cons(n, k, p) =>
      var c := Compare(Component(name), n.i_name);
      if c < 0 {
        ChainGrows(ns, t, f);
      } else if c > 0 {
        AddGrows(p, mounts, n, above, name, ns, t);
        InsertAbsent(k, a, t);
      } else {
        AddGrows(k, mounts, null, n, NextName(name), ns, t);
        InsertAbsent(p, a, t);
      }
  }

  lemma {:induction false} ChainNodes(ns: seq<Inode>, peers: Forest)
    requires |ns| > 0 && (forall i, j :: 0 <= i < j < |ns| ==> ns[i] != ns[j]) && Distinct(peers)
    requires forall n :: n in ns ==> n !in Nodes(peers)
    ensures Nodes(Chain(ns, peers)) == Nodes(peers) + (set n | n in ns) && Distinct(Chain(ns, peers))
    decreases |ns|
  {
    assert ns == [ns[0]] + ns[1..];
    if |ns| > 1 { ChainNodes(ns[1..], Nil); }
  }

  lemma {:induction false} AddNodes(f: Forest, mounts: set<Inode>, left: Inode?, above: Inode?, name: string,
                                    ns: seq<Inode>)
    requires |ns| > 0 && Search(f, mounts, left, above, name).Miss? && Distinct(f)
    requires (forall n :: n in ns ==> n !in Nodes(f)) && (forall i, j :: 0 <= i < j < |ns| ==> ns[i] != ns[j])
    ensures Nodes(Add(f, mounts, name, ns)) == Nodes(f) + (set n | n in ns) && Distinct(Add(f, mounts, name, ns))
    decreases f
  {
    match f
    case Nil => ChainNodes(ns, Nil);
    case Cons(n, k, p) =>
      var c := Compare(Component(name), n.i_name);
      if c < 0 {
        ChainNodes(ns, f);
      } else if c > 0 {
        AddNodes(p, mounts, n, above, name, ns);
      } else {
        AddNodes(k, mounts, null, n, NextName(name), ns);
      }
  }

  // inode_unlink writes one pointer besides the node's own.
  ghost predicate Unlinked(k: Links, k': Links, f: Forest, node: Inode, l: Inode?, a: Inode?) {
    && Has(k, node)
    && (forall n :: n in Nodes(f) ==> Has(k, n) && Has(k', n))
    && (forall n :: n in Nodes(f) && n != node && n != l && Has(k, n) && Has(k', n) ==> k'.peer[n] == k.peer[n])
    && (forall n :: n in Nodes(f) && (n != a || l != null) && Has(k, n) && Has(k', n) ==> k'.child[n] == k.child[n])
    && (l != null ==> Has(k', l) && k'.peer[l] == k.peer[node])
    && (l == null && a != null ==> Has(k', a) && k'.child[a] == k.peer[node])
  }

  lemma {:induction false} HitPlace(f: Forest, mounts: set<Inode>, left: Inode?, above: Inode?, name: string)
    requires Search(f, mounts, left, above, name).Hit?
    ensures var m := Search(f, mounts, left, above, name);
      (m.above == above && (m.left == left || m.left in Nodes(f)))
      || (m.above in Nodes(f) && (m.left == null || m.left in Nodes(f)))
    decreases f
  {
    var c := Compare(Component(name), f.node.i_name);
    if c > 0 {
      HitPlace(f.peers, mounts, f.node, above, name);
    } else if NextName(name) != "" && f.node !in mounts {
      HitPlace(f.kids, mounts, null, f.node, NextName(name));
    }
  }

  // The tree those pointers represent is the tree without the inode; the head of the list
  // changes when the inode was the first of it.
  lemma {:induction false} DropShape(k: Links, k': Links, h: Inode?, f: Forest, mounts: set<Inode>,
                                     left: Inode?, above: Inode?, name: string)
    requires Shape(k, h, f) && Distinct(f) && Search(f, mounts, left, above, name).Hit?
    requires (left == null || left !in Nodes(f)) && (above == null || above !in Nodes(f))
    requires var m := Search(f, mounts, left, above, name); Unlinked(k, k', f, m.node, m.left, m.above)
    ensures var m := Search(f, mounts, left, above, name);
      Shape(k', if m.left == left && m.above == above then k.peer[m.node] else h, Drop(f, m.node))
    decreases f
  {
    var n, m := f.node, Search(f, mounts, left, above, name);
    var c := Compare(Component(name), n.i_name);
    HitShorter(f, mounts, left, above, name);
    if c > 0 {
      HitShorter(f.peers, mounts, n, above, name);
      HitPlace(f.peers, mounts, n, above, name);
      DropShape(k, k', k.peer[n], f.peers, mounts, n, above, name);
      DropAbsent(f.kids, m.node);
      ShapeKept(k, k', k.child[n], f.kids);
    } else if NextName(name) == "" || n in mounts {
      ShapeKept(k, k', k.peer[n], f.peers);
    } else {
      HitShorter(f.kids, mounts, null, n, NextName(name));
      HitPlace(f.kids, mounts, null, n, NextName(name));
      DropShape(k, k', k.child[n], f.kids, mounts, null, n, NextName(name));
      DropAbsent(f.peers, m.node);
      ShapeKept(k, k', k.peer[n], f.peers);
    }
  }

  // The inodes of one sibling list.
  function Row(f: Forest): set<Inode> {
    match f
    case Nil => {}
    case Cons(n, _, p) => {n} + Row(p)
  }

  lemma {:induction false} RowInside(f: Forest)
    ensures Row(f) <= Nodes(f)
  {
    if f.Cons? { RowInside(f.peers); }
  }

  lemma {:induction false} BelowInside(f: Forest, a: Inode)
    ensures Nodes(Below(f, a)) <= Nodes(f)
  {
    if f.Cons? {
      BelowInside(f.kids, a);
      BelowInside(f.peers, a);
    }
  }

  // The siblings among which a missing name belongs.
  function Level(f: Forest, above0: Inode?, above: Inode?): Forest {
    if above == above0 || above == null then f else Below(f, above)
  }

  // Behind a larger sibling there is no place for a name.
  lemma {:induction false} TooFar(f: Forest, l: Inode, t: Inode)
    requires Sorted(InsertPeer(f, l, t)) && l in Row(f) && Distinct(f)
    ensures Compare(f.node.i_name, t.i_name) < 0
  {
    if f.node != l {
      RowInside(f.peers);
      OneSide(f, l, t);
      TooFar(f.peers, l, t);
      CompareTransitive(f.node.i_name, f.peers.node.i_name, t.i_name);
    }
  }

  // As long as the search has not gone down, no name is used up.
  lemma {:induction false} SameLevel(f: Forest, mounts: set<Inode>, left: Inode?, above: Inode?, name: string)
    requires Search(f, mounts, left, above, name).Miss? && (above == null || above !in Nodes(f))
    ensures Search(f, mounts, left, above, name).above == above ==> Search(f, mounts, left, above, name).name == name
    decreases f
  {
    if f.Cons? {
      var c := Compare(Component(name), f.node.i_name);
      if c > 0 {
        SameLevel(f.peers, mounts, f.node, above, name);
      } else if c == 0 {
        MissPlace(f.kids, mounts, null, f.node, NextName(name));
      }
    }
  }

  // The place a failed search reports is the only one among those siblings where a new
  // inode of that name keeps the order.
  lemma {:induction false} OnlyPlace(f: Forest, mounts: set<Inode>, left: Inode?, above: Inode?, name: string,
                                     l: Inode?, t: Inode)
    requires Sorted(f) && Distinct(f) && Search(f, mounts, left, above, name).Miss?
    requires (left == null || left !in Nodes(f)) && (above == null || above !in Nodes(f))
    requires var m := Search(f, mounts, left, above, name);
      && t.i_name == Component(m.name)
      && (l in Row(Level(f, above, m.above)) || l == if m.above == above then left else null)
    ensures var m := Search(f, mounts, left, above, name);
      Sorted(Replace(f, Miss(l, m.above, m.name), left, above, t)) <==> l == m.left
    decreases f
  {
    if f.Cons? {
      var n, k, p, m := f.node, f.kids, f.peers, Search(f, mounts, left, above, name);
      var c := Compare(Component(name), n.i_name);
      RowInside(f);
      SameLevel(f, mounts, left, above, name);
      CompareSwap(Component(name), n.i_name);
      if c < 0 {
        if l in Row(f) && Sorted(InsertPeer(f, l, t)) { TooFar(f, l, t); }
      } else if c > 0 {
        MissPlace(p, mounts, n, above, name);
        if m.above == above {
          RowInside(p);
          if l != left { OneSide(f, l, t); OnlyPlace(p, mounts, n, above, name, l, t); }
        } else {
          BelowInside(p, m.above);
          RowInside(Below(p, m.above));
          OneSide(f, m.above, t);
          if l != null { OneSide(f, l, t); }
          OnlyPlace(p, mounts, n, above, name, l, t);
        }
      } else {
        MissPlace(k, mounts, null, n, NextName(name));
        BelowInside(k, m.above);
        RowInside(Level(k, n, m.above));
        OneSide(f, m.above, t);
        if l != null { OneSide(f, l, t); }
        OnlyPlace(k, mounts, null, n, NextName(name), l, t);
      }
    }
  }

  // inode_search's insertion point is the unique one that keeps the order.
  lemma UniquePlace(f: Forest, mounts: set<Inode>, name: string, l: Inode?, t: Inode)
    requires Sorted(f) && Distinct(f) && Search(f, mounts, null, null, name).Miss?
    requires var m := Search(f, mounts, null, null, name);
      t.i_name == Component(m.name) && (l == null || l in Row(Level(f, null, m.above)))
    ensures var m := Search(f, mounts, null, null, name);
      Sorted(InsertAt(f, l, m.above, t)) <==> l == m.left
  {
    OnlyPlace(f, mounts, null, null, name, l, t);
  }
}
