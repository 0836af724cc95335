/** The inode tree as a value: what searching, inserting and unlinking mean. */
module InodeForest {
  import opened InodeNames

  class Inode {
    const i_name: string
    var i_peer: Inode?
    var i_child: Inode?
    var i_crefs: nat
    var mountpt: bool
    var deleted: bool

    constructor (name: string)
      ensures i_name == name && i_peer == null && i_child == null && i_crefs == 0 && !mountpt && !deleted
    {
      i_name := name;
      i_peer, i_child, i_crefs, mountpt, deleted := null, null, 0, false, false;
    }
  }

  // A list of siblings, each with its list of children.
  datatype Forest = Nil | Cons(node: Inode, kids: Forest, peers: Forest)

  function Nodes(f: Forest): set<Inode> {
    match f
    case Nil => {}
    case Cons(n, k, p) => {n} + Nodes(k) + Nodes(p)
  }

  // Every inode occurs once.
  ghost predicate Distinct(f: Forest) {
    match f
    case Nil => true
    case Cons(n, k, p) => n !in Nodes(k) && n !in Nodes(p) && Nodes(k) !! Nodes(p) && Distinct(k) && Distinct(p)
  }

  ghost predicate Before(a: string, f: Forest) {
    f.Cons? ==> Compare(a, f.node.i_name) < 0
  }

  // Siblings are in strictly increasing order of their names, at every level.
  ghost predicate Sorted(f: Forest) {
    match f
    case Nil => true
    case Cons(n, k, p) => '/' !in n.i_name && Before(n.i_name, p) && Sorted(k) && Sorted(p)
  }

  // The tree as a map: the sibling with a given name, wherever it is in the list.
  function Sibling(f: Forest, name: string): Forest {
    match f
    case Nil => Nil
    case Cons(n, k, p) => if n.i_name == name then f else Sibling(p, name)
  }

  datatype Option<+T> = None | Some(value: T)

  // The inode a list of names leads to, and the names left over: a mountpoint on the way
  // takes everything below it.
  function Resolve(f: Forest, mounts: set<Inode>, cs: seq<string>): Option<(Inode, seq<string>)>
    requires |cs| > 0
    decreases |cs|
  {
    match Sibling(f, cs[0])
    case Nil => None
    case Cons(n, k, _) =>
      if |cs| == 1 || n in mounts then Some((n, cs[1..])) else Resolve(k, mounts, cs[1..])
  }

  datatype Found = Hit(node: Inode, left: Inode?, above: Inode?, name: string)
                 | Miss(left: Inode?, above: Inode?, name: string)

  // inode_search
  function Search(f: Forest, mounts: set<Inode>, left: Inode?, above: Inode?, name: string): Found {
    match f
    case Nil => Miss(left, above, name)
    case Cons(n, k, p) =>
      var result := Compare(Component(name), n.i_name);
      if result < 0 then Miss(left, above, name)
      else if result > 0 then Search(p, mounts, n, above, name)
      else if NextName(name) == "" || n in mounts then Hit(n, left, above, NextName(name))
      else Search(k, mounts, null, n, NextName(name))
  }

  lemma {:induction false} NotBefore(a: string, f: Forest)
    requires Sorted(f) && Before(a, f)
    ensures Sibling(f, a) == Nil
  {
    if f.Cons? {
      CompareEqual(a, f.node.i_name);
      if f.peers.Cons? { CompareTransitive(a, f.node.i_name, f.peers.node.i_name); }
      NotBefore(a, f.peers);
    }
  }

  function Rest(name: string): seq<string> {
    if name == "" then [] else Components(name)
  }

  // The early stop at a larger name loses nothing: the ordered search finds exactly what
  // the path leads to, mountpoints included.
  lemma {:induction false} SearchResolves(f: Forest, mounts: set<Inode>, left: Inode?, above: Inode?, name: string)
    requires Sorted(f)
    ensures var r := Resolve(f, mounts, Components(name));
      match Search(f, mounts, left, above, name)
      case Hit(n, _, _, rest) => r == Some((n, Rest(rest)))
      case Miss(_, _, _) => r == None
    decreases f
  {
    if f.Cons? {
      var n, c := f.node, Component(name);
      CompareEqual(c, n.i_name);
      if Compare(c, n.i_name) < 0 {
        NotBefore(c, f);
      } else if Compare(c, n.i_name) > 0 {
        SearchResolves(f.peers, mounts, n, above, name);
      } else if NextName(name) == "" {
        assert Components(name) == [c] && [c][1..] == [];
      } else {
        assert Components(name)[1..] == Components(NextName(name));
        if n !in mounts { SearchResolves(f.kids, mounts, null, n, NextName(name)); }
      }
    }
  }

  // New inodes one below the other, the first of them in front of the given siblings.
  function Chain(ns: seq<Inode>, peers: Forest): Forest
    requires |ns| > 0
  {
    Cons(ns[0], if |ns| == 1 then Nil else Chain(ns[1..], Nil), peers)
  }

  // The tree after a chain has been inserted where the search for name ends.
  function Add(f: Forest, mounts: set<Inode>, name: string, ns: seq<Inode>): Forest
    requires |ns| > 0
  {
    match f
    case Nil => Chain(ns, Nil)
    case Cons(n, k, p) =>
      var result := Compare(Component(name), n.i_name);
      if result < 0 then Chain(ns, f)
      else if result > 0 then Cons(n, k, Add(p, mounts, name, ns))
      else if NextName(name) == "" || n in mounts then f
      else Cons(n, Add(k, mounts, NextName(name), ns), p)
  }

  // The new inodes carry the names that are missing.
  ghost predicate Named(ns: seq<Inode>, cs: seq<string>) {
    |ns| == |cs| && forall i :: 0 <= i < |ns| ==> ns[i].i_name == cs[i] && '/' !in cs[i]
  }

  lemma {:induction false} ChainSorted(ns: seq<Inode>, cs: seq<string>, peers: Forest)
    requires |ns| > 0 && Named(ns, cs) && Sorted(peers) && Before(cs[0], peers)
    ensures Sorted(Chain(ns, peers))
    decreases |ns|
  {
    if |ns| > 1 { ChainSorted(ns[1..], cs[1..], Nil); }
  }

  // Inserting where the search ends keeps every sibling list in order.
  lemma {:induction false} AddSorted(f: Forest, mounts: set<Inode>, left: Inode?, above: Inode?, name: string,
                                     ns: seq<Inode>)
    requires Sorted(f) && |ns| > 0 && Search(f, mounts, left, above, name).Miss?
    requires Named(ns, Components(Search(f, mounts, left, above, name).name))
    ensures Sorted(Add(f, mounts, name, ns))
    ensures forall a :: Before(a, f) && Compare(a, Component(name)) < 0 ==> Before(a, Add(f, mounts, name, ns))
    decreases f
  {
    match f
    case Nil => ChainSorted(ns, Components(name), Nil);
    case Cons(n, k, p) =>
      var c := Component(name);
      CompareSwap(c, n.i_name);
      if Compare(c, n.i_name) < 0 {
        ChainSorted(ns, Components(name), f);
      } else if Compare(c, n.i_name) > 0 {
        AddSorted(p, mounts, n, above, name, ns);
      } else {
        AddSorted(k, mounts, null, n, NextName(name), ns);
      }
  }

  // qs is the whole path or one of its ancestors that was missing.
  ghost predicate Added(qs: seq<string>, cs: seq<string>, ns: seq<Inode>) {
    |ns| <= |cs| && |cs| - |ns| < |qs| <= |cs| && forall i :: 0 <= i < |qs| ==> qs[i] == cs[i]
  }

  lemma AddedTail(qs: seq<string>, cs: seq<string>, ns: seq<Inode>, ms: seq<Inode>)
    requires |qs| > 1 && |cs| > 1 && qs[0] == cs[0]
    requires |ms| == |ns| || (|ms| == |ns| - 1 && |ns| == |cs|)
    requires |ms| < |cs|
    ensures Added(qs[1..], cs[1..], ms) <==> Added(qs, cs, ns)
  {
    if Added(qs[1..], cs[1..], ms) {
      forall i | 0 <= i < |qs| ensures qs[i] == cs[i] {
        if i > 0 { assert qs[1..][i - 1] == cs[1..][i - 1]; }
      }
    }
  }

  lemma {:induction false} ChainResolves(mounts: set<Inode>, cs: seq<string>, ns: seq<Inode>, peers: Forest,
                                         qs: seq<string>)
    requires |ns| > 0 && |qs| > 0 && Named(ns, cs) && (forall n :: n in ns ==> n !in mounts)
    ensures Resolve(Chain(ns, peers), mounts, qs) ==
      if Added(qs, cs, ns) then Some((ns[|qs| - 1], []))
      else if qs[0] == cs[0] then None else Resolve(peers, mounts, qs)
    decreases |ns|
  {
    if qs[0] == cs[0] && |qs| > 1 && |ns| > 1 {
      ChainResolves(mounts, cs[1..], ns[1..], Nil, qs[1..]);
      AddedTail(qs, cs, ns, ns[1..]);
    }
  }

  lemma {:induction false} MissShorter(f: Forest, mounts: set<Inode>, left: Inode?, above: Inode?, name: string)
    requires Search(f, mounts, left, above, name).Miss?
    ensures |Components(Search(f, mounts, left, above, name).name)| <= |Components(name)|
    decreases f
  {
    if f.Cons? {
      var c := Compare(Component(name), f.node.i_name);
      if c > 0 {
        MissShorter(f.peers, mounts, f.node, above, name);
      } else if c == 0 {
        MissShorter(f.kids, mounts, null, f.node, NextName(name));
      }
    }
  }

  // A successful insertion adds exactly the path and its missing ancestors; every other
  // path leads where it led before.
  lemma {:induction false} AddResolves(f: Forest, mounts: set<Inode>, left: Inode?, above: Inode?, name: string,
                                       ns: seq<Inode>, qs: seq<string>)
    requires Sorted(f) && |ns| > 0 && |qs| > 0 && Search(f, mounts, left, above, name).Miss?
    requires Named(ns, Components(Search(f, mounts, left, above, name).name))
    requires forall n :: n in ns ==> n !in mounts
    ensures Resolve(Add(f, mounts, name, ns), mounts, qs) ==
      var cs := Components(name);
      if Added(qs, cs, ns) then Some((ns[|qs| - 1 - (|cs| - |ns|)], []))
      else Resolve(f, mounts, qs)
    decreases f
  {
    var cs := Components(name);
    match f
    case Nil => ChainResolves(mounts, cs, ns, Nil, qs);
    case Cons(n, k, p) =>
      CompareEqual(cs[0], n.i_name);
      if Compare(cs[0], n.i_name) < 0 {
        NotBefore(cs[0], f);
        ChainResolves(mounts, cs, ns, f, qs);
      } else if Compare(cs[0], n.i_name) > 0 {
        AddResolves(p, mounts, n, above, name, ns, qs);
      } else {
        MissShorter(k, mounts, null, n, NextName(name));
        if |qs| > 1 && qs[0] == cs[0] {
          AddResolves(k, mounts, null, n, NextName(name), ns, qs[1..]);
          AddedTail(qs, cs, ns, ns);
        }
      }
  }

  // The tree without an inode and everything below it.
  function Drop(f: Forest, node: Inode): Forest {
    match f
    case Nil => Nil
    case Cons(n, k, p) => if n == node then p else Cons(n, Drop(k, node), Drop(p, node))
  }

  // What hangs below an inode.
  function Below(f: Forest, node: Inode): Forest {
    match f
    case Nil => Nil
    case Cons(n, k, p) => if n == node then k else if node in Nodes(k) then Below(k, node) else Below(p, node)
  }

  lemma {:induction false} DropAbsent(f: Forest, node: Inode)
    requires node !in Nodes(f)
    ensures Drop(f, node) == f
  {
    if f.Cons? {
      DropAbsent(f.kids, node);
      DropAbsent(f.peers, node);
    }
  }

  // Dropping takes away the inode and its descendants and nothing else.
  lemma {:induction false} DropNodes(f: Forest, node: Inode)
    requires Distinct(f) && node in Nodes(f)
    ensures Nodes(f) == Nodes(Drop(f, node)) + {node} + Nodes(Below(f, node))
    ensures node !in Nodes(Drop(f, node)) && node !in Nodes(Below(f, node))
    ensures Nodes(Drop(f, node)) !! Nodes(Below(f, node))
    ensures Distinct(Drop(f, node)) && Distinct(Below(f, node))
  {
    if f.node != node {
      if node in Nodes(f.kids) {
        DropNodes(f.kids, node);
        DropAbsent(f.peers, node);
      } else {
        DropNodes(f.peers, node);
        DropAbsent(f.kids, node);
      }
    }
  }

  lemma {:induction false} DropSorted(f: Forest, node: Inode)
    requires Sorted(f)
    ensures Sorted(Drop(f, node))
    ensures forall a :: Before(a, f) ==> Before(a, Drop(f, node))
  {
    if f.Cons? {
      DropSorted(f.kids, node);
      DropSorted(f.peers, node);
      if f.node == node && f.peers.Cons? {
        forall a | Before(a, f) ensures Before(a, f.peers) {
          CompareTransitive(a, f.node.i_name, f.peers.node.i_name);
        }
      }
    }
  }

  // qs starts with the first k of the names cs.
  ghost predicate Under(qs: seq<string>, cs: seq<string>, k: int) {
    0 < k <= |cs| && k <= |qs| && forall i :: 0 <= i < k ==> qs[i] == cs[i]
  }

  lemma UnderTail(qs: seq<string>, cs: seq<string>, k: int)
    requires |qs| > 1 && |cs| > 1 && qs[0] == cs[0] && k > 1
    ensures Under(qs[1..], cs[1..], k - 1) <==> Under(qs, cs, k)
  {
    if Under(qs[1..], cs[1..], k - 1) {
      forall i | 0 <= i < k ensures qs[i] == cs[i] {
        if i > 0 { assert qs[1..][i - 1] == cs[1..][i - 1]; }
      }
    }
  }

  lemma {:induction false} HitShorter(f: Forest, mounts: set<Inode>, left: Inode?, above: Inode?, name: string)
    requires Search(f, mounts, left, above, name).Hit?
    ensures Search(f, mounts, left, above, name).node in Nodes(f)
    ensures |Rest(Search(f, mounts, left, above, name).name)| < |Components(name)|
    decreases f
  {
    var c := Compare(Component(name), f.node.i_name);
    if c > 0 {
      HitShorter(f.peers, mounts, f.node, above, name);
    } else if NextName(name) != "" && f.node !in mounts {
      HitShorter(f.kids, mounts, null, f.node, NextName(name));
    }
  }

  // The search ends at node after k of the names.
  ghost predicate HitAfter(f: Forest, mounts: set<Inode>, left: Inode?, above: Inode?, name: string, node: Inode,
                           k: int)
  {
    var r := Search(f, mounts, left, above, name);
    r.Hit? && r.node == node && k == |Components(name)| - |Rest(r.name)|
  }

  lemma {:induction false} DropResolvesAt(f: Forest, mounts: set<Inode>, left: Inode?, above: Inode?, name: string,
                                          qs: seq<string>, node: Inode, k: int)
    requires Sorted(f) && Distinct(f) && |qs| > 0 && HitAfter(f, mounts, left, above, name, node, k)
    ensures Resolve(Drop(f, node), mounts, qs) ==
      if Under(qs, Components(name), k) then None else Resolve(f, mounts, qs)
    decreases f
  {
    var n, cs := f.node, Components(name);
    HitShorter(f, mounts, left, above, name);
    CompareEqual(cs[0], n.i_name);
    if Compare(cs[0], n.i_name) > 0 {
      HitShorter(f.peers, mounts, n, above, name);
      DropAbsent(f.kids, node);
      DropResolvesAt(f.peers, mounts, n, above, name, qs, node, k);
    } else if NextName(name) == "" || n in mounts {
      NotBefore(n.i_name, f.peers);
    } else {
      HitShorter(f.kids, mounts, null, n, NextName(name));
      DropAbsent(f.peers, node);
      if |qs| > 1 && qs[0] == cs[0] {
        DropResolvesAt(f.kids, mounts, null, n, NextName(name), qs[1..], node, k - 1);
        UnderTail(qs, cs, k);
      }
    }
  }

  // Unlinking what the search found makes exactly the paths through it lead nowhere.
  lemma DropResolves(f: Forest, mounts: set<Inode>, left: Inode?, above: Inode?, name: string, qs: seq<string>)
    requires Sorted(f) && Distinct(f) && |qs| > 0 && Search(f, mounts, left, above, name).Hit?
    ensures var hit := Search(f, mounts, left, above, name);
      var cs := Components(name);
      Resolve(Drop(f, hit.node), mounts, qs) ==
        if Under(qs, cs, |cs| - |Rest(hit.name)|) then None else Resolve(f, mounts, qs)
  {
    var hit := Search(f, mounts, left, above, name);
    DropResolvesAt(f, mounts, left, above, name, qs, hit.node, |Components(name)| - |Rest(hit.name)|);
  }

  lemma {:induction false} ResolveInside(f: Forest, mounts: set<Inode>, cs: seq<string>)
    requires |cs| > 0 && Resolve(f, mounts, cs).Some?
    ensures Resolve(f, mounts, cs).value.0 in Nodes(f)
    decreases |cs|, f
  {
    if f.node.i_name == cs[0] {
      if !(|cs| == 1 || f.node in mounts) { ResolveInside(f.kids, mounts, cs[1..]); }
    } else {
      ResolveInside(f.peers, mounts, cs);
    }
  }

  // What a path leads to has the last of the names that were used up, and names are left over
  // behind a mountpoint only.
  lemma {:induction false} ResolveNamed(f: Forest, mounts: set<Inode>, cs: seq<string>)
    requires |cs| > 0 && Resolve(f, mounts, cs).Some?
    ensures var (n, rest) := Resolve(f, mounts, cs).value;
      && |rest| < |cs| && rest == cs[|cs| - |rest|..] && n.i_name == cs[|cs| - |rest| - 1]
      && (rest != [] ==> n in mounts)
    decreases |cs|, f
  {
    if f.node.i_name == cs[0] {
      if !(|cs| == 1 || f.node in mounts) { ResolveNamed(f.kids, mounts, cs[1..]); }
    } else {
      ResolveNamed(f.peers, mounts, cs);
    }
  }

  // Whatever path goes on behind a mountpoint leads to it, with the rest of the path.
  lemma {:induction false} MountTakes(f: Forest, mounts: set<Inode>, cs: seq<string>, ds: seq<string>)
    requires |cs| > 0 && Resolve(f, mounts, cs).Some? && Resolve(f, mounts, cs).value.0 in mounts
    ensures Resolve(f, mounts, cs + ds) ==
      Some((Resolve(f, mounts, cs).value.0, Resolve(f, mounts, cs).value.1 + ds))
    decreases |cs|, f
  {
    assert (cs + ds)[1..] == cs[1..] + ds;
    if f.node.i_name == cs[0] {
      if !(|cs| == 1 || f.node in mounts) { MountTakes(f.kids, mounts, cs[1..], ds); }
    } else {
      MountTakes(f.peers, mounts, cs, ds);
    }
  }

  // Behind any other inode it goes on among its children.
  lemma {:induction false} ResolveBelow(f: Forest, mounts: set<Inode>, cs: seq<string>, ds: seq<string>)
    requires Distinct(f) && |cs| > 0 && |ds| > 0 && Resolve(f, mounts, cs).Some?
    requires Resolve(f, mounts, cs).value.0 !in mounts
    ensures Resolve(f, mounts, cs + ds) == Resolve(Below(f, Resolve(f, mounts, cs).value.0), mounts, ds)
    decreases |cs|, f
  {
    assert (cs + ds)[1..] == cs[1..] + ds;
    ResolveInside(f, mounts, cs);
    if f.node.i_name == cs[0] {
      if |cs| == 1 {
        assert (cs + ds)[1..] == ds;
      } else {
        ResolveInside(f.kids, mounts, cs[1..]);
        ResolveBelow(f.kids, mounts, cs[1..], ds);
      }
    } else {
      ResolveInside(f.peers, mounts, cs);
      ResolveBelow(f.peers, mounts, cs, ds);
    }
  }

  // What a path of two names leads to hangs below what its first name leads to.
  lemma {:induction false} Beneath(f: Forest, mounts: set<Inode>, c: string, d: string)
    requires Distinct(f) && Resolve(f, mounts, [c, d]).Some? && forall n :: n in Nodes(f) ==> n !in mounts
    ensures Resolve(f, mounts, [c]).Some?
    ensures Resolve(f, mounts, [c, d]).value.0 in Nodes(Below(f, Resolve(f, mounts, [c]).value.0))
    decreases f
  {
    if f.node.i_name == c {
      assert [c, d][1..] == [d];
      ResolveInside(f.kids, mounts, [d]);
    } else {
      Beneath(f.peers, mounts, c, d);
      ResolveInside(f.peers, mounts, [c]);
    }
  }
}
