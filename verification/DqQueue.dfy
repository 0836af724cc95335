/** The doubly linked queue: lib/dq_*.c. */
module DqQueue {
  import opened Basics

  class Entry {
    var flink: Entry?
    var blink: Entry?

    constructor ()
      ensures flink == null && blink == null
    {
      flink, blink := null, null;
    }
  }

  // The entry at a position, or null beyond either end.
  function Nth(s: seq<Entry>, i: int): Entry? {
    if 0 <= i < |s| then s[i] else null
  }

  // Every entry points to its neighbours on both sides.
  ghost predicate Linked(s: seq<Entry>)
    reads s
  {
    && (forall i {:trigger s[i].flink} :: 0 <= i < |s| ==> s[i].flink == Nth(s, i + 1))
    && (forall i {:trigger s[i].blink} :: 0 <= i < |s| ==> s[i].blink == Nth(s, i - 1))
  }

  function InsertAt(s: seq<Entry>, k: nat, e: Entry): seq<Entry>
    requires k <= |s|
  {
    s[..k] + [e] + s[k..]
  }

  function RemoveAt(s: seq<Entry>, k: nat): seq<Entry>
    requires k < |s|
  {
    s[..k] + s[k + 1..]
  }

  // The pointers after an entry has been put in at position k of the list s.
  ghost predicate Spliced(s: seq<Entry>, k: nat, e: Entry)
    reads s, e
  {
    && k <= |s| && e.flink == Nth(s, k) && e.blink == Nth(s, k - 1)
    && (forall i {:trigger s[i].flink} :: 0 <= i < |s| ==> s[i].flink == if i == k - 1 then e else Nth(s, i + 1))
    && (forall i {:trigger s[i].blink} :: 0 <= i < |s| ==> s[i].blink == if i == k then e else Nth(s, i - 1))
  }

  lemma SplicedLinked(s: seq<Entry>, k: nat, e: Entry)
    requires Distinct(s) && e !in s && Spliced(s, k, e)
    ensures Distinct(InsertAt(s, k, e)) && Linked(InsertAt(s, k, e))
  {
    var t := InsertAt(s, k, e);
    forall i | 0 <= i < |t| ensures t[i].flink == Nth(t, i + 1) && t[i].blink == Nth(t, i - 1) {
      if i < k { assert t[i] == s[i]; } else if i > k { assert t[i] == s[i - 1]; }
    }
  }

  // The pointers after the entry at position k of the list s has been taken out.
  ghost predicate Bypassed(s: seq<Entry>, k: nat)
    reads s
  {
    && k < |s|
    && (forall i {:trigger s[i].flink} :: 0 <= i < |s| && i != k ==>
      s[i].flink == if i == k - 1 then Nth(s, k + 1) else Nth(s, i + 1))
    && (forall i {:trigger s[i].blink} :: 0 <= i < |s| && i != k ==>
      s[i].blink == if i == k + 1 then Nth(s, k - 1) else Nth(s, i - 1))
  }

  lemma BypassedLinked(s: seq<Entry>, k: nat)
    requires Distinct(s) && Bypassed(s, k)
    ensures Distinct(RemoveAt(s, k)) && Linked(RemoveAt(s, k)) && s[k] !in RemoveAt(s, k)
  {
    var t := RemoveAt(s, k);
    forall i | 0 <= i < |t| ensures t[i].flink == Nth(t, i + 1) && t[i].blink == Nth(t, i - 1) {
      if i < k { assert t[i] == s[i]; } else { assert t[i] == s[i + 1]; }
    }
  }

  lemma RemoveEnds(s: seq<Entry>, k: nat)
    requires k < |s|
    ensures Nth(RemoveAt(s, k), 0) == Nth(s, if k == 0 then 1 else 0)
    ensures Nth(RemoveAt(s, k), |s| - 2) == Nth(s, if k == |s| - 1 then k - 1 else |s| - 1)
  {
  }

  ghost function Maybe(e: Entry?): set<Entry> {
    if e == null then {} else {e}
  }

  class Queue {
    var head: Entry?
    var tail: Entry?
    ghost var items: seq<Entry>

    ghost predicate Valid()
      reads this, items
    {
      Distinct(items) && Linked(items) && head == Nth(items, 0) && tail == Nth(items, |items| - 1)
    }

    constructor ()
      ensures Valid() && items == []
    {
      head, tail, items := null, null, [];
    }

    // dq_addfirst
    method AddFirst(node: Entry)
      requires Valid() && node !in items
      modifies this, node, Maybe(head)`blink
      ensures Valid() && items == InsertAt(old(items), 0, node)
    {
      node.blink := null;
      node.flink := head;
      if head == null {
        head := node;
        tail := node;
      } else {
        head.blink := node;
        head := node;
      }
      assert Spliced(items, 0, node);
      SplicedLinked(items, 0, node);
      items := InsertAt(items, 0, node);
    }

    // dq_addlast
    method AddLast(node: Entry)
      requires Valid() && node !in items
      modifies this, node, Maybe(tail)`flink
      ensures Valid() && items == InsertAt(old(items), |old(items)|, node)
    {
      node.flink := null;
      node.blink := tail;
      if head == null {
        head := node;
        tail := node;
      } else {
        tail.flink := node;
        tail := node;
      }
      SplicedLinked(items, |items|, node);
      items := InsertAt(items, |items|, node);
    }

    // The four pointers between which the entry comes to stand.
    method Splice(prev: Entry, node: Entry, next: Entry, ghost k: nat)
      requires Valid() && node !in items && 0 < k < |items| && items[k] == next && items[k - 1] == prev
      modifies node, next`blink, prev`flink
      ensures Spliced(items, k, node)
    {
      node.flink := next;
      node.blink := prev;
      prev.flink := node;
      next.blink := node;
    }

    // dq_addafter; an empty queue takes the entry wherever it is put.
    method AddAfter(prev: Entry, node: Entry, ghost k: nat)
      requires Valid() && node !in items
      requires if items == [] then k == 0 else k < |items| && items[k] == prev
      modifies this, node, Maybe(Nth(items, k))`flink, Maybe(Nth(items, k + 1))`blink
      ensures Valid() && items == InsertAt(old(items), if old(items) == [] then 0 else k + 1, node)
    {
      if head == null || prev == tail {
        AddLast(node);
      } else {
        var next := prev.flink;
        assert k + 1 < |items| && next == items[k + 1];
        Splice(prev, node, next, k + 1);
        SplicedLinked(items, k + 1, node);
        items := InsertAt(items, k + 1, node);
      }
    }

    // dq_addbefore
    method AddBefore(next: Entry, node: Entry, ghost k: nat)
      requires Valid() && node !in items
      requires if items == [] then k == 0 else k < |items| && items[k] == next
      modifies this, node, Maybe(Nth(items, k))`blink, Maybe(Nth(items, k - 1))`flink
      ensures Valid() && items == InsertAt(old(items), k, node)
    {
      if head == null || next == head {
        AddFirst(node);
      } else {
        var prev := next.blink;
        assert 0 < k && prev == items[k - 1];
        Splice(prev, node, next, k);
        SplicedLinked(items, k, node);
        items := InsertAt(items, k, node);
      }
    }

    method Unlink(node: Entry, ghost k: nat)
      requires Distinct(items) && Bypassed(items, k) && items[k] == node
      modifies node
      ensures Bypassed(items, k) && node.flink == null && node.blink == null
    {
      node.flink := null;
      node.blink := null;
    }

    // The neighbours, or the ends of the queue, lead past the entry.
    method Bypass(prev: Entry?, node: Entry, next: Entry?, ghost k: nat)
      requires Valid() && k < |items| && items[k] == node
      requires prev == Nth(items, k - 1) && next == Nth(items, k + 1)
      modifies `head, `tail, Maybe(prev)`flink, Maybe(next)`blink
      ensures Bypassed(items, k)
      ensures head == Nth(items, if k == 0 then 1 else 0)
      ensures tail == Nth(items, if k == |items| - 1 then k - 1 else |items| - 1)
    {
      if prev == null {
        head := next;
      } else {
        prev.flink := next;
      }
      if next == null {
        tail := prev;
      } else {
        next.blink := prev;
      }
    }

    // dq_rem
    method Rem(node: Entry, ghost k: nat)
      requires Valid() && k < |items| && items[k] == node
      modifies this, node, Maybe(Nth(items, k - 1))`flink, Maybe(Nth(items, k + 1))`blink
      ensures Valid() && items == RemoveAt(old(items), k) && node !in items
      ensures node.flink == null && node.blink == null
    {
      var prev := node.blink;
      var next := node.flink;
      Bypass(prev, node, next, k);
      Unlink(node, k);
      BypassedLinked(items, k);
      RemoveEnds(items, k);
      items := RemoveAt(items, k);
    }

    // dq_remfirst
    method RemFirst() returns (ret: Entry?)
      requires Valid()
      modifies this, Maybe(head), Maybe(Nth(items, 1))`blink
      ensures Valid() && ret == old(head)
      ensures if ret == null then items == old(items) == [] else
        items == RemoveAt(old(items), 0) && ret.flink == null && ret.blink == null && ret !in items
    {
      ret := head;
      if ret != null {
        var next := ret.flink;
        if next == null {
          head := null;
          tail := null;
        } else {
          head := next;
          next.blink := null;
        }
        Unlink(ret, 0);
        BypassedLinked(items, 0);
        items := RemoveAt(items, 0);
      }
    }

    // dq_remlast
    method RemLast() returns (ret: Entry?)
      requires Valid()
      modifies this, Maybe(tail), Maybe(Nth(items, |items| - 2))`flink
      ensures Valid() && ret == old(tail)
      ensures if ret == null then items == old(items) == [] else
        items == RemoveAt(old(items), |old(items)| - 1) && ret.flink == null && ret.blink == null && ret !in items
    {
      ret := tail;
      if ret != null {
        var prev := ret.blink;
        if prev == null {
          head := null;
          tail := null;
        } else {
          tail := prev;
          prev.flink := null;
        }
        Unlink(ret, |items| - 1);
        BypassedLinked(items, |items| - 1);
        items := RemoveAt(items, |items| - 1);
      }
    }
  }
}
