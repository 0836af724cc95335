/** File descriptors over the inode tree: every reference an inode counts is a descriptor. */
module Files {
  import opened InodeNames
  import opened InodeForest
  import opened Vfs

  const O_RDOK: bv32 := 1
  const O_WROK: bv32 := 2

  // struct file
  datatype Slot = Slot(oflags: bv32, pos: int, inode: Inode?)

  const FREE := Slot(0, 0, null)

  // struct filelist
  class FileList {
    var files: seq<Slot>
    var crefs: int

    constructor (n: nat)
      ensures files == seq(n, _ => FREE) && crefs == 1
    {
      files, crefs := seq(n, _ => FREE), 1;
    }
  }

  // What the inode that open() found offers; opens is what its open method returns, or 0
  // when it has none.
  datatype Device = Device(driver: bool, ops: bool, read: bool, write: bool, opens: int)

  datatype Errno = EMFILE | ENOENT | ENXIO | EACCES | EBADF | ENOSYS | EDRIVER(code: int)
  datatype Outcome = Fd(fd: nat) | Error(errno: Errno)

  // A driver reports an error as a negative number.
  function Failure(ret: int): Errno {
    EDRIVER(-ret)
  }

  ghost function InodeIn(s: Slot): set<Inode> {
    if s.inode == null then {} else {s.inode}
  }

  function Holds(s: Slot, n: Inode): nat {
    if s.inode == n then 1 else 0
  }

  // How many slots of one list hold an inode, and how many of all lists.
  function InSlots(s: seq<Slot>, n: Inode): nat {
    if s == [] then 0 else Holds(s[0], n) + InSlots(s[1..], n)
  }

  function InTable(t: seq<seq<Slot>>, n: Inode): nat {
    if t == [] then 0 else InSlots(t[0], n) + InTable(t[1..], n)
  }

  lemma {:induction false} SlotWritten(s: seq<Slot>, j: nat, v: Slot, n: Inode)
    requires j < |s|
    ensures InSlots(s[j := v], n) == InSlots(s, n) - Holds(s[j], n) + Holds(v, n)
  {
    if j == 0 {
      assert s[0 := v][1..] == s[1..];
    } else {
      SlotWritten(s[1..], j - 1, v, n);
      assert s[j := v][1..] == s[1..][j - 1 := v];
    }
  }

  // Writing one slot of one list changes the number of descriptors of the inodes
  // involved, and of no other.
  lemma {:induction false} TableWritten(t: seq<seq<Slot>>, i: nat, j: nat, v: Slot, n: Inode)
    requires i < |t| && j < |t[i]|
    ensures InTable(t[i := t[i][j := v]], n) == InTable(t, n) - Holds(t[i][j], n) + Holds(v, n)
  {
    var u := t[i := t[i][j := v]];
    if i == 0 {
      SlotWritten(t[0], j, v, n);
      assert u[1..] == t[1..];
    } else {
      TableWritten(t[1..], i - 1, j, v, n);
      assert u[1..] == t[1..][i - 1 := t[1..][i - 1][j := v]];
    }
  }

  lemma {:induction false} CountedInRow(s: seq<Slot>, j: nat)
    requires j < |s| && s[j].inode != null
    ensures InSlots(s, s[j].inode) > 0
  {
    if j > 0 { CountedInRow(s[1..], j - 1); }
  }

  lemma {:induction false} Counted(t: seq<seq<Slot>>, i: nat, j: nat)
    requires i < |t| && j < |t[i]| && t[i][j].inode != null
    ensures InTable(t, t[i][j].inode) > 0
  {
    if i == 0 { CountedInRow(t[0], j); } else { Counted(t[1..], i - 1, j); }
  }

  lemma {:induction false} HolderInRow(s: seq<Slot>, n: Inode) returns (j: nat)
    requires InSlots(s, n) > 0
    ensures j < |s| && s[j].inode == n
  {
    j := 0;
    if s[0].inode != n {
      j := HolderInRow(s[1..], n);
      j := j + 1;
    }
  }

  lemma {:induction false} Holder(t: seq<seq<Slot>>, n: Inode) returns (i: nat, j: nat)
    requires InTable(t, n) > 0
    ensures i < |t| && j < |t[i]| && t[i][j].inode == n
  {
    if InSlots(t[0], n) > 0 {
      i := 0;
      j := HolderInRow(t[0], n);
    } else {
      i, j := Holder(t[1..], n);
      i := i + 1;
    }
  }

  lemma {:induction false} NothingHeld(s: seq<Slot>, n: Inode)
    requires forall j :: 0 <= j < |s| ==> s[j].inode != n
    ensures InSlots(s, n) == 0
  {
    if s != [] { NothingHeld(s[1..], n); }
  }

  lemma {:induction false} TableAppend(t: seq<seq<Slot>>, s: seq<Slot>, n: Inode)
    ensures InTable(t + [s], n) == InTable(t, n) + InSlots(s, n)
  {
    if t == [] {
      assert t + [s] == [s];
    } else {
      TableAppend(t[1..], s, n);
      assert (t + [s])[1..] == t[1..] + [s];
    }
  }

  lemma {:induction false} TableWithout(t: seq<seq<Slot>>, i: nat, n: Inode)
    requires i < |t|
    ensures InTable(t[..i] + t[i + 1..], n) == InTable(t, n) - InSlots(t[i], n)
  {
    if i == 0 {
      assert t[..0] + t[1..] == t[1..];
    } else {
      TableWithout(t[1..], i - 1, n);
      assert (t[..i] + t[i + 1..])[1..] == t[1..][..i - 1] + t[1..][i..];
    }
  }

  ghost function TableOf(ls: seq<FileList>): (t: seq<seq<Slot>>)
    reads ls
    ensures |t| == |ls| && forall i :: 0 <= i < |ls| ==> t[i] == ls[i].files
  {
    seq(|ls|, i requires 0 <= i < |ls| reads ls => ls[i].files)
  }

  lemma Overwrite(s: seq<Slot>, j: nat, a: Slot, b: Slot)
    requires j < |s|
    ensures s[j := a][j := b] == s[j := b] && s[j := a][j := a] == s[j := a]
  {
  }

  // Free slots are blank.
  ghost predicate Cleared(s: seq<Slot>) {
    forall j :: 0 <= j < |s| && s[j].inode == null ==> s[j] == FREE
  }

  // Different lists, each with n slots.
  ghost predicate ListsOf(ls: seq<FileList>, n: nat)
    reads ls
  {
    && (forall i :: 0 <= i < |ls| ==> |ls[i].files| == n && Cleared(ls[i].files))
    && (forall i, j :: 0 <= i < j < |ls| ==> ls[i] != ls[j])
  }

  // Every live inode counts its descriptors, and one more if it is the one in hand; all of
  // them are live.
  ghost predicate Counts(live: set<Inode>, t: seq<seq<Slot>>, extra: Inode?)
    reads live
  {
    && (forall n :: n in live ==> n.i_crefs == InTable(t, n) + if n == extra then 1 else 0)
    && (forall i, j :: 0 <= i < |t| && 0 <= j < |t[i]| && t[i][j].inode != null ==> t[i][j].inode in live)
    && (extra != null ==> extra in live)
  }

  // DUP_ISOPEN
  predicate IsOpen(s: seq<Slot>, fd: int) {
    0 <= fd < |s| && s[fd].inode != null
  }

  // The least free slot from minfd on, if there is one.
  ghost predicate LeastFree(s: seq<Slot>, minfd: nat, fd: nat) {
    minfd <= fd < |s| && s[fd].inode == null && forall j :: minfd <= j < fd ==> s[j].inode != null
  }

  ghost predicate Full(s: seq<Slot>, minfd: nat) {
    forall j :: minfd <= j < |s| ==> s[j].inode != null
  }

  class Descriptors {
    const fs: FileSystem
    const n: nat  // CONFIG_NFILE_DESCRIPTORS
    ghost var all: seq<FileList>

    ghost predicate Lists()
      reads this, all
    {
      ListsOf(all, n)
    }

    // Sound but for one reference in hand that no descriptor holds yet, or no longer.
    ghost predicate Owing(extra: Inode?)
      reads this, all, fs, fs.live
    {
      fs.Valid() && fs.Quiet() && Lists() && Counts(fs.live, TableOf(all), extra)
    }

    // Reference conservation: an inode's count is the number of descriptors that hold it,
    // in all lists together, and no descriptor holds a freed inode.
    ghost predicate Valid()
      reads this, all, fs, fs.live
    {
      Owing(null)
    }

    constructor (n: nat)
      ensures Valid() && all == [] && this.n == n && fresh(fs) && fs.tree == Nil && fs.live == {}
    {
      var f := new FileSystem();
      fs, this.n, all := f, n, [];
    }

    // A list that holds nothing does not count.
    lemma With(list: FileList)
      requires Lists() && list !in all && |list.files| == n && forall j :: 0 <= j < n ==> list.files[j] == FREE
      requires Counts(fs.live, TableOf(all), null)
      ensures ListsOf(all + [list], n) && Counts(fs.live, TableOf(all + [list]), null)
    {
      assert TableOf(all + [list]) == TableOf(all) + [list.files];
      forall m | m in fs.live ensures InTable(TableOf(all + [list]), m) == InTable(TableOf(all), m) {
        NothingHeld(list.files, m);
        TableAppend(TableOf(all), list.files, m);
      }
    }

    // The file lists become others, of which t is what they say.
    ghost method Relist(lists: seq<FileList>, t: seq<seq<Slot>>)
      requires fs.Valid() && fs.Quiet() && ListsOf(lists, n) && t == TableOf(lists) && Counts(fs.live, t, null)
      modifies `all
      ensures Valid() && all == lists
    {
      all := lists;
      assert TableOf(all) == t;
    }

    ghost method Enlist(list: FileList)
      requires Valid() && list !in all && |list.files| == n
      requires forall j :: 0 <= j < n ==> list.files[j] == FREE
      modifies `all
      ensures Valid() && all == old(all) + [list]
    {
      With(list);
      Relist(all + [list], TableOf(all + [list]));
    }

    // files_alloclist
    method FilesAlloclist() returns (list: FileList)
      requires Valid()
      modifies `all
      ensures Valid() && fresh(list) && all == old(all) + [list] && list.crefs == 1
      ensures list.files == seq(n, _ => FREE)
    {
      list := new FileList(n);
      Enlist(list);
    }

    method SetCrefs(list: FileList, crefs: int)
      requires Valid() && list in all
      modifies list`crefs
      ensures Valid() && list.crefs == crefs
    {
      list.crefs := crefs;
      assert TableOf(all) == old(TableOf(all));
    }

    // files_addreflist
    method FilesAddreflist(list: FileList?)
      requires Valid() && (list != null ==> list in all)
      modifies (if list == null then {} else {list})`crefs
      ensures Valid() && (list != null ==> list.crefs == old(list.crefs) + 1)
    {
      if list != null {
        SetCrefs(list, list.crefs + 1);
      }
    }

    method Store(list: FileList, fd: nat, s: Slot)
      requires Lists() && list in all && fd < n && (s.inode == null ==> s == FREE)
      modifies list`files
      ensures Lists() && list.files == old(list.files)[fd := s]
    {
      list.files := list.files[fd := s];
    }

    // One slot of one list changes; t is what the tables say afterwards.
    method WriteSlot(list: FileList, fd: nat, s: Slot, ghost i: nat, ghost t: seq<seq<Slot>>, ghost extra: Inode?)
      requires Lists() && i < |all| && all[i] == list && fd < n && (s.inode == null ==> s == FREE)
      requires fs.Valid() && fs.Quiet() && Counts(fs.live, t, extra)
      requires t == TableOf(all)[i := TableOf(all)[i][fd := s]]
      modifies list`files
      ensures Owing(extra) && list.files == old(list.files)[fd := s]
    {
      Store(list, fd, s);
      assert TableOf(all) == t;
    }

    lemma Moved(t: seq<seq<Slot>>, i: nat, fd: nat, s: Slot, before: Inode?, after: Inode?)
      requires Counts(fs.live, t, before) && i < |t| && fd < |t[i]|
      requires (before == s.inode && after == t[i][fd].inode == null)
            || (before == s.inode == null && after == t[i][fd].inode)
      ensures Counts(fs.live, t[i := t[i][fd := s]], after)
    {
      forall m | m in fs.live
        ensures InTable(t[i := t[i][fd := s]], m) == InTable(t, m) - Holds(t[i][fd], m) + Holds(s, m)
      {
        TableWritten(t, i, fd, s, m);
      }
    }

    lemma Moving(list: FileList, fd: nat, s: Slot, before: Inode?, after: Inode?) returns (i: nat, t: seq<seq<Slot>>)
      requires Lists() && list in all && fd < n && Counts(fs.live, TableOf(all), before)
      requires (before == s.inode && after == list.files[fd].inode == null)
            || (before == s.inode == null && after == list.files[fd].inode)
      ensures i < |all| && all[i] == list && t == TableOf(all)[i := TableOf(all)[i][fd := s]]
      ensures Counts(fs.live, t, after)
    {
      i :| 0 <= i < |all| && all[i] == list;
      t := TableOf(all)[i := TableOf(all)[i][fd := s]];
      Moved(TableOf(all), i, fd, s, before, after);
    }

    // A slot takes over the reference in hand.
    method Fill(list: FileList, fd: nat, s: Slot)
      requires Owing(s.inode) && s.inode != null && list in all && fd < n && list.files[fd].inode == null
      modifies list`files
      ensures Valid() && list.files == old(list.files)[fd := s]
    {
      ghost var i, t := Moving(list, fd, s, s.inode, null);
      WriteSlot(list, fd, s, i, t, null);
    }

    // files_release: a slot gives its reference up.
    method FilesRelease(list: FileList, fd: nat)
      requires Valid() && list in all && fd < n
      modifies list`files
      ensures Owing(old(list.files[fd].inode)) && list.files == old(list.files)[fd := FREE]
    {
      ghost var i, t := Moving(list, fd, FREE, null, list.files[fd].inode);
      WriteSlot(list, fd, FREE, i, t, list.files[fd].inode);
    }

    // Whatever a slot holds has a reference besides the one in hand.
    lemma AllHeld(node: Inode, t: seq<seq<Slot>>)
      requires Counts(fs.live, t, node)
      ensures node.i_crefs > 0
      ensures forall i, j :: 0 <= i < |t| && 0 <= j < |t[i]| && t[i][j].inode != null ==>
        t[i][j].inode in (if node.i_crefs == 1 then fs.Held() - {node} else fs.Held())
    {
      forall i: nat, j: nat | i < |t| && j < |t[i]| && t[i][j].inode != null
        ensures InTable(t, t[i][j].inode) > 0
      {
        Counted(t, i, j);
      }
    }

    // A removed inode that loses its last reference is freed with what hangs below it, and
    // nothing else is.
    twostate predicate Freed(node: Inode?)
      reads fs
    {
      if node != null && old(node.deleted) && old(node.i_crefs) == 1
      then fs.live == old(fs.live) - {node} - Nodes(GraveKids(old(fs.graves), node))
        && fs.graves == Exhume(old(fs.graves), node)
      else fs.live == old(fs.live) && fs.graves == old(fs.graves)
    }

    // The reference in hand is dropped; t is what the tables say, or will say.
    method Drop(node: Inode, ghost t: seq<seq<Slot>>)
      requires fs.Valid() && fs.Quiet() && Counts(fs.live, t, node)
      modifies fs`graves, fs`live, node`i_crefs
      ensures fs.Valid() && fs.Quiet() && Counts(fs.live, t, null)
      ensures Freed(node) && node.i_crefs == old(node.i_crefs) - 1 && TableOf(all) == old(TableOf(all))
    {
      AllHeld(node, t);
      fs.InodeRelease(node);
    }

    // The reference in hand is not the last one, or the inode is not removed.
    method PutBack(node: Inode)
      requires Owing(node) && (node.deleted ==> node.i_crefs > 1)
      modifies fs`graves, fs`live, node`i_crefs
      ensures Valid() && fs.live == old(fs.live) && fs.graves == old(fs.graves)
      ensures node.i_crefs == old(node.i_crefs) - 1
    {
      Drop(node, TableOf(all));
    }

    // inode_release followed by the clearing of the slot.
    method GiveUp(list: FileList, fd: nat)
      requires Valid() && list in all && fd < n && list.files[fd].inode != null
      modifies list`files, fs`graves, fs`live, InodeIn(list.files[fd])`i_crefs
      ensures Valid() && list.files == old(list.files)[fd := FREE]
      ensures Freed(old(list.files[fd].inode))
    {
      var node := list.files[fd].inode;
      ghost var i, t := Moving(list, fd, FREE, null, node);
      Drop(node, t);
      WriteSlot(list, fd, FREE, i, t, null);
    }

    // _files_close; closes is what the driver's close method returns.
    method CloseSlot(list: FileList, fd: nat, closes: int) returns (ret: int)
      requires Valid() && list in all && fd < n
      modifies list`files, fs`graves, fs`live, InodeIn(list.files[fd])`i_crefs
      ensures Valid()
      ensures list.files == old(list.files)[fd := FREE]
      ensures ret == if old(list.files[fd].inode) == null then 0 else closes
      ensures Freed(old(list.files[fd].inode))
    {
      ret := 0;
      if list.files[fd].inode == null {
        assert list.files[fd] == FREE;
      } else {
        ret := closes;
        GiveUp(list, fd);
      }
    }

    // files_close
    method FilesClose(list: FileList?, fd: int, closes: int) returns (ret: Outcome)
      requires Valid() && (list != null ==> list in all)
      modifies (if list == null then {} else {list})`files, fs`graves, fs`live, fs.live`i_crefs
      ensures Valid()
      ensures ret == Error(EMFILE) <==> list == null
      ensures ret == Error(EBADF) <==> list != null && !IsOpen(old(list.files), fd)
      ensures ret == Error(EBADF) ==> list.files == old(list.files) && fs.live == old(fs.live)
      ensures list != null && IsOpen(old(list.files), fd) ==>
        list.files == old(list.files)[fd := FREE] && Freed(old(list.files)[fd].inode)
      ensures list != null && IsOpen(old(list.files), fd) ==>
        ret == if closes < 0 then Error(EDRIVER(closes)) else Fd(closes)
    {
      if list == null { return Error(EMFILE); }
      if fd < 0 || fd >= n || list.files[fd].inode == null { return Error(EBADF); }
      var r := CloseSlot(list, fd, closes);
      ret := if r < 0 then Error(EDRIVER(r)) else Fd(r);
    }

    method CloseNext(list: FileList, i: nat, closes: int)
      requires Valid() && list in all && i < n && forall j :: 0 <= j < i ==> list.files[j].inode == null
      modifies list`files, fs`graves, fs`live, fs.live`i_crefs
      ensures Valid() && fs.live <= old(fs.live) && forall j :: 0 <= j <= i ==> list.files[j].inode == null
    {
      var _ := CloseSlot(list, i, closes);
    }

    // The loop of files_releaselist.
    method CloseAll(list: FileList, closes: seq<int>)
      requires Valid() && list in all && |closes| == n
      modifies list`files, fs`graves, fs`live, fs.live`i_crefs
      ensures Valid()
      ensures forall j :: 0 <= j < n ==> list.files[j].inode == null
      ensures fs.live <= old(fs.live)
    {
      var i := 0;
      while i < n
        invariant 0 <= i <= n && Valid() && fs.live <= old(fs.live)
        invariant forall j :: 0 <= j < i ==> list.files[j].inode == null
      {
        CloseNext(list, i, closes[i]);
        i := i + 1;
      }
    }

    static lemma Cut(ls: seq<FileList>, i: nat, n: nat)
      requires ListsOf(ls, n) && i < |ls|
      ensures var rest := ls[..i] + ls[i + 1..];
        ListsOf(rest, n) && ls[i] !in rest && forall l :: l in ls && l != ls[i] ==> l in rest
    {
      var rest := ls[..i] + ls[i + 1..];
      forall l | l in ls && l != ls[i] ensures l in rest {
        var k :| 0 <= k < |ls| && ls[k] == l;
        assert l == if k < i then rest[k] else rest[k - 1];
      }
    }

    lemma Without(list: FileList) returns (rest: seq<FileList>)
      requires Lists() && list in all && forall j :: 0 <= j < n ==> list.files[j].inode == null
      requires Counts(fs.live, TableOf(all), null)
      ensures ListsOf(rest, n) && Counts(fs.live, TableOf(rest), null)
      ensures list !in rest && forall l :: l in all && l != list ==> l in rest
    {
      var i :| 0 <= i < |all| && all[i] == list;
      rest := all[..i] + all[i + 1..];
      Cut(all, i, n);
      var t: seq<seq<Slot>> := TableOf(all);
      var u: seq<seq<Slot>> := TableOf(rest);
      assert u == t[..i] + t[i + 1..];
      forall m | m in fs.live ensures InTable(u, m) == InTable(t, m) {
        NothingHeld(list.files, m);
        TableWithout(t, i, m);
      }
    }

    ghost method Delist(list: FileList)
      requires Valid() && list in all && forall j :: 0 <= j < n ==> list.files[j].inode == null
      modifies `all
      ensures Valid() && list !in all && forall l :: l in old(all) && l != list ==> l in all
    {
      ghost var rest := Without(list);
      Relist(rest, TableOf(rest));
    }

    method Discard(list: FileList, closes: seq<int>)
      requires Valid() && list in all && |closes| == n
      modifies list`files, `all, fs`graves, fs`live, fs.live`i_crefs
      ensures Valid() && list !in all && forall l :: l in old(all) && l != list ==> l in all
    {
      CloseAll(list, closes);
      Delist(list);
    }

    // files_releaselist: the last reference closes everything and the list is gone.
    method FilesReleaselist(list: FileList?, closes: seq<int>)
      requires Valid() && (list != null ==> list in all) && |closes| == n
      modifies (if list == null then {} else {list}), `all, fs`graves, fs`live, fs.live`i_crefs
      ensures Valid()
      ensures list != null ==> list.crefs == old(list.crefs) - 1
      ensures list == null || list.crefs > 0 ==> all == old(all) && fs.live == old(fs.live)
      ensures list != null && list.crefs > 0 ==> list.files == old(list.files)
      ensures list != null && list.crefs <= 0 ==> list !in all && forall l :: l in old(all) && l != list ==> l in all
    {
      if list != null {
        SetCrefs(list, list.crefs - 1);
        if list.crefs <= 0 {
          Discard(list, closes);
        }
      }
    }

    // files_allocate: the least free slot from minfd on takes over the reference in hand.
    method FilesAllocate(list: FileList, node: Inode, oflags: bv32, pos: int, minfd: nat) returns (fd: Option<nat>)
      requires Owing(node) && list in all
      modifies list`files
      ensures fd.Some? ==> Valid() && LeastFree(old(list.files), minfd, fd.value) && old(list.files)[fd.value] == FREE
      ensures fd.Some? ==> list.files == old(list.files)[fd.value := Slot(oflags, pos, node)]
      ensures fd.None? ==> Owing(node) && list.files == old(list.files) && Full(list.files, minfd)
    {
      var i := minfd;
      while i < n
        invariant minfd <= i && list.files == old(list.files) && Owing(node)
        invariant forall j :: minfd <= j < i && j < n ==> list.files[j].inode != null
      {
        if list.files[i].inode == null {
          Fill(list, i, Slot(oflags, pos, node));
          return Some(i);
        }
        i := i + 1;
      }
      fd := None;
    }

    // The inode a path leads to.
    ghost function Target(path: string): Option<Inode>
      reads fs, fs.live
    {
      if path == "" || path[0] != '/' then None
      else match Resolve(fs.tree, fs.Mounts(), Components(path[1..]))
        case None => None
        case Some(p) => Some(p.0)
    }

    method Find(path: string) returns (node: Inode?, relpath: string)
      requires Valid()
      modifies fs.live`i_crefs
      ensures Owing(node) && TableOf(all) == old(TableOf(all))
      ensures old(Target(path)) == if node == null then None else Some(node)
      ensures node != null ==> node in fs.live && node.i_crefs == old(node.i_crefs) + 1
      ensures node != null ==> node in Nodes(fs.tree) && !node.deleted
      ensures forall m :: m in fs.live && m != node ==> m.i_crefs == old(m.i_crefs)
    {
      node, relpath := fs.InodeFind(path);
      assert TableOf(all) == old(TableOf(all));
      if node != null {
        ResolveInside(fs.tree, fs.Mounts(), Components(path[1..]));
        TopsInside(fs.graves);
        assert node !in fs.Deleted();
      }
    }

    // inode_checkflags
    predicate Denied(dev: Device, oflags: bv32) {
      (oflags & O_RDOK != 0 && !dev.read) || (oflags & O_WROK != 0 && !dev.write)
    }

    // What the flags ask for, bit by bit, and whether the driver has the methods for it.
    static predicate Reads(oflags: bv32) {
      oflags % 2 == 1
    }

    static predicate Writes(oflags: bv32) {
      oflags / 2 % 2 == 1
    }

    static predicate Offered(dev: Device, oflags: bv32) {
      (Reads(oflags) ==> dev.read) && (Writes(oflags) ==> dev.write)
    }

    lemma DeniedExactly(dev: Device, oflags: bv32)
      ensures Denied(dev, oflags) <==> !Offered(dev, oflags)
    {
      assert oflags & 1 == oflags % 2;
      assert oflags & 2 != 0 <==> oflags / 2 % 2 == 1;
    }

    // No free slot, or a driver that fails to open.
    ghost function Unconnectable(s: seq<Slot>, opens: int): Option<Errno> {
      if Full(s, 0) then Some(EMFILE) else if opens < 0 then Some(Failure(opens)) else None
    }

    // What open() reports once an inode is found, in the order of its checks.
    ghost function Refusal(mountpt: bool, dev: Device, oflags: bv32, s: seq<Slot>): Option<Errno> {
      if (!dev.driver && !mountpt) || !dev.ops then Some(ENXIO)
      else if Denied(dev, oflags) then Some(EACCES)
      else Unconnectable(s, dev.opens)
    }

    // Either the first failing check is reported and the slots are as before, or the least
    // free slot has become a descriptor of the inode.
    ghost predicate Opened(s: seq<Slot>, s': seq<Slot>, node: Inode, oflags: bv32, failed: Option<Errno>, r: Outcome) {
      && failed == (if r.Error? then Some(r.errno) else None)
      && if r.Error? then s' == s else LeastFree(s, 0, r.fd) && s' == s[r.fd := Slot(oflags, 0, node)]
    }

    // Which answer is due, by what the inode is, what its driver has, and what is asked for.
    ghost predicate Answered(mountpt: bool, dev: Device, oflags: bv32, s: seq<Slot>, r: Outcome) {
      var fit := dev.ops && (dev.driver || mountpt);
      && (r == Error(ENXIO) <==> !fit)
      && (r == Error(EACCES) <==> fit && !Offered(dev, oflags))
      && (r == Error(EMFILE) <==> fit && Offered(dev, oflags) && Full(s, 0))
      && (r.Fd? <==> fit && Offered(dev, oflags) && !Full(s, 0) && dev.opens >= 0)
      && (fit && Offered(dev, oflags) && !Full(s, 0) && dev.opens < 0 ==> r == Error(EDRIVER(-dev.opens)))
    }

    lemma RefusalExactly(node: Inode, dev: Device, oflags: bv32, s: seq<Slot>, s': seq<Slot>, r: Outcome)
      requires Opened(s, s', node, oflags, Refusal(node.mountpt, dev, oflags, s), r)
      ensures Answered(node.mountpt, dev, oflags, s, r)
    {
      DeniedExactly(dev, oflags);
    }

    // A slot taken by mistake is free again.
    method Withdraw(list: FileList, fd: nat, ghost s: seq<Slot>)
      requires Valid() && list in all && fd < n && |s| == n && s[fd] == FREE && list.files == s[fd := list.files[fd]]
      modifies list`files
      ensures Owing(old(list.files[fd].inode)) && list.files == s
    {
      Overwrite(s, fd, list.files[fd], FREE);
      FilesRelease(list, fd);
    }

    // The slot and the driver's open method; a failure leaves the reference in hand.
    method Connect(list: FileList, node: Inode, oflags: bv32, dev: Device) returns (r: Outcome)
      requires Owing(node) && list in all
      modifies list`files
      ensures Opened(old(list.files), list.files, node, oflags, Unconnectable(old(list.files), dev.opens), r)
      ensures if r.Error? then Owing(node) else Valid()
    {
      var fd := FilesAllocate(list, node, oflags, 0, 0);
      if fd.None? { return Error(EMFILE); }
      r := Fd(fd.value);
      if dev.opens < 0 {
        Withdraw(list, fd.value, old(list.files));
        r := Error(Failure(dev.opens));
      }
    }

    // The checks before it.
    method Attach(list: FileList, node: Inode, oflags: bv32, dev: Device) returns (r: Outcome)
      requires Owing(node) && list in all
      modifies list`files
      ensures Opened(old(list.files), list.files, node, oflags, Refusal(node.mountpt, dev, oflags, old(list.files)), r)
      ensures if r.Error? then Owing(node) else Valid()
    {
      if (!dev.driver && !node.mountpt) || !dev.ops { return Error(ENXIO); }
      if Denied(dev, oflags) { return Error(EACCES); }
      r := Connect(list, node, oflags, dev);
    }

    // And the release after a failure.
    method OpenInode(list: FileList, node: Inode, oflags: bv32, dev: Device) returns (r: Outcome)
      requires Owing(node) && list in all && !node.deleted
      modifies list`files, fs`graves, fs`live, node`i_crefs
      ensures Valid() && fs.live == old(fs.live) && fs.graves == old(fs.graves)
      ensures Opened(old(list.files), list.files, node, oflags, Refusal(node.mountpt, dev, oflags, old(list.files)), r)
      ensures node.i_crefs == old(node.i_crefs) - if r.Error? then 1 else 0
    {
      r := Attach(list, node, oflags, dev);
      if r.Error? {
        PutBack(node);
      }
    }

    method OpenIn(list: FileList, path: string, oflags: bv32, dev: Device) returns (r: Outcome)
      requires Valid() && list in all
      modifies list`files, fs`graves, fs`live, fs.live`i_crefs
      ensures Valid() && fs.live == old(fs.live) && fs.graves == old(fs.graves)
      ensures var target := old(Target(path));
        if target.None? then r == Error(Errno.ENOENT) && list.files == old(list.files)
        else
          var failed := Refusal(target.value.mountpt, dev, oflags, old(list.files));
          && Opened(old(list.files), list.files, target.value, oflags, failed, r)
          && Answered(target.value.mountpt, dev, oflags, old(list.files), r)
    {
      var inode, relpath := Find(path);
      r := Error(Errno.ENOENT);
      if inode != null {
        assert inode.mountpt == old(inode.mountpt);
        r := OpenInode(list, inode, oflags, dev);
        RefusalExactly(inode, dev, oflags, old(list.files), list.files, r);
      }
    }

    // open: a new descriptor in the least free slot, or nothing changed at all, on every
    // error path; dev is what the inode found offers.
    method Open(list: FileList?, path: string, oflags: bv32, dev: Device) returns (r: Outcome)
      requires Valid() && (list != null ==> list in all)
      modifies (if list == null then {} else {list})`files, fs`graves, fs`live, fs.live`i_crefs
      ensures Valid() && fs.live == old(fs.live) && fs.graves == old(fs.graves)
      ensures r == Error(EMFILE) <== list == null
      ensures list != null ==>
        var target := old(Target(path));
        if target.None? then r == Error(Errno.ENOENT) && list.files == old(list.files)
        else
          var failed := Refusal(target.value.mountpt, dev, oflags, old(list.files));
          Opened(old(list.files), list.files, target.value, oflags, failed, r)
      ensures r.Fd? ==> Offered(dev, oflags)
      ensures list != null && old(Target(path)).Some? ==>
        Answered(old(Target(path)).value.mountpt, dev, oflags, old(list.files), r)
      ensures r.Error? ==> forall m :: m in fs.live ==> m.i_crefs == old(m.i_crefs)
    {
      if list == null { return Error(EMFILE); }
      ghost var t := TableOf(all);
      r := OpenIn(list, path, oflags, dev);
      assert r.Error? ==> TableOf(all) == t;
    }

    // inode_addref: a reference more in hand.
    method Addref(node: Inode)
      requires Valid() && node in fs.Held()
      modifies node`i_crefs
      ensures Owing(node) && node.i_crefs == old(node.i_crefs) + 1
    {
      fs.InodeAddref(node);
      assert TableOf(all) == old(TableOf(all));
    }

    lemma SlotHeld(list: FileList, fd: nat)
      requires Valid() && list in all && fd < n && list.files[fd].inode != null
      ensures list.files[fd].inode in fs.Held()
    {
      var i :| 0 <= i < |all| && all[i] == list;
      Counted(TableOf(all), i, fd);
    }

    method CloneInto(list: FileList, s: Slot, minfd: nat) returns (r: Outcome)
      requires s.inode != null && Owing(s.inode) && list in all && s.inode.i_crefs > 1
      modifies list`files, fs`graves, fs`live, s.inode`i_crefs
      ensures Valid() && fs.live == old(fs.live) && fs.graves == old(fs.graves)
      ensures r.Error? ==> r.errno == EMFILE && Full(list.files, minfd) && list.files == old(list.files)
      ensures r.Error? ==> s.inode.i_crefs == old(s.inode.i_crefs) - 1
      ensures r.Fd? ==> LeastFree(old(list.files), minfd, r.fd) && list.files == old(list.files)[r.fd := s]
    {
      var fd := FilesAllocate(list, s.inode, s.oflags, s.pos, minfd);
      if fd.None? {
        PutBack(s.inode);
        return Error(EMFILE);
      }
      r := Fd(fd.value);
    }

    method DupSlot(list: FileList, fildes: nat, minfd: nat) returns (r: Outcome)
      requires Valid() && list in all && fildes < n && list.files[fildes].inode != null
      modifies list`files, fs`graves, fs`live, list.files[fildes].inode`i_crefs
      ensures Valid() && fs.live == old(fs.live) && fs.graves == old(fs.graves)
      ensures r.Error? ==> r.errno == EMFILE && Full(old(list.files), minfd) && list.files == old(list.files)
      ensures r.Error? ==> old(list.files[fildes].inode).i_crefs == old(list.files[fildes].inode.i_crefs)
      ensures r.Fd? ==> LeastFree(old(list.files), minfd, r.fd)
      ensures r.Fd? ==> list.files == old(list.files)[r.fd := old(list.files)[fildes]]
    {
      var s := list.files[fildes];
      SlotHeld(list, fildes);
      Addref(s.inode);
      r := CloneInto(list, s, minfd);
    }

    // file_dup: a second descriptor in the least free slot from minfd on, or nothing.
    method FileDup(list: FileList?, fildes: int, minfd: nat) returns (r: Outcome)
      requires Valid() && (list != null ==> list in all)
      modifies (if list == null then {} else {list})`files, fs`graves, fs`live, fs.live`i_crefs
      ensures Valid() && fs.live == old(fs.live) && fs.graves == old(fs.graves)
      ensures list == null ==> r == Error(EMFILE)
      ensures list != null ==> (r == Error(EBADF) <==> !IsOpen(old(list.files), fildes))
      ensures list != null ==> (r == Error(EMFILE) <==> IsOpen(old(list.files), fildes) && Full(old(list.files), minfd))
      ensures r.Error? ==> r.errno in {EBADF, EMFILE} && forall m :: m in fs.live ==> m.i_crefs == old(m.i_crefs)
      ensures r.Error? && list != null ==> list.files == old(list.files)
      ensures r.Fd? ==> LeastFree(old(list.files), minfd, r.fd)
      ensures r.Fd? ==> list.files == old(list.files)[r.fd := old(list.files)[fildes]]
    {
      if list == null { return Error(EMFILE); }
      if !IsOpen(list.files, fildes) { return Error(EBADF); }
      r := DupSlot(list, fildes, minfd);
    }

    // The checks of files_dup.
    ghost function Undupable(s: Slot, mine: bool): Option<Errno>
      reads InodeIn(s)
    {
      if s.inode == null then Some(EBADF)
      else if s.inode.mountpt then Some(ENOSYS)
      else if !mine then Some(EMFILE)
      else None
    }

    method CheckDup(s: Slot, mine: bool) returns (failed: Option<Errno>)
      ensures failed == Undupable(s, mine)
    {
      if s.inode == null { return Some(EBADF); }
      if s.inode.mountpt { return Some(ENOSYS); }
      if !mine { return Some(EMFILE); }
      return None;
    }

    // A negative result of the drivers becomes errno.
    function Reply(ret: int): Outcome {
      if ret < 0 then Error(Failure(ret)) else Fd(0)
    }

    // How closing the one and opening the other driver end.
    function DriverResult(open: bool, closes: int, opens: int): int {
      if open && closes < 0 then closes else if opens < 0 then opens else 0
    }

    // Closing one slot leaves a different one alone.
    method CloseOther(l1: FileList, fd1: nat, l2: FileList, fd2: nat, closes: int) returns (ret: int)
      requires Valid() && l1 in all && l2 in all && fd1 < n && fd2 < n && (l1 != l2 || fd1 != fd2)
      modifies l2`files, fs`graves, fs`live, InodeIn(l2.files[fd2])`i_crefs
      ensures Valid() && Freed(old(l2.files[fd2].inode)) && l1.files[fd1] == old(l1.files[fd1])
      ensures l1.files[fd1].inode != null ==> l1.files[fd1].inode in fs.Held()
      ensures ret == if old(l2.files[fd2].inode) == null then 0 else closes
      ensures l2.files == old(l2.files)[fd2 := FREE]
    {
      ret := CloseSlot(l2, fd2, closes);
      if l1.files[fd1].inode != null { SlotHeld(l1, fd1); }
    }

    method Clone(s: Slot, l2: FileList, fd2: nat, opens: int) returns (ret: int)
      requires Valid() && l2 in all && fd2 < n && l2.files[fd2] == FREE
      requires s.inode != null && s.inode in fs.Held()
      modifies l2`files, fs`graves, fs`live, s.inode`i_crefs
      ensures Valid() && fs.live == old(fs.live) && fs.graves == old(fs.graves)
      ensures ret == if opens < 0 then opens else 0
      ensures l2.files == old(l2.files)[fd2 := if ret >= 0 then s else FREE]
    {
      Addref(s.inode);
      Fill(l2, fd2, s);
      ret := 0;
      if opens < 0 {
        ret := opens;
        Overwrite(old(l2.files), fd2, s, FREE);
        GiveUp(l2, fd2);
      }
    }

    method Redirect(l1: FileList, fd1: nat, l2: FileList, fd2: nat, closes: int, opens: int) returns (ret: int)
      requires Valid() && l1 in all && l2 in all && fd1 < n && fd2 < n && (l1 != l2 || fd1 != fd2)
      requires l1.files[fd1].inode != null
      modifies l2`files, fs`graves, fs`live, l1.files[fd1].inode`i_crefs, InodeIn(l2.files[fd2])`i_crefs
      ensures Valid() && Freed(old(l2.files[fd2].inode))
      ensures ret == DriverResult(old(l2.files[fd2].inode) != null, closes, opens)
      ensures l2.files == old(l2.files)[fd2 := if ret >= 0 then old(l1.files)[fd1] else FREE]
    {
      ret := CloseOther(l1, fd1, l2, fd2, closes);
      if ret >= 0 {
        Overwrite(old(l2.files), fd2, FREE, old(l1.files)[fd1]);
        ret := Clone(l1.files[fd1], l2, fd2, opens);
      }
    }

    // files_dup: the second slot, closed first, becomes a copy of the other one.  When its
    // driver fails to close, or the other's to open, it is left closed.  mine tells whether
    // the caller has a file list.
    method FilesDup(l1: FileList, fd1: nat, l2: FileList, fd2: nat, mine: bool, closes: int, opens: int)
      returns (r: Outcome)
      requires Valid() && l1 in all && l2 in all && fd1 < n && fd2 < n && (l1 != l2 || fd1 != fd2)
      modifies l2`files, fs`graves, fs`live, InodeIn(l1.files[fd1])`i_crefs, InodeIn(l2.files[fd2])`i_crefs
      ensures Valid()
      ensures var failed := old(Undupable(l1.files[fd1], mine));
        if failed.Some? then r == Error(failed.value) && l2.files == old(l2.files) && fs.live == old(fs.live)
        else
          && r == Reply(DriverResult(old(l2.files[fd2].inode) != null, closes, opens))
          && Freed(old(l2.files[fd2].inode))
          && l2.files == old(l2.files)[fd2 := if r.Fd? then old(l1.files)[fd1] else FREE]
      ensures r == Error(EBADF) <==> old(l1.files[fd1].inode) == null
      ensures r == Error(ENOSYS) <==> old(l1.files[fd1].inode) != null && old(l1.files[fd1].inode.mountpt)
      ensures r == Error(EMFILE) <==>
        old(l1.files[fd1].inode) != null && !old(l1.files[fd1].inode.mountpt) && !mine
      ensures var works := opens >= 0 && (old(l2.files[fd2].inode) == null || closes >= 0);
        r.Fd? <==> old(l1.files[fd1].inode) != null && !old(l1.files[fd1].inode.mountpt) && mine && works
    {
      var failed := CheckDup(l1.files[fd1], mine);
      if failed.Some? { return Error(failed.value); }
      var ret := Redirect(l1, fd1, l2, fd2, closes, opens);
      r := Reply(ret);
    }

    // The checks of file_dup2; without one failing it goes on to redirect fildes2.
    ghost function Dup2Ends(s: seq<Slot>, fildes1: int, fildes2: int): Option<Outcome>
      reads if 0 <= fildes1 < |s| then InodeIn(s[fildes1]) else {}
    {
      if !IsOpen(s, fildes1) then Some(Error(EBADF))
      else if fildes1 == fildes2 then Some(Fd(fildes1))
      else if !(0 <= fildes2 < |s|) then Some(Error(EBADF))
      else if s[fildes1].inode.mountpt then Some(Error(ENOSYS))
      else None
    }

    method CheckDup2(s: seq<Slot>, fildes1: int, fildes2: int) returns (end: Option<Outcome>)
      ensures end == Dup2Ends(s, fildes1, fildes2)
    {
      if !IsOpen(s, fildes1) { return Some(Error(EBADF)); }
      if fildes1 == fildes2 { return Some(Fd(fildes1)); }
      if !(0 <= fildes2 < |s|) { return Some(Error(EBADF)); }
      if s[fildes1].inode.mountpt { return Some(Error(ENOSYS)); }
      return None;
    }

    // Which answer is due; mountpt says that the first descriptor is of a mountpoint.
    static predicate Dup2Answered(s: seq<Slot>, mountpt: bool, fd1: int, fd2: int, closes: int, opens: int,
                                  r: Outcome)
    {
      var known := IsOpen(s, fd1) && 0 <= fd2 < |s|;
      var works := known && opens >= 0 && (s[fd2].inode == null || closes >= 0);
      && (r == Error(EBADF) <==> !known)
      && (r == Error(ENOSYS) <==> known && fd1 != fd2 && mountpt)
      && (r.Fd? <==> known && (fd1 == fd2 || (!mountpt && works)))
      && (r.Fd? ==> r.fd == if fd1 == fd2 then fd1 else 0)
      && (known && fd1 != fd2 && !mountpt && !works ==>
          r == Error(EDRIVER(if s[fd2].inode != null && closes < 0 then -closes else -opens)))
    }

    lemma Dup2Exactly(s: seq<Slot>, mountpt: bool, fd1: int, fd2: int, closes: int, opens: int, r: Outcome)
      requires r ==
        if !IsOpen(s, fd1) then Error(EBADF) else if fd1 == fd2 then Fd(fd1)
        else if !(0 <= fd2 < |s|) then Error(EBADF) else if mountpt then Error(ENOSYS)
        else Reply(DriverResult(s[fd2].inode != null, closes, opens))
      ensures Dup2Answered(s, mountpt, fd1, fd2, closes, opens, r)
    {
    }

    // file_dup2: the descriptor itself for twice the same one; otherwise 0, not fildes2.
    method FileDup2(list: FileList?, fildes1: int, fildes2: int, closes: int, opens: int) returns (r: Outcome)
      requires Valid() && (list != null ==> list in all)
      modifies (if list == null then {} else {list})`files, fs`graves, fs`live, fs.live`i_crefs
      ensures Valid()
      ensures list == null ==> r == Error(EMFILE) && fs.live == old(fs.live)
      ensures list != null ==>
        var end := old(Dup2Ends(list.files, fildes1, fildes2));
        if end.Some? then r == end.value && list.files == old(list.files) && fs.live == old(fs.live)
        else
          && r == Reply(DriverResult(old(list.files)[fildes2].inode != null, closes, opens))
          && Freed(old(list.files)[fildes2].inode)
          && list.files == old(list.files)[fildes2 := if r.Fd? then old(list.files)[fildes1] else FREE]
      ensures list != null ==>
        var mountpt := IsOpen(old(list.files), fildes1) && old(list.files[fildes1].inode.mountpt);
        Dup2Answered(old(list.files), mountpt, fildes1, fildes2, closes, opens, r)
    {
      if list == null { return Error(EMFILE); }
      ghost var s, mountpt := list.files, IsOpen(list.files, fildes1) && list.files[fildes1].inode.mountpt;
      var end := CheckDup2(list.files, fildes1, fildes2);
      if end.Some? {
        r := end.value;
      } else {
        r := FilesDup(list, fildes1, list, fildes2, true, closes, opens);
      }
      Dup2Exactly(s, mountpt, fildes1, fildes2, closes, opens, r);
    }

    lemma NewUnheld(live: set<Inode>, t: seq<seq<Slot>>)
      requires live <= fs.live && fs.Held() <= live && Counts(live, t, null)
      ensures Counts(fs.live, t, null)
    {
      forall m | m in fs.live - live ensures InTable(t, m) == 0 {
        if InTable(t, m) > 0 { var i, j := Holder(t, m); }
      }
    }

    // inode_reserve leaves the descriptors alone, and every other path leads where it led.
    method Reserve(path: string) returns (node: Inode?, ghost ns: seq<Inode>)
      requires Valid()
      modifies fs`root_inode, fs`tree, fs`live, fs.live`i_peer, fs.live`i_child
      ensures Valid() && old(fs.live) <= fs.live && fresh(fs.live - old(fs.live)) && fs.Mounts() == old(fs.Mounts())
      ensures node != null <==> path != "" && path[0] == '/' && old(Target(path)).None?
      ensures node == null ==> fs.tree == old(fs.tree) && fs.live == old(fs.live)
      ensures node != null ==> |ns| > 0 && node == ns[|ns| - 1]
      ensures node != null ==> ReservationOf(old(fs.tree), fs.Mounts(), Components(path[1..]), ns, fs.tree)
    {
      ghost var t := TableOf(all);
      node, ns := fs.InodeReserve(path);
      NewUnheld(old(fs.live), t);
      assert TableOf(all) == t;
    }

    // What hangs below the inode that a path leads to.
    ghost function Orphans(path: string): Forest
      reads fs, fs.live
    {
      match Target(path)
      case None => Nil
      case Some(m) => Below(fs.tree, m)
    }

    // The inodes kept aside once that inode is removed while referenced.
    ghost function GravesAfter(path: string): Forest
      reads fs, fs.live
    {
      match Target(path)
      case None => fs.graves
      case Some(m) => Cons(m, Orphans(path), fs.graves)
    }

    // Burying an inode leaves nothing referenced below a removed one if and only if nothing
    // referenced hangs below it.
    static lemma QuietBurial(v: Inode, kids: Forest, g: Forest, held: set<Inode>)
      requires Distinct(Cons(v, kids, g))
      ensures (Nodes(Cons(v, kids, g)) - Tops(Cons(v, kids, g))) !! held <==>
        Nodes(kids) !! held && (Nodes(g) - Tops(g)) !! held
    {
      TopsInside(g);
      assert Nodes(Cons(v, kids, g)) - Tops(Cons(v, kids, g)) == Nodes(kids) + (Nodes(g) - Tops(g));
    }

    method Detach(path: string) returns (ret: Status)
      requires fs.Valid() && fs.Quiet()
      modifies fs`root_inode, fs`tree, fs`graves, fs`live, fs.live`i_peer, fs.live`i_child, fs.live`deleted
      ensures fs.Valid() && fs.live <= old(fs.live)
      ensures ret == EINVAL <==> path == "" || path[0] != '/'
      ensures ret in {EINVAL, Status.ENOENT} <==> old(Target(path)).None?
      ensures old(Target(path)).None? ==> fs.Quiet() && fs.tree == old(fs.tree) && fs.live == old(fs.live)
      ensures old(Target(path)).Some? ==> ret == if old(Target(path).value in fs.Held()) then EBUSY else OK
      ensures old(Target(path)).Some? ==> RemovalOf(old(fs.tree), old(fs.Mounts()), path[1..], fs.tree, fs.Mounts())
      ensures ret == EBUSY ==> fs.live == old(fs.live) && fs.graves == old(GravesAfter(path))
      ensures ret == EBUSY ==> (fs.Quiet() <==> old(Nodes(Orphans(path))) !! old(fs.Held()))
      ensures ret == OK ==> fs.Quiet()
      ensures ret == OK ==> fs.live == old(fs.live) - {old(Target(path)).value} - old(Nodes(Orphans(path)))
    {
      ret := fs.InodeRemove(path);
      if ret == EBUSY {
        QuietBurial(old(Target(path)).value, old(Orphans(path)), old(fs.graves), old(fs.Held()));
      }
    }

    // The tables stay as they are.
    method Unlink(path: string, ghost t: seq<seq<Slot>>) returns (ret: Status)
      requires fs.Valid() && fs.Quiet() && Lists() && t == TableOf(all) && Counts(fs.live, t, null)
      modifies fs`root_inode, fs`tree, fs`graves, fs`live, fs.live`i_peer, fs.live`i_child, fs.live`deleted
      ensures fs.Valid() && Lists() && TableOf(all) == t && forall m :: m in fs.live ==> m.i_crefs == InTable(t, m)
      ensures ret == EINVAL <==> path == "" || path[0] != '/'
      ensures ret in {EINVAL, Status.ENOENT} <==> old(Target(path)).None?
      ensures old(Target(path)).None? ==> fs.Quiet() && fs.tree == old(fs.tree) && fs.live == old(fs.live)
      ensures old(Target(path)).Some? ==> ret == if old(Target(path).value in fs.Held()) then EBUSY else OK
      ensures old(Target(path)).Some? ==> RemovalOf(old(fs.tree), old(fs.Mounts()), path[1..], fs.tree, fs.Mounts())
      ensures ret == EBUSY ==> fs.live == old(fs.live) && fs.graves == old(GravesAfter(path))
      ensures ret == EBUSY ==> (fs.Quiet() <==> old(Nodes(Orphans(path))) !! old(fs.Held()))
      ensures ret == OK ==> fs.Quiet()
      ensures ret == OK ==> fs.live == old(fs.live) - {old(Target(path)).value} - old(Nodes(Orphans(path)))
    {
      ret := Detach(path);
      assert TableOf(all) == t;
    }

    // Who is held, according to the tables.
    static ghost predicate Tallied(t: seq<seq<Slot>>, live: set<Inode>, held: set<Inode>) {
      && held <= live
      && (forall m :: m in held ==> InTable(t, m) > 0)
      && (forall i, j :: 0 <= i < |t| && 0 <= j < |t[i]| && t[i][j].inode != null ==> t[i][j].inode in held)
    }

    lemma Tally(t: seq<seq<Slot>>)
      requires Valid() && t == TableOf(all)
      ensures Tallied(t, fs.live, fs.Held())
    {
      forall i: nat, j: nat | i < |t| && j < |t[i]| && t[i][j].inode != null ensures t[i][j].inode in fs.Held() {
        Counted(t, i, j);
      }
    }

    // After a removal the descriptors are sound if and only if none held an orphan.
    lemma Judge(t: seq<seq<Slot>>, live: set<Inode>, held: set<Inode>, orphans: set<Inode>, v: Inode, busy: bool)
      requires fs.Valid() && Lists() && TableOf(all) == t && forall m :: m in fs.live ==> m.i_crefs == InTable(t, m)
      requires Tallied(t, live, held)
      requires busy ==> fs.live == live && (fs.Quiet() <==> orphans !! held)
      requires !busy ==> fs.Quiet() && v !in held && fs.live == live - {v} - orphans
      ensures Valid() <==> orphans !! held
    {
      if m :| m in orphans && m in held && !busy {
        var i, j := Holder(t, m);
      }
    }

    // inode_remove keeps the descriptors sound exactly when none of them holds an inode
    // below the one removed.  The paths through it lead nowhere afterwards, the others where
    // they led.
    method Remove(path: string) returns (ret: Status)
      requires Valid()
      modifies fs`root_inode, fs`tree, fs`graves, fs`live, fs.live`i_peer, fs.live`i_child, fs.live`deleted
      ensures fs.Valid()
      ensures ret == EINVAL <==> path == "" || path[0] != '/'
      ensures ret in {EINVAL, Status.ENOENT} <==> old(Target(path)).None?
      ensures old(Target(path)).None? ==> Valid() && fs.tree == old(fs.tree) && fs.live == old(fs.live)
      ensures old(Target(path)).Some? ==> (Valid() <==> old(Nodes(Orphans(path))) !! old(fs.Held()))
      ensures old(Target(path)).Some? ==> ret == if old(Target(path).value in fs.Held()) then EBUSY else OK
      ensures old(Target(path)).Some? ==> RemovalOf(old(fs.tree), old(fs.Mounts()), path[1..], fs.tree, fs.Mounts())
      ensures ret == EBUSY ==> fs.live == old(fs.live) && fs.graves == old(GravesAfter(path))
      ensures ret == OK ==> fs.live == old(fs.live) - {old(Target(path)).value} - old(Nodes(Orphans(path)))
    {
      ghost var t, orphans, victim := TableOf(all), Nodes(Orphans(path)), Target(path);
      Tally(t);
      ret := Unlink(path, t);
      if ret == OK || ret == EBUSY {
        Judge(t, old(fs.live), old(fs.Held()), orphans, victim.value, ret == EBUSY);
      }
    }

    // The inode that has been removed while referenced is released as often as it was.
    method ReleaseAll(v: Inode, refs: nat, ghost kids: Forest, ghost g: Forest)
      requires fs.Valid() && fs.graves == Cons(v, kids, g) && v.i_crefs == refs > 0
      modifies fs`graves, fs`live, v`i_crefs
      ensures fs.Valid() && fs.live == old(fs.live) - {v} - Nodes(kids)
    {
      var i := 0;
      while i < refs
        invariant 0 <= i <= refs && fs.Valid() && v.i_crefs == refs - i
        invariant i < refs ==> fs.live == old(fs.live) && fs.graves == Cons(v, kids, g)
        invariant i == refs ==> fs.live == old(fs.live) - {v} - Nodes(kids)
      {
        assert v in Tops(fs.graves) && v in fs.Deleted();
        fs.InodeRelease(v);
        i := i + 1;
      }
    }

    method ReleaseBuried(v: Inode, refs: nat, ghost kids: Forest, ghost g: Forest, ghost t: seq<seq<Slot>>)
      requires t == TableOf(all) && fs.Valid() && fs.graves == Cons(v, kids, g) && v.i_crefs == refs > 0
      modifies fs`graves, fs`live, v`i_crefs
      ensures TableOf(all) == t && fs.live == old(fs.live) - {v} - Nodes(kids)
    {
      ReleaseAll(v, refs, kids, g);
      assert TableOf(all) == t;
    }

    method BuryHeld(path: string, v: Inode, ghost t: seq<seq<Slot>>)
      requires Valid() && t == TableOf(all) && Target(path) == Some(v) && v in fs.Held()
      modifies fs`root_inode, fs`tree, fs`graves, fs`live, fs.live`i_peer, fs.live`i_child, fs.live`deleted
      ensures fs.Valid() && TableOf(all) == t && fs.live == old(fs.live)
      ensures fs.graves == Cons(v, old(Orphans(path)), old(fs.graves))
    {
      var _ := Unlink(path, t);
    }

    // What is unsound then: once the last reference to the inode removed is released, an inode
    // below it is freed although a descriptor still holds it.
    method RemoveAndRelease(path: string, v: Inode, ghost o: Inode)
      requires Valid() && Target(path) == Some(v) && v in fs.Held()
      requires o in Nodes(Orphans(path)) && o in fs.Held()
      modifies fs`root_inode, fs`tree, fs`graves, fs`live
      modifies fs.live`i_peer, fs.live`i_child, fs.live`deleted, v`i_crefs
      ensures o !in fs.live && InTable(TableOf(all), o) > 0
    {
      ghost var t, kids, g := TableOf(all), Orphans(path), fs.graves;
      Tally(t);
      var refs := v.i_crefs;
      BuryHeld(path, v, t);
      ReleaseBuried(v, refs, kids, g, t);
    }
  }

  method OneList() returns (d: Descriptors, list: FileList)
    ensures fresh(d) && fresh(d.fs) && fresh(list) && d.Valid() && d.fs.live == {} && d.fs.tree == Nil
    ensures d.all == [list] && d.n == 1 && list.files == [FREE]
  {
    d := new Descriptors(1);
    list := d.FilesAlloclist();
  }

  lemma Names()
    ensures Components("a/b") == ["a", "b"] && Components("a") == ["a"]
    ensures "/a/b"[1..] == "a/b" && "/a"[1..] == "a"
  {
    assert "a"[1..] == "" && "b"[1..] == "" && "a/b"[1..] == "/b" && "/b"[1..] == "b";
    assert Component("a") == "a" && NextName("a") == "";
    assert Component("b") == "b" && NextName("b") == "";
    assert Component("/b") == "" && NextName("/b") == "b";
    assert Component("a/b") == "a" && NextName("a/b") == "b";
    assert Components("b") == ["b"];
  }

  // A new table with one list of one slot, and "/a/b" reserved.
  method ReserveBelow() returns (d: Descriptors, list: FileList, ghost inner: Inode)
    ensures fresh(d) && fresh(d.fs) && fresh(d.fs.live) && fresh(list) && d.Valid() && d.fs.Mounts() == {}
    ensures d.all == [list] && d.n == 1 && list.files == [FREE]
    ensures Resolve(d.fs.tree, {}, ["a", "b"]) == Some((inner, []))
  {
    d, list := OneList();
    Names();
    var node;
    ghost var ns;
    node, ns := d.Reserve("/a/b");
    inner := node;
    assert Added(["a", "b"], ["a", "b"], ns);
  }

  lemma OnlyHeld(d: Descriptors, list: FileList, inner: Inode)
    requires d.Valid() && d.all == [list] && |list.files| == 1 && list.files[0].inode == inner
    ensures d.fs.Held() <= {inner}
  {
    forall m | m in d.fs.Held() ensures m == inner {
      var i, j := Holder(TableOf(d.all), m);
    }
  }

  lemma NotRefused(d: Descriptors, dev: Device, s: seq<Slot>, mountpt: bool)
    requires dev.driver && dev.ops && dev.opens >= 0 && s == [FREE]
    ensures d.Refusal(mountpt, dev, 0, s) == None
  {
    assert s[0].inode == null;
    assert 0 & O_RDOK == 0 && 0 & O_WROK == 0;
  }

  method OpenTarget(d: Descriptors, list: FileList, dev: Device, ghost inner: Inode)
    requires d.Valid() && d.all == [list] && d.n == 1 && list.files == [FREE] && d.Target("/a/b") == Some(inner)
    requires dev.driver && dev.ops && dev.opens >= 0
    modifies list`files, d.fs`graves, d.fs`live, d.fs.live`i_crefs
    ensures d.Valid() && d.fs.live == old(d.fs.live) && d.fs.Held() == {inner}
  {
    NotRefused(d, dev, list.files, inner.mountpt);
    var r := d.Open(list, "/a/b", 0, dev);
    assert list.files[0].inode == inner;
    d.SlotHeld(list, 0);
    OnlyHeld(d, list, inner);
  }

  // The same, and opened.
  method OpenBelow(dev: Device) returns (d: Descriptors, ghost inner: Inode)
    requires dev.driver && dev.ops && dev.opens >= 0
    ensures fresh(d) && fresh(d.fs) && fresh(d.fs.live) && d.Valid() && d.fs.Mounts() == {}
    ensures Resolve(d.fs.tree, {}, ["a", "b"]) == Some((inner, [])) && d.fs.Held() == {inner}
  {
    var list;
    d, list, inner := ReserveBelow();
    Names();
    assert d.Target("/a/b") == Some(inner);
    OpenTarget(d, list, dev, inner);
  }

  // It can happen: the removal of "/a" then frees the open inode below it.
  method RemoveAboveOpen(dev: Device) returns (d: Descriptors, ret: Status)
    requires dev.driver && dev.ops && dev.opens >= 0
    ensures fresh(d) && ret == OK && !d.Valid()
  {
    ghost var inner;
    d, inner := OpenBelow(dev);
    Names();
    Beneath(d.fs.tree, {}, "a", "b");
    assert inner in Nodes(d.Orphans("/a"));
    ResolveInside(d.fs.tree, {}, ["a"]);
    DropNodes(d.fs.tree, d.Target("/a").value);
    ret := d.Remove("/a");
  }
}
