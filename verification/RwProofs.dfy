/** The read-ahead/write buffer against a plain array of blocks. */
module RwProofs {
  import opened RwModel

  lemma PatchAt<B>(s: seq<B>, at: nat, data: seq<B>, i: nat)
    requires at + |data| <= |s| && i < |s|
    ensures Patch(s, at, data)[i] == if at <= i < at + |data| then data[i - at] else s[i]
  {
  }

  // Appending to the pending run is writing just behind it.
  lemma PatchAppend<B>(s: seq<B>, at: nat, p: seq<B>, q: seq<B>)
    requires at + |p| + |q| <= |s|
    ensures Patch(Patch(s, at, p), at + |p|, q) == Patch(s, at, p + q)
  {
    var u, v := Patch(Patch(s, at, p), at + |p|, q), Patch(s, at, p + q);
    forall i | 0 <= i < |s| ensures u[i] == v[i] {
      PatchAt(Patch(s, at, p), at + |p|, q, i);
      PatchAt(s, at, p, i);
      PatchAt(s, at, p + q, i);
    }
  }

  lemma PatchNothing<B>(s: seq<B>, at: nat)
    requires at <= |s|
    ensures Patch(s, at, []) == s
  {
  }

  lemma BufferedRefines<B>(c: Config, s: State<B>, at: nat, data: seq<B>)
    requires Inv(c, s) && InRange(s, at, |data|) && c.writeBuffer && !MustFlush(c, s, at, |data|)
    ensures Inv(c, Buffered(s, at, data))
    ensures Disk(c, Buffered(s, at, data)) == Patch(Disk(c, s), at, data)
  {
    if s.pend == [] {
      PatchNothing(s.dev, at);
      assert s.pend + data == data;
    } else {
      PatchAppend(s.dev, s.wrblockstart, s.pend, data);
    }
  }

  // Every write acts on the disk the user sees as a write to a plain array.
  lemma WriteRefines<B>(c: Config, s: State<B>, at: nat, data: seq<B>)
    requires Inv(c, s) && InRange(s, at, |data|)
    ensures Inv(c, Write(c, s, at, data))
    ensures Disk(c, Write(c, s, at, data)) == Patch(Disk(c, s), at, data)
  {
    var s1 := Invalidate(c, s, at, |data|);
    FlushInv(c, s1);
    if c.writeBuffer && |data| <= c.wrmax {
      var s2 := if MustFlush(c, s1, at, |data|) then Flush(c, s1) else s1;
      BufferedRefines(c, s2, at, data);
    }
  }

  // The window agrees with the disk.
  ghost predicate Coherent<B>(c: Config, s: State<B>)
    requires Inv(c, s)
  {
    forall i :: 0 <= i < |s.win| ==> s.win[i] == Disk(c, s)[s.rhblockstart + i]
  }

  lemma KeepsWindow<B>(c: Config, s: State<B>, at: nat, data: seq<B>)
    requires Inv(c, s) && InRange(s, at, |data|) && Write(c, s, at, data).win != []
    ensures Write(c, s, at, data).win == s.win && Write(c, s, at, data).rhblockstart == s.rhblockstart
    ensures !Overlap(s.rhblockstart, |s.win|, at, |data|)
  {
  }

  // A write never leaves a stale block in the window.
  lemma WriteCoherent<B>(c: Config, s: State<B>, at: nat, data: seq<B>)
    requires Inv(c, s) && InRange(s, at, |data|) && Coherent(c, s)
    ensures Inv(c, Write(c, s, at, data)) && Coherent(c, Write(c, s, at, data))
  {
    WriteRefines(c, s, at, data);
    var t := Write(c, s, at, data);
    if t.win != [] {
      KeepsWindow(c, s, at, data);
      forall i | 0 <= i < |t.win| ensures t.win[i] == Disk(c, t)[t.rhblockstart + i] {
        PatchAt(Disk(c, s), at, data, s.rhblockstart + i);
      }
    }
  }

  lemma FlushCoherent<B>(c: Config, s: State<B>)
    requires Inv(c, s)
    ensures Inv(c, Flush(c, s)) && (Coherent(c, Flush(c, s)) <==> Coherent(c, s))
  {
    FlushInv(c, s);
  }

  ghost predicate Pending<B>(s: State<B>, i: int) {
    s.wrblockstart <= i < s.wrblockstart + |s.pend|
  }

  // No pending block lies in the range [at, at + n).
  ghost predicate NonePending<B>(s: State<B>, at: int, n: nat) {
    forall i :: at <= i < at + n ==> !Pending(s, i)
  }

  lemma FlushForClears<B>(c: Config, s: State<B>, at: nat, n: nat)
    requires Inv(c, s)
    ensures NonePending(FlushFor(c, s, at, n), at, n)
    ensures Inv(c, FlushFor(c, s, at, n)) && Disk(c, FlushFor(c, s, at, n)) == Disk(c, s)
    ensures FlushFor(c, s, at, n).win == s.win && FlushFor(c, s, at, n).rhblockstart == s.rhblockstart
  {
    FlushInv(c, s);
  }

  lemma DeviceIsDisk<B>(c: Config, s: State<B>, i: nat)
    requires Inv(c, s) && i < |s.dev| && !Pending(s, i)
    ensures Disk(c, s)[i] == s.dev[i]
  {
    if s.pend != [] { PatchAt(s.dev, s.wrblockstart, s.pend, i); }
  }

  // Pending blocks inside the window that a reload at position at would load.
  ghost predicate ReloadAgrees<B>(c: Config, s: State<B>, at: nat)
    requires Inv(c, s)
  {
    forall i :: at <= i < at + c.rhmax && i < |s.dev| && Pending(s, i) ==>
      s.dev[i] == s.pend[i - s.wrblockstart]
  }

  // A reload reads the device, so it restores coherence exactly when no pending block in its
  // whole window differs from the device.
  lemma ReloadExact<B>(c: Config, s: State<B>, at: nat)
    requires Inv(c, s) && at < |s.dev| && c.readAhead
    ensures Inv(c, Reload(c, s, at)) && Disk(c, Reload(c, s, at)) == Disk(c, s)
    ensures Coherent(c, Reload(c, s, at)) <==> ReloadAgrees(c, s, at)
  {
    var t := Reload(c, s, at);
    forall i | 0 <= i < |t.win|
      ensures Pending(s, at + i) ==>
        Disk(c, s)[at + i] == s.pend[at + i - s.wrblockstart]
      ensures !Pending(s, at + i) ==> Disk(c, s)[at + i] == t.win[i]
    {
      if s.pend != [] { PatchAt(s.dev, s.wrblockstart, s.pend, at + i); }
    }
    if Coherent(c, t) {
      forall i | at <= i < at + c.rhmax && i < |s.dev| && Pending(s, i)
        ensures s.dev[i] == s.pend[i - s.wrblockstart]
      {
        assert t.win[i - at] == s.dev[i];
      }
    }
    if ReloadAgrees(c, s, at) {
      forall i | 0 <= i < |t.win| ensures t.win[i] == Disk(c, t)[at + i] {
        assert t.win[i] == s.dev[at + i];
      }
    }
  }

  // The window agrees with the disk wherever it meets [at, at + n).
  ghost predicate CoherentOn<B>(c: Config, s: State<B>, at: int, n: nat)
    requires Inv(c, s)
  {
    forall i :: 0 <= i < |s.win| && at <= s.rhblockstart + i < at + n ==> s.win[i] == Disk(c, s)[s.rhblockstart + i]
  }

  // Over the request, both the device and the window show the blocks of d.
  ghost predicate Shows<B>(s: State<B>, d: seq<B>, at: int, n: nat)
    requires |d| == |s.dev|
  {
    && (forall i :: at <= i < at + n && 0 <= i < |d| ==> s.dev[i] == d[i])
    && (forall i :: at <= i < at + n && 0 <= i < |d| && InWindow(s, i) ==> s.win[i - s.rhblockstart] == d[i])
  }

  lemma Join<B>(d: seq<B>, at: nat, k: nat, n: nat)
    requires k <= n && at + n <= |d|
    ensures d[at..at + k] + d[at + k..at + n] == d[at..at + n]
  {
  }

  lemma ServedIsDisk<B>(s: State<B>, d: seq<B>, at: nat, n: nat, k: nat)
    requires InRange(s, at, n) && |d| == |s.dev| && Shows(s, d, at, n) && k == Served(s, at, n)
    ensures FromWindow(s, at, k) == d[at..at + k]
  {
    var u, v := FromWindow(s, at, k), d[at..at + k];
    forall i | 0 <= i < k ensures u[i] == v[i] {
      assert InWindow(s, at + i);
    }
  }

  lemma Unrolled<B>(c: Config, s: State<B>, at: nat, n: nat, k: nat)
    requires InRange(s, at, n) && c.rhmax > 0 && k == Served(s, at, n) < n
    ensures ReadLoop(c, s, at, n).1 == FromWindow(s, at, k) + ReadLoop(c, Reload(c, s, at + k), at + k, n - k).1
  {
  }

  // The window is what the device holds there.
  ghost predicate Loaded<B>(s: State<B>) {
    forall i {:trigger InWindow(s, i)} :: InWindow(s, i) ==> 0 <= i < |s.dev| && s.win[i - s.rhblockstart] == s.dev[i]
  }

  lemma ServedIsDevice<B>(s: State<B>, at: nat, n: nat, k: nat)
    requires InRange(s, at, n) && Loaded(s) && k == Served(s, at, n)
    ensures FromWindow(s, at, k) == s.dev[at..at + k]
  {
    var u, v := FromWindow(s, at, k), s.dev[at..at + k];
    forall i | 0 <= i < k ensures u[i] == v[i] {
      assert InWindow(s, at + i);
    }
  }

  // A reload at the next block wanted loads it.
  lemma ReloadLoads<B>(c: Config, s: State<B>, at: nat)
    requires at < |s.dev| && c.rhmax > 0
    ensures var t := Reload(c, s, at); t.dev == s.dev && Loaded(t) && InWindow(t, at)
  {
  }

  // Once loaded, the loop returns the blocks of the device, however many reloads it takes.
  lemma {:induction false} LoadedData<B>(c: Config, s: State<B>, at: nat, n: nat)
    requires InRange(s, at, n) && c.rhmax > 0 && Loaded(s)
    ensures ReadLoop(c, s, at, n).1 == s.dev[at..at + n]
    decreases n, if InWindow(s, at) then 0 else 1, 1
  {
    var k := Served(s, at, n);
    ServedIsDevice(s, at, n, k);
    if k < n {
      Unrolled(c, s, at, n, k);
      LoadedRest(c, s, at, n, k);
      Join(s.dev, at, k, n);
    }
  }

  lemma {:induction false} LoadedRest<B>(c: Config, s: State<B>, at: nat, n: nat, k: nat)
    requires InRange(s, at, n) && c.rhmax > 0 && k == Served(s, at, n) < n
    ensures ReadLoop(c, Reload(c, s, at + k), at + k, n - k).1 == s.dev[at + k..at + n]
    decreases n, if InWindow(s, at) then 0 else 1, 0
  {
    ReloadLoads(c, s, at + k);
    var t := Reload(c, s, at + k);
    LoadedData(c, t, at + k, n - k);
    assert t.dev[at + k..at + k + (n - k)] == s.dev[at + k..at + n];
  }

  lemma DeviceRest<B>(s: State<B>, d: seq<B>, at: nat, n: nat, k: nat)
    requires InRange(s, at, n) && |d| == |s.dev| && Shows(s, d, at, n) && k <= n
    ensures s.dev[at + k..at + n] == d[at + k..at + n]
  {
  }

  // The read loop returns the blocks of d.
  lemma ReadLoopData<B>(c: Config, s: State<B>, d: seq<B>, at: nat, n: nat)
    requires InRange(s, at, n) && c.rhmax > 0 && |d| == |s.dev| && Shows(s, d, at, n)
    ensures ReadLoop(c, s, at, n).1 == d[at..at + n]
  {
    var k := Served(s, at, n);
    ServedIsDisk(s, d, at, n, k);
    if k < n {
      Unrolled(c, s, at, n, k);
      LoadedRest(c, s, at, n, k);
      DeviceRest(s, d, at, n, k);
      Join(d, at, k, n);
    }
  }

  lemma DiskShows<B>(c: Config, s: State<B>, at: nat, n: nat)
    requires Inv(c, s) && InRange(s, at, n) && NonePending(s, at, n) && CoherentOn(c, s, at, n)
    ensures Shows(s, Disk(c, s), at, n)
  {
    forall i | at <= i < at + n ensures s.dev[i] == Disk(c, s)[i]
      ensures InWindow(s, i) ==> s.win[i - s.rhblockstart] == Disk(c, s)[i]
    {
      assert !Pending(s, i);
      DeviceIsDisk(c, s, i);
      if InWindow(s, i) { assert s.win[i - s.rhblockstart] == Disk(c, s)[s.rhblockstart + (i - s.rhblockstart)]; }
    }
  }

  lemma {:induction false} ReadLoopKeeps<B>(c: Config, s: State<B>, at: nat, n: nat)
    requires Inv(c, s) && InRange(s, at, n) && c.readAhead
    ensures Inv(c, ReadLoop(c, s, at, n).0) && Disk(c, ReadLoop(c, s, at, n).0) == Disk(c, s)
    decreases n, if InWindow(s, at) then 0 else 1
  {
    if Served(s, at, n) < n {
      ReadLoopKeeps(c, Reload(c, s, at + Served(s, at, n)), at + Served(s, at, n), n - Served(s, at, n));
    }
  }

  lemma WithoutReadAhead<B>(c: Config, s: State<B>, at: nat, n: nat)
    requires Inv(c, s) && InRange(s, at, n) && NonePending(s, at, n)
    ensures s.dev[at..at + n] == Disk(c, s)[at..at + n]
  {
    var u, v := s.dev[at..at + n], Disk(c, s)[at..at + n];
    forall i | 0 <= i < n ensures u[i] == v[i] {
      assert !Pending(s, at + i);
      DeviceIsDisk(c, s, at + i);
    }
  }

  // A read returns what the plain array holds, as long as the window is not stale where it
  // meets the request; and reading never changes the disk.
  lemma ReadRefines<B>(c: Config, s: State<B>, at: nat, n: nat)
    requires Inv(c, s) && InRange(s, at, n)
    ensures Inv(c, Read(c, s, at, n).0) && Disk(c, Read(c, s, at, n).0) == Disk(c, s)
    ensures CoherentOn(c, s, at, n) ==> Read(c, s, at, n).1 == Disk(c, s)[at..at + n]
  {
    FlushForClears(c, s, at, n);
    var s1 := FlushFor(c, s, at, n);
    if c.readAhead {
      ReadLoopKeeps(c, s1, at, n);
      if CoherentOn(c, s, at, n) {
        DiskShows(c, s1, at, n);
        ReadLoopData(c, s1, Disk(c, s), at, n);
      }
    } else {
      WithoutReadAhead(c, s1, at, n);
    }
  }

  // The largest multiple of d not above m.
  function Windows(m: nat, d: nat): nat
    requires d > 0
  {
    if m < d then 0 else d + Windows(m - d, d)
  }

  // Where the last reload of a read starts: the window's share first, then whole windows.
  function LastReload<B>(c: Config, s: State<B>, at: nat, n: nat): nat
    requires Served(s, at, n) < n && c.rhmax > 0
  {
    var p, m := at + Served(s, at, n), n - Served(s, at, n);
    p + Windows(m - 1, c.rhmax)
  }

  lemma LastReloadStep<B>(c: Config, s: State<B>, at: nat, n: nat, k: nat)
    requires InRange(s, at, n) && c.rhmax > 0 && k == Served(s, at, n) < n
    ensures var s1 := Reload(c, s, at + k);
      LastReload(c, s, at, n) ==
        if Served(s1, at + k, n - k) == n - k then at + k else LastReload(c, s1, at + k, n - k)
  {
    var s1 := Reload(c, s, at + k);
    assert Served(s1, at + k, n - k) == if n - k <= c.rhmax then n - k else c.rhmax;
  }

  lemma {:induction false} ReadLoopEnds<B>(c: Config, s: State<B>, at: nat, n: nat)
    requires InRange(s, at, n) && c.rhmax > 0
    ensures Served(s, at, n) == n ==> ReadLoop(c, s, at, n).0 == s
    ensures Served(s, at, n) < n ==>
      LastReload(c, s, at, n) < |s.dev| && ReadLoop(c, s, at, n).0 == Reload(c, s, LastReload(c, s, at, n))
    decreases n, if InWindow(s, at) then 0 else 1
  {
    if Served(s, at, n) < n {
      var k := Served(s, at, n);
      LastReloadStep(c, s, at, n, k);
      ReadLoopEnds(c, Reload(c, s, at + k), at + k, n - k);
    }
  }

  // Starting from a coherent window, a read leaves one exactly when it was served from the
  // window alone or the device agrees with every pending block in the last window loaded.
  lemma ReadCoherent<B>(c: Config, s: State<B>, at: nat, n: nat)
    requires Inv(c, s) && InRange(s, at, n) && c.readAhead && Coherent(c, s)
    ensures Inv(c, Read(c, s, at, n).0)
    ensures Inv(c, FlushFor(c, s, at, n))
    ensures Coherent(c, Read(c, s, at, n).0) <==>
      (Served(s, at, n) == n || ReloadAgrees(c, FlushFor(c, s, at, n), LastReload(c, s, at, n)))
  {
    FlushForClears(c, s, at, n);
    var s1 := FlushFor(c, s, at, n);
    FlushCoherent(c, s);
    ReadLoopKeeps(c, s1, at, n);
    ReadLoopEnds(c, s1, at, n);
    if Served(s1, at, n) < n { ReloadExact(c, s1, LastReload(c, s1, at, n)); }
  }

  // The write continues the pending run, or starts one, and there is room for it.
  predicate Continues<B>(c: Config, s: State<B>, at: nat, n: nat) {
    (s.pend == [] || at == s.wrblockstart + |s.pend|) && |s.pend| + n <= c.wrmax
  }

  // Which blocks a write sends to the device.  While the run goes on and fits, none: the blocks
  // are gathered.  Otherwise the old run, and only the new blocks are left pending; a write
  // larger than the buffer goes to the device itself, after the old run.
  lemma WriteGathers<B>(c: Config, s: State<B>, at: nat, data: seq<B>)
    requires Inv(c, s) && InRange(s, at, |data|)
    ensures var t := Write(c, s, at, data);
      if !c.writeBuffer || |data| > c.wrmax then t.pend == [] && t.dev == Patch(Disk(c, s), at, data)
      else if Continues(c, s, at, |data|) then
        && t.dev == s.dev && t.pend == s.pend + data
        && t.wrblockstart == if s.pend == [] then at else s.wrblockstart
      else t.dev == Disk(c, s) && t.pend == data && t.wrblockstart == at
  {
    assert [] + data == data;
  }

  // The window is given up exactly when the write shares a block with it or touches it.
  lemma WriteDropsWindow<B>(c: Config, s: State<B>, at: nat, data: seq<B>)
    requires Inv(c, s) && InRange(s, at, |data|) && c.readAhead
    ensures var t := Write(c, s, at, data);
      if exists i :: Reaches(s.rhblockstart, |s.win|, i) && Reaches(at, |data|, i) then t.win == []
      else t.win == s.win && t.rhblockstart == s.rhblockstart
  {
    OverlapCovers(s.rhblockstart, |s.win|, at, |data|);
  }

  // A flush sends all there is, and a timeout does the same.
  lemma FlushEmpties<B>(c: Config, s: State<B>)
    requires Inv(c, s)
    ensures Flush(c, s).dev == Disk(c, s) && Flush(c, s).pend == []
    ensures Flush(c, s).win == s.win && Flush(c, s).rhblockstart == s.rhblockstart
  {
  }

  lemma {:induction false} ReadLoopDevice<B>(c: Config, s: State<B>, at: nat, n: nat)
    requires InRange(s, at, n) && c.rhmax > 0
    ensures var t := ReadLoop(c, s, at, n).0;
      t.dev == s.dev && t.pend == s.pend && t.wrblockstart == s.wrblockstart
    decreases n, if InWindow(s, at) then 0 else 1
  {
    var k := Served(s, at, n);
    if k < n { ReadLoopDevice(c, Reload(c, s, at + k), at + k, n - k); }
  }

  // A read sends the pending run to the device exactly when it asks for a block of it or one
  // next to it.
  lemma ReadFlushes<B>(c: Config, s: State<B>, at: nat, n: nat)
    requires Inv(c, s) && InRange(s, at, n)
    ensures var t := Read(c, s, at, n).0;
      if s.pend != [] && exists i :: Reaches(s.wrblockstart, |s.pend|, i) && Reaches(at, n, i)
      then t.dev == Disk(c, s) && t.pend == []
      else t.dev == s.dev && t.pend == s.pend
  {
    OverlapCovers(s.wrblockstart, |s.pend|, at, n);
    FlushInv(c, s);
    if c.readAhead { ReadLoopDevice(c, FlushFor(c, s, at, n), at, n); }
  }

  // The window serves all the blocks it has, one after the other.
  lemma ServedExactly<B>(s: State<B>, at: int, n: nat)
    ensures forall i :: at <= i < at + Served(s, at, n) ==> InWindow(s, i)
    ensures Served(s, at, n) < n ==> !InWindow(s, at + Served(s, at, n))
  {
  }

  // So a read of blocks that are all in the window loads nothing.
  lemma WindowServes<B>(c: Config, s: State<B>, at: nat, n: nat)
    requires Inv(c, s) && InRange(s, at, n) && c.readAhead && forall i :: at <= i < at + n ==> InWindow(s, i)
    ensures var t := Read(c, s, at, n).0;
      t.win == s.win && (n > 0 ==> t.rhblockstart == s.rhblockstart)
  {
    ServedExactly(s, at, n);
    FlushInv(c, s);
    ReadLoopEnds(c, FlushFor(c, s, at, n), at, n);
  }
}
