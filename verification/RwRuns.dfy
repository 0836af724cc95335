/** Whole runs of reads, writes and timeouts against a plain array of blocks. */
module RwRuns {
  import opened RwModel
  import opened RwProofs

  datatype Op<B> = WriteOp(at: nat, data: seq<B>) | ReadOp(at: nat, n: nat) | TimeoutOp

  predicate Fits<B>(op: Op<B>, size: nat) {
    match op
    case WriteOp(at, data) => at + |data| <= size
    case ReadOp(at, n) => at + n <= size
    case TimeoutOp => true
  }

  predicate AllFit<B>(ops: seq<Op<B>>, size: nat) {
    forall i :: 0 <= i < |ops| ==> Fits(ops[i], size)
  }

  // The buffered device and the plain array, one operation each; only a read replies.
  ghost function Apply<B>(c: Config, s: State<B>, op: Op<B>): (State<B>, seq<B>)
    requires Inv(c, s) && Fits(op, |s.dev|)
  {
    match op
    case WriteOp(at, data) => (Write(c, s, at, data), [])
    case ReadOp(at, n) => Read(c, s, at, n)
    case TimeoutOp => (Flush(c, s), [])
  }

  function Plain<B>(d: seq<B>, op: Op<B>): (seq<B>, seq<B>)
    requires Fits(op, |d|)
  {
    match op
    case WriteOp(at, data) => (Patch(d, at, data), [])
    case ReadOp(at, n) => (d, d[at..at + n])
    case TimeoutOp => (d, [])
  }

  lemma FlushInvFor<B>(c: Config, s: State<B>, at: nat, n: nat)
    requires Inv(c, s)
    ensures Inv(c, FlushFor(c, s, at, n))
  {
    FlushInv(c, s);
  }

  // The one thing that can leave stale blocks behind: a read that reloads the window over
  // pending blocks the device does not have yet.
  ghost predicate Safe<B>(c: Config, s: State<B>, op: Op<B>)
    requires Inv(c, s) && Fits(op, |s.dev|)
  {
    op.ReadOp? && c.readAhead && Served(s, op.at, op.n) < op.n ==>
      (FlushInvFor(c, s, op.at, op.n);
       ReloadAgrees(c, FlushFor(c, s, op.at, op.n), LastReload(c, s, op.at, op.n)))
  }

  lemma ApplyKeeps<B>(c: Config, s: State<B>, op: Op<B>)
    requires Inv(c, s) && Fits(op, |s.dev|)
    ensures Inv(c, Apply(c, s, op).0) && Disk(c, Apply(c, s, op).0) == Plain(Disk(c, s), op).0
  {
    match op
    case WriteOp(at, data) => WriteRefines(c, s, at, data);
    case ReadOp(at, n) => ReadRefines(c, s, at, n);
    case TimeoutOp => FlushInv(c, s);
  }

  lemma ApplyReplies<B>(c: Config, s: State<B>, op: Op<B>)
    requires Inv(c, s) && Fits(op, |s.dev|) && Coherent(c, s)
    ensures Apply(c, s, op).1 == Plain(Disk(c, s), op).1
  {
    if op.ReadOp? { ReadRefines(c, s, op.at, op.n); }
  }

  lemma ApplyCoherent<B>(c: Config, s: State<B>, op: Op<B>)
    requires Inv(c, s) && Fits(op, |s.dev|) && Coherent(c, s)
    ensures Inv(c, Apply(c, s, op).0)
    ensures Coherent(c, Apply(c, s, op).0) <==> Safe(c, s, op)
  {
    ApplyKeeps(c, s, op);
    match op
    case WriteOp(at, data) => WriteCoherent(c, s, at, data);
    case ReadOp(at, n) => if c.readAhead { ReadCoherent(c, s, at, n); }
    case TimeoutOp => FlushCoherent(c, s);
  }

  ghost function Run<B>(c: Config, s: State<B>, ops: seq<Op<B>>): (r: (State<B>, seq<seq<B>>))
    requires Inv(c, s) && AllFit(ops, |s.dev|)
    decreases |ops|
  {
    if ops == [] then (s, [])
    else
      ApplyKeeps(c, s, ops[0]);
      var a := Apply(c, s, ops[0]);
      var r := Run(c, a.0, ops[1..]);
      (r.0, [a.1] + r.1)
  }

  function PlainRun<B>(d: seq<B>, ops: seq<Op<B>>): (r: (seq<B>, seq<seq<B>>))
    requires AllFit(ops, |d|)
    decreases |ops|
  {
    if ops == [] then (d, [])
    else
      var a := Plain(d, ops[0]);
      var r := PlainRun(a.0, ops[1..]);
      (r.0, [a.1] + r.1)
  }

  ghost predicate SafeRun<B>(c: Config, s: State<B>, ops: seq<Op<B>>)
    requires Inv(c, s) && AllFit(ops, |s.dev|)
    decreases |ops|
  {
    ops != [] ==>
      (ApplyKeeps(c, s, ops[0]);
       Safe(c, s, ops[0]) && SafeRun(c, Apply(c, s, ops[0]).0, ops[1..]))
  }

  // Over every run the invariant is kept and the disk is what the plain array would be.
  lemma {:induction false} RunKeepsDisk<B>(c: Config, s: State<B>, ops: seq<Op<B>>)
    requires Inv(c, s) && AllFit(ops, |s.dev|)
    ensures Inv(c, Run(c, s, ops).0) && Disk(c, Run(c, s, ops).0) == PlainRun(Disk(c, s), ops).0
    decreases |ops|
  {
    if ops != [] {
      ApplyKeeps(c, s, ops[0]);
      RunKeepsDisk(c, Apply(c, s, ops[0]).0, ops[1..]);
    }
  }

  // Over every safe run each read replies what the plain array would.
  lemma {:induction false} RunReplies<B>(c: Config, s: State<B>, ops: seq<Op<B>>)
    requires Inv(c, s) && AllFit(ops, |s.dev|) && Coherent(c, s) && SafeRun(c, s, ops)
    ensures Run(c, s, ops).1 == PlainRun(Disk(c, s), ops).1
    decreases |ops|
  {
    if ops != [] {
      ApplyKeeps(c, s, ops[0]);
      ApplyReplies(c, s, ops[0]);
      ApplyCoherent(c, s, ops[0]);
      RunReplies(c, Apply(c, s, ops[0]).0, ops[1..]);
    }
  }

  // With only the write buffer configured every run is safe.
  lemma {:induction false} WriteBufferAlwaysSafe<B>(c: Config, s: State<B>, ops: seq<Op<B>>)
    requires Inv(c, s) && AllFit(ops, |s.dev|) && !c.readAhead
    ensures Coherent(c, s) && SafeRun(c, s, ops)
    decreases |ops|
  {
    if ops != [] {
      ApplyKeeps(c, s, ops[0]);
      WriteBufferAlwaysSafe(c, Apply(c, s, ops[0]).0, ops[1..]);
    }
  }

  lemma ReadOne<B>(c: Config, s: State<B>, i: nat)
    requires Inv(c, s) && i < |s.win|
    ensures InRange(s, s.rhblockstart + i, 1) && Read(c, s, s.rhblockstart + i, 1).1 == [s.win[i]]
  {
    FlushForClears(c, s, s.rhblockstart + i, 1);
  }

  // A stale block is visible: reads are right for every request exactly in coherent states.
  // So a read that is not safe makes some later read wrong.
  lemma CoherentIffReadsRight<B>(c: Config, s: State<B>)
    requires Inv(c, s)
    ensures Coherent(c, s) <==>
      forall at: nat, n: nat :: InRange(s, at, n) ==> Read(c, s, at, n).1 == Disk(c, s)[at..at + n]
  {
    if Coherent(c, s) {
      forall at: nat, n: nat | InRange(s, at, n) ensures Read(c, s, at, n).1 == Disk(c, s)[at..at + n] {
        ReadRefines(c, s, at, n);
      }
    }
    if forall at: nat, n: nat :: InRange(s, at, n) ==> Read(c, s, at, n).1 == Disk(c, s)[at..at + n] {
      forall i | 0 <= i < |s.win| ensures s.win[i] == Disk(c, s)[s.rhblockstart + i] {
        ReadOne(c, s, i);
      }
    }
  }

  // Writes one behind the other, from at on.
  ghost predicate Consecutive<B>(ops: seq<Op<B>>, at: nat)
    decreases |ops|
  {
    ops != [] ==> ops[0].WriteOp? && ops[0].at == at && Consecutive(ops[1..], at + |ops[0].data|)
  }

  function Blocks<B>(ops: seq<Op<B>>): seq<B>
    decreases |ops|
  {
    if ops == [] then [] else (if ops[0].WriteOp? then ops[0].data else []) + Blocks(ops[1..])
  }

  // As long as they fit the buffer together, such writes change no block of the device: they
  // are all pending at the end.
  lemma {:induction false} RunGathers<B>(c: Config, s: State<B>, ops: seq<Op<B>>, at: nat)
    requires Inv(c, s) && AllFit(ops, |s.dev|) && c.writeBuffer && Consecutive(ops, at)
    requires s.pend == [] || at == s.wrblockstart + |s.pend|
    requires |s.pend| + |Blocks(ops)| <= c.wrmax
    ensures Run(c, s, ops).0.dev == s.dev && Run(c, s, ops).0.pend == s.pend + Blocks(ops)
    decreases |ops|
  {
    if ops != [] {
      ApplyKeeps(c, s, ops[0]);
      WriteGathers(c, s, at, ops[0].data);
      RunGathers(c, Apply(c, s, ops[0]).0, ops[1..], at + |ops[0].data|);
      assert (s.pend + ops[0].data) + Blocks(ops[1..]) == s.pend + Blocks(ops);
    }
  }

  // A small device for the counterexample: three blocks, one pending block, a window of three.
  const TINY := Config(true, true, 1, 3)

  function Fresh(): State<int> { State([10, 11, 12], [], -1, -1, [], -1) }
  function Dirty(): State<int> { State([10, 11, 12], [99], 2, 3, [], -1) }
  function Loaded(): State<int> { State([10, 11, 12], [99], 2, 3, [10, 11, 12], 0) }
  function Stale(): State<int> { State([10, 11, 99], [], -1, -1, [10, 11, 12], 0) }

  lemma WriteThird()
    ensures Inv(TINY, Fresh()) && Apply(TINY, Fresh(), WriteOp(2, [99])) == (Dirty(), [])
  {
    assert Fresh().pend + [99] == [99];
  }

  lemma ReadFirst()
    ensures Inv(TINY, Dirty()) && Apply(TINY, Dirty(), ReadOp(0, 1)) == (Loaded(), [10])
  {
    assert FlushFor(TINY, Dirty(), 0, 1) == Dirty();
    assert Dirty().dev[0..3] == Dirty().dev;
    assert Reload(TINY, Dirty(), 0) == Loaded();
    assert FromWindow(Loaded(), 0, 1) == [10];
    assert ReadLoop(TINY, Loaded(), 0, 1) == (Loaded(), [10]);
    assert FromWindow(Dirty(), 0, 0) + [10] == [10];
  }

  lemma ReadThird()
    ensures Inv(TINY, Loaded()) && Apply(TINY, Loaded(), ReadOp(2, 1)) == (Stale(), [12])
    ensures Disk(TINY, Loaded()) == [10, 11, 99]
  {
    assert Patch([10, 11, 12], 2, [99]) == [10, 11, 99];
    assert FlushFor(TINY, Loaded(), 2, 1) == Stale();
    assert FromWindow(Stale(), 2, 1) == [12];
  }

  // One such run: the third block is pending when the window is loaded over it, the flush
  // that a later read triggers does not refresh the window, and the old block comes back.
  lemma StaleReadExample()
    ensures Inv(TINY, Fresh()) && Coherent(TINY, Fresh())
    ensures Apply(TINY, Fresh(), WriteOp(2, [99])).0 == Dirty() && Inv(TINY, Dirty())
    ensures Apply(TINY, Dirty(), ReadOp(0, 1)).0 == Loaded() && Inv(TINY, Loaded())
    ensures Disk(TINY, Loaded())[2] == 99 && Apply(TINY, Loaded(), ReadOp(2, 1)).1 == [12]
    ensures !Safe(TINY, Dirty(), ReadOp(0, 1))
  {
    WriteThird();
    ReadFirst();
    ReadThird();
    ApplyCoherent(TINY, Fresh(), WriteOp(2, [99]));
    ApplyCoherent(TINY, Dirty(), ReadOp(0, 1));
    assert Loaded().win[2] == 12;
  }
}
