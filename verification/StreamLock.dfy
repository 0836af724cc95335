/**
 * The recursive stream lock of lib_filesem.c: any number of threads, interleaved at every
 * single read and write of the stream's fields.
 */
module StreamLock {

  // Where a thread stands in lib_take_semaphore or lib_give_semaphore, named after what it
  // is about to do; an increment or decrement is a read and a write.
  datatype Pc =
    | Away
    | TakeTest | TakeRead | TakeAdd(was: int) | TakeWait | TakeHolder | TakeCounts
    | GiveTest | GiveCompare | GiveRead | GiveSubtract(was: int) | GiveHolder | GiveCounts | GivePost

  // depth counts the takes that have returned and whose gives have not; that it does, and what
  // it has to do with the calls made, is CallsCounted.
  datatype Thread = Thread(pc: Pc, depth: nat)

  datatype State = State(fsHolder: int, fsCounts: int, sem: int, threads: map<int, Thread>)

  function Begin(pids: set<int>): State {
    State(-1, 0, 1, map p | p in pids :: Thread(Away, 0))
  }

  function At(s: State, p: int, pc: Pc): State
    requires p in s.threads
  {
    s.(threads := s.threads[p := s.threads[p].(pc := pc)])
  }

  function Return(s: State, p: int, depth: nat): State
    requires p in s.threads
  {
    s.(threads := s.threads[p := Thread(Away, depth)])
  }

  // One step of thread p; a thread that is away may start a take, or a give of what it has.
  ghost predicate Step(s: State, p: int, s': State) {
    p in s.threads &&
    var t := s.threads[p];
    match t.pc
    // lib_take_semaphore
    case Away => s' == At(s, p, TakeTest) || (t.depth > 0 && s' == At(s, p, GiveTest))
    case TakeTest => s' == At(s, p, if s.fsHolder == p then TakeRead else TakeWait)
    case TakeRead => s' == At(s, p, TakeAdd(s.fsCounts))
    case TakeAdd(was) => s' == Return(s.(fsCounts := was + 1), p, t.depth + 1)
    case TakeWait => s.sem > 0 && s' == At(s.(sem := s.sem - 1), p, TakeHolder)
    case TakeHolder => s' == At(s.(fsHolder := p), p, TakeCounts)
    case TakeCounts => s' == Return(s.(fsCounts := 1), p, t.depth + 1)
    // lib_give_semaphore
    case GiveTest => s.fsHolder == p && s' == At(s, p, GiveCompare)
    case GiveCompare => s' == At(s, p, if s.fsCounts > 1 then GiveRead else GiveHolder)
    case GiveRead => s' == At(s, p, GiveSubtract(s.fsCounts))
    case GiveSubtract(was) => t.depth > 0 && s' == Return(s.(fsCounts := was - 1), p, t.depth - 1)
    case GiveHolder => s' == At(s.(fsHolder := -1), p, GiveCounts)
    case GiveCounts => s' == At(s.(fsCounts := 0), p, GivePost)
    case GivePost => t.depth > 0 && s' == Return(s.(sem := s.sem + 1), p, t.depth - 1)
  }

  // Inside, or on the way in past the semaphore.
  predicate Owner(t: Thread) {
    t.depth > 0 || t.pc in {TakeHolder, TakeCounts}
  }

  predicate Owns(s: State, p: int) {
    p in s.threads && Owner(s.threads[p])
  }

  function Owners(s: State): set<int> {
    set p | p in s.threads && Owns(s, p)
  }

  // Has claimed the stream and not yet disclaimed it.
  predicate Claimed(t: Thread) {
    Owner(t) && t.pc !in {TakeHolder, GiveCounts, GivePost}
  }

  // What a thread's position says about the fields.
  ghost predicate Local(s: State, t: Thread) {
    match t.pc
    case Away => t.depth > 0 ==> s.fsCounts == t.depth
    case TakeTest => t.depth > 0 ==> s.fsCounts == t.depth
    case TakeRead => t.depth > 0 && s.fsCounts == t.depth
    case TakeAdd(was) => t.depth > 0 && was == s.fsCounts == t.depth
    case TakeWait => t.depth == 0
    case TakeHolder => t.depth == 0 && s.fsCounts == 0
    case TakeCounts => t.depth == 0 && s.fsCounts == 0
    case GiveTest => t.depth > 0 && s.fsCounts == t.depth
    case GiveCompare => t.depth > 0 && s.fsCounts == t.depth
    case GiveRead => t.depth > 1 && s.fsCounts == t.depth
    case GiveSubtract(was) => t.depth > 1 && was == s.fsCounts == t.depth
    case GiveHolder => t.depth == 1 && s.fsCounts == 1
    case GiveCounts => t.depth == 1 && s.fsCounts == 1
    case GivePost => t.depth == 1 && s.fsCounts == 0
  }

  ghost predicate Inv(s: State) {
    && (forall p :: p in s.threads ==> p >= 0 && Local(s, s.threads[p]))
    && (forall p :: p in s.threads ==> (s.fsHolder == p <==> Claimed(s.threads[p])))
    && (forall p, q :: Owns(s, p) && Owns(s, q) ==> p == q)
    && (s.sem == 0 || (s.sem == 1 && s.fsCounts == 0))
    && (s.sem == 0 <==> exists p :: Owns(s, p))
  }

  lemma BeginInv(pids: set<int>)
    requires forall p :: p in pids ==> p >= 0
    ensures Inv(Begin(pids))
  {
  }

  // The semaphore and the owner, if any, over one step.
  lemma StepOwner(s: State, p: int, s': State)
    requires Inv(s) && Step(s, p, s')
    ensures forall q :: q != p ==> (Owns(s', q) <==> Owns(s, q))
    ensures match s.threads[p].pc
      case TakeWait => s.sem == 1 && s'.sem == 0 && Owns(s', p)
      case GivePost => s.sem == 0 && s'.sem == 1 && !Owns(s', p) && Owns(s, p)
      case _ => s'.sem == s.sem && (Owns(s', p) <==> Owns(s, p))
  {
    if Owns(s, p) { assert s.sem == 0; }
  }

  // What one step means for a thread q, the one that makes it or another one.
  lemma StepLocal(s: State, p: int, s': State, q: int)
    requires Inv(s) && Step(s, p, s') && q in s.threads
    ensures q in s'.threads && Local(s', s'.threads[q]) && (s'.fsHolder == q <==> Claimed(s'.threads[q]))
  {
    assert Local(s, s.threads[q]) && Local(s, s.threads[p]);
    if q != p && Owns(s, q) { assert !Owns(s, p); }
  }

  lemma StepInv(s: State, p: int, s': State)
    requires Inv(s) && Step(s, p, s')
    ensures Inv(s')
  {
    StepOwner(s, p, s');
    forall q | q in s'.threads
      ensures q >= 0 && Local(s', s'.threads[q]) && (s'.fsHolder == q <==> Claimed(s'.threads[q]))
    {
      StepLocal(s, p, s', q);
    }
    if s.sem == 0 && s'.sem == 0 {
      var o :| Owns(s, o);
      assert Owns(s', o);
    }
  }

  // A run: each state follows from the one before by a step of some thread.
  ghost predicate IsRun(pids: set<int>, run: seq<State>, who: seq<int>) {
    && (forall p :: p in pids ==> p >= 0)
    && |run| == |who| + 1 && run[0] == Begin(pids)
    && forall i :: 0 <= i < |who| ==> Step(run[i], who[i], run[i + 1])
  }

  lemma {:induction false} RunInv(pids: set<int>, run: seq<State>, who: seq<int>, i: nat)
    requires IsRun(pids, run, who) && i < |run|
    ensures Inv(run[i])
  {
    if i == 0 {
      BeginInv(pids);
    } else {
      RunInv(pids, run, who, i - 1);
      StepInv(run[i - 1], who[i - 1], run[i]);
    }
  }

  lemma OwnersCount(s: State)
    requires Inv(s)
    ensures s.sem + |Owners(s)| == 1
  {
    if s.sem == 0 {
      var o :| Owns(s, o);
      assert Owners(s) == {o};
    } else {
      assert Owners(s) == {};
    }
  }

  predicate Taking(pc: Pc) {
    match pc
    case TakeTest | TakeRead | TakeAdd(_) | TakeWait | TakeHolder | TakeCounts => true
    case _ => false
  }

  predicate Giving(pc: Pc) {
    pc != Away && !Taking(pc)
  }

  function PcOf(s: State, p: int): Pc {
    if p in s.threads then s.threads[p].pc else Away
  }

  // The takes thread p has begun before state i of a run, less the gives it has begun: steps
  // that leave Away are calls.
  ghost function Outstanding(run: seq<State>, who: seq<int>, p: int, i: nat): int
    requires i < |run| == |who| + 1
  {
    if i == 0 then 0
    else
      var begins := who[i - 1] == p && PcOf(run[i - 1], p) == Away;
      var before := Outstanding(run, who, p, i - 1);
      if !begins then before else if Taking(PcOf(run[i], p)) then before + 1 else before - 1
  }

  // What a thread in this position has begun to take and not begun to give.
  function Claims(t: Thread): int {
    t.depth + (if Taking(t.pc) then 1 else 0) - if Giving(t.pc) then 1 else 0
  }

  // Only a call changes that.
  lemma StepClaims(s: State, p: int, s': State, q: int)
    requires Step(s, p, s') && q in s.threads
    ensures q in s'.threads
    ensures Claims(s'.threads[q]) == Claims(s.threads[q]) +
      if q != p || PcOf(s, q) != Away then 0 else if Taking(PcOf(s', q)) then 1 else -1
  {
  }

  // A thread between two calls has the depth of its takes less its gives.
  lemma {:induction false} CallsCounted(pids: set<int>, run: seq<State>, who: seq<int>, i: nat, p: int)
    requires IsRun(pids, run, who) && i < |run| && p in pids
    ensures p in run[i].threads && Outstanding(run, who, p, i) == Claims(run[i].threads[p])
  {
    if i > 0 {
      CallsCounted(pids, run, who, i - 1, p);
      StepClaims(run[i - 1], who[i - 1], run[i], p);
    }
  }

  lemma {:induction false} SameThreads(pids: set<int>, run: seq<State>, who: seq<int>, i: nat)
    requires IsRun(pids, run, who) && i < |run|
    ensures run[i].threads.Keys == pids
  {
    if i > 0 {
      SameThreads(pids, run, who, i - 1);
      assert Step(run[i - 1], who[i - 1], run[i]);
    }
  }

  // In every state of every run: the semaphore and the owners make one.  A thread between two
  // calls is inside exactly when it has begun more takes than gives; then its number is in
  // fs_holder, fs_counts is the difference, and no other thread is inside.  Reading one's own
  // number in fs_holder means being inside, whatever the others are doing.
  lemma RunSafe(pids: set<int>, run: seq<State>, who: seq<int>, i: nat)
    requires IsRun(pids, run, who) && i < |run|
    ensures var s := run[i];
      && s.threads.Keys == pids && s.sem + |Owners(s)| == 1
      && (forall p :: p in pids && s.threads[p].pc == Away ==> s.threads[p].depth == Outstanding(run, who, p, i))
      && (forall p :: p in pids && s.threads[p].pc == Away && Outstanding(run, who, p, i) > 0 ==>
        s.fsHolder == p && s.fsCounts == Outstanding(run, who, p, i))
      && (forall p, q :: p in pids && q in pids && s.threads[p].depth > 0 && s.threads[q].depth > 0 ==> p == q)
      && (forall p :: p in pids && s.threads[p].pc in {TakeTest, GiveTest} ==>
        (s.fsHolder == p <==> s.threads[p].depth > 0))
  {
    RunInv(pids, run, who, i);
    SameThreads(pids, run, who, i);
    var s := run[i];
    OwnersCount(s);
    forall p | p in pids && s.threads[p].pc == Away ensures s.threads[p].depth == Outstanding(run, who, p, i) {
      CallsCounted(pids, run, who, i, p);
    }
    forall p, q | p in s.threads && q in s.threads && s.threads[p].depth > 0 && s.threads[q].depth > 0 ensures p == q {
      assert Owns(s, p) && Owns(s, q);
    }
  }

  // A thread that has begun more takes than gives keeps every other one out: whoever is between
  // two calls has begun as many gives as takes.
  lemma OthersOut(pids: set<int>, run: seq<State>, who: seq<int>, i: nat, p: int, q: int)
    requires IsRun(pids, run, who) && i < |run| && p in pids && q in pids && p != q
    requires PcOf(run[i], p) == PcOf(run[i], q) == Away && Outstanding(run, who, p, i) > 0
    ensures Outstanding(run, who, q, i) == 0
  {
    RunSafe(pids, run, who, i);
  }

  // The assertion in lib_give_semaphore never fails, and a thread only ever waits for the
  // semaphore: in every other position it can go on.
  lemma NeverStuck(s: State, p: int) returns (s': State)
    requires Inv(s) && p in s.threads && (s.threads[p].pc == TakeWait ==> s.sem > 0)
    ensures Step(s, p, s')
  {
    var t := s.threads[p];
    assert Local(s, t);
    match t.pc
    case Away => s' := At(s, p, TakeTest);
    case TakeTest => s' := At(s, p, if s.fsHolder == p then TakeRead else TakeWait);
    case TakeRead => s' := At(s, p, TakeAdd(s.fsCounts));
    case TakeAdd(was) => s' := Return(s.(fsCounts := was + 1), p, t.depth + 1);
    case TakeWait => s' := At(s.(sem := s.sem - 1), p, TakeHolder);
    case TakeHolder => s' := At(s.(fsHolder := p), p, TakeCounts);
    case TakeCounts => s' := Return(s.(fsCounts := 1), p, t.depth + 1);
    case GiveTest => s' := At(s, p, GiveCompare);
    case GiveCompare => s' := At(s, p, if s.fsCounts > 1 then GiveRead else GiveHolder);
    case GiveRead => s' := At(s, p, GiveSubtract(s.fsCounts));
    case GiveSubtract(was) => s' := Return(s.(fsCounts := was - 1), p, t.depth - 1);
    case GiveHolder => s' := At(s.(fsHolder := -1), p, GiveCounts);
    case GiveCounts => s' := At(s.(fsCounts := 0), p, GivePost);
    case GivePost => s' := Return(s.(sem := s.sem + 1), p, t.depth - 1);
  }

  // When a thread waits for the semaphore in vain, another one is inside.
  lemma WaitsForOwner(s: State, p: int) returns (o: int)
    requires Inv(s) && p in s.threads && s.threads[p].pc == TakeWait && s.sem == 0
    ensures o != p && Owns(s, o)
  {
    o :| Owns(s, o);
    assert Local(s, s.threads[p]);
  }
}
