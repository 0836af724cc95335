/**
 * The CAN transmit FIFO: a writing task and the interrupt that reports a finished send.
 * Each method is what runs without interruption; any sequence of calls is an interleaving.
 */
module CanTransmit {

  // A message with its data bytes; the low bits of the header count them.
  datatype Msg = Msg(hdr: bv16, data: seq<bv8>)

  // CAN_MSGLEN
  function MsgLen(m: Msg): nat {
    2 + |m.data|
  }

  function Bytes(ms: seq<Msg>): nat {
    if ms == [] then 0 else Bytes(ms[..|ms| - 1]) + MsgLen(ms[|ms| - 1])
  }

  // The messages from head to tail of a ring.
  function Ring(b: seq<Msg>, head: nat, tail: nat): seq<Msg>
    requires head < |b| && tail < |b|
  {
    if head <= tail then b[head..tail] else b[head..] + b[..tail]
  }

  function Next(i: nat, size: nat): nat {
    if i + 1 >= size then 0 else i + 1
  }

  lemma RingPush(b: seq<Msg>, head: nat, tail: nat, m: Msg)
    requires head < |b| && tail < |b| && Next(tail, |b|) != head
    ensures Ring(b[tail := m], head, Next(tail, |b|)) == Ring(b, head, tail) + [m]
  {
  }

  lemma RingPop(b: seq<Msg>, head: nat, tail: nat)
    requires head < |b| && tail < |b| && head != tail
    ensures Ring(b, head, tail) == [b[head]] + Ring(b, Next(head, |b|), tail)
  {
  }

  lemma RingLength(b: seq<Msg>, head: nat, tail: nat)
    requires head < |b| && tail < |b|
    ensures |Ring(b, head, tail)| <= |b| - 1
    ensures Ring(b, head, tail) == [] <==> head == tail
    ensures |Ring(b, head, tail)| == |b| - 1 <==> Next(tail, |b|) == head
  {
  }

  // A task asleep inside can_write: the messages of its call, how many of them are in the
  // FIFO, and how many bytes that is.
  datatype Writer = Idle | Asleep(msgs: seq<Msg>, next: nat, nsent: int)

  datatype Return = Blocked | Sent(nbytes: nat) | Again

  function Least(a: int, b: int): int {
    if a <= b then a else b
  }

  datatype Room = Some | Later | Refused

  lemma BytesPositive(ms: seq<Msg>)
    ensures Bytes(ms) == 0 <==> ms == []
  {
  }

  class CanDevice {
    const buffer: array<Msg>
    var head: nat
    var tail: nat
    var sem: nat
    var txint: bool
    var writer: Writer
    ghost var written: seq<Msg>  // put into the FIFO, in order
    ghost var sent: seq<Msg>     // handed to the hardware, in order
    ghost var done: nat          // how many of those the hardware has finished

    ghost function Queue(): seq<Msg>
      reads this, buffer
      requires head < buffer.Length && tail < buffer.Length
    {
      Ring(buffer[..], head, tail)
    }

    // The FIFO holds what was written and is not finished, in order.
    ghost predicate Ordered()
      reads this, buffer
    {
      && buffer.Length >= 2 && head < buffer.Length && tail < buffer.Length
      && done <= |written| && written[done..] == Queue()
    }

    // Nothing is being sent.
    ghost predicate Quiet()
      reads this, buffer
    {
      Ordered() && sent == written[..done]
    }

    // Exactly one message is being sent and it is the head of the FIFO, unless the FIFO is
    // empty; the interrupt is enabled accordingly.
    ghost predicate Busy()
      reads this, buffer
    {
      && Ordered() && (txint <==> head != tail)
      && sent == if head != tail then written[..done] + [buffer[head]] else written[..done]
    }

    // Where a call stands: k of its messages are in the FIFO behind what was there before.
    ghost predicate Progress(w0: seq<Msg>, msgs: seq<Msg>, k: nat, nsent: int)
      reads this
    {
      k <= |msgs| && written == w0 + msgs[..k] && nsent == Bytes(msgs[..k])
    }

    ghost predicate Suspended(msgs: seq<Msg>, k: nat, nsent: int)
      reads this, buffer
    {
      && k < |msgs| && k <= |written| && Progress(written[..|written| - k], msgs, k, nsent)
      && (sem > 0 || Next(tail, buffer.Length) == head)
    }

    // What holds whenever interrupts are enabled: a sleeping task has a wakeup coming.
    ghost predicate Valid()
      reads this, buffer
    {
      Busy() && (writer.Asleep? ==> Suspended(writer.msgs, writer.next, writer.nsent))
    }

    // A FIFO with messages in it of which none is being sent: no interrupt will come.
    ghost predicate Stalled()
      reads this, buffer
    {
      && Quiet() && head != tail && !txint
      && (writer.Asleep? ==> Suspended(writer.msgs, writer.next, writer.nsent))
    }

    ghost predicate Kept(stalled: bool)
      reads this, buffer
    {
      if stalled then Stalled() else Valid()
    }

    // What had been written before the call of the sleeping task.
    ghost function Before(): seq<Msg>
      reads this
      requires writer.Asleep? && writer.next <= |written|
    {
      written[..|written| - writer.next]
    }

    constructor (size: nat, blank: Msg)
      requires size >= 2
      ensures Valid() && buffer.Length == size && fresh(buffer) && writer.Idle? && written == []
    {
      buffer := new Msg[size](_ => blank);
      head, tail, sem, txint, writer := 0, 0, 0, false, Idle;
      written, sent, done := [], [], 0;
    }

    // dev_send, which succeeds
    method DevSend(m: Msg)
      modifies `sent
      ensures sent == old(sent) + [m]
    {
      sent := sent + [m];
    }

    // can_xmit
    method CanXmit()
      requires Quiet()
      modifies `sent, `txint
      ensures Busy()
    {
      var enable := false;
      if head != tail {
        DevSend(buffer[head]);
        enable := true;
      }
      txint := enable;
    }

    static lemma Finish(w: seq<Msg>, d: nat, m: Msg, rest: seq<Msg>)
      requires d <= |w| && w[d..] == [m] + rest
      ensures d < |w| && w[d + 1..] == rest && w[..d + 1] == w[..d] + [m]
    {
      assert w[d] == w[d..][0];
      assert w[d + 1..] == w[d..][1..];
    }

    method Dequeue()
      requires Busy() && head != tail
      modifies `head, `done
      ensures Quiet() && done == old(done) + 1
    {
      RingPop(buffer[..], head, tail);
      Finish(written, done, buffer[head], Ring(buffer[..], Next(head, buffer.Length), tail));
      head := Next(head, buffer.Length);
      done := done + 1;
    }

    // can_txdone: the head is finished, the next message is sent, a sleeper is woken.
    method CanTxdone()
      requires Valid()
      modifies `head, `sent, `txint, `sem, `done
      ensures Valid()
      ensures old(head) != old(tail) ==> head == Next(old(head), buffer.Length)
      ensures if old(head) == old(tail) then done == old(done) && sem == old(sem)
        else done == old(done) + 1 && sem == old(sem) + 1
    {
      if head != tail {
        Dequeue();
        CanXmit();
        sem := sem + 1;
      }
    }

    // The message is copied to the tail of the FIFO.
    method Enqueue(m: Msg)
      requires Ordered() && Next(tail, buffer.Length) != head
      modifies `tail, buffer, `written
      ensures Ordered() && written == old(written) + [m] && tail == Next(old(tail), buffer.Length)
      ensures head != old(tail) ==> buffer[head] == old(buffer[head])
    {
      RingPush(buffer[..], head, tail, m);
      assert (written + [m])[done..] == written[done..] + [m];
      ghost var b := buffer[..];
      buffer[tail] := m;
      assert buffer[..] == b[tail := m];
      tail := Next(tail, buffer.Length);
      written := written + [m];
    }

    // Between a wakeup and the end of the critical section: `empty` is remembered from the
    // last time the FIFO was looked at.
    ghost predicate Writing(empty: bool, stalled: bool)
      reads this, buffer
    {
      if empty then Quiet() && !stalled
      else head != tail && if stalled then Quiet() && !txint else Busy()
    }

    method Push(m: Msg, empty: bool, ghost stalled: bool)
      requires Writing(empty, stalled) && Next(tail, buffer.Length) != head
      modifies `tail, buffer, `written
      ensures Writing(empty, stalled) && written == old(written) + [m] && head != tail
    {
      ghost var w, d := written, done;
      assert (w + [m])[..d] == w[..d];
      Enqueue(m);
    }

    method PushNext(msgs: seq<Msg>, k: nat, nsent: int, empty: bool, ghost w0: seq<Msg>, ghost stalled: bool)
      requires Writing(empty, stalled) && Next(tail, buffer.Length) != head
      requires k < |msgs| && Progress(w0, msgs, k, nsent)
      modifies `tail, buffer, `written
      ensures Writing(empty, stalled) && Progress(w0, msgs, k + 1, nsent + MsgLen(msgs[k]))
    {
      Push(msgs[k], empty, stalled);
      assert msgs[..k + 1] == msgs[..k] + [msgs[k]];
      assert msgs[..k + 1][..k] == msgs[..k];
    }

    // The inner loop: wait until there is room.
    method AwaitRoom(empty0: bool, nonblock: bool, ghost stalled: bool) returns (room: Room, empty: bool)
      requires Writing(empty0, stalled)
      modifies `sent, `txint, `sem
      ensures stalled ==> sent == old(sent)
      ensures room.Some? ==> Writing(empty, stalled) && Next(tail, buffer.Length) != head
      ensures room.Later? ==> !nonblock && Writing(false, stalled) && Next(tail, buffer.Length) == head && sem == 0
      ensures room.Refused? ==> nonblock && Next(tail, buffer.Length) == head && head != tail
      ensures nonblock ==> empty == empty0 && Writing(empty, stalled) && unchanged(this)
      ensures head != tail && empty ==> empty0
      ensures old(Next(tail, buffer.Length) != head) ==> room.Some?
      ensures !room.Later? ==> sem == old(sem)
    {
      empty := empty0;
      RingLength(buffer[..], head, tail);
      while Next(tail, buffer.Length) == head
        invariant Writing(empty, stalled) && (nonblock ==> empty == empty0 && unchanged(this))
        invariant head != tail && empty ==> empty0
        invariant stalled ==> sent == old(sent)
        invariant sem == old(sem) || Next(tail, buffer.Length) == head
        decreases sem
      {
        if nonblock { return Refused, empty; }
        if empty { CanXmit(); }
        if sem == 0 { return Later, empty; }
        sem := sem - 1;
        empty := head == tail;
      }
      room := Some;
    }

    method Sleep(msgs: seq<Msg>, k: nat, nsent: int, ghost w0: seq<Msg>, ghost stalled: bool)
      requires Writing(false, stalled) && Next(tail, buffer.Length) == head
      requires k < |msgs| && Progress(w0, msgs, k, nsent)
      modifies `writer
      ensures Kept(stalled) && writer == Asleep(msgs, k, nsent) && Before() == w0
    {
      writer := Asleep(msgs, k, nsent);
      assert (w0 + msgs[..k])[..|w0|] == w0;
    }

    // One pass of the outer loop: message i goes in, or the task goes to sleep, or is refused.
    method PutOne(msgs: seq<Msg>, i: nat, nsent: int, empty0: bool, nonblock: bool,
                  ghost w0: seq<Msg>, ghost stalled: bool)
      returns (room: Room, empty: bool)
      requires Writing(empty0, stalled) && i < |msgs| && Progress(w0, msgs, i, nsent) && writer == Idle
      modifies `tail, buffer, `written, `sent, `txint, `sem, `writer
      ensures stalled ==> sent == old(sent)
      ensures room.Some? ==> Writing(empty, stalled) && writer == Idle
      ensures room.Some? ==> Progress(w0, msgs, i + 1, nsent + MsgLen(msgs[i]))
      ensures room.Later? ==> !nonblock && Kept(stalled) && writer == Asleep(msgs, i, nsent) && Before() == w0
      ensures room.Later? ==> Progress(w0, msgs, i, nsent) && sem == 0 && Next(tail, buffer.Length) == head
      ensures room.Refused? ==> nonblock && Writing(empty, stalled) && Progress(w0, msgs, i, nsent) && writer == Idle
      ensures room.Refused? ==> Next(tail, buffer.Length) == head && txint == old(txint)
      ensures nonblock ==> empty == empty0 && txint == old(txint)
      ensures old(Next(tail, buffer.Length) != head) ==> room.Some?
      ensures !room.Later? ==> sem == old(sem)
    {
      room, empty := AwaitRoom(empty0, nonblock, stalled);
      if room.Some? {
        PushNext(msgs, i, nsent, empty, w0, stalled);
      } else if room.Later? {
        Sleep(msgs, i, nsent, w0, stalled);
      }
    }

    // The outer loop: up to the end of the messages, to a sleep, or to a refusal.
    method PutAll(msgs: seq<Msg>, start: nat, nsent0: int, empty0: bool, nonblock: bool,
                  ghost w0: seq<Msg>, ghost stalled: bool)
      returns (room: Room, i: nat, nsent: int, empty: bool)
      requires Writing(empty0, stalled) && Progress(w0, msgs, start, nsent0) && writer == Idle
      modifies `tail, buffer, `written, `sent, `txint, `sem, `writer
      ensures stalled ==> sent == old(sent)
      ensures start <= i <= |msgs| && Progress(w0, msgs, i, nsent)
      ensures nonblock ==> empty == empty0 && txint == old(txint)
      ensures room.Some? ==> i == |msgs| && Writing(empty, stalled) && writer == Idle
      ensures room.Later? ==> !nonblock && Kept(stalled) && writer == Asleep(msgs, i, nsent) && Before() == w0
      ensures room.Later? ==> i < |msgs| && sem == 0 && (i > start || old(Next(tail, buffer.Length) == head))
      ensures room.Later? ==> Next(tail, buffer.Length) == head
      ensures room.Refused? ==> nonblock && i < |msgs| && Writing(empty, stalled) && writer == Idle
      ensures room.Refused? ==> Next(tail, buffer.Length) == head
      ensures !room.Later? ==> sem == old(sem)
    {
      room, i, nsent, empty := Some, start, nsent0, empty0;
      while i < |msgs|
        invariant start <= i && Writing(empty, stalled) && Progress(w0, msgs, i, nsent) && writer == Idle
        invariant nonblock ==> empty == empty0 && txint == old(txint)
        invariant (stalled ==> sent == old(sent)) && sem == old(sem)
        invariant i == start ==> (Next(tail, buffer.Length) == head <==> old(Next(tail, buffer.Length) == head))
      {
        room, empty := PutOne(msgs, i, nsent, empty, nonblock, w0, stalled);
        if !room.Some? { return; }
        i, nsent := i + 1, nsent + MsgLen(msgs[i]);
      }
      room := Some;
    }

    // How many more messages the FIFO takes.
    ghost function Space(): int
      reads this, buffer
      requires head < buffer.Length && tail < buffer.Length
    {
      buffer.Length - 1 - |Queue()|
    }

    // A call that has put n messages in, and has stopped at the last one or at a full FIFO.
    lemma TookAll(written0: nat, space0: int, n: nat, more: nat)
      requires Ordered() && |written| == written0 + n && space0 == buffer.Length - 1 - (written0 - done) && n <= more
      requires n < more ==> Next(tail, buffer.Length) == head
      ensures n == Least(more, space0) && (n < more ==> Space() == 0)
    {
      RingLength(buffer[..], head, tail);
    }

    // The body of can_write from the top of its outer loop; a woken task goes on there.
    method Fill(msgs: seq<Msg>, start: nat, nsent0: int, empty0: bool, nonblock: bool,
                ghost w0: seq<Msg>, ghost stalled: bool)
      returns (r: Return, ghost k: nat)
      requires Writing(empty0, stalled) && Progress(w0, msgs, start, nsent0) && writer == Idle
      modifies `tail, buffer, `written, `sent, `txint, `sem, `writer
      ensures stalled ==> sent == old(sent)
      ensures Ordered() && start <= k <= |msgs|
      ensures Progress(w0, msgs, k, if r.Sent? then r.nbytes else Bytes(msgs[..k]))
      ensures r.Blocked? ==> !nonblock && Kept(stalled) && writer.Asleep? && writer.msgs == msgs && writer.next == k
      ensures r.Blocked? ==> Before() == w0
      ensures r.Blocked? ==> sem == 0 && (k > start || old(Next(tail, buffer.Length) == head))
      ensures r.Blocked? ==> k < |msgs| && Next(tail, buffer.Length) == head
      ensures !r.Blocked? ==> writer == Idle && (r.Again? <==> k == 0 < |msgs|)
      ensures !r.Blocked? && k == |msgs| ==> Kept(stalled)
      ensures !r.Blocked? && !nonblock ==> written == w0 + msgs && r == Sent(Bytes(msgs))
      ensures !r.Blocked? && k < |msgs| ==> nonblock && Writing(empty0, stalled) && Next(tail, buffer.Length) == head
      ensures !r.Blocked? && k < |msgs| ==> txint == old(txint)
      ensures !r.Blocked? ==> sem == old(sem)
    {
      var room, i, nsent, empty := PutAll(msgs, start, nsent0, empty0, nonblock, w0, stalled);
      k := i;
      if room.Refused? {
        BytesPositive(msgs[..i]);
        return if nsent == 0 then Again else Sent(nsent), k;
      }
      if room.Later? { return Blocked, k; }
      if empty { CanXmit(); }
      assert msgs[..i] == msgs;
      r := Sent(nsent);
    }

    // can_write.  Either kind of call takes as many messages as fit.  If not all do, a blocking
    // one goes to sleep, with no wakeup left over, and a non-blocking one returns; it leaves a
    // FIFO that nobody sends exactly when it found the FIFO empty and filled it up, and no later
    // call starts the transmission.
    method CanWrite(msgs: seq<Msg>, nonblock: bool) returns (r: Return, ghost k: nat)
      requires (Valid() || Stalled()) && writer.Idle?
      modifies `tail, buffer, `written, `sent, `txint, `sem, `writer
      ensures k <= |msgs| && written == old(written) + msgs[..k]
      ensures r.Blocked? ==> !nonblock && k < |msgs| && writer.Asleep? && writer.msgs == msgs && writer.next == k
      ensures k == Least(|msgs|, old(Space())) && (r.Blocked? <==> !nonblock && |msgs| > old(Space()))
      ensures r.Blocked? ==> sem == 0 && Ordered() && Space() == 0
      ensures !r.Blocked? ==> writer.Idle? && sem == old(sem)
      ensures r.Sent? ==> r.nbytes == Bytes(msgs[..k])
      ensures r.Again? <==> nonblock && msgs != [] && old(Space()) == 0
      ensures old(Valid()) ==> (Valid() <==> !(nonblock && old(head) == old(tail) && |msgs| >= buffer.Length))
      ensures old(Valid()) && nonblock && old(head) == old(tail) && |msgs| >= buffer.Length ==> Stalled()
      ensures old(Stalled()) ==> Stalled() && sent == old(sent)
    {
      var empty := head == tail;
      RingLength(buffer[..], head, tail);
      ghost var w0, stalled, space := written, Stalled(), Space();
      r, k := Fill(msgs, 0, 0, empty, nonblock, w0, stalled);
      TookAll(|w0|, space, k, |msgs|);
    }

    // A blocking call from the top of the outer loop.
    method Resume(msgs: seq<Msg>, start: nat, nsent: int, ghost w0: seq<Msg>, ghost stalled: bool) returns (r: Return)
      requires Writing(head == tail, stalled) && Progress(w0, msgs, start, nsent) && writer == Idle
      modifies `tail, buffer, `written, `sent, `txint, `sem, `writer
      ensures Kept(stalled) && (stalled ==> sent == old(sent))
      ensures r.Blocked? ==> writer.Asleep? && writer.msgs == msgs && writer.next <= |written| && Before() == w0
      ensures r.Blocked? <==> |msgs| - start > old(Space())
      ensures r.Blocked? ==> writer.next == start + old(Space()) && sem == 0 && Ordered() && Space() == 0
      ensures !r.Blocked? ==> writer.Idle? && sem == old(sem) && r == Sent(Bytes(msgs)) && written == w0 + msgs
    {
      ghost var n, space := |written|, Space();
      ghost var k;
      r, k := Fill(msgs, start, nsent, head == tail, false, w0, stalled);
      TookAll(n, space, k - start, |msgs| - start);
    }

    // The rest of can_write after sem_wait returns.
    method Wake() returns (r: Return)
      requires (Valid() || Stalled()) && writer.Asleep? && sem > 0
      modifies `tail, buffer, `written, `sent, `txint, `sem, `writer
      ensures old(Valid()) ==> Valid()
      ensures old(Stalled()) ==> Stalled() && sent == old(sent)
      ensures r.Blocked? ==> writer.Asleep? && writer.msgs == old(writer.msgs) && Before() == old(Before())
      ensures r.Blocked? <==> |old(writer.msgs)| - old(writer.next) > old(Space())
      ensures r.Blocked? ==> writer.next == old(writer.next) + old(Space())
      ensures r.Blocked? ==> sem == 0 && Ordered() && Space() == 0
      ensures !r.Blocked? ==> writer.Idle? && sem == old(sem) - 1 && r == Sent(Bytes(old(writer.msgs)))
      ensures !r.Blocked? ==> written == old(Before()) + old(writer.msgs)
    {
      var w := writer;
      ghost var w0, stalled := Before(), Stalled();
      sem, writer := sem - 1, Idle;
      assert Progress(w0, w.msgs, w.next, w.nsent);
      r := Resume(w.msgs, w.next, w.nsent, w0, stalled);
    }

    // How much can still happen before the sleeping task is done: two steps for every message
    // not yet finished, and one for every wakeup.
    ghost function Rank(): int
      reads this
      requires writer.Asleep? && writer.next <= |written|
    {
      2 * (|writer.msgs| + |Before()| - done) + sem
    }

    // While the task sleeps, more is to happen: a wakeup is due, or the FIFO is full.
    lemma Pending()
      requires Valid() && writer.Asleep?
      ensures Rank() >= 0 && (sem > 0 || head != tail)
    {
      RingLength(buffer[..], head, tail);
    }

    method FinishSend()
      requires Valid() && writer.Asleep? && head != tail
      modifies `head, `sent, `txint, `sem, `done
      ensures Valid() && Rank() == old(Rank()) - 1
    {
      CanTxdone();
    }

    // The next thing to happen: a send is finished, or the task is woken.
    method Happen(finish: bool) returns (r: Return)
      requires Valid() && writer.Asleep?
      modifies this, buffer
      ensures Valid() && (r.Blocked? <==> writer.Asleep?)
      ensures r.Blocked? ==> writer.msgs == old(writer.msgs) && Before() == old(Before())
      ensures r.Blocked? ==> 0 <= Rank() < old(Rank())
      ensures !r.Blocked? ==> r == Sent(Bytes(old(writer.msgs))) && written == old(Before()) + old(writer.msgs)
    {
      Pending();
      if sem > 0 && (head == tail || !finish) {
        r := Wake();
      } else {
        FinishSend();
        r := Blocked;
      }
      if r.Blocked? { Pending(); }
    }

    // A sleeping task always gets to the end of its call, in whatever order sends are finished
    // and wakeups are acted upon: as long as it sleeps one or the other can happen, and
    // neither can happen for ever.
    method Complete(finishFirst: nat -> bool) returns (r: Return)
      requires Valid() && writer.Asleep?
      modifies this, buffer
      ensures Valid() && writer.Idle? && r == Sent(Bytes(old(writer.msgs)))
      ensures written == old(Before()) + old(writer.msgs)
    {
      r := Blocked;
      var i := 0;
      while writer.Asleep?
        invariant Valid()
        invariant writer.Asleep? ==> writer.msgs == old(writer.msgs) && Before() == old(Before())
        invariant writer.Idle? ==> r == Sent(Bytes(old(writer.msgs))) && written == old(Before()) + old(writer.msgs)
        decreases writer.Asleep?, if writer.Asleep? then Rank() else 0
      {
        r := Happen(finishFirst(i));
        i := i + 1;
      }
    }

    // Enough finished sends empty the FIFO: everything written has been sent, once and in
    // order.
    method Drain()
      requires Valid()
      modifies `head, `sent, `txint, `sem, `done
      ensures Valid() && head == tail && !txint && sent == written && done == |written|
    {
      while head != tail
        invariant Valid()
        decreases |written| - done
      {
        CanTxdone();
      }
    }
  }
}
