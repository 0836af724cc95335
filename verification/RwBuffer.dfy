/** struct rwbuffer_s and its operations, over a device whose callbacks succeed. */
module RwBuffers {
  import opened RwModel

  // What has been read so far followed by what the loop still returns is the whole result.
  ghost predicate Remaining<B>(whole: (State<B>, seq<B>), c: Config, s: State<B>, at: nat, n: nat, data: seq<B>)
    requires InRange(s, at, n) && c.rhmax > 0
  {
    whole.0 == ReadLoop(c, s, at, n).0 && whole.1 == data + ReadLoop(c, s, at, n).1
  }

  lemma RemainingStart<B>(whole: (State<B>, seq<B>), c: Config, s: State<B>, at: nat, n: nat)
    requires InRange(s, at, n) && c.rhmax > 0 && whole == ReadLoop(c, s, at, n)
    ensures Remaining(whole, c, s, at, n, [])
  {
  }

  lemma RemainingEnd<B>(whole: (State<B>, seq<B>), c: Config, s: State<B>, at: nat, data: seq<B>)
    requires InRange(s, at, 0) && c.rhmax > 0 && Remaining(whole, c, s, at, 0, data)
    ensures whole == (s, data)
  {
    assert ReadLoop(c, s, at, 0) == (s, []);
    assert data + [] == data;
    assert whole == (whole.0, whole.1);
  }

  // One pass leads from s to t.
  lemma RemainingStep<B>(whole: (State<B>, seq<B>), c: Config, s: State<B>, t: State<B>, at: nat, n: nat, k: nat,
                         data: seq<B>)
    requires InRange(s, at, n) && c.rhmax > 0 && n > 0 && Remaining(whole, c, s, at, n, data)
    requires k == Served(s, at, n) && t == if k == n then s else Reload(c, s, at + k)
    ensures InRange(t, at + k, n - k) && Remaining(whole, c, t, at + k, n - k, data + FromWindow(s, at, k))
    ensures k < n ==> InWindow(t, at + k)
    ensures k == 0 ==> !InWindow(s, at)
  {
    if k < n {
      var rest := ReadLoop(c, t, at + k, n - k).1;
      assert data + (FromWindow(s, at, k) + rest) == (data + FromWindow(s, at, k)) + rest;
    } else {
      assert ReadLoop(c, s, at + n, 0) == (s, []);
    }
  }

  class RwBuffer<B(0)> {
    const c: Config
    const dev: array<B>
    const wrbuffer: array<B>
    const rhbuffer: array<B>
    var wrnblocks: nat
    var wrblockstart: int
    var wrexpectedblock: int
    var rhnblocks: nat
    var rhblockstart: int

    ghost predicate Shape()
      reads this
    {
      && wrbuffer.Length == c.wrmax && rhbuffer.Length == c.rhmax
      && dev != wrbuffer && dev != rhbuffer && wrbuffer != rhbuffer
      && wrnblocks <= c.wrmax && rhnblocks <= c.rhmax
    }

    ghost function Abs(): State<B>
      requires Shape()
      reads this, dev, wrbuffer, rhbuffer
    {
      State(dev[..], wrbuffer[..wrnblocks], wrblockstart, wrexpectedblock, rhbuffer[..rhnblocks], rhblockstart)
    }

    ghost predicate Valid()
      reads this, dev, wrbuffer, rhbuffer
    {
      Shape() && Inv(c, Abs())
    }

    // rwb_initialize; a read-ahead buffer needs room for at least one block.
    constructor (c: Config, dev: array<B>)
      requires c.readAhead ==> c.rhmax > 0
      ensures Valid() && this.c == c && this.dev == dev
      ensures Abs() == State(dev[..], [], -1, -1, [], -1)
    {
      this.c := c;
      this.dev := dev;
      wrbuffer := new B[c.wrmax];
      rhbuffer := new B[c.rhmax];
      wrnblocks, wrblockstart, wrexpectedblock := 0, -1, -1;
      rhnblocks, rhblockstart := 0, -1;
    }

    // The two device callbacks.
    method DevWrite(at: nat, data: seq<B>)
      requires Shape() && at + |data| <= dev.Length
      modifies dev
      ensures dev[..] == Patch(old(dev[..]), at, data)
    {
      forall i | 0 <= i < |data| { dev[at + i] := data[i]; }
    }

    method DevRead(at: nat, n: nat) returns (data: seq<B>)
      requires at + n <= dev.Length
      ensures data == dev[at..at + n]
    {
      data := dev[at..at + n];
    }

    method ResetWrBuffer()
      modifies `wrnblocks, `wrblockstart, `wrexpectedblock
      ensures wrnblocks == 0 && wrblockstart == -1 && wrexpectedblock == -1
    {
      wrnblocks, wrblockstart, wrexpectedblock := 0, -1, -1;
    }

    method WrFlush()
      requires Valid()
      modifies `wrnblocks, `wrblockstart, `wrexpectedblock, dev
      ensures Valid() && Abs() == Flush(c, old(Abs()))
    {
      if wrnblocks > 0 {
        DevWrite(wrblockstart, wrbuffer[..wrnblocks]);
        ResetWrBuffer();
        assert wrbuffer[..0] == [];
      }
    }

    // The part after the flush decision.
    method Append(at: nat, data: seq<B>)
      requires Valid() && InRange(Abs(), at, |data|) && c.writeBuffer && !MustFlush(c, Abs(), at, |data|)
      modifies `wrnblocks, `wrblockstart, `wrexpectedblock, wrbuffer
      ensures Valid() && Abs() == Buffered(old(Abs()), at, data)
    {
      if wrnblocks == 0 {
        wrblockstart := at;
      }
      ghost var pend := wrbuffer[..wrnblocks];
      forall i | 0 <= i < |data| { wrbuffer[wrnblocks + i] := data[i]; }
      wrnblocks := wrnblocks + |data|;
      wrexpectedblock := wrblockstart + wrnblocks;
      assert wrbuffer[..wrnblocks] == pend + data;
    }

    method WriteBuffer(at: nat, data: seq<B>)
      requires Valid() && InRange(Abs(), at, |data|) && |data| <= c.wrmax && c.writeBuffer
      modifies `wrnblocks, `wrblockstart, `wrexpectedblock, dev, wrbuffer
      ensures Valid() && Abs() == RwModel.WriteBuffer(c, old(Abs()), at, data)
    {
      if (at != wrexpectedblock && wrnblocks > 0) || wrnblocks + |data| > c.wrmax {
        WrFlush();
      }
      Append(at, data);
    }

    // The window is given up when the write meets it.
    method DropWindow(at: nat, n: nat)
      requires Valid()
      modifies `rhnblocks, `rhblockstart
      ensures Valid() && Abs() == Invalidate(c, old(Abs()), at, n)
    {
      if c.readAhead && Overlap(rhblockstart, rhnblocks, at, n) {
        rhnblocks, rhblockstart := 0, -1;
        assert rhbuffer[..0] == [];
      }
    }

    method Write(at: nat, data: seq<B>)
      requires Valid() && InRange(Abs(), at, |data|)
      modifies this, dev, wrbuffer
      ensures Valid() && Abs() == RwModel.Write(c, old(Abs()), at, data)
    {
      DropWindow(at, |data|);
      if c.writeBuffer {
        if |data| > c.wrmax {
          WrFlush();
          DevWrite(at, data);
        } else {
          WriteBuffer(at, data);
        }
      } else {
        DevWrite(at, data);
      }
    }

    // The counting loop: how many of the blocks wanted are in the window.
    method CountServed(at: int, remaining: nat) returns (n: nat)
      requires Shape()
      ensures n == Served(Abs(), at, remaining)
    {
      n := 0;
      var start, left, bufferend := at, remaining, rhblockstart + rhnblocks;
      while start >= rhblockstart && start < bufferend && left > 0
        invariant start == at + n && left == remaining - n && n <= remaining
        invariant n > 0 ==> rhblockstart <= at && at + n <= bufferend
        decreases left
      {
        n, start, left := n + 1, start + 1, left - 1;
      }
    }

    method BufferRead(at: int, n: nat) returns (data: seq<B>)
      requires Shape() && (n > 0 ==> rhblockstart <= at && at + n <= rhblockstart + rhnblocks)
      ensures data == FromWindow(Abs(), at, n)
    {
      data := [];
      if n > 0 {
        var o := at - rhblockstart;
        data := rhbuffer[o..o + n];
        assert data == rhbuffer[..rhnblocks][o..o + n];
      }
    }

    method RhReload(at: nat)
      requires Valid() && at <= dev.Length && c.readAhead
      modifies `rhnblocks, `rhblockstart, rhbuffer
      ensures Valid() && Abs() == Reload(c, old(Abs()), at)
    {
      var endblock := at + c.rhmax;
      if endblock > dev.Length {
        endblock := dev.Length;
      }
      var n := endblock - at;
      var data := DevRead(at, n);
      forall i | 0 <= i < n { rhbuffer[i] := data[i]; }
      rhnblocks, rhblockstart := n, at;
      assert rhbuffer[..n] == data;
    }

    method Serve(at: nat, n: nat, data0: seq<B>) returns (k: nat, data: seq<B>)
      requires Shape()
      ensures k == Served(Abs(), at, n) && data == data0 + FromWindow(Abs(), at, k)
    {
      k := CountServed(at, n);
      var head := BufferRead(at, k);
      data := data0 + head;
    }

    // One pass of the read loop: some blocks out of the window, then a reload if any are left.
    method ReadPass(at: nat, n: nat, data0: seq<B>, ghost whole: (State<B>, seq<B>)) returns (k: nat, data: seq<B>)
      requires Valid() && InRange(Abs(), at, n) && c.readAhead && n > 0
      requires Remaining(whole, c, Abs(), at, n, data0)
      modifies `rhnblocks, `rhblockstart, rhbuffer
      ensures Valid() && k <= n && dev[..] == old(dev[..])
      ensures Remaining(whole, c, Abs(), at + k, n - k, data)
      ensures k < n ==> InWindow(Abs(), at + k)
      ensures k == 0 ==> !old(InWindow(Abs(), at))
    {
      k, data := Serve(at, n, data0);
      if k < n {
        RhReload(at + k);
      }
      RemainingStep(whole, c, old(Abs()), Abs(), at, n, k, data0);
    }

    // `remaining` goes down on every pass after a reload, because a reload at the next block
    // wanted always loads it.
    method ReadAhead(at: nat, n: nat) returns (data: seq<B>)
      requires Valid() && InRange(Abs(), at, n) && c.readAhead
      modifies `rhnblocks, `rhblockstart, rhbuffer
      ensures Valid() && (Abs(), data) == ReadLoop(c, old(Abs()), at, n)
    {
      var start, remaining := at, n;
      data := [];
      ghost var whole := ReadLoop(c, Abs(), at, n);
      RemainingStart(whole, c, Abs(), at, n);
      while remaining > 0
        invariant Valid() && start + remaining == at + n && dev[..] == old(dev[..])
        invariant Remaining(whole, c, Abs(), start, remaining, data)
        decreases remaining, if InWindow(Abs(), start) then 0 else 1
      {
        var k;
        k, data := ReadPass(start, remaining, data, whole);
        start, remaining := start + k, remaining - k;
      }
      RemainingEnd(whole, c, Abs(), start, data);
    }

    method Read(at: nat, n: nat) returns (data: seq<B>)
      requires Valid() && InRange(Abs(), at, n)
      modifies this, dev, rhbuffer
      ensures Valid() && (Abs(), data) == RwModel.Read(c, old(Abs()), at, n)
    {
      if c.writeBuffer && c.wrmax > 0 && Overlap(wrblockstart, wrnblocks, at, n) {
        WrFlush();
      }
      if c.readAhead {
        data := ReadAhead(at, n);
      } else {
        data := DevRead(at, n);
      }
    }
  }
}
