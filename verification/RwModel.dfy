/** What the block read-ahead/write buffer does to its state, as functions: the device, the
    pending run of the write buffer, and the read-ahead window. */
module RwModel {

  // blocks written over s at position at
  function Patch<B>(s: seq<B>, at: nat, data: seq<B>): (t: seq<B>)
    requires at + |data| <= |s|
  {
    s[..at] + data + s[at + |data|..]
  }

  datatype Config = Config(writeBuffer: bool, readAhead: bool, wrmax: nat, rhmax: nat)

  // pend holds the blocks from wrblockstart on; win those from rhblockstart on.
  datatype State<B> = State(
    dev: seq<B>,
    pend: seq<B>, wrblockstart: int, wrexpectedblock: int,
    win: seq<B>, rhblockstart: int)

  ghost predicate Inv<B>(c: Config, s: State<B>) {
    && |s.pend| <= c.wrmax && (!c.writeBuffer ==> s.pend == [])
    && (s.pend != [] ==>
        0 <= s.wrblockstart && s.wrblockstart + |s.pend| <= |s.dev|
        && s.wrexpectedblock == s.wrblockstart + |s.pend|)
    && |s.win| <= c.rhmax && (!c.readAhead ==> s.win == [])
    && (s.win != [] ==> 0 <= s.rhblockstart && s.rhblockstart + |s.win| <= |s.dev|)
    && (c.readAhead ==> c.rhmax > 0)
  }

  // The plain array of blocks a user believes in.
  ghost function Disk<B>(c: Config, s: State<B>): (d: seq<B>)
    requires Inv(c, s)
    ensures |d| == |s.dev|
  {
    if s.pend == [] then s.dev else Patch(s.dev, s.wrblockstart, s.pend)
  }

  predicate Overlap(start1: int, n1: nat, start2: int, n2: nat) {
    !(start1 + n1 < start2 || start1 > start2 + n2)
  }

  // A block of the range or the one just behind it.
  predicate Reaches(start: int, n: nat, i: int) {
    start <= i <= start + n
  }

  // Exactly the ranges that share a block or merely touch are reported; an empty one counts
  // as a position.
  lemma OverlapCovers(start1: int, n1: nat, start2: int, n2: nat)
    ensures Overlap(start1, n1, start2, n2) <==> exists i :: Reaches(start1, n1, i) && Reaches(start2, n2, i)
  {
    if Overlap(start1, n1, start2, n2) {
      var i := if start1 <= start2 then start2 else start1;
      assert Reaches(start1, n1, i) && Reaches(start2, n2, i);
    }
  }

  function ResetWr<B>(s: State<B>): State<B> {
    s.(pend := [], wrblockstart := -1, wrexpectedblock := -1)
  }

  function ResetRh<B>(s: State<B>): State<B> {
    s.(win := [], rhblockstart := -1)
  }

  // rwb_wrflush, and so also the timeout.
  ghost function Flush<B>(c: Config, s: State<B>): (t: State<B>)
    requires Inv(c, s)
  {
    if s.pend == [] then s else ResetWr(s).(dev := Patch(s.dev, s.wrblockstart, s.pend))
  }

  ghost predicate InRange<B>(s: State<B>, at: int, n: nat) {
    0 <= at && at + n <= |s.dev|
  }

  function Buffered<B>(s: State<B>, at: nat, data: seq<B>): State<B> {
    var start := if s.pend == [] then at else s.wrblockstart;
    s.(pend := s.pend + data, wrblockstart := start, wrexpectedblock := start + |s.pend + data|)
  }

  predicate MustFlush<B>(c: Config, s: State<B>, at: nat, n: nat) {
    (at != s.wrexpectedblock && s.pend != []) || |s.pend| + n > c.wrmax
  }

  // rwb_writebuffer
  ghost function WriteBuffer<B>(c: Config, s: State<B>, at: nat, data: seq<B>): State<B>
    requires Inv(c, s) && InRange(s, at, |data|) && |data| <= c.wrmax
  {
    Buffered(if MustFlush(c, s, at, |data|) then Flush(c, s) else s, at, data)
  }

  function Invalidate<B>(c: Config, s: State<B>, at: nat, n: nat): State<B> {
    if c.readAhead && Overlap(s.rhblockstart, |s.win|, at, n) then ResetRh(s) else s
  }

  // rwb_write
  ghost function Write<B>(c: Config, s: State<B>, at: nat, data: seq<B>): State<B>
    requires Inv(c, s) && InRange(s, at, |data|)
  {
    var s1 := Invalidate(c, s, at, |data|);
    if !c.writeBuffer then s1.(dev := Patch(s1.dev, at, data))
    else if |data| > c.wrmax then
      var s2 := Flush(c, s1);
      s2.(dev := Patch(s2.dev, at, data))
    else WriteBuffer(c, s1, at, data)
  }

  // The flush at the start of rwb_read.
  ghost function FlushFor<B>(c: Config, s: State<B>, at: nat, n: nat): State<B>
    requires Inv(c, s)
  {
    if c.writeBuffer && c.wrmax > 0 && Overlap(s.wrblockstart, |s.pend|, at, n) then Flush(c, s) else s
  }

  // rwb_rhreload: the window from at on, cut off at the end of the device.
  function Reload<B>(c: Config, s: State<B>, at: nat): State<B>
    requires at <= |s.dev|
  {
    var end := if at + c.rhmax > |s.dev| then |s.dev| else at + c.rhmax;
    s.(win := s.dev[at..end], rhblockstart := at)
  }

  predicate InWindow<B>(s: State<B>, at: int) {
    s.rhblockstart <= at < s.rhblockstart + |s.win|
  }

  // How many of n blocks from at on come out of the window.
  function Served<B>(s: State<B>, at: int, n: nat): (k: nat)
    ensures k <= n
  {
    if !InWindow(s, at) then 0
    else if s.rhblockstart + |s.win| - at <= n then s.rhblockstart + |s.win| - at else n
  }

  // rwb_bufferread
  function FromWindow<B>(s: State<B>, at: int, k: nat): (blocks: seq<B>)
    requires k > 0 ==> s.rhblockstart <= at && at + k <= s.rhblockstart + |s.win|
    ensures |blocks| == k
  {
    if k == 0 then [] else s.win[at - s.rhblockstart..at - s.rhblockstart + k]
  }

  // The loop of rwb_read: what the window has, then a reload for the rest.
  ghost function ReadLoop<B>(c: Config, s: State<B>, at: nat, n: nat): (r: (State<B>, seq<B>))
    requires InRange(s, at, n) && c.rhmax > 0
    decreases n, if InWindow(s, at) then 0 else 1
  {
    var k := Served(s, at, n);
    if k == n then (s, FromWindow(s, at, k))
    else
      var r := ReadLoop(c, Reload(c, s, at + k), at + k, n - k);
      (r.0, FromWindow(s, at, k) + r.1)
  }

  lemma FlushInv<B>(c: Config, s: State<B>)
    requires Inv(c, s)
    ensures Inv(c, Flush(c, s)) && Disk(c, Flush(c, s)) == Disk(c, s)
  {
  }

  // rwb_read
  ghost function Read<B>(c: Config, s: State<B>, at: nat, n: nat): (State<B>, seq<B>)
    requires Inv(c, s) && InRange(s, at, n)
  {
    var s1 := FlushFor(c, s, at, n);
    FlushInv(c, s);
    if c.readAhead then ReadLoop(c, s1, at, n) else (s1, s1.dev[at..at + n])
  }
}
