/** The receive buffer of the TCP client as a cache of the byte stream of a socket, which
    may behave in any way at all. */
module WifiStream {
  import opened Words

  function Min(a: nat, b: nat): nat { if a <= b then a else b }

  // ---------------------------------------------------------------- the socket

  /** What one call of FIONREAD and, if that reports data, of `recv` does; `recv`
      returns at most `n` bytes of the incoming stream. */
  datatype Reply = IoctlFails | NoData | WouldBlock | RecvFails | Receives(n: nat)

  /** The bytes still to be received, and the answers to come; when they run out, the
      allocator always succeeds and the socket has no data. */
  datatype Socket = Socket(incoming: seq<Byte>, replies: seq<Reply>, memory: seq<bool>)

  // ---------------------------------------------------------------- the buffer

  /** The buffer: `data` are the bytes filled in so far, the first `pos` already read. */
  datatype Rx = Rx(size: nat, fd: int, hasBuffer: bool, data: seq<Byte>, pos: nat, failed: bool, sock: Socket) {
    predicate Valid() { pos <= |data| <= size && (data != [] ==> hasBuffer) }

    function Unread(): seq<Byte>
      requires Valid()
    {
      data[pos..]
    }

    /** The byte stream as the reader will see it. */
    function Stream(): seq<Byte>
      requires Valid()
    {
      Unread() + sock.incoming
    }
  }

  function Allocate(r: Rx): Rx {
    if r.hasBuffer then r
    else
      var ok := r.sock.memory == [] || r.sock.memory[0];
      var rest := if r.sock.memory == [] then [] else r.sock.memory[1..];
      r.(hasBuffer := ok, failed := r.failed || !ok, sock := r.sock.(memory := rest))
  }

  function Rewound(r: Rx): Rx { if r.data != [] && r.pos == |r.data| then r.(data := [], pos := 0) else r }

  /** `recv` into the free end of the buffer. */
  function Received(r: Rx): Rx
    requires r.Valid()
  {
    if r.fd < 0 || r.sock.replies == [] then r
    else
      var r' := r.(sock := r.sock.(replies := r.sock.replies[1..]));
      match r.sock.replies[0]
      case IoctlFails => r'.(failed := true)
      case RecvFails => r'.(failed := true)
      case Receives(n) =>
        var k := Min(n, Min(r.size - |r.data|, |r.sock.incoming|));
        r'.(data := r.data + r.sock.incoming[..k], sock := r'.sock.(incoming := r.sock.incoming[k..]))
      case _ => r'
  }

  /** `fillBuffer`; the count it returns is the growth of `data`. */
  function Fill(r: Rx): (Rx, nat)
    requires r.Valid()
  {
    var r1 := Allocate(r);
    if !r1.hasBuffer then (r1, 0)
    else
      var r2 := Rewound(r1);
      if r2.size <= |r2.data| then (r2, 0)
      else
        var r3 := Received(r2);
        (r3, |r3.data| - |r2.data|)
  }

  /** `r'` has read `n` more bytes of the stream of `r` into its buffer. */
  predicate Grown(r: Rx, r': Rx, n: nat)
    requires r.Valid()
  {
    && r'.Valid() && r'.size == r.size && r'.Stream() == r.Stream()
    && r.Unread() <= r'.Unread() && |r'.Unread()| == |r.Unread()| + n
    && (r.failed ==> r'.failed)
  }

  lemma Moved(u: seq<Byte>, incoming: seq<Byte>, k: nat)
    requires k <= |incoming|
    ensures (u + incoming[..k]) + incoming[k..] == u + incoming
  {
  }

  lemma Joined(out: seq<Byte>, more: seq<Byte>, s1: seq<Byte>, s2: seq<Byte>, s3: seq<Byte>)
    requires out + s2 == s1 && more + s3 == s2
    ensures (out + more) + s3 == s1
  {
  }

  lemma ReceivedGrows(r: Rx)
    requires r.Valid() && r.hasBuffer
    ensures |r.data| <= |Received(r).data| && Grown(r, Received(r), |Received(r).data| - |r.data|)
    ensures Received(r).hasBuffer
  {
    var r' := Received(r);
    if r.fd >= 0 && r.sock.replies != [] && r.sock.replies[0].Receives? {
      var k := Min(r.sock.replies[0].n, Min(r.size - |r.data|, |r.sock.incoming|));
      Moved(r.Unread(), r.sock.incoming, k);
      assert r'.Unread() == r.Unread() + r.sock.incoming[..k];
    } else {
      assert r'.data == r.data && r'.sock.incoming == r.sock.incoming;
    }
  }

  lemma RewoundSame(r: Rx)
    requires r.Valid()
    ensures Rewound(r).Valid() && Rewound(r).Unread() == r.Unread()
  {
  }

  lemma FillGrows(r: Rx)
    requires r.Valid()
    ensures Grown(r, Fill(r).0, Fill(r).1)
  {
    hide Received;
    var r1 := Allocate(r);
    RewoundSame(r1);
    var r2 := Rewound(r1);
    if r1.hasBuffer && |r2.data| < r2.size { ReceivedGrows(r2); }
  }

  // ---------------------------------------------------------------- read and peek

  function Take(r: Rx, n: nat): (Rx, seq<Byte>)
    requires r.Valid() && n <= |r.Unread()|
  {
    (r.(pos := r.pos + n), r.Unread()[..n])
  }

  /** The loop of `read`: fill and copy until `left` bytes are copied or a fill brings
      nothing. */
  function Drain(r: Rx, left: nat): (Rx, seq<Byte>)
    requires r.Valid()
    decreases left
  {
    if left == 0 then (r, [])
    else
      FillGrows(r);
      var (r1, n) := Fill(r);
      if n == 0 then (r1, [])
      else
        var (r2, out) := Take(r1, Min(left, |r1.Unread()|));
        var (r3, more) := Drain(r2, left - |out|);
        (r3, out + more)
  }

  /** The rest of `read` when there are unread bytes: if they are too few but the buffer
      has room for the others, one fill is tried first. */
  function ReadBuffered(r: Rx, len: nat): (Rx, seq<Byte>)
    requires r.Valid()
  {
    FillGrows(r);
    var a := |r.Unread()|;
    var r1 := if a < len && len - a <= r.size - |r.data| then Fill(r).0 else r;
    if len <= |r1.Unread()| then Take(r1, len)
    else
      var (r2, out) := Take(r1, a);
      var (r3, more) := Drain(r2, len - a);
      (r3, out + more)
  }

  /** `read` of up to `len` bytes into a buffer that exists: the bytes copied.  When
      none are, it returns -1 or 0 depending on the failure flag. */
  function Read(r: Rx, len: nat): (Rx, seq<Byte>)
    requires r.Valid()
  {
    FillGrows(r);
    if len == 0 then (r, [])
    else
      var r0 := if r.Unread() == [] then Fill(r).0 else r;
      if r0.Unread() == [] then (r0, []) else ReadBuffered(r0, len)
  }

  /** `peek`: the next byte, left in the buffer. */
  function Peek(r: Rx): (Rx, int)
    requires r.Valid()
  {
    FillGrows(r);
    var r' := if r.Unread() == [] then Fill(r).0 else r;
    (r', if r'.Unread() == [] then -1 else r'.Unread()[0])
  }

  // ---------------------------------------------------------------- the stream is kept

  lemma TakeKeepsStream(r: Rx, n: nat)
    requires r.Valid() && n <= |r.Unread()|
    ensures var (r', out) := Take(r, n);
      && r'.Valid() && out + r'.Stream() == r.Stream() && |out| == n && r'.Unread() == r.Unread()[n..]
      && r' == r.(pos := r.pos + n)
  {
    assert r.Unread() == r.Unread()[..n] + r.Unread()[n..];
  }

  lemma {:induction false} DrainKeepsStream(r: Rx, left: nat)
    requires r.Valid()
    ensures var (r', out) := Drain(r, left);
      r'.Valid() && out + r'.Stream() == r.Stream() && |out| <= left
    decreases left
  {
    hide Fill, Take, Rx.Stream, Rx.Unread;
    if left > 0 {
      FillGrows(r);
      var (r1, n) := Fill(r);
      if n > 0 {
        TakeKeepsStream(r1, Min(left, |r1.Unread()|));
        var (r2, out) := Take(r1, Min(left, |r1.Unread()|));
        DrainKeepsStream(r2, left - |out|);
        var (r3, more) := Drain(r2, left - |out|);
        Joined(out, more, r.Stream(), r2.Stream(), r3.Stream());
      }
    }
  }

  lemma ReadBufferedKeepsStream(r: Rx, len: nat)
    requires r.Valid()
    ensures var (r', out) := ReadBuffered(r, len);
      r'.Valid() && out + r'.Stream() == r.Stream() && |out| <= len
  {
    hide Fill, Take, Drain, Rx.Stream, Rx.Unread;
    FillGrows(r);
    var a := |r.Unread()|;
    var r1 := if a < len && len - a <= r.size - |r.data| then Fill(r).0 else r;
    if len <= |r1.Unread()| {
      TakeKeepsStream(r1, len);
    } else {
      TakeKeepsStream(r1, a);
      var (r2, out) := Take(r1, a);
      DrainKeepsStream(r2, len - a);
      var (r3, more) := Drain(r2, len - a);
      Joined(out, more, r.Stream(), r2.Stream(), r3.Stream());
    }
  }

  /** A read returns the next bytes of the stream and leaves the rest, whatever the
      socket does. */
  lemma ReadKeepsStream(r: Rx, len: nat)
    requires r.Valid()
    ensures var (r', out) := Read(r, len);
      r'.Valid() && out + r'.Stream() == r.Stream() && |out| <= len
  {
    hide Fill, ReadBuffered, Rx.Stream, Rx.Unread;
    FillGrows(r);
    var r0 := if r.Unread() == [] then Fill(r).0 else r;
    ReadBufferedKeepsStream(r0, len);
    assert [] + r0.Stream() == r0.Stream() && [] + r.Stream() == r.Stream();
  }

  /** `peek` shows the first byte of the stream, which a read of one byte then delivers,
      whenever there are unread bytes, be it after the fill that an empty buffer gets; and
      it leaves a buffer with unread bytes alone. */
  lemma PeekShowsNextRead(r: Rx)
    requires r.Valid()
    ensures var (r', b) := Peek(r);
      && r'.Valid() && r'.Stream() == r.Stream()
      && (r.Unread() != [] ==> r' == r)
      && (b == -1 <==> r'.Unread() == [])
      && (b != -1 ==> r.Stream() != [] && b == r.Stream()[0] && Read(r', 1).1 == [b])
  {
    hide Fill;
    FillGrows(r);
  }

  // ---------------------------------------------------------------- any sequence of calls

  datatype Call = CallRead(len: nat) | CallPeek

  /** One call: what it leaves, and the bytes it takes out of the buffer. */
  function Do(r: Rx, c: Call): (Rx, seq<Byte>)
    requires r.Valid()
  {
    match c
    case CallRead(len) => Read(r, len)
    case CallPeek => (Peek(r).0, [])
  }

  lemma DoKeepsStream(r: Rx, c: Call)
    requires r.Valid()
    ensures var (r', out) := Do(r, c); r'.Valid() && out + r'.Stream() == r.Stream()
  {
    hide Read, Peek;
    match c
    case CallRead(len) => ReadKeepsStream(r, len);
    case CallPeek =>
      PeekShowsNextRead(r);
      assert [] + r.Stream() == r.Stream();
  }

  /** The bytes all reads of a sequence of calls return, in order. */
  function Calls(r: Rx, calls: seq<Call>): (Rx, seq<Byte>)
    requires r.Valid()
    decreases |calls|
  {
    if calls == [] then (r, [])
    else
      DoKeepsStream(r, calls[0]);
      var (r1, out) := Do(r, calls[0]);
      var (r2, more) := Calls(r1, calls[1..]);
      (r2, out + more)
  }

  /** After any calls, what was returned, the unread bytes of the buffer and what the
      socket still holds make up exactly the stream there was. */
  lemma {:induction false} CallsKeepStream(r: Rx, calls: seq<Call>)
    requires r.Valid()
    ensures var (r', out) := Calls(r, calls);
      r'.Valid() && out + r'.Stream() == r.Stream()
    decreases |calls|
  {
    hide Do, Rx.Stream, Rx.Unread;
    if calls == [] {
      assert [] + r.Stream() == r.Stream();
    } else {
      DoKeepsStream(r, calls[0]);
      var (r1, out) := Do(r, calls[0]);
      CallsKeepStream(r1, calls[1..]);
      var (r2, more) := Calls(r1, calls[1..]);
      Joined(out, more, r.Stream(), r1.Stream(), r2.Stream());
    }
  }

  // ---------------------------------------------------------------- how much a read returns

  /** The next `n` receive calls each bring at least one byte. */
  predicate Feeding(r: Rx, n: nat) {
    && r.fd >= 0 && 0 < r.size && r.sock.memory == []
    && n <= |r.sock.replies|
    && forall i | 0 <= i < n :: r.sock.replies[i].Receives? && 0 < r.sock.replies[i].n
  }

  lemma ReceivedFeeds(r: Rx, n: nat)
    requires r.Valid() && r.hasBuffer && Feeding(r, n) && 0 < n && |r.data| < r.size && r.sock.incoming != []
    ensures |r.data| < |Received(r).data| && Feeding(Received(r), n - 1)
  {
    hide Rx.Stream, Rx.Unread;
    var r' := Received(r);
    assert forall i | 0 <= i < n - 1 :: r'.sock.replies[i] == r.sock.replies[i + 1];
  }

  lemma FillFeeds(r: Rx, n: nat)
    requires r.Valid() && Feeding(r, n) && 0 < n && r.sock.incoming != []
    requires r.pos == |r.data| || |r.data| < r.size
    ensures var (r', k) := Fill(r);
      k > 0 && Feeding(r', n - 1) && (r.pos < |r.data| ==> |r'.data| == |r.data| + k)
  {
    hide Received, Rx.Stream, Rx.Unread;
    var r2 := Rewound(Allocate(r));
    ReceivedFeeds(r2, n);
  }

  /** A fill that may receive then brings at least one byte. */
  lemma FeedingFill(r: Rx, n: nat)
    requires r.Valid() && Feeding(r, n) && 0 < n && |r.Unread()| < |r.Stream()|
    requires r.Unread() == [] || |r.data| < r.size
    ensures var (r', k) := Fill(r);
      && k > 0 && Feeding(r', n - 1) && Grown(r, r', k)
      && (r.Unread() != [] ==> |r'.data| == |r.data| + k)
  {
    hide Fill, Feeding;
    FillGrows(r);
    FillFeeds(r, n);
  }

  lemma {:induction false} DrainFull(r: Rx, left: nat)
    requires r.Valid() && left <= |r.Stream()|
    requires 0 < left ==>
      |r.Unread()| < left && (r.Unread() == [] || |r.data| < r.size) && Feeding(r, left - |r.Unread()|)
    ensures |Drain(r, left).1| == left
    decreases left
  {
    hide Fill, Take, Rx.Stream, Rx.Unread;
    if 0 < left {
      FeedingFill(r, left - |r.Unread()|);
      var r1 := Fill(r).0;
      var n := Min(left, |r1.Unread()|);
      TakeKeepsStream(r1, n);
      var (r2, out) := Take(r1, n);
      assert |out + r2.Stream()| == |r1.Stream()|;
      DrainFull(r2, left - n);
    }
  }

  lemma FullFromBuffer(r: Rx, len: nat)
    requires r.Valid() && len <= |r.Stream()| && 0 < |r.Unread()| && 0 < len
    requires |r.Unread()| < len ==> Feeding(r, len - |r.Unread()|)
    ensures |ReadBuffered(r, len).1| == len
  {
    hide Fill, Drain, Take, Rx.Stream, Rx.Unread;
    var a := |r.Unread()|;
    if len <= a {
      TakeKeepsStream(r, len);
    } else {
      TakeKeepsStream(r, a);
      if len - a <= r.size - |r.data| {
        FeedingFill(r, len - a);
        var r1 := Fill(r).0;
        TakeKeepsStream(r1, if len <= |r1.Unread()| then len else a);
        if |r1.Unread()| < len {
          var (r2, out) := Take(r1, a);
          assert |out + r2.Stream()| == |r1.Stream()|;
          DrainFull(r2, len - a);
        }
      } else {
        var (r2, out) := Take(r, a);
        assert |out + r2.Stream()| == |r.Stream()|;
        DrainFull(r2, len - a);
      }
    }
  }

  /** A read of no more bytes than the stream still has returns that many, as long as
      each of the next `len` receive calls brings something. */
  lemma FedReadIsFull(r: Rx, len: nat)
    requires r.Valid() && len <= |r.Stream()| && Feeding(r, len)
    ensures |Read(r, len).1| == len
  {
    hide Fill, ReadBuffered, Rx.Stream, Rx.Unread;
    if 0 < len {
      if r.Unread() == [] {
        FeedingFill(r, len);
        FullFromBuffer(Fill(r).0, len);
      } else {
        FullFromBuffer(r, len);
      }
    }
  }

  /** While the stream has bytes and the next receive call brings something, `peek` shows
      the next one. */
  lemma FedPeekShows(r: Rx)
    requires r.Valid() && r.Stream() != [] && Feeding(r, 1)
    ensures Peek(r).1 == r.Stream()[0]
  {
    hide Fill;
    PeekShowsNextRead(r);
    if r.Unread() == [] { FeedingFill(r, 1); }
  }

  // ---------------------------------------------------------------- the failure flag

  /** From `r` to `r'`, some answers were used up, and the flag was raised exactly if one of
      them was a failure. */
  predicate FailsExactly(r: Rx, r': Rx) {
    var m, n := |r.sock.replies| - |r'.sock.replies|, |r.sock.memory| - |r'.sock.memory|;
    && 0 <= m && r'.sock.replies == r.sock.replies[m..]
    && 0 <= n && r'.sock.memory == r.sock.memory[n..]
    && (r'.failed <==>
          r.failed || IoctlFails in r.sock.replies[..m] || RecvFails in r.sock.replies[..m]
          || false in r.sock.memory[..n])
  }

  lemma CutInTwo<T>(s: seq<T>, m: nat, n: nat)
    requires m + n <= |s|
    ensures s[m..][n..] == s[m + n..] && s[..m + n] == s[..m] + s[m..][..n]
  {
  }

  lemma FailsJoined(r: Rx, r1: Rx, r2: Rx)
    requires FailsExactly(r, r1) && FailsExactly(r1, r2)
    ensures FailsExactly(r, r2)
  {
    CutInTwo(r.sock.replies, |r.sock.replies| - |r1.sock.replies|, |r1.sock.replies| - |r2.sock.replies|);
    CutInTwo(r.sock.memory, |r.sock.memory| - |r1.sock.memory|, |r1.sock.memory| - |r2.sock.memory|);
  }

  lemma AllocateFails(r: Rx)
    requires r.Valid()
    ensures Allocate(r).Valid() && FailsExactly(r, Allocate(r))
  {
  }

  lemma RewoundFails(r: Rx)
    requires r.Valid()
    ensures Rewound(r).Valid() && FailsExactly(r, Rewound(r))
    ensures forall r' :: FailsExactly(Rewound(r), r') <==> FailsExactly(r, r')
  {
  }

  lemma ReceivedFails(r: Rx)
    requires r.Valid()
    ensures FailsExactly(r, Received(r))
  {
  }

  lemma FillFails(r: Rx)
    requires r.Valid()
    ensures FailsExactly(r, Fill(r).0)
  {
    hide Allocate, Rewound, Received, FailsExactly;
    var r1 := Allocate(r);
    var r2 := Rewound(r1);
    AllocateFails(r);
    RewoundFails(r1);
    if r1.hasBuffer && |r2.data| < r2.size {
      ReceivedFails(r2);
      FailsJoined(r, r1, Received(r2));
    } else if r1.hasBuffer {
      FailsJoined(r, r1, r2);
    }
  }

  lemma TakeFails(r: Rx, r': Rx)
    requires r' == r.(pos := r'.pos)
    ensures FailsExactly(r, r')
  {
  }

  lemma {:induction false} DrainFails(r: Rx, left: nat)
    requires r.Valid()
    ensures FailsExactly(r, Drain(r, left).0)
    decreases left
  {
    hide Fill, FailsExactly, Take, Rx.Stream, Rx.Unread;
    if left > 0 {
      FillGrows(r);
      FillFails(r);
      var (r1, n) := Fill(r);
      if n > 0 {
        TakeKeepsStream(r1, Min(left, |r1.Unread()|));
        var (r2, out) := Take(r1, Min(left, |r1.Unread()|));
        DrainFails(r2, left - |out|);
        TakeFails(r1, r2);
        FailsJoined(r, r1, r2);
        FailsJoined(r, r2, Drain(r, left).0);
      }
    } else {
      TakeFails(r, r);
    }
  }

  lemma TakenFails(r: Rx, r1: Rx, n: nat)
    requires r1.Valid() && n <= |r1.Unread()| && FailsExactly(r, r1)
    ensures Take(r1, n).0.Valid() && FailsExactly(r, Take(r1, n).0)
  {
  }

  lemma ReadBufferedFails(r: Rx, len: nat)
    requires r.Valid()
    ensures FailsExactly(r, ReadBuffered(r, len).0)
  {
    hide Fill, FailsExactly, Take, Drain, Rx.Stream, Rx.Unread, Rx.Valid;
    FillGrows(r);
    FillFails(r);
    TakeFails(r, r);
    var a := |r.Unread()|;
    var r1 := if a < len && len - a <= r.size - |r.data| then Fill(r).0 else r;
    if len <= |r1.Unread()| {
      TakenFails(r, r1, len);
    } else {
      TakenFails(r, r1, a);
      var r2 := Take(r1, a).0;
      DrainFails(r2, len - a);
      FailsJoined(r, r2, Drain(r2, len - a).0);
    }
  }

  lemma DoFails(r: Rx, c: Call)
    requires r.Valid()
    ensures FailsExactly(r, Do(r, c).0)
  {
    hide Fill, FailsExactly, ReadBuffered, Rx.Stream, Rx.Unread;
    FillGrows(r);
    FillFails(r);
    TakeFails(r, r);
    if c.CallRead? && 0 < c.len {
      var r0 := if r.Unread() == [] then Fill(r).0 else r;
      if r0.Unread() != [] {
        ReadBufferedFails(r0, c.len);
        FailsJoined(r, r0, ReadBuffered(r0, c.len).0);
      }
    }
  }

  /** After any calls, the flag that makes a read without bytes return -1 is up if and only
      if it was up before or one of the answers used was a failure: of the allocator, of
      FIONREAD, or of `recv` with another error than "would block". */
  lemma {:induction false} CallsFailExactly(r: Rx, calls: seq<Call>)
    requires r.Valid()
    ensures FailsExactly(r, Calls(r, calls).0)
    decreases |calls|
  {
    hide Do, FailsExactly, Rx.Stream, Rx.Unread;
    if calls == [] {
      TakeFails(r, r);
    } else {
      DoKeepsStream(r, calls[0]);
      DoFails(r, calls[0]);
      var r1 := Do(r, calls[0]).0;
      CallsFailExactly(r1, calls[1..]);
      FailsJoined(r, r1, Calls(r1, calls[1..]).0);
    }
  }

  // ---------------------------------------------------------------- what a short read leaves

  /** How many bytes the next receive call brings into `room` free bytes. */
  function Brings(fd: int, replies: seq<Reply>, incoming: seq<Byte>, room: nat): nat {
    if fd < 0 || replies == [] || !replies[0].Receives? then 0 else Min(replies[0].n, Min(room, |incoming|))
  }

  /** A fill with a buffer is one receive call into the room it has. */
  lemma FillBrings(r: Rx)
    requires r.Valid() && (r.hasBuffer || r.sock.memory == [] || r.sock.memory[0])
    ensures Fill(r).1 ==
      Brings(r.fd, r.sock.replies, r.sock.incoming, r.size - if r.Unread() == [] then 0 else |r.data|)
  {
  }

  lemma FillBehindUnread(r: Rx)
    requires r.Valid() && r.Unread() != []
    ensures var (r', k) := Fill(r);
      && k == (if |r.data| < r.size then Brings(r.fd, r.sock.replies, r.sock.incoming, r.size - |r.data|) else 0)
      && r'.fd == r.fd && r'.size == r.size
      && (k > 0 ==> r'.sock.replies == r.sock.replies[1..] && r'.sock.incoming == r.sock.incoming[k..]
                    && |r'.data| == |r.data| + k)
  {
  }

  /** The loop of `read` returns too little and leaves bytes only when its first fill brings
      nothing. */
  lemma {:induction false} DrainLeavesIff(r: Rx, left: nat)
    requires r.Valid() && 0 < left
    ensures var (r', out) := Drain(r, left);
      r'.Valid() && (|out| < left && r'.Unread() != [] <==> Fill(r).1 == 0 && r.Unread() != [])
    decreases left
  {
    hide Fill, Take, Rx.Stream, Rx.Unread;
    FillGrows(r);
    DrainKeepsStream(r, left);
    var (r1, k) := Fill(r);
    if k > 0 {
      var n := Min(left, |r1.Unread()|);
      TakeKeepsStream(r1, n);
      var r2 := Take(r1, n).0;
      if n < left {
        DrainLeavesIff(r2, left - n);
      }
    }
  }

  /** The first receive call brings some of the missing bytes and not all, and the next one
      brings none. */
  predicate LeavesBehind(r: Rx, len: nat)
    requires r.Valid()
  {
    var a, room := |r.Unread()|, r.size - |r.data|;
    && 0 < a < len && len - a <= room
    && var k := Brings(r.fd, r.sock.replies, r.sock.incoming, room);
       0 < k < len - a && Brings(r.fd, r.sock.replies[1..], r.sock.incoming[k..], room - k) == 0
  }

  lemma SecondFill(r: Rx)
    requires r.Valid() && r.Unread() != [] && 0 < Fill(r).1
    ensures Fill(r).0.Valid() && |r.Unread()| < |Fill(r).0.Unread()|
    ensures var room, k := r.size - |r.data|, Fill(r).1;
      Fill(Take(Fill(r).0, |r.Unread()|).0).1 ==
        if k < room then Brings(r.fd, r.sock.replies[1..], r.sock.incoming[k..], room - k) else 0
  {
    hide Fill, Take, Rx.Stream;
    FillGrows(r);
    FillBehindUnread(r);
    var r1 := Fill(r).0;
    TakeKeepsStream(r1, |r.Unread()|);
    FillBehindUnread(Take(r1, |r.Unread()|).0);
  }

  lemma ReadBufferedLeavesIff(r: Rx, len: nat)
    requires r.Valid() && r.Unread() != []
    ensures var (r', out) := ReadBuffered(r, len);
      r'.Valid() && (|out| < len && r'.Unread() != [] <==> LeavesBehind(r, len))
  {
    hide Fill, Take, Drain, Rx.Stream, Rx.Unread;
    ReadBufferedKeepsStream(r, len);
    FillGrows(r);
    FillBehindUnread(r);
    var a := |r.Unread()|;
    if a < len && len - a <= r.size - |r.data| {
      var r1 := Fill(r).0;
      if Fill(r).1 > 0 { SecondFill(r); }
      TakeKeepsStream(r1, if len <= |r1.Unread()| then len else a);
      if |r1.Unread()| < len { DrainLeavesIff(Take(r1, a).0, len - a); }
    } else {
      TakeKeepsStream(r, if len <= a then len else a);
      if a < len { DrainLeavesIff(Take(r, a).0, len - a); }
    }
  }

  /** When a read returns fewer bytes than asked although the buffer has some: exactly when
      there were unread bytes, be it after the fill that an empty buffer gets, the others
      had room, and the receive calls behaved so. */
  lemma ReadLeavesIff(r: Rx, len: nat)
    requires r.Valid()
    ensures var r0 := if r.Unread() == [] && 0 < len then Fill(r).0 else r;
      var (r', out) := Read(r, len);
      r0.Valid() && r'.Valid() && (|out| < len && r'.Unread() != [] <==> LeavesBehind(r0, len))
  {
    hide Fill, ReadBuffered, Rx.Stream, Brings;
    FillGrows(r);
    var r0 := if r.Unread() == [] && 0 < len then Fill(r).0 else r;
    if r0.Unread() != [] && 0 < len { ReadBufferedLeavesIff(r0, len); }
  }

  /** A new buffer on a socket that brings one byte, another one, and then none. */
  function Dripping(size: nat, fd: int, incoming: seq<Byte>): Rx {
    Rx(size, fd, false, [], 0, false, Socket(incoming, [Receives(1), Receives(1), NoData], []))
  }

  lemma FirstDrip(size: nat, fd: int, incoming: seq<Byte>)
    requires 3 <= size && 0 <= fd && 2 <= |incoming|
    ensures Fill(Dripping(size, fd, incoming)).0 ==
      Rx(size, fd, true, incoming[..1], 0, false, Socket(incoming[1..], [Receives(1), NoData], []))
  {
  }

  lemma SecondDrip(r: Rx)
    requires r.Valid() && |r.data| == 1 && r.pos == 0 && 3 <= r.size && 0 <= r.fd && r.sock.incoming != []
    requires r.sock.replies == [Receives(1), NoData]
    ensures LeavesBehind(r, 3)
  {
  }

  /** It happens from a new buffer on: asked for three bytes, a read returns fewer and
      leaves some behind. */
  lemma ShortReadMayLeaveBytes(size: nat, fd: int, incoming: seq<Byte>)
    requires 3 <= size && 0 <= fd && 2 <= |incoming|
    ensures var (r', out) := Read(Dripping(size, fd, incoming), 3);
      |out| < 3 && r'.Valid() && r'.Unread() != []
  {
    hide Fill, Read, LeavesBehind;
    var r := Dripping(size, fd, incoming);
    ReadLeavesIff(r, 3);
    FirstDrip(size, fd, incoming);
    SecondDrip(Fill(r).0);
  }
}
