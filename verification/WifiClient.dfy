/** The TCP client in place: the receive buffer as `fillBuffer`, `read` and `peek`
    update it, and the loop that writes a block to the socket. */
module WifiClient {
  import opened Words
  import opened WifiStream

  class WiFiClientRxBuffer {
    const size: nat
    const fd: int
    var buffer: array?<Byte>
    var pos: nat
    var fill: nat
    var failed: bool
    var sock: Socket

    predicate Valid()
      reads this, buffer
    {
      && pos <= fill <= size
      && (if buffer == null then fill == 0 else buffer.Length == size)
    }

    ghost function View(): (r: Rx)
      requires Valid()
      reads this, buffer
      ensures r.Valid()
    {
      Rx(size, fd, buffer != null, if buffer == null then [] else buffer[..fill], pos, failed, sock)
    }

    constructor (fd: int, size: nat, sock: Socket)
      ensures Valid() && View() == Rx(size, fd, false, [], 0, false, sock) && buffer == null
    {
      this.fd, this.size, this.sock := fd, size, sock;
      buffer, pos, fill, failed := null, 0, 0, false;
    }

    /** Whether the socket reports data. */
    method RAvailable() returns (some: bool)
      modifies `failed, `sock
      ensures if fd < 0 || old(sock.replies) == [] then !some && failed == old(failed) && sock == old(sock)
              else
                var reply := old(sock.replies)[0];
                && (some <==> !reply.IoctlFails? && !reply.NoData?)
                && (failed <==> old(failed) || reply.IoctlFails?)
                && sock == if some then old(sock) else old(sock).(replies := old(sock.replies)[1..])
    {
      if fd < 0 || sock.replies == [] {
        return false;
      }
      some := true;
      match sock.replies[0] {
        case IoctlFails =>
          failed := true;
          some := false;
        case NoData =>
          some := false;
        case _ =>
      }
      if !some {
        sock := sock.(replies := sock.replies[1..]);
      }
    }

    method Store(bytes: seq<Byte>)
      requires Valid() && buffer != null && fill + |bytes| <= size
      modifies this`fill, buffer
      ensures Valid() && fill == old(fill) + |bytes| && buffer[..fill] == old(buffer[..fill]) + bytes
    {
      forall i | 0 <= i < |bytes| { buffer[fill + i] := bytes[i]; }
      fill := fill + |bytes|;
    }

    /** `recv` into the free end of the buffer; -1 with an error code other than "would
        block" sets the failure flag. */
    method Recv() returns (res: int)
      requires Valid() && buffer != null && fd >= 0 && sock.replies != []
      requires !sock.replies[0].IoctlFails? && !sock.replies[0].NoData?
      modifies this`fill, this`failed, this`sock, buffer
      ensures Valid() && View() == Received(old(View()))
      ensures res == if old(sock.replies)[0].Receives? then fill - old(fill) else -1
    {
      var reply := sock.replies[0];
      sock := sock.(replies := sock.replies[1..]);
      match reply {
        case Receives(n) =>
          var k := Min(n, Min(size - fill, |sock.incoming|));
          Store(sock.incoming[..k]);
          sock := sock.(incoming := sock.incoming[k..]);
          res := k;
        case RecvFails =>
          failed := true;
          res := -1;
        case _ =>
          res := -1;
      }
    }

    /** Allocate the buffer if there is none. */
    method MakeBuffer() returns (ok: bool)
      requires Valid()
      modifies `buffer, `failed, `sock
      ensures Valid() && View() == Allocate(old(View())) && ok == (buffer != null)
      ensures buffer == old(buffer) || (old(buffer) == null && fresh(buffer))
    {
      if buffer == null {
        ok := sock.memory == [] || sock.memory[0];
        sock := sock.(memory := if sock.memory == [] then [] else sock.memory[1..]);
        if !ok {
          failed := true;
          return;
        }
        buffer := new Byte[size](_ => 0);
      }
      ok := true;
    }

    method FillBuffer() returns (n: nat)
      requires Valid()
      modifies this, buffer
      ensures Valid() && (View(), n) == Fill(old(View()))
      ensures buffer == old(buffer) || (old(buffer) == null && fresh(buffer))
    {
      hide Allocate, Received;
      ghost var r := View();
      var ok := MakeBuffer();
      if !ok {
        return 0;
      }
      if fill != 0 && pos == fill {
        fill := 0;
        pos := 0;
      }
      assert View() == Rewound(Allocate(r));
      if size <= fill {
        return 0;
      }
      n := Receive();
    }

    /** Receive what the socket reports into a buffer that has room. */
    method Receive() returns (n: nat)
      requires Valid() && buffer != null
      modifies this`fill, this`failed, this`sock, buffer
      ensures Valid() && View() == Received(old(View()))
      ensures n == fill - old(fill)
    {
      ghost var r := View();
      var some := RAvailable();
      if !some {
        assert View().data == r.data;
        return 0;
      }
      assert View() == r;
      var res := Recv();
      if res < 0 {
        return 0;
      }
      return res;
    }

    lemma Waiting()
      requires Valid()
      ensures |View().Unread()| == fill - pos && |View().data| == fill
    {
    }

    /** `s` with `out` written over it at `at`. */
    static function Spliced(s: seq<Byte>, at: nat, out: seq<Byte>): seq<Byte>
      requires at + |out| <= |s|
    {
      s[..at] + out + s[at + |out|..]
    }

    static lemma SplicedNothing(s: seq<Byte>, at: nat)
      requires at <= |s|
      ensures Spliced(s, at, []) == s
    {
    }

    static lemma SplicedTwice(s: seq<Byte>, at: nat, out: seq<Byte>, more: seq<Byte>)
      requires at + |out| + |more| <= |s|
      ensures |Spliced(s, at, out)| == |s|
      ensures Spliced(Spliced(s, at, out), at + |out|, more) == Spliced(s, at, out + more)
    {
    }

    static method Copy(dst: array<Byte>, at: nat, bytes: seq<Byte>)
      requires at + |bytes| <= dst.Length
      modifies dst
      ensures dst[..] == Spliced(old(dst[..]), at, bytes)
    {
      forall i | 0 <= i < |bytes| { dst[at + i] := bytes[i]; }
    }

    /** Copy the next `n` unread bytes, which are `out`. */
    method CopyOut(dst: array<Byte>, at: nat, n: nat) returns (ghost out: seq<Byte>)
      requires Valid() && n <= fill - pos && at + n <= dst.Length && dst != buffer
      modifies `pos, dst
      ensures Valid() && (View(), out) == Take(old(View()), n) && |out| == n
      ensures dst[..] == Spliced(old(dst[..]), at, out)
    {
      out := View().Unread()[..n];
      if n > 0 {
        assert out == buffer[pos..pos + n];
        Copy(dst, at, buffer[pos..pos + n]);
      } else {
        SplicedNothing(dst[..], at);
      }
      assert View() == old(View());
      pos := pos + n;
    }

    /** One round of the loop of `read`: fill, and copy what was asked for. */
    method FillAndCopy(dst: array<Byte>, at: nat, left: nat) returns (got: nat, n: nat, ghost out: seq<Byte>)
      requires Valid() && dst != buffer && at + left <= dst.Length && 0 < left
      modifies this, buffer, dst
      ensures Valid() && n == |out| <= left && got == Fill(old(View())).1
      ensures if got == 0 then n == 0 && View() == Fill(old(View())).0
              else
                var r1 := Fill(old(View())).0;
                r1.Valid() && (View(), out) == Take(r1, Min(left, |r1.Unread()|)) && 0 < n
      ensures dst[..] == Spliced(old(dst[..]), at, out)
      ensures buffer == old(buffer) || (old(buffer) == null && fresh(buffer))
    {
      hide Fill, Take;
      FillGrows(View());
      n, out := 0, [];
      got := FillBuffer();
      SplicedNothing(dst[..], at);
      if got != 0 {
        Waiting();
        n := Min(left, fill - pos);
        out := CopyOut(dst, at, n);
      }
    }

    /** The loop of `read`: it copies `out`. */
    method DrainInto(dst: array<Byte>, at: nat, left: nat) returns (n: nat, ghost out: seq<Byte>)
      requires Valid() && dst != buffer && at + left <= dst.Length
      modifies this, buffer, dst
      ensures Valid() && n == |out| <= left && (View(), out) == Drain(old(View()), left)
      ensures dst[..] == Spliced(old(dst[..]), at, out)
      ensures buffer == old(buffer) || (old(buffer) == null && fresh(buffer))
    {
      hide Fill, Take, Drain, Rx.Unread, Rx.Valid, Spliced;
      n, out := 0, [];
      ghost var r0, before := View(), dst[..];
      ghost var all := Drain(r0, left);
      assert [] + all.1 == all.1;
      SplicedNothing(before, at);
      while n < left
        invariant Valid() && n == |out| <= left && dst != buffer
        invariant buffer == old(buffer) || (old(buffer) == null && fresh(buffer))
        invariant dst[..] == Spliced(before, at, out)
        invariant Drain(View(), left - n).0 == all.0 && out + Drain(View(), left - n).1 == all.1
        decreases left - n
      {
        DrainRound(View(), left - n);
        var got, k, more := FillAndCopy(dst, at + n, left - n);
        SplicedTwice(before, at, out, more);
        if got == 0 {
          assert out + [] == out + more == out;
          return;
        }
        Assoc(out, more, Drain(View(), left - n - k).1);
        out := out + more;
        n := n + k;
      }
      DrainNothing(View());
      assert out + [] == out;
    }

    static lemma DrainNothing(r: Rx)
      requires r.Valid()
      ensures Drain(r, 0) == (r, [])
    {
    }

    static lemma Assoc(a: seq<Byte>, b: seq<Byte>, c: seq<Byte>)
      ensures (a + b) + c == a + (b + c)
    {
    }

    static lemma DrainRound(r: Rx, left: nat)
      requires r.Valid() && 0 < left
      ensures Fill(r).0.Valid()
      ensures Fill(r).1 == 0 ==> Drain(r, left) == (Fill(r).0, [])
      ensures Fill(r).1 != 0 ==>
        var r1 := Fill(r).0;
        var (r2, out) := Take(r1, Min(left, |r1.Unread()|));
        r2.Valid() && |out| <= left && Drain(r, left) == (Drain(r2, left - |out|).0, out + Drain(r2, left - |out|).1)
    {
      FillGrows(r);
    }

    /** `read` once there are unread bytes. */
    method ReadFromBuffer(dst: array<Byte>, len: nat) returns (n: nat, ghost out: seq<Byte>)
      requires Valid() && dst != buffer && len <= dst.Length && pos < fill && 0 < len
      modifies this, buffer, dst
      ensures Valid() && 0 < n == |out| <= len && (View(), out) == ReadBuffered(old(View()), len)
      ensures dst[..] == Spliced(old(dst[..]), 0, out)
    {
      hide Fill, Take, Drain, Rx.Unread, Rx.Valid, Spliced;
      FillGrows(View());
      Waiting();
      var a := fill - pos;
      if a < len && len - a <= size - fill {
        var got := FillBuffer();
      }
      Waiting();
      if len <= fill - pos {
        out := CopyOut(dst, 0, len);
        return len, out;
      }
      out := CopyOut(dst, 0, a);
      ghost var more;
      n, more := DrainInto(dst, a, len - a);
      SplicedTwice(old(dst[..]), 0, out, more);
      return a + n, out + more;
    }

    /** `read` of `len` bytes into `dst`. */
    method ReadBytes(dst: array?<Byte>, len: nat) returns (ret: int)
      requires Valid() && (dst != null ==> dst != buffer && len <= dst.Length)
      modifies this, buffer, dst
      ensures Valid()
      ensures dst == null || len == 0 ==> View() == old(View()) && ret == if failed then -1 else 0
      ensures dst != null && 0 < len ==>
        var (r', out) := Read(old(View()), len);
        && View() == r' && |out| <= len
        && dst[..] == Spliced(old(dst[..]), 0, out)
        && ret == if out != [] then |out| else if failed then -1 else 0
    {
      if dst == null || len == 0 {
        return if failed then -1 else 0;
      }
      hide Fill, ReadBuffered, Spliced;
      ghost var r := View();
      FillGrows(r);
      SplicedNothing(dst[..], 0);
      Waiting();
      if pos == fill {
        var n := FillBuffer();
        if n == 0 {
          assert View().Unread() == [];
          return if failed then -1 else 0;
        }
      }
      Waiting();
      ghost var out;
      ret, out := ReadFromBuffer(dst, len);
    }

    method PeekByte() returns (b: int)
      requires Valid()
      modifies this, buffer
      ensures Valid() && (View(), b) == Peek(old(View()))
    {
      hide Fill;
      ghost var r := View();
      FillGrows(r);
      Waiting();
      if pos == fill {
        var n := FillBuffer();
        if n == 0 {
          return -1;
        }
      }
      return buffer[pos];
    }
  }

  // ---------------------------------------------------------------- write

  const WIFI_CLIENT_MAX_WRITE_RETRY := 10

  /** What `select` and, if the socket is ready, `send` do in one round of the loop. */
  datatype Attempt = SelectFails | NotReady | Busy | Breaks | Accepts(n: nat)

  /** How a write ended. */
  datatype Outcome = NotConnected | Complete | GaveUp | Broken | SelectFailed

  /** The bytes accepted in the first `k` rounds of writing `size` bytes. */
  function Total(attempt: nat -> Attempt, k: nat, size: nat): (t: nat)
    ensures t <= size
  {
    if k == 0 then 0
    else
      var before := Total(attempt, k - 1, size);
      if attempt(k - 1).Accepts? then before + Min(attempt(k - 1).n, size - before) else before
  }

  predicate Fruitless(attempt: nat -> Attempt, k: nat, size: nat) {
    !attempt(k).SelectFails? && !attempt(k).Breaks? && Total(attempt, k + 1, size) == Total(attempt, k, size)
  }

  /** The ten rounds before round `j` were fruitless. */
  predicate Hopeless(attempt: nat -> Attempt, j: nat, size: nat) {
    WIFI_CLIENT_MAX_WRITE_RETRY <= j
    && forall k | j - WIFI_CLIENT_MAX_WRITE_RETRY <= k < j :: Fruitless(attempt, k, size)
  }

  /** After `n` rounds there is no reason to stop: no call failed, bytes are left, and ten
      fruitless rounds in a row have not occurred. */
  predicate GoesOn(attempt: nat -> Attempt, n: nat, size: nat) {
    && (forall k | 0 <= k < n :: !attempt(k).SelectFails? && !attempt(k).Breaks?)
    && (size == 0 || Total(attempt, n, size) < size)
    && forall j | 0 <= j <= n :: !Hopeless(attempt, j, size)
  }

  lemma RoundAdds(attempt: nat -> Attempt, n: nat, size: nat)
    ensures var t := Total(attempt, n, size);
      && Total(attempt, n + 1, size) == t + (if attempt(n).Accepts? then Min(attempt(n).n, size - t) else 0)
      && (Fruitless(attempt, n, size) <==>
            !attempt(n).SelectFails? && !attempt(n).Breaks? && Total(attempt, n + 1, size) == t)
  {
  }

  /** Where the loop is: `total` bytes are accepted, `rounds` rounds are done, `retry` may
      follow without a byte, and the latest fruitful one was the one before `last`. */
  predicate Trying(attempt: nat -> Attempt, size: nat, total: nat, rounds: nat, retry: nat, last: nat) {
    && total == Total(attempt, rounds, size) && (size == 0 || total < size)
    && retry <= 10 && rounds + retry == last + 10 && rounds <= 10 * (total + 1) - retry
    && (forall k | last <= k < rounds :: Fruitless(attempt, k, size))
    && (0 < last ==> !Fruitless(attempt, last - 1, size))
    && GoesOn(attempt, if retry == 0 then rounds - 1 else rounds, size)
  }

  lemma TriesFirst(attempt: nat -> Attempt, size: nat)
    ensures Trying(attempt, size, 0, 0, 10, 0) && Total(attempt, 0, size) == 0
  {
  }

  /** `last` rounds were done when the latest fruitful one ended, or 0. */
  lemma GoesOnNext(attempt: nat -> Attempt, n: nat, last: nat, size: nat)
    requires GoesOn(attempt, n, size) && !attempt(n).SelectFails? && !attempt(n).Breaks?
    requires size == 0 || Total(attempt, n + 1, size) < size
    requires last <= n + 1 < last + 10 && (0 < last ==> !Fruitless(attempt, last - 1, size))
    ensures GoesOn(attempt, n + 1, size)
  {
  }

  /** A round without a byte, or with some but not the last one. */
  lemma TriesOn(attempt: nat -> Attempt, size: nat, total: nat, rounds: nat, retry: nat, last: nat)
    requires Trying(attempt, size, total, rounds, retry, last) && 0 < retry
    requires !attempt(rounds).SelectFails? && !attempt(rounds).Breaks?
    ensures var n := if attempt(rounds).Accepts? then Min(attempt(rounds).n, size - total) else 0;
      && (n == 0 ==> Trying(attempt, size, total, rounds + 1, retry - 1, last))
      && (0 < n && total + n < size ==> Trying(attempt, size, total + n, rounds + 1, 10, rounds + 1))
      && (0 < n && total + n == size ==> Total(attempt, rounds + 1, size) == size)
  {
    hide Total, Fruitless, Hopeless, GoesOn;
    RoundAdds(attempt, rounds, size);
    var t := Total(attempt, rounds + 1, size);
    if t == total {
      if 1 < retry { GoesOnNext(attempt, rounds, last, size); }
    } else if t < size {
      GoesOnNext(attempt, rounds, rounds + 1, size);
    }
  }

  lemma TriesEnd(attempt: nat -> Attempt, size: nat, total: nat, rounds: nat, retry: nat, last: nat)
    requires Trying(attempt, size, total, rounds, retry, last)
    ensures retry == 0 ==> 0 < rounds && GoesOn(attempt, rounds - 1, size) && Hopeless(attempt, rounds, size)
    ensures 0 < retry ==> GoesOn(attempt, rounds, size)
    ensures attempt(rounds).SelectFails? || attempt(rounds).Breaks? ==> Total(attempt, rounds + 1, size) == total
    ensures total == Total(attempt, rounds, size) && (size == 0 || total < size)
    ensures rounds + (if retry == 0 then 0 else 1) <= 10 * if size == 0 then 1 else size
  {
    hide GoesOn;
  }

  lemma Sliced(buf: seq<Byte>, n: nat, k: nat)
    requires n + k <= |buf|
    ensures buf[..n] + buf[n..][..k] == buf[..n + k] && buf[n..][k..] == buf[n + k..]
  {
  }

  method Write(connected: bool, fd: int, buf: seq<Byte>, attempt: nat -> Attempt)
    returns (ret: nat, accepted: seq<Byte>, rounds: nat, outcome: Outcome)
    ensures outcome == NotConnected <==> !connected || fd < 0
    ensures outcome == NotConnected ==> rounds == 0
    ensures accepted <= buf && |accepted| == Total(attempt, rounds, |buf|)
    ensures ret == if outcome == SelectFailed then 0 else |accepted|
    ensures rounds <= 10 * if buf == [] then 1 else |buf|
    ensures outcome == Complete ==>
      0 < rounds && accepted == buf != [] && !attempt(rounds - 1).SelectFails? && !attempt(rounds - 1).Breaks?
    ensures outcome == Broken ==> 0 < rounds && attempt(rounds - 1) == Breaks
    ensures outcome == SelectFailed ==> 0 < rounds && attempt(rounds - 1) == SelectFails
    ensures outcome == GaveUp ==> 0 < rounds && Hopeless(attempt, rounds, |buf|)
    ensures outcome == Broken || outcome == SelectFailed || outcome == GaveUp ==> buf == [] || accepted != buf
    ensures 0 < rounds ==> GoesOn(attempt, rounds - 1, |buf|)
  {
    hide Trying, GoesOn, Total, Hopeless;
    ghost var last := 0;
    var retry := WIFI_CLIENT_MAX_WRITE_RETRY;
    ret, accepted, rounds, outcome := 0, [], 0, GaveUp;
    TriesFirst(attempt, |buf|);
    if !connected || fd < 0 {
      return 0, [], 0, NotConnected;
    }
    var rest := buf;
    var total := 0;
    while retry > 0
      invariant 0 <= retry && 0 <= total <= |buf| && outcome == GaveUp
      invariant accepted == buf[..total] && rest == buf[total..]
      invariant Trying(attempt, |buf|, total, rounds, retry, last)
      decreases |buf| - total, retry
    {
      TriesEnd(attempt, |buf|, total, rounds, retry, last);
      var answer := attempt(rounds);
      if !answer.SelectFails? && !answer.Breaks? { TriesOn(attempt, |buf|, total, rounds, retry, last); }
      retry := retry - 1;
      rounds := rounds + 1;
      match answer {
        case SelectFails =>
          return 0, accepted, rounds, SelectFailed;
        case NotReady =>
        case Busy =>
        case Breaks =>
          outcome := Broken;
          break;
        case Accepts(n) =>
          var res := Min(n, |rest|);
          if res > 0 {
            Sliced(buf, total, res);
            accepted := accepted + rest[..res];
            total := total + res;
            if total >= |buf| {
              outcome := Complete;
              break;
            }
            rest := rest[res..];
            retry := WIFI_CLIENT_MAX_WRITE_RETRY;
            last := rounds;
          }
      }
    }
    if outcome == GaveUp { TriesEnd(attempt, |buf|, total, rounds, retry, last); }
    ret := total;
  }
}
