/**
 * Model of src/io.cpp: the reference-counted socket handle and the buffered
 * line reader that sits on top of a socket.
 *
 * The operating system is represented by two objects: `Os`, which records
 * every `close` call, and `Stream`, the bytes the peer will still deliver,
 * in the pieces successive `read` calls return them.
 */
module IO {

  // ---------------------------------------------------------------------
  // The operating system's side

  /** The descriptors `close` has been called on, in call order. */
  class Os {
    var closed: seq<int>

    constructor ()
      ensures closed == []
    {
      closed := [];
    }

    /** close(fd). */
    method Close(fd: int)
      modifies this
      ensures closed == old(closed) + [fd]
    {
      closed := closed + [fd];
    }
  }

  // ---------------------------------------------------------------------
  // Socket and its shared control block

  /**
   * Socket::CtlBlock: the count of Socket values that share one descriptor.
   * The ghost fields name that descriptor and those Socket values.
   */
  class CtlBlock {
    var refCnt: nat
    ghost var fd: int
    ghost var owners: set<Socket>

    /** The count is the number of sharers, and each sharer holds this block. */
    ghost predicate Valid()
      reads this, owners
    {
      && refCnt == |owners|
      && fd >= 0
      && forall s :: s in owners ==> s.ctl == this
    }

    /** CtlBlock(): ref_cnt starts at 1; the sharer is registered by the Socket constructor. */
    constructor (ghost fd: int)
      ensures refCnt == 1 && this.fd == fd && owners == {}
    {
      refCnt := 1;
      this.fd := fd;
      owners := {};
    }

    /**
     * Hands a sharer's place to another socket that now holds this block;
     * the count stays as it is.
     */
    ghost method Exchange(leaving: Socket, joining: Socket)
      requires leaving in owners && joining !in owners
      requires refCnt == |owners| && fd >= 0
      requires joining.ctl == this
      requires forall s :: s in owners && s != leaving ==> s.ctl == this
      modifies this
      ensures owners == old(owners) - {leaving} + {joining} && Valid()
      ensures refCnt == old(refCnt) && fd == old(fd)
    {
      ExchangeSharer(owners, leaving, joining);
      owners := owners - {leaving} + {joining};
    }
  }

  /** IO::Socket: a descriptor and the control block shared by all its copies. */
  class Socket {
    var fd: int
    var ctl: CtlBlock?

    /** A socket holds a control block exactly when it holds a descriptor, and is counted by it. */
    ghost predicate Valid()
      reads this, ctl, if ctl != null then ctl.owners else {}
    {
      && (fd >= 0 <==> ctl != null)
      && (ctl != null ==> this in ctl.owners && ctl.fd == fd && ctl.Valid())
    }

    /** Socket(): no descriptor, no control block. */
    constructor Empty()
      ensures fd == -1 && ctl == null && Valid()
    {
      fd := -1;
      ctl := null;
    }

    /** Socket(fd): a new control block with count 1 exactly when fd >= 0. */
    constructor (fd: int)
      ensures this.fd == fd && Valid()
      ensures fd >= 0 ==> ctl != null && fresh(ctl) && ctl.refCnt == 1 && ctl.owners == {this}
      ensures fd < 0 ==> ctl == null
    {
      var b: CtlBlock? := null;
      if fd >= 0 {
        b := new CtlBlock(fd);
      }
      this.fd := fd;
      ctl := b;
      new;
      if b != null {
        b.owners := {this};
      }
    }

    /** operator bool: the socket holds a descriptor, and so a control block. */
    function IsOpen(): (b: bool)
      reads this, ctl, if ctl != null then ctl.owners else {}
      requires Valid()
      ensures b <==> ctl != null
    {
      fd >= 0
    }

    /** Socket(const Socket &): shares the descriptor and counts one more sharer. */
    constructor Copy(rhs: Socket)
      requires rhs.Valid()
      modifies rhs.ctl
      ensures Valid() && rhs.Valid()
      ensures fd == rhs.fd && ctl == rhs.ctl && rhs.fd == old(rhs.fd) && rhs.ctl == old(rhs.ctl)
      ensures forall s: Socket :: old(allocated(s)) && old(s.Valid()) ==> s.Valid()
      ensures var b := old(rhs.ctl);
        b != null ==> b.refCnt == old(b.refCnt) + 1 && b.owners == old(b.owners) + {this}
    {
      fd := rhs.fd;
      ctl := rhs.ctl;
      new;
      if ctl != null {
        ctl.refCnt := ctl.refCnt + 1;
        ctl.owners := ctl.owners + {this};
      }
    }

    /** Socket(Socket &&): takes over the descriptor and block; the source is left empty; the count is unchanged. */
    constructor Move(rhs: Socket)
      requires rhs.Valid()
      modifies rhs, rhs.ctl
      ensures Valid() && rhs.Valid()
      ensures fd == old(rhs.fd) && ctl == old(rhs.ctl) && rhs.fd == -1 && rhs.ctl == null
      ensures forall s: Socket :: old(allocated(s)) && s != rhs && old(s.Valid()) ==> s.Valid()
      ensures var b := old(rhs.ctl);
        b != null ==> b.refCnt == old(b.refCnt) && b.owners == old(b.owners) - {rhs} + {this}
    {
      fd := rhs.fd;
      ctl := rhs.ctl;
      new;
      rhs.fd := -1;
      rhs.ctl := null;
      if ctl != null {
        ctl.owners := ctl.owners - {rhs} + {this};
      }
    }

    /** Swap: exchanges descriptors and blocks; no count changes. */
    method Swap(other: Socket)
      requires this != other && Valid() && other.Valid()
      modifies this, other, ctl, other.ctl
      ensures Valid() && other.Valid()
      ensures fd == old(other.fd) && ctl == old(other.ctl) && other.fd == old(fd) && other.ctl == old(ctl)
      ensures var a, b := old(ctl), old(other.ctl);
        && (a != null ==> a.refCnt == old(a.refCnt))
        && (b != null ==> b.refCnt == old(b.refCnt))
        && (a == b && a != null ==> a.owners == old(a.owners))
        && (a != b && a != null ==> a.owners == old(a.owners) - {this} + {other})
        && (a != b && b != null ==> b.owners == old(b.owners) - {other} + {this})
      ensures forall s: Socket :: old(allocated(s)) && s != this && s != other && old(s.Valid()) ==> s.Valid()
    {
      var a, b := ctl, other.ctl;
      fd, other.fd := other.fd, fd;
      ctl, other.ctl := b, a;
      if a != b {
        if a != null {
          a.Exchange(this, other);
        }
        if b != null {
          b.Exchange(other, this);
        }
      }
      forall s: Socket | old(allocated(s)) && s != this && s != other && old(s.Valid())
        ensures s.Valid()
      {
        var c := s.ctl;
        if c != null && c != a && c != b {
          assert forall u :: u in old(c.owners) ==> u != this && u != other;
          SharersKept(s);
        }
      }
    }

    /**
     * ~Socket: one sharer fewer; the last one closes the descriptor and
     * frees the block. A socket without a descriptor does nothing.
     */
    method Destroy(os: Os)
      requires Valid()
      modifies this, ctl, os
      ensures old(ctl) == null ==> fd == old(fd) && ctl == null && os.closed == old(os.closed)
      ensures var a := old(ctl);
        a != null ==>
          && a.owners == old(a.owners) - {this}
          && a.refCnt == old(a.refCnt) - 1
          && (old(a.refCnt) == 1 ==> os.closed == old(os.closed) + [old(fd)] && fd == -1 && ctl == null)
          && (old(a.refCnt) > 1 ==> os.closed == old(os.closed) && fd == old(fd) && ctl == a && a.Valid())
      ensures forall s: Socket :: old(allocated(s)) && s != this && old(s.Valid()) ==> s.Valid()
    {
      if fd >= 0 {
        ctl.refCnt := ctl.refCnt - 1;
        ctl.owners := ctl.owners - {this};
        if ctl.refCnt == 0 {
          os.Close(fd);
          fd := -1;
          ctl := null;
        }
      }
    }

    /** operator =(const Socket &): copy and swap; the old value is destroyed; self-assignment does nothing. */
    method Assign(rhs: Socket, os: Os)
      requires Valid() && rhs.Valid()
      modifies this, ctl, rhs.ctl, os
      ensures Valid() && rhs.Valid()
      ensures fd == old(rhs.fd) && ctl == old(rhs.ctl) && rhs.fd == old(rhs.fd) && rhs.ctl == old(rhs.ctl)
      ensures var a, b := old(ctl), old(rhs.ctl);
        (this == rhs || a == b) ==>
          && os.closed == old(os.closed)
          && (a != null ==> a.refCnt == old(a.refCnt) && a.owners == old(a.owners))
      ensures var a, b := old(ctl), old(rhs.ctl);
        (this != rhs && a != b) ==>
          && (b != null ==> b.refCnt == old(b.refCnt) + 1 && b.owners == old(b.owners) + {this})
          && (a != null ==> a.refCnt == old(a.refCnt) - 1 && a.owners == old(a.owners) - {this})
          && os.closed == old(os.closed) + (if a != null && old(a.refCnt) == 1 then [old(fd)] else [])
      ensures forall s: Socket :: old(allocated(s)) && s != this && old(s.Valid()) ==> s.Valid()
    {
      if this != rhs {
        var tmp := new Socket.Copy(rhs);
        Swap(tmp);
        tmp.Destroy(os);
      }
    }

    /** operator =(Socket &&): move and swap; the old value is destroyed; self-assignment does nothing. */
    method MoveAssign(rhs: Socket, os: Os)
      requires Valid() && rhs.Valid()
      modifies this, rhs, ctl, rhs.ctl, os
      ensures Valid() && rhs.Valid()
      ensures this == rhs ==> fd == old(fd) && ctl == old(ctl) && os.closed == old(os.closed)
      ensures this == rhs && ctl != null ==> ctl.refCnt == old(ctl.refCnt) && ctl.owners == old(ctl.owners)
      ensures this != rhs ==> fd == old(rhs.fd) && ctl == old(rhs.ctl) && rhs.fd == -1 && rhs.ctl == null
      ensures var a, b := old(ctl), old(rhs.ctl);
        (this != rhs && a != b) ==>
          && (b != null ==> b.refCnt == old(b.refCnt) && b.owners == old(b.owners) - {rhs} + {this})
          && (a != null ==> a.refCnt == old(a.refCnt) - 1 && a.owners == old(a.owners) - {this})
          && os.closed == old(os.closed) + (if a != null && old(a.refCnt) == 1 then [old(fd)] else [])
      ensures var a := old(ctl);
        (this != rhs && a == old(rhs.ctl) && a != null) ==>
          a.refCnt == old(a.refCnt) - 1 && a.owners == old(a.owners) - {rhs} && os.closed == old(os.closed)
      ensures forall s: Socket :: old(allocated(s)) && s != this && s != rhs && old(s.Valid()) ==> s.Valid()
    {
      if this != rhs {
        var tmp := new Socket.Move(rhs);
        Swap(tmp);
        tmp.Destroy(os);
      }
    }
  }

  /**
   * A socket stays valid when it, its block and the block's sharers keep
   * the fields its validity depends on.
   */
  twostate lemma SharersKept(s: Socket)
    requires old(s.Valid()) && old(s.ctl) != null
    requires s.fd == old(s.fd) && s.ctl == old(s.ctl)
    requires s.ctl.fd == old(s.ctl.fd) && s.ctl.refCnt == old(s.ctl.refCnt) && s.ctl.owners == old(s.ctl.owners)
    requires forall u :: u in old(s.ctl.owners) ==> u.ctl == old(u.ctl)
    ensures s.Valid()
  {
  }

  /** Replacing one sharer by a newcomer keeps the number of sharers. */
  lemma ExchangeSharer(owners: set<Socket>, leaving: Socket, joining: Socket)
    requires leaving in owners && joining !in owners
    ensures |owners - {leaving} + {joining}| == |owners|
  {
    assert owners - {leaving} + {joining} == (owners - {leaving}) + {joining};
  }

  /**
   * Two handles on one descriptor: destroying the first leaves the close log
   * as it was (`afterFirst`); destroying the second closes the descriptor once.
   */
  method CloseOnLastHandle(fd: int, os: Os) returns (ghost afterFirst: seq<int>)
    modifies os
    ensures afterFirst == old(os.closed)
    ensures os.closed == afterFirst + (if fd >= 0 then [fd] else [])
  {
    var s := new Socket(fd);
    var t := new Socket.Copy(s);
    s.Destroy(os);
    afterFirst := os.closed;
    t.Destroy(os);
  }

  // ---------------------------------------------------------------------
  // Bytes, lines and the connection's inbound stream

  /** One octet as `read` stores it; the model keeps octets in 0..255. */
  type Byte = b: int | 0 <= b < 256

  /** sizeof(BufReader::Impl::buf). */
  const BufSize: nat := 1024

  /** The value of '\n'. */
  const Newline: Byte := 10

  /** The string that `line += c` builds from these octets, one char each. */
  function Chars(bs: seq<Byte>): (s: string)
    ensures |s| == |bs|
    ensures forall i :: 0 <= i < |bs| ==> s[i] as int == bs[i]
  {
    seq(|bs|, i requires 0 <= i < |bs| => bs[i] as char)
  }

  lemma CharsSnoc(bs: seq<Byte>, b: Byte)
    ensures Chars(bs + [b]) == Chars(bs) + [b as char]
  {
  }

  /** The octets of the pieces, in order. */
  function Flatten(chunks: seq<seq<Byte>>): seq<Byte>
  {
    if chunks == [] then [] else chunks[0] + Flatten(chunks[1..])
  }

  /**
   * What ReadLine delivers from the octets `s` still to be read: everything
   * up to and including the first newline, or all of `s` when it has none.
   */
  function LineOf(s: seq<Byte>): (l: seq<Byte>)
    ensures |l| <= |s| && l == s[..|l|]
    ensures forall i :: 0 <= i < |l| - 1 ==> l[i] != Newline
    ensures |l| < |s| ==> |l| >= 1 && l[|l| - 1] == Newline
    ensures l == [] <==> s == []
  {
    if s == [] then []
    else if s[0] == Newline then [s[0]]
    else [s[0]] + LineOf(s[1..])
  }

  /** A line that ends at a newline is exactly the prefix up to it, whatever follows. */
  lemma {:induction false} LineOfTerminated(line: seq<Byte>, rest: seq<Byte>)
    requires Newline !in line
    ensures LineOf(line + [Newline] + rest) == line + [Newline]
  {
    var s := line + [Newline] + rest;
    if line != [] {
      assert s[0] == line[0] && s[1..] == line[1..] + [Newline] + rest;
      LineOfTerminated(line[1..], rest);
      assert [line[0]] + line[1..] == line;
    }
  }

  /**
   * One step of ReadLine on plain values: when the line read so far is
   * `consumed` and the next octet is `b`, the line either ends with `b` or
   * goes on with the line of what follows.
   */
  lemma LineOfStep(all: seq<Byte>, consumed: seq<Byte>, b: Byte, rest: seq<Byte>)
    requires all == consumed + ([b] + rest)
    requires LineOf(all) == consumed + LineOf([b] + rest)
    ensures all == (consumed + [b]) + rest
    ensures b == Newline ==> LineOf(all) == consumed + [b]
    ensures b != Newline ==> LineOf(all) == (consumed + [b]) + LineOf(rest)
  {
    assert ([b] + rest)[0] == b && ([b] + rest)[1..] == rest;
  }

  /**
   * The octets a peer will still send on a connection, in the pieces that
   * successive `read` calls return. `read` returns 0 only at end of stream,
   * so every piece holds between 1 and BufSize octets.
   */
  class Stream {
    var chunks: seq<seq<Byte>>

    ghost predicate Valid()
      reads this
    {
      forall i :: 0 <= i < |chunks| ==> 1 <= |chunks[i]| <= BufSize
    }

    constructor (chunks: seq<seq<Byte>>)
      requires forall i :: 0 <= i < |chunks| ==> 1 <= |chunks[i]| <= BufSize
      ensures Valid() && this.chunks == chunks
    {
      this.chunks := chunks;
    }

    /** read(fd, buf, sizeof buf): the next piece is copied to the front of `buf`; 0 at end of stream. */
    method Read(buf: array<Byte>) returns (n: int)
      requires Valid() && buf.Length == BufSize
      modifies this, buf
      ensures Valid()
      ensures old(chunks) == [] ==> n == 0 && chunks == [] && buf[..] == old(buf[..])
      ensures old(chunks) != [] ==>
        && n == |old(chunks)[0]|
        && buf[..n] == old(chunks)[0]
        && chunks == old(chunks)[1..]
    {
      if chunks == [] {
        n := 0;
      } else {
        var c := chunks[0];
        n := |c|;
        forall i | 0 <= i < n {
          buf[i] := c[i];
        }
        chunks := chunks[1..];
      }
    }
  }

  /**
   * IO::BufReader: a 1024-octet buffer in front of a stream. `cur` is the
   * next unread slot and `remaining` the number of unread octets after it.
   * The ghost field `filled` is the count the last refill returned, and
   * `pending` the octets still to be delivered: the unread part of the
   * buffer, then the rest of the stream.
   */
  class BufReader {
    const src: Stream
    const buf: array<Byte>
    var cur: int
    var remaining: int
    ghost var filled: nat
    ghost var pending: seq<Byte>

    ghost predicate Valid()
      reads this, buf, src
    {
      && buf.Length == BufSize
      && 0 <= cur && 0 <= remaining
      && cur + remaining == filled <= BufSize
      && src.Valid()
      && pending == buf[cur..cur + remaining] + Flatten(src.chunks)
    }

    /** BufReader(s): an empty buffer, cur = remaining = 0. */
    constructor (s: Stream)
      requires s.Valid()
      ensures Valid() && src == s && fresh(buf)
      ensures cur == 0 && remaining == 0 && pending == Flatten(s.chunks)
    {
      src := s;
      buf := new Byte[BufSize];
      cur, remaining := 0, 0;
      filled := 0;
      pending := Flatten(s.chunks);
    }

    /**
     * The refill step of ReadChar, taken when the buffer is used up: one
     * `read`; on success reading restarts at the front of the buffer, on
     * end of stream `cur` is left where it was.
     */
    method Refill() returns (ok: bool)
      requires Valid() && remaining == 0
      modifies this, buf, src
      ensures Valid() && pending == old(pending)
      ensures ok <==> pending != []
      ensures ok ==> cur == 0 && remaining == filled >= 1
      ensures !ok ==> cur == old(cur) && remaining == 0 && src.chunks == []
    {
      assert pending == Flatten(src.chunks);
      remaining := src.Read(buf);
      if remaining > 0 {
        cur := 0;
        filled := remaining;
        assert buf[cur..cur + remaining] == old(src.chunks)[0];
        ok := true;
      } else {
        ok := false;
      }
    }

    /**
     * ReadChar: the next octet, or -1 at end of stream. `read` is called only
     * when the buffer is used up.
     */
    method ReadChar() returns (c: int)
      requires Valid()
      modifies this, buf, src
      ensures Valid()
      ensures old(pending) == [] ==> c == -1 && pending == [] && cur == old(cur)
      ensures old(pending) != [] ==> 0 <= c < 256 && old(pending) == [c as Byte] + pending
      ensures old(remaining) > 0 ==>
        && src.chunks == old(src.chunks)
        && cur == old(cur) + 1 && remaining == old(remaining) - 1
      ensures old(remaining) == 0 && c >= 0 ==> cur == 1 && remaining == filled - 1
    {
      if remaining == 0 {
        var ok := Refill();
        if !ok {
          return -1;
        }
      }
      ghost var rest := buf[cur + 1..cur + remaining] + Flatten(src.chunks);
      assert buf[cur..cur + remaining] == [buf[cur]] + buf[cur + 1..cur + remaining];
      assert pending == [buf[cur]] + rest;
      remaining := remaining - 1;
      c := buf[cur];
      cur := cur + 1;
      pending := rest;
    }

    /**
     * ReadLine: octets up to and including the first newline, or up to end
     * of stream; the rest stays pending for later calls.
     */
    method ReadLine() returns (line: string)
      requires Valid()
      modifies this, buf, src
      ensures Valid()
      ensures line == Chars(LineOf(old(pending)))
      ensures pending == old(pending)[|LineOf(old(pending))|..]
    {
      line := [];
      ghost var all := pending;
      ghost var consumed: seq<Byte> := [];
      while true
        invariant Valid()
        invariant all == consumed + pending
        invariant LineOf(all) == consumed + LineOf(pending)
        invariant line == Chars(consumed)
        decreases |pending|
      {
        var c := ReadChar();
        if c < 0 {
          assert LineOf(all) == consumed;
          break;
        }
        var b: Byte := c;
        LineOfStep(all, consumed, b, pending);
        CharsSnoc(consumed, b);
        line := line + [b as char];
        consumed := consumed + [b];
        if c == 10 {
          assert LineOf(all) == consumed;
          break;
        }
      }
      assert |LineOf(all)| == |consumed|;
    }
  }
}
