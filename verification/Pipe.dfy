/** kernel/pipe.c: a ring buffer of PIPESIZE bytes with two 32-bit counters that wrap. Each method is
  what one process does between taking p->lock and releasing it or going to sleep, so any sequence
  of calls is an interleaving of readers, writers and closes. */
module Pipe {
  import opened Waits

  const WRAP: nat := 0x1_0000_0000

  type byte = x: int | 0 <= x < 256
  type uint32 = x: int | 0 <= x < 0x1_0000_0000

  /** The wrap-around of a counter does not disturb the position in the ring: PIPESIZE divides 2^32. */
  lemma RingPosition(total: nat)
    ensures total % WRAP % PIPESIZE == total % PIPESIZE
    ensures (total % WRAP + 1) % WRAP == (total + 1) % WRAP
  {
    assert total == total / WRAP * WRAP + total % WRAP;
    assert WRAP == PIPESIZE * 0x80_0000;
    assert total == PIPESIZE * (0x80_0000 * (total / WRAP)) + total % WRAP;
    ModAdd(0x80_0000 * (total / WRAP), total % WRAP);
    if total % WRAP + 1 == WRAP {
      assert total + 1 == (total / WRAP + 1) * WRAP;
    }
  }

  lemma {:induction false} ModAdd(q: nat, r: nat)
    ensures (PIPESIZE * q + r) % PIPESIZE == r % PIPESIZE
  {
    if q > 0 { ModAdd(q - 1, r); }
  }

  /** Two counts less than a ring apart are the same exactly when their counters agree, and a ring
    apart exactly when the counters say full. */
  lemma CountersTell(read: nat, written: nat)
    requires read <= written <= read + PIPESIZE
    ensures read % WRAP == written % WRAP <==> read == written
    ensures written % WRAP == (read % WRAP + PIPESIZE) % WRAP <==> written == read + PIPESIZE
  {
    var d := written - read;
    var r := read % WRAP;
    assert read == read / WRAP * WRAP + r;
    if r + d < WRAP {
      assert written == read / WRAP * WRAP + (r + d);
      ModIs(read / WRAP, r + d);
    } else {
      assert written == (read / WRAP + 1) * WRAP + (r + d - WRAP);
      ModIs(read / WRAP + 1, r + d - WRAP);
    }
  }

  lemma ModIs(q: nat, r: nat)
    requires r < WRAP
    ensures (q * WRAP + r) % WRAP == r
  {
  }

  /** Two ring positions agree only for counts a multiple of the size apart. */
  lemma RingDistinct(i: nat, j: nat)
    requires i < j < i + PIPESIZE
    ensures i % PIPESIZE != j % PIPESIZE
  {
  }

  /** A step of pipewrite as an operation on the monitor of Waits: only a failing one wakes nobody. */
  function WriteOp(r: WriteResult, k: nat): PipeOp {
    if r.Failed? then KilledAppend(k) else PipeOp.Append(k)
  }

  function One(b: bool): nat {
    if b then 1 else 0
  }

  datatype WriteResult = Done | Failed | MustSleep
  datatype ReadResult = Got(bytes: seq<byte>) | Killed | Wait

  class Pipe {
    const data: array<byte>
    var nread: uint32
    var nwrite: uint32
    var readopen: bool
    var writeopen: bool
    ghost var written: seq<byte>   // every byte ever appended, in order
    ghost var delivered: seq<byte> // every byte ever read, in order
    ghost var taken: nat           // how many bytes have been read
    ghost var readerCalls: nat     // calls of wakeup(&p->nread)
    ghost var writerCalls: nat     // calls of wakeup(&p->nwrite)

    /** First in, first out: what has been read is a prefix of what has been written, and the ring
      holds the rest, at most PIPESIZE bytes. The counters are the unbounded counts modulo 2^32. */
    ghost predicate Valid()
      reads this`nread, this`nwrite, this`written, this`delivered, this`taken, data
    {
      && data.Length == PIPESIZE
      && taken <= |written| <= taken + PIPESIZE
      && delivered == written[..taken]
      && nread == taken % WRAP && nwrite == |written| % WRAP
      && forall k :: taken <= k < |written| ==> data[k % PIPESIZE] == written[k]
    }

    ghost function InFlight(): nat
      requires Valid()
      reads this`nread, this`nwrite, this`written, this`delivered, this`taken, data
    {
      |written| - taken
    }

    /** The pipe as the readers' and writers' monitors of Waits see it. */
    ghost function Word(): Fill
      requires Valid()
      reads this`nread, this`nwrite, this`written, this`delivered, this`taken, this`readopen, this`writeopen, data
    {
      Fill(InFlight(), readopen, writeopen)
    }

    method WakeReaders()
      modifies this`readerCalls
      ensures readerCalls == old(readerCalls) + 1
    {
      readerCalls := readerCalls + 1;
    }

    method WakeWriters()
      modifies this`writerCalls
      ensures writerCalls == old(writerCalls) + 1
    {
      writerCalls := writerCalls + 1;
    }

    /** The pipe of pipealloc. */
    constructor ()
      ensures Valid() && fresh(data) && written == [] && delivered == [] && taken == 0 && readopen && writeopen
    {
      data := new byte[PIPESIZE];
      nread, nwrite := 0, 0;
      readopen, writeopen := true, true;
      written, delivered, taken, readerCalls, writerCalls := [], [], 0, 0, 0;
    }

    /** p->nwrite == p->nread + PIPESIZE */
    method Full() returns (full: bool)
      requires Valid()
      ensures full <==> InFlight() == PIPESIZE
    {
      CountersTell(taken, |written|);
      full := nwrite == (nread + PIPESIZE) % WRAP;
    }

    lemma InRange()
      requires Valid()
      ensures 0 <= |written| - taken <= PIPESIZE
    {
    }

    /** The loop of pipewrite from byte i on. It appends addr[i..next], in order and nothing else, and
      stops when all n bytes are in, or when the pipe is full: then it fails if there is no reader or
      the writer has been killed, and sleeps otherwise. It calls wakeup(&p->nread) exactly when the
      monitor's operation wakes readers. */
    method WriteSome(addr: seq<byte>, n: int, i: nat, killed: bool) returns (r: WriteResult, next: nat)
      requires Valid() && n <= |addr| && (i == 0 || i <= n)
      modifies this`nwrite, this`written, this`readerCalls, data
      ensures Valid() && i <= next <= |addr| && written == old(written) + addr[i..next]
      ensures r == if next >= n then Done else if !readopen || killed then Failed else MustSleep
      ensures next < n ==> InFlight() == PIPESIZE
      ensures readerCalls == old(readerCalls) + (if r.Failed? then 0 else 1)
      ensures i <= n ==> next - i == (if n - i <= PIPESIZE - old(InFlight()) then n - i else PIPESIZE - old(InFlight()))
      ensures r.MustSleep? ==> Writers(killed).blocked(Word()) && !killed
      ensures PipeEnabled(old(Word()), WriteOp(r, next - i), killed)
      ensures Word() == PipeApply(old(Word()), WriteOp(r, next - i))
      ensures readerCalls == old(readerCalls) + One(Readers(killed).wakes(WriteOp(r, next - i)))
    {
      hide Valid;
      InRange();
      next := i;
      while next < n
        invariant i <= next <= |addr| && (next == i || next <= n) && Valid() && readerCalls == old(readerCalls)
        invariant written == old(written) + addr[i..next]
      {
        var full := Full();
        InRange();
        if full {
          if !readopen || killed {
            return Failed, next;
          }
          WakeReaders();
          return MustSleep, next;
        }
        Append(addr[next]);
        assert addr[i..next] + [addr[next]] == addr[i..next + 1];
        next := next + 1;
      }
      InRange();
      WakeReaders();
      return Done, next;
    }

    /** p->data[p->nwrite++ % PIPESIZE] = b */
    method Append(b: byte)
      requires Valid() && InFlight() < PIPESIZE
      modifies this`nwrite, this`written, data
      ensures Valid() && written == old(written) + [b]
    {
      RingPosition(|written|);
      forall k | taken <= k < |written| ensures k % PIPESIZE != |written| % PIPESIZE {
        RingDistinct(k, |written|);
      }
      data[nwrite % PIPESIZE] := b;
      nwrite := (nwrite + 1) % WRAP;
      written := written + [b];
    }

    /** p->data[p->nread++ % PIPESIZE] */
    method TakeByte() returns (b: byte)
      requires Valid() && InFlight() > 0
      modifies this`nread, this`taken, this`delivered
      ensures Valid() && taken == old(taken) + 1 && delivered == old(delivered) + [b]
    {
      RingPosition(taken);
      b := data[nread % PIPESIZE];
      delivered := delivered + [b];
      nread := (nread + 1) % WRAP;
      taken := taken + 1;
    }

    /** piperead, by a process that has the read end open. It returns the oldest unread bytes, as many as there
      are up to n, possibly none once the write end is closed, and has then called wakeup(&p->nwrite).
      While the pipe is empty and open for writing it gives up if killed and sleeps otherwise. */
    method Read(n: int, killed: bool) returns (r: ReadResult)
      requires Valid() && readopen
      modifies this`nread, this`taken, this`delivered, this`writerCalls
      ensures Valid()
      ensures !r.Got? ==> Word() == old(Word()) && delivered == old(delivered) && Readers(killed).blocked(Word())
                          && writerCalls == old(writerCalls)
      ensures r.Got? <==> old(InFlight()) > 0 || !writeopen
      ensures !r.Got? ==> r == if killed then Killed else Wait
      ensures writerCalls == old(writerCalls) + (if r.Got? then 1 else 0)
      ensures r.Got? ==>
                && !Readers(killed).blocked(old(Word())) && delivered == old(delivered) + r.bytes
                && |r.bytes| == (if n <= 0 then 0 else if n <= old(InFlight()) then n else old(InFlight()))
                && PipeEnabled(old(Word()), Drain(|r.bytes|), killed)
                   && Word() == PipeApply(old(Word()), Drain(|r.bytes|))
                && writerCalls == old(writerCalls) + One(Writers(killed).wakes(Drain(|r.bytes|)))
    {
      CountersTell(taken, |written|);
      if nread == nwrite && writeopen {
        if killed {
          return Killed;
        }
        return Wait;
      }
      var bytes: seq<byte> := [];
      var i := 0;
      while i < n
        invariant 0 <= i && (n >= 0 ==> i <= n) && (n < 0 ==> i == 0) && Valid()
        invariant taken == old(taken) + i && |bytes| == i && delivered == old(delivered) + bytes && i <= old(InFlight())
        invariant writerCalls == old(writerCalls)
        decreases n - i
      {
        CountersTell(taken, |written|);
        if nread == nwrite {
          break;
        }
        var b := TakeByte();
        bytes := bytes + [b];
        i := i + 1;
      }
      WakeWriters();
      return Got(bytes);
    }

    /** pipeclose; `free` tells the caller to free the page: both ends are closed. */
    method Close(writable: bool) returns (free: bool)
      requires Valid()
      modifies this`readopen, this`writeopen, this`readerCalls, this`writerCalls
      ensures Valid() && free == (!readopen && !writeopen)
      ensures readopen == (old(readopen) && writable) && writeopen == (old(writeopen) && !writable)
      ensures readerCalls == old(readerCalls) + One(writable) && writerCalls == old(writerCalls) + One(!writable)
      ensures Word() == PipeApply(old(Word()), if writable then CloseWrite else CloseRead)
      ensures readerCalls == old(readerCalls) + One(Readers(true).wakes(if writable then CloseWrite else CloseRead))
      ensures writerCalls == old(writerCalls) + One(Writers(true).wakes(if writable then CloseWrite else CloseRead))
    {
      if writable {
        writeopen := false;
        WakeReaders();
      } else {
        readopen := false;
        WakeWriters();
      }
      return !readopen && !writeopen;
    }
  }
}
