/** The pipe system calls of syscall.cpp over the kernel's tables and the pipes' buffers. */
module Syscalls {
  import opened Pipes

  /** The byte part of a pipe: a buffer that is filled from the front and starts over once drained. */
  class Buffer {
    const bytes: array<bv8>
    var readPos: nat
    var writePos: nat
    ghost var accepted: seq<bv8>
    ghost var delivered: seq<bv8>

    ghost predicate Valid()
      reads this, bytes
    {
      && bytes.Length == CAPACITY && readPos <= writePos <= CAPACITY
      && accepted == delivered + bytes[readPos..writePos]
      && (readPos == writePos ==> writePos == 0)
    }

    ghost function Abs(): Channel
      reads this
    {
      Channel(accepted, delivered, writePos)
    }

    constructor ()
      ensures Valid() && Abs() == Empty && fresh(bytes)
    {
      bytes := new bv8[CAPACITY];
      readPos, writePos, accepted, delivered := 0, 0, [], [];
    }

    lemma Meaning()
      requires Valid()
      ensures Abs().Valid() && Abs().Pending() == bytes[readPos..writePos]
    {
    }

    /** Clears the record. */
    method Reset()
      requires bytes.Length == CAPACITY
      modifies this, bytes
      ensures Valid() && Abs() == Empty
    {
      var k := 0;
      while k < CAPACITY
        invariant k <= CAPACITY
      {
        bytes[k] := 0;
        k := k + 1;
      }
      readPos, writePos, accepted, delivered := 0, 0, [], [];
    }

    /** Takes bytes until the buffer is full. */
    method Put(b: seq<bv8>) returns (n: nat)
      requires Valid()
      modifies this, bytes
      ensures Valid() && Abs() == Accept(old(Abs()), b) && n <= |b| && accepted == old(accepted) + b[..n]
    {
      n := 0;
      while n < |b| && writePos < CAPACITY
        invariant n <= |b| && Valid() && readPos == old(readPos) && writePos == old(writePos) + n
        invariant accepted == old(accepted) + b[..n] && delivered == old(delivered)
      {
        PutOne(b[n]);
        assert b[..n + 1] == b[..n] + [b[n]];
        n := n + 1;
      }
      assert b[..|b|] == b;
    }

    method PutOne(x: bv8)
      requires Valid() && writePos < CAPACITY
      modifies this, bytes
      ensures Valid() && readPos == old(readPos) && writePos == old(writePos) + 1
      ensures accepted == old(accepted) + [x] && delivered == old(delivered)
    {
      ghost var was := bytes[readPos..writePos];
      bytes[writePos] := x;
      writePos := writePos + 1;
      accepted := accepted + [x];
      assert bytes[readPos..writePos] == was + [x];
    }

    /** Gives up to `len` pending bytes, and starts over when none is left. */
    method Take(len: nat) returns (out: seq<bv8>)
      requires Valid() && readPos < writePos
      modifies this
      ensures Valid() && |old(delivered)| <= |old(accepted)| && Abs() == Deliver(old(Abs()), len)
      ensures delivered == old(delivered) + out
      ensures |out| == if len < |old(Abs()).Pending()| then len else |old(Abs()).Pending()|
    {
      hide Deliver;
      ghost var all := bytes[readPos..writePos];
      Meaning();
      out := CopyPending(len);
      assert all == out + bytes[readPos..writePos];
      TakeIs(Abs(), len, all, out);
      delivered := delivered + out;
      if readPos >= writePos {
        readPos := 0;
        writePos := 0;
      }
    }

    /** The copy loop: up to `len` bytes from the read position on. */
    method CopyPending(len: nat) returns (out: seq<bv8>)
      requires bytes.Length == CAPACITY && readPos <= writePos <= CAPACITY
      modifies this`readPos
      ensures old(readPos) <= readPos <= writePos && out == bytes[old(readPos)..readPos]
      ensures |out| == if len < writePos - old(readPos) then len else writePos - old(readPos)
    {
      out := [];
      while |out| < len && readPos < writePos
        invariant old(readPos) <= readPos <= writePos && out == bytes[old(readPos)..readPos] && |out| <= len
      {
        out := out + [bytes[readPos]];
        readPos := readPos + 1;
      }
    }
  }

  lemma TakeIs(ch: Channel, len: nat, all: seq<bv8>, out: seq<bv8>)
    requires ch.accepted == ch.delivered + all && |out| == (if len < |all| then len else |all|) && out == all[..|out|]
    ensures Deliver(ch, len) == Channel(ch.accepted, ch.delivered + out, if |out| == |all| then 0 else ch.fill)
  {
    assert ch.Pending() == all;
  }

  /** The buffers are distinct objects. */
  ghost predicate Apart(pipes: seq<Buffer>) {
    forall i, j :: 0 <= i < j < |pipes| ==> pipes[i] != pipes[j] && pipes[i].bytes != pipes[j].bytes
  }

  ghost predicate BuffersValid(pipes: seq<Buffer>)
    reads set i | 0 <= i < |pipes| :: pipes[i], set i | 0 <= i < |pipes| :: pipes[i].bytes
  {
    forall i :: 0 <= i < |pipes| ==> pipes[i].Valid()
  }

  ghost function Channels(pipes: seq<Buffer>): (c: seq<Channel>)
    reads set i | 0 <= i < |pipes| :: pipes[i]
    ensures |c| == |pipes| && forall i :: 0 <= i < |pipes| ==> c[i] == pipes[i].Abs()
  {
    seq(|pipes|, i requires 0 <= i < |pipes| reads set k | 0 <= k < |pipes| :: pipes[k] => pipes[i].Abs())
  }

  lemma NoBuffers()
    ensures Apart([]) && BuffersValid([])
  {
  }

  /** New buffers, all of them empty. */
  method MakeBuffers(n: nat) returns (all: seq<Buffer>)
    ensures |all| == n && Apart(all) && BuffersValid(all) && forall i :: 0 <= i < n ==> all[i].Abs() == Empty
  {
    hide Buffer.Valid, Apart, BuffersValid;
    NoBuffers();
    all := [];
    while |all| < n
      invariant |all| <= n && Apart(all) && BuffersValid(all)
      invariant forall i :: 0 <= i < |all| ==> all[i].Abs() == Empty
    {
      all := OneMore(all);
    }
  }

  method OneMore(all: seq<Buffer>) returns (more: seq<Buffer>)
    requires Apart(all) && BuffersValid(all) && forall i :: 0 <= i < |all| ==> all[i].Abs() == Empty
    ensures |more| == |all| + 1 && Apart(more) && BuffersValid(more)
    ensures forall i :: 0 <= i < |more| ==> more[i].Abs() == Empty
  {
    hide Buffer.Valid;
    var b := new Buffer();
    more := all + [b];
  }

  class Kernel {
    const pipes: seq<Buffer>
    var procs: map<nat, seq<Fd>>
    var used: seq<bool>
    var readers: seq<int>
    var writers: seq<int>

    ghost function Buffers(): set<object>
    {
      (set i | 0 <= i < |pipes| :: pipes[i]) + (set i | 0 <= i < |pipes| :: pipes[i].bytes)
    }

    ghost function Abs(): State
      reads this, Buffers()
    {
      State(procs, used, readers, writers, Channels(pipes))
    }

    ghost predicate Valid()
      reads this, Buffers()
    {
      |pipes| == SLOTS && Apart(pipes) && BuffersValid(pipes) && Inv(Abs())
    }

    constructor ()
      ensures Valid() && Abs() == Boot()
    {
      var all := MakeBuffers(SLOTS);
      pipes := all;
      procs, used, readers, writers := map[], seq(SLOTS, _ => false), seq(SLOTS, _ => 0), seq(SLOTS, _ => 0);
      new;
      hide Inv, Boot, BuffersValid, Apart, Channels;
      BootInv();
      BootIs(Abs());
    }

    /** A pipe takes bytes; the other pipes stay. */
    method Feed(i: nat, b: seq<bv8>) returns (n: nat)
      requires |pipes| == SLOTS && Apart(pipes) && BuffersValid(pipes) && i < SLOTS
      modifies Buffers()
      ensures BuffersValid(pipes) && |Channels(pipes)| == SLOTS && old(Channels(pipes))[i].fill <= CAPACITY
      ensures Channels(pipes) == old(Channels(pipes))[i := Accept(old(Channels(pipes))[i], b)]
      ensures n <= |b| && Channels(pipes)[i].accepted == old(Channels(pipes))[i].accepted + b[..n]
    {
      hide Accept;
      ghost var before := Channels(pipes);
      n := pipes[i].Put(b);
      assert Channels(pipes) == before[i := Accept(before[i], b)];
    }

    /** A pipe gives bytes, if it has any; the other pipes stay. */
    method Drain(i: nat, len: nat) returns (any: bool, out: seq<bv8>)
      requires |pipes| == SLOTS && Apart(pipes) && BuffersValid(pipes) && i < SLOTS
      modifies Buffers()
      ensures BuffersValid(pipes) && |Channels(pipes)| == SLOTS && old(Channels(pipes))[i].Valid()
      ensures any <==> old(Channels(pipes))[i].Pending() != []
      ensures Channels(pipes) ==
        if any then old(Channels(pipes))[i := Deliver(old(Channels(pipes))[i], len)] else old(Channels(pipes))
      ensures any ==> var p := old(Channels(pipes))[i].Pending(); out == p[..if len < |p| then len else |p|]
    {
      hide Deliver;
      pipes[i].Meaning();
      ghost var before := Channels(pipes);
      if pipes[i].readPos >= pipes[i].writePos { return false, []; }
      out := pipes[i].Take(len);
      assert Channels(pipes) == before[i := Deliver(before[i], len)];
      DeliverGives(before[i], len, out);
      return true, out;
    }

    /** A write: what a pipe accepts is a prefix of the buffer. */
    method SysWrite(p: nat, f: nat, b: seq<bv8>) returns (r: Outcome)
      requires Valid() && p in procs
      modifies Buffers()
      ensures Valid() && Abs() == Write(old(Abs()), p, f, b) && r == WriteOutcome(old(Abs()), p, f, b)
      ensures Writes(old(Abs()), p, f) ==>
        r.Wrote? && r.count <= |b| && Took(old(Abs()), Abs(), procs[p][f].pipe, b[..r.count])
    {
      hide Exact, Live, Streams, Accept, BuffersValid, Apart, Channels, Inv, Channel.Valid, AllClosed;
      InvFacts(Abs(), p);
      StepKeeps(Abs(), DoWrite(p, f, b));
      if b == [] {
        AcceptNothing(Abs(), p, f);
        return Wrote(0);
      }
      if (f == 1 || f == 2) && (procs[p][f] == Closed || procs[p][f] == Other) { return Elsewhere; }
      if f >= FDS || procs[p][f] == Closed { return Refused; }
      if procs[p][f] == Other { return Elsewhere; }
      if !procs[p][f].writable { return Refused; }
      var i := procs[p][f].pipe;
      ghost var before := Abs();
      var n := Feed(i, b);
      AcceptTakes(before.channels[i], b, n);
      return Wrote(n);
    }

    /** A read: of a pipe end bytes, the end of the stream, or a wait for a writer. */
    method SysRead(p: nat, f: nat, len: nat) returns (r: Outcome)
      requires Valid() && p in procs
      modifies Buffers()
      ensures Valid() && Abs() == Read(old(Abs()), p, f, len) && r == ReadOutcome(old(Abs()), p, f, len)
      ensures r.Got? ==> f < FDS && procs[p][f].End? && Gave(old(Abs()), Abs(), procs[p][f].pipe, r.bytes)
    {
      hide Exact, Live, Deliver, BuffersValid, Apart, Channels, Inv, Channel.Valid, Read, ReadOutcome;
      InvFacts(Abs(), p);
      StepKeeps(Abs(), DoRead(p, f, len));
      ReadCases(Abs(), p, f, len);
      if Reads(Abs(), p, f) { ReadGives(Abs(), p, f, len); }
      if f == 0 { return Elsewhere; }
      if f >= FDS || procs[p][f] == Closed { return Refused; }
      if procs[p][f] == Other { return Elsewhere; }
      if !procs[p][f].readable { return Refused; }
      var i := procs[p][f].pipe;
      var any, out := Drain(i, len);
      if any { return Got(out); }
      if writers[i] <= 0 { return Eof; }
      return Wait;
    }

    /** The lowest free descriptor from 3 on other than `skip`, or -1. */
    method FreeFd(p: nat, skip: int) returns (fd: int)
      requires p in procs && |procs[p]| == FDS
      requires skip == -1 || (3 <= skip < FDS && skip == FirstClosed(procs[p], 3))
      ensures var f := FirstClosed(procs[p], if skip < 0 then 3 else skip + 1); fd == if f == FDS then -1 else f
    {
      ghost var from: nat := if skip < 0 then 3 else skip + 1;
      var j := 3;
      while j < FDS
        invariant 3 <= j <= FDS && forall g :: 3 <= g < j ==> procs[p][g] != Closed || g == skip
      {
        if procs[p][j] == Closed && j != skip {
          FirstClosedIs(procs[p], from, j);
          return j;
        }
        j := j + 1;
      }
      FirstClosedIs(procs[p], from, FDS);
      return -1;
    }

    /** The first slot not in use. */
    method FindSlot() returns (i: nat)
      requires |used| == SLOTS
      ensures i == FirstUnused(used, 0)
    {
      i := 0;
      while i < SLOTS && used[i]
        invariant i <= SLOTS && forall j :: 0 <= j < i ==> used[j]
      {
        i := i + 1;
      }
      FirstUnusedIs(used, i);
    }

    /** Marks a slot as used and clears its record. */
    method Claim(i: nat)
      requires |pipes| == SLOTS && Apart(pipes) && BuffersValid(pipes) && Sized(Abs()) && i < SLOTS
      modifies this, Buffers()
      ensures BuffersValid(pipes) && Abs() == Cleared(old(Abs()), i).(used := old(used)[i := true])
    {
      ghost var s := Abs();
      used := used[i := true];
      pipes[i].Reset();
      readers, writers := readers[i := 0], writers[i := 0];
      assert Channels(pipes) == s.channels[i := Empty];
    }

    /** Makes a pipe; its ends are the two lowest free descriptors from 3 on. */
    method SysPipe(p: nat) returns (r: int, w: int)
      requires Valid() && p in procs
      modifies this, Buffers()
      ensures Valid() && Abs() == MakePipe(old(Abs()), p)
      ensures r == -1 <==> w == -1
      ensures r != -1 <==> CanPipe(old(used), old(procs)[p])
      ensures r != -1 ==> NewEnds(old(Abs()), Abs(), p, r, w)
      ensures r == -1 ==> procs == old(procs) && used == old(used)
    {
      hide Exact, Live, Streams, FirstClosed, FirstUnused, Inv, BuffersValid, Apart, NewEnds, Channels, MakePipe,
           CanPipe;
      ghost var s := Abs();
      InvFacts(s, p);
      MakePipeKeeps(s, p);
      PipeFails(s, p);
      CanPipeIs(used, procs[p]);
      var i := FindSlot();
      if i == SLOTS { return -1, -1; }
      Claim(i);
      r, w := Connect(p, i, s);
    }

    /** The descriptors of a new pipe, or the slot given back when there are not two. */
    method Connect(p: nat, i: nat, ghost s: State) returns (r: int, w: int)
      requires Sized(s) && p in s.procs && i < SLOTS && i == FirstUnused(s.used, 0)
      requires Abs() == Cleared(s, i).(used := s.used[i := true])
      modifies this
      ensures Abs() == MakePipe(s, p) && (r == -1 <==> w == -1)
      ensures r == -1 <==>
        (FirstClosed(s.procs[p], 3) == FDS || FirstClosed(s.procs[p], FirstClosed(s.procs[p], 3) + 1) == FDS)
      ensures r != -1 ==> NewEnds(s, Abs(), p, r, w)
    {
      hide FirstClosed, FirstUnused, NewEnds, Channels, MakePipe;
      PipeFails(s, p);
      r := FreeFd(p, -1);
      w := -1;
      if r >= 0 { w := FreeFd(p, r); }
      if r < 0 || w < 0 {
        used := used[i := false];
        assert used == s.used;
        return -1, -1;
      }
      Attach(p, i, r, w);
      PipeMade(s, p, i, r, w, Abs());
    }

    /** One reader and one writer, in two descriptors. */
    method Attach(p: nat, i: nat, r: nat, w: nat)
      requires p in procs && r < |procs[p]| && w < |procs[p]| && i < |readers| && i < |writers|
      modifies this`procs, this`readers, this`writers
      ensures readers == old(readers)[i := 1] && writers == old(writers)[i := 1]
      ensures procs == old(procs)[p := old(procs)[p][r := End(i, true, false)][w := End(i, false, true)]]
    {
      readers, writers := readers[i := 1], writers[i := 1];
      procs := procs[p := procs[p][r := End(i, true, false)]];
      procs := procs[p := procs[p][w := End(i, false, true)]];
    }

    /** Counts the ends a descriptor holds. */
    method Tally(e: Fd)
      requires e.End? && e.pipe < |readers| && e.pipe < |writers|
      modifies this`readers, this`writers
      ensures readers == old(readers)[e.pipe := old(readers)[e.pipe] + Bit(e.readable)]
      ensures writers == old(writers)[e.pipe := old(writers)[e.pipe] + Bit(e.writable)]
    {
      if e.readable { readers := readers[e.pipe := readers[e.pipe] + 1]; }
      if e.writable { writers := writers[e.pipe := writers[e.pipe] + 1]; }
      SeqSame(readers, e.pipe);
      SeqSame(writers, e.pipe);
    }

    /** Takes the ends a descriptor holds from the counts. */
    method Discount(e: Fd)
      requires e.End? && e.pipe < |readers| && e.pipe < |writers|
      modifies this`readers, this`writers
      ensures readers == old(readers)[e.pipe := old(readers)[e.pipe] - Bit(e.readable)]
      ensures writers == old(writers)[e.pipe := old(writers)[e.pipe] - Bit(e.writable)]
    {
      if e.readable { readers := readers[e.pipe := readers[e.pipe] - 1]; }
      if e.writable { writers := writers[e.pipe := writers[e.pipe] - 1]; }
      SeqSame(readers, e.pipe);
      SeqSame(writers, e.pipe);
    }

    /** Stores a copy of a descriptor and counts it. */
    method Store(p: nat, f: nat, e: Fd)
      requires Sized(Abs()) && p in procs && f < FDS && (e.End? ==> e.pipe < SLOTS)
      modifies this
      ensures Abs() == Hold(old(Abs()), p, f, e)
    {
      procs := procs[p := procs[p][f := e]];
      if e.End? {
        Tally(e);
      }
    }

    method SysDup(p: nat, f: nat) returns (fd: int)
      requires Valid() && p in procs
      modifies this
      ensures Valid() && Abs() == Dup(old(Abs()), p, f)
      ensures fd >= 0 ==>
        f < FDS && fd < FDS && old(procs)[p][fd] == Closed && old(procs)[p][f] != Closed
        && (forall g :: 0 <= g < fd ==> old(procs)[p][g] != Closed)
        && procs == old(procs)[p := old(procs)[p][fd := old(procs)[p][f]]]
      ensures fd < 0 ==>
        f >= FDS || old(procs)[p][f] == Closed || (forall g :: 0 <= g < FDS ==> old(procs)[p][g] != Closed)
    {
      hide Exact, Live, Streams, FirstClosed, Inv;
      InvFacts(Abs(), p);
      StepKeeps(Abs(), DoDup(p, f));
      if f >= FDS || procs[p][f] == Closed { return -1; }
      var g := 0;
      while g < FDS && procs[p][g] != Closed
        invariant g <= FDS && forall j :: 0 <= j < g ==> procs[p][j] != Closed
      {
        g := g + 1;
      }
      FirstClosedIs(procs[p], 0, g);
      if g == FDS { return -1; }
      Store(p, g, procs[p][f]);
      return g;
    }

    /** The counts stay exact unless a pipe end is overwritten. */
    method SysDup2(p: nat, f: nat, g: nat) returns (fd: int)
      requires Valid() && p in procs
      modifies this
      ensures Abs() == Dup2(old(Abs()), p, f, g)
      ensures fd == if f >= FDS || old(procs)[p][f] == Closed || g >= FDS then -1 else g
      ensures procs == if fd == -1 then old(procs) else old(procs)[p := old(procs)[p][g := old(procs)[p][f]]]
      ensures Valid() <==> fd == -1 || !old(procs)[p][g].End?
    {
      hide Exact, Live, Streams, Inv, Hold;
      InvFacts(Abs(), p);
      if f >= FDS || procs[p][f] == Closed { return -1; }
      if g >= FDS { return -1; }
      Dup2Exact(Abs(), p, f, g);
      Dup2Copies(Abs(), p, f, g);
      Store(p, g, procs[p][f]);
      return g;
    }

    /** Closes one descriptor; a pipe without ends is given back. */
    method SysClose(p: nat, f: nat) returns (ok: bool)
      requires Valid() && p in procs
      modifies this
      ensures Valid() && Abs() == Close(old(Abs()), p, f) && ok == (f < FDS && old(procs)[p][f] != Closed)
      ensures procs == if ok then old(procs)[p := old(procs)[p][f := Closed]] else old(procs)
    {
      hide Exact, Live, Streams, Inv, BuffersValid, Apart, Channels, Counted;
      InvFacts(Abs(), p);
      StepKeeps(Abs(), DoClose(p, f));
      if f >= FDS || procs[p][f] == Closed { return false; }
      var e := procs[p][f];
      if e.End? {
        Discount(e);
        if readers[e.pipe] == 0 && writers[e.pipe] == 0 { used := used[e.pipe := false]; }
      }
      procs := procs[p := procs[p][f := Closed]];
      return true;
    }

    /** Closes every descriptor of a process. */
    method SysCloseAll(p: nat)
      requires Valid() && p in procs
      modifies this
      ensures Valid() && Abs() == CloseAll(old(Abs()), p)
      ensures procs == old(procs)[p := AllClosed()]
    {
      hide Exact, Live, Streams, Inv, DropTo, Drop, AllClosed;
      ghost var s := Abs();
      DropToFirst(s, p);
      CloseAllFrees(s, p);
      var i := 0;
      while i < FDS
        invariant i <= FDS && p in procs && Valid() && Abs() == DropTo(s, p, i)
      {
        CloseOne(p, i);
        DropToNext(s, p, i);
        i := i + 1;
      }
    }

    /** One round of the loop above: a descriptor that is free stays so. */
    method CloseOne(p: nat, f: nat)
      requires Valid() && p in procs && f < FDS
      modifies this
      ensures p in procs && f < |old(procs)[p]| && EndIsUsed(old(used), old(procs)[p][f]) && Sized(old(Abs()))
      ensures Valid() && Abs() == Drop(old(Abs()), p, f)
    {
      hide Exact, Live, Streams, Inv, BuffersValid, Apart, Channels, Counted;
      ghost var s := Abs();
      InvFacts(s, p);
      DropKeeps(s, p, f);
      DropCounts(s, p, f);
      if procs[p][f] != Closed {
        var e := procs[p][f];
        if e.End? {
          Discount(e);
          if readers[e.pipe] <= 0 && writers[e.pipe] <= 0 { used := used[e.pipe := false]; }
        }
        procs := procs[p := procs[p][f := Closed]];
      } else {
        assert procs[p] == procs[p][f := Closed];
        assert procs == procs[p := procs[p]];
      }
    }

    /** The descriptor copy of fork: the table is copied whole, then every pipe end in it is counted. */
    method CopyDescriptors(p: nat, c: nat)
      requires Valid() && p in procs && c !in procs
      modifies this
      ensures Valid() && Abs() == Fork(old(Abs()), p, c) && procs == old(procs)[c := old(procs)[p]]
    {
      hide Exact, Live, Streams, Inv, HoldTo, AllClosed;
      ghost var s := Abs();
      InvFacts(s, p);
      ForkKeeps(s, p, c);
      SpawnKeeps(s, c);
      ParentEnds(s, p);
      procs := procs[c := procs[p]];
      ghost var start, fds := Spawn(s, c), s.procs[p];
      HoldToFirst(start, c, fds);
      var i := 0;
      while i < FDS
        invariant i <= FDS && procs == s.procs[c := fds] && used == s.used
        invariant readers == HoldTo(start, c, fds, i).readers && writers == HoldTo(start, c, fds, i).writers
      {
        HoldToNext(start, c, fds, i);
        var e := procs[c][i];
        if e.End? {
          Tally(e);
        }
        i := i + 1;
      }
      assert Abs() == Fork(s, p, c);
    }
  }

  lemma AcceptTakes(ch: Channel, b: seq<bv8>, n: nat)
    requires ch.fill <= CAPACITY && n <= |b| && Accept(ch, b).accepted == ch.accepted + b[..n]
    ensures n == if |b| < CAPACITY - ch.fill then |b| else CAPACITY - ch.fill
  {
    assert |Accept(ch, b).accepted| == |ch.accepted| + n;
  }

  lemma AcceptNothing(s: State, p: nat, f: nat)
    requires Inv(s) && p in s.procs
    ensures Write(s, p, f, []) == s && (Writes(s, p, f) ==> Took(s, s, s.procs[p][f].pipe, [][..0]))
  {
    hide Counted, Live;
    ParentEnds(s, p);
    if Writes(s, p, f) {
      var i := s.procs[p][f].pipe;
      assert Accept(s.channels[i], []) == s.channels[i];
      assert s.channels[i := s.channels[i]] == s.channels;
    }
  }

  ghost predicate Took(s: State, t: State, i: nat, b: seq<bv8>) {
    i < |s.channels| && i < |t.channels| && t.channels[i].accepted == s.channels[i].accepted + b
  }

  ghost predicate Gave(s: State, t: State, i: nat, b: seq<bv8>) {
    && i < |s.channels| && i < |t.channels| && t.channels[i].accepted == s.channels[i].accepted
    && t.channels[i].delivered == s.channels[i].delivered + b
  }

  /** The answers of a read, case by case. */
  lemma ReadCases(s: State, p: nat, f: nat, n: nat)
    requires Sized(s) && Named(s) && Streams(s) && p in s.procs
    ensures f == 0 ==> ReadOutcome(s, p, f, n) == Elsewhere && Read(s, p, f, n) == s
    ensures f >= FDS || (f != 0 && s.procs[p][f] == Closed) ==>
      ReadOutcome(s, p, f, n) == Refused && Read(s, p, f, n) == s
    ensures 0 < f < FDS && s.procs[p][f] == Other ==> ReadOutcome(s, p, f, n) == Elsewhere && Read(s, p, f, n) == s
    ensures 0 < f < FDS && s.procs[p][f].End? && !s.procs[p][f].readable ==>
      ReadOutcome(s, p, f, n) == Refused && Read(s, p, f, n) == s
    ensures 0 < f < FDS && s.procs[p][f].End? && s.procs[p][f].readable ==> PipeAnswer(s, p, f, n, s.procs[p][f].pipe)
  {
    hide Channel.Valid, Deliver;
  }

  ghost predicate PipeAnswer(s: State, p: nat, f: nat, n: nat, i: nat)
    requires Sized(s) && Named(s) && Streams(s) && p in s.procs
  {
    && i < SLOTS
    && var pending := s.channels[i].Pending();
       if pending != [] then
         && ReadOutcome(s, p, f, n) == Got(pending[..if n < |pending| then n else |pending|])
         && Read(s, p, f, n) == s.(channels := s.channels[i := Deliver(s.channels[i], n)])
       else ReadOutcome(s, p, f, n) == (if s.writers[i] <= 0 then Eof else Wait) && Read(s, p, f, n) == s
  }

  lemma BootIs(s: State)
    requires s.procs == map[] && |s.used| == SLOTS && |s.readers| == SLOTS && |s.writers| == SLOTS
    requires |s.channels| == SLOTS
    requires forall i :: 0 <= i < SLOTS ==>
      !s.used[i] && s.readers[i] == 0 && s.writers[i] == 0 && s.channels[i] == Empty
    ensures s == Boot()
  {
    assert s.used == Boot().used && s.readers == Boot().readers && s.writers == Boot().writers
        && s.channels == Boot().channels;
  }

  lemma DeliverGives(ch: Channel, n: nat, out: seq<bv8>)
    requires ch.Valid() && Deliver(ch, n).delivered == ch.delivered + out
    ensures out == ch.Pending()[..if n < |ch.Pending()| then n else |ch.Pending()|]
  {
    var k := if n < |ch.Pending()| then n else |ch.Pending()|;
    assert (ch.delivered + out)[|ch.delivered|..] == out;
    assert (ch.delivered + ch.Pending()[..k])[|ch.delivered|..] == ch.Pending()[..k];
  }

  lemma InvFacts(s: State, p: nat)
    requires Inv(s) && p in s.procs
    ensures Sized(s) && Named(s) && Streams(s) && |s.procs[p]| == FDS
    ensures forall f :: 0 <= f < FDS ==> EndIsUsed(s.used, s.procs[p][f])
  {
  }

  lemma SeqSame(a: seq<int>, i: nat)
    requires i < |a|
    ensures a[i := a[i]] == a
  {
  }

  /** The two descriptors were free and are the only ends of a pipe that was not in use. */
  ghost predicate NewEnds(s: State, t: State, p: nat, r: int, w: int) {
    && p in s.procs && p in t.procs && 3 <= r < w < |s.procs[p]| == |t.procs[p]|
    && s.procs[p][r] == Closed && s.procs[p][w] == Closed
    && t.procs[p][r].End? && t.procs[p][r].pipe < |s.used| && !s.used[t.procs[p][r].pipe]
    && t.procs[p][r].readable && !t.procs[p][r].writable
    && t.procs[p][w] == End(t.procs[p][r].pipe, false, true)
    && (forall k :: 3 <= k < w && k != r ==> s.procs[p][k] != Closed)
    && t.procs == s.procs[p := s.procs[p][r := t.procs[p][r]][w := t.procs[p][w]]]
    && t.used == s.used[t.procs[p][r].pipe := true] && |t.channels| == |s.channels| == SLOTS
    && (forall j :: 0 <= j < SLOTS ==> t.channels[j] == if j == t.procs[p][r].pipe then Empty else s.channels[j])
  }

  /** A slot and two descriptors from 3 on are free. */
  predicate CanPipe(used: seq<bool>, fds: seq<Fd>) {
    false in used && exists r, w :: 3 <= r < w < |fds| && fds[r] == Closed && fds[w] == Closed
  }

  lemma CanPipeIs(used: seq<bool>, fds: seq<Fd>)
    requires |fds| == FDS
    ensures CanPipe(used, fds) <==>
      FirstUnused(used, 0) < |used| && FirstClosed(fds, 3) < FDS && FirstClosed(fds, FirstClosed(fds, 3) + 1) < FDS
  {
    hide FirstClosed, FirstUnused;
    var i, r := FirstUnused(used, 0), FirstClosed(fds, 3);
    if i < |used| { assert used[i] == false; }
    if r < FDS {
      var w := FirstClosed(fds, r + 1);
      if w < FDS { assert fds[r] == Closed && fds[w] == Closed; }
    }
  }

  lemma PipeMade(s: State, p: nat, i: nat, r: nat, w: nat, t: State)
    requires Sized(s) && p in s.procs && i < SLOTS && i == FirstUnused(s.used, 0)
    requires r == FirstClosed(s.procs[p], 3) && r < FDS && w == FirstClosed(s.procs[p], r + 1) && w < FDS
    requires t == State(s.procs[p := s.procs[p][r := End(i, true, false)][w := End(i, false, true)]], s.used[i := true],
                        s.readers[i := 1], s.writers[i := 1], s.channels[i := Empty])
    ensures t == MakePipe(s, p) && NewEnds(s, t, p, r, w)
  {
    hide FirstClosed, FirstUnused;
    var c := Cleared(s, i).(used := s.used[i := true]);
    var h := Hold(c, p, r, End(i, true, false));
    var h' := Hold(h, p, w, End(i, false, true));
    assert h'.procs == t.procs && h'.readers == t.readers && h'.writers == t.writers;
  }

  /** No slot, or not two free descriptors: nothing but the cleared record of an unused slot changes. */
  lemma PipeFails(s: State, p: nat)
    requires Sized(s) && p in s.procs
    ensures var i := FirstUnused(s.used, 0);
      var r := FirstClosed(s.procs[p], 3);
      && (i == SLOTS ==> MakePipe(s, p) == s)
      && (i < SLOTS && (r == FDS || FirstClosed(s.procs[p], r + 1) == FDS) ==> MakePipe(s, p) == Cleared(s, i))
  {
    hide FirstClosed, FirstUnused;
  }

  /** Counts never become negative. */
  lemma DropCounts(s: State, p: nat, f: nat)
    requires Inv(s) && p in s.procs && f < FDS && f < |s.procs[p]|
    ensures s.procs[p][f].End? ==> var e := s.procs[p][f];
              && e.pipe < |s.readers| && s.readers[e.pipe] - Bit(e.readable) >= 0
              && e.pipe < |s.writers| && s.writers[e.pipe] - Bit(e.writable) >= 0
  {
    hide Ends;
    var e := s.procs[p][f];
    assert EndIsUsed(s.used, e);
    if e.End? {
      assert Count(s, e.pipe, ReadSide) == |Ends(s.procs, e.pipe, ReadSide)|;
      assert Count(s, e.pipe, WriteSide) == |Ends(s.procs, e.pipe, WriteSide)|;
      if e.readable { EndsMember(s, p, f, e.pipe, ReadSide); }
      if e.writable { EndsMember(s, p, f, e.pipe, WriteSide); }
    }
  }

  lemma HoldToFirst(s: State, c: nat, fds: seq<Fd>)
    requires Inv(s) && c in s.procs && s.procs[c] == AllClosed() && |fds| == FDS
    requires forall f :: 0 <= f < FDS ==> EndIsUsed(s.used, fds[f])
    ensures HoldTo(s, c, fds, 0) == s
  {
  }

  lemma HoldToNext(s: State, c: nat, fds: seq<Fd>, k: nat)
    requires Inv(s) && c in s.procs && s.procs[c] == AllClosed() && |fds| == FDS && k < FDS
    requires forall f :: 0 <= f < FDS ==> EndIsUsed(s.used, fds[f])
    ensures var t := HoldTo(s, c, fds, k);
      && Sized(t) && c in t.procs && EndIsUsed(t.used, fds[k]) && t.used == s.used
      && HoldTo(s, c, fds, k + 1) == Hold(t, c, k, fds[k])
  {
    hide Hold, Counted, Live, Streams;
  }
}
