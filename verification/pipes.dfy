/** Pipes and descriptor tables as a value: who holds which end of which pipe, the reader and writer
    counts, and the bytes each pipe has accepted and delivered. Every system call is one step. */
module Pipes {

  const SLOTS: nat := 32
  const FDS: nat := 32
  const CAPACITY: nat := 4096

  /** A descriptor: free, a file or terminal, or an end of the pipe in a slot. */
  datatype Fd = Closed | Other | End(pipe: nat, readable: bool, writable: bool)

  /** A pipe's bytes since it was made; `fill` is the write position in its buffer. */
  datatype Channel = Channel(accepted: seq<bv8>, delivered: seq<bv8>, fill: nat)
  {
    function Pending(): seq<bv8>
      requires |delivered| <= |accepted|
    {
      accepted[|delivered|..]
    }

    /** What was read is a prefix of what was written; an empty pipe starts over. */
    ghost predicate Valid() {
      && delivered <= accepted
      && |Pending()| <= fill <= CAPACITY
      && (Pending() == [] ==> fill == 0)
    }
  }

  const Empty := Channel([], [], 0)

  datatype State = State(procs: map<nat, seq<Fd>>, used: seq<bool>, readers: seq<int>, writers: seq<int>,
                         channels: seq<Channel>)

  /** The two ends of a pipe. */
  datatype Side = ReadSide | WriteSide

  predicate Holds(e: Fd, i: nat, side: Side) {
    e.End? && e.pipe == i && (if side.ReadSide? then e.readable else e.writable)
  }

  /** The descriptors of all processes that hold that end of pipe `i`. */
  function Ends(procs: map<nat, seq<Fd>>, i: nat, side: Side): set<(nat, nat)> {
    set p, f | p in procs && 0 <= f < |procs[p]| && Holds(procs[p][f], i, side) :: (p, f)
  }

  function Count(s: State, i: nat, side: Side): int
    requires i < |s.readers| && i < |s.writers|
  {
    if side.ReadSide? then s.readers[i] else s.writers[i]
  }

  ghost predicate Sized(s: State) {
    && |s.used| == SLOTS && |s.readers| == SLOTS && |s.writers| == SLOTS && |s.channels| == SLOTS
    && (forall p :: p in s.procs ==> |s.procs[p]| == FDS)
  }

  /** Every open end names a pipe in use. */
  ghost predicate Named(s: State) {
    forall p, f :: p in s.procs && 0 <= f < |s.procs[p]| ==> EndIsUsed(s.used, s.procs[p][f])
  }

  predicate EndIsUsed(used: seq<bool>, e: Fd) {
    e.End? ==> e.pipe < |used| && used[e.pipe] && (e.readable || e.writable)
  }

  /** The counts of a pipe in use are the numbers of its open ends. */
  ghost predicate Counted(s: State)
    requires Sized(s)
  {
    forall i, side :: 0 <= i < SLOTS && s.used[i] ==> Count(s, i, side) == |Ends(s.procs, i, side)|
  }

  /** A pipe in use has an open end. */
  ghost predicate Live(s: State)
    requires Sized(s)
  {
    forall i :: 0 <= i < SLOTS && s.used[i] ==> s.readers[i] + s.writers[i] > 0
  }

  ghost predicate Exact(s: State) {
    Sized(s) && Named(s) && Counted(s)
  }

  ghost predicate Streams(s: State) {
    forall i :: 0 <= i < |s.channels| ==> s.channels[i].Valid()
  }

  ghost predicate Inv(s: State) {
    Exact(s) && Live(s) && Streams(s)
  }

  // ---------------------------------------------------------------- one descriptor

  function Set(procs: map<nat, seq<Fd>>, p: nat, f: nat, e: Fd): map<nat, seq<Fd>>
    requires p in procs && f < |procs[p]|
  {
    procs[p := procs[p][f := e]]
  }

  function Bit(b: bool): int { if b then 1 else 0 }

  /** Changing one descriptor changes the number of ends by what it held and what it holds. */
  lemma EndsSet(procs: map<nat, seq<Fd>>, p: nat, f: nat, e: Fd, i: nat, side: Side)
    requires p in procs && f < |procs[p]|
    ensures |Ends(Set(procs, p, f, e), i, side)|
         == |Ends(procs, i, side)| - Bit(Holds(procs[p][f], i, side)) + Bit(Holds(e, i, side))
  {
    hide Ends, Holds;
    var a, b := Ends(procs, i, side), Ends(Set(procs, p, f, e), i, side);
    forall x: (nat, nat) ensures x in a - {(p, f)} <==> x in b - {(p, f)} {
      InEnds(procs, i, side, x.0, x.1);
      InEnds(Set(procs, p, f, e), i, side, x.0, x.1);
    }
    assert b - {(p, f)} == a - {(p, f)};
    InEnds(procs, i, side, p, f);
    InEnds(Set(procs, p, f, e), i, side, p, f);
    SizeWithout(a, (p, f));
    SizeWithout(b, (p, f));
  }

  lemma InEnds(procs: map<nat, seq<Fd>>, i: nat, side: Side, q: nat, g: nat)
    ensures (q, g) in Ends(procs, i, side) <==> q in procs && g < |procs[q]| && Holds(procs[q][g], i, side)
  {
  }

  lemma SizeWithout(a: set<(nat, nat)>, x: (nat, nat))
    ensures |a - {x}| == |a| - Bit(x in a)
  {
    if x in a { assert a == (a - {x}) + {x}; } else { assert a - {x} == a; }
  }

  /** `e` is stored in a descriptor and counted. */
  function Hold(s: State, p: nat, f: nat, e: Fd): State
    requires Sized(s) && p in s.procs && f < FDS && (e.End? ==> e.pipe < SLOTS)
  {
    var t := s.(procs := Set(s.procs, p, f, e));
    if e.End? then
      t.(readers := s.readers[e.pipe := s.readers[e.pipe] + Bit(e.readable)],
         writers := s.writers[e.pipe := s.writers[e.pipe] + Bit(e.writable)])
    else t
  }

  /** A descriptor is closed: its ends are discounted, and a pipe without ends is given back. */
  function Drop(s: State, p: nat, f: nat): State
    requires Sized(s) && p in s.procs && f < FDS && EndIsUsed(s.used, s.procs[p][f])
  {
    var e := s.procs[p][f];
    var t := s.(procs := Set(s.procs, p, f, Closed));
    if e.End? then
      var r, w := s.readers[e.pipe] - Bit(e.readable), s.writers[e.pipe] - Bit(e.writable);
      t.(readers := s.readers[e.pipe := r], writers := s.writers[e.pipe := w],
         used := if r == 0 && w == 0 then s.used[e.pipe := false] else s.used)
    else t
  }

  lemma SetNamed(s: State, p: nat, f: nat, e: Fd)
    requires Named(s) && p in s.procs && f < |s.procs[p]| && EndIsUsed(s.used, e)
    ensures Named(s.(procs := Set(s.procs, p, f, e)))
  {
  }

  /** Storing an end over a descriptor that holds none keeps the counts exact. */
  lemma HoldExact(s: State, p: nat, f: nat, e: Fd)
    requires Exact(s) && p in s.procs && f < FDS && !s.procs[p][f].End? && EndIsUsed(s.used, e)
    ensures Exact(Hold(s, p, f, e)) && Hold(s, p, f, e).used == s.used && Hold(s, p, f, e).channels == s.channels
  {
    hide Ends, Named;
    var t := Hold(s, p, f, e);
    NamedFrame(s.(procs := Set(s.procs, p, f, e)), t) by { SetNamed(s, p, f, e); }
    forall i, side | 0 <= i < SLOTS && t.used[i] ensures Count(t, i, side) == |Ends(t.procs, i, side)| {
      EndsSet(s.procs, p, f, e, i, side);
    }
  }

  lemma HoldKeeps(s: State, p: nat, f: nat, e: Fd)
    requires Inv(s) && p in s.procs && f < FDS && !s.procs[p][f].End? && EndIsUsed(s.used, e)
    ensures Inv(Hold(s, p, f, e))
  {
    hide Ends, Named, Counted, Channel.Valid;
    HoldExact(s, p, f, e);
  }

  lemma NamedFrame(s: State, t: State)
    requires Named(s) && t.procs == s.procs && t.used == s.used
    ensures Named(t)
  {
  }

  /** An end that is open is counted. */
  lemma EndsMember(s: State, p: nat, f: nat, i: nat, side: Side)
    requires p in s.procs && f < |s.procs[p]| && Holds(s.procs[p][f], i, side)
    ensures |Ends(s.procs, i, side)| > 0
  {
    assert (p, f) in Ends(s.procs, i, side);
  }

  /** Closing a descriptor keeps the counts exact, and a pipe is given back with its last end. */
  lemma DropKeeps(s: State, p: nat, f: nat)
    requires Inv(s) && p in s.procs && f < FDS && EndIsUsed(s.used, s.procs[p][f])
    ensures Inv(Drop(s, p, f))
  {
    hide Ends, Channel.Valid;
    var t := Drop(s, p, f);
    var e := s.procs[p][f];
    forall i, side | 0 <= i < SLOTS && s.used[i]
      ensures Count(t, i, side) == |Ends(t.procs, i, side)|
    {
      EndsSet(s.procs, p, f, Closed, i, side);
    }
    if e.End? {
      assert Count(t, e.pipe, ReadSide) >= 0 && Count(t, e.pipe, WriteSide) >= 0;
    }
    forall q, g | q in t.procs && 0 <= g < |t.procs[q]| ensures EndIsUsed(t.used, t.procs[q][g]) {
      var d := t.procs[q][g];
      assert EndIsUsed(s.used, d);
      if d.End? && !t.used[d.pipe] {
        EndsMember(t, q, g, d.pipe, if d.readable then ReadSide else WriteSide);
      }
    }
  }

  // ---------------------------------------------------------------- the system calls

  /** The lowest free descriptor from `from` on, the table's size when there is none. */
  function FirstClosed(fds: seq<Fd>, from: nat): (f: nat)
    requires from <= |fds|
    ensures from <= f <= |fds| && (f < |fds| ==> fds[f] == Closed)
    ensures forall g :: from <= g < f ==> fds[g] != Closed
    decreases |fds| - from
  {
    if from == |fds| || fds[from] == Closed then from else FirstClosed(fds, from + 1)
  }

  function FirstUnused(used: seq<bool>, from: nat): (i: nat)
    requires from <= |used|
    ensures from <= i <= |used| && (i < |used| ==> !used[i])
    ensures forall j :: from <= j < i ==> used[j]
    decreases |used| - from
  {
    if from == |used| || !used[from] then from else FirstUnused(used, from + 1)
  }

  /** The slot's record is cleared before it is known whether two descriptors are free. */
  function Cleared(s: State, i: nat): State
    requires Sized(s) && i < SLOTS
  {
    s.(readers := s.readers[i := 0], writers := s.writers[i := 0], channels := s.channels[i := Empty])
  }

  /** A new pipe in the first unused slot, its ends in the two lowest free descriptors from 3 on. */
  function MakePipe(s: State, p: nat): State
    requires Sized(s) && p in s.procs
  {
    var i := FirstUnused(s.used, 0);
    if i == SLOTS then s
    else
      var c, fds := Cleared(s, i), s.procs[p];
      var r := FirstClosed(fds, 3);
      var w := if r < FDS then FirstClosed(fds, r + 1) else FDS;
      if w == FDS then c
      else Hold(Hold(c.(used := s.used[i := true]), p, r, End(i, true, false)), p, w, End(i, false, true))
  }

  /** An unused slot has no open end, so a new pipe never shares one. */
  lemma UnusedHasNoEnds(s: State, i: nat, side: Side)
    requires Sized(s) && Named(s) && i < SLOTS && !s.used[i]
    ensures Ends(s.procs, i, side) == {}
  {
    forall x: (nat, nat) ensures x !in Ends(s.procs, i, side) {
      assert x.0 in s.procs && x.1 < |s.procs[x.0]| ==> EndIsUsed(s.used, s.procs[x.0][x.1]);
    }
  }

  lemma MakePipeKeeps(s: State, p: nat)
    requires Inv(s) && p in s.procs
    ensures Inv(MakePipe(s, p))
  {
    hide Ends, Counted, Named, FirstClosed, FirstUnused;
    var i := FirstUnused(s.used, 0);
    if i < SLOTS {
      ClearedExact(s, i);
      var c, fds := Cleared(s, i).(used := s.used[i := true]), s.procs[p];
      var r := FirstClosed(fds, 3);
      var w := if r < FDS then FirstClosed(fds, r + 1) else FDS;
      if w < FDS {
        HoldExact(c, p, r, End(i, true, false));
        HoldExact(Hold(c, p, r, End(i, true, false)), p, w, End(i, false, true));
      }
    }
  }

  lemma ClearedExact(s: State, i: nat)
    requires Inv(s) && i < SLOTS && !s.used[i]
    ensures Inv(Cleared(s, i)) && Exact(Cleared(s, i).(used := s.used[i := true]))
  {
    hide Ends;
    UnusedHasNoEnds(s, i, ReadSide);
    UnusedHasNoEnds(s, i, WriteSide);
    var c := Cleared(s, i);
    forall j, side | 0 <= j < SLOTS && (s.used[j] || j == i) ensures Count(c, j, side) == |Ends(c.procs, j, side)| {
      if j != i { assert Count(s, j, side) == |Ends(s.procs, j, side)|; }
    }
    forall q, g | q in s.procs && 0 <= g < |s.procs[q]| ensures EndIsUsed(s.used[i := true], s.procs[q][g]) {
      assert EndIsUsed(s.used, s.procs[q][g]);
    }
  }

  /** A file opened in the lowest free descriptor from 3 on. */
  function OpenFile(s: State, p: nat): State
    requires Sized(s) && p in s.procs
  {
    var f := FirstClosed(s.procs[p], 3);
    if f == FDS then s else Hold(s, p, f, Other)
  }

  function Dup(s: State, p: nat, f: nat): State
    requires Sized(s) && Named(s) && p in s.procs
  {
    if f >= FDS || s.procs[p][f] == Closed then s
    else
      var g := FirstClosed(s.procs[p], 0);
      if g == FDS then s else Hold(s, p, g, s.procs[p][f])
  }

  /** The new descriptor is overwritten, whatever it held. */
  function Dup2(s: State, p: nat, f: nat, g: nat): State
    requires Sized(s) && Named(s) && p in s.procs
  {
    if f >= FDS || s.procs[p][f] == Closed || g >= FDS then s else Hold(s, p, g, s.procs[p][f])
  }

  function Close(s: State, p: nat, f: nat): State
    requires Sized(s) && Named(s) && p in s.procs
  {
    if f >= FDS || s.procs[p][f] == Closed then s else Drop(s, p, f)
  }

  /** The first `k` descriptors closed. */
  ghost function DropTo(s: State, p: nat, k: nat): (t: State)
    requires Inv(s) && p in s.procs && k <= FDS
    ensures Inv(t) && t.procs.Keys == s.procs.Keys && t.channels == s.channels
  {
    if k == 0 then s
    else
      var t := DropTo(s, p, k - 1);
      DropKeeps(t, p, k - 1);
      Drop(t, p, k - 1)
  }

  ghost function CloseAll(s: State, p: nat): State
    requires Inv(s) && p in s.procs
  {
    DropTo(s, p, FDS)
  }

  function AllClosed(): (fds: seq<Fd>)
    ensures |fds| == FDS && forall f :: 0 <= f < FDS ==> fds[f] == Closed
  {
    seq(FDS, _ => Closed)
  }

  function Spawn(s: State, c: nat): State {
    s.(procs := s.procs[c := AllClosed()])
  }

  /** The first `k` descriptors of `fds` held by process `c`. */
  ghost function HoldTo(s: State, c: nat, fds: seq<Fd>, k: nat): (t: State)
    requires Inv(s) && c in s.procs && s.procs[c] == AllClosed() && |fds| == FDS && k <= FDS
    requires forall f :: 0 <= f < FDS ==> EndIsUsed(s.used, fds[f])
    ensures Inv(t) && t.procs == s.procs[c := fds[..k] + AllClosed()[k..]] && t.used == s.used
    ensures t.channels == s.channels
  {
    assert fds[..0] + AllClosed()[0..] == AllClosed();
    if k == 0 then s
    else
      var t := HoldTo(s, c, fds, k - 1);
      HoldNext(s, t, c, fds, k - 1);
      Hold(t, c, k - 1, fds[k - 1])
  }

  lemma HoldNext(s: State, t: State, c: nat, fds: seq<Fd>, k: nat)
    requires Inv(t) && c in s.procs && |fds| == FDS && k < FDS && EndIsUsed(s.used, fds[k])
    requires t.procs == s.procs[c := fds[..k] + AllClosed()[k..]] && t.used == s.used
    ensures Inv(Hold(t, c, k, fds[k]))
    ensures Hold(t, c, k, fds[k]).procs == s.procs[c := fds[..k + 1] + AllClosed()[k + 1..]]
    ensures Hold(t, c, k, fds[k]).used == t.used && Hold(t, c, k, fds[k]).channels == t.channels
  {
    hide Inv, AllClosed, Exact, Named, Counted, Ends;
    assert t.procs[c][k] == Closed;
    InvSized(t);
    HoldKeeps(t, c, k, fds[k]);
    assert (fds[..k] + AllClosed()[k..])[k := fds[k]] == fds[..k + 1] + AllClosed()[k + 1..];
  }

  lemma InvSized(s: State)
    requires Inv(s)
    ensures Sized(s)
  {
  }

  lemma SpawnKeeps(s: State, c: nat)
    requires Inv(s) && c !in s.procs
    ensures Inv(Spawn(s, c))
  {
    hide Channel.Valid;
    forall i: nat, side ensures Ends(Spawn(s, c).procs, i, side) == Ends(s.procs, i, side) {
    }
  }

  /** The child gets a copy of the parent's descriptors, all of them counted. */
  ghost function Fork(s: State, p: nat, c: nat): State
    requires Inv(s) && p in s.procs && c !in s.procs
  {
    SpawnKeeps(s, c);
    ParentEnds(s, p);
    HoldTo(Spawn(s, c), c, s.procs[p], FDS)
  }

  lemma ParentEnds(s: State, p: nat)
    requires Inv(s) && p in s.procs
    ensures forall f :: 0 <= f < FDS ==> EndIsUsed(s.used, s.procs[p][f])
  {
  }

  /** A pipe takes bytes until its buffer is full. */
  function Accept(ch: Channel, b: seq<bv8>): Channel
    requires ch.fill <= CAPACITY
  {
    var n := if |b| < CAPACITY - ch.fill then |b| else CAPACITY - ch.fill;
    ch.(accepted := ch.accepted + b[..n], fill := ch.fill + n)
  }

  /** A pipe gives up to `n` of its pending bytes; drained, it starts over. */
  function Deliver(ch: Channel, n: nat): Channel
    requires |ch.delivered| <= |ch.accepted|
  {
    var k := if n < |ch.Pending()| then n else |ch.Pending()|;
    ch.(delivered := ch.delivered + ch.Pending()[..k], fill := if k == |ch.Pending()| then 0 else ch.fill)
  }

  lemma AcceptKeeps(ch: Channel, b: seq<bv8>)
    requires ch.Valid()
    ensures Accept(ch, b).Valid() && ch.accepted <= Accept(ch, b).accepted && Accept(ch, b).delivered == ch.delivered
    ensures |Accept(ch, b).accepted| - |ch.accepted| == if |b| < CAPACITY - ch.fill then |b| else CAPACITY - ch.fill
  {
  }

  lemma DeliverKeeps(ch: Channel, n: nat)
    requires ch.Valid()
    ensures Deliver(ch, n).Valid() && ch.delivered <= Deliver(ch, n).delivered && Deliver(ch, n).accepted == ch.accepted
  {
    var d := Deliver(ch, n);
    var k := if n < |ch.Pending()| then n else |ch.Pending()|;
    assert ch.accepted == ch.delivered + ch.Pending();
    assert ch.accepted == d.delivered + ch.Pending()[k..];
    assert d.Pending() == ch.Pending()[k..];
  }

  predicate Writes(s: State, p: nat, f: nat)
    requires Sized(s) && p in s.procs
  {
    f < FDS && s.procs[p][f].End? && s.procs[p][f].writable
  }

  /** Descriptor 0 is always read from the terminal. */
  predicate Reads(s: State, p: nat, f: nat)
    requires Sized(s) && p in s.procs
  {
    0 < f < FDS && s.procs[p][f].End? && s.procs[p][f].readable
  }

  function Write(s: State, p: nat, f: nat, b: seq<bv8>): State
    requires Sized(s) && Named(s) && Streams(s) && p in s.procs
  {
    if Writes(s, p, f) then
      var i := s.procs[p][f].pipe;
      s.(channels := s.channels[i := Accept(s.channels[i], b)])
    else s
  }

  function Read(s: State, p: nat, f: nat, n: nat): State
    requires Sized(s) && Named(s) && Streams(s) && p in s.procs
  {
    if Reads(s, p, f) && s.channels[s.procs[p][f].pipe].Pending() != [] then
      var i := s.procs[p][f].pipe;
      s.(channels := s.channels[i := Deliver(s.channels[i], n)])
    else s
  }

  /** What a read or write answers: bytes, the end of the stream, nothing yet, a count, a refusal, or
      whatever the terminal or file behind the descriptor answers. */
  datatype Outcome = Got(bytes: seq<bv8>) | Eof | Wait | Wrote(count: nat) | Refused | Elsewhere

  function ReadOutcome(s: State, p: nat, f: nat, n: nat): Outcome
    requires Sized(s) && Named(s) && Streams(s) && p in s.procs
  {
    if f == 0 then Elsewhere
    else if f >= FDS || s.procs[p][f] == Closed then Refused
    else if s.procs[p][f] == Other then Elsewhere
    else if !s.procs[p][f].readable then Refused
    else
      var i := s.procs[p][f].pipe;
      var pending := s.channels[i].Pending();
      if pending != [] then Got(pending[..if n < |pending| then n else |pending|])
      else if s.writers[i] <= 0 then Eof
      else Wait
  }

  /** Descriptors 1 and 2 write to the terminal while they are free. */
  function WriteOutcome(s: State, p: nat, f: nat, b: seq<bv8>): Outcome
    requires Sized(s) && Named(s) && Streams(s) && p in s.procs
  {
    if b == [] then Wrote(0)
    else if f < FDS && (s.procs[p][f] == Other || ((f == 1 || f == 2) && s.procs[p][f] == Closed)) then Elsewhere
    else if !Writes(s, p, f) then Refused
    else
      var fill := s.channels[s.procs[p][f].pipe].fill;
      Wrote(if |b| < CAPACITY - fill then |b| else CAPACITY - fill)
  }

  /** The end of the stream is reported exactly when nothing is pending and no process holds a
      write end; a read waits exactly when nothing is pending and some process does. */
  lemma EofMeansNoWriter(s: State, p: nat, f: nat, n: nat)
    requires Inv(s) && p in s.procs && Reads(s, p, f)
    ensures var i := s.procs[p][f].pipe; i < SLOTS && s.channels[i].Valid()
    ensures var i := s.procs[p][f].pipe; ReadOutcome(s, p, f, n).Eof? <==>
      s.channels[i].Pending() == [] && Ends(s.procs, i, WriteSide) == {}
    ensures var i := s.procs[p][f].pipe; ReadOutcome(s, p, f, n).Wait? <==>
      s.channels[i].Pending() == [] && Ends(s.procs, i, WriteSide) != {}
  {
    hide Ends;
    assert EndIsUsed(s.used, s.procs[p][f]);
    var i := s.procs[p][f].pipe;
    assert Count(s, i, WriteSide) == |Ends(s.procs, i, WriteSide)|;
  }

  // ---------------------------------------------------------------- what each call does to the tables

  /** dup2 of an open descriptor makes the new one a copy, whatever it held; the copied end counts once
      more, and nothing else changes. */
  lemma Dup2Copies(s: State, p: nat, f: nat, g: nat)
    requires Inv(s) && p in s.procs
    ensures f >= FDS || s.procs[p][f] == Closed || g >= FDS ==> Dup2(s, p, f, g) == s
    ensures f < FDS && s.procs[p][f] != Closed && g < FDS ==>
      var t, e := Dup2(s, p, f, g), s.procs[p][f];
      && t.procs == s.procs[p := s.procs[p][g := e]] && t.used == s.used && t.channels == s.channels
      && |t.readers| == SLOTS && |t.writers| == SLOTS
      && forall i :: 0 <= i < SLOTS ==>
           && t.readers[i] == s.readers[i] + (if e.End? && e.pipe == i && e.readable then 1 else 0)
           && t.writers[i] == s.writers[i] + (if e.End? && e.pipe == i && e.writable then 1 else 0)
  {
    hide Counted, Live, Streams;
    ParentEnds(s, p);
  }

  /** dup does the same with the lowest free descriptor. */
  lemma DupCopies(s: State, p: nat, f: nat, g: nat)
    requires Inv(s) && p in s.procs && g <= FDS && (forall k :: 0 <= k < g ==> s.procs[p][k] != Closed)
    requires g < FDS ==> s.procs[p][g] == Closed
    ensures Dup(s, p, f) == if f < FDS && s.procs[p][f] != Closed && g < FDS then Dup2(s, p, f, g) else s
  {
    hide Counted, Live, Streams;
    FirstClosedIs(s.procs[p], 0, g);
  }

  /** Opening a file uses the lowest free descriptor from 3 on, and nothing else. */
  lemma OpenUses(s: State, p: nat, g: nat)
    requires Inv(s) && p in s.procs && 3 <= g <= FDS && (forall k :: 3 <= k < g ==> s.procs[p][k] != Closed)
    requires g < FDS ==> s.procs[p][g] == Closed
    ensures OpenFile(s, p) == if g == FDS then s else s.(procs := s.procs[p := s.procs[p][g := Other]])
  {
    hide Counted, Live, Streams;
    FirstClosedIs(s.procs[p], 3, g);
  }

  /** A closed descriptor is free, and no other changes; a pipe is given back exactly when nobody holds an
      end of it any more. */
  lemma CloseFrees(s: State, p: nat, f: nat)
    requires Inv(s) && p in s.procs
    ensures f >= FDS || s.procs[p][f] == Closed ==> Close(s, p, f) == s
    ensures f < FDS && s.procs[p][f] != Closed ==>
      var t := Close(s, p, f);
      && t.procs == s.procs[p := s.procs[p][f := Closed]] && t.channels == s.channels && |t.used| == SLOTS
      && forall i :: 0 <= i < SLOTS ==>
           (t.used[i] <==> s.used[i] && (Ends(t.procs, i, ReadSide) != {} || Ends(t.procs, i, WriteSide) != {}))
  {
    hide Ends, Streams;
    ParentEnds(s, p);
    if f < FDS && s.procs[p][f] != Closed {
      var t, e := Close(s, p, f), s.procs[p][f];
      DropKeeps(s, p, f);
      forall i | 0 <= i < SLOTS
        ensures t.used[i] <==> s.used[i] && (Ends(t.procs, i, ReadSide) != {} || Ends(t.procs, i, WriteSide) != {})
      {
        if s.used[i] {
          EndsSet(s.procs, p, f, Closed, i, ReadSide);
          EndsSet(s.procs, p, f, Closed, i, WriteSide);
          assert Count(s, i, ReadSide) == |Ends(s.procs, i, ReadSide)|;
          assert Count(s, i, WriteSide) == |Ends(s.procs, i, WriteSide)|;
        }
      }
    }
  }

  /** After close-all the process has no descriptor, and the other processes have theirs. */
  lemma CloseAllFrees(s: State, p: nat)
    requires Inv(s) && p in s.procs
    ensures CloseAll(s, p).procs == s.procs[p := AllClosed()] && CloseAll(s, p).channels == s.channels
    ensures Inv(CloseAll(s, p))
  {
    hide Inv, AllClosed;
    InvSized(s);
    DropToFrees(s, p, FDS);
    assert AllClosed()[..FDS] + s.procs[p][FDS..] == AllClosed();
  }

  lemma DropToFirst(s: State, p: nat)
    requires Inv(s) && p in s.procs
    ensures DropTo(s, p, 0) == s
  {
  }

  lemma DropToNext(s: State, p: nat, k: nat)
    requires Inv(s) && p in s.procs && k < FDS
    ensures p in DropTo(s, p, k).procs && |DropTo(s, p, k).procs[p]| == FDS && Sized(DropTo(s, p, k))
    ensures EndIsUsed(DropTo(s, p, k).used, DropTo(s, p, k).procs[p][k])
    ensures DropTo(s, p, k + 1) == Drop(DropTo(s, p, k), p, k)
  {
    hide Drop, Counted, Live, Streams;
    DropKeeps(DropTo(s, p, k), p, k);
  }

  lemma {:induction false} DropToFrees(s: State, p: nat, k: nat)
    requires Inv(s) && p in s.procs && k <= FDS
    ensures |s.procs[p]| == FDS && DropTo(s, p, k).procs == s.procs[p := AllClosed()[..k] + s.procs[p][k..]]
    decreases k
  {
    hide AllClosed, Inv, Drop, DropTo;
    InvSized(s);
    if k == 0 {
      DropToFirst(s, p);
      assert AllClosed()[..0] + s.procs[p][0..] == s.procs[p];
    } else {
      DropToFrees(s, p, k - 1);
      DropToNext(s, p, k - 1);
      OneDropped(DropTo(s, p, k - 1), p, k - 1);
      OneMoreFreed(AllClosed(), s.procs[p], k);
    }
  }

  lemma OneMoreFreed(a: seq<Fd>, b: seq<Fd>, k: nat)
    requires 0 < k <= |a| == |b|
    ensures (a[..k - 1] + b[k - 1..])[k - 1 := a[k - 1]] == a[..k] + b[k..]
  {
  }

  lemma OneDropped(s: State, p: nat, f: nat)
    requires Inv(s) && p in s.procs && f < FDS
    ensures Sized(s) && EndIsUsed(s.used, s.procs[p][f])
    ensures Drop(s, p, f).procs == s.procs[p := s.procs[p][f := Closed]]
  {
    hide Counted, Live, Streams;
    ParentEnds(s, p);
  }

  /** A pipe gives what it answers: the oldest pending bytes, as many as are asked for or pending. */
  lemma ReadGives(s: State, p: nat, f: nat, n: nat)
    requires Inv(s) && p in s.procs && Reads(s, p, f)
    ensures s.procs[p][f].pipe < SLOTS && s.channels[s.procs[p][f].pipe].Valid()
    ensures var i := s.procs[p][f].pipe;
      var t, r, c := Read(s, p, f, n), ReadOutcome(s, p, f, n), s.channels[i];
      && (r.Got? <==> c.Pending() != []) && (!r.Got? ==> t == s)
      && (r.Got? ==>
            && t == s.(channels := t.channels) && |t.channels| == SLOTS
            && (forall j :: 0 <= j < SLOTS && j != i ==> t.channels[j] == s.channels[j])
            && t.channels[i].accepted == c.accepted && t.channels[i].delivered == c.delivered + r.bytes
            && |r.bytes| <= n && (|r.bytes| == n || r.bytes == c.Pending())
            && t.channels[i].fill == if r.bytes == c.Pending() then 0 else c.fill)
  {
    hide Counted, Live, Channel.Valid;
    ParentEnds(s, p);
    var i := s.procs[p][f].pipe;
    ReadValid(s, i);
  }

  lemma ReadValid(s: State, i: nat)
    requires Streams(s) && i < |s.channels|
    ensures s.channels[i].Valid() && |s.channels[i].delivered| <= |s.channels[i].accepted|
  {
  }

  /** A pipe takes what it answers: a prefix of the buffer, all of it or until the pipe is full. */
  lemma WriteTakes(s: State, p: nat, f: nat, b: seq<bv8>)
    requires Inv(s) && p in s.procs && Writes(s, p, f)
    ensures s.procs[p][f].pipe < SLOTS
    ensures var i := s.procs[p][f].pipe;
      var t, r, c := Write(s, p, f, b), WriteOutcome(s, p, f, b), s.channels[i];
      && r.Wrote? && r.count <= |b| && t == s.(channels := t.channels) && |t.channels| == SLOTS
      && (forall j :: 0 <= j < SLOTS && j != i ==> t.channels[j] == s.channels[j])
      && t.channels[i].accepted == c.accepted + b[..r.count] && t.channels[i].delivered == c.delivered
      && t.channels[i].fill == c.fill + r.count && (r.count == |b| || t.channels[i].fill == CAPACITY)
  {
    hide Counted, Live;
    ParentEnds(s, p);
    var i := s.procs[p][f].pipe;
    ReadValid(s, i);
    if b == [] { assert b[..0] == []; }
  }

  /** A read or write that is refused, or goes elsewhere, touches no pipe. */
  lemma OtherAnswers(s: State, p: nat, f: nat, n: nat, b: seq<bv8>)
    requires Inv(s) && p in s.procs
    ensures !Reads(s, p, f) ==>
      && Read(s, p, f, n) == s
      && ReadOutcome(s, p, f, n) == if f == 0 || (f < FDS && s.procs[p][f] == Other) then Elsewhere else Refused
    ensures !Writes(s, p, f) && b != [] ==>
      && Write(s, p, f, b) == s
      && WriteOutcome(s, p, f, b) ==
           if f < FDS && (s.procs[p][f] == Other || ((f == 1 || f == 2) && s.procs[p][f] == Closed))
           then Elsewhere else Refused
    ensures WriteOutcome(s, p, f, []) == Wrote(0)
  {
    hide Counted, Live, Channel.Valid;
  }

  // ---------------------------------------------------------------- runs

  datatype Call = DoPipe(p: nat) | DoOpen(p: nat) | DoDup(p: nat, f: nat) | DoDup2(p: nat, f: nat, g: nat)
    | DoClose(p: nat, f: nat) | DoCloseAll(p: nat) | DoFork(p: nat, c: nat) | DoSpawn(p: nat) | DoLeave(p: nat)
    | DoWrite(p: nat, f: nat, b: seq<bv8>) | DoRead(p: nat, f: nat, n: nat)

  /** A call comes from an existing process; a child is new; a process leaves without holding a pipe
      end; and dup2 does not overwrite a pipe end. */
  ghost predicate Allowed(s: State, a: Call) {
    && (a.DoSpawn? || a.p in s.procs)
    && (a.DoSpawn? ==> a.p !in s.procs)
    && (a.DoFork? ==> a.c !in s.procs)
    && (a.DoLeave? ==> HoldsNone(s.procs[a.p]))
    && (a.DoDup2? && a.g < FDS && a.p in s.procs && a.g < |s.procs[a.p]| ==> !s.procs[a.p][a.g].End?)
  }

  predicate HoldsNone(fds: seq<Fd>) {
    forall f :: 0 <= f < |fds| ==> !fds[f].End?
  }

  ghost function Next(s: State, a: Call): State
    requires Inv(s) && Allowed(s, a)
  {
    match a
    case DoPipe(p) => MakePipe(s, p)
    case DoOpen(p) => OpenFile(s, p)
    case DoDup(p, f) => Dup(s, p, f)
    case DoDup2(p, f, g) => Dup2(s, p, f, g)
    case DoClose(p, f) => Close(s, p, f)
    case DoCloseAll(p) => CloseAll(s, p)
    case DoFork(p, c) => Fork(s, p, c)
    case DoSpawn(p) => Spawn(s, p)
    case DoLeave(p) => Leave(s, p)
    case DoWrite(p, f, b) => Write(s, p, f, b)
    case DoRead(p, f, n) => Read(s, p, f, n)
  }

  /** A process is gone, with whatever descriptors it still has. */
  function Leave(s: State, p: nat): State {
    s.(procs := s.procs - {p})
  }

  /** A process that goes keeps the counts exact exactly when it holds no pipe end; one that is killed
      or faults goes without closing its descriptors. */
  lemma LeaveExact(s: State, p: nat)
    requires Inv(s) && p in s.procs
    ensures Inv(Leave(s, p)) <==> HoldsNone(s.procs[p])
  {
    hide Channel.Valid;
    var t := Leave(s, p);
    if HoldsNone(s.procs[p]) {
      forall i: nat, side ensures Ends(t.procs, i, side) == Ends(s.procs, i, side) {
      }
    } else {
      var f :| 0 <= f < |s.procs[p]| && s.procs[p][f].End?;
      LeaveBreaks(s, p, f);
    }
  }

  lemma LeaveBreaks(s: State, p: nat, f: nat)
    requires Inv(s) && p in s.procs && f < |s.procs[p]| && s.procs[p][f].End?
    ensures !Inv(Leave(s, p))
  {
    hide Channel.Valid, Ends;
    ParentEnds(s, p);
    var e, t := s.procs[p][f], Leave(s, p);
    var side := if e.readable then ReadSide else WriteSide;
    ChildEnds(t.procs, s.procs, p, f, e.pipe, side);
    assert Count(s, e.pipe, side) == |Ends(s.procs, e.pipe, side)|;
    assert t.used[e.pipe] && Count(t, e.pipe, side) != |Ends(t.procs, e.pipe, side)|;
  }

  lemma ChannelKeeps(s: State, i: nat, ch: Channel)
    requires Inv(s) && i < SLOTS && ch.Valid()
    ensures Inv(s.(channels := s.channels[i := ch]))
  {
    hide Channel.Valid, Ends;
    var t := s.(channels := s.channels[i := ch]);
    forall j, side | 0 <= j < SLOTS && t.used[j] ensures Count(t, j, side) == |Ends(t.procs, j, side)| {
      assert Count(s, j, side) == |Ends(s.procs, j, side)|;
    }
  }

  /** Every system call keeps the counts equal to the numbers of open ends, every pipe in use held by
      someone, and what was read a prefix of what was written. */
  lemma StepKeeps(s: State, a: Call)
    requires Inv(s) && Allowed(s, a)
    ensures Inv(Next(s, a))
  {
    hide Ends, Counted, Live, Channel.Valid, Hold, Drop, Accept, Deliver, FirstClosed, MakePipe;
    match a
    case DoPipe(p) => MakePipeKeeps(s, p);
    case DoOpen(p) =>
      var f := FirstClosed(s.procs[p], 3);
      if f < FDS { HoldKeeps(s, p, f, Other); }
    case DoDup(p, f) =>
      ParentEnds(s, p);
      var g := FirstClosed(s.procs[p], 0);
      if f < FDS && g < FDS { HoldKeeps(s, p, g, s.procs[p][f]); }
    case DoDup2(p, f, g) =>
      ParentEnds(s, p);
      if f < FDS && g < FDS { HoldKeeps(s, p, g, s.procs[p][f]); }
    case DoClose(p, f) =>
      ParentEnds(s, p);
      if f < FDS { DropKeeps(s, p, f); }
    case DoCloseAll(p) =>
    case DoFork(p, c) => ForkKeeps(s, p, c);
    case DoSpawn(p) => SpawnKeeps(s, p);
    case DoLeave(p) => LeaveExact(s, p);
    case DoWrite(p, f, b) =>
      ParentEnds(s, p);
      if Writes(s, p, f) {
        var i := s.procs[p][f].pipe;
        AcceptKeeps(s.channels[i], b);
        ChannelKeeps(s, i, Accept(s.channels[i], b));
      }
    case DoRead(p, f, n) =>
      ParentEnds(s, p);
      if Reads(s, p, f) {
        var i := s.procs[p][f].pipe;
        DeliverKeeps(s.channels[i], n);
        ChannelKeeps(s, i, Deliver(s.channels[i], n));
      }
  }

  lemma ForkKeeps(s: State, p: nat, c: nat)
    requires Inv(s) && p in s.procs && c !in s.procs
    ensures Inv(Fork(s, p, c)) && Fork(s, p, c).procs == s.procs[c := s.procs[p]]
    ensures Fork(s, p, c).used == s.used && Fork(s, p, c).channels == s.channels
  {
    SpawnKeeps(s, c);
    ParentEnds(s, p);
    var t := HoldTo(Spawn(s, c), c, s.procs[p], FDS);
    assert s.procs[p][..FDS] + AllClosed()[FDS..] == s.procs[p];
  }

  function Boot(): State {
    State(map[], seq(SLOTS, _ => false), seq(SLOTS, _ => 0), seq(SLOTS, _ => 0), seq(SLOTS, _ => Empty))
  }

  /** One call of a run. `Next` is defined on states with the invariant; what happens from others is
      left open, and `RunInv` shows that no run gets there. */
  ghost predicate RunStep(s: State, a: Call, s': State) {
    Inv(s) ==> Allowed(s, a) && s' == Next(s, a)
  }

  ghost predicate IsRun(trace: seq<State>, calls: seq<Call>) {
    && |trace| == |calls| + 1 && trace[0] == Boot()
    && forall k :: 0 <= k < |calls| ==> RunStep(trace[k], calls[k], trace[k + 1])
  }

  lemma {:induction false} RunInv(trace: seq<State>, calls: seq<Call>, k: nat)
    requires IsRun(trace, calls) && k <= |calls|
    ensures Inv(trace[k])
  {
    if k > 0 {
      RunInv(trace, calls, k - 1);
      assert RunStep(trace[k - 1], calls[k - 1], trace[k]);
      StepKeeps(trace[k - 1], calls[k - 1]);
    }
  }

  /** No process holds the write end of pipe `i`. */
  ghost predicate NoWriter(procs: map<nat, seq<Fd>>, i: nat) {
    forall p, f :: p in procs && 0 <= f < |procs[p]| ==> !Holds(procs[p][f], i, WriteSide)
  }

  /** The descriptors after a call come from the descriptors before it, or are an end of a pipe that
      was not in use. */
  ghost predicate Inherits(s: State, t: State) {
    forall p, f :: p in t.procs && 0 <= f < |t.procs[p]| ==> Inherited(s, t.procs[p][f])
  }

  ghost predicate Inherited(s: State, e: Fd) {
    e.End? ==>
      || (e.pipe < |s.used| && !s.used[e.pipe])
      || (exists p, f :: p in s.procs && 0 <= f < |s.procs[p]| && s.procs[p][f] == e)
  }

  lemma SelfInherits(s: State, p: nat, f: nat)
    requires p in s.procs && f < |s.procs[p]|
    ensures Inherited(s, s.procs[p][f])
  {
  }

  lemma SetInherits(s: State, t: State, u: State, p: nat, f: nat, e: Fd)
    requires Inherits(s, t) && p in t.procs && f < |t.procs[p]| && Inherited(s, e) && u.procs == Set(t.procs, p, f, e)
    ensures Inherits(s, u)
  {
    hide Inherited;
  }

  lemma {:induction false} DropInherits(s: State, p: nat, k: nat)
    requires Inv(s) && p in s.procs && k <= FDS
    ensures Inherits(s, DropTo(s, p, k))
  {
    hide Ends, Counted, Inherited, Channel.Valid;
    if k == 0 {
      SameInherits(s, s);
    } else {
      DropInherits(s, p, k - 1);
      DropKeeps(DropTo(s, p, k - 1), p, k - 1);
      ClosedInherited(s);
      SetInherits(s, DropTo(s, p, k - 1), DropTo(s, p, k), p, k - 1, Closed);
    }
  }

  lemma ClosedInherited(s: State)
    ensures Inherited(s, Closed) && Inherited(s, Other)
  {
  }

  /** Fewer processes, or new ones with descriptors of old ones. */
  lemma SameInherits(s: State, t: State)
    requires forall q :: q in t.procs ==>
      t.procs[q] == AllClosed() || exists p :: p in s.procs && s.procs[p] == t.procs[q]
    ensures Inherits(s, t)
  {
    hide Inherited;
    forall q, f | q in t.procs && 0 <= f < |t.procs[q]| ensures Inherited(s, t.procs[q][f]) {
      if p :| p in s.procs && s.procs[p] == t.procs[q] {
        SelfInherits(s, p, f);
      } else {
        ClosedInherited(s);
      }
    }
  }

  lemma MakePipeInherits(s: State, p: nat)
    requires Inv(s) && p in s.procs
    ensures Inherits(s, MakePipe(s, p))
  {
    hide Inherited, FirstClosed, FirstUnused, Ends, Counted;
    SameInherits(s, s);
    var i := FirstUnused(s.used, 0);
    if i < SLOTS {
      var c, fds := Cleared(s, i).(used := s.used[i := true]), s.procs[p];
      var r := FirstClosed(fds, 3);
      var w := if r < FDS then FirstClosed(fds, r + 1) else FDS;
      if w < FDS {
        FreshInherited(s, i);
        var h := Hold(c, p, r, End(i, true, false));
        SetInherits(s, s, h, p, r, End(i, true, false));
        SetInherits(s, h, Hold(h, p, w, End(i, false, true)), p, w, End(i, false, true));
      }
    }
  }

  lemma FreshInherited(s: State, i: nat)
    requires i < |s.used| && !s.used[i]
    ensures Inherited(s, End(i, true, false)) && Inherited(s, End(i, false, true))
  {
  }

  lemma CopyInherits(s: State, p: nat, f: nat, g: nat)
    requires Inv(s) && p in s.procs && f < FDS && g < FDS
    ensures EndIsUsed(s.used, s.procs[p][f]) && Inherits(s, Hold(s, p, g, s.procs[p][f]))
  {
    hide Inherited, Ends, Counted, Live, Channel.Valid;
    SameInherits(s, s);
    SelfInherits(s, p, f);
    SetInherits(s, s, Hold(s, p, g, s.procs[p][f]), p, g, s.procs[p][f]);
  }

  lemma StepInherits(s: State, a: Call)
    requires Inv(s) && Allowed(s, a)
    ensures Inherits(s, Next(s, a))
  {
    hide Inherited, Inherits, FirstClosed, MakePipe, Ends, Counted, Accept, Deliver, Live, Channel.Valid, DropTo,
         HoldTo;
    SameInherits(s, s);
    ClosedInherited(s);
    match a
    case DoPipe(p) => MakePipeInherits(s, p);
    case DoOpen(p) =>
      var f := FirstClosed(s.procs[p], 3);
      if f < FDS { SetInherits(s, s, Hold(s, p, f, Other), p, f, Other); }
    case DoDup(p, f) =>
      var g := FirstClosed(s.procs[p], 0);
      if f < FDS && g < FDS { CopyInherits(s, p, f, g); }
    case DoDup2(p, f, g) =>
      if f < FDS && g < FDS { CopyInherits(s, p, f, g); }
    case DoClose(p, f) => CloseInherits(s, p, f);
    case DoCloseAll(p) => DropInherits(s, p, FDS);
    case _ => WholeInherits(s, a);
  }

  lemma CloseInherits(s: State, p: nat, f: nat)
    requires Inv(s) && Allowed(s, DoClose(p, f)) && Inherits(s, s) && Inherited(s, Closed)
    ensures Inherits(s, Next(s, DoClose(p, f)))
  {
    hide Inherited, Inherits, Ends, Counted, Live, Channel.Valid, DropTo, HoldTo;
    if f < FDS && s.procs[p][f] != Closed { SetInherits(s, s, Next(s, DoClose(p, f)), p, f, Closed); }
  }

  /** Calls that move whole tables, or none. */
  lemma WholeInherits(s: State, a: Call)
    requires Inv(s) && Allowed(s, a) && (a.DoFork? || a.DoSpawn? || a.DoLeave? || a.DoWrite? || a.DoRead?)
    ensures Inherits(s, Next(s, a))
  {
    hide Inherits, Ends, Exact, Streams, Live, Accept, Deliver, HoldTo;
    if a.DoFork? { ForkKeeps(s, a.p, a.c); }
    SameInherits(s, Next(s, a));
  }

  /** The bytes of a pipe in use only grow, and without a writer no byte is accepted. */
  lemma StepStreams(s: State, a: Call, i: nat)
    requires Inv(s) && Allowed(s, a) && i < SLOTS && s.used[i]
    ensures i < |Next(s, a).channels| && s.channels[i].accepted <= Next(s, a).channels[i].accepted
    ensures s.channels[i].delivered <= Next(s, a).channels[i].delivered
    ensures NoWriter(s.procs, i) ==> Next(s, a).channels[i].accepted == s.channels[i].accepted
  {
    hide FirstClosed, FirstUnused, Ends, Counted, Accept, Deliver, Live, Channel.Valid, DropTo, HoldTo;
    match a
    case DoPipe(p) =>
    case DoOpen(p) =>
    case DoDup(p, f) =>
    case DoDup2(p, f, g) =>
    case DoClose(p, f) =>
    case DoCloseAll(p) =>
    case DoFork(p, c) => ForkKeeps(s, p, c);
    case DoSpawn(p) =>
    case DoLeave(p) =>
    case DoWrite(p, f, b) =>
      if Writes(s, p, f) {
        assert EndIsUsed(s.used, s.procs[p][f]);
        AcceptKeeps(s.channels[s.procs[p][f].pipe], b);
      }
    case DoRead(p, f, n) =>
      if Reads(s, p, f) {
        assert EndIsUsed(s.used, s.procs[p][f]);
        DeliverKeeps(s.channels[s.procs[p][f].pipe], n);
      }
  }

  /** A pipe without a writer never gets one again. */
  lemma StepNoWriter(s: State, a: Call, i: nat)
    requires Inv(s) && Allowed(s, a) && i < SLOTS && s.used[i] && NoWriter(s.procs, i)
    ensures NoWriter(Next(s, a).procs, i)
  {
    hide Next, Ends, Counted, Allowed;
    StepInherits(s, a);
    var t := Next(s, a);
    forall p, f | p in t.procs && 0 <= f < |t.procs[p]| ensures !Holds(t.procs[p][f], i, WriteSide) {
      assert Inherited(s, t.procs[p][f]);
    }
  }

  /** The end of the stream is final: while the pipe stays in use, no writer comes back and no byte is
      accepted any more. */
  lemma {:induction false} EofIsFinal(trace: seq<State>, calls: seq<Call>, i: nat, j: nat, k: nat)
    requires IsRun(trace, calls) && j <= k <= |calls| && i < SLOTS
    requires forall m :: j <= m <= k ==> i < |trace[m].used| && trace[m].used[i]
    requires NoWriter(trace[j].procs, i)
    ensures NoWriter(trace[k].procs, i) && i < |trace[j].channels| && i < |trace[k].channels|
    ensures trace[k].channels[i].accepted == trace[j].channels[i].accepted
    decreases k - j
  {
    hide Next, Inv, NoWriter, Allowed;
    RunInv(trace, calls, j);
    InvSized(trace[j]);
    if j < k {
      assert RunStep(trace[j], calls[j], trace[j + 1]);
      StepNoWriter(trace[j], calls[j], i);
      StepStreams(trace[j], calls[j], i);
      EofIsFinal(trace, calls, i, j + 1, k);
    }
  }

  // ---------------------------------------------------------------- where the counts go wrong

  /** dup2 keeps the counts exactly when the descriptor it overwrites holds no pipe end. */
  lemma Dup2Exact(s: State, p: nat, f: nat, g: nat)
    requires Inv(s) && p in s.procs && f < FDS && g < FDS && s.procs[p][f] != Closed
    ensures Inv(Dup2(s, p, f, g)) <==> !s.procs[p][g].End?
  {
    hide Ends, Channel.Valid;
    ParentEnds(s, p);
    var e, d := s.procs[p][f], s.procs[p][g];
    if !d.End? {
      HoldKeeps(s, p, g, e);
    } else {
      var side := if d.readable then ReadSide else WriteSide;
      var t := Dup2(s, p, f, g);
      EndsSet(s.procs, p, g, e, d.pipe, side);
      assert Count(s, d.pipe, side) == |Ends(s.procs, d.pipe, side)|;
      assert t.used[d.pipe] && Count(t, d.pipe, side) != |Ends(t.procs, d.pipe, side)|;
    }
  }

  /** fcntl F_DUPFD copies a descriptor without counting it. */
  function DupFd(s: State, p: nat, f: nat, from: nat): State
    requires Sized(s) && p in s.procs
  {
    if f >= FDS || s.procs[p][f] == Closed || from >= FDS then s
    else
      var g := FirstClosed(s.procs[p], from);
      if g == FDS then s else s.(procs := Set(s.procs, p, g, s.procs[p][f]))
  }

  /** F_DUPFD keeps the counts exactly when it copies no pipe end. */
  lemma DupFdExact(s: State, p: nat, f: nat, from: nat)
    requires Inv(s) && p in s.procs && f < FDS && s.procs[p][f] != Closed && from < FDS
    requires FirstClosed(s.procs[p], from) < FDS
    ensures Inv(DupFd(s, p, f, from)) <==> !s.procs[p][f].End?
  {
    hide Ends, Channel.Valid, FirstClosed;
    ParentEnds(s, p);
    var g := FirstClosed(s.procs[p], from);
    var e, t := s.procs[p][f], DupFd(s, p, f, from);
    if !e.End? {
      HoldKeeps(s, p, g, e);
    } else {
      var side := if e.readable then ReadSide else WriteSide;
      EndsSet(s.procs, p, g, e, e.pipe, side);
      assert Count(s, e.pipe, side) == |Ends(s.procs, e.pipe, side)|;
      assert t.used[e.pipe] && Count(t, e.pipe, side) != |Ends(t.procs, e.pipe, side)|;
    }
  }

  /** A fork that fails after the descriptors were copied: the child is gone, its counts stay. */
  ghost function FailedFork(s: State, p: nat, c: nat): State
    requires Inv(s) && p in s.procs && c !in s.procs
  {
    Fork(s, p, c).(procs := s.procs)
  }

  /** A failed fork keeps the counts exactly when the parent holds no pipe end. */
  lemma FailedForkExact(s: State, p: nat, c: nat)
    requires Inv(s) && p in s.procs && c !in s.procs
    ensures Inv(FailedFork(s, p, c)) <==> forall f :: 0 <= f < FDS ==> !s.procs[p][f].End?
  {
    hide Ends, Channel.Valid, Fork;
    ForkKeeps(s, p, c);
    ParentEnds(s, p);
    var t, u := Fork(s, p, c), FailedFork(s, p, c);
    if f :| 0 <= f < FDS && s.procs[p][f].End? {
      var e := s.procs[p][f];
      var side := if e.readable then ReadSide else WriteSide;
      ChildEnds(s.procs, t.procs, c, f, e.pipe, side);
      assert Count(t, e.pipe, side) == |Ends(t.procs, e.pipe, side)|;
      assert u.used[e.pipe] && Count(u, e.pipe, side) != |Ends(u.procs, e.pipe, side)|;
    } else {
      forall i, side | 0 <= i < SLOTS && u.used[i] ensures Count(u, i, side) == |Ends(u.procs, i, side)| {
        NoChildEnds(s.procs, p, c, i, side);
        assert Count(t, i, side) == |Ends(t.procs, i, side)|;
      }
      forall q, g | q in u.procs && 0 <= g < |u.procs[q]| ensures EndIsUsed(u.used, u.procs[q][g]) {
      }
    }
  }

  /** One process more that holds an end makes one end more, at least. */
  lemma ChildEnds(procs: map<nat, seq<Fd>>, more: map<nat, seq<Fd>>, c: nat, f: nat, i: nat, side: Side)
    requires c !in procs && c in more && more - {c} == procs && f < |more[c]| && Holds(more[c][f], i, side)
    ensures |Ends(more, i, side)| > |Ends(procs, i, side)|
  {
    var a, b := Ends(procs, i, side), Ends(more, i, side);
    forall x: (nat, nat) | x in a ensures x in b {
      InEnds(procs, i, side, x.0, x.1);
      InEnds(more, i, side, x.0, x.1);
    }
    InEnds(more, i, side, c, f);
    InEnds(procs, i, side, c, f);
    SubsetSize(a, b - {(c, f)});
  }

  lemma NoChildEnds(procs: map<nat, seq<Fd>>, p: nat, c: nat, i: nat, side: Side)
    requires p in procs && c !in procs && forall f :: 0 <= f < |procs[p]| ==> !procs[p][f].End?
    ensures Ends(procs[c := procs[p]], i, side) == Ends(procs, i, side)
  {
  }

  lemma {:induction false} SubsetSize(a: set<(nat, nat)>, b: set<(nat, nat)>)
    requires a <= b
    ensures |a| <= |b|
  {
    if a != {} {
      var x :| x in a;
      SubsetSize(a - {x}, b - {x});
    }
  }

  /** Two calls from boot lead to a state in which each of the four goes wrong: a process with both
      ends of a pipe copies one over the other, copies one by F_DUPFD, fails to fork, or is killed. */
  lemma CountsBroken() returns (trace: seq<State>)
    ensures IsRun(trace, [DoSpawn(1), DoPipe(1)])
    ensures var s := trace[2];
      && Inv(s) && 1 in s.procs && 2 !in s.procs
      && !Inv(Dup2(s, 1, 3, 4)) && !Inv(DupFd(s, 1, 3, 0)) && !Inv(FailedFork(s, 1, 2)) && !Inv(Leave(s, 1))
  {
    hide Ends, Channel.Valid, Dup2, DupFd, FailedFork, Leave, MakePipe, Counted, Named, Live;
    BootInv();
    var calls := [DoSpawn(1), DoPipe(1)];
    var s0 := Boot();
    SpawnKeeps(s0, 1);
    var s1 := Spawn(s0, 1);
    MakePipeKeeps(s1, 1);
    var s2 := MakePipe(s1, 1);
    FirstPipe(s1, 1);
    trace := [s0, s1, s2];
    assert RunStep(s0, calls[0], s1) && RunStep(s1, calls[1], s2);
    Dup2Exact(s2, 1, 3, 4);
    FirstClosedIs(s2.procs[1], 0, 0);
    DupFdExact(s2, 1, 3, 0);
    FailedForkExact(s2, 1, 2);
    LeaveExact(s2, 1);
  }

  lemma BootInv()
    ensures Inv(Boot())
  {
  }

  /** The first pipe of a process without descriptors. */
  lemma FirstPipe(s: State, p: nat)
    requires Sized(s) && p in s.procs && s.procs[p] == AllClosed() && !s.used[0]
    ensures var t := MakePipe(s, p);
      && t.procs.Keys == s.procs.Keys && |t.procs[p]| == FDS && t.procs[p][0] == Closed
      && t.procs[p][3] == End(0, true, false) && t.procs[p][4] == End(0, false, true)
  {
    hide FirstClosed, FirstUnused;
    FirstUnusedIs(s.used, 0);
    FirstClosedIs(s.procs[p], 3, 3);
    FirstClosedIs(s.procs[p], 4, 4);
  }

  lemma FirstClosedIs(fds: seq<Fd>, from: nat, f: nat)
    requires from <= f <= |fds| && (f < |fds| ==> fds[f] == Closed) && forall g :: from <= g < f ==> fds[g] != Closed
    ensures FirstClosed(fds, from) == f
  {
  }

  lemma FirstUnusedIs(used: seq<bool>, i: nat)
    requires i <= |used| && (i < |used| ==> !used[i]) && forall j :: 0 <= j < i ==> used[j]
    ensures FirstUnused(used, 0) == i
  {
  }
}
