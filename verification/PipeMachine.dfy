/** A pipe (xv6/pipe.c) as an unbounded FIFO with a window of PIPESIZE bytes.  A step is what
    one process does between taking the pipe's lock and giving it up, by release or by sleep. */
module PipeMachine {
  import Blocks

  const PIPESIZE := 512

  type Byte = Blocks.Byte

  /** stored: all bytes ever stored; taken: how many of them have been read; readers and
      writers: processes asleep on nread and on nwrite. */
  datatype Raw = Raw(stored: seq<Byte>, taken: nat, readopen: bool, writeopen: bool, readers: set<nat>, writers: set<nat>)

  datatype Event =
    | Write(me: nat, rest: seq<Byte>, killed: bool)  // pipewrite with `rest` still to store
    | Read(me: nat, n: nat, killed: bool)
    | Close(writable: bool)
    | Interrupt(me: nat)                             // kill wakes a sleeper

  datatype Outcome = Done | Fail | Sleep

  predicate Window(p: Raw) {
    p.taken <= |p.stored| <= p.taken + PIPESIZE
  }

  type Pipe = p: Raw | Window(p) witness Raw([], 0, true, true, {}, {})

  function Room(p: Pipe): nat {
    PIPESIZE - (|p.stored| - p.taken)
  }

  function Min(a: nat, b: nat): nat {
    if a < b then a else b
  }

  /** What becomes of a call of pipewrite or piperead in this step. */
  function Result(p: Pipe, e: Event): Outcome {
    match e
    case Write(_, rest, killed) => if |rest| <= Room(p) then Done else if !p.readopen || killed then Fail else Sleep
    case Read(_, _, killed) => if p.taken < |p.stored| || !p.writeopen then Done else if killed then Fail else Sleep
    case _ => Done
  }

  function Apply(p: Pipe, e: Event): Pipe {
    match e
    case Write(me, rest, killed) =>
      var q := p.(stored := p.stored + rest[..Min(|rest|, Room(p))]);
      (match Result(p, e)
       case Done => q.(readers := {})
       case Fail => q
       case Sleep => q.(readers := {}, writers := p.writers + {me}))
    case Read(me, n, killed) =>
      (match Result(p, e)
       case Done => p.(taken := p.taken + Min(n, |p.stored| - p.taken), writers := {})
       case Fail => p
       case Sleep => p.(readers := p.readers + {me}))
    case Close(writable) =>
      if writable then p.(writeopen := false, readers := {}) else p.(readopen := false, writers := {})
    case Interrupt(me) => p.(readers := p.readers - {me}, writers := p.writers - {me})
  }

  /** Whenever the lock is free: a writer asleep faces a full pipe whose read end is open, and
      a reader asleep faces an open write end. */
  predicate Inv(p: Pipe) {
    && (p.writers != {} ==> Room(p) == 0 && p.readopen)
    && (p.readers != {} ==> p.writeopen)
  }

  lemma InvStep(p: Pipe, e: Event)
    requires Inv(p)
    ensures Inv(Apply(p, e)) && p.stored <= Apply(p, e).stored && p.taken <= Apply(p, e).taken
  {
  }

  ghost function Final(p: Pipe, es: seq<Event>): Pipe {
    if |es| == 0 then p else Apply(Final(p, es[..|es| - 1]), es[|es| - 1])
  }

  /** The bytes the reads of a run return, in order. */
  ghost function Received(p: Pipe, es: seq<Event>): seq<Byte> {
    if |es| == 0 then [] else Received(p, es[..|es| - 1]) + Returned(Final(p, es[..|es| - 1]), es[|es| - 1])
  }

  /** The bytes the writes of a run get into the pipe, in order: of each write the part that fits. */
  ghost function Sent(p: Pipe, es: seq<Event>): seq<Byte> {
    if |es| == 0 then []
    else
      var n := |es| - 1;
      var e := es[n];
      Sent(p, es[..n]) + if e.Write? then e.rest[..Fitting(Final(p, es[..n]), |e.rest|)] else []
  }

  /** How many of n bytes fit: all, or as many as fill the pipe. */
  function Fitting(p: Pipe, n: nat): (r: nat)
    ensures r <= n && |p.stored| + r <= p.taken + PIPESIZE && (r < n ==> |p.stored| + r == p.taken + PIPESIZE)
  {
    Min(n, Room(p))
  }

  /** What a step stores, takes and wakes. */
  lemma StepMeans(p: Pipe, e: Event)
    ensures var q := Apply(p, e);
      && (e.Write? ==> q.stored == p.stored + e.rest[..Fitting(p, |e.rest|)] && q.taken == p.taken)
      && (!e.Write? ==> q.stored == p.stored)
      && (e.Read? && Result(p, e).Done? ==>
        q.taken == (if p.taken + e.n < |p.stored| then p.taken + e.n else |p.stored|) && q.writers == {})
      && (e.Read? && !Result(p, e).Done? ==> q.taken == p.taken == |p.stored| && p.writeopen)
      && (e.Write? && !Result(p, e).Fail? ==> q.readers == {})
      && (Result(p, e).Sleep? ==> if e.Write? then e.me in q.writers else e.Read? && e.me in q.readers)
  {
  }

  /** The bytes one step returns to its reader. */
  function Returned(p: Pipe, e: Event): seq<Byte> {
    if e.Read? then p.stored[p.taken..p.taken + Min(e.n, |p.stored| - p.taken)] else []
  }

  lemma ReturnedNext(p: Pipe, e: Event)
    ensures Apply(p, e).stored[..Apply(p, e).taken] == p.stored[..p.taken] + Returned(p, e)
  {
  }

  /** Nothing but what the writes pass gets into the pipe, in their order. */
  lemma {:induction false} SentIsStored(p: Pipe, es: seq<Event>)
    ensures Final(p, es).stored == p.stored + Sent(p, es)
    decreases |es|
  {
    hide Apply, Result, Fitting;
    if |es| == 0 {
    } else {
      var n := |es| - 1;
      SentIsStored(p, es[..n]);
      StepMeans(Final(p, es[..n]), es[n]);
    }
  }

  lemma {:induction false} ReceivedIsTaken(p: Pipe, es: seq<Event>)
    requires p.taken == 0
    ensures Received(p, es) == Final(p, es).stored[..Final(p, es).taken]
    decreases |es|
  {
    hide Apply, Returned;
    if |es| == 0 {
    } else {
      var n := |es| - 1;
      ReceivedIsTaken(p, es[..n]);
      ReturnedNext(Final(p, es[..n]), es[n]);
    }
  }

  lemma {:induction false} InvFinal(p: Pipe, es: seq<Event>)
    requires Inv(p)
    ensures Inv(Final(p, es))
    decreases |es|
  {
    if |es| == 0 {
    } else {
      InvFinal(p, es[..|es| - 1]);
      InvStep(Final(p, es[..|es| - 1]), es[|es| - 1]);
    }
  }

  /** Over every interleaving of readers and writers, what has been read is a prefix of what was
      there at first and what the writers passed, in order, and at most PIPESIZE bytes are in between. */
  lemma Fifo(p: Pipe, es: seq<Event>)
    requires Inv(p) && p.taken == 0
    ensures Inv(Final(p, es)) && Received(p, es) <= p.stored + Sent(p, es)
    ensures |p.stored + Sent(p, es)| - |Received(p, es)| <= PIPESIZE
    ensures Received(p, es) == Final(p, es).stored[..Final(p, es).taken]
  {
    InvFinal(p, es);
    SentIsStored(p, es);
    ReceivedIsTaken(p, es);
  }

  /** The stronger claim for readers, that one asleep faces an empty pipe, survives a step
      exactly when the step is not a write that fills the empty pipe and then fails, for a
      killed process or a closed read end: that write stores bytes and wakes no one. */
  lemma ReaderAsleepFacesEmpty(p: Pipe, e: Event)
    requires p.readers != {} && p.taken == |p.stored|
    ensures (Apply(p, e).readers == {} || Apply(p, e).taken == |Apply(p, e).stored|)
      <==> !(e.Write? && |e.rest| > PIPESIZE && (e.killed || !p.readopen))
  {
    if e.Write? {
      assert Room(p) == PIPESIZE;
    }
  }
}
