/**
 Any sequence of trace, walk and reset calls on the ring behaves as a bounded
 first-in first-out queue of whole records.
 */
module RegTraceFifo {
  import opened Bytes
  import opened RegTrace

  datatype Op =
    | DoTrace(op: nat, ts: seq<Byte>, pad: seq<Byte>, payload: seq<Byte>)
    | DoWalk(haveBuffer: bool)
    | DoReset
  {
    predicate Valid() {
      DoTrace? ==> op < LEN_LIMIT && |ts| == 16 && |pad| == 4
    }

    /** The payload length fits the 16-bit length field. */
    predicate Fits() {
      DoTrace? ==> |payload| < LEN_LIMIT
    }
  }

  /** The queue: whole records waiting, whether one was refused since the last reset, and
      the largest fill level seen by a reset. */
  datatype Fifo = Fifo(pending: seq<Record>, refused: bool, highWater: nat) {
    ghost predicate Valid() {
      AllTraced(pending) && forall r :: r in pending ==> |r.payload| < LEN_LIMIT
    }

    function Size(): nat
      requires AllTraced(pending)
    {
      |Flatten(pending)|
    }
  }

  function ToRecord(o: Op): Record
    requires o.Valid() && o.DoTrace?
  {
    Record(Header(o.ts, o.op, |o.payload| % LEN_LIMIT, o.pad), o.payload)
  }

  /** One call on a queue that holds less than `size` bytes, with what a walk delivers. */
  ghost function Apply(f: Fifo, o: Op, size: nat): (Fifo, seq<Record>)
    requires AllTraced(f.pending) && o.Valid()
  {
    match o
    case DoTrace(_, _, _, payload) =>
      if f.Size() + HDR_SIZE + |payload| < size then (f.(pending := f.pending + [ToRecord(o)]), [])
      else (f.(refused := true), [])
    case DoWalk(haveBuffer) =>
      if haveBuffer then (f.(pending := []), f.pending) else (f, [])
    case DoReset =>
      (Fifo([], false, if f.Size() + 1 > f.highWater then f.Size() + 1 else f.highWater), [])
  }

  predicate AllFit(ops: seq<Op>) {
    forall i :: 0 <= i < |ops| ==> ops[i].Valid() && ops[i].Fits()
  }

  lemma ApplyKeepsValid(f: Fifo, o: Op, size: nat)
    requires f.Valid() && o.Valid() && o.Fits()
    ensures Apply(f, o, size).0.Valid()
  {
  }

  /** The queue after a list of calls, and everything the walks delivered. */
  ghost function RunFifo(f: Fifo, ops: seq<Op>, size: nat): (res: (Fifo, seq<Record>))
    requires f.Valid() && AllFit(ops)
    ensures res.0.Valid()
  {
    if ops == [] then (f, [])
    else
      var (before, out) := RunFifo(f, ops[..|ops| - 1], size);
      var o := ops[|ops| - 1];
      ApplyKeepsValid(before, o, size);
      var (after, more) := Apply(before, o, size);
      (after, out + more)
  }

  /** The bytes in the ring are the queue's records, and nothing else. */
  ghost predicate Represents(ring: Ring, f: Fifo)
    reads ring, ring.data
  {
    && f.Valid() && ring.Valid()
    && ring.Stored() == Flatten(f.pending)
    && ring.overflow == f.refused
    && ring.maxSize == f.highWater
  }

  method Do(ring: Ring, o: Op, ghost f: Fifo) returns (out: seq<Record>)
    requires Represents(ring, f) && o.Valid() && o.Fits()
    modifies ring, ring.data
    ensures Represents(ring, Apply(f, o, ring.size).0)
    ensures out == Apply(f, o, ring.size).1
    ensures ring.Stored() == [] || !o.DoWalk? || !o.haveBuffer
  {
    out := [];
    match o {
      case DoTrace(op, ts, pad, payload) =>
        ghost var r := ToRecord(o);
        var accepted := ring.Trace(op, ts, pad, payload);
        if accepted {
          FlattenAppend(f.pending, r);
        }
      case DoWalk(haveBuffer) =>
        out := ring.Walk(haveBuffer);
        WalkGivesBackRecords(f.pending, ring.size);
      case DoReset =>
        ring.Reset();
    }
  }

  lemma RunNothing(f: Fifo, size: nat)
    requires f.Valid()
    ensures RunFifo(f, [], size) == (f, [])
  {
  }

  lemma RunMore(f: Fifo, ops: seq<Op>, i: nat, size: nat)
    requires f.Valid() && AllFit(ops) && i < |ops|
    ensures AllFit(ops[..i]) && AllFit(ops[..i + 1])
    ensures
      var (before, out) := RunFifo(f, ops[..i], size);
      RunFifo(f, ops[..i + 1], size) == (Apply(before, ops[i], size).0, out + Apply(before, ops[i], size).1)
  {
    hide Apply;
    assert ops[..i + 1][..i] == ops[..i];
  }

  /** For every sequence of calls, the walks deliver what the queue delivers: each
      accepted record once, whole and in order, unless a reset dropped it. */
  method Run(ring: Ring, ops: seq<Op>, ghost f: Fifo) returns (out: seq<Record>)
    requires Represents(ring, f) && AllFit(ops)
    modifies ring, ring.data
    ensures Represents(ring, RunFifo(f, ops, ring.size).0)
    ensures out == RunFifo(f, ops, ring.size).1
  {
    RunNothing(f, ring.size);
    hide RunFifo, Apply, Represents;
    out := [];
    for i := 0 to |ops|
      invariant AllFit(ops[..i])
      invariant Represents(ring, RunFifo(f, ops[..i], ring.size).0)
      invariant out == RunFifo(f, ops[..i], ring.size).1
    {
      RunMore(f, ops, i, ring.size);
      var more := Do(ring, ops[i], RunFifo(f, ops[..i], ring.size).0);
      out := out + more;
    }
    assert ops[..|ops|] == ops;
  }

  /** The accepted records of a run without resets. */
  ghost function Accepted(f: Fifo, ops: seq<Op>, size: nat): seq<Record>
    requires f.Valid() && AllFit(ops)
  {
    if ops == [] then []
    else
      var earlier := ops[..|ops| - 1];
      var o := ops[|ops| - 1];
      Accepted(f, earlier, size)
      + if o.DoTrace? && RunFifo(f, earlier, size).0.Size() + HDR_SIZE + |o.payload| < size then [ToRecord(o)] else []
  }

  /** Conservation: without a reset, what was delivered followed by what still waits is
      exactly what was waiting at first followed by what was accepted. */
  lemma {:induction false} NothingLost(f: Fifo, ops: seq<Op>, size: nat)
    requires f.Valid() && AllFit(ops) && forall o :: o in ops ==> !o.DoReset?
    ensures RunFifo(f, ops, size).1 + RunFifo(f, ops, size).0.pending == f.pending + Accepted(f, ops, size)
  {
    if ops == [] {
      assert [] + f.pending == f.pending + [];
    } else {
      var earlier := ops[..|ops| - 1];
      NothingLost(f, earlier, size);
      var (before, out) := RunFifo(f, earlier, size);
      var o := ops[|ops| - 1];
      assert o in ops;
      assert out + [] == out && Accepted(f, earlier, size) + [] == Accepted(f, earlier, size);
      assert (out + before.pending) + [] == out + before.pending;
      if o.DoTrace? {
        assert out + (before.pending + [ToRecord(o)]) == (out + before.pending) + [ToRecord(o)];
        assert (f.pending + Accepted(f, earlier, size)) + [ToRecord(o)]
           == f.pending + (Accepted(f, earlier, size) + [ToRecord(o)]);
      }
    }
  }

  ghost predicate NoResetFrom(ops: seq<Op>, i: nat) {
    forall j :: i <= j < |ops| ==> !ops[j].DoReset?
  }

  /** Call i is refused for want of space, and no reset follows. */
  ghost predicate RefusedAt(f: Fifo, ops: seq<Op>, size: nat, i: nat)
    requires f.Valid() && AllFit(ops)
  {
    && i < |ops| && ops[i].DoTrace? && AllFit(ops[..i])
    && RunFifo(f, ops[..i], size).0.Size() + HDR_SIZE + |ops[i].payload| >= size
    && NoResetFrom(ops, i + 1)
  }

  lemma RefusedEarlier(f: Fifo, ops: seq<Op>, size: nat, i: nat)
    requires f.Valid() && AllFit(ops) && i < |ops| - 1
    ensures AllFit(ops[..|ops| - 1])
    ensures RefusedAt(f, ops, size, i) <==> RefusedAt(f, ops[..|ops| - 1], size, i) && !ops[|ops| - 1].DoReset?
  {
    hide RunFifo;
    var earlier := ops[..|ops| - 1];
    assert earlier[..i] == ops[..i];
    assert forall j :: 0 <= j < |earlier| ==> earlier[j] == ops[j];
  }

  /** The refusal flag is exactly "some record was refused since the last reset". */
  lemma {:induction false} RefusedExactly(f: Fifo, ops: seq<Op>, size: nat)
    requires f.Valid() && AllFit(ops)
    ensures RunFifo(f, ops, size).0.refused <==>
            (f.refused && NoResetFrom(ops, 0)) || exists i: nat :: RefusedAt(f, ops, size, i)
  {
    if ops != [] {
      var n := |ops| - 1;
      var earlier := ops[..n];
      RefusedExactly(f, earlier, size);
      LastStep(f, ops, size);
      hide RunFifo, RefusedAt;
      forall i: nat
        ensures RefusedAt(f, ops, size, i) <==>
                  (RefusedAt(f, earlier, size, i) && !ops[n].DoReset?)
                  || (i == n && RefusedAt(f, ops, size, n))
      {
        if i < n { RefusedEarlier(f, ops, size, i); } else { RefusedInside(f, ops, size, i); }
      }
    } else {
      forall i: nat ensures !RefusedAt(f, ops, size, i) { }
    }
  }

  lemma RefusedInside(f: Fifo, ops: seq<Op>, size: nat, i: nat)
    requires f.Valid() && AllFit(ops) && i >= |ops| - 1 >= 0
    ensures !RefusedAt(f, ops[..|ops| - 1], size, i)
    ensures i != |ops| - 1 ==> !RefusedAt(f, ops, size, i)
  {
    hide RunFifo;
  }

  lemma LastStep(f: Fifo, ops: seq<Op>, size: nat)
    requires f.Valid() && AllFit(ops) && ops != []
    ensures
      var n := |ops| - 1;
      && AllFit(ops[..n])
      && (RunFifo(f, ops, size).0.refused <==>
          if ops[n].DoReset? then false else RunFifo(f, ops[..n], size).0.refused || RefusedAt(f, ops, size, n))
      && (NoResetFrom(ops, 0) <==> NoResetFrom(ops[..n], 0) && !ops[n].DoReset?)
      && (ops[n].DoReset? ==> !RefusedAt(f, ops, size, n))
  {
    var n := |ops| - 1;
    assert ops == ops[..n] + [ops[n]];
  }
}
