/** `BufferedPointsWriter`: batches the points of SELECT INTO before they reach the real writer. */
module CoordinatorBuffer {

  datatype Destination = Destination(database: string, retentionPolicy: string)

  function Flatten<T>(batches: seq<seq<T>>): seq<T> {
    if batches == [] then [] else Flatten(batches[..|batches| - 1]) + batches[|batches| - 1]
  }

  /** The writer underneath: `accepts(k)` says whether its `k`-th call succeeds, and `batches` holds
      what the successful calls were given. */
  class Sink<T> {
    const accepts: nat -> bool
    var calls: nat
    var batches: seq<seq<T>>

    constructor (accepts: nat -> bool)
      ensures this.accepts == accepts && calls == 0 && batches == []
    {
      this.accepts := accepts;
      calls, batches := 0, [];
    }

    method Write(points: seq<T>) returns (ok: bool)
      modifies this
      ensures ok == accepts(old(calls)) && calls == old(calls) + 1
      ensures batches == if ok then old(batches) + [points] else old(batches)
    {
      ok := accepts(calls);
      calls := calls + 1;
      if ok {
        batches := batches + [points];
      }
    }
  }

  class BufferedPointsWriter<T> {
    const sink: Sink<T>
    const destination: Destination
    const capacity: nat
    var buf: seq<T>

    constructor (sink: Sink<T>, destination: Destination, capacity: nat)
      ensures this.sink == sink && this.destination == destination && this.capacity == capacity
      ensures buf == [] && Valid()
    {
      this.sink, this.destination, this.capacity := sink, destination, capacity;
      buf := [];
    }

    ghost predicate Valid()
      reads this
    {
      |buf| <= capacity
    }

    /** Everything accepted so far: what the sink has, then what is still buffered. */
    ghost function Accepted(): seq<T>
      reads this, sink
    {
      Flatten(sink.batches) + buf
    }

    /** Hands the whole buffer to the sink. If that fails the points stay in the buffer. */
    method Flush() returns (ok: bool)
      requires Valid()
      modifies this, sink
      ensures Valid() && Accepted() == old(Accepted())
      ensures old(buf) == [] ==> ok && sink.calls == old(sink.calls)
      ensures old(buf) != [] ==> ok == sink.accepts(old(sink.calls)) && sink.calls == old(sink.calls) + 1
      ensures sink.batches == if ok && old(buf) != [] then old(sink.batches) + [old(buf)] else old(sink.batches)
      ensures buf == if ok then [] else old(buf)
    {
      if |buf| == 0 {
        return true;
      }
      ok := sink.Write(buf);
      if ok {
        assert sink.batches[..|sink.batches| - 1] == old(sink.batches);
        buf := [];
      }
    }

    /** One round: fills the buffer as far as it goes and flushes it if that made it full. */
    method Round(points: seq<T>) returns (ok: bool, n: nat)
      requires Valid()
      modifies this, sink
      ensures Valid()
      ensures n <= |points| && Accepted() == old(Accepted()) + points[..n]
      ensures ok ==> (|buf|, |points| - n) == NextRound(capacity, |old(buf)|, |points|)
      ensures !ok ==> |buf| == capacity && sink.calls > 0 && !sink.accepts(sink.calls - 1)
      ensures sink.batches == old(sink.batches)
           || (|sink.batches| == |old(sink.batches)| + 1 && sink.batches[..|old(sink.batches)|] == old(sink.batches)
               && |sink.batches[|old(sink.batches)|]| == capacity)
    {
      var avail := capacity - |buf|;
      n := |points|;
      if n > avail {
        n := avail;
      }
      buf := buf + points[..n];
      assert Accepted() == old(Accepted()) + points[..n];
      ok := true;
      if |buf| == capacity {
        ok := Flush();
      }
    }

    /** Batches that came in since `before` are as long as the buffer. */
    ghost predicate FullSince(before: seq<seq<T>>)
      reads this, sink
    {
      && before <= sink.batches
      && forall k :: |before| <= k < |sink.batches| ==> |sink.batches[k]| == capacity
    }

    /** Takes the points in order. All are taken unless a flush fails, and then the first `taken`. */
    method WritePointsInto(to: Destination, points: seq<T>) returns (ok: bool, ghost taken: nat)
      requires Valid() && CanFinish(capacity, points)
      modifies this, sink
      ensures Valid()
      ensures to != destination ==> !ok && taken == 0 && buf == old(buf) && sink.batches == old(sink.batches)
      ensures taken <= |points| && Accepted() == old(Accepted()) + points[..taken]
      ensures to == destination && !ok ==> |buf| == capacity && sink.calls > 0 && !sink.accepts(sink.calls - 1)
      ensures ok ==> taken == |points| && if points == [] then buf == old(buf) else |buf| < capacity
      ensures FullSince(old(sink.batches))
    {
      taken := 0;
      if to != destination {
        return false, 0;
      }
      var i := 0;
      while i < |points|
        invariant 0 <= i <= |points| && Valid()
        invariant Accepted() == old(Accepted()) + points[..i]
        invariant i > 0 ==> |buf| < capacity
        invariant points == [] ==> buf == old(buf)
        invariant FullSince(old(sink.batches))
        decreases |points| - i, |buf|
      {
        var n;
        ok, n := Round(points[i..]);
        assert points[..i] + points[i..][..n] == points[..i + n];
        i := i + n;
        if !ok {
          return false, i;
        }
      }
      return true, i;
    }
  }

  // ---------------------------------------------------------------------------------------
  // Runs of calls
  // ---------------------------------------------------------------------------------------

  datatype Call<T> = WriteInto(to: Destination, points: seq<T>) | FlushNow

  /** What came of a call: whether it succeeded, how many points it took, and how full the buffer was
      before and after. */
  datatype Outcome = Outcome(ok: bool, count: nat, before: nat, after: nat)

  /** The points accepted by calls of which each took the first so many of its points. */
  function Taken<T>(calls: seq<Call<T>>, outcomes: seq<Outcome>): seq<T>
    requires |calls| == |outcomes|
  {
    if calls == [] then []
    else
      var n := |calls| - 1;
      Taken(calls[..n], outcomes[..n]) + TakenBy(calls[n], outcomes[n].count)
  }

  function TakenBy<T>(call: Call<T>, count: nat): seq<T> {
    if call.WriteInto? && count <= |call.points| then call.points[..count] else []
  }

  lemma TakenNext<T>(before: seq<T>, calls: seq<Call<T>>, outcomes: seq<Outcome>, i: nat, o: Outcome)
    requires i < |calls| && i == |outcomes|
    ensures before + Taken(calls[..i + 1], outcomes + [o]) ==
            before + Taken(calls[..i], outcomes) + TakenBy(calls[i], o.count)
  {
    assert calls[..i + 1][..i] == calls[..i] && (outcomes + [o])[..i] == outcomes;
  }

  /** A call that succeeded took all of its points, and left room in the buffer, unless there was none
      before and nothing to write. */
  predicate IsFine<T>(call: Call<T>, o: Outcome, capacity: nat) {
    && o.after <= capacity
    && (o.ok && call.WriteInto? ==> o.count == |call.points|)
    && (o.ok ==> (o.after < capacity <==> o.before < capacity || call.FlushNow? || call.points != []))
  }

  predicate AllFine<T>(calls: seq<Call<T>>, outcomes: seq<Outcome>, capacity: nat) {
    |calls| == |outcomes| && forall i :: 0 <= i < |calls| ==> IsFine(calls[i], outcomes[i], capacity)
  }

  /** Each call finds the buffer as the one before left it. */
  predicate IsHistory(outcomes: seq<Outcome>, first: nat, last: nat) {
    && (outcomes == [] ==> first == last)
    && (outcomes != [] ==> outcomes[0].before == first && outcomes[|outcomes| - 1].after == last)
    && (forall i :: 0 <= i < |outcomes| - 1 ==> outcomes[i].after == outcomes[i + 1].before)
  }

  lemma HistoryNext(outcomes: seq<Outcome>, first: nat, o: Outcome)
    requires IsHistory(outcomes, first, o.before)
    ensures IsHistory(outcomes + [o], first, o.after)
  {
  }

  lemma AllFineNext<T>(calls: seq<Call<T>>, outcomes: seq<Outcome>, capacity: nat, i: nat, o: Outcome)
    requires i < |calls| && AllFine(calls[..i], outcomes, capacity) && IsFine(calls[i], o, capacity)
    ensures AllFine(calls[..i + 1], outcomes + [o], capacity)
  {
  }

  /** Over every run of calls, whatever flushes fail, what the sink has and what is buffered make up
      the accepted points in order. */
  method RunCalls<T>(w: BufferedPointsWriter<T>, calls: seq<Call<T>>)
    returns (results: seq<bool>, ghost outcomes: seq<Outcome>)
    requires w.Valid() && w.capacity > 0
    modifies w, w.sink
    ensures w.Valid() && AllFine(calls, outcomes, w.capacity)
    ensures w.Accepted() == old(w.Accepted()) + Taken(calls, outcomes)
    ensures IsHistory(outcomes, old(|w.buf|), |w.buf|)
    ensures |results| == |calls| && forall i :: 0 <= i < |calls| ==> results[i] == outcomes[i].ok
  {
    results, outcomes := [], [];
    for i := 0 to |calls|
      invariant w.Valid() && AllFine(calls[..i], outcomes, w.capacity)
      invariant w.Accepted() == old(w.Accepted()) + Taken(calls[..i], outcomes)
      invariant IsHistory(outcomes, old(|w.buf|), |w.buf|)
      invariant |results| == i && forall j :: 0 <= j < i ==> results[j] == outcomes[j].ok
    {
      var ok;
      ghost var o;
      ok, o := PerformCall(w, calls[i]);
      TakenNext(old(w.Accepted()), calls, outcomes, i, o);
      HistoryNext(outcomes, old(|w.buf|), o);
      AllFineNext(calls, outcomes, w.capacity, i, o);
      results, outcomes := results + [ok], outcomes + [o];
    }
    assert calls[..|calls|] == calls;
  }

  method PerformCall<T>(w: BufferedPointsWriter<T>, call: Call<T>) returns (ok: bool, ghost o: Outcome)
    requires w.Valid() && w.capacity > 0
    modifies w, w.sink
    ensures w.Valid() && w.Accepted() == old(w.Accepted()) + TakenBy(call, o.count) && IsFine(call, o, w.capacity)
    ensures o.ok == ok && o.before == |old(w.buf)| && o.after == |w.buf|
  {
    ghost var count: nat := 0;
    match call {
      case WriteInto(to, points) =>
        ok, count := w.WritePointsInto(to, points);
      case FlushNow =>
        ok := w.Flush();
    }
    o := Outcome(ok, count, |old(w.buf)|, |w.buf|);
  }

  // So as long as flushes succeed, the buffer never stays full.

  /** A run whose calls all succeed and that starts with room in the buffer has room throughout. */
  lemma {:induction false} RoomThroughout<T>(calls: seq<Call<T>>, outcomes: seq<Outcome>, capacity: nat, first: nat,
                                             last: nat)
    requires AllFine(calls, outcomes, capacity) && IsHistory(outcomes, first, last) && first < capacity
    requires forall i :: 0 <= i < |outcomes| ==> outcomes[i].ok
    ensures last < capacity && forall i :: 0 <= i < |outcomes| ==> outcomes[i].after < capacity
    decreases |outcomes|
  {
    if outcomes != [] {
      var n := |outcomes| - 1;
      RoomThroughout(calls[..n], outcomes[..n], capacity, first, outcomes[n].before);
    }
  }

  // ---------------------------------------------------------------------------------------
  // When the copying loop ends
  // ---------------------------------------------------------------------------------------

  /** Buffered and remaining points after a round whose flush, if there is one, succeeds. */
  function NextRound(capacity: nat, buffered: nat, left: nat): (nat, nat)
    requires buffered <= capacity
  {
    var n := if left > capacity - buffered then capacity - buffered else left;
    (if buffered + n == capacity then 0 else buffered + n, left - n)
  }

  /** The same after `k` rounds; the loop stops when nothing remains. */
  function After(capacity: nat, buffered: nat, left: nat, k: nat): (nat, nat)
    requires buffered <= capacity
    decreases k
  {
    if k == 0 || left == 0 then (buffered, left)
    else
      var (b, l) := NextRound(capacity, buffered, left);
      After(capacity, b, l, k - 1)
  }

  /** The condition under which `WritePointsInto` returns. */
  predicate CanFinish<T>(capacity: nat, points: seq<T>) {
    capacity > 0 || points == []
  }

  lemma {:induction false} Stuck(left: nat, k: nat)
    ensures After(0, 0, left, k).1 == left
  {
    if k > 0 {
      Stuck(left, k - 1);
    }
  }

  lemma {:induction false} Finishes(capacity: nat, buffered: nat, left: nat) returns (k: nat)
    requires 0 < capacity && buffered <= capacity
    ensures After(capacity, buffered, left, k).1 == 0
    decreases left, buffered
  {
    k := 0;
    if left > 0 {
      var (b, l) := NextRound(capacity, buffered, left);
      var m := Finishes(capacity, b, l);
      k := m + 1;
    }
  }

  /** If no flush fails, the loop ends exactly when there is nothing to copy or the buffer has room at
      all: with capacity 0 it copies nothing for ever. */
  lemma LoopEndsExactly<T>(capacity: nat, buffered: nat, points: seq<T>)
    requires buffered <= capacity
    ensures (exists k: nat :: After(capacity, buffered, |points|, k).1 == 0) <==> CanFinish(capacity, points)
  {
    if capacity > 0 {
      var k := Finishes(capacity, buffered, |points|);
    } else if points == [] {
      assert After(capacity, buffered, |points|, 0).1 == 0;
    } else {
      forall k: nat {
        Stuck(|points|, k);
      }
    }
  }

  // ---------------------------------------------------------------------------------------
  // Batches do not depend on how the points arrive
  // ---------------------------------------------------------------------------------------

  predicate AllFull<T>(batches: seq<seq<T>>, capacity: nat) {
    forall k :: 0 <= k < |batches| ==> |batches[k]| == capacity
  }

  lemma {:induction false} FlattenFirst<T>(batches: seq<seq<T>>)
    requires batches != []
    ensures Flatten(batches) == batches[0] + Flatten(batches[1..])
  {
    var init := batches[..|batches| - 1];
    if init != [] {
      FlattenFirst(init);
      assert batches[1..][..|batches| - 2] == init[1..];
    }
  }

  /** Full batches and a shorter rest are determined by the points alone, so two writers that have
      accepted the same points have delivered the same batches, however the points were divided into
      calls. */
  lemma {:induction false} BatchesAreDetermined<T>(a: seq<seq<T>>, restA: seq<T>, b: seq<seq<T>>, restB: seq<T>,
                                                   capacity: nat)
    requires AllFull(a, capacity) && AllFull(b, capacity) && |restA| < capacity && |restB| < capacity
    requires Flatten(a) + restA == Flatten(b) + restB
    ensures a == b && restA == restB
    decreases |a|
  {
    assert |Flatten(a)| + |restA| == |Flatten(b)| + |restB|;
    if a != [] {
      FlattenFirst(a);
      assert Flatten(a) + restA == a[0] + (Flatten(a[1..]) + restA);
    }
    if b != [] {
      FlattenFirst(b);
      assert Flatten(b) + restB == b[0] + (Flatten(b[1..]) + restB);
    }
    if a != [] && b != [] {
      SplitAt(a[0], Flatten(a[1..]) + restA, b[0], Flatten(b[1..]) + restB);
      BatchesAreDetermined(a[1..], restA, b[1..], restB, capacity);
      assert a == [a[0]] + a[1..] && b == [b[0]] + b[1..];
    } else {
      assert a == b == [];
      assert Flatten(a) + restA == restA && Flatten(b) + restB == restB;
    }
  }

  lemma SplitAt<T>(x: seq<T>, rest: seq<T>, y: seq<T>, rest': seq<T>)
    requires |x| == |y| && x + rest == y + rest'
    ensures x == y && rest == rest'
  {
    assert x == (x + rest)[..|x|] == y;
    assert rest == (x + rest)[|x|..] == rest';
  }

  /** So two writers of one capacity that have accepted the same points in full batches have delivered
      the same batches and hold the same rest. */
  lemma WritersAgree<T>(v: BufferedPointsWriter<T>, w: BufferedPointsWriter<T>)
    requires v.capacity == w.capacity && |v.buf| < v.capacity && |w.buf| < w.capacity
    requires v.FullSince([]) && w.FullSince([]) && v.Accepted() == w.Accepted()
    ensures v.sink.batches == w.sink.batches && v.buf == w.buf
  {
    BatchesAreDetermined(v.sink.batches, v.buf, w.sink.batches, w.buf, v.capacity);
  }

  /** Writes points in several calls to a sink that accepts everything. */
  method WriteParts<T>(w: BufferedPointsWriter<T>, parts: seq<seq<T>>)
    requires |w.buf| < w.capacity && forall k: nat :: w.sink.accepts(k)
    modifies w, w.sink
    ensures |w.buf| < w.capacity && w.FullSince(old(w.sink.batches))
    ensures w.Accepted() == old(w.Accepted()) + Flatten(parts)
  {
    for i := 0 to |parts|
      invariant |w.buf| < w.capacity && w.FullSince(old(w.sink.batches))
      invariant w.Accepted() == old(w.Accepted()) + Flatten(parts[..i])
    {
      var _, _ := w.WritePointsInto(w.destination, parts[i]);
      assert parts[..i + 1][..i] == parts[..i] && parts[i][..|parts[i]|] == parts[i];
    }
    assert parts[..|parts|] == parts;
  }

  /** However the same points are divided into calls, the same full batches reach the sink. */
  method DivideTwoWays<T>(parts: seq<seq<T>>, others: seq<seq<T>>, to: Destination, capacity: nat)
    returns (a: seq<seq<T>>, b: seq<seq<T>>, rest: seq<T>)
    requires capacity > 0 && Flatten(parts) == Flatten(others)
    ensures a == b && AllFull(a, capacity) && |rest| < capacity && Flatten(a) + rest == Flatten(parts)
  {
    var sink := new Sink<T>(_ => true);
    var v := new BufferedPointsWriter<T>(sink, to, capacity);
    var other := new Sink<T>(_ => true);
    var w := new BufferedPointsWriter<T>(other, to, capacity);
    WriteParts(v, parts);
    WriteParts(w, others);
    WritersAgree(v, w);
    a, b, rest := sink.batches, other.batches, v.buf;
  }
}
