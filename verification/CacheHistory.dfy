/** Runs of cache operations: what each should answer, and which buffers are out with
    clients at each point of a run. */
module CacheHistory {
  import opened Operators
  import opened ByteStrings
  import opened CacheTable

  /** ConvertOp and JoinOp look an entry up, use it and complete it.  FindOp and
      FindListOp only look it up; FillOp and RecordOp complete it later, if it is
      still there.  FreeOp(i) gives back the buffer that operation i handed out. */
  datatype Op =
    | ConvertOp(t: CacheType, z: Bytes)
    | JoinOp(t: CacheType, es: seq<Bytes>)
    | FindOp(t: CacheType, z: Bytes)
    | FindListOp(t: CacheType, es: seq<Bytes>)
    | FillOp(t: CacheType, z: Bytes)
    | RecordOp(t: CacheType, es: seq<Bytes>)
    | RemoveOp(t: CacheType, z: Bytes)
    | ClearOp
    | AllocOp(n: nat)
    | FreeOp(i: nat)

  /** What an operation's own allocations meet: in the cache, and at the platform. */
  datatype Outcome = Outcome(memory: Memory, platform: bool)

  /** A lookup answers with the string of the entry, if there is an entry and it has one. */
  datatype Answer<V> =
    | Conversion(v: V)
    | Text(s: Bytes)
    | Found(data: Option<Bytes>)
    | Buffer(p: array?<byte>)
    | Done

  /** a is what a program without cache and pool could have got: the conversion, the
      join, for a lookup no string but the right one, and a buffer that is large
      enough and missing only when the platform fails. */
  ghost predicate Agrees<V>(w: World<V>, op: Op, o: Outcome, a: Answer<V>) {
    match op
    case ConvertOp(t, z) => a == Conversion(w.convert(t, z))
    case JoinOp(t, es) => a == Text(w.join(es))
    case FindOp(t, z) => a == Found(Some(z)) || (a == Found(None) && (o.memory.NoSlot? || o.memory.NoEntry?))
    case FindListOp(t, es) => a == Found(Some(w.join(es))) || a == Found(None)
    case AllocOp(n) => a.Buffer? && (if a.p == null then !o.platform else a.p.Length >= AtLeastOne(n))
    case _ => a == Done
  }

  ghost predicate AllAgree<V>(w: World<V>, ops: seq<Op>, outcomes: seq<Outcome>, answers: seq<Answer<V>>) {
    && |answers| <= |ops| == |outcomes|
    && forall i | 0 <= i < |answers| :: Agrees(w, ops[i], outcomes[i], answers[i])
  }

  lemma AgreeMore<V>(w: World<V>, ops: seq<Op>, outcomes: seq<Outcome>, answers: seq<Answer<V>>, a: Answer<V>)
    requires AllAgree(w, ops, outcomes, answers) && |answers| < |ops|
    requires Agrees(w, ops[|answers|], outcomes[|answers|], a)
    ensures AllAgree(w, ops, outcomes, answers + [a])
  {
  }

  // ----- What a run asks of its caller

  /** A buffer is given back after it was handed out, and once. */
  predicate FreesOnce(ops: seq<Op>) {
    forall j | 0 <= j < |ops| && ops[j].FreeOp? ::
      ops[j].i < j && ops[ops[j].i].AllocOp? && forall m | j < m < |ops| :: ops[m] != ops[j]
  }

  /** A list that hashes like the empty string leaves an entry without a string when
      it is only looked up, or when there is no memory for the string. */
  predicate Unsettling<V>(w: World<V>, op: Op, memory: Memory) {
    && (op.FindListOp? || (op.JoinOp? && memory != Enough))
    && op.es != [] && w.hashList(op.es) == w.hashBytes([])
  }

  /** Buffers are not conversions. */
  predicate Convertible(op: Op) {
    op.ConvertOp? || op.FillOp? ==> op.t != BufferType
  }

  /** What a run asks of its operations. */
  ghost predicate Permitted<V>(w: World<V>, ops: seq<Op>, outcomes: seq<Outcome>) {
    && |outcomes| == |ops| && FreesOnce(ops)
    && forall i | 0 <= i < |ops| :: !Unsettling(w, ops[i], outcomes[i].memory) && Convertible(ops[i])
  }

  // ----- Who has which buffer

  /** Operation i handed out a buffer. */
  ghost predicate HandsOut<V>(ops: seq<Op>, answers: seq<Answer<V>>, i: nat) {
    i < |answers| <= |ops| && ops[i].AllocOp? && answers[i].Buffer? && answers[i].p != null
  }

  /** The buffer of operation i has not been given back before operation k. */
  ghost predicate Outstanding<V>(ops: seq<Op>, answers: seq<Answer<V>>, i: nat, k: nat) {
    HandsOut(ops, answers, i) && i < k <= |ops| && forall j | i < j < k :: ops[j] != FreeOp(i)
  }

  /** Whenever a buffer is handed out, nobody else has it. */
  ghost predicate NeverShared<V>(ops: seq<Op>, answers: seq<Answer<V>>) {
    forall i: nat, k: nat | HandsOut(ops, answers, k) && Outstanding(ops, answers, i, k) ::
      answers[i].p != answers[k].p
  }

  /** The buffer that one operation hands out, if any. */
  ghost function Got<V>(op: Op, a: Answer<V>): set<array<byte>> {
    if op.AllocOp? && a.Buffer? && a.p != null then {a.p} else {}
  }

  ghost function Handed<V>(ops: seq<Op>, answers: seq<Answer<V>>): set<array<byte>>
    requires |answers| <= |ops|
  {
    if answers == [] then {}
    else
      var k := |answers| - 1;
      Handed(ops, answers[..k]) + Got(ops[k], answers[k])
  }

  lemma {:induction false} InHanded<V>(ops: seq<Op>, answers: seq<Answer<V>>, i: nat)
    requires HandsOut(ops, answers, i)
    ensures answers[i].p in Handed(ops, answers)
  {
    if i < |answers| - 1 {
      InHanded(ops, answers[..|answers|-1], i);
    }
  }

  lemma HandedMore<V>(ops: seq<Op>, answers: seq<Answer<V>>, a: Answer<V>)
    requires |answers| < |ops|
    ensures Handed(ops, answers + [a]) == Handed(ops, answers) + Got(ops[|answers|], a)
  {
    assert (answers + [a])[..|answers|] == answers;
  }

  /** Clients hold what they held before the run and what is outstanding, each with
      the size asked for; owner says which operation a buffer came from. */
  ghost predicate Tracks<V>(ops: seq<Op>, answers: seq<Answer<V>>, owner: map<array<byte>, nat>,
                            before: map<array<byte>, nat>, held: map<array<byte>, nat>)
  {
    && |answers| <= |ops|
    && held.Keys == before.Keys + owner.Keys && before.Keys !! owner.Keys
    && (forall b | b in before :: held[b] == before[b])
    && (forall b | b in owner ::
         && Outstanding(ops, answers, owner[b], |answers|)
         && answers[owner[b]].p == b && held[b] == ops[owner[b]].n)
    && (forall i: nat | Outstanding(ops, answers, i, |answers|) :: answers[i].p in owner && owner[answers[i].p] == i)
  }

  /** An answer more changes nothing about the operations before. */
  lemma Later<V>(ops: seq<Op>, answers: seq<Answer<V>>, a: Answer<V>, i: nat)
    requires |answers| < |ops| && i < |answers|
    ensures HandsOut(ops, answers + [a], i) <==> HandsOut(ops, answers, i)
    ensures Outstanding(ops, answers + [a], i, |answers| + 1)
       <==> Outstanding(ops, answers, i, |answers|) && ops[|answers|] != FreeOp(i)
  {
  }

  /** An operation that neither hands out nor takes back a buffer. */
  lemma TrackIdle<V>(ops: seq<Op>, answers: seq<Answer<V>>, a: Answer<V>, owner: map<array<byte>, nat>,
                     before: map<array<byte>, nat>, held: map<array<byte>, nat>)
    requires |answers| < |ops| && Tracks(ops, answers, owner, before, held)
    requires !HandsOut(ops, answers + [a], |answers|)
    requires ops[|answers|].FreeOp? ==> !Outstanding(ops, answers, ops[|answers|].i, |answers|)
    ensures Tracks(ops, answers + [a], owner, before, held)
  {
    forall i: nat | i < |answers|
      ensures Outstanding(ops, answers + [a], i, |answers| + 1) <==> Outstanding(ops, answers, i, |answers|)
    {
      Later(ops, answers, a, i);
    }
  }

  lemma TrackAlloc<V>(ops: seq<Op>, answers: seq<Answer<V>>, a: Answer<V>, owner: map<array<byte>, nat>,
                      before: map<array<byte>, nat>, held: map<array<byte>, nat>)
    requires |answers| < |ops| && Tracks(ops, answers, owner, before, held)
    requires HandsOut(ops, answers + [a], |answers|) && a.p !in held
    ensures Tracks(ops, answers + [a], owner[a.p := |answers|], before, held[a.p := ops[|answers|].n])
  {
    forall i: nat | i < |answers|
      ensures Outstanding(ops, answers + [a], i, |answers| + 1) <==> Outstanding(ops, answers, i, |answers|)
    {
      Later(ops, answers, a, i);
    }
  }

  lemma TrackFree<V>(ops: seq<Op>, answers: seq<Answer<V>>, a: Answer<V>, owner: map<array<byte>, nat>,
                     before: map<array<byte>, nat>, held: map<array<byte>, nat>, i: nat)
    requires |answers| < |ops| && Tracks(ops, answers, owner, before, held)
    requires ops[|answers|] == FreeOp(i) && Outstanding(ops, answers, i, |answers|)
    ensures Tracks(ops, answers + [a], owner - {answers[i].p}, before, held - {answers[i].p})
  {
    forall j: nat | j < |answers|
      ensures Outstanding(ops, answers + [a], j, |answers| + 1) <==> Outstanding(ops, answers, j, |answers|) && j != i
    {
      Later(ops, answers, a, j);
    }
  }

  /** The next operation: p is the buffer it gives back, if any. */
  lemma TrackNext<V>(ops: seq<Op>, answers: seq<Answer<V>>, a: Answer<V>, owner: map<array<byte>, nat>,
                     before: map<array<byte>, nat>, held: map<array<byte>, nat>, p: array?<byte>,
                     held': map<array<byte>, nat>)
    returns (owner': map<array<byte>, nat>)
    requires |answers| < |ops| && Tracks(ops, answers, owner, before, held)
    requires HandsOut(ops, answers + [a], |answers|) ==> a.p !in held && held' == held[a.p := ops[|answers|].n]
    requires !HandsOut(ops, answers + [a], |answers|) ==>
      held' == if ops[|answers|].FreeOp? && p != null then held - {p} else held
    requires ops[|answers|].FreeOp? ==>
      var i := ops[|answers|].i;
      if p == null then !Outstanding(ops, answers, i, |answers|)
      else Outstanding(ops, answers, i, |answers|) && p == answers[i].p
    ensures Tracks(ops, answers + [a], owner', before, held')
  {
    if HandsOut(ops, answers + [a], |answers|) {
      TrackAlloc(ops, answers, a, owner, before, held);
      owner' := owner[a.p := |answers|];
    } else if ops[|answers|].FreeOp? && p != null {
      TrackFree(ops, answers, a, owner, before, held, ops[|answers|].i);
      owner' := owner - {p};
    } else {
      TrackIdle(ops, answers, a, owner, before, held);
      owner' := owner;
    }
  }

  /** What is given back is outstanding, if there was a buffer at all. */
  lemma GivenBack<V>(ops: seq<Op>, answers: seq<Answer<V>>, k: nat)
    requires FreesOnce(ops) && k < |ops| && |answers| == k && ops[k].FreeOp? && HandsOut(ops, answers, ops[k].i)
    ensures Outstanding(ops, answers, ops[k].i, k)
  {
    var i := ops[k].i;
    forall j | i < j < k
      ensures ops[j] != FreeOp(i)
    {
      if ops[j].FreeOp? {
        assert ops[k] != ops[j];
      }
    }
  }

  lemma StaysUnshared<V>(ops: seq<Op>, answers: seq<Answer<V>>, a: Answer<V>, owner: map<array<byte>, nat>,
                         before: map<array<byte>, nat>, held: map<array<byte>, nat>)
    requires |answers| < |ops| && Tracks(ops, answers, owner, before, held) && NeverShared(ops, answers)
    requires HandsOut(ops, answers + [a], |answers|) ==> a.p !in held
    ensures NeverShared(ops, answers + [a])
  {
    var more := answers + [a];
    forall i: nat, k: nat | HandsOut(ops, more, k) && Outstanding(ops, more, i, k)
      ensures more[i].p != more[k].p
    {
      assert Outstanding(ops, answers, i, k);
      if k < |answers| {
        assert HandsOut(ops, answers, k);
      }
    }
  }
}
