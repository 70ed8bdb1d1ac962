/** A generation swap: the order its steps happen in, and the one store that
    ends it. */
module Swap {
  import opened Wire

  const IN_PLACE: Byte := 2
  const PAUSED: U32 := 0

  datatype Declaration = Declaration(schema: U32, recordBytes: U32, recordsMax: U32, mode: Byte)

  function WindowBytes(d: Declaration): nat { d.recordBytes * d.recordsMax }

  predicate TransfersTo(outgoing: Declaration, incoming: Declaration) {
    && outgoing.mode == IN_PLACE && incoming.mode == IN_PLACE
    && outgoing.schema == incoming.schema && outgoing.recordBytes == incoming.recordBytes
  }

  datatype Abandoned = Incompatible | RingsNotEmpty | NotQuiescent | WindowTooSmall | Refused
  datatype Phase = Planned | Drained | Quiescent | Written | Acknowledged | Committed

  function Order(phase: Phase): nat {
    match phase
    case Planned => 0
    case Drained => 1
    case Quiescent => 2
    case Written => 3
    case Acknowledged => 4
    case Committed => 5
  }

  /** A place's routing word. */
  class Routing {
    var word: U32

    constructor (generation: U32)
      ensures word == generation
    {
      word := generation;
    }

    method Pause()
      modifies this
      ensures word == PAUSED
    {
      word := PAUSED;
    }

    method Commit(generation: U32)
      modifies this
      ensures word == generation
    {
      word := generation;
    }
  }

  datatype State = State(outgoing: Declaration, incoming: Declaration, phase: Phase, records: U32)

  /** A swap and the word it may store. */
  datatype World = World(swap: State, word: U32)

  /** One call on a swap, with whatever its caller says, or a pause of the place. */
  datatype Call =
    | DrainedCall(empty: bool)
    | AssertedCall(holdsNothing: bool)
    | WroteCall(records: U32)
    | AcknowledgedCall(accepted: bool)
    | CommitCall(generation: U32)
    | PauseCall

  function Plan(outgoing: Declaration, incoming: Declaration): Result<State, Abandoned> {
    if !TransfersTo(outgoing, incoming) then Err(Incompatible) else Ok(State(outgoing, incoming, Planned, 0))
  }

  /** One call: the world after it, and why it was refused if it was. */
  function Step(w: World, call: Call): (World, Option<Abandoned>) {
    var s := w.swap;
    match call
    case DrainedCall(empty) =>
      if !s.phase.Planned? then (w, Some(Refused))
      else if !empty then (w, Some(RingsNotEmpty))
      else (w.(swap := s.(phase := Drained)), None)
    case AssertedCall(holdsNothing) =>
      if !s.phase.Drained? then (w, Some(Refused))
      else if !holdsNothing then (w, Some(NotQuiescent))
      else (w.(swap := s.(phase := Quiescent)), None)
    case WroteCall(records) =>
      if !s.phase.Quiescent? then (w, Some(Refused))
      else if records > s.incoming.recordsMax || records > s.outgoing.recordsMax then (w, Some(WindowTooSmall))
      else (w.(swap := s.(phase := Written, records := records)), None)
    case AcknowledgedCall(accepted) =>
      if !s.phase.Written? || !accepted then (w, Some(Refused))
      else (w.(swap := s.(phase := Acknowledged)), None)
    case CommitCall(generation) =>
      if !s.phase.Acknowledged? then (w, Some(Refused))
      else (World(s.(phase := Committed), generation), None)
    case PauseCall => (w.(word := PAUSED), None)
  }

  /** The swap's object. */
  class Swapping {
    const outgoing: Declaration
    const incoming: Declaration
    var phase: Phase
    var records: U32

    ghost function Abstract(): State
      reads this
    {
      State(outgoing, incoming, phase, records)
    }

    constructor (outgoing: Declaration, incoming: Declaration)
      requires TransfersTo(outgoing, incoming)
      ensures Plan(outgoing, incoming) == Ok(Abstract())
    {
      this.outgoing, this.incoming, phase, records := outgoing, incoming, Planned, 0;
    }

    method DrainedNow(empty: bool, ghost word: U32) returns (r: Option<Abandoned>)
      modifies this
      ensures (World(Abstract(), word), r) == Step(World(old(Abstract()), word), DrainedCall(empty))
    {
      if !phase.Planned? { return Some(Refused); }
      if !empty { return Some(RingsNotEmpty); }
      phase := Drained;
      return None;
    }

    method AssertedNow(holdsNothing: bool, ghost word: U32) returns (r: Option<Abandoned>)
      modifies this
      ensures (World(Abstract(), word), r) == Step(World(old(Abstract()), word), AssertedCall(holdsNothing))
    {
      if !phase.Drained? { return Some(Refused); }
      if !holdsNothing { return Some(NotQuiescent); }
      phase := Quiescent;
      return None;
    }

    method WroteNow(n: U32, ghost word: U32) returns (r: Option<Abandoned>)
      modifies this
      ensures (World(Abstract(), word), r) == Step(World(old(Abstract()), word), WroteCall(n))
    {
      if !phase.Quiescent? { return Some(Refused); }
      if n > incoming.recordsMax || n > outgoing.recordsMax { return Some(WindowTooSmall); }
      records := n;
      phase := Written;
      return None;
    }

    method AcknowledgedNow(accepted: bool, ghost word: U32) returns (r: Option<Abandoned>)
      modifies this
      ensures (World(Abstract(), word), r) == Step(World(old(Abstract()), word), AcknowledgedCall(accepted))
    {
      if !phase.Written? || !accepted { return Some(Refused); }
      phase := Acknowledged;
      return None;
    }

    method CommitNow(routing: Routing, generation: U32) returns (r: Option<Abandoned>)
      modifies this, routing
      ensures (World(Abstract(), routing.word), r)
           == Step(World(old(Abstract()), old(routing.word)), CommitCall(generation))
    {
      if !phase.Acknowledged? { return Some(Refused); }
      routing.Commit(generation);
      phase := Committed;
      return None;
    }
  }

  /** `plan`: a swap between two declarations, or the reason there is none. */
  method PlanSwap(outgoing: Declaration, incoming: Declaration) returns (r: Result<Swapping, Abandoned>)
    ensures r.Ok? <==>
            && outgoing.mode == 2 && incoming.mode == 2
            && outgoing.schema == incoming.schema && outgoing.recordBytes == incoming.recordBytes
    ensures r.Ok? ==> fresh(r.value) && r.value.Abstract() == State(outgoing, incoming, Planned, 0)
    ensures r.Ok? ==> Plan(outgoing, incoming) == Ok(r.value.Abstract())
    ensures r.Err? ==> Plan(outgoing, incoming) == Err(r.error) && r.error == Incompatible
  {
    if !TransfersTo(outgoing, incoming) { return Err(Incompatible); }
    var swap := new Swapping(outgoing, incoming);
    return Ok(swap);
  }

  /** Any sequence of calls, run on the objects, does what the steps say. */
  method Drive(outgoing: Declaration, incoming: Declaration, generation: U32, calls: seq<Call>)
    returns (r: Result<(seq<Option<Abandoned>>, World), Abandoned>)
    ensures r.Err? <==> !TransfersTo(outgoing, incoming)
    ensures r.Err? ==> r.error == Incompatible
    ensures r.Ok? ==>
              var start := World(State(outgoing, incoming, Planned, 0), generation);
              && r.value.1 == After(start, calls)
              && |r.value.0| == |calls|
              && forall i | 0 <= i < |calls| :: r.value.0[i] == OutcomeAt(start, calls, i)
  {
    var planned := PlanSwap(outgoing, incoming);
    if planned.Err? { return Err(planned.error); }
    var swap := planned.value;
    var routing := new Routing(generation);
    ghost var start := World(State(outgoing, incoming, Planned, 0), generation);
    var outcomes := [];
    for k := 0 to |calls|
      invariant World(swap.Abstract(), routing.word) == After(start, calls[..k])
      invariant |outcomes| == k && forall i | 0 <= i < k :: outcomes[i] == OutcomeAt(start, calls, i)
    {
      assert calls[..k + 1][..k] == calls[..k];
      var outcome;
      match calls[k] {
        case DrainedCall(empty) => outcome := swap.DrainedNow(empty, routing.word);
        case AssertedCall(holdsNothing) => outcome := swap.AssertedNow(holdsNothing, routing.word);
        case WroteCall(records) => outcome := swap.WroteNow(records, routing.word);
        case AcknowledgedCall(accepted) => outcome := swap.AcknowledgedNow(accepted, routing.word);
        case CommitCall(g) => outcome := swap.CommitNow(routing, g);
        case PauseCall => routing.Pause(); outcome := None;
      }
      outcomes := outcomes + [outcome];
    }
    assert calls[..|calls|] == calls;
    return Ok((outcomes, World(State(swap.outgoing, swap.incoming, swap.phase, swap.records), routing.word)));
  }

  // ---- runs ----------------------------------------------------------------

  function After(w: World, calls: seq<Call>): World {
    if calls == [] then w else Step(After(w, calls[..|calls| - 1]), calls[|calls| - 1]).0
  }

  function OutcomeAt(w: World, calls: seq<Call>, i: nat): Option<Abandoned>
    requires i < |calls|
  {
    Step(After(w, calls[..i]), calls[i]).1
  }

  predicate Fresh(w: World) {
    w.swap.phase == Planned && w.swap.records == 0 && TransfersTo(w.swap.outgoing, w.swap.incoming)
  }

  lemma {:induction false} AfterOneMore(w: World, calls: seq<Call>, i: nat)
    requires i < |calls|
    ensures After(w, calls[..i + 1]) == Step(After(w, calls[..i]), calls[i]).0
  {
    assert calls[..i + 1][..i] == calls[..i];
  }

  /** Every call of every run: refused and nothing moved, or taken and the phase
      moved by exactly one — a pause aside, which moves only the word. */
  lemma {:induction false} CallsAreAllOrNothing(w: World, calls: seq<Call>, i: nat)
    requires i < |calls|
    ensures var before, after := After(w, calls[..i]), After(w, calls[..i + 1]);
            && (OutcomeAt(w, calls, i).Some? ==> after == before)
            && (calls[i].PauseCall? ==> after == before.(word := PAUSED))
            && (OutcomeAt(w, calls, i).None? && !calls[i].PauseCall? ==>
                  Order(after.swap.phase) == Order(before.swap.phase) + 1)
            && (after.word != before.word ==>
                  calls[i].PauseCall? || (OutcomeAt(w, calls, i).None? && calls[i] == CommitCall(after.word)))
  {
    AfterOneMore(w, calls, i);
  }

  lemma {:induction false} PhasesNeverGoBack(w: World, calls: seq<Call>, i: nat, j: nat)
    requires i <= j <= |calls|
    ensures Order(After(w, calls[..i]).swap.phase) <= Order(After(w, calls[..j]).swap.phase)
    decreases j
  {
    if i < j {
      PhasesNeverGoBack(w, calls, i, j - 1);
      CallsAreAllOrNothing(w, calls, j - 1);
    }
  }

  /** The call that takes a swap out of a phase. */
  predicate Leaves(phase: Phase, call: Call) {
    match phase
    case Planned => call == DrainedCall(true)
    case Drained => call == AssertedCall(true)
    case Quiescent => call.WroteCall?
    case Written => call == AcknowledgedCall(true)
    case Acknowledged => call.CommitCall?
    case Committed => false
  }

  /** When a run came out of phase number `k`: the one call that did it. */
  lemma {:induction false} WhenLeft(w: World, calls: seq<Call>, k: nat) returns (i: nat)
    requires Fresh(w) && k < Order(After(w, calls).swap.phase)
    ensures i < |calls| && OutcomeAt(w, calls, i).None?
    ensures Order(After(w, calls[..i]).swap.phase) == k
    ensures Order(After(w, calls[..i + 1]).swap.phase) == k + 1
    ensures Leaves(After(w, calls[..i]).swap.phase, calls[i])
    decreases |calls|
  {
    var n := |calls| - 1;
    assert calls[..n + 1] == calls;
    CallsAreAllOrNothing(w, calls, n);
    if k < Order(After(w, calls[..n]).swap.phase) {
      i := WhenLeft(w, calls[..n], k);
      assert calls[..n][..i] == calls[..i] && calls[..n][..i + 1] == calls[..i + 1];
    } else {
      i := n;
    }
  }

  /** Before the write nothing is counted as having crossed; after it, what was
      written stands, whatever else is called. */
  lemma {:induction false} RecordsStand(w: World, calls: seq<Call>, i: nat)
    requires Fresh(w) && i < |calls| && calls[i].WroteCall? && OutcomeAt(w, calls, i).None?
    ensures After(w, calls).swap.records == calls[i].records
    ensures After(w, calls).swap.outgoing == w.swap.outgoing && After(w, calls).swap.incoming == w.swap.incoming
    decreases |calls|
  {
    DeclarationsStand(w, calls);
    var n := |calls| - 1;
    assert calls[..n + 1] == calls;
    AfterOneMore(w, calls, n);
    if i < n {
      assert calls[..n][..i] == calls[..i];
      RecordsStand(w, calls[..n], i);
      PhasesNeverGoBack(w, calls, i + 1, n);
      AfterOneMore(w, calls, i);
    }
  }

  lemma {:induction false} DeclarationsStand(w: World, calls: seq<Call>)
    ensures After(w, calls).swap.outgoing == w.swap.outgoing && After(w, calls).swap.incoming == w.swap.incoming
    decreases |calls|
  {
    if calls != [] { DeclarationsStand(w, calls[..|calls| - 1]); }
  }

  /** The five steps of a swap, at these places in a run, all taken, in order. */
  ghost predicate TookSteps(w: World, calls: seq<Call>, a: nat, b: nat, c: nat, d: nat, e: nat) {
    && a < b < c < d < e < |calls|
    && calls[a] == DrainedCall(true) && OutcomeAt(w, calls, a).None?
    && calls[b] == AssertedCall(true) && OutcomeAt(w, calls, b).None?
    && calls[c].WroteCall? && OutcomeAt(w, calls, c).None?
    && calls[d] == AcknowledgedCall(true) && OutcomeAt(w, calls, d).None?
    && calls[e].CommitCall? && OutcomeAt(w, calls, e).None?
  }

  /** A committed swap drained, asserted, wrote, was acknowledged and committed,
      in that order and whatever was refused in between; what it wrote is what it
      counts and fits the window the incoming side bought. */
  lemma {:induction false} CommittedMeansAllFive(w: World, calls: seq<Call>)
    returns (a: nat, b: nat, c: nat, d: nat, e: nat)
    requires Fresh(w) && After(w, calls).swap.phase == Committed
    ensures TookSteps(w, calls, a, b, c, d, e)
    ensures var n := calls[c].records;
            && After(w, calls).swap.records == n
            && n <= w.swap.outgoing.recordsMax && n <= w.swap.incoming.recordsMax
            && n * w.swap.incoming.recordBytes <= w.swap.incoming.recordBytes * w.swap.incoming.recordsMax
  {
    a := WhenLeft(w, calls, 0);
    b := WhenLeft(w, calls, 1);
    c := WhenLeft(w, calls, 2);
    d := WhenLeft(w, calls, 3);
    e := WhenLeft(w, calls, 4);
    InOrder(w, calls, a, b);
    InOrder(w, calls, b, c);
    InOrder(w, calls, c, d);
    InOrder(w, calls, d, e);
    RecordsStand(w, calls, c);
    DeclarationsStand(w, calls[..c]);
    WindowHolds(calls[c].records, w.swap.incoming);
  }

  lemma {:induction false} InOrder(w: World, calls: seq<Call>, i: nat, j: nat)
    requires i < |calls| && j < |calls|
    requires Order(After(w, calls[..i]).swap.phase) < Order(After(w, calls[..j]).swap.phase)
    ensures i < j
  {
    if j <= i { PhasesNeverGoBack(w, calls, j, i); }
  }

  lemma {:induction false} WindowHolds(n: nat, d: Declaration)
    requires n <= d.recordsMax
    ensures n * d.recordBytes <= WindowBytes(d)
  {
  }

  /** Five calls that say the right things at these places in a run, in order,
      whatever else is called and whatever any of them is answered. */
  ghost predicate SaysAllFive(w: World, calls: seq<Call>, a: nat, b: nat, c: nat, d: nat, e: nat) {
    && a < b < c < d < e < |calls|
    && calls[a] == DrainedCall(true)
    && calls[b] == AssertedCall(true)
    && calls[c].WroteCall? && calls[c].records <= w.swap.incoming.recordsMax
    && calls[c].records <= w.swap.outgoing.recordsMax
    && calls[d] == AcknowledgedCall(true)
    && calls[e].CommitCall?
  }

  /** A call that leaves phase number `k` leaves at least the next one behind it,
      if the run had come that far. */
  lemma {:induction false} MovesOn(w: World, calls: seq<Call>, i: nat, phase: Phase)
    requires i < |calls| && Order(phase) <= Order(After(w, calls[..i]).swap.phase) && Leaves(phase, calls[i])
    requires calls[i].WroteCall? ==>
               calls[i].records <= w.swap.incoming.recordsMax && calls[i].records <= w.swap.outgoing.recordsMax
    ensures Order(phase) + 1 <= Order(After(w, calls[..i + 1]).swap.phase)
  {
    AfterOneMore(w, calls, i);
    DeclarationsStand(w, calls[..i]);
  }

  /** Once it has come this far, it is at least as far at any later call. */
  lemma {:induction false} FromThenOn(w: World, calls: seq<Call>, i: nat, j: nat, phase: Phase)
    requires i < j <= |calls| && Order(phase) <= Order(After(w, calls[..i + 1]).swap.phase)
    ensures Order(phase) <= Order(After(w, calls[..j]).swap.phase)
  {
    PhasesNeverGoBack(w, calls, i + 1, j);
  }

  lemma {:induction false} AllFiveCommit(w: World, calls: seq<Call>, a: nat, b: nat, c: nat, d: nat, e: nat)
    requires SaysAllFive(w, calls, a, b, c, d, e)
    ensures After(w, calls).swap.phase == Committed
  {
    MovesOn(w, calls, a, Planned);
    FromThenOn(w, calls, a, b, Drained);
    MovesOn(w, calls, b, Drained);
    FromThenOn(w, calls, b, c, Quiescent);
    MovesOn(w, calls, c, Quiescent);
    FromThenOn(w, calls, c, d, Written);
    MovesOn(w, calls, d, Written);
    FromThenOn(w, calls, d, e, Acknowledged);
    MovesOn(w, calls, e, Acknowledged);
    FromThenOn(w, calls, e, |calls|, Committed);
    assert calls[..|calls|] == calls;
  }

  /** The swap theorem, over every sequence of calls: it ends committed exactly
      when a true drain, a true assertion, a write within both bounds, a true
      acknowledgement and a commit are called in that order. */
  lemma {:induction false} CommittedExactly(w: World, calls: seq<Call>)
    requires Fresh(w)
    ensures After(w, calls).swap.phase == Committed <==>
            exists a: nat, b: nat, c: nat, d: nat, e: nat :: SaysAllFive(w, calls, a, b, c, d, e)
  {
    if After(w, calls).swap.phase == Committed {
      var a, b, c, d, e := CommittedMeansAllFive(w, calls);
      assert SaysAllFive(w, calls, a, b, c, d, e);
    }
    if a: nat, b: nat, c: nat, d: nat, e: nat :| SaysAllFive(w, calls, a, b, c, d, e) {
      AllFiveCommit(w, calls, a, b, c, d, e);
    }
  }

  /** Call `i` of a run stores the routing word: a pause, or a commit that was taken. */
  ghost predicate StoresAt(w: World, calls: seq<Call>, i: nat)
    requires i < |calls|
  {
    calls[i].PauseCall? || (calls[i].CommitCall? && OutcomeAt(w, calls, i).None?)
  }

  /** The last call of a run to store the word. */
  ghost predicate StoresLast(w: World, calls: seq<Call>, i: nat) {
    i < |calls| && StoresAt(w, calls, i) && forall j | i < j < |calls| :: !StoresAt(w, calls, j)
  }

  /** The routing word over every run: what the last pause or taken commit stored,
      the pause or that commit's own generation, and otherwise what it was. */
  lemma {:induction false} WordIsLastStored(w: World, calls: seq<Call>)
    ensures (forall i | 0 <= i < |calls| :: !StoresAt(w, calls, i)) ==> After(w, calls).word == w.word
    ensures forall i: nat | StoresLast(w, calls, i) ::
              After(w, calls).word == if calls[i].CommitCall? then calls[i].generation else PAUSED
    decreases |calls|
  {
    if calls != [] {
      var n := |calls| - 1;
      var before := calls[..n];
      WordIsLastStored(w, before);
      assert calls[..n + 1] == calls;
      AfterOneMore(w, calls, n);
      forall j | 0 <= j < n ensures StoresAt(w, before, j) <==> StoresAt(w, calls, j) {
        assert before[..j] == calls[..j];
      }
      forall i: nat | StoresLast(w, calls, i)
        ensures After(w, calls).word == if calls[i].CommitCall? then calls[i].generation else PAUSED
      {
        if i < n {
          assert !StoresAt(w, calls, n);
          assert StoresLast(w, before, i);
        }
      }
      if forall i | 0 <= i < |calls| :: !StoresAt(w, calls, i) {
        assert forall i | 0 <= i < n :: !StoresAt(w, before, i);
        assert !StoresAt(w, calls, n);
      }
    }
  }

  /** Why a call of a run was refused, for every call: each question is answered
      under its own name in its own turn, and anything out of turn, and a refusal
      to accept, is refused as such. */
  lemma {:induction false} RefusedExactly(w: World, calls: seq<Call>, i: nat)
    requires i < |calls|
    ensures var phase, outcome := After(w, calls[..i]).swap.phase, OutcomeAt(w, calls, i);
            && (outcome == None <==>
                  calls[i].PauseCall?
                  || (Leaves(phase, calls[i])
                      && (calls[i].WroteCall? ==> calls[i].records <= w.swap.incoming.recordsMax
                                                  && calls[i].records <= w.swap.outgoing.recordsMax)))
            && (outcome == Some(RingsNotEmpty) <==> phase.Planned? && calls[i] == DrainedCall(false))
            && (outcome == Some(NotQuiescent) <==> phase.Drained? && calls[i] == AssertedCall(false))
            && (outcome == Some(WindowTooSmall) <==>
                  phase.Quiescent? && calls[i].WroteCall?
                  && (calls[i].records > w.swap.incoming.recordsMax || calls[i].records > w.swap.outgoing.recordsMax))
            && outcome != Some(Incompatible)
  {
    DeclarationsStand(w, calls[..i]);
  }

  /** A swap stores the word at most once in its life. */
  lemma {:induction false} StoresOnce(w: World, calls: seq<Call>, i: nat, j: nat)
    requires i < |calls| && j < |calls|
    requires calls[i].CommitCall? && OutcomeAt(w, calls, i).None?
    requires calls[j].CommitCall? && OutcomeAt(w, calls, j).None?
    ensures i == j
  {
    if i < j {
      AfterOneMore(w, calls, i);
      PhasesNeverGoBack(w, calls, i + 1, j);
    } else if j < i {
      AfterOneMore(w, calls, j);
      PhasesNeverGoBack(w, calls, j + 1, i);
    }
  }
}
