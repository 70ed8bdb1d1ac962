/** How far a caller's urgency reaches. One hop is a pure function; what it is
    for is what chains of hops of any length cannot do. */
module Deadline {
  import opened Wire

  const HARD: U16 := 0
  const SOFT: U16 := 1
  const BATCH: U16 := 2
  const IDLE: U16 := 3

  const MAX_DEPTH: Byte := 4
  const BEYOND_DEPTH: U16 := BATCH

  /** A class a component was admitted for. */
  type Admitted = c: U16 | HARD <= c <= IDLE

  function ClassOf(field: U16): U16 { field % 256 }
  function DepthOf(field: U16): Byte { field / 256 }
  function Pack(class_: U16, depth: Byte): U16 { depth * 256 + class_ % 256 }
  predicate IsClass(ordinal: U16) { ordinal == HARD || ordinal == SOFT || ordinal == BATCH || ordinal == IDLE }

  datatype Caller = Caller(class_: U16, deadline: U64, admitted: Admitted)
  datatype Callee = Callee(admitted: Admitted, arrival: U64, floor: U64)
  datatype Shortfall = Shortfall(class_: bool, late: bool, depth: bool)
  datatype Inherited = Inherited(class_: U16, deadline: U64, depth: Byte, shortfall: Shortfall)
  datatype Refusal = BadClass(field: U16) | NotHeld(field: U16)

  /** The earliest a callee can honestly promise. */
  function Earliest(callee: Callee): U64 {
    if callee.arrival + callee.floor > U64_MAX then U64_MAX else callee.arrival + callee.floor
  }

  function Inherit(caller: Caller, callee: Callee): Result<Inherited, Refusal> {
    var claimed := ClassOf(caller.class_);
    var depth := DepthOf(caller.class_);
    if !IsClass(claimed) || depth > MAX_DEPTH then Err(BadClass(caller.class_))
    else if claimed < caller.admitted then Err(NotHeld(caller.class_))
    else
      var class_ := Max(claimed, callee.admitted);
      var demoted := class_ != claimed;
      var late := caller.deadline != NO_DEADLINE && caller.deadline < Earliest(callee);
      var deadline := if late then Earliest(callee) else caller.deadline;
      if depth < MAX_DEPTH then
        Ok(Inherited(class_, deadline, depth + 1, Shortfall(demoted, late, false)))
      else
        var bounded := Max(class_, BEYOND_DEPTH);
        var cut := bounded != class_ || deadline != NO_DEADLINE;
        Ok(Inherited(bounded, NO_DEADLINE, MAX_DEPTH, Shortfall(demoted, false, cut)))
  }

  function ClassField(i: Inherited): U16
    requires i.depth <= MAX_DEPTH
  {
    Pack(i.class_, i.depth)
  }

  /** The key a queue orders by, smallest first; no deadline sorts last. */
  function Rank(class_: U16, deadline: U64): (U16, U64) {
    (class_, if deadline == NO_DEADLINE then U64_MAX else deadline)
  }

  predicate NoMoreUrgent(later: (U16, U64), earlier: (U16, U64)) {
    earlier.0 < later.0 || (earlier.0 == later.0 && earlier.1 <= later.1)
  }

  lemma {:induction false} PackUnpacks(class_: U16, depth: Byte)
    requires IsClass(class_)
    ensures ClassOf(Pack(class_, depth)) == class_ && DepthOf(Pack(class_, depth)) == depth
    ensures Pack(class_, depth) == class_ + 0x100 * depth
  {
  }

  // ---- one hop -------------------------------------------------------------

  /** A hop is refused exactly for a field nobody could have written or a class
      its author does not hold. */
  lemma {:induction false} RefusedExactly(caller: Caller, callee: Callee)
    ensures Inherit(caller, callee).Ok? <==>
            ClassOf(caller.class_) <= 3 && DepthOf(caller.class_) <= 4 && caller.admitted <= ClassOf(caller.class_)
    ensures Inherit(caller, callee) == Err(BadClass(caller.class_)) <==>
            ClassOf(caller.class_) > 3 || DepthOf(caller.class_) > 4
    ensures Inherit(caller, callee) == Err(NotHeld(caller.class_)) <==>
            ClassOf(caller.class_) <= 3 && DepthOf(caller.class_) <= 4 && ClassOf(caller.class_) < caller.admitted
  {
  }

  /** What one hop makes of a request: below the last ring, the less urgent of its
      class and the callee's ceiling, one ring deeper, and of a deadline the later
      of it and the soonest the callee can finish, which is its arrival and floor
      together, held at the top of the clock; at the last ring, no deadline and
      nothing more urgent than a batch. Late is said exactly of a deadline moved. */
  lemma {:induction false} HopExactly(caller: Caller, callee: Callee)
    requires Inherit(caller, callee).Ok?
    ensures var i := Inherit(caller, callee).value;
            var claimed, soonest := ClassOf(caller.class_), Min(callee.arrival + callee.floor, U64_MAX);
            if DepthOf(caller.class_) < 4 then
              && i.class_ == Max(claimed, callee.admitted) && i.depth == DepthOf(caller.class_) + 1
              && i.deadline == (if caller.deadline == 0 then 0 else Max(caller.deadline, soonest))
              && (i.shortfall.late <==> 0 < caller.deadline < soonest)
            else
              && i.class_ == Max(2, Max(claimed, callee.admitted)) && i.depth == 4
              && i.deadline == 0 && !i.shortfall.late
  {
  }

  /** What one hop does to a request, whatever the two sides say: the rank never
      becomes more urgent and never rises above the callee's ceiling; nothing
      fell short exactly when class and deadline came through unchanged; a
      deadline is reported moved or dropped, never both; and each report is made
      exactly for its own cause. */
  lemma {:induction false} HopIsHonest(caller: Caller, callee: Callee)
    requires Inherit(caller, callee).Ok?
    ensures var i := Inherit(caller, callee).value;
            var claimed := ClassOf(caller.class_);
            && NoMoreUrgent(Rank(i.class_, i.deadline), Rank(claimed, caller.deadline))
            && callee.admitted <= i.class_ <= IDLE && i.depth <= MAX_DEPTH
            && (i.shortfall == Shortfall(false, false, false) <==>
                  i.class_ == claimed && i.deadline == caller.deadline)
            && !(i.shortfall.late && i.shortfall.depth)
            && (i.shortfall.late <==> i.deadline != NO_DEADLINE && i.deadline != caller.deadline)
            && (i.shortfall.class_ <==> claimed < callee.admitted)
            && (i.shortfall.depth <==>
                  DepthOf(caller.class_) == MAX_DEPTH
                  && (caller.deadline != NO_DEADLINE || Max(claimed, callee.admitted) < BEYOND_DEPTH))
  {
  }

  /** Why a component has one ceiling: a forwarder that writes on what it was
      handed is refused exactly when the next channel reports a ceiling less
      urgent than the class it carries, and its own ceiling never is. */
  lemma {:induction false} ForwardingAccepted(caller: Caller, callee: Callee, reported: Admitted, next: Callee)
    requires Inherit(caller, callee).Ok?
    ensures var i := Inherit(caller, callee).value;
            && (Inherit(Caller(ClassField(i), i.deadline, reported), next).Ok? <==> reported <= i.class_)
            && Inherit(Caller(ClassField(i), i.deadline, callee.admitted), next).Ok?
  {
    var i := Inherit(caller, callee).value;
    HopIsHonest(caller, callee);
    PackUnpacks(i.class_, i.depth);
    RefusedExactly(Caller(ClassField(i), i.deadline, reported), next);
    RefusedExactly(Caller(ClassField(i), i.deadline, callee.admitted), next);
  }

  // ---- chains --------------------------------------------------------------

  /** What an honest component submits next on the request's behalf. */
  function Forward(i: Inherited, callee: Callee): Caller
    requires i.depth <= MAX_DEPTH
  {
    Caller(ClassField(i), i.deadline, callee.admitted)
  }

  /** The entry in flight after a chain of honest hops, if none was refused. */
  function AlongChain(origin: Caller, hops: seq<Callee>): (r: Option<Caller>)
  {
    if hops == [] then Some(origin)
    else
      match AlongChain(origin, hops[..|hops| - 1])
      case None => None
      case Some(caller) =>
        match Inherit(caller, hops[|hops| - 1])
        case Err(_) => None
        case Ok(i) => HopIsHonest(caller, hops[|hops| - 1]); Some(Forward(i, hops[|hops| - 1]))
  }

  /** The least urgent of a class and every ceiling met. */
  function LeastUrgent(class_: int, hops: seq<Callee>): int {
    if hops == [] then class_ else Max(LeastUrgent(class_, hops[..|hops| - 1]), hops[|hops| - 1].admitted)
  }

  /** The latest of a deadline and every hop's earliest promise. */
  function Latest(deadline: int, hops: seq<Callee>): int {
    if hops == [] then deadline
    else
      var last := hops[|hops| - 1];
      Max(Latest(deadline, hops[..|hops| - 1]), Min(last.arrival + last.floor, U64_MAX))
  }

  lemma {:induction false} LeastUrgentIsTheMaximum(class_: int, hops: seq<Callee>)
    ensures class_ <= LeastUrgent(class_, hops)
    ensures forall i | 0 <= i < |hops| :: hops[i].admitted <= LeastUrgent(class_, hops)
    ensures LeastUrgent(class_, hops) == class_
         || exists i :: 0 <= i < |hops| && LeastUrgent(class_, hops) == hops[i].admitted
    decreases |hops|
  {
    if hops != [] {
      var n := |hops| - 1;
      LeastUrgentIsTheMaximum(class_, hops[..n]);
      assert LeastUrgent(class_, hops) == hops[n].admitted
          || LeastUrgent(class_, hops) == LeastUrgent(class_, hops[..n]);
      if i :| 0 <= i < |hops[..n]| && LeastUrgent(class_, hops[..n]) == hops[..n][i].admitted {
        assert hops[i] == hops[..n][i];
      }
    }
  }

  lemma {:induction false} LatestIsTheMaximum(deadline: int, hops: seq<Callee>)
    ensures deadline <= Latest(deadline, hops)
    ensures forall i | 0 <= i < |hops| :: Min(hops[i].arrival + hops[i].floor, U64_MAX) <= Latest(deadline, hops)
    ensures Latest(deadline, hops) == deadline
         || exists i :: 0 <= i < |hops| && Latest(deadline, hops) == Min(hops[i].arrival + hops[i].floor, U64_MAX)
    decreases |hops|
  {
    if hops != [] {
      var n := |hops| - 1;
      LatestIsTheMaximum(deadline, hops[..n]);
      assert Latest(deadline, hops) == Min(hops[n].arrival + hops[n].floor, U64_MAX)
          || Latest(deadline, hops) == Latest(deadline, hops[..n]);
      if i :| 0 <= i < |hops[..n]|
              && Latest(deadline, hops[..n]) == Min(hops[..n][i].arrival + hops[..n][i].floor, U64_MAX) {
        assert hops[i] == hops[..n][i];
      }
    }
  }

  /** An entry its author may write: a class it holds, at any depth there is. */
  predicate Holds(caller: Caller) {
    ClassOf(caller.class_) <= IDLE && DepthOf(caller.class_) <= MAX_DEPTH && caller.admitted <= ClassOf(caller.class_)
  }

  /** The rule in one paragraph, on the two entries either side of a hop. */
  predicate ForwardsAs(caller: Caller, callee: Callee, f: Caller) {
    var least := Max(ClassOf(caller.class_), callee.admitted);
    && f.admitted == callee.admitted
    && (DepthOf(caller.class_) < MAX_DEPTH ==>
          && ClassOf(f.class_) == least && DepthOf(f.class_) == DepthOf(caller.class_) + 1
          && f.deadline == (if caller.deadline == NO_DEADLINE then NO_DEADLINE
                            else Max(caller.deadline, Min(callee.arrival + callee.floor, U64_MAX))))
    && (DepthOf(caller.class_) == MAX_DEPTH ==>
          && ClassOf(f.class_) == Max(BATCH, least) && DepthOf(f.class_) == MAX_DEPTH
          && f.deadline == NO_DEADLINE)
  }

  /** One honest hop, read off the entry it forwards. */
  lemma {:induction false} ForwardedFields(caller: Caller, callee: Callee)
    requires Holds(caller)
    ensures Inherit(caller, callee).Ok? && Inherit(caller, callee).value.depth <= MAX_DEPTH
    ensures ForwardsAs(caller, callee, Forward(Inherit(caller, callee).value, callee))
  {
    var i := Inherit(caller, callee).value;
    PackUnpacks(i.class_, i.depth);
  }

  /** Where a chain leaves a request, in terms of where it began and whom it met. */
  predicate InClosedForm(origin: Caller, hops: seq<Callee>, end: Caller) {
    var least := LeastUrgent(ClassOf(origin.class_), hops);
    var rings := DepthOf(origin.class_) + |hops|;
    && (hops != [] ==> end.admitted == hops[|hops| - 1].admitted)
    && (rings <= 4 ==>
          && ClassOf(end.class_) == least && DepthOf(end.class_) == rings
          && end.deadline == (if origin.deadline == NO_DEADLINE then NO_DEADLINE else Latest(origin.deadline, hops)))
    && (rings > 4 ==>
          && ClassOf(end.class_) == Max(2, least) && DepthOf(end.class_) == 4
          && end.deadline == NO_DEADLINE)
  }

  /** The chain theorem, for any entry its author may write and any number of
      hops: none is refused. Until four rings are crossed, counting those crossed
      before, class is the least urgent met and depth counts the rings, and a
      deadline that was carried is the latest of itself and every earliest
      promise. From the ring after on the deadline is gone, the class is that of a
      batch request or less urgent still, and the depth stays where it is. */
  lemma {:induction false} ChainInClosedForm(origin: Caller, hops: seq<Callee>)
    requires Holds(origin)
    ensures AlongChain(origin, hops).Some?
    ensures InClosedForm(origin, hops, AlongChain(origin, hops).value)
    decreases |hops|
  {
    if hops != [] {
      var before, callee := hops[..|hops| - 1], hops[|hops| - 1];
      ChainInClosedForm(origin, before);
      var caller := AlongChain(origin, before).value;
      StillHeld(origin, before, caller);
      ForwardedFields(caller, callee);
      ChainOneMore(origin, hops);
      LatestIsTheMaximum(origin.deadline, before);
      ClosedFormStep(origin, hops, caller, Forward(Inherit(caller, callee).value, callee));
    }
  }

  /** One more hop on a chain, where it is not refused. */
  lemma {:induction false} ChainOneMore(origin: Caller, hops: seq<Callee>)
    requires hops != [] && AlongChain(origin, hops[..|hops| - 1]).Some?
    requires var i := Inherit(AlongChain(origin, hops[..|hops| - 1]).value, hops[|hops| - 1]);
             i.Ok? && i.value.depth <= MAX_DEPTH
    ensures var i := Inherit(AlongChain(origin, hops[..|hops| - 1]).value, hops[|hops| - 1]);
            AlongChain(origin, hops) == Some(Forward(i.value, hops[|hops| - 1]))
  {
  }

  /** A forwarder holds the class it forwards. */
  lemma {:induction false} StillHeld(origin: Caller, hops: seq<Callee>, end: Caller)
    requires Holds(origin) && (hops == [] ==> end == origin) && InClosedForm(origin, hops, end)
    ensures Holds(end)
  {
    LeastUrgentIsTheMaximum(ClassOf(origin.class_), hops);
  }

  lemma {:induction false} ClosedFormStep(origin: Caller, hops: seq<Callee>, caller: Caller, f: Caller)
    requires hops != [] && InClosedForm(origin, hops[..|hops| - 1], caller)
    requires origin.deadline <= Latest(origin.deadline, hops[..|hops| - 1])
    requires ForwardsAs(caller, hops[|hops| - 1], f)
    ensures InClosedForm(origin, hops, f)
  {
  }

  /** Nothing was gained on the way from one entry to a later one. */
  predicate Drained(later: Caller, earlier: Caller) {
    && NoMoreUrgent(Rank(ClassOf(later.class_), later.deadline), Rank(ClassOf(earlier.class_), earlier.deadline))
    && (earlier.deadline == NO_DEADLINE ==> later.deadline == NO_DEADLINE)
  }

  lemma {:induction false} ForwardIsNoMoreUrgent(caller: Caller, callee: Callee, f: Caller)
    requires ForwardsAs(caller, callee, f) && DepthOf(caller.class_) <= MAX_DEPTH
    ensures Drained(f, caller)
  {
  }

  lemma {:induction false} DrainedComposes(a: Caller, b: Caller, c: Caller)
    requires Drained(c, b) && Drained(b, a)
    ensures Drained(c, a)
  {
  }

  /** One hop, on the two entries either side of it. */
  lemma {:induction false} HopDrains(caller: Caller, callee: Callee)
    requires Holds(caller)
    ensures Inherit(caller, callee).Ok? && Inherit(caller, callee).value.depth <= MAX_DEPTH
    ensures Drained(Forward(Inherit(caller, callee).value, callee), caller)
  {
    ForwardedFields(caller, callee);
    ForwardIsNoMoreUrgent(caller, callee, Forward(Inherit(caller, callee).value, callee));
  }

  lemma {:induction false} ChainHolds(origin: Caller, hops: seq<Callee>)
    requires Holds(origin)
    ensures AlongChain(origin, hops).Some? && Holds(AlongChain(origin, hops).value)
  {
    ChainInClosedForm(origin, hops);
    StillHeld(origin, hops, AlongChain(origin, hops).value);
  }

  lemma {:induction false} OneHopDrains(origin: Caller, hops: seq<Callee>, caller: Caller) returns (end: Caller)
    requires Holds(origin) && hops != [] && AlongChain(origin, hops[..|hops| - 1]) == Some(caller)
    ensures AlongChain(origin, hops) == Some(end) && Drained(end, caller)
  {
    ChainHolds(origin, hops[..|hops| - 1]);
    HopDrains(caller, hops[|hops| - 1]);
    ChainOneMore(origin, hops);
    end := Forward(Inherit(caller, hops[|hops| - 1]).value, hops[|hops| - 1]);
  }

  lemma {:induction false} ChainDrains(origin: Caller, hops: seq<Callee>, k: nat) returns (earlier: Caller, end: Caller)
    requires Holds(origin) && k <= |hops|
    ensures AlongChain(origin, hops[..k]) == Some(earlier) && AlongChain(origin, hops) == Some(end)
    ensures Drained(end, earlier)
    decreases |hops|
  {
    if k < |hops| {
      var n := |hops| - 1;
      assert hops[..n][..k] == hops[..k];
      var caller;
      earlier, caller := ChainDrains(origin, hops[..n], k);
      end := OneHopDrains(origin, hops, caller);
      DrainedComposes(earlier, caller, end);
    } else {
      assert hops[..k] == hops;
      ChainHolds(origin, hops);
      earlier := AlongChain(origin, hops).value;
      end := earlier;
    }
  }

  /** Urgency only ever drains away: at no point further along a chain does a
      request outrank what it was, and what arrived without a deadline never
      acquires one. */
  lemma {:induction false} NoChainPromotes(origin: Caller, hops: seq<Callee>, k: nat)
    requires Holds(origin) && k <= |hops|
    ensures AlongChain(origin, hops[..k]).Some? && AlongChain(origin, hops).Some?
    ensures Drained(AlongChain(origin, hops).value, AlongChain(origin, hops[..k]).value)
    decreases |hops|
  {
    var earlier, end := ChainDrains(origin, hops, k);
  }
}
