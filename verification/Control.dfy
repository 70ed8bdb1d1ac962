/** Notices as pending state: what the frame owes about one slot, one deadline,
    one grade, and what a component is told over any run of each. */
module Control {
  import opened Wire

  // ---- one capability slot -------------------------------------------------

  datatype Notice = GRANTED | REVOKED | PEER_GONE

  datatype Pending = Quiet | Granted | Revoked | PeerGone | GrantedThenPeerGone

  function ToWire(p: Pending): Byte {
    match p
    case Quiet => 0
    case Granted => 1
    case Revoked => 2
    case PeerGone => 3
    case GrantedThenPeerGone => 4
  }

  function FromWire(value: Byte): Option<Pending> {
    if value == 0 then Some(Quiet)
    else if value == 1 then Some(Granted)
    else if value == 2 then Some(Revoked)
    else if value == 3 then Some(PeerGone)
    else if value == 4 then Some(GrantedThenPeerGone)
    else None
  }

  /** A stored state is read back as itself, and nothing else is read at all. */
  lemma {:induction false} WireExactly(value: Byte, p: Pending)
    ensures FromWire(value) == Some(p) <==> ToWire(p) == value
    ensures FromWire(value).Some? <==> value <= 4
    ensures ToWire(Quiet) == 0 && ToWire(Granted) == 1 && ToWire(Revoked) == 2
    ensures ToWire(PeerGone) == 3 && ToWire(GrantedThenPeerGone) == 4
  {
  }

  function OnGrant(p: Pending): Pending { if p.Quiet? then Granted else p }

  function OnRevoke(p: Pending): Pending {
    if p.Granted? || p.GrantedThenPeerGone? then Quiet else Revoked
  }

  function OnPeerGone(p: Pending): Pending {
    if p.Granted? || p.GrantedThenPeerGone? then GrantedThenPeerGone
    else if p.Revoked? then Revoked
    else PeerGone
  }

  function Drain(p: Pending): (Option<Notice>, Pending) {
    match p
    case Quiet => (None, Quiet)
    case Granted => (Some(GRANTED), Quiet)
    case GrantedThenPeerGone => (Some(GRANTED), PeerGone)
    case PeerGone => (Some(PEER_GONE), Quiet)
    case Revoked => (Some(REVOKED), Quiet)
  }

  function Owed(p: Pending): nat {
    match p
    case Quiet => 0
    case GrantedThenPeerGone => 2
    case _ => 1
  }

  /** The five states read as queues of what is still to be said. */
  function Queue(p: Pending): seq<Notice> {
    match p
    case Quiet => []
    case Granted => [GRANTED]
    case Revoked => [REVOKED]
    case PeerGone => [PEER_GONE]
    case GrantedThenPeerGone => [GRANTED, PEER_GONE]
  }

  /** The three rules, as operations on that queue: peer death is added behind
      whatever is owed unless it is owed already or the slot is revoked; a revoke
      says nothing of a grant never delivered and otherwise supersedes the queue;
      a drain takes the front; a grant does not displace anything. */
  lemma {:induction false} PendingIsAQueue(p: Pending)
    ensures |Queue(p)| == Owed(p) <= 2
    ensures Queue(OnGrant(p)) == if Queue(p) == [] then [GRANTED] else Queue(p)
    ensures Queue(OnRevoke(p)) == if GRANTED in Queue(p) then [] else [REVOKED]
    ensures Queue(OnPeerGone(p)) ==
            if PEER_GONE in Queue(p) || REVOKED in Queue(p) then Queue(p) else Queue(p) + [PEER_GONE]
    ensures Queue(p) == [] ==> Drain(p) == (None, p)
    ensures Queue(p) != [] ==> Drain(p).0 == Some(Queue(p)[0]) && Queue(Drain(p).1) == Queue(p)[1..]
  {
  }

  function Drained(p: Pending, times: nat): Pending
    decreases times
  {
    if times == 0 then p else Drained(Drain(p).1, times - 1)
  }

  /** A slot is quiet after exactly as many drains as it owes, and no fewer. */
  lemma {:induction false} DrainsInExactlyOwed(p: Pending, times: nat)
    ensures Drained(p, times).Quiet? <==> times >= Owed(p)
    decreases times
  {
    if times > 0 { DrainsInExactlyOwed(Drain(p).1, times - 1); }
  }

  /** A slot over its life: what it owes, whether something is in it, which
      occupant that is or last was, and everything said, with whom it was about. */
  datatype Slot = Slot(pending: Pending, occupied: bool, occupant: nat, said: seq<(nat, Notice)>)

  datatype Event = Place | Revoke | Widow | DrainOne

  const EMPTY := Slot(Quiet, false, 0, [])

  /** The frame's discipline: a slot that owes anything is not refilled, and only
      what is there can be revoked or widowed. */
  predicate Allowed(s: Slot, event: Event) {
    match event
    case Place => !s.occupied && s.pending.Quiet?
    case Revoke => s.occupied
    case Widow => s.occupied
    case DrainOne => true
  }

  function Next(s: Slot, event: Event): Slot {
    match event
    case Place => s.(pending := OnGrant(s.pending), occupied := true, occupant := s.occupant + 1)
    case Revoke => s.(pending := OnRevoke(s.pending), occupied := false)
    case Widow => s.(pending := OnPeerGone(s.pending))
    case DrainOne =>
      var (notice, after) := Drain(s.pending);
      s.(pending := after, said := if notice.Some? then s.said + [(s.occupant, notice.value)] else s.said)
  }

  predicate Disciplined(s: Slot, events: seq<Event>)
    decreases |events|
  {
    events != [] ==> Allowed(s, events[0]) && Disciplined(Next(s, events[0]), events[1..])
  }

  function After(s: Slot, events: seq<Event>): Slot
    decreases |events|
  {
    if events == [] then s else After(Next(s, events[0]), events[1..])
  }

  /** Everything said about one occupant, in the order it was said. */
  function Word(said: seq<(nat, Notice)>, occupant: nat): seq<Notice> {
    if said == [] then []
    else
      var rest := Word(said[..|said| - 1], occupant);
      if said[|said| - 1].0 == occupant then rest + [said[|said| - 1].1] else rest
  }

  /** GRANTED PEER_GONE* */
  predicate Begun(word: seq<Notice>) {
    word != [] && word[0] == GRANTED && forall i | 1 <= i < |word| :: word[i] == PEER_GONE
  }

  /** GRANTED PEER_GONE* REVOKED */
  predicate Ended(word: seq<Notice>) {
    word != [] && word[|word| - 1] == REVOKED && Begun(word[..|word| - 1])
  }

  /** What holds of a slot through every disciplined run. */
  ghost predicate Invariant(s: Slot) {
    && (forall i | 0 <= i < |s.said| :: s.said[i].0 <= s.occupant)
    && (forall i, j | 0 <= i < j < |s.said| :: s.said[i].0 <= s.said[j].0)
    && (forall k | 0 <= k < s.occupant :: Word(s.said, k) == [] || Ended(Word(s.said, k)))
    && var word := Word(s.said, s.occupant);
       match s.pending
       case Granted => s.occupied && word == []
       case GrantedThenPeerGone => s.occupied && word == []
       case PeerGone => s.occupied && Begun(word)
       case Revoked => !s.occupied && Begun(word)
       case Quiet => if s.occupied then Begun(word) else word == [] || Ended(word)
  }

  lemma {:induction false} NothingSaidYet(said: seq<(nat, Notice)>, occupant: nat)
    requires forall i | 0 <= i < |said| :: said[i].0 < occupant
    ensures Word(said, occupant) == []
    decreases |said|
  {
    if said != [] { NothingSaidYet(said[..|said| - 1], occupant); }
  }

  lemma {:induction false} SaidMore(said: seq<(nat, Notice)>, occupant: nat, notice: Notice, k: nat)
    ensures Word(said + [(occupant, notice)], k) == if k == occupant then Word(said, k) + [notice] else Word(said, k)
  {
    assert (said + [(occupant, notice)])[..|said|] == said;
  }

  lemma {:induction false} DrainKeepsInvariant(s: Slot)
    requires Invariant(s)
    ensures Invariant(Next(s, DrainOne))
  {
    var notice := Drain(s.pending).0;
    if notice.Some? {
      forall k: nat
        ensures Word(s.said + [(s.occupant, notice.value)], k)
             == if k == s.occupant then Word(s.said, k) + [notice.value] else Word(s.said, k)
      {
        SaidMore(s.said, s.occupant, notice.value, k);
      }
      var word := Word(s.said, s.occupant);
      assert (word + [notice.value])[..|word|] == word;
    }
  }

  lemma {:induction false} StepKeepsInvariant(s: Slot, event: Event)
    requires Invariant(s) && Allowed(s, event)
    ensures Invariant(Next(s, event))
  {
    if event.DrainOne? {
      DrainKeepsInvariant(s);
    } else if event.Place? {
      NothingSaidYet(s.said, s.occupant + 1);
    }
  }

  lemma {:induction false} RunKeepsInvariant(s: Slot, events: seq<Event>)
    requires Invariant(s) && Disciplined(s, events)
    ensures Invariant(After(s, events))
    decreases |events|
  {
    if events != [] {
      StepKeepsInvariant(s, events[0]);
      RunKeepsInvariant(Next(s, events[0]), events[1..]);
    }
  }

  /** The slot theorem, over every disciplined run. What is said about any
      occupant is nothing, or GRANTED PEER_GONE* REVOKED?, and once its slot has
      been given to another it is nothing or ended with REVOKED; what is said
      about one occupant is all said before anything about the next; and the slot
      never owes more than two. */
  lemma {:induction false} SlotWords(events: seq<Event>, k: nat)
    requires Disciplined(EMPTY, events)
    ensures var s := After(EMPTY, events);
            var word := Word(s.said, k);
            && (word == [] || Begun(word) || Ended(word))
            && (k < s.occupant ==> word == [] || Ended(word))
            && (forall i, j | 0 <= i < j < |s.said| :: s.said[i].0 <= s.said[j].0)
            && Owed(s.pending) <= 2
  {
    RunKeepsInvariant(EMPTY, events);
    var s := After(EMPTY, events);
    if k > s.occupant { NothingSaidYet(s.said, k); }
  }

  /** Nothing more is ever said about an occupant that has gone and is owed
      nothing. */
  lemma {:induction false} FinishedWordStands(s: Slot, events: seq<Event>, k: nat)
    requires Disciplined(s, events)
    requires k < s.occupant || (k == s.occupant && !s.occupied && s.pending.Quiet?)
    ensures Word(After(s, events).said, k) == Word(s.said, k)
    decreases |events|
  {
    if events != [] {
      var next := Next(s, events[0]);
      if events[0].DrainOne? && Drain(s.pending).0.Some? {
        SaidMore(s.said, s.occupant, Drain(s.pending).0.value, k);
      }
      FinishedWordStands(next, events[1..], k);
    }
  }

  /** A grant revoked before it was delivered posts nothing, then or ever. */
  lemma {:induction false} UndeliveredGrantIsSilent(events: seq<Event>, later: seq<Event>)
    requires Disciplined(EMPTY, events)
    requires var s := After(EMPTY, events);
             && (s.pending.Granted? || s.pending.GrantedThenPeerGone?)
             && Disciplined(Next(s, Revoke), later)
    ensures var s := After(EMPTY, events);
            Word(After(Next(s, Revoke), later).said, s.occupant) == []
  {
    RunKeepsInvariant(EMPTY, events);
    FinishedWordStands(Next(After(EMPTY, events), Revoke), later, After(EMPTY, events).occupant);
  }

  // ---- a deadline that only moves earlier ----------------------------------

  datatype Promised = Promised(deadline: U64, owed: bool)

  const NOTHING_PROMISED := Promised(NO_DEADLINE, false)

  function Promise(p: Promised, deadline: U64): (Promised, bool) {
    if p.deadline != NO_DEADLINE && deadline >= p.deadline then (p, false) else (Promised(deadline, true), true)
  }

  function DrainPromise(p: Promised): (Promised, Option<U64>) {
    if !p.owed then (p, None) else (p.(owed := false), Some(p.deadline))
  }

  class PromiseCell {
    var deadline: U64
    var owed: bool

    ghost function Abstract(): Promised
      reads this
    {
      Promised(deadline, owed)
    }

    constructor ()
      ensures Abstract() == NOTHING_PROMISED
    {
      deadline, owed := NO_DEADLINE, false;
    }

    method MakePromise(new_: U64) returns (moved: bool)
      modifies this
      ensures (Abstract(), moved) == Promise(old(Abstract()), new_)
    {
      if deadline != NO_DEADLINE && new_ >= deadline { return false; }
      deadline := new_;
      owed := true;
      return true;
    }

    method Publish() returns (told: Option<U64>)
      modifies this
      ensures (Abstract(), told) == DrainPromise(old(Abstract()))
    {
      if !owed { return None; }
      owed := false;
      return Some(deadline);
    }
  }

  datatype PromiseEvent = Promising(deadline: U64) | Publishing

  function PromiseAfter(events: seq<PromiseEvent>): Promised {
    if events == [] then NOTHING_PROMISED
    else
      var before := PromiseAfter(events[..|events| - 1]);
      match events[|events| - 1]
      case Promising(deadline) => Promise(before, deadline).0
      case Publishing => DrainPromise(before).0
  }

  /** What has been published, in order. */
  function Told(events: seq<PromiseEvent>): seq<U64> {
    if events == [] then []
    else
      var before := events[..|events| - 1];
      match events[|events| - 1]
      case Promising(_) => Told(before)
      case Publishing =>
        match DrainPromise(PromiseAfter(before)).1
        case None => Told(before)
        case Some(deadline) => Told(before) + [deadline]
  }

  predicate RealPromises(events: seq<PromiseEvent>) {
    forall i | 0 <= i < |events| && events[i].Promising? :: events[i].deadline != NO_DEADLINE
  }

  /** The deadline is one that was promised, and none promised is earlier. */
  ghost predicate IsEarliestPromised(events: seq<PromiseEvent>, deadline: U64) {
    && Promising(deadline) in events
    && forall i | 0 <= i < |events| && events[i].Promising? :: deadline <= events[i].deadline
  }

  /** Each is earlier than the one before, and so than all before. */
  predicate Descends(told: seq<U64>) {
    forall i, j | 0 <= i < j < |told| :: told[j] < told[i]
  }

  lemma {:induction false} DescendsFurther(told: seq<U64>, last: U64, next: U64)
    requires Descends(told) && told != [] && told[|told| - 1] == last && next < last
    ensures Descends(told + [next])
  {
    forall i | 0 <= i < |told| ensures next < told[i] {
      assert i < |told| - 1 ==> told[|told| - 1] < told[i];
    }
  }

  lemma {:induction false} DescendsToLower(told: seq<U64>, last: U64, next: U64)
    requires Descends(told + [last]) && next < last
    ensures Descends(told + [next])
  {
    assert forall i | 0 <= i < |told| :: (told + [last])[|told|] < (told + [last])[i];
    forall i, j | 0 <= i < j < |told + [next]| ensures (told + [next])[j] < (told + [next])[i] {
      assert (told + [last])[j] < (told + [last])[i];
    }
  }

  /** The promise theorem, over every interleaving: the deadline in force is the
      earliest promised; what is told only ever moves earlier; and what is in
      force is either still owed or the last thing told. */
  lemma {:induction false} PromisesOnlyTighten(events: seq<PromiseEvent>)
    requires RealPromises(events)
    ensures var p := PromiseAfter(events);
            var told := Told(events);
            && (p.deadline == NO_DEADLINE <==> forall i | 0 <= i < |events| :: events[i].Publishing?)
            && (p.deadline != NO_DEADLINE ==> IsEarliestPromised(events, p.deadline))
            && Descends(told)
            && (p.owed ==> p.deadline != NO_DEADLINE && Descends(told + [p.deadline]))
            && (!p.owed && p.deadline != NO_DEADLINE ==> told != [] && told[|told| - 1] == p.deadline)
            && (p.deadline == NO_DEADLINE ==> told == [])
    decreases |events|
  {
    if events != [] {
      var n := |events| - 1;
      var before := events[..n];
      PromisesOnlyTighten(before);
      var p := PromiseAfter(before);
      assert events == before + [events[n]];
      if p.deadline != NO_DEADLINE {
        assert Promising(p.deadline) in events;
        if events[n].Promising? && events[n].deadline < p.deadline {
          if p.owed {
            DescendsToLower(Told(before), p.deadline, events[n].deadline);
          } else {
            DescendsFurther(Told(before), p.deadline, events[n].deadline);
          }
        }
      }
    }
  }

  /** What came after the last promise of no deadline, or everything. */
  function SinceZero(events: seq<PromiseEvent>): seq<PromiseEvent> {
    if events == [] then []
    else if events[|events| - 1] == Promising(NO_DEADLINE) then []
    else SinceZero(events[..|events| - 1]) + [events[|events| - 1]]
  }

  lemma {:induction false} SinceZeroIsReal(events: seq<PromiseEvent>)
    ensures RealPromises(SinceZero(events))
    decreases |events|
  {
    if events != [] { SinceZeroIsReal(events[..|events| - 1]); }
  }

  lemma {:induction false} SinceZeroIsASuffix(events: seq<PromiseEvent>)
    ensures |SinceZero(events)| <= |events|
    ensures SinceZero(events) == events[|events| - |SinceZero(events)|..]
    decreases |events|
  {
    if events != [] { SinceZeroIsASuffix(events[..|events| - 1]); }
  }

  /** Over any run at all, a promise of no deadline forgets: what is in force is
      what the promises since the last such promise put in force, and those are
      real ones. */
  lemma {:induction false} ZeroForgets(events: seq<PromiseEvent>)
    ensures PromiseAfter(events).deadline == PromiseAfter(SinceZero(events)).deadline
    ensures RealPromises(SinceZero(events))
    decreases |events|
  {
    SinceZeroIsReal(events);
    if events != [] {
      var n := |events| - 1;
      ZeroForgets(events[..n]);
      var since := SinceZero(events[..n]);
      assert (since + [events[n]])[..|since|] == since;
    }
  }

  /** The failing runs, for every deadline there is: it was promised, and after a
      promise of no deadline it is not in force. */
  lemma {:induction false} PromiseForgotten(deadline: U64)
    requires deadline != NO_DEADLINE
    ensures PromiseAfter([Promising(deadline)]).deadline == deadline
    ensures PromiseAfter([Promising(deadline), Promising(NO_DEADLINE)]).deadline == NO_DEADLINE
  {
    assert [Promising(deadline)][..0] == [];
    assert [Promising(deadline), Promising(NO_DEADLINE)][..1] == [Promising(deadline)];
  }

  predicate RealPromise(event: PromiseEvent) { event.Promising? && event.deadline != NO_DEADLINE }

  /** The earliest real deadline promised, or the word for none if none was. */
  ghost predicate IsEarliestReal(events: seq<PromiseEvent>, deadline: U64) {
    && (deadline == NO_DEADLINE ==> forall i | 0 <= i < |events| :: !RealPromise(events[i]))
    && (deadline != NO_DEADLINE ==> Promising(deadline) in events)
    && forall i | 0 <= i < |events| && RealPromise(events[i]) :: deadline <= events[i].deadline
  }

  /** Some promise among these is no later than `deadline`. */
  ghost predicate Matched(promises: seq<PromiseEvent>, deadline: U64) {
    exists j :: 0 <= j < |promises| && RealPromise(promises[j]) && promises[j].deadline <= deadline
  }

  /** Nothing that was forgotten mattered: each real promise of the run is matched
      by one no later, made since the last promise of no deadline. */
  ghost predicate NothingLost(events: seq<PromiseEvent>) {
    forall i | 0 <= i < |events| && RealPromise(events[i]) :: Matched(SinceZero(events), events[i].deadline)
  }

  lemma {:induction false} EarliestOfReal(events: seq<PromiseEvent>)
    requires RealPromises(events)
    ensures IsEarliestReal(events, PromiseAfter(events).deadline)
  {
    PromisesOnlyTighten(events);
  }

  lemma {:induction false} LostIsNotEarliest(events: seq<PromiseEvent>, since: seq<PromiseEvent>, deadline: U64)
    requires IsEarliestReal(since, deadline) && IsEarliestReal(events, deadline)
    ensures forall i | 0 <= i < |events| && RealPromise(events[i]) :: Matched(since, events[i].deadline)
  {
    forall i | 0 <= i < |events| && RealPromise(events[i]) ensures Matched(since, events[i].deadline) {
      var j :| 0 <= j < |since| && since[j] == Promising(deadline);
      assert RealPromise(since[j]);
    }
  }

  lemma {:induction false} MatchedIsEarliest(events: seq<PromiseEvent>, since: seq<PromiseEvent>, deadline: U64)
    requires IsEarliestReal(since, deadline) && forall event | event in since :: event in events
    requires forall i | 0 <= i < |events| && RealPromise(events[i]) :: Matched(since, events[i].deadline)
    ensures IsEarliestReal(events, deadline)
  {
    forall i | 0 <= i < |events| && RealPromise(events[i])
      ensures deadline != NO_DEADLINE && deadline <= events[i].deadline
    {
      assert Matched(since, events[i].deadline);
      var j :| 0 <= j < |since| && RealPromise(since[j]) && since[j].deadline <= events[i].deadline;
    }
  }

  /** Exactly when a run keeps its promises, for every run: the earliest real
      deadline promised is in force if and only if nothing forgotten mattered. */
  lemma {:induction false} EarliestExactly(events: seq<PromiseEvent>)
    ensures IsEarliestReal(events, PromiseAfter(events).deadline) <==> NothingLost(events)
  {
    var since, deadline := SinceZero(events), PromiseAfter(events).deadline;
    ZeroForgets(events);
    EarliestOfReal(since);
    SinceZeroIsASuffix(events);
    if IsEarliestReal(events, deadline) { LostIsNotEarliest(events, since, deadline); }
    if NothingLost(events) { MatchedIsEarliest(events, since, deadline); }
  }

  /** What a promise is answered, after any run: it moved exactly when none since
      the last promise of no deadline is as early. */
  lemma {:induction false} PromiseAnswers(events: seq<PromiseEvent>, deadline: U64)
    requires deadline != NO_DEADLINE
    ensures Promise(PromiseAfter(events), deadline).1 <==> !Matched(SinceZero(events), deadline)
  {
    var since := SinceZero(events);
    ZeroForgets(events);
    EarliestOfReal(since);
    var standing := PromiseAfter(events).deadline;
    if standing != NO_DEADLINE {
      var j :| 0 <= j < |since| && since[j] == Promising(standing);
      assert RealPromise(since[j]);
    }
  }

  // ---- a value that is true now --------------------------------------------

  datatype Graded = Graded(value: U64, owed: bool)

  const NO_GRADE := Graded(0, false)

  function SetGrade(g: Graded, value: U64): (Graded, bool) {
    if g.value == value && !g.owed then (g, false) else (Graded(value, true), g.value != value)
  }

  function DrainGrade(g: Graded): (Graded, Option<U64>) {
    if !g.owed then (g, None) else (g.(owed := false), Some(g.value))
  }

  class GradeCell {
    var value: U64
    var owed: bool

    ghost function Abstract(): Graded
      reads this
    {
      Graded(value, owed)
    }

    constructor ()
      ensures Abstract() == NO_GRADE
    {
      value, owed := 0, false;
    }

    method Set(new_: U64) returns (changed: bool)
      modifies this
      ensures (Abstract(), changed) == SetGrade(old(Abstract()), new_)
    {
      if value == new_ && !owed { return false; }
      changed := value != new_;
      value := new_;
      owed := true;
    }

    method Publish() returns (told: Option<U64>)
      modifies this
      ensures (Abstract(), told) == DrainGrade(old(Abstract()))
    {
      if !owed { return None; }
      owed := false;
      return Some(value);
    }
  }

  datatype GradeEvent = Setting(value: U64) | PublishingGrade

  function GradeAfter(events: seq<GradeEvent>): Graded {
    if events == [] then NO_GRADE
    else
      var before := GradeAfter(events[..|events| - 1]);
      match events[|events| - 1]
      case Setting(value) => SetGrade(before, value).0
      case PublishingGrade => DrainGrade(before).0
  }

  function GradesTold(events: seq<GradeEvent>): seq<U64> {
    if events == [] then []
    else
      var before := events[..|events| - 1];
      match events[|events| - 1]
      case Setting(_) => GradesTold(before)
      case PublishingGrade =>
        match DrainGrade(GradeAfter(before)).1
        case None => GradesTold(before)
        case Some(value) => GradesTold(before) + [value]
  }

  /** The latest value set, or zero if none was. */
  function LatestSet(events: seq<GradeEvent>): U64 {
    if events == [] then 0
    else
      match events[|events| - 1]
      case Setting(value) => value
      case PublishingGrade => LatestSet(events[..|events| - 1])
  }

  /** What the component last heard, or zero if it has heard nothing. */
  function LastTold(events: seq<GradeEvent>): U64 {
    var told := GradesTold(events);
    if told == [] then 0 else told[|told| - 1]
  }

  /** The grade theorem, over every interleaving: the value in force is the latest
      set, a publication tells exactly that, and when nothing is owed the
      component's last news is the truth. */
  lemma {:induction false} LatestGradeWins(events: seq<GradeEvent>)
    ensures GradeAfter(events).value == LatestSet(events)
    ensures !GradeAfter(events).owed ==> LastTold(events) == LatestSet(events)
    ensures events != [] && events[|events| - 1].PublishingGrade? ==>
              !GradeAfter(events).owed && LastTold(events) == LatestSet(events)
              && |GradesTold(events)| <= |GradesTold(events[..|events| - 1])| + 1
    decreases |events|
  {
    if events != [] { LatestGradeWins(events[..|events| - 1]); }
  }

  /** What setting a grade is answered and owes, after any run: it changed exactly
      if it differs from the latest set, and a notice is owed exactly if one was or
      it changed, so a grade set to what it was and told owes nothing. */
  lemma {:induction false} SettingAnswers(events: seq<GradeEvent>, value: U64)
    ensures var (after, changed) := SetGrade(GradeAfter(events), value);
            && (changed <==> value != LatestSet(events))
            && (after.owed <==> GradeAfter(events).owed || value != LatestSet(events))
  {
    LatestGradeWins(events);
  }
}
