/** The frame rules of a participation channel, over what each entry was read to
    say: as a step function, and as a description of whole runs that does not
    name it. */
module Frames {
  import opened Wire
  import opened Canvas
  import opened CanvasCodec

  datatype Fault = Fault(escape: Escape, at: U32)
  datatype Progress = Assembling | Participating(participation: Participation)
  datatype State = State(epoch: U32, at: U32, building: Option<Arrangement>, poison: Option<Fault>)

  /** One entry as it reaches the frame rules: what its bytes were read to say,
      whether its raw opcode closes a frame, and the tree presented then. */
  datatype Reading = Reading(said: Result<Entry, Escape>, closes: bool, tree: Presented)

  /** A believed entry closes exactly when it is the commit; one that was not
      believed may carry either kind of opcode. */
  type Arrival = r: Reading | r.said.Ok? ==> (r.closes <==> r.said.value.Participate?)
    witness Reading(Err(UnknownOpcode), false,
                    Presented(_ => Report(Crowded, seq(PLACED_MAX, _ => UNDECLARED)), (_, _) => false))

  function Opening(epoch: U32): State { State(epoch, 0, None, None) }

  function FollowEpoch(s: State, epoch: U32): (State, bool) {
    if epoch == s.epoch then (s, false) else (Opening(epoch), true)
  }

  function Fold(building: Option<Arrangement>, offer: Arrival): (Option<Arrangement>, Result<Progress, Escape>) {
    match offer.said
    case Err(escape) => (building, Err(escape))
    case Ok(body) =>
      match body
      case Declare(canvas, base, selection) =>
        if building.Some? then (building, Err(Redeclared(building.value.canvas)))
        else (Some(Declaring(canvas, base, selection)), Ok(Assembling))
      case Place(placement) =>
        if building.None? then (building, Err(NotDeclared))
        else
          (match WithPlacement(building.value, placement)
           case Err(escape) => (building, Err(escape))
           case Ok(more) => (Some(more), Ok(Assembling)))
      case Participate =>
        if building.None? then (building, Err(NotDeclared))
        else
          (match Admit(building.value, offer.tree)
           case Err(escape) => (building, Err(escape))
           case Ok(p) => (building, Ok(Participating(p))))
  }

  function Accept(s: State, offer: Arrival): (State, Result<Progress, Fault>) {
    if s.poison.Some? then
      (if offer.closes then Opening(s.epoch) else s, Err(s.poison.value))
    else
      var next := if s.at == U32_MAX then s.at else s.at + 1;
      var (building, progress) := Fold(s.building, offer);
      match progress
      case Ok(p) =>
        (if offer.closes then Opening(s.epoch) else State(s.epoch, next, building, None), Ok(p))
      case Err(escape) =>
        var fault := Fault(escape, s.at);
        (if offer.closes then Opening(s.epoch) else State(s.epoch, next, building, Some(fault)), Err(fault))
  }

  // ---- runs ----------------------------------------------------------------

  datatype Event = Offering(offer: Arrival) | EpochIs(epoch: U32)
  datatype Answer = Answered(result: Result<Progress, Fault>) | Followed(moved: bool)

  function Step(s: State, event: Event): (State, Answer) {
    match event
    case Offering(offer) => var (next, r) := Accept(s, offer); (next, Answered(r))
    case EpochIs(epoch) => var (next, moved) := FollowEpoch(s, epoch); (next, Followed(moved))
  }

  /** Where a run from a fresh channel stands. */
  function After(epoch: U32, events: seq<Event>): State {
    if events == [] then Opening(epoch)
    else Step(After(epoch, events[..|events| - 1]), events[|events| - 1]).0
  }

  /** What the `i`th event of a run was answered. */
  function AnswerAt(epoch: U32, events: seq<Event>, i: nat): Answer
    requires i < |events|
  {
    Step(After(epoch, events[..i]), events[i]).1
  }

  // ---- the description -----------------------------------------------------

  /** The epoch in force after a run. */
  function EpochOf(epoch: U32, events: seq<Event>): U32 {
    if events == [] then epoch
    else
      match events[|events| - 1]
      case EpochIs(e) => e
      case Offering(_) => EpochOf(epoch, events[..|events| - 1])
  }

  /** The open frame of a run: what was offered since the last closing opcode or
      the last epoch that moved, whether or not it was believed. */
  function FrameOf(epoch: U32, events: seq<Event>): seq<Arrival> {
    if events == [] then []
    else
      var before := events[..|events| - 1];
      match events[|events| - 1]
      case EpochIs(e) => if e == EpochOf(epoch, before) then FrameOf(epoch, before) else []
      case Offering(offer) => if offer.closes then [] else FrameOf(epoch, before) + [offer]
  }

  predicate SaysPlace(offer: Arrival) { offer.said.Ok? && offer.said.value.Place? }

  /** A frame with nothing wrong in it yet: empty, or one declaration and then at
      most sixty-four placements of different occupants. */
  ghost predicate WellBegun(frame: seq<Arrival>) {
    && |frame| <= 1 + PLACED_MAX
    && (frame != [] ==> frame[0].said.Ok? && frame[0].said.value.Declare?)
    && (forall i | 1 <= i < |frame| :: SaysPlace(frame[i]))
    && Distinct(PlacementsOf(frame))
  }

  /** The placements a frame carries after its first entry. */
  function PlacementsOf(frame: seq<Arrival>): (placed: seq<Placement>)
  {
    if frame == [] then [] else seq(|frame| - 1, i requires 0 <= i < |frame| - 1 => PlacementIn(frame[i + 1]))
  }

  function PlacementIn(offer: Arrival): Placement {
    if SaysPlace(offer) then offer.said.value.placement else Placement(NO_NODE, At(0))
  }

  /** The canvas a well-begun frame declares. */
  ghost function Assembled(frame: seq<Arrival>): Option<Arrangement>
    requires WellBegun(frame)
  {
    if frame == [] then None
    else
      var d := frame[0].said.value;
      Some(Arrangement(d.canvas, d.base, d.selection, PlacementsOf(frame)))
  }

  /** What is wrong with an entry offered after a well-begun frame, if anything. */
  ghost function FaultIn(frame: seq<Arrival>, offer: Arrival): Option<Escape>
    requires WellBegun(frame)
  {
    match offer.said
    case Err(escape) => Some(escape)
    case Ok(body) =>
      match body
      case Declare(_, _, _) => if frame == [] then None else Some(Redeclared(Assembled(frame).value.canvas))
      case Place(placement) =>
        if frame == [] then Some(NotDeclared)
        else if |frame| == 1 + PLACED_MAX then Some(TooManyPlacements)
        else if placement.occupant in PlacedNodes(PlacementsOf(frame)) then Some(PlacedTwice(placement.occupant))
        else None
      case Participate =>
        if frame == [] then Some(NotDeclared)
        else
          match Admit(Assembled(frame).value, offer.tree)
          case Err(escape) => Some(escape)
          case Ok(_) => None
  }

  /** `at` is where a frame first went wrong. */
  ghost predicate FaultsAt(frame: seq<Arrival>, at: int) {
    0 <= at < |frame| && WellBegun(frame[..at]) && FaultIn(frame[..at], frame[at]).Some?
  }

  ghost function FaultAt(frame: seq<Arrival>, at: int): Fault
    requires FaultsAt(frame, at)
  {
    Fault(FaultIn(frame[..at], frame[at]).value, at)
  }

  /** The receiver's whole state, read off the open frame alone. */
  ghost predicate Describes(s: State, epoch: U32, frame: seq<Arrival>) {
    if WellBegun(frame) then s == State(epoch, |frame|, Assembled(frame), None)
    else exists at ::
           && FaultsAt(frame, at)
           && s == State(epoch, at + 1, Assembled(frame[..at]), Some(FaultAt(frame, at)))
  }

  /** The answer an entry earns, read off its own frame alone. */
  ghost predicate Earns(frame: seq<Arrival>, offer: Arrival, r: Result<Progress, Fault>) {
    if WellBegun(frame) then
      match FaultIn(frame, offer)
      case Some(escape) => r == Err(Fault(escape, |frame|))
      case None =>
        if offer.closes then
          frame != [] && Admit(Assembled(frame).value, offer.tree).Ok?
          && r == Ok(Participating(Admit(Assembled(frame).value, offer.tree).value))
        else r == Ok(Assembling)
    else exists at :: FaultsAt(frame, at) && r == Err(FaultAt(frame, at))
  }

  lemma {:induction false} PlacementsExtend(frame: seq<Arrival>, offer: Arrival)
    requires frame != []
    ensures PlacementsOf(frame + [offer]) == PlacementsOf(frame) + [PlacementIn(offer)]
    ensures forall i | 0 <= i < |frame| :: (frame + [offer])[i] == frame[i]
  {
  }

  lemma {:induction false} DistinctExtends(placed: seq<Placement>, p: Placement)
    requires Distinct(placed)
    ensures Distinct(placed + [p]) <==> p.occupant !in PlacedNodes(placed)
  {
    var more := placed + [p];
    if Distinct(more) {
      forall i | 0 <= i < |placed| ensures placed[i].occupant != p.occupant {
        assert more[i].occupant != more[|placed|].occupant;
      }
    }
  }

  lemma {:induction false} PlacesExtend(frame: seq<Arrival>, offer: Arrival)
    requires frame != []
    requires forall i | 1 <= i < |frame| :: SaysPlace(frame[i])
    ensures (forall i | 1 <= i < |frame + [offer]| :: SaysPlace((frame + [offer])[i])) <==> SaysPlace(offer)
  {
    var longer := frame + [offer];
    assert longer[|frame|] == offer;
    assert forall i | 1 <= i < |frame| :: longer[i] == frame[i];
  }

  lemma {:induction false} WellBegunGrows(frame: seq<Arrival>, offer: Arrival)
    requires WellBegun(frame) && frame != []
    ensures WellBegun(frame + [offer]) <==>
            |frame| <= PLACED_MAX && SaysPlace(offer)
            && PlacementIn(offer).occupant !in PlacedNodes(PlacementsOf(frame))
  {
    PlacementsExtend(frame, offer);
    PlacesExtend(frame, offer);
    DistinctExtends(PlacementsOf(frame), PlacementIn(offer));
  }

  /** One more believed entry: the frame stays well begun exactly when nothing is
      wrong with it. */
  lemma {:induction false} WellBegunExtends(frame: seq<Arrival>, offer: Arrival)
    requires WellBegun(frame) && !offer.closes
    ensures WellBegun(frame + [offer]) <==> FaultIn(frame, offer).None?
  {
    if frame != [] {
      WellBegunGrows(frame, offer);
    } else {
      assert [offer][0] == offer && frame + [offer] == [offer];
    }
  }

  lemma {:induction false} PrefixIsWellBegun(frame: seq<Arrival>, at: nat)
    requires WellBegun(frame) && at <= |frame|
    ensures WellBegun(frame[..at])
  {
    if at > 0 {
      assert PlacementsOf(frame[..at]) == PlacementsOf(frame)[..at - 1];
    }
  }

  lemma {:induction false} FaultPersists(frame: seq<Arrival>, offer: Arrival, at: int)
    requires FaultsAt(frame, at)
    ensures FaultsAt(frame + [offer], at) && FaultAt(frame + [offer], at) == FaultAt(frame, at)
  {
    assert (frame + [offer])[..at] == frame[..at];
  }

  /** The fold after a well-begun frame does what the frame says it should. */
  ghost predicate FoldsAsSaid(frame: seq<Arrival>, offer: Arrival)
    requires WellBegun(frame)
  {
    var folded := Fold(Assembled(frame), offer);
    match FaultIn(frame, offer)
    case Some(escape) => folded == (Assembled(frame), Err(escape))
    case None =>
      if offer.closes then
        && frame != [] && Admit(Assembled(frame).value, offer.tree).Ok?
        && folded.1 == Ok(Participating(Admit(Assembled(frame).value, offer.tree).value))
      else
        WellBegun(frame + [offer]) && folded == (Assembled(frame + [offer]), Ok(Assembling))
  }

  lemma {:induction false} FoldsDeclare(frame: seq<Arrival>, offer: Arrival)
    requires WellBegun(frame) && offer.said.Ok? && offer.said.value.Declare?
    ensures FoldsAsSaid(frame, offer)
  {
    WellBegunExtends(frame, offer);
    if frame == [] {
      assert frame + [offer] == [offer] && PlacementsOf([offer]) == [];
    }
  }

  lemma {:induction false} FoldsPlace(frame: seq<Arrival>, offer: Arrival)
    requires WellBegun(frame) && SaysPlace(offer)
    ensures FoldsAsSaid(frame, offer)
  {
    WellBegunExtends(frame, offer);
    if frame != [] {
      PlacementsExtend(frame, offer);
      PlacesIsMembership(PlacementsOf(frame), offer.said.value.placement.occupant);
    }
  }

  lemma {:induction false} FoldsOther(frame: seq<Arrival>, offer: Arrival)
    requires WellBegun(frame) && (offer.said.Err? || offer.said.value.Participate?)
    ensures FoldsAsSaid(frame, offer)
  {
  }

  lemma {:induction false} FoldFollowsFrame(frame: seq<Arrival>, offer: Arrival)
    requires WellBegun(frame)
    ensures FoldsAsSaid(frame, offer)
  {
    if SaysPlace(offer) {
      FoldsPlace(frame, offer);
    } else if offer.said.Ok? && offer.said.value.Declare? {
      FoldsDeclare(frame, offer);
    } else {
      FoldsOther(frame, offer);
    }
  }

  /** From a well-begun frame: the answer is the one the frame earns and the next
      state is described by the next frame. */
  lemma {:induction false} OfferAfterGoodFrame(epoch: U32, frame: seq<Arrival>, offer: Arrival)
    requires WellBegun(frame)
    ensures var (next, r) := Accept(State(epoch, |frame|, Assembled(frame), None), offer);
            && Earns(frame, offer, r)
            && (if offer.closes then next == Opening(epoch) else Describes(next, epoch, frame + [offer]))
  {
    FoldFollowsFrame(frame, offer);
    var longer := frame + [offer];
    if !offer.closes && FaultIn(frame, offer).Some? {
      WellBegunExtends(frame, offer);
      assert longer[..|frame|] == frame && longer[|frame|] == offer;
      assert FaultsAt(longer, |frame|);
      assert FaultAt(longer, |frame|) == Fault(FaultIn(frame, offer).value, |frame|);
    }
  }

  /** From a poisoned frame: the standing fault is the answer and stays. */
  lemma {:induction false} OfferAfterFault(epoch: U32, frame: seq<Arrival>, at: int, offer: Arrival)
    requires !WellBegun(frame) && FaultsAt(frame, at)
    ensures var (next, r) :=
              Accept(State(epoch, at + 1, Assembled(frame[..at]), Some(FaultAt(frame, at))), offer);
            && Earns(frame, offer, r)
            && (if offer.closes then next == Opening(epoch) else Describes(next, epoch, frame + [offer]))
  {
    FaultPersists(frame, offer, at);
    var longer := frame + [offer];
    assert longer[..|frame|] == frame && longer[..at] == frame[..at];
    if WellBegun(longer) {
      PrefixIsWellBegun(longer, |frame|);
    }
  }

  lemma {:induction false} OfferKeepsDescription(s: State, epoch: U32, frame: seq<Arrival>, offer: Arrival)
    requires Describes(s, epoch, frame)
    ensures var (next, r) := Accept(s, offer);
            && Earns(frame, offer, r)
            && (if offer.closes then next == Opening(epoch) else Describes(next, epoch, frame + [offer]))
  {
    if WellBegun(frame) {
      OfferAfterGoodFrame(epoch, frame, offer);
    } else {
      var at :| FaultsAt(frame, at) && s == State(epoch, at + 1, Assembled(frame[..at]), Some(FaultAt(frame, at)));
      OfferAfterFault(epoch, frame, at, offer);
    }
  }

  /** The whole-run refinement. After any sequence of entries and epochs the
      receiver's state is the one its open frame describes. */
  lemma {:induction false} RunFollowsFrames(epoch: U32, events: seq<Event>)
    ensures Describes(After(epoch, events), EpochOf(epoch, events), FrameOf(epoch, events))
    decreases |events|
  {
    if events == [] {
      assert WellBegun([]);
    } else {
      var n := |events| - 1;
      var before := events[..n];
      RunFollowsFrames(epoch, before);
      match events[n]
      case Offering(offer) =>
        OfferKeepsDescription(After(epoch, before), EpochOf(epoch, before), FrameOf(epoch, before), offer);
        if offer.closes { assert WellBegun([]); }
      case EpochIs(e) =>
        DescribedEpoch(After(epoch, before), EpochOf(epoch, before), FrameOf(epoch, before));
        assert WellBegun([]);
    }
  }

  lemma {:induction false} DescribedEpoch(s: State, epoch: U32, frame: seq<Arrival>)
    requires Describes(s, epoch, frame)
    ensures s.epoch == epoch
  {
  }

  /** And the answer to every entry is the one its own frame earns: nothing
      outside that frame, neither an earlier frame nor an earlier epoch, reaches
      it. */
  lemma {:induction false} AnswersFollowFrames(epoch: U32, events: seq<Event>, i: nat)
    requires i < |events| && events[i].Offering?
    ensures AnswerAt(epoch, events, i).Answered?
    ensures Earns(FrameOf(epoch, events[..i]), events[i].offer, AnswerAt(epoch, events, i).result)
  {
    var before := events[..i];
    RunFollowsFrames(epoch, before);
    OfferKeepsDescription(After(epoch, before), EpochOf(epoch, before), FrameOf(epoch, before), events[i].offer);
  }

  /** A frame first went wrong in one place. */
  lemma {:induction false} OneFirstFault(frame: seq<Arrival>, a: int, b: int)
    requires FaultsAt(frame, a) && FaultsAt(frame, b)
    ensures a == b
  {
    if a < b { NotWellBegunPast(frame, a, b); }
    if b < a { NotWellBegunPast(frame, b, a); }
  }

  lemma {:induction false} NotWellBegunPast(frame: seq<Arrival>, a: int, b: int)
    requires FaultsAt(frame, a) && a < b <= |frame|
    ensures !WellBegun(frame[..b])
  {
    if WellBegun(frame[..b]) {
      PrefixIsWellBegun(frame[..b], a + 1);
      assert frame[..b][..a + 1] == frame[..a] + [frame[a]];
      assert (frame[..a] + [frame[a]])[a] == frame[a];
      assert !frame[a].closes;
      WellBegunExtends(frame[..a], frame[a]);
    }
  }

  /** A frame and an entry earn one answer. */
  lemma {:induction false} AnswerIsDetermined(frame: seq<Arrival>, offer: Arrival, r: Result<Progress, Fault>,
                                              s: Result<Progress, Fault>)
    requires Earns(frame, offer, r) && Earns(frame, offer, s)
    ensures r == s
  {
    if !WellBegun(frame) {
      var a :| FaultsAt(frame, a) && r == Err(FaultAt(frame, a));
      var b :| FaultsAt(frame, b) && s == Err(FaultAt(frame, b));
      OneFirstFault(frame, a, b);
    }
  }

  /** Frames do not interfere: in any two runs, at any two places, the same entry
      after the same open frame gets the same answer, whatever frames, faults and
      epochs came before. */
  lemma {:induction false} FramesDoNotInterfere(epoch: U32, events: seq<Event>, i: nat,
                                                other: U32, others: seq<Event>, j: nat)
    requires i < |events| && j < |others| && events[i].Offering? && others[j] == events[i]
    requires FrameOf(epoch, events[..i]) == FrameOf(other, others[..j])
    ensures AnswerAt(epoch, events, i) == AnswerAt(other, others, j)
  {
    AnswersFollowFrames(epoch, events, i);
    AnswersFollowFrames(other, others, j);
    AnswerIsDetermined(FrameOf(epoch, events[..i]), events[i].offer,
                       AnswerAt(epoch, events, i).result, AnswerAt(other, others, j).result);
  }

  /** An epoch and a frame describe one state. */
  lemma {:induction false} StateIsDetermined(epoch: U32, frame: seq<Arrival>, s: State, t: State)
    requires Describes(s, epoch, frame) && Describes(t, epoch, frame)
    ensures s == t
  {
    if !WellBegun(frame) {
      var a :| FaultsAt(frame, a) && s == State(epoch, a + 1, Assembled(frame[..a]), Some(FaultAt(frame, a)));
      var b :| FaultsAt(frame, b) && t == State(epoch, b + 1, Assembled(frame[..b]), Some(FaultAt(frame, b)));
      OneFirstFault(frame, a, b);
    }
  }

  lemma {:induction false} FrameAfterHistory(epoch: U32, before: seq<Event>, events: seq<Event>)
    requires FrameOf(epoch, before) == []
    ensures EpochOf(epoch, before + events) == EpochOf(EpochOf(epoch, before), events)
    ensures FrameOf(epoch, before + events) == FrameOf(EpochOf(epoch, before), events)
    decreases |events|
  {
    if events == [] {
      assert before + events == before;
    } else {
      var n := |events| - 1;
      FrameAfterHistory(epoch, before, events[..n]);
      assert (before + events)[..|before| + n] == before + events[..n];
      assert (before + events)[|before| + n] == events[n];
    }
  }

  /** What the `i`th event was answered after a history. */
  function AnswerAfter(epoch: U32, before: seq<Event>, events: seq<Event>, i: nat): Answer
    requires i < |events|
  {
    AnswerAt(epoch, before + events, |before| + i)
  }

  lemma {:induction false} StateAfterHistory(epoch: U32, before: seq<Event>, events: seq<Event>)
    requires FrameOf(epoch, before) == []
    ensures After(epoch, before + events) == After(EpochOf(epoch, before), events)
  {
    var since := EpochOf(epoch, before);
    FrameAfterHistory(epoch, before, events);
    RunFollowsFrames(epoch, before + events);
    RunFollowsFrames(since, events);
    StateIsDetermined(EpochOf(since, events), FrameOf(since, events),
                      After(epoch, before + events), After(since, events));
  }

  /** Closed history is forgotten: after any run that leaves no frame open, a
      channel stands and answers as one freshly opened at that epoch. */
  lemma {:induction false} HistoryIsForgotten(epoch: U32, before: seq<Event>, events: seq<Event>)
    requires FrameOf(epoch, before) == []
    ensures After(epoch, before + events) == After(EpochOf(epoch, before), events)
    ensures forall i | 0 <= i < |events| ::
              AnswerAfter(epoch, before, events, i) == AnswerAt(EpochOf(epoch, before), events, i)
  {
    StateAfterHistory(epoch, before, events);
    forall i | 0 <= i < |events|
      ensures AnswerAfter(epoch, before, events, i) == AnswerAt(EpochOf(epoch, before), events, i)
    {
      StateAfterHistory(epoch, before, events[..i]);
      assert (before + events)[..|before| + i] == before + events[..i];
    }
  }

  /** A look at the epoch is answered that it moved exactly when it did. */
  lemma {:induction false} EpochIsAnswered(epoch: U32, events: seq<Event>, i: nat)
    requires i < |events| && events[i].EpochIs?
    ensures AnswerAt(epoch, events, i) == Followed(events[i].epoch != EpochOf(epoch, events[..i]))
  {
    RunFollowsFrames(epoch, events[..i]);
    DescribedEpoch(After(epoch, events[..i]), EpochOf(epoch, events[..i]), FrameOf(epoch, events[..i]));
  }

  // ---- what the description says -------------------------------------------

  /** The position counter never comes near saturating, and while a canvas is
      open and unpoisoned it counts the declaration and the placements. */
  lemma {:induction false} PositionCounts(epoch: U32, events: seq<Event>)
    ensures var s := After(epoch, events);
            && s.at <= 2 + PLACED_MAX
            && (s.poison.None? ==> s.at == (if s.building.None? then 0 else 1 + |s.building.value.placed|))
            && (s.building.Some? ==> Built(s.building.value))
  {
    RunFollowsFrames(epoch, events);
    var frame := FrameOf(epoch, events);
    if !WellBegun(frame) {
      var s := After(epoch, events);
      var at :| FaultsAt(frame, at)
                && s == State(EpochOf(epoch, events), at + 1, Assembled(frame[..at]), Some(FaultAt(frame, at)));
      assert |frame[..at]| <= 1 + PLACED_MAX;
    }
  }

  /** A closing entry leaves a fresh channel behind, whatever it was answered. */
  lemma {:induction false} ClosingStartsOver(epoch: U32, events: seq<Event>)
    requires events != [] && events[|events| - 1].Offering? && events[|events| - 1].offer.closes
    ensures After(epoch, events) == Opening(EpochOf(epoch, events))
  {
    RunFollowsFrames(epoch, events);
    assert FrameOf(epoch, events) == [];
    assert WellBegun([]);
  }

  /** Event `k` leaves the open frame open: an entry that does not close it, or a
      look at the epoch that finds it unmoved. */
  ghost predicate KeepsFrame(epoch: U32, events: seq<Event>, k: nat)
    requires k < |events|
  {
    match events[k]
    case Offering(offer) => !offer.closes
    case EpochIs(e) => e == EpochOf(epoch, events[..k])
  }

  /** Once an entry of a frame is refused, every later entry of that frame — its
      commit included — is refused with that same fault. */
  lemma {:induction false} FirstFaultStands(epoch: U32, events: seq<Event>, i: nat, j: nat)
    requires i < j < |events| && events[i].Offering? && events[j].Offering?
    requires forall k | i <= k < j :: KeepsFrame(epoch, events, k)
    requires AnswerAt(epoch, events, i).result.Err?
    ensures AnswerAt(epoch, events, j) == AnswerAt(epoch, events, i)
  {
    PoisonStands(epoch, events, i, j);
  }

  lemma {:induction false} PoisonStands(epoch: U32, events: seq<Event>, i: nat, j: nat)
    requires i < j < |events| && events[i].Offering?
    requires forall k | i <= k < j :: KeepsFrame(epoch, events, k)
    requires AnswerAt(epoch, events, i).result.Err?
    ensures After(epoch, events[..j]).poison == Some(AnswerAt(epoch, events, i).result.error)
    decreases j - i
  {
    assert events[..j][..j - 1] == events[..j - 1];
    assert KeepsFrame(epoch, events, j - 1);
    if i + 1 < j {
      PoisonStands(epoch, events, i, j - 1);
      var before := events[..j - 1];
      RunFollowsFrames(epoch, before);
      DescribedEpoch(After(epoch, before), EpochOf(epoch, before), FrameOf(epoch, before));
    } else {
      assert events[..j - 1] == events[..i];
    }
  }

  /** A frame that may participate: one declaration, one to sixty-four placements
      of different occupants, then a commit, every one of them believed, and the
      tree presented at the commit met at the floor. */
  ghost predicate Participates(frame: seq<Arrival>, commit: Arrival, p: Participation) {
    && WellBegun(frame) && |frame| >= 2
    && commit.said == Ok(Participate)
    && p.arrangement == Assembled(frame).value
    && MeetsFloor(p.arrangement, commit.tree, p.held)
  }

  /** Over every run: a participation is answered exactly to the commit of a
      frame that may participate, and it is that frame's own; everything else the
      receiver accepts is answered with nothing in it. */
  lemma {:induction false} ParticipatingExactly(epoch: U32, events: seq<Event>, i: nat, p: Participation)
    requires i < |events| && events[i].Offering?
    ensures AnswerAt(epoch, events, i) == Answered(Ok(Participating(p))) <==>
            Participates(FrameOf(epoch, events[..i]), events[i].offer, p)
    ensures AnswerAt(epoch, events, i).result.Ok? && events[i].offer.said != Ok(Participate) ==>
            AnswerAt(epoch, events, i).result == Ok(Assembling)
  {
    AnswersFollowFrames(epoch, events, i);
    var frame, offer := FrameOf(epoch, events[..i]), events[i].offer;
    if WellBegun(frame) && frame != [] {
      AdmitExactly(Assembled(frame).value, offer.tree, p);
    }
  }
}
