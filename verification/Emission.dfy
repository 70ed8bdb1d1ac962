/** The sending side, and the theorem about both sides: what a frame that was
    emitted means to the receiver that is offered it. */
module Emission {
  import opened Wire
  import opened Canvas
  import opened CanvasCodec
  import opened Frames
  import opened Reception

  /** What a producer chooses about how its entries ride. */
  datatype Carriage = Carriage(userData: U64, class_: U16, payloadOffset: U32, flags: bv8)

  datatype Submission = Submission(entry: Sqe, payload: Payload)

  /** How many entries a declaration takes: itself, its placements, the commit. */
  function Wanted(a: Arrangement): nat { |a.placed| + 2 }

  function BodyAt(a: Arrangement, i: nat): Entry
    requires i < Wanted(a)
  {
    if i == 0 then Declare(a.canvas, a.base, a.selection)
    else if i <= |a.placed| then Place(a.placed[i - 1])
    else Participate
  }

  /** Does the `i`th payload sit inside a 32-bit arena? */
  predicate InArena(c: Carriage, i: nat) { c.payloadOffset + i * PAYLOAD_BYTES <= U32_MAX }

  function CrossingAt(a: Arrangement, c: Carriage, i: nat): Crossing
    requires i < Wanted(a) && InArena(c, i)
  {
    Crossing(c.userData, c.class_, c.payloadOffset + i * PAYLOAD_BYTES, c.flags, BodyAt(a, i))
  }

  function SubmissionAt(a: Arrangement, c: Carriage, i: nat): Submission
    requires i < Wanted(a) && InArena(c, i)
  {
    var (entry, payload) := Encode(CrossingAt(a, c, i));
    Submission(entry, payload)
  }

  /** Every entry of the declaration fits the arena. */
  predicate FitsArena(a: Arrangement, c: Carriage) { InArena(c, Wanted(a) - 1) }

  /** The first `count` entries of the frame a declaration is carried by. */
  function Emitted(a: Arrangement, c: Carriage, count: nat): (r: seq<Submission>)
    requires count <= Wanted(a) && (count > 0 ==> InArena(c, count - 1))
    ensures |r| == count
  {
    seq(count, i requires 0 <= i < count => SubmissionAt(a, c, i))
  }

  /** `emit`: all of a frame, or a refusal; and exactly what the caller's buffer
      holds either way. The first two refusals touch nothing. An arena that runs
      out part way is also refused, but only after the entries before it were
      written. */
  method Emit(a: Arrangement, c: Carriage, into: array<Submission>) returns (r: Result<nat, Escape>)
    requires |a.placed| <= PLACED_MAX
    modifies into
    ensures r == if !FlagsLegal(c.flags) then Err(UnknownFlag)
                 else if into.Length < Wanted(a) then Err(NoRoom)
                 else if !FitsArena(a, c) then Err(Malformed)
                 else Ok(Wanted(a))
    ensures r == Err(UnknownFlag) || r == Err(NoRoom) ==> into[..] == old(into[..])
    ensures r.Ok? ==> into[..] == Emitted(a, c, Wanted(a)) + old(into[..])[Wanted(a)..]
    ensures r == Err(Malformed) ==>
              exists n: nat | n < Wanted(a) :: && !InArena(c, n) && (n > 0 ==> InArena(c, n - 1))
                                               && into[..] == Emitted(a, c, n) + old(into[..])[n..]
  {
    var rules := EnvelopeRules(DECLARE_CANVAS, c.flags);
    if rules.Some? { return Err(rules.value); }
    var wanted := |a.placed| + 2;
    if into.Length < wanted { return Err(NoRoom); }
    var written := WriteUntil(a, c, into);
    return if written < wanted then Err(Malformed) else Ok(written);
  }

  /** The writing loop of `emit`: entry after entry until the frame is whole or an
      offset no longer fits its field. */
  method WriteUntil(a: Arrangement, c: Carriage, into: array<Submission>) returns (at: nat)
    requires |a.placed| <= PLACED_MAX && Wanted(a) <= into.Length
    modifies into
    ensures at <= Wanted(a) && (at > 0 ==> InArena(c, at - 1)) && (at < Wanted(a) ==> !InArena(c, at))
    ensures into[..] == Emitted(a, c, at) + old(into[..])[at..]
  {
    ghost var slots := into[..];
    at := 0;
    while at < |a.placed| + 2
      invariant at <= Wanted(a) && (at > 0 ==> InArena(c, at - 1))
      invariant into[..at] == Emitted(a, c, at)
      invariant into[at..] == slots[at..]
    {
      var stride := at * PAYLOAD_BYTES;
      if stride > U32_MAX || c.payloadOffset + stride > U32_MAX { return; }
      var submission := EncodeNext(a, c, at);
      into[at] := submission;
      at := at + 1;
      assert into[..at] == into[..at - 1] + [submission];
    }
  }

  method EncodeNext(a: Arrangement, c: Carriage, i: nat) returns (submission: Submission)
    requires i < Wanted(a) && InArena(c, i)
    ensures Emitted(a, c, i + 1) == Emitted(a, c, i) + [submission]
  {
    var entry, payload := EncodeByCursor(CrossingAt(a, c, i));
    submission := Submission(entry, payload);
    assert submission == SubmissionAt(a, c, i);
  }

  /** What each entry of an emitted frame is, field by field: its own opcode, the
      carriage's token, class and flags, and its own slot of the arena, one stride
      of forty bytes past the one before; nothing else is set. */
  lemma {:induction false} EmittedEntries(a: Arrangement, c: Carriage, i: nat)
    requires FitsArena(a, c) && i < Wanted(a)
    ensures var opcode := if i == 0 then 0x01 else if i <= |a.placed| then 0x02 else 0x03;
            Emitted(a, c, Wanted(a))[i].entry ==
            Sqe(opcode, c.flags, c.class_, 0, c.userData, 0, c.payloadOffset + 40 * i, 0, 0, 40, 0, 0, 0)
    ensures Emitted(a, c, Wanted(a))[i].payload == PayloadOf(BodyAt(a, i))
  {
  }

  /** So no two entries of a frame share a byte of the arena. */
  lemma {:induction false} SlotsDoNotOverlap(a: Arrangement, c: Carriage, i: nat, j: nat)
    requires FitsArena(a, c) && i < j < Wanted(a)
    ensures var one, other := Emitted(a, c, Wanted(a))[i].entry, Emitted(a, c, Wanted(a))[j].entry;
            one.offset + one.len <= other.offset
  {
    EmittedEntries(a, c, i);
    EmittedEntries(a, c, j);
  }

  // ---- what the wire makes of a value --------------------------------------

  /** What any value at all, well formed or not, is read back as. */
  function Heard(body: Entry): Result<Entry, Escape> {
    match body
    case Declare(canvas, base, selection) =>
      if canvas == NO_NODE then Err(NoNode)
      else if selection.lane == Some(canvas) then Err(NotALane(canvas))
      else if selection.lane == Some(NO_NODE) then Ok(Declare(canvas, base, Selection(selection.span, None)))
      else Ok(body)
    case Place(placement) => if placement.occupant == NO_NODE then Err(NoNode) else Ok(body)
    case Participate => Ok(body)
  }

  lemma {:induction false} JudgeOfDeclare(body: Entry)
    requires body.Declare?
    ensures Judge(DECLARE_CANVAS, Fields(body)) == Heard(body)
  {
    DeclareFields(Fields(body), body);
  }

  lemma {:induction false} JudgeOfPlace(body: Entry)
    requires body.Place?
    ensures Judge(PLACE, Fields(body)) == Heard(body)
  {
    PlaceFields(Fields(body), body);
  }

  lemma {:induction false} JudgeOfFields(body: Entry)
    ensures Judge(Opcode(body), Fields(body)) == Heard(body)
  {
    match body
    case Declare(_, _, _) => JudgeOfDeclare(body);
    case Place(_) => JudgeOfPlace(body);
    case Participate =>
  }

  lemma {:induction false} EntryOfEncoded(body: Entry)
    ensures ReadEntry(Opcode(body), PayloadOf(body)) == Heard(body)
  {
    PayloadExact(Widths(Opcode(body)), Fields(body), PayloadOf(body));
    JudgeOfFields(body);
  }

  /** Encoding then decoding, for every value: exactly `Heard`, in the same
      carriage. */
  lemma {:induction false} DecodeOfEncoded(c: Crossing)
    requires FlagsLegal(c.flags)
    ensures Decode(Envelope(c), PayloadOf(c.body)) ==
            match Heard(c.body) case Ok(body) => Ok(c.(body := body)) case Err(escape) => Err(escape)
  {
    EntryOfEncoded(c.body);
  }

  lemma {:induction false} ReadOfEncoded(c: Crossing, tree: Presented)
    requires FlagsLegal(c.flags)
    ensures Read(Envelope(c), PayloadOf(c.body), tree) == Reading(Heard(c.body), c.body.Participate?, tree)
  {
    DecodeOfEncoded(c);
  }

  // ---- the emitted frame, offered ------------------------------------------

  /** The readings of an emitted frame. */
  function ArrivalAt(a: Arrangement, tree: Presented, i: nat): Arrival
    requires i < Wanted(a)
  {
    Reading(Heard(BodyAt(a, i)), i == Wanted(a) - 1, tree)
  }

  function Arrivals(a: Arrangement, tree: Presented): (arrivals: seq<Arrival>)
    ensures |arrivals| == Wanted(a)
  {
    seq(Wanted(a), i requires 0 <= i < Wanted(a) => ArrivalAt(a, tree, i))
  }

  /** A run of submissions, each offered against the same tree. */
  function OfferAll(frame: seq<Submission>, tree: Presented): (ds: seq<Delivery>)
    ensures |ds| == |frame|
  {
    seq(|frame|, i requires 0 <= i < |frame| => Submitted(frame[i].entry, frame[i].payload, tree))
  }

  /** An emitted frame offered whole to a receiver, entry by entry. */
  function Deliveries(a: Arrangement, c: Carriage, tree: Presented): (ds: seq<Delivery>)
    requires FitsArena(a, c)
  {
    OfferAll(Emitted(a, c, Wanted(a)), tree)
  }

  function Offerings(a: Arrangement, tree: Presented): (events: seq<Event>)
    ensures |events| == Wanted(a)
  {
    seq(Wanted(a), i requires 0 <= i < Wanted(a) => Offering(ArrivalAt(a, tree, i)))
  }

  lemma {:induction false} DeliveriesSay(a: Arrangement, c: Carriage, tree: Presented)
    requires FitsArena(a, c) && FlagsLegal(c.flags)
    ensures EventsOf(Deliveries(a, c, tree)) == Offerings(a, tree)
  {
    forall i | 0 <= i < Wanted(a) ensures EventsOf(Deliveries(a, c, tree))[i] == Offerings(a, tree)[i] {
      ReadOfEncoded(CrossingAt(a, c, i), tree);
    }
  }

  lemma {:induction false} OpenFrame(a: Arrangement, tree: Presented, epoch: U32, k: nat)
    requires k < Wanted(a)
    ensures FrameOf(epoch, Offerings(a, tree)[..k]) == Arrivals(a, tree)[..k]
    ensures EpochOf(epoch, Offerings(a, tree)[..k]) == epoch
  {
    if k > 0 {
      OpenFrame(a, tree, epoch, k - 1);
      var events, arrivals := Offerings(a, tree), Arrivals(a, tree);
      assert events[..k][..k - 1] == events[..k - 1];
      assert arrivals[..k] == arrivals[..k - 1] + [arrivals[k - 1]];
    }
  }

  /** The declaration as the far side hears it. */
  function HeardDeclaration(a: Arrangement): Arrangement {
    if a.selection.lane == Some(NO_NODE) then a.(selection := Selection(a.selection.span, None)) else a
  }

  predicate DeclarationHeard(a: Arrangement) {
    a.canvas != NO_NODE && a.selection.lane != Some(a.canvas)
  }

  /** As long as every occupant so far is a node, the far side assembles the same
      placements. */
  lemma {:induction false} GoodPrefix(a: Arrangement, tree: Presented, k: nat)
    requires Built(a) && DeclarationHeard(a) && k < Wanted(a)
    requires forall i | 0 <= i < k - 1 :: a.placed[i].occupant != NO_NODE
    ensures WellBegun(Arrivals(a, tree)[..k])
    ensures k > 0 ==> Assembled(Arrivals(a, tree)[..k]) == Some(HeardDeclaration(a).(placed := a.placed[..k - 1]))
  {
    var frame := Arrivals(a, tree)[..k];
    if k > 0 {
      assert frame[0] == ArrivalAt(a, tree, 0);
      forall i | 1 <= i < k ensures SaysPlace(frame[i]) && PlacementIn(frame[i]) == a.placed[i - 1] {
        assert frame[i] == ArrivalAt(a, tree, i);
      }
      assert PlacementsOf(frame) == a.placed[..k - 1];
    }
  }

  /** The wire can carry this declaration without changing it. */
  predicate WireFit(a: Arrangement) {
    && a.canvas != NO_NODE
    && a.selection.lane != Some(NO_NODE)
    && a.selection.lane != Some(a.canvas)
    && forall i | 0 <= i < |a.placed| :: a.placed[i].occupant != NO_NODE
  }

  /** What the sender's own `admit` would have said, as the receiver's answer to
      the commit. */
  function LocalAnswer(a: Arrangement, tree: Presented): Result<Progress, Fault>
    requires |a.placed| <= PLACED_MAX
  {
    match Admit(a, tree)
    case Ok(p) => Ok(Participating(p))
    case Err(escape) => Err(Fault(escape, |a.placed| + 1))
  }

  /** Silence until the commit, then the local verdict, and a fresh channel
      afterwards. */
  ghost predicate AnswersLocally(a: Arrangement, tree: Presented, epoch: U32, events: seq<Event>)
    requires Built(a) && |events| == Wanted(a)
  {
    && (forall i | 0 <= i < Wanted(a) - 1 :: AnswerAt(epoch, events, i) == Answered(Ok(Assembling)))
    && AnswerAt(epoch, events, Wanted(a) - 1) == Answered(LocalAnswer(a, tree))
    && After(epoch, events) == Opening(epoch)
  }

  /** The same after whatever came before on the channel. */
  ghost predicate AnswersLocallyAfter(
    a: Arrangement, tree: Presented, epoch: U32, before: seq<Event>, events: seq<Event>)
    requires Built(a) && |events| == Wanted(a)
  {
    && (forall i | 0 <= i < Wanted(a) - 1 :: AnswerAfter(epoch, before, events, i) == Answered(Ok(Assembling)))
    && AnswerAfter(epoch, before, events, Wanted(a) - 1) == Answered(LocalAnswer(a, tree))
    && After(epoch, before + events) == Opening(EpochOf(epoch, before))
  }

  /** The far side, offered an emitted frame, behaves as if it were the near one. */
  ghost predicate Transparent(a: Arrangement, c: Carriage, tree: Presented, epoch: U32, before: seq<Event>)
    requires Built(a) && FitsArena(a, c)
  {
    AnswersLocallyAfter(a, tree, epoch, before, EventsOf(Deliveries(a, c, tree)))
  }

  lemma {:induction false} LocallyAsOnAFreshChannel(
    a: Arrangement, tree: Presented, epoch: U32, before: seq<Event>, events: seq<Event>)
    requires Built(a) && |events| == Wanted(a) && FrameOf(epoch, before) == []
    ensures AnswersLocallyAfter(a, tree, epoch, before, events) <==>
            AnswersLocally(a, tree, EpochOf(epoch, before), events)
  {
    HistoryIsForgotten(epoch, before, events);
  }

  /** With no frame open before it, a frame is transparent exactly when it would
      be on a fresh channel. */
  lemma {:induction false} AsOnAFreshChannel(
    a: Arrangement, c: Carriage, tree: Presented, epoch: U32, before: seq<Event>)
    requires Built(a) && FlagsLegal(c.flags) && FitsArena(a, c) && FrameOf(epoch, before) == []
    ensures Transparent(a, c, tree, epoch, before) <==>
            AnswersLocally(a, tree, EpochOf(epoch, before), Offerings(a, tree))
  {
    DeliveriesSay(a, c, tree);
    LocallyAsOnAFreshChannel(a, tree, epoch, before, Offerings(a, tree));
  }

  lemma {:induction false} AnswerToPrefix(a: Arrangement, tree: Presented, epoch: U32, k: nat)
    requires k < Wanted(a)
    ensures var events := Offerings(a, tree);
            AnswerAt(epoch, events, k).Answered?
            && Earns(Arrivals(a, tree)[..k], ArrivalAt(a, tree, k), AnswerAt(epoch, events, k).result)
  {
    AnswersFollowFrames(epoch, Offerings(a, tree), k);
    OpenFrame(a, tree, epoch, k);
  }

  lemma {:induction false} SilenceBeforeCommit(a: Arrangement, tree: Presented, epoch: U32, i: nat)
    requires Built(a) && DeclarationHeard(a) && i < Wanted(a) - 1
    requires forall k | 0 <= k < i :: a.placed[k].occupant != NO_NODE
    ensures AnswerAt(epoch, Offerings(a, tree), i) == Answered(Ok(Assembling))
  {
    AnswerToPrefix(a, tree, epoch, i);
    GoodPrefix(a, tree, i);
    GoodPrefix(a, tree, i + 1);
    var frame := Arrivals(a, tree)[..i];
    assert frame + [ArrivalAt(a, tree, i)] == Arrivals(a, tree)[..i + 1];
    WellBegunExtends(frame, ArrivalAt(a, tree, i));
  }

  /** An emitted frame ends itself. */
  lemma {:induction false} WholeFrame(a: Arrangement, tree: Presented, epoch: U32)
    ensures FrameOf(epoch, Offerings(a, tree)) == [] && EpochOf(epoch, Offerings(a, tree)) == epoch
  {
    var events, last := Offerings(a, tree), Wanted(a) - 1;
    OpenFrame(a, tree, epoch, last);
    assert events[..|events| - 1] == events[..last] && events[last].offer.closes;
  }

  lemma {:induction false} FreshAfterwards(a: Arrangement, tree: Presented, epoch: U32)
    ensures After(epoch, Offerings(a, tree)) == Opening(epoch)
  {
    WholeFrame(a, tree, epoch);
    assert Offerings(a, tree)[Wanted(a) - 1].offer.closes;
    ClosingStartsOver(epoch, Offerings(a, tree));
  }

  lemma {:induction false} AnswerToCommit(a: Arrangement, tree: Presented, epoch: U32)
    requires Built(a) && DeclarationHeard(a)
    requires forall k | 0 <= k < |a.placed| :: a.placed[k].occupant != NO_NODE
    ensures AnswerAt(epoch, Offerings(a, tree), Wanted(a) - 1) == Answered(LocalAnswer(HeardDeclaration(a), tree))
    ensures After(epoch, Offerings(a, tree)) == Opening(epoch)
  {
    var last := Wanted(a) - 1;
    FreshAfterwards(a, tree, epoch);
    AnswerToPrefix(a, tree, epoch, last);
    GoodPrefix(a, tree, last);
    assert a.placed[..last - 1] == a.placed;
    assert HeardDeclaration(a).(placed := a.placed) == HeardDeclaration(a);
  }

  /** Wire transparency: a declaration the wire can carry, under any legal
      carriage and against any tree, offered after any history that left no frame
      open, is answered by the receiver exactly as it would have been answered
      locally. */
  lemma {:induction false} EmittedFrameIsTransparent(
    a: Arrangement, c: Carriage, tree: Presented, epoch: U32, before: seq<Event>)
    requires Built(a) && FlagsLegal(c.flags) && FitsArena(a, c) && WireFit(a)
    requires FrameOf(epoch, before) == []
    ensures Transparent(a, c, tree, epoch, before)
  {
    var since := EpochOf(epoch, before);
    forall i | 0 <= i < Wanted(a) - 1 ensures AnswerAt(since, Offerings(a, tree), i) == Answered(Ok(Assembling)) {
      SilenceBeforeCommit(a, tree, since, i);
    }
    AnswerToCommit(a, tree, since);
    AsOnAFreshChannel(a, c, tree, epoch, before);
  }

  /** One frame as it was sent: what, how, and the tree it meets. */
  datatype Sent = Sent(a: Arrangement, c: Carriage, tree: Presented)

  predicate Sendable(s: Sent) { Built(s.a) && FlagsLegal(s.c.flags) && FitsArena(s.a, s.c) && WireFit(s.a) }

  /** What one frame is, entry by entry, to the receiver. */
  function FrameEvents(s: Sent): (events: seq<Event>)
    requires Sendable(s)
  {
    EventsOf(Deliveries(s.a, s.c, s.tree))
  }

  predicate AllSendable(sent: seq<Sent>) { forall i | 0 <= i < |sent| :: Sendable(sent[i]) }

  /** Frames sent one after another on one channel. */
  function OnChannel(sent: seq<Sent>): seq<Event>
    requires AllSendable(sent)
  {
    if sent == [] then [] else OnChannel(sent[..|sent| - 1]) + FrameEvents(sent[|sent| - 1])
  }

  lemma {:induction false} NoneLeftOpen(epoch: U32, sent: seq<Sent>)
    requires AllSendable(sent)
    ensures FrameOf(epoch, OnChannel(sent)) == [] && EpochOf(epoch, OnChannel(sent)) == epoch
    decreases |sent|
  {
    if sent != [] {
      var n := |sent| - 1;
      NoneLeftOpen(epoch, sent[..n]);
      DeliveriesSay(sent[n].a, sent[n].c, sent[n].tree);
      FrameAfterHistory(epoch, OnChannel(sent[..n]), Offerings(sent[n].a, sent[n].tree));
      WholeFrame(sent[n].a, sent[n].tree, epoch);
    }
  }

  lemma {:induction false} ChannelBegins(sent: seq<Sent>, n: nat)
    requires n <= |sent| && AllSendable(sent)
    ensures OnChannel(sent[..n]) <= OnChannel(sent)
    decreases |sent|
  {
    if n < |sent| {
      ChannelBegins(sent[..|sent| - 1], n);
      assert sent[..|sent| - 1][..n] == sent[..n];
    } else {
      assert sent[..n] == sent;
    }
  }

  /** So for whole conversations: of any number of frames sent on one channel, each
      is answered in its place as its author's own `admit` would have answered it,
      whatever was admitted or refused before it. */
  lemma {:induction false} ChannelIsTransparent(sent: seq<Sent>, epoch: U32, n: nat)
    requires n < |sent| && AllSendable(sent)
    ensures Sendable(sent[n]) && Transparent(sent[n].a, sent[n].c, sent[n].tree, epoch, OnChannel(sent[..n]))
    ensures OnChannel(sent[..n]) + FrameEvents(sent[n]) <= OnChannel(sent)
  {
    NoneLeftOpen(epoch, sent[..n]);
    EmittedFrameIsTransparent(sent[n].a, sent[n].c, sent[n].tree, epoch, OnChannel(sent[..n]));
    assert sent[..n + 1][..n] == sent[..n];
    ChannelBegins(sent, n + 1);
  }

  lemma {:induction false} FirstAnswerIsRefusal(a: Arrangement, tree: Presented, epoch: U32)
    requires !DeclarationHeard(a)
    ensures AnswerAt(epoch, Offerings(a, tree), 0).Answered?
    ensures AnswerAt(epoch, Offerings(a, tree), 0).result.Err?
  {
    AnswerToPrefix(a, tree, epoch, 0);
    assert Arrivals(a, tree)[..0] == [] && WellBegun([]);
  }

  lemma {:induction false} NobodyIsRefused(a: Arrangement, tree: Presented, epoch: U32, i: nat)
    requires Built(a) && DeclarationHeard(a) && i < |a.placed| && a.placed[i].occupant == NO_NODE
    ensures AnswerAt(epoch, Offerings(a, tree), i + 1).Answered?
    ensures AnswerAt(epoch, Offerings(a, tree), i + 1).result.Err?
  {
    AnswerToPrefix(a, tree, epoch, i + 1);
    GoodPrefix(a, tree, i + 1);
  }

  lemma {:induction false} EmptyTreeTellsLanes(a: Arrangement, tree: Presented)
    requires |a.placed| <= PLACED_MAX && a.selection.lane == Some(NO_NODE)
    requires tree.census(a.canvas).says == Occupies(0) && !tree.laneOf(a.canvas, NO_NODE)
    ensures LocalAnswer(HeardDeclaration(a), tree) != LocalAnswer(a, tree)
  {
    var heard := HeardDeclaration(a);
    assert Declared(a.canvas, tree) == Ok([]);
    assert Admit(a, tree) == Err(NotALane(NO_NODE));
    MisplacedIsNoFloorHalf(a.placed, []);
    assert Admit(heard, tree).Err? && Admit(heard, tree) != Err(NotALane(NO_NODE));
  }

  /** Nothing less will do: whatever the wire cannot carry, some tree tells apart
      from the local verdict, after any such history. A canvas, an occupant or a
      lane that names nobody, or a lane that is the canvas. */
  lemma {:induction false} UnfitFrameIsTold(a: Arrangement, c: Carriage, epoch: U32, before: seq<Event>)
    returns (tree: Presented)
    requires Built(a) && FlagsLegal(c.flags) && FitsArena(a, c) && !WireFit(a)
    requires FrameOf(epoch, before) == []
    ensures !Transparent(a, c, tree, epoch, before)
  {
    tree := Presented(_ => Report(Occupies(0), seq(PLACED_MAX, _ => UNDECLARED)), (_, _) => false);
    var since := EpochOf(epoch, before);
    if !DeclarationHeard(a) {
      FirstAnswerIsRefusal(a, tree, since);
    } else if i :| 0 <= i < |a.placed| && a.placed[i].occupant == NO_NODE {
      NobodyIsRefused(a, tree, since, i);
    } else {
      AnswerToCommit(a, tree, since);
      EmptyTreeTellsLanes(a, tree);
    }
    AsOnAFreshChannel(a, c, tree, epoch, before);
  }

  /** The one unfit value that is not refused but heard as something else: a
      selection confined to the lane that names nobody arrives confined to no
      lane, so a frame its author's own `admit` refuses is admitted afar. */
  lemma {:induction false} LaneNobodyWidens(c: Carriage, epoch: U32) returns (a: Arrangement, tree: Presented)
    requires FlagsLegal(c.flags) && c.payloadOffset <= U32_MAX - 2 * PAYLOAD_BYTES
    ensures Built(a) && Wanted(a) == 3 && FitsArena(a, c)
    ensures Admit(a, tree) == Err(NotALane(NO_NODE))
    ensures var events := EventsOf(Deliveries(a, c, tree));
            AnswerAt(epoch, events, 2).Answered? && AnswerAt(epoch, events, 2).result.Ok?
  {
    a := Arrangement(7, 1, Selection(None, Some(NO_NODE)), [Placement(9, At(0))]);
    var census := seq(PLACED_MAX, _ => Occupant(9, Marker, NO_NODE));
    tree := Presented(_ => Report(Occupies(1), census), (_, _) => false);
    var held := census[..1];
    assert held == [Occupant(9, Marker, NO_NODE)];
    assert Declared(7, tree) == Ok(held);
    assert Judged(a.placed[0], held).None?;
    assert a.placed[0].occupant == held[0].node;
    assert Admit(HeardDeclaration(a), tree).Ok?;
    DeliveriesSay(a, c, tree);
    AnswerToCommit(a, tree, epoch);
  }
}
