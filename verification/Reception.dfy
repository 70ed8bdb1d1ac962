/** The receiver: bytes read by the codec, folded by the frame rules. */
module Reception {
  import opened Wire
  import opened Canvas
  import opened CanvasCodec
  import opened Frames

  lemma {:induction false} ClosingIsTheCommit(entry: Sqe, payload: Payload)
    ensures var r := Decode(entry, payload);
            r.Ok? ==> (Closes(entry.opcode) == Some(true) <==> r.value.body.Participate?)
  {
    if Decode(entry, payload).Ok? {
      DecodeExactly(entry, payload, Decode(entry, payload).value);
    }
  }

  /** What an entry's bytes say to the frame rules. */
  function Read(entry: Sqe, payload: Payload, tree: Presented): Arrival {
    ClosingIsTheCommit(entry, payload);
    var said := match Decode(entry, payload)
                case Ok(crossing) => Ok(crossing.body)
                case Err(escape) => Err(escape);
    Reading(said, Closes(entry.opcode) == Some(true), tree)
  }

  /** The receiver's object. */
  class Receiver {
    var epoch: U32
    var at: U32
    var building: Option<Arrangement>
    var poison: Option<Fault>

    ghost function Abstract(): State
      reads this
    {
      State(epoch, at, building, poison)
    }

    constructor (epoch: U32)
      ensures Abstract() == Opening(epoch)
    {
      this.epoch := epoch;
      at, building, poison := 0, None, None;
    }

    method Clear()
      modifies this
      ensures Abstract() == Opening(old(epoch))
    {
      at := 0;
      building := None;
      poison := None;
    }

    method Follow(newEpoch: U32) returns (moved: bool)
      modifies this
      ensures (Abstract(), moved) == FollowEpoch(old(Abstract()), newEpoch)
    {
      if newEpoch == epoch { return false; }
      epoch, at, building, poison := newEpoch, 0, None, None;
      return true;
    }

    method FoldIn(entry: Sqe, payload: Payload, tree: Presented) returns (r: Result<Progress, Escape>)
      modifies this`building
      ensures (building, r) == Fold(old(building), Read(entry, payload, tree))
    {
      var crossing := DecodeByCursor(entry, payload);
      if crossing.Err? { return Err(crossing.error); }
      match crossing.value.body
      case Declare(canvas, base, selection) =>
        if building.Some? { return Err(Redeclared(building.value.canvas)); }
        building := Some(Declaring(canvas, base, selection));
        return Ok(Assembling);
      case Place(placement) =>
        if building.None? { return Err(NotDeclared); }
        var more := ScanAndPlace(building.value, placement);
        if more.Err? { return Err(more.error); }
        building := Some(more.value);
        return Ok(Assembling);
      case Participate =>
        if building.None? { return Err(NotDeclared); }
        var admitted := AdmitByScan(building.value, tree);
        if admitted.Err? { return Err(admitted.error); }
        return Ok(Participating(admitted.value));
    }

    method Offered(entry: Sqe, payload: Payload, tree: Presented) returns (r: Result<Progress, Fault>)
      modifies this
      ensures (Abstract(), r) == Accept(old(Abstract()), Read(entry, payload, tree))
    {
      var closes := Closes(entry.opcode) == Some(true);
      if poison.Some? {
        r := Err(poison.value);
        if closes { Clear(); }
        return;
      }
      var position := at;
      at := if at == U32_MAX then at else at + 1;
      var progress := FoldIn(entry, payload, tree);
      if progress.Ok? {
        if closes { Clear(); }
        return Ok(progress.value);
      }
      var fault := Fault(progress.error, position);
      if closes { Clear(); } else { poison := Some(fault); }
      return Err(fault);
    }
  }

  /** One thing that happens to a channel. */
  datatype Delivery = Submitted(entry: Sqe, payload: Payload, tree: Presented) | Restarted(epoch: U32)

  function EventOf(d: Delivery): Event {
    match d
    case Submitted(entry, payload, tree) => Offering(Read(entry, payload, tree))
    case Restarted(epoch) => EpochIs(epoch)
  }

  function EventsOf(ds: seq<Delivery>): (events: seq<Event>) {
    seq(|ds|, i requires 0 <= i < |ds| => EventOf(ds[i]))
  }

  method Deliver(receiver: Receiver, d: Delivery) returns (answer: Answer)
    modifies receiver
    ensures (receiver.Abstract(), answer) == Step(old(receiver.Abstract()), EventOf(d))
  {
    match d
    case Submitted(entry, payload, tree) =>
      var r := receiver.Offered(entry, payload, tree);
      answer := Answered(r);
    case Restarted(e) =>
      var moved := receiver.Follow(e);
      answer := Followed(moved);
  }

  /** The receiver's object answers any sequence of deliveries as the frame rules
      answer what those deliveries say. */
  method Drive(epoch: U32, ds: seq<Delivery>) returns (answers: seq<Answer>)
    ensures |answers| == |ds|
    ensures forall i | 0 <= i < |ds| :: answers[i] == AnswerAt(epoch, EventsOf(ds), i)
  {
    var receiver := new Receiver(epoch);
    ghost var events := EventsOf(ds);
    answers := [];
    for k := 0 to |ds|
      invariant receiver.Abstract() == After(epoch, events[..k])
      invariant |answers| == k
      invariant forall i | 0 <= i < k :: answers[i] == AnswerAt(epoch, events, i)
    {
      assert events[..k + 1][..k] == events[..k] && events[k] == EventOf(ds[k]);
      var answer := Deliver(receiver, ds[k]);
      answers := answers + [answer];
    }
  }
}
