/** The three participation records and the entry that carries one. */
module CanvasCodec {
  import opened Wire
  import opened Canvas

  const PAYLOAD_BYTES: nat := 40
  const FLAGS_ACCEPTED: bv8 := NO_CQE

  const DECLARE_CANVAS: Byte := 0x01
  const PLACE: Byte := 0x02
  const PARTICIPATE: Byte := 0x03

  const POINT := 0
  const STRETCH := 1

  type Payload = p: seq<Byte> | |p| == PAYLOAD_BYTES witness Zeros(PAYLOAD_BYTES)

  /** What an entry says, once believed. */
  datatype Entry =
    | Declare(canvas: U64, base: Base, selection: Selection)
    | Place(placement: Placement)
    | Participate

  /** Does this opcode close a frame? `None` for one this service does not know. */
  function Closes(opcode: Byte): Option<bool> {
    if opcode == DECLARE_CANVAS || opcode == PLACE then Some(false)
    else if opcode == PARTICIPATE then Some(true)
    else None
  }

  function Opcode(body: Entry): Byte {
    match body
    case Declare(_, _, _) => DECLARE_CANVAS
    case Place(_) => PLACE
    case Participate => PARTICIPATE
  }

  /** The widths of an opcode's fields, in the order they are written. */
  function Widths(opcode: Byte): (widths: seq<nat>)
    ensures Sum(widths) <= PAYLOAD_BYTES
  {
    if opcode == DECLARE_CANVAS then
      SumOf(8, 4, 1, 8, 8, 8);
      [8, 4, 1, 8, 8, 8]
    else if opcode == PLACE then
      SumOf(0, 0, 8, 1, 8, 8);
      [8, 1, 8, 8]
    else []
  }

  /** The shape and the two ticks a selection, or a span, is written as. */
  function SelectionShape(span: Option<Extent>): (Byte, I64, I64) {
    match span case None => (POINT, 0, 0) case Some(e) => (STRETCH, e.start, e.end)
  }

  function SpanShape(span: Span): (Byte, I64, I64) {
    match span case At(t) => (POINT, t, 0) case Between(e) => (STRETCH, e.start, e.end)
  }

  function LaneWord(lane: Option<U64>): U64 { if lane.Some? then lane.value else NO_NODE }

  /** The record's writer. */
  function Fields(body: Entry): (fields: seq<seq<Byte>>)
    ensures Fits(fields, Widths(Opcode(body)))
  {
    match body
    case Declare(canvas, base, selection) =>
      var stretch := SelectionShape(selection.span);
      [ToLe(8, canvas), ToLe(4, base), ToLe(1, stretch.0), ToLe(8, FromI64(stretch.1)), ToLe(8, FromI64(stretch.2)),
       ToLe(8, LaneWord(selection.lane))]
    case Place(placement) =>
      var stretch := SpanShape(placement.span);
      [ToLe(8, placement.occupant), ToLe(1, stretch.0), ToLe(8, FromI64(stretch.1)), ToLe(8, FromI64(stretch.2))]
    case Participate => []
  }

  /** The record's reader, after it has taken its fields: every judgement, in the
      order the original makes it. */
  function Judge(opcode: Byte, fields: seq<seq<Byte>>): Result<Entry, Escape>
    requires Closes(opcode).Some? && Fits(fields, Widths(opcode))
  {
    if opcode == DECLARE_CANVAS then
      JudgeDeclare(U64At(fields[0]), U32At(fields[1]), FromLe(fields[2]),
                   ToI64(U64At(fields[3])), ToI64(U64At(fields[4])), U64At(fields[5]))
    else if opcode == PLACE then
      JudgePlace(U64At(fields[0]), FromLe(fields[1]), ToI64(U64At(fields[2])), ToI64(U64At(fields[3])))
    else Ok(Participate)
  }

  function JudgeDeclare(canvas: U64, ticks: U32, shape: nat, start: I64, end: I64, lane: U64): Result<Entry, Escape> {
    if canvas == NO_NODE then Err(NoNode)
    else if lane == canvas then Err(NotALane(lane))
    else
      match NewBase(ticks)
      case Err(escape) => Err(escape)
      case Ok(base) =>
        var confined := if lane == NO_NODE then None else Some(lane);
        if shape == POINT then
          if start == 0 && end == 0 then Ok(Declare(canvas, base, Selection(None, confined))) else Err(Reserved)
        else if shape == STRETCH then
          match NewExtent(start, end)
          case Err(escape) => Err(escape)
          case Ok(extent) => Ok(Declare(canvas, base, Selection(Some(extent), confined)))
        else Err(Malformed)
  }

  function JudgePlace(occupant: U64, shape: nat, start: I64, end: I64): Result<Entry, Escape> {
    if occupant == NO_NODE then Err(NoNode)
    else if shape == POINT then
      if end == 0 then Ok(Place(Placement(occupant, At(start)))) else Err(Reserved)
    else if shape == STRETCH then
      match NewExtent(start, end)
      case Err(escape) => Err(escape)
      case Ok(extent) => Ok(Place(Placement(occupant, Between(extent))))
    else Err(Malformed)
  }

  /** The values the wire can carry without changing them. */
  predicate WellFormed(body: Entry) {
    match body
    case Declare(canvas, _, selection) =>
      canvas != NO_NODE && selection.lane != Some(NO_NODE) && selection.lane != Some(canvas)
    case Place(placement) => placement.occupant != NO_NODE
    case Participate => true
  }

  lemma {:induction false} JudgeExactly(opcode: Byte, fields: seq<seq<Byte>>, body: Entry)
    requires Closes(opcode).Some? && Fits(fields, Widths(opcode))
    ensures Judge(opcode, fields) == Ok(body) <==> Opcode(body) == opcode && WellFormed(body) && Fields(body) == fields
  {
    if Opcode(body) == opcode {
      match body
      case Declare(canvas, base, selection) => DeclareExactly(fields, body);
      case Place(placement) => PlaceExactly(fields, body);
      case Participate =>
    }
  }

  lemma {:induction false} DeclareFields(fields: seq<seq<Byte>>, body: Entry)
    requires body.Declare? && Fits(fields, Widths(DECLARE_CANVAS))
    ensures Fields(body) == fields <==>
            && U64At(fields[0]) == body.canvas && U32At(fields[1]) == body.base
            && (FromLe(fields[2]), ToI64(U64At(fields[3])), ToI64(U64At(fields[4])))
               == SelectionShape(body.selection.span)
            && U64At(fields[5]) == LaneWord(body.selection.lane)
  {
    U64Exact(body.canvas, fields[0]);
    U32Exact(body.base, fields[1]);
    StretchFields(SelectionShape(body.selection.span), fields[2], fields[3], fields[4]);
    U64Exact(LaneWord(body.selection.lane), fields[5]);
    SixAreEqual(Fields(body), fields);
  }

  /** The three fields a shape and its ticks are written as. */
  lemma {:induction false} StretchFields(stretch: (Byte, I64, I64), shape: seq<Byte>, start: seq<Byte>, end: seq<Byte>)
    requires |shape| == 1 && |start| == 8 && |end| == 8
    ensures (FromLe(shape), ToI64(U64At(start)), ToI64(U64At(end))) == stretch <==>
            ToLe(1, stretch.0) == shape && ToLe(8, FromI64(stretch.1)) == start && ToLe(8, FromI64(stretch.2)) == end
  {
    WordWidths();
    LeExact(1, stretch.0, shape);
    I64Exact(stretch.1, start);
    I64Exact(stretch.2, end);
  }

  lemma {:induction false} SixAreEqual(one: seq<seq<Byte>>, other: seq<seq<Byte>>)
    requires |one| == 6 && |other| == 6
    ensures one == other <==>
            && one[0] == other[0] && one[1] == other[1] && one[2] == other[2]
            && one[3] == other[3] && one[4] == other[4] && one[5] == other[5]
  {
  }

  lemma {:induction false} JudgeDeclareExactly(
    canvas: U64, ticks: U32, shape: nat, start: I64, end: I64, lane: U64, body: Entry)
    requires body.Declare?
    ensures JudgeDeclare(canvas, ticks, shape, start, end, lane) == Ok(body) <==>
            && WellFormed(body) && canvas == body.canvas && ticks == body.base
            && (shape, start, end) == SelectionShape(body.selection.span) && lane == LaneWord(body.selection.lane)
  {
  }

  lemma {:induction false} DeclareExactly(fields: seq<seq<Byte>>, body: Entry)
    requires body.Declare? && Fits(fields, Widths(DECLARE_CANVAS))
    ensures Judge(DECLARE_CANVAS, fields) == Ok(body) <==> WellFormed(body) && Fields(body) == fields
  {
    DeclareFields(fields, body);
    JudgeDeclareExactly(U64At(fields[0]), U32At(fields[1]), FromLe(fields[2]),
                        ToI64(U64At(fields[3])), ToI64(U64At(fields[4])), U64At(fields[5]), body);
  }

  lemma {:induction false} PlaceFields(fields: seq<seq<Byte>>, body: Entry)
    requires body.Place? && Fits(fields, Widths(PLACE))
    ensures Fields(body) == fields <==>
            && U64At(fields[0]) == body.placement.occupant
            && (FromLe(fields[1]), ToI64(U64At(fields[2])), ToI64(U64At(fields[3]))) == SpanShape(body.placement.span)
  {
    U64Exact(body.placement.occupant, fields[0]);
    StretchFields(SpanShape(body.placement.span), fields[1], fields[2], fields[3]);
  }

  lemma {:induction false} PlaceExactly(fields: seq<seq<Byte>>, body: Entry)
    requires body.Place? && Fits(fields, Widths(PLACE))
    ensures Judge(PLACE, fields) == Ok(body) <==> WellFormed(body) && Fields(body) == fields
  {
    PlaceFields(fields, body);
  }

  // ---- the entry around a record -------------------------------------------

  datatype Crossing = Crossing(userData: U64, class_: U16, payloadOffset: U32, flags: bv8, body: Entry)

  function Envelope(c: Crossing): Sqe {
    Sqe(Opcode(c.body), c.flags, c.class_, 0, c.userData, NO_DEADLINE, c.payloadOffset,
        0, 0, PAYLOAD_BYTES, 0, 0, 0)
  }

  function PayloadOf(body: Entry): Payload {
    JoinLength(Fields(body), Widths(Opcode(body)));
    ToPayload(Fields(body), PAYLOAD_BYTES)
  }

  function Encode(c: Crossing): (Sqe, Payload) { (Envelope(c), PayloadOf(c.body)) }

  function EnvelopeRules(opcode: Byte, flags: bv8): Option<Escape> {
    if Closes(opcode).None? then Some(UnknownOpcode)
    else if flags & !FLAGS_ACCEPTED != 0 then Some(UnknownFlag)
    else None
  }

  function ReadEntry(opcode: Byte, payload: Payload): Result<Entry, Escape>
    requires Closes(opcode).Some?
  {
    match Judge(opcode, Split(Widths(opcode), payload))
    case Err(escape) => Err(escape)
    case Ok(body) => if TailIsZero(payload, Sum(Widths(opcode))) then Ok(body) else Err(Reserved)
  }

  function Decode(entry: Sqe, payload: Payload): Result<Crossing, Escape> {
    if EnvelopeRules(entry.opcode, entry.flags).Some? then Err(EnvelopeRules(entry.opcode, entry.flags).value)
    else if entry.len != PAYLOAD_BYTES then Err(Malformed)
    else if entry.offset > U32_MAX then Err(Malformed)
    else
      match ReadEntry(entry.opcode, payload)
      case Err(escape) => Err(escape)
      case Ok(body) =>
        var crossing := Crossing(entry.userData, entry.class_, entry.offset, entry.flags, body);
        if Envelope(crossing) != entry then Err(Reserved) else Ok(crossing)
  }

  predicate FlagsLegal(flags: bv8) { flags & !FLAGS_ACCEPTED == 0 }

  /** A payload is read as a record exactly when that record writes it. */
  lemma {:induction false} ReadEntryExactly(opcode: Byte, payload: Payload, body: Entry)
    requires Closes(opcode).Some?
    ensures ReadEntry(opcode, payload) == Ok(body) <==>
            Opcode(body) == opcode && WellFormed(body) && PayloadOf(body) == payload
  {
    JudgeExactly(opcode, Split(Widths(opcode), payload), body);
    if Opcode(body) == opcode { PayloadExact(Widths(opcode), Fields(body), payload); }
  }

  /** The exact codec: a pair of entry and payload is believed as a value exactly
      when that value is one the wire can carry and encodes to those bytes. */
  lemma {:induction false} DecodeExactly(entry: Sqe, payload: Payload, c: Crossing)
    ensures Decode(entry, payload) == Ok(c) <==>
            WellFormed(c.body) && FlagsLegal(c.flags) && Encode(c) == (entry, payload)
  {
    if Closes(entry.opcode).Some? { ReadEntryExactly(entry.opcode, payload, c.body); }
  }

  // ---- the same from the raw bytes -----------------------------------------

  /** The envelope of a participation entry, as the format fixes it. */
  predicate Enclosed(entry: Sqe) {
    && entry.cap == 0 && entry.deadline == 0 && entry.bufSet == 0 && entry.bufIndex == 0
    && entry.reserved == 0 && entry.ext0 == 0 && entry.ext1 == 0
  }

  /** A stretch at two words, or a shape that is neither. */
  function RawSelection(shape: Byte, start: I64, end: I64): Result<Option<Extent>, Escape> {
    if shape == 0 then if start == 0 && end == 0 then Ok(None) else Err(Reserved)
    else if shape == 1 then if start < end then Ok(Some(Stretch(start, end))) else Err(NotAnExtent)
    else Err(Malformed)
  }

  function RawSpan(shape: Byte, start: I64, end: I64): Result<Span, Escape> {
    if shape == 0 then if end == 0 then Ok(At(start)) else Err(Reserved)
    else if shape == 1 then if start < end then Ok(Between(Stretch(start, end))) else Err(NotAnExtent)
    else Err(Malformed)
  }

  /** A declaration by the places of its bytes: the canvas at 0, the base at 8, a
      shape at 12 with its ticks at 13 and 21, the lane at 29, zero from 37. */
  function RawDeclare(p: Payload): Result<Entry, Escape> {
    var canvas, ticks, lane := U64At(p[0..8]), U32At(p[8..12]), U64At(p[29..37]);
    if canvas == 0 then Err(NoNode)
    else if lane == canvas then Err(NotALane(lane))
    else if ticks == 0 then Err(NotATimeBase)
    else
      match RawSelection(p[12], ToI64(U64At(p[13..21])), ToI64(U64At(p[21..29])))
      case Err(escape) => Err(escape)
      case Ok(span) =>
        if p[37..] != [0, 0, 0] then Err(Reserved)
        else Ok(Declare(canvas, ticks, Selection(span, if lane == 0 then None else Some(lane))))
  }

  /** A placement: the occupant at 0, a shape at 8 with its ticks at 9 and 17, zero
      from 25. */
  function RawPlace(p: Payload): Result<Entry, Escape> {
    var occupant := U64At(p[0..8]);
    if occupant == 0 then Err(NoNode)
    else
      match RawSpan(p[8], ToI64(U64At(p[9..17])), ToI64(U64At(p[17..25])))
      case Err(escape) => Err(escape)
      case Ok(span) =>
        if !TailIsZero(p, 25) then Err(Reserved) else Ok(Place(Placement(occupant, span)))
  }

  function RawDecode(entry: Sqe, p: Payload): Result<Crossing, Escape> {
    if entry.opcode < 1 || entry.opcode > 3 then Err(UnknownOpcode)
    else if entry.flags != 0 && entry.flags != 8 then Err(UnknownFlag)
    else if entry.len != 40 || entry.offset > 0xFFFF_FFFF then Err(Malformed)
    else
      var body := if entry.opcode == 1 then RawDeclare(p)
                  else if entry.opcode == 2 then RawPlace(p)
                  else if TailIsZero(p, 0) then Ok(Participate) else Err(Reserved);
      match body
      case Err(escape) => Err(escape)
      case Ok(said) =>
        if !Enclosed(entry) then Err(Reserved)
        else Ok(Crossing(entry.userData, entry.class_, entry.offset, entry.flags, said))
  }

  lemma {:induction false} DeclareSlices(p: Payload)
    ensures var f := Split(Widths(1), p);
            && f[0] == p[0..8] && f[1] == p[8..12] && f[2] == p[12..13]
            && f[3] == p[13..21] && f[4] == p[21..29] && f[5] == p[29..37]
    ensures Sum(Widths(1)) == 37
  {
    var w: seq<nat> := [8, 4, 1, 8, 8, 8];
    assert Widths(1) == w;
    SumOf(8, 4, 1, 8, 8, 8);
    FieldAt(w, p, 0);
    FieldAt(w, p, 1);
    FieldAt(w, p, 2);
    FieldAt(w, p, 3);
    FieldAt(w, p, 4);
    FieldAt(w, p, 5);
  }

  lemma {:induction false} PlaceSlices(p: Payload)
    ensures var f := Split(Widths(2), p);
            f[0] == p[0..8] && f[1] == p[8..9] && f[2] == p[9..17] && f[3] == p[17..25]
    ensures Sum(Widths(2)) == 25
  {
    var w: seq<nat> := [8, 1, 8, 8];
    assert Widths(2) == w;
    SumOf(0, 0, 8, 1, 8, 8);
    FieldAt(w, p, 0);
    FieldAt(w, p, 1);
    FieldAt(w, p, 2);
    FieldAt(w, p, 3);
  }

  lemma {:induction false} DeclareIsRaw(p: Payload)
    ensures ReadEntry(1, p) == RawDeclare(p)
  {
    DeclareSlices(p);
    OneByte(p[12..13]);
    assert TailIsZero(p, 37) <==> p[37..] == [0, 0, 0];
  }

  lemma {:induction false} PlaceIsRaw(p: Payload)
    ensures ReadEntry(2, p) == RawPlace(p)
  {
    PlaceSlices(p);
    OneByte(p[8..9]);
  }

  lemma {:induction false} TwoFlags(flags: bv8)
    ensures flags & !FLAGS_ACCEPTED != 0 <==> flags != 0 && flags != 8
  {
  }

  /** The decoder believes and refuses exactly as the bytes at their places say,
      refusal for refusal and in that order. */
  lemma {:induction false} DecodeIsRaw(entry: Sqe, p: Payload)
    ensures Decode(entry, p) == RawDecode(entry, p)
  {
    TwoFlags(entry.flags);
    if entry.opcode == 1 {
      DeclareIsRaw(p);
    } else if entry.opcode == 2 {
      PlaceIsRaw(p);
    }
  }

  /** The decoder with the reader's cursor in it. */
  method DecodeByCursor(entry: Sqe, payload: Payload) returns (r: Result<Crossing, Escape>)
    ensures r == Decode(entry, payload)
  {
    var rules := EnvelopeRules(entry.opcode, entry.flags);
    if rules.Some? { return Err(rules.value); }
    if entry.len != PAYLOAD_BYTES { return Err(Malformed); }
    if entry.offset > U32_MAX { return Err(Malformed); }
    var fields, clean := ReadFields(Widths(entry.opcode), payload);
    var body := Judge(entry.opcode, fields);
    if body.Err? { return Err(body.error); }
    if !clean { return Err(Reserved); }
    var crossing := Crossing(entry.userData, entry.class_, entry.offset, entry.flags, body.value);
    if Envelope(crossing) != entry { return Err(Reserved); }
    return Ok(crossing);
  }

  /** The encoder with the writer's cursor in it. */
  method EncodeByCursor(c: Crossing) returns (entry: Sqe, payload: Payload)
    ensures (entry, payload) == Encode(c)
  {
    entry := Envelope(c);
    JoinLength(Fields(c.body), Widths(Opcode(c.body)));
    payload := WriteFields(Fields(c.body), PAYLOAD_BYTES);
  }
}
