/** Input events: six records behind a stamp, and the entry that carries one. */
module Input {
  import opened Wire

  const PAYLOAD_BYTES: nat := 24
  const FLAGS_ACCEPTED: bv8 := NO_CQE
  const NOT_STAMPED: U64 := 0

  type Payload = p: seq<Byte> | |p| == PAYLOAD_BYTES witness Zeros(PAYLOAD_BYTES)

  datatype Refusal = UnknownOpcode | UnknownFlag | Reserved | Malformed | Value | NotStamped

  datatype Entry =
    | PointerMotion(x: I32, y: I32)
    | PointerButton(button: U32, transition: U16)
    | Scroll(dx: I32, dy: I32, source: U16)
    | Key(code: U32, transition: U16)
    | TouchPoint(contact: U32, x: I32, y: I32, phase: U16)
    | StylusPoint(x: I32, y: I32, pressure: U16, tiltX: I16, tiltY: I16)

  datatype Event = Event(userData: U64, class_: U16, payloadOffset: U32, flags: bv8, stamp: U64, body: Entry)

  predicate Known(opcode: Byte) { 1 <= opcode <= 6 }

  // The closed fields: pressed or released; down, move, up or cancel; wheel or
  // finger. Zero is none of them.
  predicate EdgeKnown(value: U16) { 1 <= value <= 2 }
  predicate TouchKnown(value: U16) { 1 <= value <= 4 }
  predicate SourceKnown(value: U16) { 1 <= value <= 2 }

  function Opcode(body: Entry): (opcode: Byte)
    ensures Known(opcode)
  {
    match body
    case PointerMotion(_, _) => 0x01
    case PointerButton(_, _) => 0x02
    case Scroll(_, _, _) => 0x03
    case Key(_, _) => 0x04
    case TouchPoint(_, _, _, _) => 0x05
    case StylusPoint(_, _, _, _, _) => 0x06
  }

  /** The stamp, then the record's own fields. */
  function Widths(opcode: Byte): (widths: seq<nat>)
    ensures Sum(widths) <= PAYLOAD_BYTES
  {
    if opcode == 0x01 then SumOf(0, 0, 0, 8, 4, 4); [8, 4, 4]
    else if opcode == 0x02 then SumOf(0, 0, 0, 8, 4, 2); [8, 4, 2]
    else if opcode == 0x03 then SumOf(0, 0, 8, 4, 4, 2); [8, 4, 4, 2]
    else if opcode == 0x04 then SumOf(0, 0, 0, 8, 4, 2); [8, 4, 2]
    else if opcode == 0x05 then SumOf(0, 8, 4, 4, 4, 2); [8, 4, 4, 4, 2]
    else if opcode == 0x06 then SumOf(8, 4, 4, 2, 2, 2); [8, 4, 4, 2, 2, 2]
    else []
  }

  function Fields(stamp: U64, body: Entry): (fields: seq<seq<Byte>>)
    ensures Fits(fields, Widths(Opcode(body)))
  {
    match body
    case PointerMotion(x, y) => [ToLe(8, stamp), ToLe(4, FromI32(x)), ToLe(4, FromI32(y))]
    case PointerButton(button, transition) => [ToLe(8, stamp), ToLe(4, button), ToLe(2, transition)]
    case Scroll(dx, dy, source) =>
      [ToLe(8, stamp), ToLe(4, FromI32(dx)), ToLe(4, FromI32(dy)), ToLe(2, source)]
    case Key(code, transition) => [ToLe(8, stamp), ToLe(4, code), ToLe(2, transition)]
    case TouchPoint(contact, x, y, phase) =>
      [ToLe(8, stamp), ToLe(4, contact), ToLe(4, FromI32(x)), ToLe(4, FromI32(y)), ToLe(2, phase)]
    case StylusPoint(x, y, pressure, tiltX, tiltY) =>
      [ToLe(8, stamp), ToLe(4, FromI32(x)), ToLe(4, FromI32(y)), ToLe(2, pressure),
       ToLe(2, FromI16(tiltX)), ToLe(2, FromI16(tiltY))]
  }

  /** The record's reader, past the stamp. */
  function Judge(opcode: Byte, fields: seq<seq<Byte>>): Result<Entry, Refusal>
    requires Known(opcode) && Fits(fields, Widths(opcode))
  {
    if opcode == 0x01 then Ok(PointerMotion(ToI32(U32At(fields[1])), ToI32(U32At(fields[2]))))
    else if opcode == 0x02 then
      var transition := U16At(fields[2]);
      if EdgeKnown(transition) then Ok(PointerButton(U32At(fields[1]), transition)) else Err(Value)
    else if opcode == 0x03 then
      var source := U16At(fields[3]);
      if SourceKnown(source) then Ok(Scroll(ToI32(U32At(fields[1])), ToI32(U32At(fields[2])), source))
      else Err(Value)
    else if opcode == 0x04 then
      var transition := U16At(fields[2]);
      if EdgeKnown(transition) then Ok(Key(U32At(fields[1]), transition)) else Err(Value)
    else if opcode == 0x05 then
      var phase := U16At(fields[4]);
      if TouchKnown(phase) then
        Ok(TouchPoint(U32At(fields[1]), ToI32(U32At(fields[2])), ToI32(U32At(fields[3])), phase))
      else Err(Value)
    else
      Ok(StylusPoint(ToI32(U32At(fields[1])), ToI32(U32At(fields[2])), U16At(fields[3]),
                     ToI16(U16At(fields[4])), ToI16(U16At(fields[5]))))
  }

  predicate WellFormed(body: Entry) {
    match body
    case PointerMotion(_, _) => true
    case PointerButton(_, transition) => EdgeKnown(transition)
    case Scroll(_, _, source) => SourceKnown(source)
    case Key(_, transition) => EdgeKnown(transition)
    case TouchPoint(_, _, _, phase) => TouchKnown(phase)
    case StylusPoint(_, _, _, _, _) => true
  }

  lemma {:induction false} JudgeExactly(opcode: Byte, fields: seq<seq<Byte>>, stamp: U64, body: Entry)
    requires Known(opcode) && Fits(fields, Widths(opcode))
    ensures U64At(fields[0]) == stamp && Judge(opcode, fields) == Ok(body) <==>
            Opcode(body) == opcode && WellFormed(body) && Fields(stamp, body) == fields
  {
    if Opcode(body) == opcode {
      if opcode <= 0x03 {
        PointingExactly(fields, stamp, body);
      } else if opcode <= 0x05 {
        TouchingExactly(fields, stamp, body);
      } else {
        StylusExactly(fields, stamp, body);
      }
    }
  }

  lemma {:induction false} PointingExactly(fields: seq<seq<Byte>>, stamp: U64, body: Entry)
    requires Opcode(body) <= 0x03 && Fits(fields, Widths(Opcode(body)))
    ensures U64At(fields[0]) == stamp && Judge(Opcode(body), fields) == Ok(body) <==>
            WellFormed(body) && Fields(stamp, body) == fields
  {
    U64Exact(stamp, fields[0]);
    match body
    case PointerMotion(x, y) => I32Exact(x, fields[1]); I32Exact(y, fields[2]);
    case PointerButton(button, transition) => U32Exact(button, fields[1]); U16Exact(transition, fields[2]);
    case Scroll(dx, dy, source) =>
      I32Exact(dx, fields[1]); I32Exact(dy, fields[2]); U16Exact(source, fields[3]);
  }

  lemma {:induction false} TouchingExactly(fields: seq<seq<Byte>>, stamp: U64, body: Entry)
    requires 0x04 <= Opcode(body) <= 0x05 && Fits(fields, Widths(Opcode(body)))
    ensures U64At(fields[0]) == stamp && Judge(Opcode(body), fields) == Ok(body) <==>
            WellFormed(body) && Fields(stamp, body) == fields
  {
    U64Exact(stamp, fields[0]);
    match body
    case Key(code, transition) => U32Exact(code, fields[1]); U16Exact(transition, fields[2]);
    case TouchPoint(contact, x, y, phase) =>
      U32Exact(contact, fields[1]); I32Exact(x, fields[2]); I32Exact(y, fields[3]); U16Exact(phase, fields[4]);
  }

  lemma {:induction false} StylusExactly(fields: seq<seq<Byte>>, stamp: U64, body: Entry)
    requires body.StylusPoint? && Fits(fields, Widths(0x06))
    ensures U64At(fields[0]) == stamp && Judge(0x06, fields) == Ok(body) <==> Fields(stamp, body) == fields
  {
    U64Exact(stamp, fields[0]);
    I32Exact(body.x, fields[1]);
    I32Exact(body.y, fields[2]);
    U16Exact(body.pressure, fields[3]);
    I16Exact(body.tiltX, fields[4]);
    I16Exact(body.tiltY, fields[5]);
  }

  // ---- the entry around a record -------------------------------------------

  function Envelope(event: Event): Sqe {
    Sqe(Opcode(event.body), event.flags, event.class_, 0, event.userData, NO_DEADLINE, event.payloadOffset,
        0, 0, PAYLOAD_BYTES, 0, 0, 0)
  }

  function PayloadOf(event: Event): Payload {
    JoinLength(Fields(event.stamp, event.body), Widths(Opcode(event.body)));
    ToPayload(Fields(event.stamp, event.body), PAYLOAD_BYTES)
  }

  function Encode(event: Event): (Sqe, Payload) { (Envelope(event), PayloadOf(event)) }

  function EnvelopeRules(opcode: Byte, flags: bv8, deadline: U64): Option<Refusal> {
    if !Known(opcode) then Some(UnknownOpcode)
    else if flags & !FLAGS_ACCEPTED != 0 then Some(UnknownFlag)
    else if deadline != NO_DEADLINE then Some(Reserved)
    else None
  }

  function Check(event: Event): Option<Refusal> {
    if EnvelopeRules(Opcode(event.body), event.flags, NO_DEADLINE).Some? then
      EnvelopeRules(Opcode(event.body), event.flags, NO_DEADLINE)
    else if event.stamp == NOT_STAMPED then Some(NotStamped)
    else None
  }

  /** The stamp and the body, before the envelope is compared. */
  function ReadEntry(opcode: Byte, payload: Payload): Result<(U64, Entry), Refusal>
    requires Known(opcode)
  {
    var fields := Split(Widths(opcode), payload);
    var stamp := U64At(fields[0]);
    if stamp == NOT_STAMPED then Err(NotStamped)
    else
      match Judge(opcode, fields)
      case Err(refusal) => Err(refusal)
      case Ok(body) => if TailIsZero(payload, Sum(Widths(opcode))) then Ok((stamp, body)) else Err(Reserved)
  }

  /** The event an entry carries, once its payload was read. */
  function Enveloped(entry: Sqe, read: Result<(U64, Entry), Refusal>): Result<Event, Refusal>
    requires entry.offset <= U32_MAX
  {
    match read
    case Err(refusal) => Err(refusal)
    case Ok((stamp, body)) =>
      var event := Event(entry.userData, entry.class_, entry.offset, entry.flags, stamp, body);
      if Envelope(event) != entry then Err(Reserved) else Ok(event)
  }

  function Decode(entry: Sqe, payload: Payload): Result<Event, Refusal> {
    var rules := EnvelopeRules(entry.opcode, entry.flags, entry.deadline);
    if rules.Some? then Err(rules.value)
    else if entry.len != PAYLOAD_BYTES then Err(Malformed)
    else if entry.offset > U32_MAX then Err(Malformed)
    else Enveloped(entry, ReadEntry(entry.opcode, payload))
  }

  /** The events a peer would believe. */
  predicate Legal(event: Event) { Check(event).None? && WellFormed(event.body) }

  /** A payload is read as a stamp and a record exactly when they write it. */
  lemma {:induction false} ReadEntryExactly(opcode: Byte, payload: Payload, event: Event)
    requires Known(opcode)
    ensures ReadEntry(opcode, payload) == Ok((event.stamp, event.body)) <==>
            && event.stamp != NOT_STAMPED && Opcode(event.body) == opcode && WellFormed(event.body)
            && PayloadOf(event) == payload
  {
    JudgeExactly(opcode, Split(Widths(opcode), payload), event.stamp, event.body);
    if Opcode(event.body) == opcode {
      PayloadExact(Widths(opcode), Fields(event.stamp, event.body), payload);
    }
  }

  lemma {:induction false} EnvelopedExactly(entry: Sqe, read: Result<(U64, Entry), Refusal>, event: Event)
    requires entry.offset <= U32_MAX
    ensures Enveloped(entry, read) == Ok(event) <==> read == Ok((event.stamp, event.body)) && Envelope(event) == entry
  {
  }

  /** An entry passes every rule on its envelope, given the event it would carry. */
  lemma {:induction false} EnvelopePasses(entry: Sqe, event: Event)
    requires Envelope(event) == entry
    ensures EnvelopeRules(entry.opcode, entry.flags, entry.deadline)
         == EnvelopeRules(Opcode(event.body), event.flags, NO_DEADLINE)
    ensures entry.len == PAYLOAD_BYTES && entry.offset <= U32_MAX && entry.opcode == Opcode(event.body)
  {
  }

  /** The exact codec for input events. */
  lemma {:induction false} DecodeExactly(entry: Sqe, payload: Payload, event: Event)
    ensures Decode(entry, payload) == Ok(event) <==> Legal(event) && Encode(event) == (entry, payload)
  {
    if Known(entry.opcode) && entry.offset <= U32_MAX {
      ReadEntryExactly(entry.opcode, payload, event);
      EnvelopedExactly(entry, ReadEntry(entry.opcode, payload), event);
    }
    if Envelope(event) == entry { EnvelopePasses(entry, event); }
  }

  // ---- the same from the raw bytes -----------------------------------------

  /** The envelope of an input entry, as the format fixes it. */
  predicate Enclosed(entry: Sqe) {
    && entry.cap == 0 && entry.bufSet == 0 && entry.bufIndex == 0
    && entry.reserved == 0 && entry.ext0 == 0 && entry.ext1 == 0
  }

  /** A record by the places of its bytes after the stamp's eight, where they end,
      and whether its closed field is one of its few values. */
  function RawEntry(opcode: Byte, p: Payload): (Entry, bool, nat)
    requires 1 <= opcode <= 6
  {
    if opcode == 1 then (PointerMotion(ToI32(U32At(p[8..12])), ToI32(U32At(p[12..16]))), true, 16)
    else if opcode == 2 then
      var edge := U16At(p[12..14]);
      (PointerButton(U32At(p[8..12]), edge), edge == 1 || edge == 2, 14)
    else if opcode == 3 then
      var source := U16At(p[16..18]);
      (Scroll(ToI32(U32At(p[8..12])), ToI32(U32At(p[12..16])), source), source == 1 || source == 2, 18)
    else if opcode == 4 then
      var edge := U16At(p[12..14]);
      (Key(U32At(p[8..12]), edge), edge == 1 || edge == 2, 14)
    else if opcode == 5 then
      var phase := U16At(p[20..22]);
      (TouchPoint(U32At(p[8..12]), ToI32(U32At(p[12..16])), ToI32(U32At(p[16..20])), phase),
       phase == 1 || phase == 2 || phase == 3 || phase == 4, 22)
    else
      (StylusPoint(ToI32(U32At(p[8..12])), ToI32(U32At(p[12..16])), U16At(p[16..18]),
                   ToI16(U16At(p[18..20])), ToI16(U16At(p[20..22]))), true, 22)
  }

  function RawDecode(entry: Sqe, p: Payload): Result<Event, Refusal> {
    if entry.opcode < 1 || entry.opcode > 6 then Err(UnknownOpcode)
    else if entry.flags != 0 && entry.flags != 8 then Err(UnknownFlag)
    else if entry.deadline != 0 then Err(Reserved)
    else if entry.len != 24 || entry.offset > 0xFFFF_FFFF then Err(Malformed)
    else
      var stamp, (body, closed, end) := U64At(p[0..8]), RawEntry(entry.opcode, p);
      if stamp == 0 then Err(NotStamped)
      else if !closed then Err(Value)
      else if !TailIsZero(p, end) || !Enclosed(entry) then Err(Reserved)
      else Ok(Event(entry.userData, entry.class_, entry.offset, entry.flags, stamp, body))
  }

  /** What `Judge` is handed and says, from the places of a record's bytes. */
  ghost predicate ReadsRaw(opcode: Byte, p: Payload)
    requires 1 <= opcode <= 6
  {
    var fields, (body, closed, end) := Split(Widths(opcode), p), RawEntry(opcode, p);
    && fields[0] == p[0..8] && Sum(Widths(opcode)) == end
    && Judge(opcode, fields) == if closed then Ok(body) else Err(Value)
  }

  lemma {:induction false} MotionIsRaw(p: Payload)
    ensures ReadsRaw(1, p)
  {
    var w: seq<nat> := [8, 4, 4];
    assert Widths(1) == w;
    SumOf(0, 0, 0, 8, 4, 4);
    FieldAt(w, p, 0);
    FieldAt(w, p, 1);
    FieldAt(w, p, 2);
  }

  lemma {:induction false} ButtonIsRaw(p: Payload)
    ensures ReadsRaw(2, p)
  {
    var w: seq<nat> := [8, 4, 2];
    assert Widths(2) == w;
    SumOf(0, 0, 0, 8, 4, 2);
    FieldAt(w, p, 0);
    FieldAt(w, p, 1);
    FieldAt(w, p, 2);
  }

  lemma {:induction false} ScrollIsRaw(p: Payload)
    ensures ReadsRaw(3, p)
  {
    var w: seq<nat> := [8, 4, 4, 2];
    assert Widths(3) == w;
    SumOf(0, 0, 8, 4, 4, 2);
    FieldAt(w, p, 0);
    FieldAt(w, p, 1);
    FieldAt(w, p, 2);
    FieldAt(w, p, 3);
  }

  lemma {:induction false} KeyIsRaw(p: Payload)
    ensures ReadsRaw(4, p)
  {
    var w: seq<nat> := [8, 4, 2];
    assert Widths(4) == w;
    SumOf(0, 0, 0, 8, 4, 2);
    FieldAt(w, p, 0);
    FieldAt(w, p, 1);
    FieldAt(w, p, 2);
  }

  lemma {:induction false} TouchIsRaw(p: Payload)
    ensures ReadsRaw(5, p)
  {
    var w: seq<nat> := [8, 4, 4, 4, 2];
    assert Widths(5) == w;
    SumOf(0, 8, 4, 4, 4, 2);
    FieldAt(w, p, 0);
    FieldAt(w, p, 1);
    FieldAt(w, p, 2);
    FieldAt(w, p, 3);
    FieldAt(w, p, 4);
  }

  lemma {:induction false} StylusIsRaw(p: Payload)
    ensures ReadsRaw(6, p)
  {
    var w: seq<nat> := [8, 4, 4, 2, 2, 2];
    assert Widths(6) == w;
    SumOf(8, 4, 4, 2, 2, 2);
    FieldAt(w, p, 0);
    FieldAt(w, p, 1);
    FieldAt(w, p, 2);
    FieldAt(w, p, 3);
    FieldAt(w, p, 4);
    FieldAt(w, p, 5);
  }

  lemma {:induction false} RecordsAreRaw(opcode: Byte, p: Payload)
    requires 1 <= opcode <= 6
    ensures ReadsRaw(opcode, p)
  {
    if opcode == 1 {
      MotionIsRaw(p);
    } else if opcode == 2 {
      ButtonIsRaw(p);
    } else if opcode == 3 {
      ScrollIsRaw(p);
    } else if opcode == 4 {
      KeyIsRaw(p);
    } else if opcode == 5 {
      TouchIsRaw(p);
    } else {
      StylusIsRaw(p);
    }
  }

  lemma {:induction false} ReadIsRaw(opcode: Byte, p: Payload)
    requires 1 <= opcode <= 6 && ReadsRaw(opcode, p)
    ensures ReadEntry(opcode, p) ==
            var stamp, (body, closed, end) := U64At(p[0..8]), RawEntry(opcode, p);
            if stamp == 0 then Err(NotStamped) else if !closed then Err(Value)
            else if !TailIsZero(p, end) then Err(Reserved) else Ok((stamp, body))
  {
  }

  lemma {:induction false} TwoFlags(flags: bv8)
    ensures flags & !FLAGS_ACCEPTED != 0 <==> flags != 0 && flags != 8
  {
  }

  /** The decoder believes and refuses exactly as the bytes at their places say,
      refusal for refusal and in that order. */
  lemma {:induction false} DecodeIsRaw(entry: Sqe, p: Payload)
    ensures Decode(entry, p) == RawDecode(entry, p)
  {
    TwoFlags(entry.flags);
    if 1 <= entry.opcode <= 6 {
      RecordsAreRaw(entry.opcode, p);
      ReadIsRaw(entry.opcode, p);
    }
  }

  /** The decoder with the reader's cursor in it. */
  method DecodeByCursor(entry: Sqe, payload: Payload) returns (r: Result<Event, Refusal>)
    ensures r == Decode(entry, payload)
  {
    var rules := EnvelopeRules(entry.opcode, entry.flags, entry.deadline);
    if rules.Some? { return Err(rules.value); }
    if entry.len != PAYLOAD_BYTES { return Err(Malformed); }
    if entry.offset > U32_MAX { return Err(Malformed); }
    var fields, clean := ReadFields(Widths(entry.opcode), payload);
    var stamp := U64At(fields[0]);
    if stamp == NOT_STAMPED { return Err(NotStamped); }
    var body := Judge(entry.opcode, fields);
    if body.Err? { return Err(body.error); }
    if !clean { return Err(Reserved); }
    var event := Event(entry.userData, entry.class_, entry.offset, entry.flags, stamp, body.value);
    if Envelope(event) != entry { return Err(Reserved); }
    return Ok(event);
  }

  /** The encoder with the writer's cursor in it. */
  method EncodeByCursor(event: Event) returns (entry: Sqe, payload: Payload)
    ensures (entry, payload) == Encode(event)
  {
    entry := Envelope(event);
    JoinLength(Fields(event.stamp, event.body), Widths(Opcode(event.body)));
    payload := WriteFields(Fields(event.stamp, event.body), PAYLOAD_BYTES);
  }
}
