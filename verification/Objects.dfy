/** Objects requests: five records, a registered buffer exactly where bytes move,
    and the entry that carries one. */
module Objects {
  import opened Wire

  const PAYLOAD_BYTES: nat := 40
  const FLAGS_ACCEPTED: bv8 := FIXED_BUF

  type Payload = p: seq<Byte> | |p| == PAYLOAD_BYTES witness Zeros(PAYLOAD_BYTES)
  type Hash = h: seq<Byte> | |h| == 32 witness Zeros(32)

  datatype Refusal = UnknownOpcode | UnknownFlag | Reserved | Malformed | NoBuffer

  datatype Entry =
    | Read(hash: Hash, bytes: U32)
    | Write(offset: U64, bytes: U32)
    | Pin(root: Hash)
    | Unpin(root: Hash)
    | Collect

  datatype Request = Request(
    userData: U64, cap: U32, class_: U16, deadline: U64, payloadOffset: U32,
    bufSet: U32, bufIndex: U32, flags: bv8, body: Entry)

  function Opcode(body: Entry): Byte {
    match body
    case Read(_, _) => 1
    case Write(_, _) => 2
    case Pin(_) => 3
    case Unpin(_) => 4
    case Collect => 5
  }

  /** Does this opcode move a client's bytes? `None` outside the space. */
  function MovesBytes(opcode: Byte): Option<bool> {
    if opcode == 1 || opcode == 2 then Some(true)
    else if 3 <= opcode <= 5 then Some(false)
    else None
  }

  function Widths(opcode: Byte): (widths: seq<nat>)
    ensures Sum(widths) <= PAYLOAD_BYTES
  {
    if opcode == 1 then SumOf(0, 0, 0, 0, 32, 4); [32, 4]
    else if opcode == 2 then SumOf(0, 0, 0, 0, 8, 4); [8, 4]
    else if opcode == 3 || opcode == 4 then SumOf(0, 0, 0, 0, 0, 32); [32]
    else []
  }

  function Fields(body: Entry): (fields: seq<seq<Byte>>)
    ensures Fits(fields, Widths(Opcode(body)))
  {
    match body
    case Read(hash, bytes) => [hash, ToLe(4, bytes)]
    case Write(offset, bytes) => [ToLe(8, offset), ToLe(4, bytes)]
    case Pin(root) => [root]
    case Unpin(root) => [root]
    case Collect => []
  }

  function EntryOf(opcode: Byte, fields: seq<seq<Byte>>): Entry
    requires MovesBytes(opcode).Some? && Fits(fields, Widths(opcode))
  {
    if opcode == 1 then Read(fields[0], U32At(fields[1]))
    else if opcode == 2 then Write(U64At(fields[0]), U32At(fields[1]))
    else if opcode == 3 then Pin(fields[0])
    else if opcode == 4 then Unpin(fields[0])
    else Collect
  }

  lemma {:induction false} EntryExactly(opcode: Byte, fields: seq<seq<Byte>>, body: Entry)
    requires MovesBytes(opcode).Some? && Fits(fields, Widths(opcode))
    ensures EntryOf(opcode, fields) == body <==> Opcode(body) == opcode && Fields(body) == fields
  {
    if Opcode(body) == opcode {
      match body
      case Read(hash, bytes) => U32Exact(bytes, fields[1]);
      case Write(offset, bytes) => U64Exact(offset, fields[0]); U32Exact(bytes, fields[1]);
      case Pin(root) =>
      case Unpin(root) =>
      case Collect =>
    }
  }

  // ---- the entry around a record -------------------------------------------

  function Envelope(r: Request): Sqe {
    Sqe(Opcode(r.body), r.flags, r.class_, r.cap, r.userData, r.deadline, r.payloadOffset,
        r.bufSet, r.bufIndex, PAYLOAD_BYTES, 0, 0, 0)
  }

  function PayloadOf(body: Entry): Payload {
    JoinLength(Fields(body), Widths(Opcode(body)));
    ToPayload(Fields(body), PAYLOAD_BYTES)
  }

  function Encode(r: Request): (Sqe, Payload) { (Envelope(r), PayloadOf(r.body)) }

  function EnvelopeRules(opcode: Byte, flags: bv8, bufSet: U32, bufIndex: U32): Option<Refusal> {
    if MovesBytes(opcode).None? then Some(UnknownOpcode)
    else if flags & !FLAGS_ACCEPTED != 0 then Some(UnknownFlag)
    else if MovesBytes(opcode).value then
      if flags & FIXED_BUF == 0 || bufSet == 0 then Some(NoBuffer) else None
    else if flags & FIXED_BUF != 0 || bufSet != 0 || bufIndex != 0 then Some(Reserved)
    else None
  }

  function Check(r: Request): Option<Refusal> {
    EnvelopeRules(Opcode(r.body), r.flags, r.bufSet, r.bufIndex)
  }

  function Decode(entry: Sqe, payload: Payload): Result<Request, Refusal> {
    var rules := EnvelopeRules(entry.opcode, entry.flags, entry.bufSet, entry.bufIndex);
    if rules.Some? then Err(rules.value)
    else if entry.len != PAYLOAD_BYTES then Err(Malformed)
    else if entry.offset > U32_MAX then Err(Malformed)
    else
      var widths := Widths(entry.opcode);
      var body := EntryOf(entry.opcode, Split(widths, payload));
      if !TailIsZero(payload, Sum(widths)) then Err(Reserved)
      else
        var r := Request(entry.userData, entry.cap, entry.class_, entry.deadline, entry.offset,
                         entry.bufSet, entry.bufIndex, entry.flags, body);
        if Envelope(r) != entry then Err(Reserved) else Ok(r)
  }

  /** The exact codec for objects requests. */
  lemma {:induction false} DecodeExactly(entry: Sqe, payload: Payload, r: Request)
    ensures Decode(entry, payload) == Ok(r) <==> Check(r).None? && Encode(r) == (entry, payload)
  {
    if MovesBytes(entry.opcode).Some? {
      var widths := Widths(entry.opcode);
      EntryExactly(entry.opcode, Split(widths, payload), r.body);
      if Opcode(r.body) == entry.opcode {
        PayloadExact(widths, Fields(r.body), payload);
      }
    }
  }

  // ---- the same from the raw bytes -----------------------------------------

  /** A record by the places of its bytes, and where they end. */
  function RawEntry(opcode: Byte, p: Payload): (Entry, nat)
    requires 1 <= opcode <= 5
  {
    if opcode == 1 then (Read(p[0..32], U32At(p[32..36])), 36)
    else if opcode == 2 then (Write(U64At(p[0..8]), U32At(p[8..12])), 12)
    else if opcode == 3 then (Pin(p[0..32]), 32)
    else if opcode == 4 then (Unpin(p[0..32]), 32)
    else (Collect, 0)
  }

  function RawDecode(entry: Sqe, p: Payload): Result<Request, Refusal> {
    if entry.opcode < 1 || entry.opcode > 5 then Err(UnknownOpcode)
    else if entry.flags != 0 && entry.flags != 4 then Err(UnknownFlag)
    else if entry.opcode <= 2 && (entry.flags == 0 || entry.bufSet == 0) then Err(NoBuffer)
    else if entry.opcode > 2 && (entry.flags != 0 || entry.bufSet != 0 || entry.bufIndex != 0) then Err(Reserved)
    else if entry.len != 40 || entry.offset > 0xFFFF_FFFF then Err(Malformed)
    else
      var (body, end) := RawEntry(entry.opcode, p);
      if !TailIsZero(p, end) || entry.reserved != 0 || entry.ext0 != 0 || entry.ext1 != 0 then Err(Reserved)
      else Ok(Request(entry.userData, entry.cap, entry.class_, entry.deadline, entry.offset,
                      entry.bufSet, entry.bufIndex, entry.flags, body))
  }

  lemma {:induction false} EntryIsRaw(opcode: Byte, p: Payload)
    requires 1 <= opcode <= 5
    ensures (EntryOf(opcode, Split(Widths(opcode), p)), Sum(Widths(opcode))) == RawEntry(opcode, p)
  {
    SumOf(0, 0, 0, 0, 32, 4);
    SumOf(0, 0, 0, 0, 8, 4);
    SumOf(0, 0, 0, 0, 0, 32);
    if opcode <= 4 { FieldAt(Widths(opcode), p, 0); }
    if opcode <= 2 { FieldAt(Widths(opcode), p, 1); }
  }

  lemma {:induction false} TwoFlags(flags: bv8)
    ensures flags & !FLAGS_ACCEPTED != 0 <==> flags != 0 && flags != 4
    ensures flags & !FLAGS_ACCEPTED == 0 ==> (flags & FIXED_BUF == 0 <==> flags == 0)
  {
  }

  /** The decoder believes and refuses exactly as the bytes at their places say,
      refusal for refusal and in that order. */
  lemma {:induction false} DecodeIsRaw(entry: Sqe, p: Payload)
    ensures Decode(entry, p) == RawDecode(entry, p)
  {
    TwoFlags(entry.flags);
    if 1 <= entry.opcode <= 5 { EntryIsRaw(entry.opcode, p); }
  }

  /** The decoder with the reader's cursor in it. */
  method DecodeByCursor(entry: Sqe, payload: Payload) returns (r: Result<Request, Refusal>)
    ensures r == Decode(entry, payload)
  {
    var rules := EnvelopeRules(entry.opcode, entry.flags, entry.bufSet, entry.bufIndex);
    if rules.Some? { return Err(rules.value); }
    if entry.len != PAYLOAD_BYTES { return Err(Malformed); }
    if entry.offset > U32_MAX { return Err(Malformed); }
    var fields, clean := ReadFields(Widths(entry.opcode), payload);
    if !clean { return Err(Reserved); }
    var request := Request(entry.userData, entry.cap, entry.class_, entry.deadline, entry.offset,
                           entry.bufSet, entry.bufIndex, entry.flags, EntryOf(entry.opcode, fields));
    if Envelope(request) != entry { return Err(Reserved); }
    return Ok(request);
  }

  /** The encoder with the writer's cursor in it. */
  method EncodeByCursor(r: Request) returns (entry: Sqe, payload: Payload)
    ensures (entry, payload) == Encode(r)
  {
    entry := Envelope(r);
    JoinLength(Fields(r.body), Widths(Opcode(r.body)));
    payload := WriteFields(Fields(r.body), PAYLOAD_BYTES);
  }

  /** A believed request names a registered buffer exactly when its opcode moves
      bytes, and carries no other flag either way. */
  lemma {:induction false} BufferExactlyWhereBytesMove(entry: Sqe, payload: Payload)
    requires Decode(entry, payload).Ok?
    ensures var r := Decode(entry, payload).value;
            if r.body.Read? || r.body.Write? then r.flags == FIXED_BUF && r.bufSet != 0
            else r.flags == 0 && r.bufSet == 0 && r.bufIndex == 0
  {
    var r := Decode(entry, payload).value;
    DecodeExactly(entry, payload, r);
    OneFlag(r.flags);
  }

  lemma {:induction false} OneFlag(flags: bv8)
    requires flags & !FLAGS_ACCEPTED == 0
    ensures flags & FIXED_BUF == 0 ==> flags == 0
    ensures flags & FIXED_BUF != 0 ==> flags == FIXED_BUF
  {
  }
}
