/** The vocabulary every entry format of the crate shares: machine words, the
    submission entry, little-endian fields, and the payload slot that a record
    fills with its fields and pads with zero. */
module Wire {

  datatype Option<+T> = None | Some(value: T)
  datatype Result<+T, +E> = Ok(value: T) | Err(error: E)

  const U32_MAX := 0xFFFF_FFFF
  const U64_MAX := 0xFFFF_FFFF_FFFF_FFFF
  const U64_END := 0x1_0000_0000_0000_0000

  type Byte = x: int | 0 <= x < 0x100
  type U16 = x: int | 0 <= x < 0x1_0000
  type U32 = x: int | 0 <= x <= U32_MAX
  type U64 = x: int | 0 <= x <= U64_MAX
  type I16 = x: int | -0x8000 <= x < 0x8000
  type I32 = x: int | -0x8000_0000 <= x < 0x8000_0000
  type I64 = x: int | -0x8000_0000_0000_0000 <= x < 0x8000_0000_0000_0000

  /** The two submission flags these formats read. */
  const FIXED_BUF: bv8 := 4
  const NO_CQE: bv8 := 8

  const NO_DEADLINE: U64 := 0

  /** A submission entry. The original carries no padding, so its comparison of
      sixty-four bytes is equality of every field here. */
  datatype Sqe = Sqe(
    opcode: Byte, flags: bv8, class_: U16, cap: U32, userData: U64, deadline: U64, offset: U64,
    bufSet: U32, bufIndex: U32, len: U32, reserved: U32, ext0: U64, ext1: U64)

  // ---- words as bytes ------------------------------------------------------

  function Max(a: int, b: int): int { if a > b then a else b }
  function Min(a: int, b: int): int { if a < b then a else b }

  function Power256(width: nat): (p: nat)
    ensures p > 0
  {
    if width == 0 then 1 else 256 * Power256(width - 1)
  }

  /** `to_le_bytes` at any width. */
  function ToLe(width: nat, value: nat): (bytes: seq<Byte>)
    ensures |bytes| == width
    decreases width, value
  {
    if width == 0 then [] else [value % 256] + ToLe(width - 1, value / 256)
  }

  /** `from_le_bytes` at any width. */
  function FromLe(bytes: seq<Byte>): (value: nat)
    ensures value < Power256(|bytes|)
  {
    if bytes == [] then 0 else bytes[0] + 256 * FromLe(bytes[1..])
  }

  lemma {:induction false} LeReadsBack(width: nat, value: nat)
    requires value < Power256(width)
    ensures FromLe(ToLe(width, value)) == value
    decreases width
  {
    if width > 0 {
      LeReadsBack(width - 1, value / 256);
      assert ToLe(width, value)[1..] == ToLe(width - 1, value / 256);
    }
  }

  lemma {:induction false} LeWritesBack(bytes: seq<Byte>)
    ensures ToLe(|bytes|, FromLe(bytes)) == bytes
    decreases |bytes|
  {
    if bytes != [] {
      LeWritesBack(bytes[1..]);
      var low: int, rest: int := bytes[0], FromLe(bytes[1..]);
      assert (low + 256 * rest) % 256 == low && (low + 256 * rest) / 256 == rest;
      assert bytes == [bytes[0]] + bytes[1..];
    }
  }

  /** One little-endian field: the bytes and the value determine each other. */
  lemma {:induction false} LeExact(width: nat, value: nat, bytes: seq<Byte>)
    requires |bytes| == width
    ensures FromLe(bytes) == value <==> value < Power256(width) && ToLe(width, value) == bytes
  {
    LeWritesBack(bytes);
    if value < Power256(width) {
      LeReadsBack(width, value);
    }
  }

  /** The order of the bytes: each byte further on weighs 256 times as much. */
  lemma {:induction false} LastByteWeighsMost(bytes: seq<Byte>, last: Byte)
    ensures FromLe(bytes + [last]) == FromLe(bytes) + Power256(|bytes|) * last
    decreases |bytes|
  {
    if bytes == [] {
      assert bytes + [last] == [last] && [last][1..] == [];
    } else {
      LastByteWeighsMost(bytes[1..], last);
      assert (bytes + [last])[1..] == bytes[1..] + [last];
      Scaled(Power256(|bytes| - 1), last);
    }
  }

  lemma {:induction false} Scaled(p: nat, b: nat)
    ensures 256 * (p * b) == (256 * p) * b
  {
  }

  lemma {:induction false} WordWidths()
    ensures Power256(1) == 0x100 && Power256(2) == 0x1_0000
    ensures Power256(4) == U32_MAX + 1 && Power256(8) == U64_END
  {
  }

  // Two's complement, as the wire carries a signed word.

  function FromI64(value: I64): (word: U64) { if value < 0 then value + U64_END else value }
  function ToI64(word: U64): (value: I64)
    ensures FromI64(value) == word
  {
    if word >= 0x8000_0000_0000_0000 then word - U64_END else word
  }

  function FromI32(value: I32): (word: U32) { if value < 0 then value + U32_MAX + 1 else value }
  function ToI32(word: U32): (value: I32)
    ensures FromI32(value) == word
  {
    if word >= 0x8000_0000 then word - U32_MAX - 1 else word
  }

  function FromI16(value: I16): (word: U16) { if value < 0 then value + 0x1_0000 else value }
  function ToI16(word: U16): (value: I16)
    ensures FromI16(value) == word
  {
    if word >= 0x8000 then word - 0x1_0000 else word
  }

  // Typed fields.

  function U16At(field: seq<Byte>): U16 requires |field| == 2 { WordWidths(); FromLe(field) }
  function U32At(field: seq<Byte>): U32 requires |field| == 4 { WordWidths(); FromLe(field) }
  function U64At(field: seq<Byte>): U64 requires |field| == 8 { WordWidths(); FromLe(field) }

  lemma {:induction false} U16Exact(value: U16, field: seq<Byte>)
    requires |field| == 2
    ensures U16At(field) == value <==> ToLe(2, value) == field
  {
    WordWidths();
    LeExact(2, value, field);
  }

  lemma {:induction false} U32Exact(value: U32, field: seq<Byte>)
    requires |field| == 4
    ensures U32At(field) == value <==> ToLe(4, value) == field
  {
    WordWidths();
    LeExact(4, value, field);
  }

  lemma {:induction false} U64Exact(value: U64, field: seq<Byte>)
    requires |field| == 8
    ensures U64At(field) == value <==> ToLe(8, value) == field
  {
    WordWidths();
    LeExact(8, value, field);
  }

  lemma {:induction false} I16Exact(value: I16, field: seq<Byte>)
    requires |field| == 2
    ensures ToI16(U16At(field)) == value <==> ToLe(2, FromI16(value)) == field
  {
    U16Exact(FromI16(value), field);
  }

  lemma {:induction false} I32Exact(value: I32, field: seq<Byte>)
    requires |field| == 4
    ensures ToI32(U32At(field)) == value <==> ToLe(4, FromI32(value)) == field
  {
    U32Exact(FromI32(value), field);
  }

  lemma {:induction false} I64Exact(value: I64, field: seq<Byte>)
    requires |field| == 8
    ensures ToI64(U64At(field)) == value <==> ToLe(8, FromI64(value)) == field
  {
    U64Exact(FromI64(value), field);
  }

  // ---- a record as its fields ----------------------------------------------

  function Sum(widths: seq<nat>): nat {
    if widths == [] then 0 else widths[0] + Sum(widths[1..])
  }

  lemma {:induction false} SumOf(a: nat, b: nat, c: nat, d: nat, e: nat, f: nat)
    ensures Sum([f]) == f && Sum([e, f]) == e + f && Sum([d, e, f]) == d + e + f
    ensures Sum([c, d, e, f]) == c + d + e + f && Sum([b, c, d, e, f]) == b + c + d + e + f
    ensures Sum([a, b, c, d, e, f]) == a + b + c + d + e + f
  {
    assert [f][1..] == [] && [e, f][1..] == [f] && [d, e, f][1..] == [e, f];
    assert [c, d, e, f][1..] == [d, e, f] && [b, c, d, e, f][1..] == [c, d, e, f];
    assert [a, b, c, d, e, f][1..] == [b, c, d, e, f];
  }

  function Join(fields: seq<seq<Byte>>): seq<Byte> {
    if fields == [] then [] else fields[0] + Join(fields[1..])
  }

  /** The fields a reader takes off the front of a payload, in order. */
  function Split(widths: seq<nat>, payload: seq<Byte>): (fields: seq<seq<Byte>>)
    requires Sum(widths) <= |payload|
    ensures Fits(fields, widths)
    decreases |widths|
  {
    if widths == [] then []
    else [payload[..widths[0]]] + Split(widths[1..], payload[widths[0]..])
  }

  /** Each field has the width the record declares for it. */
  predicate Fits(fields: seq<seq<Byte>>, widths: seq<nat>) {
    |fields| == |widths| && forall i | 0 <= i < |fields| :: |fields[i]| == widths[i]
  }

  /** Every byte from `at` on is zero: the reader's `finish`. */
  predicate TailIsZero(payload: seq<Byte>, at: nat) {
    forall i | at <= i < |payload| :: payload[i] == 0
  }

  function Zeros(n: nat): seq<Byte> { seq(n, _ => 0) }

  /** A payload slot: the fields in order, then zero to the stride. */
  function ToPayload(fields: seq<seq<Byte>>, stride: nat): (payload: seq<Byte>)
    requires |Join(fields)| <= stride
    ensures |payload| == stride
  {
    Join(fields) + Zeros(stride - |Join(fields)|)
  }

  lemma {:induction false} JoinLength(fields: seq<seq<Byte>>, widths: seq<nat>)
    requires Fits(fields, widths)
    ensures |Join(fields)| == Sum(widths)
    decreases |fields|
  {
    if fields != [] {
      JoinLength(fields[1..], widths[1..]);
    }
  }

  lemma {:induction false} JoinOfCons(field: seq<Byte>, rest: seq<seq<Byte>>)
    ensures Join([field] + rest) == field + Join(rest)
  {
    assert ([field] + rest)[1..] == rest;
  }

  lemma {:induction false} PrefixInTwo(bytes: seq<Byte>, a: nat, b: nat)
    requires a + b <= |bytes|
    ensures bytes[..a + b] == bytes[..a] + bytes[a..][..b]
  {
  }

  lemma {:induction false} ConcatInTwo(a: seq<Byte>, b: seq<Byte>, c: seq<Byte>)
    ensures (a + b + c)[..|a|] == a && (a + b + c)[|a|..] == b + c
  {
  }

  lemma {:induction false} JoinOfSplit(widths: seq<nat>, payload: seq<Byte>)
    requires Sum(widths) <= |payload|
    ensures Join(Split(widths, payload)) == payload[..Sum(widths)]
    decreases |widths|
  {
    if widths != [] {
      var rest := Split(widths[1..], payload[widths[0]..]);
      JoinOfSplit(widths[1..], payload[widths[0]..]);
      JoinOfCons(payload[..widths[0]], rest);
      PrefixInTwo(payload, widths[0], Sum(widths[1..]));
    }
  }

  lemma {:induction false} SplitOfJoin(widths: seq<nat>, fields: seq<seq<Byte>>, rest: seq<Byte>)
    requires Fits(fields, widths)
    ensures Sum(widths) <= |Join(fields) + rest|
    ensures Split(widths, Join(fields) + rest) == fields
    decreases |fields|
  {
    JoinLength(fields, widths);
    if fields != [] {
      SplitOfJoin(widths[1..], fields[1..], rest);
      ConcatInTwo(fields[0], Join(fields[1..]), rest);
      assert fields == [fields[0]] + fields[1..];
    }
  }

  /** Where field `i` begins. */
  function Offset(fields: seq<seq<Byte>>, i: nat): nat
    requires i <= |fields|
  {
    if i == 0 then 0 else Offset(fields, i - 1) + |fields[i - 1]|
  }

  lemma {:induction false} SliceOfSlice(bytes: seq<Byte>, a: nat, b: nat, c: nat, d: nat)
    requires a <= b <= |bytes| && c <= d <= b - a
    ensures bytes[a..b][c..d] == bytes[a + c..a + d]
  {
    var inner, outer := bytes[a..b][c..d], bytes[a + c..a + d];
    forall k | 0 <= k < d - c ensures inner[k] == outer[k] {
      assert inner[k] == bytes[a..b][c + k];
    }
  }

  /** What a suffix holds at its front, the whole holds there. */
  lemma {:induction false} FrontOfSuffix(bytes: seq<Byte>, at: nat, part: seq<Byte>, rest: seq<Byte>)
    requires at <= |bytes| && bytes[at..] == part + rest
    ensures at + |part| <= |bytes| && bytes[at..at + |part|] == part && bytes[at + |part|..] == rest
  {
    var tail := bytes[at..];
    assert tail[..|part|] == part && tail[|part|..] == rest;
    SliceOfSlice(bytes, at, |bytes|, 0, |part|);
    SliceOfSlice(bytes, at, |bytes|, |part|, |tail|);
    assert bytes[at..|bytes|] == tail;
  }

  lemma {:induction false} JoinFrom(fields: seq<seq<Byte>>, i: nat)
    requires i <= |fields|
    ensures Offset(fields, i) <= |Join(fields)| && Join(fields)[Offset(fields, i)..] == Join(fields[i..])
    decreases i
  {
    if i == 0 {
      assert fields[0..] == fields;
    } else {
      JoinFrom(fields, i - 1);
      var rest := fields[i - 1..];
      assert rest[0] == fields[i - 1] && rest[1..] == fields[i..];
      FrontOfSuffix(Join(fields), Offset(fields, i - 1), fields[i - 1], Join(fields[i..]));
    }
  }

  /** Each field is at its offset. */
  lemma {:induction false} FieldIn(fields: seq<seq<Byte>>, i: nat)
    requires i < |fields|
    ensures Offset(fields, i) + |fields[i]| <= |Join(fields)|
    ensures Join(fields)[Offset(fields, i)..Offset(fields, i) + |fields[i]|] == fields[i]
  {
    JoinFrom(fields, i);
    var rest := fields[i..];
    assert rest[0] == fields[i];
    FrontOfSuffix(Join(fields), Offset(fields, i), fields[i], Join(rest[1..]));
  }

  /** The shared codec law: a slot is a record's payload exactly when it splits
      into that record's fields and nothing follows them. */
  lemma {:induction false} PayloadExact(widths: seq<nat>, fields: seq<seq<Byte>>, payload: seq<Byte>)
    requires Fits(fields, widths)
    requires Sum(widths) <= |payload|
    ensures |Join(fields)| == Sum(widths)
    ensures ToPayload(fields, |payload|) == payload
       <==> Split(widths, payload) == fields && TailIsZero(payload, Sum(widths))
  {
    JoinLength(fields, widths);
    var n := Sum(widths);
    var built := ToPayload(fields, |payload|);
    if built == payload {
      SplitOfJoin(widths, fields, Zeros(|payload| - n));
      assert forall i | n <= i < |payload| :: payload[i] == built[i] == 0;
    }
    if Split(widths, payload) == fields && TailIsZero(payload, n) {
      JoinOfSplit(widths, payload);
      assert payload == payload[..n] + payload[n..];
      assert payload[n..] == Zeros(|payload| - n);
    }
  }

  // ---- the cursors ---------------------------------------------------------

  /** Fills a payload slot from the front, counting as it goes. */
  class Writer {
    const out: array<Byte>
    var at: nat

    ghost predicate Valid()
      reads this, out
    {
      at <= out.Length && TailIsZero(out[..], at)
    }

    constructor (out: array<Byte>)
      requires TailIsZero(out[..], 0)
      ensures this.out == out && at == 0 && Valid()
    {
      this.out := out;
      at := 0;
    }

    method Put(bytes: seq<Byte>)
      requires Valid() && at + |bytes| <= out.Length
      modifies this`at, out
      ensures Valid() && at == old(at) + |bytes|
      ensures out[..at] == old(out[..at]) + bytes
    {
      ghost var before := out[..];
      var i := 0;
      while i < |bytes|
        invariant 0 <= i <= |bytes| && at == old(at)
        invariant out[..] == before[..at] + bytes[..i] + before[at + i..]
      {
        out[at + i] := bytes[i];
        i := i + 1;
      }
      assert bytes[..i] == bytes;
      at := at + |bytes|;
    }
  }

  /** Takes fields off a payload slot from the front, counting as it goes. */
  class Reader {
    const raw: seq<Byte>
    var at: nat

    constructor (raw: seq<Byte>)
      ensures this.raw == raw && at == 0
    {
      this.raw := raw;
      at := 0;
    }

    method Take(width: nat) returns (field: seq<Byte>)
      requires at + width <= |raw|
      modifies this`at
      ensures at == old(at) + width
      ensures field == raw[old(at)..at]
    {
      var word := new Byte[width](_ => 0);
      var i := 0;
      while i < width
        invariant 0 <= i <= width && at == old(at)
        invariant word[..i] == raw[at..at + i]
      {
        word[i] := raw[at + i];
        i := i + 1;
      }
      at := at + width;
      field := word[..];
    }

    /** Every byte the record did not read must be zero. */
    method Finish() returns (clean: bool)
      ensures clean <==> TailIsZero(raw, at)
    {
      var i := at;
      while i < |raw|
        invariant at <= i
        invariant forall k | at <= k < i && k < |raw| :: raw[k] == 0
      {
        if raw[i] != 0 { return false; }
        i := i + 1;
      }
      return true;
    }
  }

  lemma {:induction false} SumAppend(widths: seq<nat>, i: nat)
    requires i < |widths|
    ensures Sum(widths[..i + 1]) == Sum(widths[..i]) + widths[i]
    ensures Sum(widths[..i + 1]) <= Sum(widths)
    decreases |widths|
  {
    if i == 0 {
      assert widths[..1] == [widths[0]] && widths[1..][..0] == [];
      assert widths[..0] == [];
      assert Sum(widths[..1]) == widths[0] + Sum(widths[..1][1..]);
    } else {
      SumAppend(widths[1..], i - 1);
      assert widths[..i + 1][1..] == widths[1..][..i];
      assert widths[..i][1..] == widths[1..][..i - 1];
    }
  }

  lemma {:induction false} JoinAppend(fields: seq<seq<Byte>>, field: seq<Byte>)
    ensures Join(fields + [field]) == Join(fields) + field
    decreases |fields|
  {
    if fields == [] {
      assert [field][1..] == [];
      assert [] + [field] == [field];
    } else {
      JoinAppend(fields[1..], field);
      assert (fields + [field])[1..] == fields[1..] + [field];
    }
  }

  lemma {:induction false} OffsetIsSum(fields: seq<seq<Byte>>, widths: seq<nat>, i: nat)
    requires Fits(fields, widths) && i <= |fields|
    ensures Offset(fields, i) == Sum(widths[..i])
    decreases i
  {
    if i == 0 {
      assert widths[..0] == [];
    } else {
      OffsetIsSum(fields, widths, i - 1);
      SumAppend(widths, i - 1);
    }
  }

  /** The field split off at `i` is the bytes between two sums of widths. */
  lemma {:induction false} SplitAt(widths: seq<nat>, payload: seq<Byte>, i: nat)
    requires Sum(widths) <= |payload| && i < |widths|
    ensures Sum(widths[..i]) <= Sum(widths[..i + 1]) <= |payload|
    ensures Split(widths, payload)[i] == payload[Sum(widths[..i])..Sum(widths[..i + 1])]
  {
    var fields := Split(widths, payload);
    SumAppend(widths, i);
    OffsetIsSum(fields, widths, i);
    JoinOfSplit(widths, payload);
    FieldIn(fields, i);
    assert payload[0..Sum(widths)] == Join(fields);
    SliceOfSlice(payload, 0, Sum(widths), Sum(widths[..i]), Sum(widths[..i + 1]));
  }

  /** Where field `i` begins, from the widths alone. */
  function Start(widths: seq<nat>, i: nat): nat
    requires i <= |widths|
  {
    if i == 0 then 0 else Start(widths, i - 1) + widths[i - 1]
  }

  lemma {:induction false} StartIsSum(widths: seq<nat>, i: nat)
    requires i <= |widths|
    ensures Start(widths, i) == Sum(widths[..i])
    decreases i
  {
    if i == 0 {
      assert widths[..0] == [];
    } else {
      StartIsSum(widths, i - 1);
      SumAppend(widths, i - 1);
    }
  }

  /** A field is the bytes at its place. */
  lemma {:induction false} FieldAt(widths: seq<nat>, payload: seq<Byte>, i: nat)
    requires Sum(widths) <= |payload| && i < |widths|
    ensures Start(widths, i) <= Start(widths, i + 1) <= |payload|
    ensures Split(widths, payload)[i] == payload[Start(widths, i)..Start(widths, i + 1)]
  {
    SplitAt(widths, payload, i);
    StartIsSum(widths, i);
    StartIsSum(widths, i + 1);
  }

  lemma {:induction false} OneByte(field: seq<Byte>)
    requires |field| == 1
    ensures FromLe(field) == field[0]
  {
    assert field[1..] == [];
  }

  /** `Record::to_payload`: a record's fields, put one after another. */
  method WriteFields(fields: seq<seq<Byte>>, stride: nat) returns (payload: seq<Byte>)
    requires |Join(fields)| <= stride
    ensures payload == ToPayload(fields, stride)
  {
    var out := new Byte[stride](_ => 0);
    var writer := new Writer(out);
    var i := 0;
    while i < |fields|
      invariant 0 <= i <= |fields|
      invariant writer.out == out && writer.Valid()
      invariant out[..writer.at] == Join(fields[..i])
    {
      JoinAppend(fields[..i], fields[i]);
      assert fields[..i + 1] == fields[..i] + [fields[i]];
      JoinPrefix(fields, i + 1);
      writer.Put(fields[i]);
      i := i + 1;
    }
    assert fields[..i] == fields;
    payload := out[..];
  }

  lemma {:induction false} JoinPrefix(fields: seq<seq<Byte>>, i: nat)
    requires i <= |fields|
    ensures |Join(fields[..i])| <= |Join(fields)|
    decreases |fields| - i
  {
    if i < |fields| {
      JoinPrefix(fields, i + 1);
      JoinAppend(fields[..i], fields[i]);
      assert fields[..i + 1] == fields[..i] + [fields[i]];
    } else {
      assert fields[..i] == fields;
    }
  }

  /** `Record::from_payload` before its fields are judged: take each field, then
      ask whether anything was left. */
  method ReadFields(widths: seq<nat>, payload: seq<Byte>)
    returns (fields: seq<seq<Byte>>, clean: bool)
    requires Sum(widths) <= |payload|
    ensures fields == Split(widths, payload)
    ensures clean <==> TailIsZero(payload, Sum(widths))
  {
    var reader := new Reader(payload);
    fields := [];
    var i := 0;
    assert widths[..0] == [];
    while i < |widths|
      invariant 0 <= i <= |widths|
      invariant reader.raw == payload && reader.at == Sum(widths[..i])
      invariant |fields| == i
      invariant forall k | 0 <= k < i :: fields[k] == Split(widths, payload)[k]
    {
      SplitAt(widths, payload, i);
      SumAppend(widths, i);
      var field := reader.Take(widths[i]);
      fields := fields + [field];
      i := i + 1;
    }
    assert widths[..i] == widths;
    clean := reader.Finish();
  }
}
