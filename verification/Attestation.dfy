/** Everything that crossed, folded into one word at each end. */
module Attestation {
  import opened Wire
  import opened Bits
  import opened Input

  const BASIS: U64 := 0xCBF2_9CE4_8422_2325
  const PRIME: U64 := 0x0000_0100_0000_01B3
  const ATTEST: Byte := 0x80

  /** The multiplier's inverse modulo 2^64, which is what makes a step reversible. */
  const PRIME_INVERSE: U64 := 0xCE96_5057_AFF6_957B

  /** One byte into the fold. */
  function Mixed(word: U64, byte: Byte): U64 {
    (Xor(word, byte) * PRIME) % U64_END
  }

  function FoldBytes(word: U64, bytes: seq<Byte>): U64
    decreases |bytes|
  {
    if bytes == [] then word else FoldBytes(Mixed(word, bytes[0]), bytes[1..])
  }

  datatype Crossing = Crossing(word: U64, absorbed: U64)

  const EMPTY := Crossing(BASIS, 0)

  /** What one event contributes: its opcode and its payload, twenty-five bytes. */
  function BytesOf(event: Event): (bytes: seq<Byte>)
    ensures |bytes| == 1 + PAYLOAD_BYTES
  {
    [Opcode(event.body)] + PayloadOf(event)
  }

  function Absorbed(c: Crossing, event: Event): Crossing {
    Crossing(FoldBytes(c.word, BytesOf(event)), if c.absorbed == U64_MAX then U64_MAX else c.absorbed + 1)
  }

  /** The fold each end keeps. */
  class Folder {
    var word: U64
    var absorbed: U64

    ghost function Abstract(): Crossing
      reads this
    {
      Crossing(word, absorbed)
    }

    constructor ()
      ensures Abstract() == EMPTY
    {
      word, absorbed := BASIS, 0;
    }

    method Absorb(event: Event)
      modifies this
      ensures Abstract() == Absorbed(old(Abstract()), event)
    {
      ghost var all := BytesOf(event);
      word := Mixed(word, Opcode(event.body));
      var payload := PayloadOf(event);
      assert all[1..] == payload;
      var i := 0;
      while i < |payload|
        invariant 0 <= i <= |payload| && absorbed == old(absorbed)
        invariant FoldBytes(word, payload[i..]) == FoldBytes(old(word), all)
      {
        assert payload[i..][1..] == payload[i + 1..];
        word := Mixed(word, payload[i]);
        i := i + 1;
      }
      absorbed := if absorbed == U64_MAX then U64_MAX else absorbed + 1;
    }
  }

  function AbsorbedAll(events: seq<Event>): Crossing {
    if events == [] then EMPTY
    else Absorbed(AbsorbedAll(events[..|events| - 1]), events[|events| - 1])
  }

  function Parts(events: seq<Event>): (parts: seq<seq<Byte>>)
    ensures |parts| == |events|
  {
    seq(|events|, i requires 0 <= i < |events| => BytesOf(events[i]))
  }

  /** The byte stream a sequence of events is folded as. */
  function Stream(events: seq<Event>): seq<Byte> { Join(Parts(events)) }

  lemma {:induction false} FoldOfConcat(word: U64, one: seq<Byte>, other: seq<Byte>)
    ensures FoldBytes(word, one + other) == FoldBytes(FoldBytes(word, one), other)
    decreases |one|
  {
    if one == [] {
      assert one + other == other;
    } else {
      assert (one + other)[1..] == one[1..] + other;
      FoldOfConcat(Mixed(word, one[0]), one[1..], other);
    }
  }

  lemma {:induction false} StreamOneMore(events: seq<Event>)
    requires events != []
    ensures Stream(events) == Stream(events[..|events| - 1]) + BytesOf(events[|events| - 1])
  {
    var n := |events| - 1;
    assert Parts(events) == Parts(events[..n]) + [BytesOf(events[n])];
    JoinAppend(Parts(events[..n]), BytesOf(events[n]));
  }

  /** The running fold is one fold over the whole stream, and a count. */
  lemma {:induction false} FoldIsOverTheStream(events: seq<Event>)
    ensures AbsorbedAll(events).word == FoldBytes(BASIS, Stream(events))
    ensures AbsorbedAll(events).absorbed == if |events| < U64_MAX then |events| else U64_MAX
    ensures |Stream(events)| == 25 * |events|
    decreases |events|
  {
    if events != [] {
      var before := events[..|events| - 1];
      FoldIsOverTheStream(before);
      StreamOneMore(events);
      FoldOfConcat(BASIS, Stream(before), BytesOf(events[|events| - 1]));
    }
  }

  lemma {:induction false} MixedIs(word: U64, high: nat, low: Byte, byte: Byte, masked: nat, mixed: nat)
    requires word == 256 * high + low && masked == Xor(low, byte)
    requires mixed == (256 * high + masked) * PRIME % U64_END
    ensures Mixed(word, byte) == mixed
  {
    WordSizes();
    XorBelow(high, 256 * high, low, byte, 8);
  }

  lemma {:induction false} NumberOfByte(b0: bool, b1: bool, b2: bool, b3: bool, b4: bool, b5: bool, b6: bool, b7: bool)
    ensures Number([b0, b1, b2, b3, b4, b5, b6, b7]) ==
            (if b0 then 1 else 0) + (if b1 then 2 else 0) + (if b2 then 4 else 0) + (if b3 then 8 else 0)
            + (if b4 then 16 else 0) + (if b5 then 32 else 0) + (if b6 then 64 else 0) + (if b7 then 128 else 0)
  {
    NumberOfNibble(b0, b1, b2, b3, [b4, b5, b6, b7]);
    NumberOfNibble(b4, b5, b6, b7, []);
    assert [b0, b1, b2, b3] + [b4, b5, b6, b7] == [b0, b1, b2, b3, b4, b5, b6, b7];
    assert [b4, b5, b6, b7] + [] == [b4, b5, b6, b7];
  }

  lemma {:induction false} NumberOfNibble(b0: bool, b1: bool, b2: bool, b3: bool, rest: seq<bool>)
    ensures Number([b0, b1, b2, b3] + rest) ==
            (if b0 then 1 else 0) + (if b1 then 2 else 0) + (if b2 then 4 else 0) + (if b3 then 8 else 0)
            + 16 * Number(rest)
  {
    NumberCons(b0, [b1, b2, b3] + rest);
    NumberCons(b1, [b2, b3] + rest);
    NumberCons(b2, [b3] + rest);
    NumberCons(b3, rest);
    assert [b0] + ([b1, b2, b3] + rest) == [b0, b1, b2, b3] + rest;
    assert [b1] + ([b2, b3] + rest) == [b1, b2, b3] + rest;
    assert [b2] + ([b3] + rest) == [b2, b3] + rest;
  }

  lemma {:induction false} NumberCons(b: bool, rest: seq<bool>)
    ensures Number([b] + rest) == (if b then 1 else 0) + 2 * Number(rest)
  {
    assert ([b] + rest)[1..] == rest;
  }

  lemma {:induction false} MaskOfA(low: nat, a: nat)
    requires 2 * low == 74 && 2 * a == 194
    ensures Xor(low, a) == 0x44
  {
    var x := [true, false, true, false, false, true, false, false];
    var y := [true, false, false, false, false, true, true, false];
    XorIsBitwise(x, y);
    NumberOfByte(true, false, true, false, false, true, false, false);
    NumberOfByte(true, false, false, false, false, true, true, false);
    NumberOfByte(false, false, true, false, false, false, true, false);
    assert Differing(x, y) == [false, false, true, false, false, false, true, false];
  }

  /** The fold is the published one: its basis is what nothing folds to, and the
      one byte of "a" folds to the value given for it in draft-eastlake-fnv. */
  lemma {:induction false} FoldIsPublished(basis: U64, a: Byte)
    requires basis == BASIS && a == 'a' as int
    ensures FoldBytes(basis, []) == 0xcbf2_9ce4_8422_2325
    ensures FoldBytes(basis, [a]) == 0xaf63_dc4c_8601_ec8c
  {
    MixedOfA(basis, a, 0xcb_f29c_e484_2223, basis % 256);
    assert [a][1..] == [];
  }

  lemma {:induction false} MixedOfA(basis: U64, a: Byte, high: nat, low: Byte)
    requires basis == 256 * high + low && high == 0xcb_f29c_e484_2223 && 2 * low == 74 && 2 * a == 194
    ensures Mixed(basis, a) == 0xaf63_dc4c_8601_ec8c
  {
    MaskOfA(low, a);
    RemainderIs(0xcbf2_9ce4_8422_2344 * PRIME, U64_END, 0xcbf29ce5de, 0xaf63_dc4c_8601_ec8c);
    MixedIs(basis, high, low, a, 0x44, 0xaf63_dc4c_8601_ec8c);
  }

  // ---- a step loses nothing ------------------------------------------------

  lemma {:induction false} ProductIsReversible(x: nat)
    requires x < U64_END
    ensures ((x * PRIME) % U64_END * PRIME_INVERSE) % U64_END == x
  {
    var q := x * PRIME / U64_END;
    var r := (x * PRIME) % U64_END;
    assert x * PRIME == q * U64_END + r;
    assert PRIME * PRIME_INVERSE == 1 + 887285111055 * U64_END;
    var k := x * 887285111055 - q * PRIME_INVERSE;
    assert r * PRIME_INVERSE == x + k * U64_END;
    assert k >= 0;
    RemainderIs(r * PRIME_INVERSE, U64_END, k, x);
  }

  lemma {:induction false} XorIsAWord(word: U64, byte: Byte)
    ensures Xor(word, byte) < U64_END
  {
    WordSizes();
    XorFits(word, byte, 64);
  }

  /** With the byte held, a step is injective in the word; with the word held, it
      is injective in the byte. */
  lemma {:induction false} StepIsInjective(w1: U64, b1: Byte, w2: U64, b2: Byte)
    requires Mixed(w1, b1) == Mixed(w2, b2)
    ensures b1 == b2 ==> w1 == w2
    ensures w1 == w2 ==> b1 == b2
  {
    XorIsAWord(w1, b1);
    XorIsAWord(w2, b2);
    ProductIsReversible(Xor(w1, b1));
    ProductIsReversible(Xor(w2, b2));
    XorUndoes(w1, b1);
    XorUndoes(w2, b2);
    XorCommutes(w1, b1);
    XorCommutes(w2, b2);
    XorUndoes(b1, w1);
    XorUndoes(b2, w2);
  }

  /** Two folds that have come apart stay apart over the same bytes. */
  lemma {:induction false} DivergenceStands(w1: U64, w2: U64, bytes: seq<Byte>)
    requires w1 != w2
    ensures FoldBytes(w1, bytes) != FoldBytes(w2, bytes)
    decreases |bytes|
  {
    if bytes != [] {
      var m1, m2 := Mixed(w1, bytes[0]), Mixed(w2, bytes[0]);
      if m1 == m2 { StepIsInjective(w1, bytes[0], w2, bytes[0]); }
      DivergenceStands(m1, m2, bytes[1..]);
    }
  }

  /** The streams have one length and differ at `k` and nowhere else. */
  ghost predicate DifferOnlyAt(one: seq<Byte>, other: seq<Byte>, k: nat) {
    && |one| == |other| && k < |one| && one[k] != other[k]
    && forall i | 0 <= i < |one| && i != k :: one[i] == other[i]
  }

  /** One changed byte, anywhere in a stream of any length, always moves the word. */
  lemma {:induction false} OneByteMovesTheWord(word: U64, one: seq<Byte>, other: seq<Byte>, k: nat)
    requires DifferOnlyAt(one, other, k)
    ensures FoldBytes(word, one) != FoldBytes(word, other)
  {
    var head, tail := one[..k], one[k + 1..];
    assert other[..k] == head && other[k + 1..] == tail;
    assert one == head + ([one[k]] + tail) && other == head + ([other[k]] + tail);
    FoldOfConcat(word, head, [one[k]] + tail);
    FoldOfConcat(word, head, [other[k]] + tail);
    var w := FoldBytes(word, head);
    assert ([one[k]] + tail)[1..] == tail && ([other[k]] + tail)[1..] == tail;
    var m1, m2 := Mixed(w, one[k]), Mixed(w, other[k]);
    if m1 == m2 { StepIsInjective(w, one[k], w, other[k]); }
    DivergenceStands(m1, m2, tail);
  }

  // ---- nor do two neighbouring bytes cancel --------------------------------

  /** The streams have one length, are different, and differ at `k` or just after
      it and nowhere else. */
  ghost predicate DifferNear(one: seq<Byte>, other: seq<Byte>, k: nat) {
    && |one| == |other| && one != other
    && forall i | 0 <= i < |one| && i != k && i != k + 1 :: one[i] == other[i]
  }

  /** Two words less than a byte apart are multiplied further apart than a byte. */
  lemma {:induction false} FarApart(x: nat, y: nat, m: nat, n: nat)
    requires x < y < x + 256 && m == (x * PRIME) % U64_END && n == (y * PRIME) % U64_END
    ensures m / 256 != n / 256
  {
    var q := x * PRIME / U64_END;
    var d := (y - x) * PRIME;
    assert x * PRIME == U64_END * q + m;
    assert y * PRIME == U64_END * q + (m + d);
    assert PRIME <= d <= 255 * PRIME;
    if m + d < U64_END {
      RemainderIs(y * PRIME, U64_END, q, m + d);
    } else {
      RemainderIs(y * PRIME, U64_END, q + 1, m + d - U64_END);
    }
  }

  /** Two bytes that mix to one word leave the word above its low byte alone. */
  lemma {:induction false} SameAbove(m: U64, b: Byte, n: U64, c: Byte)
    requires Mixed(m, b) == Mixed(n, c)
    ensures m / 256 == n / 256
  {
    XorIsAWord(m, b);
    XorIsAWord(n, c);
    ProductIsReversible(Xor(m, b));
    ProductIsReversible(Xor(n, c));
    XorOfAByte(m, b);
    XorOfAByte(n, c);
  }

  /** No second byte brings together what a first byte moved apart. */
  lemma {:induction false} PairsStayApart(w: U64, b1: Byte, b2: Byte, c1: Byte, c2: Byte)
    requires b1 != c1
    ensures Mixed(Mixed(w, b1), b2) != Mixed(Mixed(w, c1), c2)
  {
    var x, y := Xor(w, b1), Xor(w, c1);
    XorOfAByte(w, b1);
    XorOfAByte(w, c1);
    if x == y { StepIsInjective(w, b1, w, c1); }
    if x < y {
      FarApart(x, y, Mixed(w, b1), Mixed(w, c1));
    } else {
      FarApart(y, x, Mixed(w, c1), Mixed(w, b1));
    }
    if Mixed(Mixed(w, b1), b2) == Mixed(Mixed(w, c1), c2) {
      SameAbove(Mixed(w, b1), b2, Mixed(w, c1), c2);
    }
  }

  lemma {:induction false} FoldOfPair(word: U64, head: seq<Byte>, b: Byte, c: Byte, tail: seq<Byte>)
    ensures FoldBytes(word, head + [b, c] + tail) == FoldBytes(Mixed(Mixed(FoldBytes(word, head), b), c), tail)
  {
    assert head + [b, c] + tail == head + ([b] + ([c] + tail));
    FoldOfConcat(word, head, [b] + ([c] + tail));
    assert ([b] + ([c] + tail))[1..] == [c] + tail && ([c] + tail)[1..] == tail;
  }

  /** A change confined to two neighbouring bytes, anywhere in a stream of any
      length, always moves the word. */
  lemma {:induction false} TwoBytesMoveTheWord(word: U64, one: seq<Byte>, other: seq<Byte>, k: nat)
    requires DifferNear(one, other, k)
    ensures FoldBytes(word, one) != FoldBytes(word, other)
  {
    if k + 1 >= |one| || one[k + 1] == other[k + 1] {
      assert DifferOnlyAt(one, other, k);
      OneByteMovesTheWord(word, one, other, k);
    } else if one[k] == other[k] {
      OneByteMovesTheWord(word, one, other, k + 1);
    } else {
      var head, tail := one[..k], one[k + 2..];
      assert other[..k] == head && other[k + 2..] == tail;
      assert one == head + [one[k], one[k + 1]] + tail && other == head + [other[k], other[k + 1]] + tail;
      FoldOfPair(word, head, one[k], one[k + 1], tail);
      FoldOfPair(word, head, other[k], other[k + 1], tail);
      var w := FoldBytes(word, head);
      PairsStayApart(w, one[k], one[k + 1], other[k], other[k + 1]);
      DivergenceStands(Mixed(Mixed(w, one[k]), one[k + 1]), Mixed(Mixed(w, other[k]), other[k + 1]), tail);
    }
  }

  lemma {:induction false} NearChangeMovesTheFold(one: seq<Event>, other: seq<Event>, k: nat)
    requires DifferNear(Stream(one), Stream(other), k)
    ensures AbsorbedAll(one).word != AbsorbedAll(other).word
  {
    FoldIsOverTheStream(one);
    FoldIsOverTheStream(other);
    TwoBytesMoveTheWord(BASIS, Stream(one), Stream(other), k);
  }

  // ---- the attestation -----------------------------------------------------

  datatype Attested = Attested(word: U64, absorbed: U64)

  function AttestationOf(c: Crossing, class_: U16): Sqe {
    Sqe(ATTEST, NO_CQE, class_, 0, c.word, NO_DEADLINE, 0, 0, 0, 0, 0, c.absorbed, 0)
  }

  function ReadAttestation(entry: Sqe): Option<Attested> {
    if entry.opcode != ATTEST then None
    else if AttestationOf(Crossing(entry.userData, entry.ext0), entry.class_) == entry then
      Some(Attested(entry.userData, entry.ext0))
    else None
  }

  predicate AgreesWith(c: Crossing, published: U64) { c.absorbed != 0 && c.word == published }

  predicate AgreesWithAttested(c: Crossing, said: Attested) {
    AgreesWith(c, said.word) && c.absorbed == said.absorbed
  }

  /** An attestation is read exactly off the entries a fold writes, never off an
      event, and an event never off it. */
  lemma {:induction false} AttestationExactly(entry: Sqe, payload: Payload, said: Attested)
    ensures ReadAttestation(entry) == Some(said) <==>
            entry == Sqe(0x80, NO_CQE, entry.class_, 0, said.word, 0, 0, 0, 0, 0, 0, said.absorbed, 0)
    ensures forall class_ :: ReadAttestation(AttestationOf(Crossing(said.word, said.absorbed), class_)) == Some(said)
    ensures ReadAttestation(entry).Some? ==> Decode(entry, payload) == Err(UnknownOpcode)
  {
  }

  // ---- the consumer --------------------------------------------------------

  /** What one entry of a ring is to a consumer, which asks each whether it is an
      attestation before it hands it to the decoder. */
  datatype Heard = Told(said: Attested) | Happened(event: Event) | Refused

  function Hear(crossed: (Sqe, Payload)): Heard {
    match ReadAttestation(crossed.0)
    case Some(said) => Told(said)
    case None =>
      match Decode(crossed.0, crossed.1)
      case Ok(event) => Happened(event)
      case Err(_) => Refused
  }

  function HearAll(ring: seq<(Sqe, Payload)>): (heard: seq<Heard>)
    ensures |heard| == |ring|
  {
    seq(|ring|, i requires 0 <= i < |ring| => Hear(ring[i]))
  }

  /** What it keeps: the fold of what it believed, the last attestation it read,
      and how many entries it refused. */
  datatype Consumed = Consumed(fold: Crossing, said: Option<Attested>, refused: nat)

  function Kept(heard: seq<Heard>): Consumed {
    if heard == [] then Consumed(EMPTY, None, 0)
    else
      var before := Kept(heard[..|heard| - 1]);
      match heard[|heard| - 1]
      case Told(said) => before.(said := Some(said))
      case Happened(event) => before.(fold := Absorbed(before.fold, event))
      case Refused => before.(refused := before.refused + 1)
  }

  function Consume(ring: seq<(Sqe, Payload)>): Consumed { Kept(HearAll(ring)) }

  lemma {:induction false} KeptOneMore(heard: seq<Heard>, h: Heard)
    ensures Kept(heard + [h]) ==
            match h
            case Told(said) => Kept(heard).(said := Some(said))
            case Happened(event) => Kept(heard).(fold := Absorbed(Kept(heard).fold, event))
            case Refused => Kept(heard).(refused := Kept(heard).refused + 1)
  {
    assert (heard + [h])[..|heard|] == heard;
  }

  /** The entries a sequence of events crosses as. */
  function Ring(carried: seq<Event>): (ring: seq<(Sqe, Payload)>)
    ensures |ring| == |carried|
  {
    seq(|carried|, i requires 0 <= i < |carried| => Encode(carried[i]))
  }

  function Happenings(events: seq<Event>): (heard: seq<Heard>)
    ensures |heard| == |events|
  {
    seq(|events|, i requires 0 <= i < |events| => Happened(events[i]))
  }

  lemma {:induction false} LegalIsHeard(event: Event)
    requires Legal(event)
    ensures Hear(Encode(event)) == Happened(event)
  {
    var (entry, payload) := Encode(event);
    DecodeExactly(entry, payload, event);
  }

  lemma {:induction false} AttestationIsHeard(c: Crossing, class_: U16, slot: Payload)
    ensures Hear((AttestationOf(c, class_), slot)) == Told(Attested(c.word, c.absorbed))
  {
  }

  lemma {:induction false} RingIsHeard(carried: seq<Event>, last: (Sqe, Payload))
    requires forall i | 0 <= i < |carried| :: Legal(carried[i])
    ensures HearAll(Ring(carried) + [last]) == Happenings(carried) + [Hear(last)]
  {
    forall i | 0 <= i < |carried| ensures Hear(Ring(carried)[i]) == Happened(carried[i]) {
      LegalIsHeard(carried[i]);
    }
  }

  lemma {:induction false} HappeningsKept(events: seq<Event>)
    ensures Kept(Happenings(events)) == Consumed(AbsorbedAll(events), None, 0)
    decreases |events|
  {
    if events != [] {
      var n := |events| - 1;
      HappeningsKept(events[..n]);
      assert Happenings(events)[..n] == Happenings(events[..n]);
    }
  }

  /** The same event in another carriage: what the device did and when, under any
      token, class, offset and legal flags. */
  predicate Recarries(original: Event, carried: Event) {
    original.stamp == carried.stamp && original.body == carried.body && Legal(carried)
  }

  /** Carriage is not folded. */
  lemma {:induction false} CarriageIsNotFolded(events: seq<Event>, carried: seq<Event>)
    requires |events| == |carried| && forall i | 0 <= i < |events| :: Recarries(events[i], carried[i])
    ensures AbsorbedAll(carried) == AbsorbedAll(events)
    decreases |events|
  {
    if events != [] {
      var n := |events| - 1;
      CarriageIsNotFolded(events[..n], carried[..n]);
      assert PayloadOf(carried[n]) == PayloadOf(events[n]);
    }
  }

  /** The crossing theorem. A producer folds any nonempty sequence of events and
      attests; the events cross in any carriage and the attestation after them in
      any class. The consumer refuses nothing, reads the attestation, and agrees
      with it word and count. */
  lemma {:induction false} CrossingAgrees(events: seq<Event>, carried: seq<Event>, class_: U16, slot: Payload)
    requires events != []
    requires |events| == |carried| && forall i | 0 <= i < |events| :: Recarries(events[i], carried[i])
    ensures var ring := Ring(carried) + [(AttestationOf(AbsorbedAll(events), class_), slot)];
            var end := Consume(ring);
            && end.refused == 0 && end.said.Some? && AgreesWithAttested(end.fold, end.said.value)
  {
    AttestationIsHeard(AbsorbedAll(events), class_, slot);
    RingIsHeard(carried, (AttestationOf(AbsorbedAll(events), class_), slot));
    KeptOneMore(Happenings(carried), Hear((AttestationOf(AbsorbedAll(events), class_), slot)));
    HappeningsKept(carried);
    CarriageIsNotFolded(events, carried);
    FoldIsOverTheStream(events);
  }

  /** And what it will not agree with: a sequence whose stream differs within two
      neighbouring bytes, a sequence of another length unless both counts have
      saturated, and anything at all before something has crossed. */
  lemma {:induction false} DisagreementIsCaught(sent: seq<Event>, seen: seq<Event>)
    ensures var said := Attested(AbsorbedAll(sent).word, AbsorbedAll(sent).absorbed);
            && ((exists k: nat :: DifferNear(Stream(sent), Stream(seen), k)) ==>
                  !AgreesWithAttested(AbsorbedAll(seen), said) && !AgreesWith(AbsorbedAll(seen), said.word))
            && (|sent| != |seen| && (|sent| < U64_MAX || |seen| < U64_MAX) ==>
                  !AgreesWithAttested(AbsorbedAll(seen), said))
    ensures seen == [] ==> forall published: U64 :: !AgreesWith(AbsorbedAll(seen), published)
  {
    FoldIsOverTheStream(sent);
    FoldIsOverTheStream(seen);
    if k: nat :| DifferNear(Stream(sent), Stream(seen), k) {
      NearChangeMovesTheFold(sent, seen, k);
    }
  }

  // ---- what is altered in transit ------------------------------------------

  /** The events a consumer came to believe, in order. */
  function Believed(heard: seq<Heard>): seq<Event> {
    if heard == [] then [] else Believed(heard[..|heard| - 1]) + BelievedOf(heard[|heard| - 1])
  }

  function BelievedOf(h: Heard): seq<Event> { if h.Happened? then [h.event] else [] }

  /** A consumer's fold is the fold of what it believed. */
  lemma {:induction false} FoldIsOfTheBelieved(heard: seq<Heard>)
    ensures Kept(heard).fold == AbsorbedAll(Believed(heard))
    decreases |heard|
  {
    if heard != [] {
      var n := |heard| - 1;
      FoldIsOfTheBelieved(heard[..n]);
      var before, more := Believed(heard[..n]), BelievedOf(heard[n]);
      if more == [] {
        assert before + more == before;
      } else {
        assert (before + more)[..|before|] == before;
      }
    }
  }

  /** Every event but the one replaced is still believed. */
  lemma {:induction false} BelievedOfTampered(events: seq<Event>, i: nat, h: Heard)
    requires i < |events|
    ensures Believed(Happenings(events)[i := h]) == events[..i] + BelievedOf(h) + events[i + 1..]
    decreases |events|
  {
    var n := |events| - 1;
    if i < n {
      BelievedOfTampered(events[..n], i, h);
      TamperedOneMore(events, i, h);
      BelievedOneMore(Happenings(events[..n])[i := h], Happened(events[n]));
      MiddleOf(events, i, BelievedOf(h));
    } else {
      BelievedOfAll(events[..n]);
      TamperedAtTheEnd(events, h);
      BelievedOneMore(Happenings(events[..n]), h);
      assert events[i + 1..] == [];
    }
  }

  lemma {:induction false} TamperedOneMore(events: seq<Event>, i: nat, h: Heard)
    requires i < |events| - 1
    ensures var n := |events| - 1;
            Happenings(events)[i := h] == Happenings(events[..n])[i := h] + [Happened(events[n])]
  {
  }

  lemma {:induction false} TamperedAtTheEnd(events: seq<Event>, h: Heard)
    requires events != []
    ensures var n := |events| - 1; Happenings(events)[n := h] == Happenings(events[..n]) + [h]
  {
  }

  lemma {:induction false} BelievedOneMore(heard: seq<Heard>, h: Heard)
    ensures Believed(heard + [h]) == Believed(heard) + BelievedOf(h)
  {
    assert (heard + [h])[..|heard|] == heard;
  }

  lemma {:induction false} MiddleOf(events: seq<Event>, i: nat, middle: seq<Event>)
    requires i < |events| - 1
    ensures var n := |events| - 1;
            events[..i] + middle + events[i + 1..] == events[..n][..i] + middle + events[..n][i + 1..] + [events[n]]
  {
    var n := |events| - 1;
    assert events[..n][..i] == events[..i];
    assert events[..n][i + 1..] + [events[n]] == events[i + 1..];
  }

  lemma {:induction false} BelievedOfAll(events: seq<Event>)
    ensures Believed(Happenings(events)) == events
    decreases |events|
  {
    if events != [] {
      var n := |events| - 1;
      BelievedOfAll(events[..n]);
      assert Happenings(events)[..n] == Happenings(events[..n]);
    }
  }

  lemma {:induction false} EqualOffsets(parts: seq<seq<Byte>>, i: nat)
    requires i <= |parts| && forall j | 0 <= j < |parts| :: |parts[j]| == 25
    ensures Offset(parts, i) == 25 * i
    decreases i
  {
    if i > 0 { EqualOffsets(parts, i - 1); }
  }

  lemma {:induction false} WholeLength(parts: seq<seq<Byte>>)
    requires forall j | 0 <= j < |parts| :: |parts[j]| == 25
    ensures |Join(parts)| == 25 * |parts|
  {
    EqualOffsets(parts, |parts|);
    JoinFrom(parts, |parts|);
    assert parts[|parts|..] == [];
  }

  /** Byte `k` of part `i`, where it is in the whole. */
  lemma {:induction false} PartAt(parts: seq<seq<Byte>>, i: nat, k: nat)
    requires i < |parts| && k < 25 && forall j | 0 <= j < |parts| :: |parts[j]| == 25
    ensures 25 * i + k < |Join(parts)| && Join(parts)[25 * i + k] == parts[i][k]
  {
    EqualOffsets(parts, i);
    FieldIn(parts, i);
    assert Join(parts)[25 * i..25 * i + 25][k] == parts[i][k];
  }

  lemma {:induction false} PartsAreDetermined(one: seq<seq<Byte>>, other: seq<seq<Byte>>)
    requires |one| == |other| && forall j | 0 <= j < |one| :: |one[j]| == 25 && |other[j]| == 25
    ensures Join(one) == Join(other) <==> one == other
  {
    if Join(one) == Join(other) {
      forall i | 0 <= i < |one| ensures one[i] == other[i] {
        forall k | 0 <= k < 25 ensures one[i][k] == other[i][k] {
          PartAt(one, i, k);
          PartAt(other, i, k);
        }
      }
    }
  }

  /** What a legal event is folded as says what happened and when. */
  lemma {:induction false} BytesSayTheEvent(one: Event, other: Event)
    requires Legal(one) && Legal(other)
    ensures BytesOf(one) == BytesOf(other) <==> one.stamp == other.stamp && one.body == other.body
  {
    if BytesOf(one) == BytesOf(other) {
      var recarried := Event(other.userData, other.class_, other.payloadOffset, other.flags, one.stamp, one.body);
      assert PayloadOf(one) == BytesOf(one)[1..] == BytesOf(other)[1..] == PayloadOf(other);
      assert Opcode(one.body) == BytesOf(one)[0] == BytesOf(other)[0];
      assert PayloadOf(recarried) == PayloadOf(one);
      var (entry, payload) := Encode(other);
      DecodeExactly(entry, payload, other);
      DecodeExactly(entry, payload, recarried);
    } else {
      assert one.stamp == other.stamp && one.body == other.body ==> PayloadOf(one) == PayloadOf(other);
    }
  }

  /** The stream is order-sensitive and drops nothing: two legal sequences are one
      stream exactly when the same things happened at the same times in the same
      order. */
  lemma {:induction false} StreamIsFaithful(one: seq<Event>, other: seq<Event>)
    requires (forall i | 0 <= i < |one| :: Legal(one[i])) && (forall i | 0 <= i < |other| :: Legal(other[i]))
    ensures Stream(one) == Stream(other) <==>
            && |one| == |other|
            && forall i | 0 <= i < |one| :: one[i].stamp == other[i].stamp && one[i].body == other[i].body
  {
    FoldIsOverTheStream(one);
    FoldIsOverTheStream(other);
    if |one| == |other| {
      PartsAreDetermined(Parts(one), Parts(other));
      PartsSayTheEvents(one, other);
    }
  }

  lemma {:induction false} PartsSayTheEvents(one: seq<Event>, other: seq<Event>)
    requires |one| == |other| && forall i | 0 <= i < |one| :: Legal(one[i]) && Legal(other[i])
    ensures Parts(one) == Parts(other) <==>
            forall i | 0 <= i < |one| :: one[i].stamp == other[i].stamp && one[i].body == other[i].body
  {
    forall i | 0 <= i < |one|
      ensures Parts(one)[i] == Parts(other)[i] <==> one[i].stamp == other[i].stamp && one[i].body == other[i].body
    {
      BytesSayTheEvent(one[i], other[i]);
    }
    if forall i | 0 <= i < |one| :: one[i].stamp == other[i].stamp && one[i].body == other[i].body {
      assert forall i | 0 <= i < |one| :: Parts(one)[i] == Parts(other)[i];
    }
  }

  /** One part changed within two neighbouring bytes is the whole so changed. */
  lemma {:induction false} NearChangeOfTheWhole(parts: seq<seq<Byte>>, i: nat, changed: seq<Byte>, k: nat)
    requires forall j | 0 <= j < |parts| :: |parts[j]| == 25
    requires i < |parts| && DifferNear(parts[i], changed, k)
    ensures DifferNear(Join(parts), Join(parts[i := changed]), 25 * i + k)
  {
    var other := parts[i := changed];
    WholeLength(parts);
    WholeLength(other);
    var r :| 0 <= r < 25 && parts[i][r] != changed[r];
    PartAt(parts, i, r);
    PartAt(other, i, r);
    forall p | 0 <= p < 25 * |parts| && p != 25 * i + k && p != 25 * i + k + 1
      ensures Join(parts)[p] == Join(other)[p]
    {
      PartAt(parts, p / 25, p % 25);
      PartAt(other, p / 25, p % 25);
    }
  }

  /** One event so changed is the stream so changed. */
  lemma {:induction false} NearChangeOfTheStream(events: seq<Event>, i: nat, changed: Event, k: nat)
    requires i < |events| && DifferNear(BytesOf(events[i]), BytesOf(changed), k)
    ensures DifferNear(Stream(events), Stream(events[i := changed]), 25 * i + k)
  {
    assert Parts(events[i := changed]) == Parts(events)[i := BytesOf(changed)];
    NearChangeOfTheWhole(Parts(events), i, BytesOf(changed), k);
  }

  /** What a consumer believes of an entry so changed is nothing, or an event so
      changed. */
  lemma {:induction false} AlteredIsHeard(bytes: seq<Byte>, entry: Sqe, payload: Payload, k: nat)
    requires DifferNear(bytes, [entry.opcode] + payload, k)
    ensures var h := Hear((entry, payload)); h.Happened? ==> DifferNear(bytes, BytesOf(h.event), k)
  {
    var h := Hear((entry, payload));
    if h.Happened? { DecodeExactly(entry, payload, h.event); }
  }

  /** One event heard otherwise: another word. */
  lemma {:induction false} ChangedEventDisagrees(events: seq<Event>, i: nat, changed: Event, k: nat)
    requires i < |events| && DifferNear(BytesOf(events[i]), BytesOf(changed), k)
    ensures AbsorbedAll(events[i := changed]).word != AbsorbedAll(events).word
  {
    NearChangeOfTheStream(events, i, changed, k);
    NearChangeMovesTheFold(events, events[i := changed], 25 * i + k);
  }

  /** One event unheard: another count. */
  lemma {:induction false} LostEventDisagrees(events: seq<Event>, fewer: seq<Event>)
    requires |fewer| < |events| && |fewer| < U64_MAX
    ensures AbsorbedAll(fewer).absorbed != AbsorbedAll(events).absorbed
  {
    FoldIsOverTheStream(events);
    FoldIsOverTheStream(fewer);
  }

  lemma {:induction false} OneHeardOtherwise(events: seq<Event>, i: nat, h: Heard, k: nat)
    requires i < |events|
    requires if h.Happened? then DifferNear(BytesOf(events[i]), BytesOf(h.event), k) else |events| <= U64_MAX
    ensures AbsorbedAll(events[..i] + BelievedOf(h) + events[i + 1..]) != AbsorbedAll(events)
  {
    var seen := events[..i] + BelievedOf(h) + events[i + 1..];
    if h.Happened? {
      assert seen == events[i := h.event];
      ChangedEventDisagrees(events, i, h.event, k);
    } else {
      LostEventDisagrees(events, seen);
    }
  }

  lemma {:induction false} TamperedDisagrees(events: seq<Event>, i: nat, h: Heard, k: nat)
    requires i < |events|
    requires if h.Happened? then DifferNear(BytesOf(events[i]), BytesOf(h.event), k) else |events| <= U64_MAX
    ensures Kept(Happenings(events)[i := h]).fold != AbsorbedAll(events)
  {
    FoldIsOfTheBelieved(Happenings(events)[i := h]);
    BelievedOfTampered(events, i, h);
    OneHeardOtherwise(events, i, h, k);
  }

  /** The ring with one entry replaced on the way, as it is heard. */
  lemma {:induction false} TamperedIsHeard(carried: seq<Event>, i: nat, crossed: (Sqe, Payload), last: (Sqe, Payload))
    requires i < |carried| && forall j | 0 <= j < |carried| :: Legal(carried[j])
    ensures HearAll(Ring(carried)[i := crossed] + [last]) == Happenings(carried)[i := Hear(crossed)] + [Hear(last)]
  {
    forall j | 0 <= j < |carried| ensures Hear(Ring(carried)[j]) == Happened(carried[j]) {
      LegalIsHeard(carried[j]);
    }
  }

  /** Tampering within two neighbouring bytes is never agreed to. Any number of
      legal events cross; one or two neighbours among the twenty-five bytes that
      one of them is folded as are changed on the way, and its envelope around
      them is anything at all; the producer's attestation arrives intact. Whether
      the consumer refuses the entry, reads it as another event or takes it for an
      attestation, it does not agree with what was attested. Only an entry that is
      no longer believed asks for a count that had not saturated before it. */
  lemma {:induction false} AlterationIsCaught(
    carried: seq<Event>, i: nat, entry: Sqe, payload: Payload, k: nat, class_: U16, slot: Payload)
    requires i < |carried| && forall j | 0 <= j < |carried| :: Legal(carried[j])
    requires |carried| <= U64_MAX || Hear((entry, payload)).Happened?
    requires DifferNear(BytesOf(carried[i]), [entry.opcode] + payload, k)
    ensures var attestation := (AttestationOf(AbsorbedAll(carried), class_), slot);
            var end := Consume(Ring(carried)[i := (entry, payload)] + [attestation]);
            && end.said == Some(Attested(AbsorbedAll(carried).word, AbsorbedAll(carried).absorbed))
            && !AgreesWithAttested(end.fold, end.said.value)
  {
    var attestation := (AttestationOf(AbsorbedAll(carried), class_), slot);
    var h := Hear((entry, payload));
    AttestationIsHeard(AbsorbedAll(carried), class_, slot);
    TamperedIsHeard(carried, i, (entry, payload), attestation);
    KeptOneMore(Happenings(carried)[i := h], Hear(attestation));
    AlteredIsHeard(BytesOf(carried[i]), entry, payload, k);
    TamperedDisagrees(carried, i, h, k);
  }
}
