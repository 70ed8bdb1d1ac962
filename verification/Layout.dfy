/** Where everything in a channel mapping is. */
module Layout {
  import opened Wire
  import opened Bits

  const LINE: U32 := 64
  const HEADER: U32 := 0
  const HEAD: U32 := LINE
  const TAIL: U32 := 2 * LINE
  const FLAGS: U32 := TAIL + 4
  const CQ_HEAD: U32 := 3 * LINE
  const CQ_TAIL: U32 := 4 * LINE
  const SQ_INDEX: U32 := 5 * LINE
  const MAX_ENTRIES: U32 := 0x100_0000
  const CHANNEL_MAGIC: U64 := 0x465f_4348_414e_0001
  const ABI_VERSION: U32 := 1
  const ABI_VERSION_MIN: U32 := 1

  datatype Layout = Layout(entries: U32, sqe: U32, cqe: U32, arena: U32, arenaLen: U32)

  datatype Header = Header(
    magic: U64, features: U64, featuresRequired: U64, abiVersion: U32, abiVersionMin: U32,
    ringSize: U32, sqeOffset: U32, cqeOffset: U32, epoch: U32, reserved: seq<U32>)

  /** The two ways a peer's header can be refused here are one packed error. */
  datatype Refusal = MalformedHeader

  function CheckedAdd(a: U32, b: U32): Option<U32> { if a + b > U32_MAX then None else Some(a + b) }
  function CheckedMul(a: U32, b: U32): Option<U32> {
    assert 0 <= a * b;
    if a * b > U32_MAX then None else Some(a * b)
  }

  /** Exactly one bit set. */
  predicate IsPowerOfTwo(n: nat) {
    n == 1 || (n > 0 && n % 2 == 0 && IsPowerOfTwo(n / 2))
  }

  function LineAlign(value: U32): (r: Option<U32>) {
    match CheckedAdd(value, LINE - 1)
    case None => None
    case Some(sum) => LineMask(sum); Some(And(sum, U32_MAX - (LINE - 1)))
  }

  /** Masking off a line's bits is rounding down to it. */
  lemma {:induction false} LineMask(sum: U32)
    ensures And(sum, U32_MAX - (LINE - 1)) == sum - sum % 64
  {
    WordSizes();
    AndTimes64(sum, 0x3FF_FFFF);
    AndAllOnes(sum / 64, 26);
  }

  function New(entries: U32, arenaLen: U32): Option<Layout> {
    if entries == 0 || !IsPowerOfTwo(entries) || entries > MAX_ENTRIES then None
    else
      match CheckedMul(entries, 4) case None => None case Some(indexBytes) =>
      match CheckedAdd(SQ_INDEX, indexBytes) case None => None case Some(afterIndex) =>
      match LineAlign(afterIndex) case None => None case Some(sqe) =>
      match CheckedMul(entries, 64) case None => None case Some(sqeBytes) =>
      match CheckedAdd(sqe, sqeBytes) case None => None case Some(cqe) =>
      match CheckedMul(entries, 32) case None => None case Some(cqeBytes) =>
      match CheckedAdd(cqe, cqeBytes) case None => None case Some(afterCqe) =>
      match LineAlign(afterCqe) case None => None case Some(arena) =>
      if CheckedAdd(arena, arenaLen).None? then None
      else Some(Layout(entries, sqe, cqe, arena, arenaLen))
  }

  function Mask(l: Layout): nat
    requires l.entries > 0
  {
    l.entries - 1
  }

  function Total(l: Layout): nat { l.arena + l.arenaLen }

  predicate IsValid(h: Header) {
    && h.magic == CHANNEL_MAGIC && IsPowerOfTwo(h.ringSize) && h.ringSize > 0
    && h.abiVersionMin <= h.abiVersion && h.reserved == [0, 0, 0, 0]
  }

  function Adopt(h: Header, mappingLen: U32): Result<Layout, Refusal> {
    if !IsValid(h) then Err(MalformedHeader)
    else
      match New(h.ringSize, 0)
      case None => Err(MalformedHeader)
      case Some(computed) =>
        if h.sqeOffset != computed.sqe || h.cqeOffset != computed.cqe then Err(MalformedHeader)
        else if mappingLen < computed.arena then Err(MalformedHeader)
        else Ok(computed.(arenaLen := mappingLen - computed.arena))
  }

  function Describe(l: Layout, epoch: U32, offers: U64, requires_: U64): Header {
    Header(CHANNEL_MAGIC, offers, requires_, ABI_VERSION, ABI_VERSION_MIN, l.entries, l.sqe, l.cqe, epoch, [0, 0, 0, 0])
  }

  // ---- the arithmetic, without the machine ---------------------------------

  /** The least multiple of a line that is not below. */
  function RoundUp(value: nat): (r: nat)
    ensures r % 64 == 0 && value <= r < value + 64
  {
    value + 63 - (value + 63) % 64
  }

  function SqeAt(entries: nat): nat { RoundUp(SQ_INDEX + 4 * entries) }
  function CqeAt(entries: nat): nat { SqeAt(entries) + 64 * entries }
  function ArenaAt(entries: nat): nat { RoundUp(CqeAt(entries) + 32 * entries) }

  lemma {:induction false} PowersOfTwo(n: nat)
    ensures IsPowerOfTwo(n) <==> exists k: nat :: n == Power2(k)
    decreases n
  {
    if n > 1 {
      PowersOfTwo(n / 2);
      if n % 2 == 0 && IsPowerOfTwo(n / 2) {
        var k: nat :| n / 2 == Power2(k);
        assert n == Power2(k + 1);
      }
      if k: nat :| n == Power2(k) {
        assert k > 0 && n / 2 == Power2(k - 1);
      }
    } else {
      assert Power2(0) == 1;
    }
  }

  lemma {:induction false} LineAlignIs(value: U32)
    requires value + 63 <= U32_MAX
    ensures LineAlign(value) == Some(RoundUp(value))
  {
    LineMask(value + 63);
  }

  // Each checked step of `new` below the ceiling, in turn.

  lemma {:induction false} SqeIs(entries: U32)
    requires entries <= MAX_ENTRIES
    ensures CheckedMul(entries, 4) == Some(4 * entries)
    ensures CheckedAdd(SQ_INDEX, 4 * entries) == Some(SQ_INDEX + 4 * entries)
    ensures LineAlign(SQ_INDEX + 4 * entries) == Some(SqeAt(entries))
  {
    LineAlignIs(SQ_INDEX + 4 * entries);
  }

  lemma {:induction false} CqeIs(entries: U32)
    requires entries <= MAX_ENTRIES
    ensures SqeAt(entries) <= U32_MAX && CheckedMul(entries, 64) == Some(64 * entries)
    ensures CheckedAdd(SqeAt(entries), 64 * entries) == Some(CqeAt(entries))
    ensures CqeAt(entries) < SQ_INDEX + 68 * entries + LINE
  {
    SqeRegion(entries);
  }

  lemma {:induction false} ArenaStep(entries: U32, cqe: nat)
    requires entries <= MAX_ENTRIES && cqe < SQ_INDEX + 68 * entries + LINE
    ensures cqe + 32 * entries + 63 <= U32_MAX && CheckedMul(entries, 32) == Some(32 * entries)
    ensures CheckedAdd(cqe, 32 * entries) == Some(cqe + 32 * entries)
    ensures LineAlign(cqe + 32 * entries) == Some(RoundUp(cqe + 32 * entries))
  {
    LineAlignIs(cqe + 32 * entries);
  }

  lemma {:induction false} NewIs(entries: U32, arenaLen: U32)
    requires entries > 0 && IsPowerOfTwo(entries) && entries <= MAX_ENTRIES
    ensures New(entries, arenaLen) ==
            if ArenaAt(entries) + arenaLen > U32_MAX then None
            else Some(Layout(entries, SqeAt(entries), CqeAt(entries), ArenaAt(entries), arenaLen))
  {
    SqeIs(entries);
    CqeIs(entries);
    ArenaStep(entries, CqeAt(entries));
  }

  /** `new` answers exactly for the powers of two up to its ceiling whose arena
      ends inside 32 bits, and with the offsets of the plain arithmetic. */
  lemma {:induction false} NewExactly(entries: U32, arenaLen: U32)
    ensures New(entries, arenaLen).Some? <==>
            && (exists k: nat :: entries == Power2(k)) && entries <= 0x100_0000
            && ArenaAt(entries) + arenaLen <= U32_MAX
    ensures New(entries, arenaLen).Some? ==>
            New(entries, arenaLen).value
            == Layout(entries, SqeAt(entries), CqeAt(entries), ArenaAt(entries), arenaLen)
  {
    PowersOfTwo(entries);
    if IsPowerOfTwo(entries) && entries <= MAX_ENTRIES { NewIs(entries, arenaLen); }
  }

  /** Where something sits in a mapping. */
  datatype Region = Region(start: nat, bytes: nat)

  /** The mapping from front to back: the header, the two cursors of each ring on
      a line of their own, the index ring, the two entry arrays, and the arena. */
  function Regions(l: Layout): seq<Region> {
    [Region(HEADER, LINE), Region(HEAD, LINE), Region(TAIL, LINE), Region(CQ_HEAD, LINE), Region(CQ_TAIL, LINE),
     Region(SQ_INDEX, 4 * l.entries), Region(l.sqe, 64 * l.entries), Region(l.cqe, 32 * l.entries),
     Region(l.arena, l.arenaLen)]
  }

  /** The regions of a mapping follow each other without overlapping, each
      beginning on a line, with less than a line lost between one and the next,
      from the mapping's first byte to its last. */
  ghost predicate Tiles(regions: seq<Region>, total: nat) {
    && |regions| > 0 && regions[0].start == 0
    && regions[|regions| - 1].start + regions[|regions| - 1].bytes == total
    && (forall i | 0 <= i < |regions| :: regions[i].start % LINE == 0)
    && (forall i, j | 0 <= i < j < |regions| :: regions[i].start + regions[i].bytes <= regions[j].start)
    && (forall i | 0 <= i < |regions| - 1 :: regions[i + 1].start < regions[i].start + regions[i].bytes + LINE)
  }

  lemma {:induction false} FollowOn(regions: seq<Region>, i: nat, j: nat)
    requires forall k | 0 <= k < |regions| - 1 :: regions[k].start + regions[k].bytes <= regions[k + 1].start
    requires i < j < |regions|
    ensures regions[i].start + regions[i].bytes <= regions[j].start
    decreases j
  {
    if i + 1 < j { FollowOn(regions, i, j - 1); }
  }

  /** Where the three computed regions begin, given where the first does. */
  predicate Placed(l: Layout) {
    && SQ_INDEX + 4 * l.entries <= l.sqe < SQ_INDEX + 4 * l.entries + LINE
    && l.cqe == l.sqe + 64 * l.entries
    && l.cqe + 32 * l.entries <= l.arena < l.cqe + 32 * l.entries + LINE
  }

  lemma {:induction false} RegionsBeginOnLines(l: Layout)
    requires l.sqe % 64 == 0 && l.cqe % 64 == 0 && l.arena % 64 == 0
    ensures forall i | 0 <= i < |Regions(l)| :: Regions(l)[i].start % LINE == 0
  {
  }

  lemma {:induction false} RegionsAdjoin(l: Layout)
    requires Placed(l)
    ensures forall i | 0 <= i < |Regions(l)| - 1 ::
              Regions(l)[i].start + Regions(l)[i].bytes <= Regions(l)[i + 1].start
    ensures forall i | 0 <= i < |Regions(l)| - 1 ::
              Regions(l)[i + 1].start < Regions(l)[i].start + Regions(l)[i].bytes + LINE
  {
  }

  lemma {:induction false} RegionsTile(l: Layout)
    requires Placed(l) && l.sqe % 64 == 0 && l.cqe % 64 == 0 && l.arena % 64 == 0
    ensures Tiles(Regions(l), Total(l))
  {
    RegionsBeginOnLines(l);
    RegionsAdjoin(l);
    Tiling(Regions(l));
  }

  lemma {:induction false} Tiling(regions: seq<Region>)
    requires |regions| > 0 && regions[0].start == 0
    requires forall i | 0 <= i < |regions| :: regions[i].start % LINE == 0
    requires forall i | 0 <= i < |regions| - 1 :: regions[i].start + regions[i].bytes <= regions[i + 1].start
    requires forall i | 0 <= i < |regions| - 1 :: regions[i + 1].start < regions[i].start + regions[i].bytes + LINE
    ensures Tiles(regions, regions[|regions| - 1].start + regions[|regions| - 1].bytes)
  {
    forall i, j | 0 <= i < j < |regions| ensures regions[i].start + regions[i].bytes <= regions[j].start {
      FollowOn(regions, i, j);
    }
  }

  lemma {:induction false} RegionsAreDisjoint(entries: U32, arenaLen: U32)
    requires New(entries, arenaLen).Some?
    ensures var l := New(entries, arenaLen).value; Tiles(Regions(l), Total(l)) && Total(l) <= U32_MAX
    ensures TAIL + 4 <= FLAGS && FLAGS + 4 <= TAIL + LINE
  {
    NewExactly(entries, arenaLen);
    SqeRegion(entries);
    CqeRegion(entries);
    ArenaRegion(entries);
    RegionsTile(New(entries, arenaLen).value);
  }

  lemma {:induction false} SqeRegion(entries: nat)
    ensures SQ_INDEX + 4 * entries <= SqeAt(entries) < SQ_INDEX + 4 * entries + LINE && SqeAt(entries) % 64 == 0
  {
  }

  lemma {:induction false} CqeRegion(entries: nat)
    ensures CqeAt(entries) == SqeAt(entries) + 64 * entries && CqeAt(entries) % 64 == 0
  {
    LinesOn(SqeAt(entries), entries);
  }

  lemma {:induction false} ArenaRegion(entries: nat)
    ensures CqeAt(entries) + 32 * entries <= ArenaAt(entries) < CqeAt(entries) + 32 * entries + LINE
    ensures ArenaAt(entries) % 64 == 0
  {
  }

  lemma {:induction false} LinesOn(start: nat, lines: nat)
    requires start % 64 == 0
    ensures (start + 64 * lines) % 64 == 0
  {
  }

  /** The ceiling is stricter than the arithmetic: the next size up would still be
      stated in 32 bits, and the one after it would not. */
  lemma {:induction false} CeilingHasRoom()
    ensures ArenaAt(2 * MAX_ENTRIES) <= U32_MAX < ArenaAt(4 * MAX_ENTRIES)
  {
  }

  /** `adopt` answers exactly the layout this build would have made for the whole
      of the mapping, and only for a header that states that layout. */
  lemma {:induction false} AdoptExactly(h: Header, mappingLen: U32, l: Layout)
    ensures Adopt(h, mappingLen) == Ok(l) <==>
            && h.magic == 0x465f_4348_414e_0001 && h.abiVersionMin <= h.abiVersion && h.reserved == [0, 0, 0, 0]
            && l.entries == h.ringSize
            && New(l.entries, l.arenaLen) == Some(l) && Total(l) == mappingLen
            && h.sqeOffset == l.sqe && h.cqeOffset == l.cqe
  {
    PowersOfTwo(h.ringSize);
    NewExactly(h.ringSize, 0);
    NewExactly(h.ringSize, l.arenaLen);
    if Adopt(h, mappingLen).Ok? {
      NewExactly(h.ringSize, Adopt(h, mappingLen).value.arenaLen);
    }
  }

  /** What one side describes, the other adopts. */
  lemma {:induction false} AdoptInvertsDescribe(entries: U32, arenaLen: U32, epoch: U32, offers: U64, requires_: U64)
    requires New(entries, arenaLen).Some?
    ensures var l := New(entries, arenaLen).value;
            var h := Describe(l, epoch, offers, requires_);
            && Adopt(h, Total(l)) == Ok(l)
            && h.epoch == epoch && h.features == offers && h.featuresRequired == requires_
            && h.abiVersion == 1 && h.abiVersionMin == 1
  {
    NewExactly(entries, arenaLen);
    PowersOfTwo(entries);
    AdoptExactly(Describe(New(entries, arenaLen).value, epoch, offers, requires_),
                 Total(New(entries, arenaLen).value), New(entries, arenaLen).value);
  }

  // ---- free-running cursors ------------------------------------------------

  /** The slot a cursor names. */
  function SlotOf(l: Layout, cursor: U32): nat
    requires l.entries > 0
  {
    And(cursor, Mask(l))
  }

  /** A cursor `i` steps on, wrapping as a 32-bit counter does. */
  function Advanced(cursor: U32, i: nat): U32 { (cursor + i) % (U32_MAX + 1) }

  lemma {:induction false} SlotIsRemainder(entries: U32, arenaLen: U32, cursor: U32, i: nat)
    requires New(entries, arenaLen).Some?
    ensures SlotOf(New(entries, arenaLen).value, Advanced(cursor, i)) == (cursor + i) % entries
  {
    NewExactly(entries, arenaLen);
    var k: nat :| entries == Power2(k);
    MaskedCount(cursor + i, k);
  }

  /** Wrapping at 32 bits and then masking is masking the unwrapped count. */
  lemma {:induction false} MaskedCount(count: nat, k: nat)
    requires Power2(k) <= MAX_ENTRIES
    ensures And(count % (U32_MAX + 1), Power2(k) - 1) == count % Power2(k)
  {
    AndLowMask(count % (U32_MAX + 1), k);
    WordSizes();
    if k > 32 {
      PowersMultiply(32, k - 32);
      assert false;
    }
    PowersMultiply(k, 32 - k);
    Reduced(count, Power2(k), Power2(32 - k), U32_MAX + 1);
  }

  /** Any run of cursors as long as the ring, across the counter's wrap or not,
      names only slots there are, and no slot twice. */
  lemma {:induction false} CursorsDoNotCollide(entries: U32, arenaLen: U32, cursor: U32, i: nat, j: nat)
    requires New(entries, arenaLen).Some? && i < entries && j < entries
    ensures var l := New(entries, arenaLen).value;
            && SlotOf(l, Advanced(cursor, i)) < l.entries
            && (SlotOf(l, Advanced(cursor, i)) == SlotOf(l, Advanced(cursor, j)) <==> i == j)
  {
    NewKeepsEntries(entries, arenaLen);
    SlotIsRemainder(entries, arenaLen, cursor, i);
    SlotIsRemainder(entries, arenaLen, cursor, j);
    RemaindersOf(cursor, i, j, entries);
  }

  lemma {:induction false} NewKeepsEntries(entries: U32, arenaLen: U32)
    requires New(entries, arenaLen).Some?
    ensures New(entries, arenaLen).value.entries == entries > 0
  {
  }

  lemma {:induction false} RemaindersOf(cursor: nat, i: nat, j: nat, n: nat)
    requires i < n && j < n
    ensures (cursor + i) % n < n && ((cursor + i) % n == (cursor + j) % n <==> i == j)
  {
    if i < j { RemaindersDiffer(cursor + i, cursor + j, n); }
    if j < i { RemaindersDiffer(cursor + j, cursor + i, n); }
  }
}
