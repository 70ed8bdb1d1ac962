/** What a canvas claims about its content, the tree it is held against, and the
    floor between the two. */
module Canvas {
  import opened Wire

  const PLACED_MAX: nat := 64
  const NO_NODE: U64 := 0

  /** Why a canvas is not a participant. */
  datatype Escape =
    | NotATimeBase
    | NotAnExtent
    | TooManyPlacements
    | PlacedTwice(node: U64)
    | NotACanvas(node: U64)
    | NotALane(node: U64)
    | NotAnOccupant(node: U64)
    | Mistimed(node: U64)
    | Unplaced(node: U64)
    | NothingPlaced(node: U64)
    | Unplaceable(node: U64)
    | NoRoom
    | UnknownOpcode
    | UnknownFlag
    | Reserved
    | Malformed
    | NoNode
    | NotDeclared
    | Redeclared(node: U64)

  // ---- the dimension -------------------------------------------------------

  /** Ticks per second, and never zero. */
  type Base = ticks: U32 | 0 < ticks witness 1

  datatype Stretch = Stretch(start: I64, end: I64)

  /** A half-open stretch of ticks that holds at least one. */
  type Extent = s: Stretch | s.start < s.end witness Stretch(0, 1)

  datatype Span = At(instant: I64) | Between(extent: Extent)
  datatype Placement = Placement(occupant: U64, span: Span)
  datatype Selection = Selection(span: Option<Extent>, lane: Option<U64>)

  function NewBase(ticks: U32): Result<Base, Escape> {
    if ticks == 0 then Err(NotATimeBase) else Ok(ticks)
  }

  function NewExtent(start: I64, end: I64): Result<Extent, Escape> {
    if end <= start then Err(NotAnExtent) else Ok(Stretch(start, end))
  }

  predicate Contains(extent: Extent, instant: I64) {
    extent.start <= instant < extent.end
  }

  predicate Overlaps(one: Extent, other: Extent) {
    one.start < other.end && other.start < one.end
  }

  predicate Touches(span: Span, extent: Extent) {
    match span
    case At(instant) => Contains(extent, instant)
    case Between(own) => Overlaps(own, extent)
  }

  /** The ticks a span sits on. */
  predicate SitsOn(span: Span, tick: I64) {
    match span
    case At(instant) => tick == instant
    case Between(own) => own.start <= tick < own.end
  }

  /** The two comparisons of `overlaps` mean what they are for: a span touches a
      stretch exactly when some tick belongs to both, the start of a stretch
      belonging to it and the end not. */
  lemma {:induction false} TouchesSharesATick(span: Span, extent: Extent)
    ensures Touches(span, extent) <==> exists tick: I64 :: SitsOn(span, tick) && extent.start <= tick < extent.end
  {
    if Touches(span, extent) {
      match span
      case At(instant) => assert SitsOn(span, instant);
      case Between(own) =>
        var tick := if own.start < extent.start then extent.start else own.start;
        assert SitsOn(span, tick) && extent.start <= tick < extent.end;
    }
  }

  // ---- the claim -----------------------------------------------------------

  datatype Arrangement = Arrangement(canvas: U64, base: Base, selection: Selection, placed: seq<Placement>)

  predicate Distinct(placed: seq<Placement>) {
    forall i, j | 0 <= i < j < |placed| :: placed[i].occupant != placed[j].occupant
  }

  /** What the builder can build. */
  predicate Built(a: Arrangement) {
    |a.placed| <= PLACED_MAX && Distinct(a.placed)
  }

  function Declaring(canvas: U64, base: Base, selection: Selection): (a: Arrangement)
    ensures Built(a)
  {
    Arrangement(canvas, base, selection, [])
  }

  predicate Places(placed: seq<Placement>, node: U64) {
    exists i | 0 <= i < |placed| :: placed[i].occupant == node
  }

  function WithPlacement(a: Arrangement, p: Placement): (r: Result<Arrangement, Escape>)
    ensures Built(a) && r.Ok? ==> Built(r.value)
  {
    if |a.placed| >= PLACED_MAX then Err(TooManyPlacements)
    else if Places(a.placed, p.occupant) then Err(PlacedTwice(p.occupant))
    else Ok(a.(placed := a.placed + [p]))
  }

  /** The builder's scan. */
  method ScanAndPlace(a: Arrangement, p: Placement) returns (r: Result<Arrangement, Escape>)
    ensures r == WithPlacement(a, p)
  {
    if |a.placed| >= PLACED_MAX { return Err(TooManyPlacements); }
    var at := 0;
    while at < |a.placed|
      invariant 0 <= at <= |a.placed|
      invariant forall i | 0 <= i < at :: a.placed[i].occupant != p.occupant
    {
      if a.placed[at].occupant == p.occupant { return Err(PlacedTwice(p.occupant)); }
      at := at + 1;
    }
    return Ok(a.(placed := a.placed + [p]));
  }

  // ---- the receiving tree --------------------------------------------------

  datatype Kind = Clip | Marker
  datatype Occupant = Occupant(node: U64, kind: Kind, lane: U64)
  datatype Census = NotACanvasHere | UnplaceableHere(node: U64) | Crowded | Occupies(count: nat)

  const UNDECLARED := Occupant(NO_NODE, Marker, NO_NODE)

  type Buffer = s: seq<Occupant> | |s| == PLACED_MAX witness seq(PLACED_MAX, _ => UNDECLARED)

  /** A census: what it says, and the whole buffer as it left it. */
  datatype Report = Report(says: Census, into: Buffer)

  /** The tree a receiver presents, as two pure functions of their arguments. */
  datatype Presented = Presented(census: U64 -> Report, laneOf: (U64, U64) -> bool)

  // ---- the floor -----------------------------------------------------------

  datatype Participation = Participation(arrangement: Arrangement, held: seq<Occupant>)

  function Declared(canvas: U64, tree: Presented): (r: Result<seq<Occupant>, Escape>)
  {
    var report := tree.census(canvas);
    match report.says
    case NotACanvasHere => Err(NotACanvas(canvas))
    case UnplaceableHere(node) => Err(Unplaceable(node))
    case Crowded => Err(TooManyPlacements)
    case Occupies(count) =>
      if count > PLACED_MAX then Err(TooManyPlacements) else Ok(report.into[..count])
  }

  /** The first occupant of that node. */
  function Find(occupants: seq<Occupant>, node: U64): (r: Option<Occupant>)
    ensures r.Some? ==> r.value in occupants && r.value.node == node
    ensures r.None? <==> forall i | 0 <= i < |occupants| :: occupants[i].node != node
  {
    if occupants == [] then None
    else if occupants[0].node == node then Some(occupants[0])
    else Find(occupants[1..], node)
  }

  predicate Agrees(kind: Kind, span: Span) {
    kind.Clip? <==> span.Between?
  }

  function Judged(p: Placement, occupants: seq<Occupant>): Option<Escape> {
    match Find(occupants, p.occupant)
    case None => Some(NotAnOccupant(p.occupant))
    case Some(occupant) => if Agrees(occupant.kind, p.span) then None else Some(Mistimed(p.occupant))
  }

  function FirstMisplaced(placed: seq<Placement>, occupants: seq<Occupant>): (r: Option<Escape>)
    ensures r.None? <==> forall i | 0 <= i < |placed| :: Judged(placed[i], occupants).None?
  {
    if placed == [] then None
    else if Judged(placed[0], occupants).Some? then Judged(placed[0], occupants)
    else FirstMisplaced(placed[1..], occupants)
  }

  function FirstUnplaced(occupants: seq<Occupant>, placed: seq<Placement>): (r: Option<U64>)
    ensures r.None? <==> forall i | 0 <= i < |occupants| :: Places(placed, occupants[i].node)
    ensures r.Some? ==> !Places(placed, r.value) && Find(occupants, r.value).Some?
  {
    if occupants == [] then None
    else if !Places(placed, occupants[0].node) then Some(occupants[0].node)
    else FirstUnplaced(occupants[1..], placed)
  }

  function Admit(a: Arrangement, tree: Presented): Result<Participation, Escape> {
    match Declared(a.canvas, tree)
    case Err(escape) => Err(escape)
    case Ok(occupants) =>
      if a.selection.lane.Some? && !tree.laneOf(a.canvas, a.selection.lane.value) then
        Err(NotALane(a.selection.lane.value))
      else if FirstMisplaced(a.placed, occupants).Some? then
        Err(FirstMisplaced(a.placed, occupants).value)
      else if a.placed == [] then Err(NothingPlaced(a.canvas))
      else if FirstUnplaced(occupants, a.placed).Some? then
        Err(Unplaced(FirstUnplaced(occupants, a.placed).value))
      else Ok(Participation(a, occupants))
  }

  /** `admit` as the original runs it: three scans over two bounded lists. */
  method AdmitByScan(a: Arrangement, tree: Presented) returns (r: Result<Participation, Escape>)
    ensures r == Admit(a, tree)
  {
    var declared := Declared(a.canvas, tree);
    if declared.Err? { return Err(declared.error); }
    var occupants := declared.value;
    if a.selection.lane.Some? && !tree.laneOf(a.canvas, a.selection.lane.value) {
      return Err(NotALane(a.selection.lane.value));
    }
    var i := 0;
    while i < |a.placed|
      invariant 0 <= i <= |a.placed|
      invariant FirstMisplaced(a.placed, occupants) == FirstMisplaced(a.placed[i..], occupants)
    {
      var found := Find(occupants, a.placed[i].occupant);
      if found.None? { return Err(NotAnOccupant(a.placed[i].occupant)); }
      if !Agrees(found.value.kind, a.placed[i].span) { return Err(Mistimed(a.placed[i].occupant)); }
      i := i + 1;
    }
    if |a.placed| == 0 { return Err(NothingPlaced(a.canvas)); }
    i := 0;
    while i < |occupants|
      invariant 0 <= i <= |occupants|
      invariant FirstUnplaced(occupants, a.placed) == FirstUnplaced(occupants[i..], a.placed)
    {
      if !Places(a.placed, occupants[i].node) { return Err(Unplaced(occupants[i].node)); }
      i := i + 1;
    }
    return Ok(Participation(a, occupants));
  }

  function PlacedNodes(placed: seq<Placement>): set<U64> {
    set i | 0 <= i < |placed| :: placed[i].occupant
  }

  function Nodes(occupants: seq<Occupant>): set<U64> {
    set i | 0 <= i < |occupants| :: occupants[i].node
  }

  /** The tree's reading of a node: its first entry in the census. */
  ghost predicate Reads(occupants: seq<Occupant>, node: U64, kind: Kind, lane: U64) {
    exists i :: && 0 <= i < |occupants| && occupants[i] == Occupant(node, kind, lane)
                && forall j | 0 <= j < i :: occupants[j].node != node
  }

  ghost predicate KindAgrees(p: Placement, held: seq<Occupant>) {
    exists kind, lane :: Reads(held, p.occupant, kind, lane) && Agrees(kind, p.span)
  }

  /** The floor, said of a declaration and a tree without naming a scan: the tree
      holds the canvas, admits the lane, and the placed nodes are exactly the
      census nodes, each placed as the kind the tree reads it to be. */
  ghost predicate MeetsFloor(a: Arrangement, tree: Presented, held: seq<Occupant>) {
    && tree.census(a.canvas).says == Occupies(|held|)
    && |held| <= PLACED_MAX
    && held == tree.census(a.canvas).into[..|held|]
    && (a.selection.lane.Some? ==> tree.laneOf(a.canvas, a.selection.lane.value))
    && a.placed != []
    && PlacedNodes(a.placed) == Nodes(held)
    && forall i | 0 <= i < |a.placed| :: KindAgrees(a.placed[i], held)
  }

  lemma {:induction false} FindReads(occupants: seq<Occupant>, node: U64, kind: Kind, lane: U64)
    ensures Find(occupants, node) == Some(Occupant(node, kind, lane)) <==> Reads(occupants, node, kind, lane)
    decreases |occupants|
  {
    if occupants != [] {
      var rest := occupants[1..];
      FindReads(rest, node, kind, lane);
      if occupants[0].node == node {
        if Reads(occupants, node, kind, lane) {
          var i :| 0 <= i < |occupants| && occupants[i] == Occupant(node, kind, lane)
                   && forall j | 0 <= j < i :: occupants[j].node != node;
          assert i == 0;
        }
      } else {
        if Reads(rest, node, kind, lane) {
          var i :| 0 <= i < |rest| && rest[i] == Occupant(node, kind, lane)
                   && forall j | 0 <= j < i :: rest[j].node != node;
          assert occupants[i + 1] == rest[i];
          forall j | 0 <= j < i + 1 ensures occupants[j].node != node {
            assert j > 0 ==> occupants[j] == rest[j - 1];
          }
        }
        if Reads(occupants, node, kind, lane) {
          var i :| 0 <= i < |occupants| && occupants[i] == Occupant(node, kind, lane)
                   && forall j | 0 <= j < i :: occupants[j].node != node;
          assert rest[i - 1] == occupants[i];
          assert forall j | 0 <= j < i - 1 :: rest[j] == occupants[j + 1];
        }
      }
    }
  }

  lemma {:induction false} JudgedExactly(p: Placement, occupants: seq<Occupant>)
    ensures Judged(p, occupants).None? <==> KindAgrees(p, occupants)
  {
    var found := Find(occupants, p.occupant);
    if found.Some? {
      FindReads(occupants, p.occupant, found.value.kind, found.value.lane);
    }
    if KindAgrees(p, occupants) {
      var kind, lane :| Reads(occupants, p.occupant, kind, lane) && Agrees(kind, p.span);
      FindReads(occupants, p.occupant, kind, lane);
    }
  }

  /** `admit` answers a participation exactly when the floor is met, and then
      with this declaration and this census. */
  lemma {:induction false} AdmitExactly(a: Arrangement, tree: Presented, p: Participation)
    ensures Admit(a, tree) == Ok(p) <==> p.arrangement == a && MeetsFloor(a, tree, p.held)
  {
    forall q, held ensures Judged(q, held).None? <==> KindAgrees(q, held) { JudgedExactly(q, held); }
    if Admit(a, tree) == Ok(p) {
      forall node | node in PlacedNodes(a.placed) ensures node in Nodes(p.held) {
        var i :| 0 <= i < |a.placed| && a.placed[i].occupant == node;
        assert Judged(a.placed[i], p.held).None?;
        assert Find(p.held, node).Some?;
      }
      forall node | node in Nodes(p.held) ensures node in PlacedNodes(a.placed) {
        var i :| 0 <= i < |p.held| && p.held[i].node == node;
        assert Places(a.placed, p.held[i].node);
      }
    }
    if p.arrangement == a && MeetsFloor(a, tree, p.held) {
      forall i | 0 <= i < |p.held| ensures Places(a.placed, p.held[i].node) {
        assert p.held[i].node in Nodes(p.held);
        assert p.held[i].node in PlacedNodes(a.placed);
      }
    }
  }

  /** Everything about the canvas itself passes: the tree holds it, with these
      occupants and no more than fit, and admits its lane. */
  ghost predicate CanvasPasses(a: Arrangement, tree: Presented, held: seq<Occupant>) {
    && tree.census(a.canvas).says == Occupies(|held|)
    && |held| <= 64
    && held == tree.census(a.canvas).into[..|held|]
    && (a.selection.lane.Some? ==> tree.laneOf(a.canvas, a.selection.lane.value))
  }

  /** What is wrong with the canvas, refused under its own name and exactly then,
      off the tree alone. */
  lemma {:induction false} CanvasRefusals(a: Arrangement, tree: Presented, node: U64)
    ensures var says := tree.census(a.canvas).says;
            && (Admit(a, tree) == Err(NotACanvas(node)) <==> node == a.canvas && says == NotACanvasHere)
            && (Admit(a, tree) == Err(Unplaceable(node)) <==> says == UnplaceableHere(node))
            && (Admit(a, tree) == Err(TooManyPlacements) <==> says == Crowded || (says.Occupies? && says.count > 64))
            && (Admit(a, tree) == Err(NotALane(node)) <==>
                  && says.Occupies? && says.count <= 64
                  && a.selection.lane == Some(node) && !tree.laneOf(a.canvas, node))
  {
    if Declared(a.canvas, tree).Ok? { MisplacedIsNoFloorHalf(a.placed, Declared(a.canvas, tree).value); }
  }

  lemma {:induction false} CanvasPassesExactly(a: Arrangement, tree: Presented, held: seq<Occupant>)
    ensures CanvasPasses(a, tree, held) <==>
            && Declared(a.canvas, tree) == Ok(held)
            && (a.selection.lane.Some? ==> tree.laneOf(a.canvas, a.selection.lane.value))
  {
  }

  /** The first placement that is not as the tree reads its node is this one. */
  ghost predicate FirstWrong(placed: seq<Placement>, held: seq<Occupant>, k: int, node: U64) {
    && 0 <= k < |placed| && placed[k].occupant == node && !KindAgrees(placed[k], held)
    && forall j | 0 <= j < k :: KindAgrees(placed[j], held)
  }

  lemma {:induction false} FirstMisplacedIsFirst(placed: seq<Placement>, held: seq<Occupant>, node: U64)
    ensures FirstMisplaced(placed, held) == Some(NotAnOccupant(node)) <==>
            node !in Nodes(held) && exists k :: FirstWrong(placed, held, k, node)
    ensures FirstMisplaced(placed, held) == Some(Mistimed(node)) <==>
            node in Nodes(held) && exists k :: FirstWrong(placed, held, k, node)
    decreases |placed|
  {
    if placed != [] {
      var rest := placed[1..];
      JudgedExactly(placed[0], held);
      FoundIsHeld(placed[0], held);
      FirstMisplacedIsFirst(rest, held, node);
      FirstWrongShifts(placed, held, node);
    }
  }

  lemma {:induction false} FoundIsHeld(p: Placement, held: seq<Occupant>)
    ensures Judged(p, held) == Some(NotAnOccupant(p.occupant)) <==> p.occupant !in Nodes(held)
    ensures Judged(p, held) == Some(Mistimed(p.occupant)) <==> p.occupant in Nodes(held) && !KindAgrees(p, held)
  {
    JudgedExactly(p, held);
    if p.occupant in Nodes(held) {
      var i :| 0 <= i < |held| && held[i].node == p.occupant;
      assert Find(held, p.occupant).Some?;
    }
  }

  lemma {:induction false} FirstWrongShifts(placed: seq<Placement>, held: seq<Occupant>, node: U64)
    requires placed != []
    ensures (exists k :: FirstWrong(placed, held, k, node)) <==>
            if KindAgrees(placed[0], held) then exists k :: FirstWrong(placed[1..], held, k, node)
            else placed[0].occupant == node
  {
    var rest := placed[1..];
    if k :| FirstWrong(placed, held, k, node) {
      if k > 0 {
        assert forall j | 0 <= j < k - 1 :: rest[j] == placed[j + 1];
        assert FirstWrong(rest, held, k - 1, node);
      }
    }
    if KindAgrees(placed[0], held) {
      if k :| FirstWrong(rest, held, k, node) {
        assert forall j | 1 <= j < k + 1 :: placed[j] == rest[j - 1];
        assert FirstWrong(placed, held, k + 1, node);
      }
    } else if placed[0].occupant == node {
      assert FirstWrong(placed, held, 0, node);
    }
  }

  /** What is wrong with a placement, exactly: the first that is wrong at all is
      refused as a stranger if the tree holds no such node, and otherwise as placed
      in the other kind's shape. */
  lemma {:induction false} PlacementRefusals(a: Arrangement, tree: Presented, node: U64)
    ensures Admit(a, tree) == Err(NotAnOccupant(node)) <==>
            exists held, k :: CanvasPasses(a, tree, held) && FirstWrong(a.placed, held, k, node) && node !in Nodes(held)
    ensures Admit(a, tree) == Err(Mistimed(node)) <==>
            exists held, k :: CanvasPasses(a, tree, held) && FirstWrong(a.placed, held, k, node) && node in Nodes(held)
  {
    forall held ensures CanvasPasses(a, tree, held) <==>
                        && Declared(a.canvas, tree) == Ok(held)
                        && (a.selection.lane.Some? ==> tree.laneOf(a.canvas, a.selection.lane.value))
    {
      CanvasPassesExactly(a, tree, held);
    }
    if Declared(a.canvas, tree).Ok? {
      FirstMisplacedIsFirst(a.placed, Declared(a.canvas, tree).value, node);
    }
  }

  /** The two halves of the floor, each refused under its own name: a canvas
      that placed nothing, and one that left out an occupant the tree holds —
      the earliest in the tree's own order. */
  lemma {:induction false} FloorRefusals(a: Arrangement, tree: Presented, node: U64)
    ensures Admit(a, tree) == Err(NothingPlaced(node)) <==>
            node == a.canvas && a.placed == [] && exists held :: CanvasPasses(a, tree, held)
    ensures Admit(a, tree) == Err(Unplaced(node)) <==>
            exists held, k ::
              && CanvasPasses(a, tree, held) && a.placed != []
              && (forall i | 0 <= i < |a.placed| :: KindAgrees(a.placed[i], held))
              && FirstLeftOut(held, a.placed, k, node)
  {
    forall q, held ensures Judged(q, held).None? <==> KindAgrees(q, held) { JudgedExactly(q, held); }
    forall held ensures CanvasPasses(a, tree, held) <==>
                        && Declared(a.canvas, tree) == Ok(held)
                        && (a.selection.lane.Some? ==> tree.laneOf(a.canvas, a.selection.lane.value))
    {
      CanvasPassesExactly(a, tree, held);
    }
    if Declared(a.canvas, tree).Ok? {
      var held := Declared(a.canvas, tree).value;
      MisplacedIsNoFloorHalf(a.placed, held);
      FirstUnplacedIsFirst(held, a.placed, node);
    }
  }

  lemma {:induction false} MisplacedIsNoFloorHalf(placed: seq<Placement>, held: seq<Occupant>)
    ensures var r := FirstMisplaced(placed, held);
            r.Some? ==> r.value.NotAnOccupant? || r.value.Mistimed?
    decreases |placed|
  {
    if placed != [] { MisplacedIsNoFloorHalf(placed[1..], held); }
  }

  lemma {:induction false} PlacesIsMembership(placed: seq<Placement>, node: U64)
    ensures Places(placed, node) <==> node in PlacedNodes(placed)
  {
  }

  /** The earliest occupant of the census that no placement names is this one. */
  ghost predicate FirstLeftOut(held: seq<Occupant>, placed: seq<Placement>, k: int, node: U64) {
    && 0 <= k < |held| && held[k].node == node && node !in PlacedNodes(placed)
    && forall j | 0 <= j < k :: held[j].node in PlacedNodes(placed)
  }

  lemma {:induction false} FirstUnplacedIsFirst(held: seq<Occupant>, placed: seq<Placement>, node: U64)
    ensures FirstUnplaced(held, placed) == Some(node) <==> exists k :: FirstLeftOut(held, placed, k, node)
    decreases |held|
  {
    if held != [] {
      var rest := held[1..];
      PlacesIsMembership(placed, held[0].node);
      FirstUnplacedIsFirst(rest, placed, node);
      if k :| FirstLeftOut(held, placed, k, node) {
        if k > 0 {
          assert held[0].node in PlacedNodes(placed);
          assert forall j | 0 <= j < k - 1 :: rest[j] == held[j + 1];
          assert FirstLeftOut(rest, placed, k - 1, node);
        }
      }
      if held[0].node in PlacedNodes(placed) {
        if k :| FirstLeftOut(rest, placed, k, node) {
          assert forall j | 1 <= j < k + 1 :: held[j] == rest[j - 1];
          assert FirstLeftOut(held, placed, k + 1, node);
        }
      } else if held[0].node == node {
        assert FirstLeftOut(held, placed, 0, node);
      }
    }
  }

  // ---- the questions a participation answers -------------------------------

  function PlacementOf(p: Participation, node: U64): Option<Placement> {
    FirstPlacement(p.arrangement.placed, node)
  }

  function FirstPlacement(placed: seq<Placement>, node: U64): (r: Option<Placement>)
    ensures r.Some? ==> r.value in placed && r.value.occupant == node
    ensures r.None? <==> node !in PlacedNodes(placed)
  {
    if placed == [] then None
    else if placed[0].occupant == node then Some(placed[0])
    else
      assert forall i | 1 <= i < |placed| :: placed[i] == placed[1..][i - 1];
      FirstPlacement(placed[1..], node)
  }

  function LaneOf(p: Participation, node: U64): Result<Option<U64>, Escape> {
    match Find(p.held, node)
    case None => Err(NotAnOccupant(node))
    case Some(occupant) => Ok(if occupant.lane == NO_NODE then None else Some(occupant.lane))
  }

  predicate WithinSelection(p: Participation, placement: Placement) {
    var selection := p.arrangement.selection;
    && selection.span.Some?
    && Touches(placement.span, selection.span.value)
    && (selection.lane.Some? ==> LaneOf(p, placement.occupant) == Ok(Some(selection.lane.value)))
  }

  function SelectedOf(p: Participation, placed: seq<Placement>): seq<U64> {
    if placed == [] then []
    else (if WithinSelection(p, placed[0]) then [placed[0].occupant] else []) + SelectedOf(p, placed[1..])
  }

  function Selected(p: Participation): seq<U64> { SelectedOf(p, p.arrangement.placed) }

  /** Past the floor the two unanswerable cases are gone: a node is placed
      exactly when the tree holds it, and exactly then it has a lane answer; a
      declared canvas is never empty on either side. */
  lemma {:induction false} ParticipationAnswers(a: Arrangement, tree: Presented, node: U64)
    requires Admit(a, tree).Ok?
    ensures var p := Admit(a, tree).value;
            && |p.held| > 0 && |p.arrangement.placed| > 0
            && (PlacementOf(p, node).Some? <==> node in Nodes(p.held))
            && (PlacementOf(p, node).Some? ==>
                  PlacementOf(p, node).value in a.placed && PlacementOf(p, node).value.occupant == node)
            && (LaneOf(p, node) == Err(NotAnOccupant(node)) <==> node !in Nodes(p.held))
            && (forall lane :: LaneOf(p, node) == Ok(Some(lane)) <==>
                               lane != NO_NODE && exists kind :: Reads(p.held, node, kind, lane))
            && (LaneOf(p, node) == Ok(None) <==> exists kind :: Reads(p.held, node, kind, NO_NODE))
  {
    var p := Admit(a, tree).value;
    AdmitExactly(a, tree, p);
    assert a.placed[0].occupant in PlacedNodes(a.placed);
    assert a.placed[0].occupant in Nodes(p.held);
    forall kind, lane
      ensures Find(p.held, node) == Some(Occupant(node, kind, lane)) <==> Reads(p.held, node, kind, lane)
    {
      FindReads(p.held, node, kind, lane);
    }
    LaneIsRead(p, node);
  }

  lemma {:induction false} LaneIsRead(p: Participation, node: U64)
    requires forall kind, lane ::
               Find(p.held, node) == Some(Occupant(node, kind, lane)) <==> Reads(p.held, node, kind, lane)
    ensures forall lane :: LaneOf(p, node) == Ok(Some(lane)) <==>
                           lane != NO_NODE && exists kind :: Reads(p.held, node, kind, lane)
    ensures LaneOf(p, node) == Ok(None) <==> exists kind :: Reads(p.held, node, kind, NO_NODE)
  {
    var found := Find(p.held, node);
    if found.Some? {
      assert found == Some(Occupant(node, found.value.kind, found.value.lane));
      assert Reads(p.held, node, found.value.kind, found.value.lane);
    }
  }

  ghost predicate InArrivalOrder(nodes: seq<U64>, placed: seq<Placement>) {
    forall i, j, k, l | && 0 <= i < j < |nodes| && 0 <= k < |placed| && 0 <= l < |placed|
                        && nodes[i] == placed[k].occupant && nodes[j] == placed[l].occupant :: k < l
  }

  /** A selection answers with exactly the placed occupants that share a tick
      with the stretch and, when confined, sit on that lane by the tree's own
      reading — each once, in arrival order. */
  lemma {:induction false} SelectedExactly(p: Participation, node: U64)
    requires Distinct(p.arrangement.placed)
    ensures node in Selected(p) <==>
            exists i, extent ::
              && 0 <= i < |p.arrangement.placed| && p.arrangement.placed[i].occupant == node
              && p.arrangement.selection.span == Some(extent)
              && (exists tick: I64 :: SitsOn(p.arrangement.placed[i].span, tick) && extent.start <= tick < extent.end)
              && forall lane | p.arrangement.selection.lane == Some(lane) ::
                   lane != NO_NODE && exists kind :: Reads(p.held, node, kind, lane)
    ensures InArrivalOrder(Selected(p), p.arrangement.placed)
  {
    SelectedIsAFilter(p, p.arrangement.placed);
    SelectedInOrder(p, p.arrangement.placed);
    forall q: Placement
      ensures WithinSelection(p, q) <==>
              exists extent ::
                && p.arrangement.selection.span == Some(extent)
                && (exists tick: I64 :: SitsOn(q.span, tick) && extent.start <= tick < extent.end)
                && forall lane | p.arrangement.selection.lane == Some(lane) ::
                     lane != NO_NODE && exists kind :: Reads(p.held, q.occupant, kind, lane)
    {
      WithinSelectionMeans(p, q);
    }
  }

  lemma {:induction false} WithinSelectionMeans(p: Participation, q: Placement)
    ensures WithinSelection(p, q) <==>
            exists extent ::
              && p.arrangement.selection.span == Some(extent)
              && (exists tick: I64 :: SitsOn(q.span, tick) && extent.start <= tick < extent.end)
              && forall lane | p.arrangement.selection.lane == Some(lane) ::
                   lane != NO_NODE && exists kind :: Reads(p.held, q.occupant, kind, lane)
  {
    var selection := p.arrangement.selection;
    if selection.span.Some? {
      TouchesSharesATick(q.span, selection.span.value);
    }
    if selection.lane.Some? {
      var found := Find(p.held, q.occupant);
      if LaneOf(p, q.occupant) == Ok(Some(selection.lane.value)) {
        FindReads(p.held, q.occupant, found.value.kind, selection.lane.value);
      }
      if exists kind :: Reads(p.held, q.occupant, kind, selection.lane.value) {
        var kind :| Reads(p.held, q.occupant, kind, selection.lane.value);
        FindReads(p.held, q.occupant, kind, selection.lane.value);
      }
    }
  }

  lemma {:induction false} SelectedIsAFilter(p: Participation, placed: seq<Placement>)
    ensures forall node ::
              node in SelectedOf(p, placed) <==>
              exists i :: 0 <= i < |placed| && placed[i].occupant == node && WithinSelection(p, placed[i])
    decreases |placed|
  {
    if placed != [] {
      var rest := placed[1..];
      SelectedIsAFilter(p, rest);
      forall node
        ensures node in SelectedOf(p, placed) <==>
                exists i :: 0 <= i < |placed| && placed[i].occupant == node && WithinSelection(p, placed[i])
      {
        if node in SelectedOf(p, rest) {
          var i :| 0 <= i < |rest| && rest[i].occupant == node && WithinSelection(p, rest[i]);
          assert placed[i + 1] == rest[i];
        }
        if i :| 0 <= i < |placed| && placed[i].occupant == node && WithinSelection(p, placed[i]) {
          if i > 0 { assert rest[i - 1] == placed[i]; }
        }
      }
    }
  }

  lemma {:induction false} SelectedInOrder(p: Participation, placed: seq<Placement>)
    requires Distinct(placed)
    ensures InArrivalOrder(SelectedOf(p, placed), placed)
    decreases |placed|
  {
    if placed != [] {
      var rest := placed[1..];
      var tail := SelectedOf(p, rest);
      SelectedInOrder(p, rest);
      assert placed[0].occupant !in tail by {
        SelectedIsAFilter(p, rest);
        assert forall i | 0 <= i < |rest| :: rest[i] == placed[i + 1];
      }
      InOrderOnwards(tail, placed);
      if WithinSelection(p, placed[0]) {
        assert SelectedOf(p, placed) == [placed[0].occupant] + tail;
      }
    }
  }

  lemma {:induction false} InOrderOnwards(tail: seq<U64>, placed: seq<Placement>)
    requires placed != [] && Distinct(placed)
    requires InArrivalOrder(tail, placed[1..]) && placed[0].occupant !in tail
    ensures InArrivalOrder(tail, placed)
    ensures InArrivalOrder([placed[0].occupant] + tail, placed)
  {
    var rest := placed[1..];
    var nodes := [placed[0].occupant] + tail;
    forall i, j, k, l | && 0 <= i < j < |tail| && 0 <= k < |placed| && 0 <= l < |placed|
                        && tail[i] == placed[k].occupant && tail[j] == placed[l].occupant
      ensures k < l
    {
      assert placed[k] == rest[k - 1] && placed[l] == rest[l - 1];
    }
    forall i, j, k, l | && 0 <= i < j < |nodes| && 0 <= k < |placed| && 0 <= l < |placed|
                        && nodes[i] == placed[k].occupant && nodes[j] == placed[l].occupant
      ensures k < l
    {
      assert nodes[j] == tail[j - 1];
      if i > 0 { assert nodes[i] == tail[i - 1]; }
    }
  }
}
