/** The judgements a manifest's lists have to pass, and what passing them buys:
    one spelling for each declaration, one tree for each component. */
module Manifest {
  import opened Wire
  import opened Bits

  datatype Refusal = Count | Name | Value | Order | Quantity | ReservedByte | NotUnderThisPolicy

  const NAME_MAX: nat := 32
  const DEVICES_MAX: nat := 4
  const STATE_NODES_MAX: nat := 16
  const NODE_NAME_BYTES: nat := 16
  const HASH_BYTES: nat := 32

  // ---- a strictly ordered list is spelled one way --------------------------

  ghost predicate Ascends<T(!new)>(list: seq<T>, less: (T, T) -> bool) {
    forall i, j | 0 <= i < j < |list| :: less(list[i], list[j])
  }

  ghost predicate StrictOrder<T(!new)>(less: (T, T) -> bool) {
    && (forall x :: !less(x, x))
    && (forall x, y, z :: less(x, y) && less(y, z) ==> less(x, z))
  }

  /** Two strictly ascending lists of the same things are the same list. */
  lemma {:induction false} OneSpelling<T(!new)>(one: seq<T>, other: seq<T>, less: (T, T) -> bool)
    requires StrictOrder(less) && Ascends(one, less) && Ascends(other, less)
    requires forall x :: x in one <==> x in other
    ensures one == other
    decreases |one|
  {
    assert one == [] <==> other == [] by {
      if other != [] { assert other[0] in one; }
      if one != [] { assert one[0] in other; }
    }
    if one != [] {
      var x, y := one[0], other[0];
      assert x in other && y in one;
      var i :| 0 <= i < |other| && other[i] == x;
      var j :| 0 <= j < |one| && one[j] == y;
      assert i > 0 ==> less(y, x);
      assert j > 0 ==> less(x, y);
      assert x == y;
      forall z ensures z in one[1..] <==> z in other[1..] {
        TailMembers(one, less, z);
        TailMembers(other, less, z);
      }
      OneSpelling(one[1..], other[1..], less);
      assert one == [x] + one[1..] && other == [y] + other[1..];
    }
  }

  lemma {:induction false} TailMembers<T(!new)>(list: seq<T>, less: (T, T) -> bool, z: T)
    requires StrictOrder(less) && Ascends(list, less) && list != []
    ensures z in list[1..] <==> z in list && z != list[0]
  {
    if z in list[1..] {
      var i :| 0 <= i < |list[1..]| && list[1..][i] == z;
      assert list[i + 1] == z;
    }
    if z in list && z != list[0] {
      var i :| 0 <= i < |list| && list[i] == z;
      assert list[1..][i - 1] == z;
    }
  }

  // ---- a list is refused for its first fault -------------------------------

  /** The first refusal among the judgements of a list, from `i` on. */
  function FirstRefusal(judged: seq<Option<Refusal>>, i: nat): Option<Refusal>
    requires i <= |judged|
    decreases |judged| - i
  {
    if i == |judged| then None else if judged[i].Some? then judged[i] else FirstRefusal(judged, i + 1)
  }

  ghost predicate FirstAt(judged: seq<Option<Refusal>>, i: int, k: int, refusal: Refusal) {
    0 <= i <= k < |judged| && judged[k] == Some(refusal) && forall j | i <= j < k :: judged[j] == None
  }

  lemma {:induction false} FirstRefusalIs(judged: seq<Option<Refusal>>, i: nat, refusal: Refusal)
    requires i <= |judged|
    ensures FirstRefusal(judged, i).None? <==> forall k | i <= k < |judged| :: judged[k] == None
    ensures FirstRefusal(judged, i) == Some(refusal) <==> exists k :: FirstAt(judged, i, k, refusal)
    decreases |judged| - i
  {
    if i < |judged| {
      var next := i + 1;
      FirstRefusalIs(judged, next, refusal);
      if judged[i].None? {
        if k :| FirstAt(judged, next, k, refusal) { assert FirstAt(judged, i, k, refusal); }
        if k :| FirstAt(judged, i, k, refusal) { assert FirstAt(judged, next, k, refusal); }
      } else if judged[i] == Some(refusal) {
        assert FirstAt(judged, i, i, refusal);
      }
    }
  }

  // ---- device bindings -----------------------------------------------------

  datatype Binding = Binding(vendor: U16, device: U16)

  const NO_BINDING := Binding(0, 0)
  const NO_VENDOR: U16 := 0xFFFF

  predicate BindingLess(a: Binding, b: Binding) {
    a.vendor < b.vendor || (a.vendor == b.vendor && a.device < b.device)
  }

  type Bindings = b: seq<Binding> | |b| == DEVICES_MAX witness seq(DEVICES_MAX, _ => NO_BINDING)

  /** The judgement of one slot, given the one before it. */
  function JudgeBinding(binding: Bindings, devices: Byte, i: nat): Option<Refusal>
    requires i < |binding|
  {
    if i >= devices then if binding[i] != NO_BINDING then Some(Count) else None
    else if binding[i].vendor == 0 || binding[i].device == 0 || binding[i].vendor == NO_VENDOR then Some(Value)
    else if i > 0 && !BindingLess(binding[i - 1], binding[i]) then Some(Order)
    else None
  }

  /** The first refusal from slot `i` on. */
  function BindingsFrom(binding: Bindings, devices: Byte, i: nat): (r: Option<Refusal>)
    requires i <= |binding|
    ensures r.None? <==> forall k | i <= k < |binding| :: JudgeBinding(binding, devices, k).None?
    decreases |binding| - i
  {
    if i == |binding| then None
    else if JudgeBinding(binding, devices, i).Some? then JudgeBinding(binding, devices, i)
    else BindingsFrom(binding, devices, i + 1)
  }

  method CheckBindings(binding: Bindings, devices: Byte) returns (r: Option<Refusal>)
    ensures r == BindingsFrom(binding, devices, 0)
  {
    var previous: Option<Binding> := None;
    for i := 0 to |binding|
      invariant BindingsFrom(binding, devices, 0) == BindingsFrom(binding, devices, i)
      invariant i <= devices ==> previous == if i == 0 then None else Some(binding[i - 1])
    {
      if i >= devices {
        if binding[i] != NO_BINDING { return Some(Count); }
      } else {
        if binding[i].vendor == 0 || binding[i].device == 0 || binding[i].vendor == NO_VENDOR {
          return Some(Value);
        }
        if previous.Some? && !BindingLess(previous.value, binding[i]) { return Some(Order); }
        previous := Some(binding[i]);
      }
    }
    return None;
  }

  function DeclaredBindings(binding: Bindings, devices: Byte): seq<Binding> {
    if devices <= |binding| then binding[..devices] else binding
  }

  lemma {:induction false} AdjacentAscends(list: seq<Binding>)
    requires forall i | 1 <= i < |list| :: BindingLess(list[i - 1], list[i])
    ensures Ascends(list, BindingLess)
    decreases |list|
  {
    if list != [] {
      var n := |list| - 1;
      AdjacentAscends(list[..n]);
      forall i, j | 0 <= i < j < |list| ensures BindingLess(list[i], list[j]) {
        if j < n {
          assert list[..n][i] == list[i] && list[..n][j] == list[j];
        } else if i < n - 1 {
          assert BindingLess(list[..n][i], list[..n][n - 1]);
        }
      }
    }
  }

  /** A part as one number, the vendor above the device. */
  function PartNumber(b: Binding): nat { 0x1_0000 * b.vendor + b.device }

  lemma {:induction false} PartsAreNumbered(a: Binding, b: Binding)
    ensures BindingLess(a, b) <==> PartNumber(a) < PartNumber(b)
  {
  }

  /** Real parts in strict order of their numbers, and nothing past the count. */
  ghost predicate CanonicalBindings(binding: Bindings, devices: Byte) {
    && (forall i | 0 <= i < 4 && i < devices ::
          binding[i].vendor != 0 && binding[i].device != 0 && binding[i].vendor != 0xFFFF)
    && (forall i, j | 0 <= i < j < 4 && j < devices :: PartNumber(binding[i]) < PartNumber(binding[j]))
    && forall i | devices <= i < 4 :: binding[i] == Binding(0, 0)
  }

  lemma {:induction false} AcceptedAscends(binding: Bindings, devices: Byte)
    requires BindingsFrom(binding, devices, 0).None?
    ensures Ascends(DeclaredBindings(binding, devices), BindingLess)
  {
    var declared := DeclaredBindings(binding, devices);
    forall i | 1 <= i < |declared| ensures BindingLess(declared[i - 1], declared[i]) {
      assert JudgeBinding(binding, devices, i).None?;
    }
    AdjacentAscends(declared);
  }

  /** Accepted is exactly canonical. */
  lemma {:induction false} AcceptedBindings(binding: Bindings, devices: Byte)
    ensures BindingsFrom(binding, devices, 0).None? <==> CanonicalBindings(binding, devices)
  {
    forall a, b ensures BindingLess(a, b) <==> PartNumber(a) < PartNumber(b) { PartsAreNumbered(a, b); }
    if BindingsFrom(binding, devices, 0).None? {
      AcceptedAscends(binding, devices);
      var declared := DeclaredBindings(binding, devices);
      forall i | 0 <= i < |binding| ensures JudgeBinding(binding, devices, i).None? {}
      forall i, j | 0 <= i < j < 4 && j < devices ensures PartNumber(binding[i]) < PartNumber(binding[j]) {
        assert BindingLess(declared[i], declared[j]);
      }
      forall i | 0 <= i < 4 && i < devices
        ensures binding[i].vendor != 0 && binding[i].device != 0 && binding[i].vendor != 0xFFFF
      {
        assert JudgeBinding(binding, devices, i).None?;
      }
      forall i | devices <= i < 4 ensures binding[i] == Binding(0, 0) {
        assert JudgeBinding(binding, devices, i).None?;
      }
    }
    if CanonicalBindings(binding, devices) {
      forall i | 0 <= i < |binding| ensures JudgeBinding(binding, devices, i).None? {
        if 0 < i < devices { assert PartNumber(binding[i - 1]) < PartNumber(binding[i]); }
      }
    }
  }

  function BindingJudgements(binding: Bindings, devices: Byte): (judged: seq<Option<Refusal>>)
    ensures |judged| == |binding|
  {
    seq(|binding|, i requires 0 <= i < |binding| => JudgeBinding(binding, devices, i))
  }

  lemma {:induction false} BindingsFromIs(binding: Bindings, devices: Byte, i: nat)
    requires i <= |binding|
    ensures BindingsFrom(binding, devices, i) == FirstRefusal(BindingJudgements(binding, devices), i)
    decreases |binding| - i
  {
    if i < |binding| { BindingsFromIs(binding, devices, i + 1); }
  }

  /** The first wrong slot is this one, and wrong in this way. */
  ghost predicate FirstBindingWrong(binding: Bindings, devices: Byte, k: int, refusal: Refusal) {
    && 0 <= k < |binding| && BindingWrong(binding, devices, k, refusal)
    && forall j | 0 <= j < k :: BindingRight(binding, devices, j)
  }

  lemma {:induction false} FirstBindingAt(binding: Bindings, devices: Byte, k: int, refusal: Refusal)
    ensures FirstAt(BindingJudgements(binding, devices), 0, k, refusal) <==>
            FirstBindingWrong(binding, devices, k, refusal)
  {
    forall j: nat | j < |binding|
      ensures BindingJudgements(binding, devices)[j] == None <==> BindingRight(binding, devices, j)
      ensures BindingJudgements(binding, devices)[j] == Some(refusal) <==> BindingWrong(binding, devices, j, refusal)
    {
      BindingJudged(binding, devices, j);
    }
  }

  /** A refusal is of the first slot that is wrong, and says how: a slot filled past
      the count, a part that is none, or one out of order. */
  lemma {:induction false} RefusedBindings(binding: Bindings, devices: Byte, refusal: Refusal)
    ensures BindingsFrom(binding, devices, 0) == Some(refusal) <==>
            exists k :: FirstBindingWrong(binding, devices, k, refusal)
  {
    BindingsFromIs(binding, devices, 0);
    FirstRefusalIs(BindingJudgements(binding, devices), 0, refusal);
    forall k ensures FirstAt(BindingJudgements(binding, devices), 0, k, refusal)
                     <==> FirstBindingWrong(binding, devices, k, refusal) {
      FirstBindingAt(binding, devices, k, refusal);
    }
  }

  predicate BindingRight(binding: Bindings, devices: Byte, k: int)
    requires 0 <= k < |binding|
  {
    if k >= devices then binding[k] == Binding(0, 0)
    else
      && binding[k].vendor != 0 && binding[k].device != 0 && binding[k].vendor != 0xFFFF
      && (k > 0 ==> PartNumber(binding[k - 1]) < PartNumber(binding[k]))
  }

  predicate BindingWrong(binding: Bindings, devices: Byte, k: int, refusal: Refusal)
    requires 0 <= k < |binding|
  {
    var genuine := binding[k].vendor != 0 && binding[k].device != 0 && binding[k].vendor != 0xFFFF;
    match refusal
    case Count => k >= devices && binding[k] != Binding(0, 0)
    case Value => k < devices && !genuine
    case Order => 0 < k < devices && genuine && PartNumber(binding[k]) <= PartNumber(binding[k - 1])
    case _ => false
  }

  lemma {:induction false} BindingJudged(binding: Bindings, devices: Byte, k: nat)
    requires k < |binding|
    ensures JudgeBinding(binding, devices, k).None? <==> BindingRight(binding, devices, k)
    ensures forall refusal ::
              JudgeBinding(binding, devices, k) == Some(refusal) <==> BindingWrong(binding, devices, k, refusal)
  {
    if k > 0 { PartsAreNumbered(binding[k - 1], binding[k]); }
  }

  /** Two accepted tables that declare the same parts are the same bytes. */
  lemma {:induction false} BindingsHaveOneSpelling(one: Bindings, m: Byte, other: Bindings, n: Byte)
    requires BindingsFrom(one, m, 0).None? && BindingsFrom(other, n, 0).None?
    requires forall b :: b in DeclaredBindings(one, m) <==> b in DeclaredBindings(other, n)
    ensures one == other
    ensures m <= DEVICES_MAX && n <= DEVICES_MAX ==> m == n
  {
    AcceptedBindings(one, m);
    AcceptedBindings(other, n);
    AcceptedAscends(one, m);
    AcceptedAscends(other, n);
    var a, b := DeclaredBindings(one, m), DeclaredBindings(other, n);
    OneSpelling(a, b, BindingLess);
    forall i | 0 <= i < DEVICES_MAX ensures one[i] == other[i] {
      if i < |a| { assert a[i] == one[i] && b[i] == other[i]; }
    }
  }

  // ---- names ---------------------------------------------------------------

  type PaddedName = n: seq<Byte> | |n| == NAME_MAX witness Zeros(NAME_MAX)

  /** Lower case, a digit, or a hyphen. */
  predicate NameByte(b: Byte) { 97 <= b <= 122 || 48 <= b <= 57 || b == 45 }

  const HYPHEN: Byte := 45

  /** Where the first zero is, or the length. */
  function FirstZero(bytes: seq<Byte>): (at: nat)
    ensures at <= |bytes|
    ensures at < |bytes| ==> bytes[at] == 0
    ensures forall i | 0 <= i < at :: bytes[i] != 0
  {
    if bytes == [] || bytes[0] == 0 then 0 else 1 + FirstZero(bytes[1..])
  }

  /** A nonempty word of the alphabet with no hyphen at either edge. */
  predicate IsLabel(name: seq<Byte>) {
    && name != [] && name[0] != HYPHEN && name[|name| - 1] != HYPHEN
    && forall i | 0 <= i < |name| :: NameByte(name[i])
  }

  predicate IsName(bytes: PaddedName) {
    var end := FirstZero(bytes);
    end != 0 && TailIsZero(bytes, end) && IsLabel(bytes[..end])
  }

  function Label(bytes: PaddedName): seq<Byte> { bytes[..FirstZero(bytes)] }

  /** A word as the schema spells one: lower-case letters, digits and hyphens, at
      least one, and no hyphen at either edge. */
  ghost predicate Spelled(word: seq<Byte>) {
    && |word| > 0 && word[0] != '-' as int && word[|word| - 1] != '-' as int
    && forall i | 0 <= i < |word| ::
         'a' as int <= word[i] <= 'z' as int || '0' as int <= word[i] <= '9' as int || word[i] == '-' as int
  }

  lemma {:induction false} LabelsAreSpelled(word: seq<Byte>)
    ensures IsLabel(word) <==> Spelled(word)
  {
  }

  /** An accepted name is its label and zeros: one label, one spelling; and every
      word of the alphabet that fits is the label of an accepted name. */
  lemma {:induction false} NamesHaveOneSpelling(word: seq<Byte>, bytes: PaddedName)
    ensures IsName(bytes) && Label(bytes) == word <==>
            |word| <= 32 && Spelled(word) && bytes == word + Zeros(32 - |word|)
  {
    LabelsAreSpelled(word);
    var end := FirstZero(bytes);
    if IsName(bytes) && Label(bytes) == word {
      assert bytes == bytes[..end] + bytes[end..];
      assert bytes[end..] == Zeros(NAME_MAX - end);
    }
    if |word| <= NAME_MAX && IsLabel(word) && bytes == word + Zeros(NAME_MAX - |word|) {
      assert forall i | 0 <= i < |word| :: bytes[i] == word[i] && bytes[i] != 0;
      assert forall i | |word| <= i < NAME_MAX :: bytes[i] == 0;
      assert end == |word|;
      assert bytes[..end] == word;
    }
  }

  // ---- faces ---------------------------------------------------------------

  datatype Face = Face(name: PaddedName, hash: seq<Byte>)

  predicate Addressed(face: Face) { face.hash != Zeros(HASH_BYTES) }

  /** Arrays of bytes compare from the front. */
  predicate BytesLess(a: seq<Byte>, b: seq<Byte>) {
    b != [] && (a == [] || a[0] < b[0] || (a[0] == b[0] && BytesLess(a[1..], b[1..])))
  }

  lemma {:induction false} BytesLessIsStrict(a: seq<Byte>)
    ensures !BytesLess(a, a)
    decreases |a|
  {
    if a != [] { BytesLessIsStrict(a[1..]); }
  }

  lemma {:induction false} BytesLessComposes(a: seq<Byte>, b: seq<Byte>, c: seq<Byte>)
    requires BytesLess(a, b) && BytesLess(b, c)
    ensures BytesLess(a, c)
    decreases |a|
  {
    if a != [] && a[0] == b[0] == c[0] { BytesLessComposes(a[1..], b[1..], c[1..]); }
  }

  predicate FaceLess(a: Face, b: Face) { BytesLess(a.name, b.name) }

  lemma {:induction false} FaceOrderIsStrict()
    ensures StrictOrder(FaceLess)
  {
    forall x: Face ensures !FaceLess(x, x) { BytesLessIsStrict(x.name); }
    forall x: Face, y: Face, z: Face | FaceLess(x, y) && FaceLess(y, z) ensures FaceLess(x, z) {
      BytesLessComposes(x.name, y.name, z.name);
    }
  }

  function JudgeFace(faces: seq<Face>, i: nat): Option<Refusal>
    requires i < |faces|
  {
    if !IsName(faces[i].name) then Some(Name)
    else if !Addressed(faces[i]) then Some(Value)
    else if i > 0 && !FaceLess(faces[i - 1], faces[i]) then Some(Order)
    else None
  }

  function FacesFrom(faces: seq<Face>, i: nat): (r: Option<Refusal>)
    requires i <= |faces|
    ensures r.None? <==> forall k | i <= k < |faces| :: JudgeFace(faces, k).None?
    decreases |faces| - i
  {
    if i == |faces| then None
    else if JudgeFace(faces, i).Some? then JudgeFace(faces, i)
    else FacesFrom(faces, i + 1)
  }

  method CheckFaces(faces: seq<Face>) returns (r: Option<Refusal>)
    ensures r == FacesFrom(faces, 0)
  {
    var previous: Option<PaddedName> := None;
    for i := 0 to |faces|
      invariant FacesFrom(faces, 0) == FacesFrom(faces, i)
      invariant previous == if i == 0 then None else Some(faces[i - 1].name)
    {
      if !IsName(faces[i].name) { return Some(Name); }
      if !Addressed(faces[i]) { return Some(Value); }
      if previous.Some? && !BytesLess(previous.value, faces[i].name) { return Some(Order); }
      previous := Some(faces[i].name);
    }
    return None;
  }

  lemma {:induction false} FacesAscend(faces: seq<Face>)
    requires forall i | 1 <= i < |faces| :: FaceLess(faces[i - 1], faces[i])
    ensures Ascends(faces, FaceLess)
    decreases |faces|
  {
    if faces != [] {
      var n := |faces| - 1;
      FacesAscend(faces[..n]);
      FaceOrderIsStrict();
      forall i, j | 0 <= i < j < |faces| ensures FaceLess(faces[i], faces[j]) {
        if j < n {
          assert faces[..n][i] == faces[i] && faces[..n][j] == faces[j];
        } else if i < n - 1 {
          assert FaceLess(faces[..n][i], faces[..n][n - 1]);
        }
      }
    }
  }

  /** Comparing from the front: at the first byte where two names differ. */
  ghost predicate FirstDiffersLower(a: seq<Byte>, b: seq<Byte>, k: int) {
    0 <= k < |a| && k < |b| && a[..k] == b[..k] && a[k] < b[k]
  }

  ghost predicate ComesBefore(a: seq<Byte>, b: seq<Byte>) { exists k :: FirstDiffersLower(a, b, k) }

  lemma {:induction false} BytesLessMeans(a: seq<Byte>, b: seq<Byte>)
    requires |a| == |b|
    ensures BytesLess(a, b) <==> ComesBefore(a, b)
    decreases |a|
  {
    if a != [] {
      BytesLessMeans(a[1..], b[1..]);
      if a[0] < b[0] { assert FirstDiffersLower(a, b, 0); }
      if a[0] == b[0] && BytesLess(a[1..], b[1..]) {
        var k :| FirstDiffersLower(a[1..], b[1..], k);
        assert a[..k + 1] == [a[0]] + a[1..][..k] && b[..k + 1] == [b[0]] + b[1..][..k];
        assert FirstDiffersLower(a, b, k + 1);
      }
      if k :| FirstDiffersLower(a, b, k) {
        if k > 0 {
          assert a[0] == a[..k][0] == b[..k][0] == b[0];
          assert a[1..][..k - 1] == a[..k][1..] && b[1..][..k - 1] == b[..k][1..];
          assert FirstDiffersLower(a[1..], b[1..], k - 1);
        }
      }
    }
  }

  /** A face with its own name, the address of something, and after the one before. */
  ghost predicate FaceRight(faces: seq<Face>, k: int)
    requires 0 <= k < |faces|
  {
    && IsName(faces[k].name) && faces[k].hash != Zeros(32)
    && (k > 0 ==> ComesBefore(faces[k - 1].name, faces[k].name))
  }

  ghost predicate FaceWrong(faces: seq<Face>, k: int, refusal: Refusal)
    requires 0 <= k < |faces|
  {
    match refusal
    case Name => !IsName(faces[k].name)
    case Value => IsName(faces[k].name) && faces[k].hash == Zeros(32)
    case Order => && IsName(faces[k].name) && faces[k].hash != Zeros(32)
                  && k > 0 && !ComesBefore(faces[k - 1].name, faces[k].name)
    case _ => false
  }

  lemma {:induction false} FaceJudged(faces: seq<Face>, k: nat)
    requires k < |faces|
    ensures JudgeFace(faces, k).None? <==> FaceRight(faces, k)
    ensures forall refusal :: JudgeFace(faces, k) == Some(refusal) <==> FaceWrong(faces, k, refusal)
  {
    if k > 0 { BytesLessMeans(faces[k - 1].name, faces[k].name); }
  }

  function FaceJudgements(faces: seq<Face>): (judged: seq<Option<Refusal>>)
    ensures |judged| == |faces|
  {
    seq(|faces|, i requires 0 <= i < |faces| => JudgeFace(faces, i))
  }

  lemma {:induction false} FacesFromIs(faces: seq<Face>, i: nat)
    requires i <= |faces|
    ensures FacesFrom(faces, i) == FirstRefusal(FaceJudgements(faces), i)
    decreases |faces| - i
  {
    if i < |faces| { FacesFromIs(faces, i + 1); }
  }

  /** The first wrong face is this one, and wrong in this way. */
  ghost predicate FirstFaceWrong(faces: seq<Face>, k: int, refusal: Refusal) {
    0 <= k < |faces| && FaceWrong(faces, k, refusal) && forall j | 0 <= j < k :: FaceRight(faces, j)
  }

  lemma {:induction false} FirstFaceAt(faces: seq<Face>, k: int, refusal: Refusal)
    ensures FirstAt(FaceJudgements(faces), 0, k, refusal) <==> FirstFaceWrong(faces, k, refusal)
  {
    forall j: nat | j < |faces|
      ensures FaceJudgements(faces)[j] == None <==> FaceRight(faces, j)
      ensures FaceJudgements(faces)[j] == Some(refusal) <==> FaceWrong(faces, j, refusal)
    {
      FaceJudged(faces, j);
    }
  }

  /** A face table is accepted exactly when every face is right, and a refusal is of
      the first that is wrong, by what is wrong with it. */
  lemma {:induction false} FacesExactly(faces: seq<Face>, refusal: Refusal)
    ensures FacesFrom(faces, 0).None? <==> forall k | 0 <= k < |faces| :: FaceRight(faces, k)
    ensures FacesFrom(faces, 0) == Some(refusal) <==> exists k :: FirstFaceWrong(faces, k, refusal)
  {
    FacesFromIs(faces, 0);
    FirstRefusalIs(FaceJudgements(faces), 0, refusal);
    forall k ensures FirstAt(FaceJudgements(faces), 0, k, refusal) <==> FirstFaceWrong(faces, k, refusal) {
      FirstFaceAt(faces, k, refusal);
    }
    forall k: nat | k < |faces| ensures JudgeFace(faces, k).None? <==> FaceRight(faces, k) { FaceJudged(faces, k); }
  }

  /** Two accepted tables that declare the same faces are the same table; and no
      name is declared twice. */
  lemma {:induction false} FacesHaveOneSpelling(one: seq<Face>, other: seq<Face>)
    requires FacesFrom(one, 0).None? && FacesFrom(other, 0).None?
    ensures (forall f :: f in one <==> f in other) ==> one == other
    ensures forall i, j | 0 <= i < j < |one| :: one[i].name != one[j].name
  {
    FaceOrderIsStrict();
    forall i | 1 <= i < |one| ensures FaceLess(one[i - 1], one[i]) { assert JudgeFace(one, i).None?; }
    forall i | 1 <= i < |other| ensures FaceLess(other[i - 1], other[i]) { assert JudgeFace(other, i).None?; }
    FacesAscend(one);
    FacesAscend(other);
    if forall f :: f in one <==> f in other {
      OneSpelling(one, other, FaceLess);
    }
    forall i, j | 0 <= i < j < |one| ensures one[i].name != one[j].name {
      assert FaceLess(one[i], one[j]);
      BytesLessIsStrict(one[i].name);
    }
  }

  // ---- the declared state tree ---------------------------------------------

  datatype Node = Node(id: U32, parent: U32, kind: Byte, unit: Byte, nameLen: Byte, reserved: Byte, name: NodeName)

  type NodeName = n: seq<Byte> | |n| == NODE_NAME_BYTES witness Zeros(NODE_NAME_BYTES)

  const NO_NODE := Node(0, 0, 0, 0, 0, 0, Zeros(NODE_NAME_BYTES))

  predicate IsNodeName(node: Node) {
    && 1 <= node.nameLen <= NODE_NAME_BYTES
    && TailIsZero(node.name, node.nameLen)
    && IsLabel(node.name[..node.nameLen])
  }

  type Nodes = s: seq<Node> | |s| == STATE_NODES_MAX witness seq(STATE_NODES_MAX, _ => NO_NODE)

  predicate Declares(nodes: seq<Node>, before: nat, id: U32) {
    exists k | 0 <= k < before && k < |nodes| :: nodes[k].id == id
  }

  function JudgeNode(nodes: Nodes, count: Byte, i: nat): Option<Refusal>
    requires i < |nodes|
  {
    var node := nodes[i];
    var previous := if i == 0 then 0 else nodes[i - 1].id;
    if i >= count then if node != NO_NODE then Some(Count) else None
    else if node.reserved != 0 then Some(ReservedByte)
    else if node.kind == 0 then Some(Value)
    else if node.nameLen == 0 || node.nameLen > NODE_NAME_BYTES || !IsNodeName(node) then Some(Name)
    else if node.id == 0 || node.id <= previous then Some(Quantity)
    else if i == 0 then if node.parent != 0 then Some(Quantity) else None
    else if node.parent == 0 then Some(Quantity)
    else if !Declares(nodes, i, node.parent) then Some(Quantity)
    else None
  }

  function NodesFrom(nodes: Nodes, count: Byte, i: nat): (r: Option<Refusal>)
    requires i <= |nodes|
    ensures r.None? <==> forall k | i <= k < |nodes| :: JudgeNode(nodes, count, k).None?
    decreases |nodes| - i
  {
    if i == |nodes| then None
    else if JudgeNode(nodes, count, i).Some? then JudgeNode(nodes, count, i)
    else NodesFrom(nodes, count, i + 1)
  }

  method CheckState(nodes: Nodes, count: Byte) returns (r: Option<Refusal>)
    ensures r == NodesFrom(nodes, count, 0)
  {
    for i := 0 to |nodes|
      invariant NodesFrom(nodes, count, 0) == NodesFrom(nodes, count, i)
    {
      var node := nodes[i];
      if i >= count {
        if node != NO_NODE { return Some(Count); }
        continue;
      }
      if node.reserved != 0 { return Some(ReservedByte); }
      if node.kind == 0 { return Some(Value); }
      if node.nameLen == 0 || node.nameLen > NODE_NAME_BYTES || !IsNodeName(node) { return Some(Name); }
      var previous := if i == 0 then 0 else nodes[i - 1].id;
      if node.id == 0 || node.id <= previous { return Some(Quantity); }
      if i == 0 {
        if node.parent != 0 { return Some(Quantity); }
        continue;
      }
      if node.parent == 0 { return Some(Quantity); }
      var named := false;
      for k := 0 to i
        invariant named <==> Declares(nodes, k, node.parent)
      {
        if nodes[k].id == node.parent { named := true; }
      }
      if !named { return Some(Quantity); }
    }
    return None;
  }

  /** How many nodes are real. */
  function Real(nodes: Nodes, count: Byte): nat { if count <= |nodes| then count else |nodes| }

  /** `path` follows parents from one declared node up to the root. */
  predicate ClimbsToRoot(nodes: Nodes, path: seq<nat>) {
    && path != [] && path[0] < |nodes|
    && (if |path| == 1 then path[0] == 0
        else && path[1] < |nodes| && nodes[path[0]].parent == nodes[path[1]].id
             && nodes[path[1]].id < nodes[path[0]].id && ClimbsToRoot(nodes, path[1..]))
  }

  /** A node as one must be declared: nothing reserved set, of some kind, named by a
      word of its stated length with zeros after it, above the one before, and
      under a node declared before it, unless it is the first. */
  ghost predicate NodeRight(nodes: Nodes, count: Byte, k: int)
    requires 0 <= k < |nodes|
  {
    if k >= count then nodes[k] == NO_NODE
    else
      && nodes[k].reserved == 0 && nodes[k].kind != 0 && NodeNamed(nodes[k])
      && nodes[k].id != 0 && (k > 0 ==> nodes[k - 1].id < nodes[k].id)
      && NodeRooted(nodes, k)
  }

  ghost predicate NodeNamed(node: Node) {
    && 1 <= node.nameLen <= 16 && Spelled(node.name[..node.nameLen])
    && forall i | node.nameLen <= i < 16 :: node.name[i] == 0
  }

  ghost predicate NodeRooted(nodes: Nodes, k: int)
    requires 0 <= k < |nodes|
  {
    if k == 0 then nodes[k].parent == 0
    else nodes[k].parent != 0 && exists j :: 0 <= j < k && nodes[j].id == nodes[k].parent
  }

  ghost predicate NodeWrong(nodes: Nodes, count: Byte, k: int, refusal: Refusal)
    requires 0 <= k < |nodes|
  {
    var node := nodes[k];
    match refusal
    case Count => k >= count && node != NO_NODE
    case ReservedByte => k < count && node.reserved != 0
    case Value => k < count && node.reserved == 0 && node.kind == 0
    case Name => k < count && node.reserved == 0 && node.kind != 0 && !NodeNamed(node)
    case Quantity =>
      && k < count && node.reserved == 0 && node.kind != 0 && NodeNamed(node)
      && (node.id == 0 || (k > 0 && node.id <= nodes[k - 1].id) || !NodeRooted(nodes, k))
    case _ => false
  }

  lemma {:induction false} NodeNamedExactly(node: Node)
    ensures node.nameLen == 0 || node.nameLen > NODE_NAME_BYTES || !IsNodeName(node) <==> !NodeNamed(node)
  {
    if 1 <= node.nameLen <= 16 { LabelsAreSpelled(node.name[..node.nameLen]); }
  }

  lemma {:induction false} NodeJudged(nodes: Nodes, count: Byte, k: nat)
    requires k < |nodes|
    ensures JudgeNode(nodes, count, k).None? <==> NodeRight(nodes, count, k)
    ensures forall refusal :: JudgeNode(nodes, count, k) == Some(refusal) <==> NodeWrong(nodes, count, k, refusal)
  {
    NodeNamedExactly(nodes[k]);
    assert Declares(nodes, k, nodes[k].parent) <==> exists j :: 0 <= j < k && nodes[j].id == nodes[k].parent;
  }

  function NodeJudgements(nodes: Nodes, count: Byte): (judged: seq<Option<Refusal>>)
    ensures |judged| == |nodes|
  {
    seq(|nodes|, i requires 0 <= i < |nodes| => JudgeNode(nodes, count, i))
  }

  lemma {:induction false} NodesFromIs(nodes: Nodes, count: Byte, i: nat)
    requires i <= |nodes|
    ensures NodesFrom(nodes, count, i) == FirstRefusal(NodeJudgements(nodes, count), i)
    decreases |nodes| - i
  {
    if i < |nodes| { NodesFromIs(nodes, count, i + 1); }
  }

  /** The first wrong node is this one, and wrong in this way. */
  ghost predicate FirstNodeWrong(nodes: Nodes, count: Byte, k: int, refusal: Refusal) {
    0 <= k < |nodes| && NodeWrong(nodes, count, k, refusal) && forall j | 0 <= j < k :: NodeRight(nodes, count, j)
  }

  lemma {:induction false} FirstNodeAt(nodes: Nodes, count: Byte, k: int, refusal: Refusal)
    ensures FirstAt(NodeJudgements(nodes, count), 0, k, refusal) <==> FirstNodeWrong(nodes, count, k, refusal)
  {
    forall j: nat | j < |nodes|
      ensures NodeJudgements(nodes, count)[j] == None <==> NodeRight(nodes, count, j)
      ensures NodeJudgements(nodes, count)[j] == Some(refusal) <==> NodeWrong(nodes, count, j, refusal)
    {
      NodeJudged(nodes, count, j);
    }
  }

  /** A state declaration is accepted exactly when every node is right, and a
      refusal is of the first that is wrong, by what is wrong with it. */
  lemma {:induction false} StateExactly(nodes: Nodes, count: Byte, refusal: Refusal)
    ensures NodesFrom(nodes, count, 0).None? <==> forall k | 0 <= k < |nodes| :: NodeRight(nodes, count, k)
    ensures NodesFrom(nodes, count, 0) == Some(refusal) <==> exists k :: FirstNodeWrong(nodes, count, k, refusal)
  {
    NodesFromIs(nodes, count, 0);
    FirstRefusalIs(NodeJudgements(nodes, count), 0, refusal);
    forall k
      ensures FirstAt(NodeJudgements(nodes, count), 0, k, refusal) <==> FirstNodeWrong(nodes, count, k, refusal)
    {
      FirstNodeAt(nodes, count, k, refusal);
    }
    forall k: nat | k < |nodes| ensures JudgeNode(nodes, count, k).None? <==> NodeRight(nodes, count, k) {
      NodeJudged(nodes, count, k);
    }
  }

  /** Every declaration accepted is one tree: identifiers ascend and so are
      unique, the first node and no other has no parent, and every other node's
      parent is one node, declared before it. */
  lemma {:induction false} StateIsOneTree(nodes: Nodes, count: Byte)
    requires NodesFrom(nodes, count, 0).None?
    ensures forall i, j | 0 <= i < j < Real(nodes, count) :: nodes[i].id < nodes[j].id
    ensures forall i | 0 <= i < Real(nodes, count) :: nodes[i].id != 0 && (nodes[i].parent == 0 <==> i == 0)
    ensures forall i | 1 <= i < Real(nodes, count) :: Declares(nodes, i, nodes[i].parent)
    ensures forall i | Real(nodes, count) <= i < |nodes| :: nodes[i] == NO_NODE
  {
    var n := Real(nodes, count);
    forall i | 0 <= i < |nodes| ensures JudgeNode(nodes, count, i).None? {}
    IdsAscend(nodes, count, n);
    forall i | 0 <= i < n ensures nodes[i].id != 0 && (nodes[i].parent == 0 <==> i == 0) {
      assert JudgeNode(nodes, count, i).None?;
    }
    forall i | 1 <= i < n ensures Declares(nodes, i, nodes[i].parent) {
      assert JudgeNode(nodes, count, i).None?;
    }
    forall i | n <= i < |nodes| ensures nodes[i] == NO_NODE {
      assert JudgeNode(nodes, count, i).None?;
    }
  }

  lemma {:induction false} IdsAscend(nodes: Nodes, count: Byte, n: nat)
    requires n <= Real(nodes, count) && forall i | 0 <= i < |nodes| :: JudgeNode(nodes, count, i).None?
    ensures forall i, j | 0 <= i < j < n :: nodes[i].id < nodes[j].id
    decreases n
  {
    if n > 1 {
      IdsAscend(nodes, count, n - 1);
      assert JudgeNode(nodes, count, n - 1).None?;
      assert nodes[n - 2].id < nodes[n - 1].id;
    }
  }

  lemma {:induction false} ParentIsBefore(nodes: Nodes, count: Byte, i: nat) returns (k: nat)
    requires NodesFrom(nodes, count, 0).None? && 0 < i < Real(nodes, count)
    ensures k < i && nodes[k].id == nodes[i].parent && nodes[k].id < nodes[i].id
  {
    StateIsOneTree(nodes, count);
    assert Declares(nodes, i, nodes[i].parent);
    k :| 0 <= k < i && k < |nodes| && nodes[k].id == nodes[i].parent;
  }

  /** And a tree with a root: parents lead from any declared node to node zero,
      each step to a smaller identifier. */
  lemma {:induction false} ParentsLeadToTheRoot(nodes: Nodes, count: Byte, i: nat) returns (path: seq<nat>)
    requires NodesFrom(nodes, count, 0).None? && i < Real(nodes, count)
    ensures ClimbsToRoot(nodes, path) && path[0] == i
    decreases i
  {
    if i == 0 {
      path := [0];
    } else {
      var k := ParentIsBefore(nodes, count, i);
      var rest := ParentsLeadToTheRoot(nodes, count, k);
      path := [i] + rest;
      assert path[1..] == rest;
    }
  }

  // ---- restart and backoff -------------------------------------------------

  datatype Restart = Restart(never: bool, first: U32, max: U32, maxRestarts: U32, window: U32)

  function CheckRestart(r: Restart): Option<Refusal> {
    if r.never then
      if r.first == 0 && r.max == 0 && r.maxRestarts == 0 && r.window == 0 then None else Some(NotUnderThisPolicy)
    else if r.first == 0 || r.max == 0 || r.maxRestarts == 0 || r.window == 0 then Some(Quantity)
    else if r.max < r.first || r.window < r.max then Some(Quantity)
    else None
  }

  /** What a restart record must say, and what each refusal is of: under the policy
      that never restarts, nothing; under any other, four quantities in order. */
  lemma {:induction false} RestartExactly(r: Restart)
    ensures CheckRestart(r).None? <==>
            if r.never then r.first + r.max + r.maxRestarts + r.window == 0
            else 0 < r.first <= r.max <= r.window && 0 < r.maxRestarts
    ensures CheckRestart(r).Some? ==> CheckRestart(r).value == if r.never then NotUnderThisPolicy else Quantity
  {
  }

  function Doubled(first: nat, times: nat): nat {
    if times == 0 then first else 2 * Doubled(first, times - 1)
  }

  /** The pause the manifest means: doubled each time, and capped. */
  function Backoff(r: Restart, nth: nat): nat {
    if Doubled(r.first, nth) < r.max then Doubled(r.first, nth) else r.max
  }

  lemma {:induction false} DoubledIsTimesAPower(first: nat, times: nat)
    ensures Doubled(first, times) == first * Power2(times)
    decreases times
  {
    if times > 0 {
      DoubledIsTimesAPower(first, times - 1);
      assert first * Power2(times) == 2 * (first * Power2(times - 1));
    }
  }

  /** `backoff_ticks`: doubling with saturation and an early way out. For any
      record at all it is the meant pause from the first respawn on, in at most
      thirty-two rounds unless it doubles nothing towards a cap above it. */
  method BackoffTicks(r: Restart, nth: U32) returns (pause: U32, ghost rounds: nat)
    ensures pause == if nth == 0 then r.first else Backoff(r, nth)
    ensures r.first > 0 || r.max == 0 ==> rounds <= 32
    ensures r.first == 0 < r.max ==> rounds == nth
    ensures CheckRestart(r).None? ==> pause == Backoff(r, nth) && rounds <= 32
  {
    pause := r.first;
    rounds := 0;
    var doubled := 0;
    while doubled < nth
      invariant 0 <= doubled <= nth && rounds == doubled
      invariant pause == Doubled(r.first, doubled)
      invariant doubled > 0 ==> pause < r.max
      invariant r.first > 0 ==> doubled < 32
      invariant r.first == 0 ==> pause == 0 && (r.max > 0 || doubled == 0)
    {
      rounds := rounds + 1;
      pause := if 2 * pause > U32_MAX then U32_MAX else 2 * pause;
      DoublingGrows(r.first, doubled + 1, nth);
      if pause >= r.max { return r.max, rounds; }
      doubled := doubled + 1;
      if r.first > 0 { FewRounds(r.first, doubled); }
    }
  }

  lemma {:induction false} DoublingGrows(first: nat, m: nat, n: nat)
    requires m <= n
    ensures Doubled(first, m) <= Doubled(first, n)
    decreases n
  {
    if m < n { DoublingGrows(first, m, n - 1); }
  }

  lemma {:induction false} FewRounds(first: nat, n: nat)
    requires 0 < first && Doubled(first, n) <= U32_MAX
    ensures n < 32
  {
    if n >= 32 {
      DoublingGrows(first, 32, n);
      DoubledIsTimesAPower(first, 32);
      WordSizes();
    }
  }

  /** The pause never shrinks from one respawn to the next, and settles at the cap. */
  lemma {:induction false} BackoffNeverShrinks(r: Restart, m: nat, n: nat)
    requires CheckRestart(r).None? && m <= n
    ensures Backoff(r, n) == if r.first * Power2(n) < r.max then r.first * Power2(n) else r.max
    ensures Backoff(r, m) <= Backoff(r, n) <= r.max
    ensures n >= 32 ==> Backoff(r, n) == r.max
  {
    DoubledIsTimesAPower(r.first, n);
    DoublingGrows(r.first, m, n);
    if n >= 32 && !r.never && Doubled(r.first, n) < r.max {
      FewRounds(r.first, n);
    }
  }
}
