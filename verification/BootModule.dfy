/** The boot module a generation travels in: a head, a length for each file, the
    record tree, and the files, end to end and nothing after. */
module BootModule {
  import opened Wire

  const MODULE_MAGIC: U64 := 0x465f_4d4f_4400_0001
  const MODULE_HEAD_BYTES: nat := 16
  const MODULE_FILES_MAX: nat := 64

  datatype Refusal = MalformedHeader | UnknownFlag

  datatype Module = Module(bytes: seq<Byte>, treeBytes: U32, files: U32)

  // ---- what a module is ----------------------------------------------------

  /** Pieces a module can carry: lengths that fit their fields, and not too many. */
  predicate Carriable(tree: seq<Byte>, files: seq<seq<Byte>>) {
    |tree| <= U32_MAX && |files| <= 64 && forall i | 0 <= i < |files| :: |files[i]| <= U32_MAX
  }

  function LengthFields(files: seq<seq<Byte>>): (fields: seq<seq<Byte>>)
    ensures |fields| == |files|
  {
    seq(|files|, i requires 0 <= i < |files| => ToLe(4, |files[i]|))
  }

  function Head(tree: seq<Byte>, files: seq<seq<Byte>>): (head: seq<Byte>)
    ensures |head| == MODULE_HEAD_BYTES
  {
    ToLe(8, MODULE_MAGIC) + ToLe(4, |tree|) + ToLe(4, |files|)
  }

  /** A module: magic, tree length and file count, each file's length, the tree,
      and the files. */
  function ModuleBytes(tree: seq<Byte>, files: seq<seq<Byte>>): seq<Byte> {
    Head(tree, files) + Join(LengthFields(files)) + tree + Join(files)
  }

  // ---- what a reader does --------------------------------------------------

  /** The declared length of one file, off the length array. */
  function FileBytes(m: Module, index: nat): Option<U32> {
    var at := MODULE_HEAD_BYTES + index * 4;
    if at + 4 <= |m.bytes| then Some(U32At(m.bytes[at..at + 4])) else None
  }

  /** Where file `index` begins, as the reader counts it. */
  function FileAt(m: Module, index: nat): Option<nat> {
    if index == 0 then Some(MODULE_HEAD_BYTES + m.files * 4 + m.treeBytes)
    else
      match FileAt(m, index - 1)
      case None => None
      case Some(at) =>
        match FileBytes(m, index - 1)
        case None => None
        case Some(length) => Some(at + length)
  }

  function HeadOf(bytes: seq<Byte>): Module
    requires |bytes| >= MODULE_HEAD_BYTES
  {
    Module(bytes, U32At(bytes[8..12]), U32At(bytes[12..16]))
  }

  /** The reader's answer. */
  function Read(bytes: seq<Byte>): Result<Module, Refusal> {
    if |bytes| < MODULE_HEAD_BYTES then Err(MalformedHeader)
    else if U64At(bytes[..8]) != MODULE_MAGIC then Err(MalformedHeader)
    else
      var m := HeadOf(bytes);
      if m.files > MODULE_FILES_MAX then Err(UnknownFlag)
      else if FileAt(m, m.files) != Some(|bytes|) then Err(MalformedHeader)
      else Ok(m)
  }

  method ReadModule(bytes: seq<Byte>) returns (r: Result<Module, Refusal>)
    ensures r == Read(bytes)
  {
    if |bytes| < MODULE_HEAD_BYTES { return Err(MalformedHeader); }
    if U64At(bytes[..8]) != MODULE_MAGIC { return Err(MalformedHeader); }
    var m := Module(bytes, U32At(bytes[8..12]), U32At(bytes[12..16]));
    if m.files > MODULE_FILES_MAX { return Err(UnknownFlag); }
    var total: nat := MODULE_HEAD_BYTES + m.files * 4 + m.treeBytes;
    var index: nat := 0;
    while index < m.files
      invariant index <= m.files
      invariant FileAt(m, index) == Some(total)
    {
      var length := FileBytes(m, index);
      if length.None? {
        NoneAfter(m, index + 1, m.files);
        return Err(MalformedHeader);
      }
      total := total + length.value;
      index := index + 1;
    }
    return if |bytes| != total then Err(MalformedHeader) else Ok(m);
  }

  lemma {:induction false} NoneAfter(m: Module, i: nat, j: nat)
    requires i <= j && FileAt(m, i).None?
    ensures FileAt(m, j).None?
    decreases j
  {
    if i < j { NoneAfter(m, i, j - 1); }
  }

  method Tree(m: Module) returns (tree: seq<Byte>)
    requires Read(m.bytes) == Ok(m)
    ensures forall t, fs | Carriable(t, fs) && m.bytes == ModuleBytes(t, fs) :: tree == t
  {
    var at := MODULE_HEAD_BYTES + m.files * 4;
    tree := if at + m.treeBytes <= |m.bytes| then m.bytes[at..at + m.treeBytes] else [];
    forall t, fs | Carriable(t, fs) && m.bytes == ModuleBytes(t, fs) ensures tree == t {
      PackedIsSegmented(m.bytes, t, fs);
      HeadIs(m.bytes, t, fs);
    }
  }

  /** Where the scan for a file ends, by the reader's own count. */
  function FileSpec(m: Module, index: nat): Option<seq<Byte>> {
    if index >= m.files then None
    else
      match FileAt(m, index) case None => None case Some(at) =>
      match FileBytes(m, index) case None => None case Some(length) => Cut(m.bytes, at, length)
  }

  /** The bytes at a place, if they are there. */
  function Cut(bytes: seq<Byte>, at: nat, length: nat): Option<seq<Byte>> {
    if at + length <= |bytes| then Some(bytes[at..at + length]) else None
  }

  method File(m: Module, index: nat) returns (r: Option<seq<Byte>>)
    requires Read(m.bytes) == Ok(m)
    ensures r == FileSpec(m, index)
    ensures forall t, fs | Carriable(t, fs) && m.bytes == ModuleBytes(t, fs) ::
              r == if index < |fs| then Some(fs[index]) else None
  {
    forall t, fs | Carriable(t, fs) && m.bytes == ModuleBytes(t, fs)
      ensures FileSpec(m, index) == if index < |fs| then Some(fs[index]) else None
    {
      PackedIsSegmented(m.bytes, t, fs);
      HeadIs(m.bytes, t, fs);
      LengthsAre(m.bytes, t, fs);
      FileIs(m, fs, index);
    }
    r := ScanToFile(m, index);
  }

  method ScanToFile(m: Module, index: nat) returns (r: Option<seq<Byte>>)
    ensures r == FileSpec(m, index)
  {
    if index >= m.files { return None; }
    var at: nat := MODULE_HEAD_BYTES + m.files * 4 + m.treeBytes;
    var n: nat := 0;
    while n < index
      invariant n <= index && FileAt(m, n) == Some(at)
    {
      var length := FileBytes(m, n);
      if length.None? {
        NoneAfter(m, n + 1, index);
        return None;
      }
      at := at + length.value;
      n := n + 1;
    }
    var length := FileBytes(m, index);
    if length.None? { return None; }
    return Cut(m.bytes, at, length.value);
  }

  // ---- the two agree -------------------------------------------------------

  /** The four segments of a module, each where the one before it ends. */
  ghost predicate Segmented(bytes: seq<Byte>, tree: seq<Byte>, files: seq<seq<Byte>>) {
    var lengthsEnd := 16 + 4 * |files|;
    && |bytes| == lengthsEnd + |tree| + |Join(files)|
    && bytes[..16] == Head(tree, files)
    && bytes[16..lengthsEnd] == Join(LengthFields(files))
    && bytes[lengthsEnd..lengthsEnd + |tree|] == tree
    && bytes[lengthsEnd + |tree|..] == Join(files)
  }

  function Fours(n: nat): seq<nat> { seq(n, _ => 4) }

  lemma {:induction false} SumOfFours(n: nat)
    ensures Sum(Fours(n)) == 4 * n
    decreases n
  {
    if n > 0 {
      assert Fours(n)[1..] == Fours(n - 1);
      SumOfFours(n - 1);
    }
  }

  lemma {:induction false} LengthOffsets(files: seq<seq<Byte>>, i: nat)
    requires i <= |files|
    ensures Offset(LengthFields(files), i) == 4 * i
    ensures |Join(LengthFields(files))| == 4 * |files|
    decreases i
  {
    JoinLength(LengthFields(files), Fours(|files|));
    SumOfFours(|files|);
    if i > 0 { LengthOffsets(files, i - 1); }
  }

  /** Packed and segmented are one thing said two ways. */
  lemma {:induction false} PackedIsSegmented(bytes: seq<Byte>, tree: seq<Byte>, files: seq<seq<Byte>>)
    ensures bytes == ModuleBytes(tree, files) <==> Segmented(bytes, tree, files)
  {
    LengthOffsets(files, 0);
    FourSegments(bytes, Head(tree, files), Join(LengthFields(files)), tree, Join(files));
  }

  lemma {:induction false} FourSegments(bytes: seq<Byte>, a: seq<Byte>, b: seq<Byte>, c: seq<Byte>, d: seq<Byte>)
    ensures bytes == a + b + c + d <==>
            var i, j, k := |a|, |a| + |b|, |a| + |b| + |c|;
            |bytes| == k + |d| && bytes[..i] == a && bytes[i..j] == b && bytes[j..k] == c && bytes[k..] == d
  {
    var i, j, k := |a|, |a| + |b|, |a| + |b| + |c|;
    if |bytes| == k + |d| {
      assert bytes == bytes[..i] + bytes[i..j] + bytes[j..k] + bytes[k..];
    }
  }

  /** The head and the tree, read where the reader reads them. */
  lemma {:induction false} HeadIs(bytes: seq<Byte>, tree: seq<Byte>, files: seq<seq<Byte>>)
    requires Carriable(tree, files) && Segmented(bytes, tree, files)
    ensures |bytes| >= MODULE_HEAD_BYTES && U64At(bytes[..8]) == MODULE_MAGIC
    ensures HeadOf(bytes) == Module(bytes, |tree|, |files|)
  {
    var head := Head(tree, files);
    SliceOfSlice(bytes, 0, 16, 0, 8);
    SliceOfSlice(bytes, 0, 16, 8, 12);
    SliceOfSlice(bytes, 0, 16, 12, 16);
    assert bytes[0..16] == head;
    assert head[..8] == ToLe(8, MODULE_MAGIC) && head[8..12] == ToLe(4, |tree|) && head[12..16] == ToLe(4, |files|);
    U64Exact(MODULE_MAGIC, bytes[..8]);
    U32Exact(|tree|, bytes[8..12]);
    U32Exact(|files|, bytes[12..16]);
  }

  /** The module's length array says how long each file is. */
  ghost predicate LengthsRead(m: Module, files: seq<seq<Byte>>) {
    m.files == |files| && forall i | 0 <= i < |files| :: FileBytes(m, i) == Some(|files[i]|)
  }

  lemma {:induction false} LengthIs(m: Module, files: seq<seq<Byte>>, i: nat)
    requires i < |files| && |files[i]| <= U32_MAX && 16 + 4 * |files| <= |m.bytes|
    requires m.bytes[16..16 + 4 * |files|] == Join(LengthFields(files))
    ensures FileBytes(m, i) == Some(|files[i]|)
  {
    LengthOffsets(files, i);
    FieldIn(LengthFields(files), i);
    SliceOfSlice(m.bytes, 16, 16 + 4 * |files|, 4 * i, 4 * i + 4);
    U32Exact(|files[i]|, m.bytes[16 + 4 * i..16 + 4 * i + 4]);
  }

  lemma {:induction false} LengthsAre(bytes: seq<Byte>, tree: seq<Byte>, files: seq<seq<Byte>>)
    requires Carriable(tree, files) && Segmented(bytes, tree, files)
    ensures LengthsRead(Module(bytes, |tree|, |files|), files)
  {
    var m := Module(bytes, |tree|, |files|);
    forall i | 0 <= i < |files| ensures FileBytes(m, i) == Some(|files[i]|) {
      LengthIs(m, files, i);
    }
  }

  lemma {:induction false} FileBegins(m: Module, files: seq<seq<Byte>>, i: nat)
    requires LengthsRead(m, files) && i <= |files|
    ensures FileAt(m, i) == Some(16 + 4 * m.files + m.treeBytes + Offset(files, i))
    decreases i
  {
    if i > 0 { FileBegins(m, files, i - 1); }
  }

  lemma {:induction false} FileSits(bytes: seq<Byte>, at: nat, files: seq<seq<Byte>>, i: nat)
    requires at <= |bytes| && bytes[at..] == Join(files) && i < |files|
    ensures at + Offset(files, i) + |files[i]| <= |bytes|
    ensures bytes[at + Offset(files, i)..at + Offset(files, i) + |files[i]|] == files[i]
  {
    FieldIn(files, i);
    assert bytes[at..|bytes|] == Join(files);
    SliceOfSlice(bytes, at, |bytes|, Offset(files, i), Offset(files, i) + |files[i]|);
  }

  lemma {:induction false} FileSpecAt(m: Module, i: nat, at: nat, length: nat)
    requires i < m.files && FileAt(m, i) == Some(at) && FileBytes(m, i) == Some(length)
    requires at + length <= |m.bytes|
    ensures FileSpec(m, i) == Some(m.bytes[at..at + length])
  {
  }

  lemma {:induction false} FileIs(m: Module, files: seq<seq<Byte>>, i: nat)
    requires LengthsRead(m, files)
    requires var at := 16 + 4 * m.files + m.treeBytes; at <= |m.bytes| && m.bytes[at..] == Join(files)
    ensures FileSpec(m, i) == if i < |files| then Some(files[i]) else None
  {
    if i < |files| {
      FileBegins(m, files, i);
      var at := 16 + 4 * m.files + m.treeBytes;
      FileSits(m.bytes, at, files, i);
      FileSpecAt(m, i, at + Offset(files, i), |files[i]|);
    }
  }

  lemma {:induction false} OffsetOfAll(files: seq<seq<Byte>>)
    ensures Offset(files, |files|) == |Join(files)|
  {
    JoinFrom(files, |files|);
    assert files[|files|..] == [];
  }

  /** Whatever is packed is read. */
  lemma {:induction false} PackedIsRead(bytes: seq<Byte>, tree: seq<Byte>, files: seq<seq<Byte>>)
    requires Carriable(tree, files) && Segmented(bytes, tree, files)
    ensures Read(bytes) == Ok(Module(bytes, |tree|, |files|))
  {
    HeadIs(bytes, tree, files);
    TotalFits(bytes, tree, files);
    ReadMeans(bytes);
  }

  /** The lengths add up to the module's own. */
  lemma {:induction false} TotalFits(bytes: seq<Byte>, tree: seq<Byte>, files: seq<seq<Byte>>)
    requires Carriable(tree, files) && Segmented(bytes, tree, files)
    ensures FileAt(Module(bytes, |tree|, |files|), |files|) == Some(|bytes|)
  {
    var end := 16 + 4 * |files| + |tree| + |Join(files)|;
    assert FileAt(Module(bytes, |tree|, |files|), |files|) == Some(end) by {
      LengthsAre(bytes, tree, files);
      TotalIs(Module(bytes, |tree|, |files|), files);
    }
  }

  /** What it takes to be read. */
  lemma {:induction false} ReadMeans(bytes: seq<Byte>)
    ensures Read(bytes).Ok? <==>
            && |bytes| >= MODULE_HEAD_BYTES && U64At(bytes[..8]) == MODULE_MAGIC
            && HeadOf(bytes).files <= MODULE_FILES_MAX
            && FileAt(HeadOf(bytes), HeadOf(bytes).files) == Some(|bytes|)
    ensures Read(bytes).Ok? ==> Read(bytes).value == HeadOf(bytes)
  {
  }

  lemma {:induction false} TotalIs(m: Module, files: seq<seq<Byte>>)
    requires LengthsRead(m, files)
    ensures FileAt(m, m.files) == Some(16 + 4 * m.files + m.treeBytes + |Join(files)|)
  {
    FileBegins(m, files, |files|);
    OffsetOfAll(files);
  }

  /** The lengths a module declares, with where they put the end. */
  lemma {:induction false} DeclaredLengths(m: Module, n: nat) returns (lengths: seq<nat>)
    requires FileAt(m, n).Some?
    ensures |lengths| == n
    ensures forall i | 0 <= i < n :: FileBytes(m, i) == Some(lengths[i])
    ensures FileAt(m, n).value == 16 + 4 * m.files + m.treeBytes + Sum(lengths)
    decreases n
  {
    if n == 0 {
      lengths := [];
    } else {
      var before := DeclaredLengths(m, n - 1);
      lengths := before + [FileBytes(m, n - 1).value];
      SumAppend(lengths, n - 1);
      assert lengths[..n - 1] == before && lengths[..n] == lengths;
    }
  }

  lemma {:induction false} FourAt(bytes: seq<Byte>, n: nat, i: nat)
    requires 16 + 4 * n <= |bytes| && i < n
    ensures Sum(Fours(n)) == 4 * n
    ensures Split(Fours(n), bytes[16..16 + 4 * n])[i] == bytes[16 + 4 * i..16 + 4 * i + 4]
  {
    SumOfFours(n);
    SplitAt(Fours(n), bytes[16..16 + 4 * n], i);
    assert Fours(n)[..i] == Fours(i) && Fours(n)[..i + 1] == Fours(i + 1);
    SumOfFours(i);
    SumOfFours(i + 1);
    SliceOfSlice(bytes, 16, 16 + 4 * n, 4 * i, 4 * i + 4);
  }

  lemma {:induction false} LengthWritesBack(m: Module, n: nat, i: nat, length: nat)
    requires 16 + 4 * n <= |m.bytes| && i < n && FileBytes(m, i) == Some(length)
    ensures Sum(Fours(n)) == 4 * n && Split(Fours(n), m.bytes[16..16 + 4 * n])[i] == ToLe(4, length)
  {
    FourAt(m.bytes, n, i);
    var field := m.bytes[16 + 4 * i..16 + 4 * i + 4];
    assert U32At(field) == length;
    U32Exact(length, field);
  }

  /** Four bytes at a time that read as these lengths are these lengths' fields. */
  lemma {:induction false} LengthsWriteBack(m: Module, files: seq<seq<Byte>>)
    requires 16 + 4 * |files| <= |m.bytes|
    requires forall i | 0 <= i < |files| :: FileBytes(m, i) == Some(|files[i]|)
    ensures m.bytes[16..16 + 4 * |files|] == Join(LengthFields(files))
  {
    var n := |files|;
    var segment := m.bytes[16..16 + 4 * n];
    SumOfFours(n);
    JoinOfSplit(Fours(n), segment);
    forall i | 0 <= i < n ensures Split(Fours(n), segment)[i] == LengthFields(files)[i] {
      LengthWritesBack(m, n, i, |files[i]|);
    }
    assert Split(Fours(n), segment) == LengthFields(files);
    assert segment[..4 * n] == segment;
  }

  lemma {:induction false} HeadWritesBack(bytes: seq<Byte>, tree: seq<Byte>, files: seq<seq<Byte>>)
    requires |bytes| >= 16 && U64At(bytes[..8]) == MODULE_MAGIC
    requires U32At(bytes[8..12]) == |tree| && U32At(bytes[12..16]) == |files|
    ensures bytes[..16] == Head(tree, files)
  {
    U64Exact(MODULE_MAGIC, bytes[..8]);
    U32Exact(|tree|, bytes[8..12]);
    U32Exact(|files|, bytes[12..16]);
    assert bytes[..16] == bytes[..8] + bytes[8..12] + bytes[12..16];
  }

  /** The pieces that some lengths cut a module into. */
  lemma {:induction false} PiecesOf(m: Module, lengths: seq<nat>) returns (tree: seq<Byte>, files: seq<seq<Byte>>)
    requires |lengths| == m.files && |m.bytes| == 16 + 4 * m.files + m.treeBytes + Sum(lengths)
    ensures |tree| == m.treeBytes && |files| == |lengths|
    ensures forall i | 0 <= i < |files| :: |files[i]| == lengths[i]
    ensures m.bytes[16 + 4 * m.files..16 + 4 * m.files + m.treeBytes] == tree
    ensures m.bytes[16 + 4 * m.files + m.treeBytes..] == Join(files)
  {
    var at := 16 + 4 * m.files;
    tree := m.bytes[at..at + m.treeBytes];
    var segment := m.bytes[at + m.treeBytes..];
    files := Split(lengths, segment);
    JoinOfSplit(lengths, segment);
    assert segment[..|segment|] == segment;
  }

  /** Whatever is read was packed, and from these pieces. */
  lemma {:induction false} ReadIsSegmented(bytes: seq<Byte>) returns (tree: seq<Byte>, files: seq<seq<Byte>>)
    requires Read(bytes).Ok?
    ensures Carriable(tree, files) && Segmented(bytes, tree, files)
  {
    ReadMeans(bytes);
    var m := HeadOf(bytes);
    var lengths := DeclaredLengths(m, m.files);
    tree, files := PiecesOf(m, lengths);
    LengthsWriteBack(m, files);
    HeadWritesBack(bytes, tree, files);
  }

  /** The module theorem: the byte strings read are exactly those that are a tree
      and at most sixty-four files packed end to end, every byte in one part and
      none after the last. */
  lemma {:induction false} ModulesExactly(bytes: seq<Byte>)
    ensures Read(bytes).Ok? <==> exists tree, files :: Carriable(tree, files) && bytes == ModuleBytes(tree, files)
  {
    if Read(bytes).Ok? {
      var tree, files := ReadIsSegmented(bytes);
      PackedIsSegmented(bytes, tree, files);
    }
    if tree, files :| Carriable(tree, files) && bytes == ModuleBytes(tree, files) {
      PackedIsSegmented(bytes, tree, files);
      PackedIsRead(bytes, tree, files);
    }
  }

  /** And a byte string is packed from one tree and one list of files at most. */
  lemma {:induction false} PiecesAreDetermined(t: seq<Byte>, fs: seq<seq<Byte>>, u: seq<Byte>, gs: seq<seq<Byte>>)
    requires Carriable(t, fs) && Carriable(u, gs) && ModuleBytes(t, fs) == ModuleBytes(u, gs)
    ensures t == u && fs == gs
  {
    var bytes := ModuleBytes(t, fs);
    PackedIsSegmented(bytes, t, fs);
    PackedIsSegmented(bytes, u, gs);
    HeadIs(bytes, t, fs);
    HeadIs(bytes, u, gs);
    LengthsAre(bytes, t, fs);
    LengthsAre(bytes, u, gs);
    forall i | 0 <= i < |fs| ensures fs[i] == gs[i] {
      FileIs(HeadOf(bytes), fs, i);
      FileIs(HeadOf(bytes), gs, i);
    }
  }

  /** The magic's eight bytes as they lie. */
  lemma {:induction false} MagicBytes(bytes: seq<Byte>)
    requires |bytes| == 8
    ensures U64At(bytes) == MODULE_MAGIC <==> bytes == [0x01, 0x00, 0x00, 0x44, 0x4f, 0x4d, 0x5f, 0x46]
  {
    var magic: seq<Byte> := [0x01, 0x00, 0x00, 0x44, 0x4f, 0x4d, 0x5f, 0x46];
    U64Exact(MODULE_MAGIC, bytes);
    U64Exact(MODULE_MAGIC, magic);
    assert magic[1..] == [0x00, 0x00, 0x44, 0x4f, 0x4d, 0x5f, 0x46];
    assert magic[1..][1..] == [0x00, 0x44, 0x4f, 0x4d, 0x5f, 0x46];
    assert FromLe([0x44, 0x4f, 0x4d, 0x5f, 0x46]) == 0x46_5f4d_4f44 by { FiveBytes(); }
    assert magic[1..][1..][1..] == [0x44, 0x4f, 0x4d, 0x5f, 0x46];
  }

  lemma {:induction false} FiveBytes()
    ensures FromLe([0x44, 0x4f, 0x4d, 0x5f, 0x46]) == 0x46_5f4d_4f44
  {
    var five: seq<Byte> := [0x44, 0x4f, 0x4d, 0x5f, 0x46];
    assert five[1..] == [0x4f, 0x4d, 0x5f, 0x46] && five[1..][1..] == [0x4d, 0x5f, 0x46];
    assert five[1..][1..][1..] == [0x5f, 0x46] && five[1..][1..][1..][1..] == [0x46];
    OneByte([0x46]);
    assert FromLe([0x5f, 0x46]) == 0x465f;
    assert FromLe([0x4d, 0x5f, 0x46]) == 0x46_5f4d;
  }

  /** Why a module is refused: for too many files under a believed magic, and as
      malformed for everything else that is not one. */
  lemma {:induction false} ModuleRefusals(bytes: seq<Byte>)
    ensures Read(bytes) == Err(UnknownFlag) <==>
            && |bytes| >= 16 && bytes[..8] == [0x01, 0x00, 0x00, 0x44, 0x4f, 0x4d, 0x5f, 0x46]
            && U32At(bytes[12..16]) > 64
    ensures Read(bytes).Err? && Read(bytes).error != UnknownFlag ==> Read(bytes).error == MalformedHeader
  {
    if |bytes| >= 16 { MagicBytes(bytes[..8]); }
  }
}
