/**
 * A writer of ELF files: for every table, class and byte order, a file from which the converter makes the table file
 * with exactly that table.
 */
module ElfBuild {
  import opened Basics
  import opened ElfBytes
  import opened ElfLayout
  import opened ElfImage
  import opened TableFile
  import opened ElfConversion
  import opened ElfProperties
  import opened ElfWellFormed

  // ----- Pieces of a file -----

  function Flatten(chunks: seq<seq<Byte>>): seq<Byte>
    decreases |chunks|
  {
    if chunks == [] then [] else Flatten(chunks[..|chunks| - 1]) + chunks[|chunks| - 1]
  }

  function Offset(chunks: seq<seq<Byte>>, i: nat): nat
    requires i <= |chunks|
  {
    if i == 0 then 0 else Offset(chunks, i - 1) + |chunks[i - 1]|
  }

  lemma {:induction false} OffsetInPrefix(chunks: seq<seq<Byte>>, i: nat, n: nat)
    requires i <= n <= |chunks|
    ensures Offset(chunks[..n], i) == Offset(chunks, i)
    decreases i
  {
    if i > 0 {
      OffsetInPrefix(chunks, i - 1, n);
    }
  }

  lemma {:induction false} FlattenLength(chunks: seq<seq<Byte>>)
    ensures |Flatten(chunks)| == Offset(chunks, |chunks|)
    decreases |chunks|
  {
    if chunks != [] {
      var n := |chunks| - 1;
      FlattenLength(chunks[..n]);
      OffsetInPrefix(chunks, n, n);
    }
  }

  /** Each piece is where the pieces before it end. */
  lemma {:induction false} ChunkAt(chunks: seq<seq<Byte>>, i: nat)
    requires i < |chunks|
    ensures Offset(chunks, i) + |chunks[i]| <= |Flatten(chunks)|
    ensures Flatten(chunks)[Offset(chunks, i)..Offset(chunks, i) + |chunks[i]|] == chunks[i]
    decreases |chunks|
  {
    var n := |chunks| - 1;
    FlattenLength(chunks[..n]);
    OffsetInPrefix(chunks, n, n);
    if i < n {
      ChunkAt(chunks[..n], i);
      OffsetInPrefix(chunks, i, n);
    }
  }

  // ----- What is written -----

  /** A table with its definition, to be written in a class and byte order. */
  datatype Job = Job(is32: bool, target: Order, mission: Mission, def: FileDef, payload: seq<Byte>) {
    predicate Valid() {
      && mission.Valid() && FileHeaderSize(mission) < UINT32
      && 0 < |def.objectName| < 60 && 0 !in def.objectName
      && |def.tableName| < mission.nameLen && 0 !in def.tableName
      && |def.description| < mission.descLen && 0 !in def.description
      && def.objectSize == |payload|
      && !CarriesDefinition(def.objectName) && !Matches(TBL_DEF_SYMBOL_NAME, def.objectName)
      && Size() < 0x8000_0000
    }

    // Where things are.
    function NamesAt(): nat {
      RecordSize(Ehdr, is32) + 5 * RecordSize(Shdr, is32)
    }

    function SectionAt(i: nat): nat {
      RecordSize(Ehdr, is32) + i * RecordSize(Shdr, is32)
    }

    function StringsAt(): nat {
      NamesAt() + 33
    }

    function StringsSize(): nat {
      18 + |def.objectName|
    }

    function SymbolsAt(): nat {
      StringsAt() + StringsSize()
    }

    function SymbolAt(i: nat): nat {
      SymbolsAt() + i * RecordSize(Sym, is32)
    }

    function DataAt(): nat {
      SymbolsAt() + 3 * RecordSize(Sym, is32)
    }

    function Size(): nat {
      DataAt() + mission.FileDefSize() + |payload|
    }

    /** A relocatable file with five sections; the last holds their names. */
    function HeaderValues(): (v: seq<nat>)
      ensures |v| == 29
    {
      [0x7f, 0x45, 0x4C, 0x46, if is32 then 1 else 2, if target == Little then 1 else 2, 1, 0, 0, 0, 0, 0, 0, 0, 0, 0]
      + [1, 2, 1, 0, 0, RecordSize(Ehdr, is32), 0, RecordSize(Ehdr, is32), 0, 0, RecordSize(Shdr, is32), 5, 4]
    }

    /** The empty section, .data, .symtab, .strtab and .shstrtab. */
    function SectionValues(): (v: seq<seq<nat>>)
      ensures |v| == 5 && forall i :: 0 <= i < 5 ==> |v[i]| == 10
    {
      [Shdr10(0, 0, 0, 0, 0), Shdr10(1, 1, DataAt(), mission.FileDefSize() + |payload|, 0),
       Shdr10(7, 2, SymbolsAt(), 3 * RecordSize(Sym, is32), RecordSize(Sym, is32)),
       Shdr10(15, 3, StringsAt(), StringsSize(), 0), Shdr10(23, 3, NamesAt(), 33, 0)]
    }

    /** The empty entry, the definition and the table, one behind the other in .data. */
    function SymbolValues(): (v: seq<seq<nat>>)
      ensures |v| == 3 && forall i :: 0 <= i < 3 ==> |v[i]| == 6
    {
      [Sym6(is32, 0, 0, 0, 0), Sym6(is32, 1, 0, mission.FileDefSize(), 1),
       Sym6(is32, 17, mission.FileDefSize(), |payload|, 1)]
    }

    function Strings(): (s: seq<Byte>)
      ensures |s| == StringsSize()
    {
      [0] + TBL_DEF_SYMBOL_NAME + [0] + def.objectName + [0]
    }

    /** The file name, which is left empty, and the padding behind it. */
    function RestOfDef(): nat {
      Aligned(64 + mission.nameLen + mission.descLen + mission.fileLen) - 64 - mission.nameLen - mission.descLen
    }

    function DefBytes(): (s: seq<Byte>)
      requires |def.objectName| < 64 && |def.tableName| < mission.nameLen && |def.description| < mission.descLen
      ensures |s| == mission.FileDefSize()
    {
      Padded(def.objectName, 64) + Padded(def.tableName, mission.nameLen) + Padded(def.description, mission.descLen)
      + Padded([], RestOfDef()) + Bytes(target, def.objectSize, 4)
    }

    function File(): ElfFile {
      ElfFile(is32, target, HeaderValues(), SectionValues(), SymbolValues(), 2, 3)
    }
  }

  function Shdr10(name: nat, kind: nat, offset: nat, size: nat, entsize: nat): (v: seq<nat>)
    ensures |v| == 10
  {
    [name, kind, 0, 0, offset, size, 0, 0, 0, entsize]
  }

  function Sym6(is32: bool, name: nat, value: nat, size: nat, shndx: nat): (v: seq<nat>)
    ensures |v| == 6
  {
    if is32 then [name, value, size, 0, 0, shndx] else [name, 0, 0, shndx, value, size]
  }

  /** The names of the sections: .data, .symtab, .strtab and .shstrtab. */
  const NAMES: seq<Byte> := [0] + DATA + [0] + SYMTAB + [0] + STRTAB + [0] + SHSTRTAB + [0]

  const DATA: Text := [0x2E, 0x64, 0x61, 0x74, 0x61]
  const SYMTAB: Text := [0x2E, 0x73, 0x79, 0x6D, 0x74, 0x61, 0x62]
  const SHSTRTAB: Text := [0x2E, 0x73, 0x68, 0x73, 0x74, 0x72, 0x74, 0x61, 0x62]

  function Rec(j: Job, k: RecordKind, values: seq<nat>): seq<Byte> {
    if |values| == |Layout(k, j.is32)| then Encode(j.target, values, Layout(k, j.is32)) else []
  }

  function Chunks(j: Job): (c: seq<seq<Byte>>)
    requires j.Valid()
    ensures |c| == 13
  {
    var s, y := j.SectionValues(), j.SymbolValues();
    [Rec(j, Ehdr, j.HeaderValues()), Rec(j, Shdr, s[0]), Rec(j, Shdr, s[1]), Rec(j, Shdr, s[2]), Rec(j, Shdr, s[3]),
     Rec(j, Shdr, s[4]), NAMES, j.Strings(), Rec(j, Sym, y[0]), Rec(j, Sym, y[1]), Rec(j, Sym, y[2]), j.DefBytes(),
       j.payload]
  }

  /** The file. */
  function Build(j: Job): seq<Byte>
    requires j.Valid()
  {
    Flatten(Chunks(j))
  }

  // ----- Where it is -----

  predicate At(source: seq<Byte>, p: nat, piece: seq<Byte>) {
    p + |piece| <= |source| && source[p..p + |piece|] == piece
  }

  lemma RecLength(j: Job, k: RecordKind, values: seq<nat>)
    requires |values| == |Layout(k, j.is32)|
    ensures |Rec(j, k, values)| == RecordSize(k, j.is32)
  {
    LayoutIsContiguous(k, j.is32);
    EncodedLength(j.target, values, Layout(k, j.is32));
  }

  lemma ChunkSizes(j: Job)
    requires j.Valid()
    ensures var c := Chunks(j);
      && |c[0]| == RecordSize(Ehdr, j.is32) && (forall i :: 1 <= i <= 5 ==> |c[i]| == RecordSize(Shdr, j.is32))
      && |c[6]| == 33 && |c[7]| == j.StringsSize() && (forall i :: 8 <= i <= 10 ==> |c[i]| == RecordSize(Sym, j.is32))
      && |c[11]| == j.mission.FileDefSize() && |c[12]| == |j.payload|
  {
    hide Rec, RecordSize;
    HeaderLength(j);
    forall i | 0 <= i < 5 ensures |Rec(j, Shdr, j.SectionValues()[i])| == RecordSize(Shdr, j.is32) {
      SectionLength(j, i);
    }
    forall i | 0 <= i < 3 ensures |Rec(j, Sym, j.SymbolValues()[i])| == RecordSize(Sym, j.is32) {
      SymbolLength(j, i);
    }
  }

  lemma HeaderLength(j: Job)
    ensures |Rec(j, Ehdr, j.HeaderValues())| == RecordSize(Ehdr, j.is32)
  {
    hide Rec;
    LayoutLengths(j.is32);
    RecLength(j, Ehdr, j.HeaderValues());
  }

  lemma SectionLength(j: Job, i: nat)
    requires i < 5
    ensures |Rec(j, Shdr, j.SectionValues()[i])| == RecordSize(Shdr, j.is32)
  {
    hide Rec;
    LayoutLengths(j.is32);
    RecLength(j, Shdr, j.SectionValues()[i]);
  }

  lemma SymbolLength(j: Job, i: nat)
    requires i < 3
    ensures |Rec(j, Sym, j.SymbolValues()[i])| == RecordSize(Sym, j.is32)
  {
    hide Rec;
    LayoutLengths(j.is32);
    RecLength(j, Sym, j.SymbolValues()[i]);
  }

  lemma Offsets(c: seq<seq<Byte>>, h: nat, r: nat, y: nat)
    requires |c| == 13 && |c[0]| == h && (forall i :: 1 <= i <= 5 ==> |c[i]| == r)
    requires forall i :: 8 <= i <= 10 ==> |c[i]| == y
    ensures Offset(c, 1) == h && Offset(c, 2) == h + r && Offset(c, 3) == h + 2 * r
    ensures Offset(c, 4) == h + 3 * r && Offset(c, 5) == h + 4 * r && Offset(c, 6) == h + 5 * r
    ensures Offset(c, 7) == h + 5 * r + |c[6]| && Offset(c, 8) == Offset(c, 7) + |c[7]|
    ensures Offset(c, 9) == Offset(c, 8) + y && Offset(c, 10) == Offset(c, 8) + 2 * y
    ensures Offset(c, 11) == Offset(c, 8) + 3 * y && Offset(c, 12) == Offset(c, 11) + |c[11]|
    ensures Offset(c, 13) == Offset(c, 12) + |c[12]|
  {
  }

  lemma ChunkOffsets(j: Job)
    requires j.Valid()
    ensures var c := Chunks(j);
      && (forall i :: 0 <= i < 5 ==> Offset(c, 1 + i) == j.SectionAt(i))
      && Offset(c, 6) == j.NamesAt() && Offset(c, 7) == j.StringsAt()
      && (forall i :: 0 <= i < 3 ==> Offset(c, 8 + i) == j.SymbolAt(i))
      && Offset(c, 11) == j.DataAt() && Offset(c, 12) == j.DataAt() + j.mission.FileDefSize()
        && Offset(c, 13) == j.Size()
  {
    hide RecordSize, Chunks, Offset;
    var c := Chunks(j);
    ChunkSizes(j);
    Offsets(c, RecordSize(Ehdr, j.is32), RecordSize(Shdr, j.is32), RecordSize(Sym, j.is32));
    assert Offset(c, 1 + 0) == j.SectionAt(0) && Offset(c, 1 + 1) == j.SectionAt(1)
      && Offset(c, 1 + 2) == j.SectionAt(2);
    assert Offset(c, 1 + 3) == j.SectionAt(3) && Offset(c, 1 + 4) == j.SectionAt(4);
    assert Offset(c, 8 + 0) == j.SymbolAt(0) && Offset(c, 8 + 1) == j.SymbolAt(1) && Offset(c, 8 + 2) == j.SymbolAt(2);
  }

  lemma ChunkPlace(j: Job, i: nat)
    requires j.Valid() && i < 13
    ensures At(Build(j), Offset(Chunks(j), i), Chunks(j)[i]) && |Build(j)| == j.Size()
  {
    hide Chunks, Offset, Flatten;
    ChunkOffsets(j);
    FlattenLength(Chunks(j));
    ChunkAt(Chunks(j), i);
  }

  lemma SectionPlace(j: Job, i: nat)
    requires j.Valid() && i < 5
    ensures At(Build(j), j.SectionAt(i), Rec(j, Shdr, j.SectionValues()[i]))
  {
    hide RecordSize, Build, Rec, Offset;
    ChunkOffsets(j);
    ChunkPlace(j, 1 + i);
    assert Chunks(j)[1 + i] == Rec(j, Shdr, j.SectionValues()[i]);
  }

  lemma SymbolPlace(j: Job, i: nat)
    requires j.Valid() && i < 3
    ensures At(Build(j), j.SymbolAt(i), Rec(j, Sym, j.SymbolValues()[i]))
  {
    hide RecordSize, Build, Rec, Offset;
    ChunkOffsets(j);
    ChunkPlace(j, 8 + i);
    assert Chunks(j)[8 + i] == Rec(j, Sym, j.SymbolValues()[i]);
  }

  lemma HeaderPlace(j: Job)
    requires j.Valid()
    ensures |Build(j)| == j.Size() && At(Build(j), 0, Rec(j, Ehdr, j.HeaderValues()))
  {
    hide RecordSize, Build, Rec;
    ChunkOffsets(j);
    ChunkPlace(j, 0);
    assert Chunks(j)[0] == Rec(j, Ehdr, j.HeaderValues());
  }

  lemma NamesPlace(j: Job)
    requires j.Valid()
    ensures |Build(j)| == j.Size() && At(Build(j), j.NamesAt(), NAMES)
  {
    hide RecordSize, Build, Rec, Offset;
    ChunkOffsets(j);
    ChunkPlace(j, 6);
    assert Chunks(j)[6] == NAMES;
  }

  lemma StringsPlace(j: Job)
    requires j.Valid()
    ensures |Build(j)| == j.Size() && At(Build(j), j.StringsAt(), j.Strings())
  {
    hide RecordSize, Build, Rec, Offset;
    ChunkOffsets(j);
    ChunkPlace(j, 7);
    assert Chunks(j)[7] == j.Strings();
  }

  lemma DefinitionPlace(j: Job)
    requires j.Valid()
    ensures |Build(j)| == j.Size() && At(Build(j), j.DataAt(), j.DefBytes())
  {
    hide RecordSize, Build, Rec, Offset;
    ChunkOffsets(j);
    ChunkPlace(j, 11);
    assert Chunks(j)[11] == j.DefBytes();
  }

  lemma PayloadPlace(j: Job)
    requires j.Valid()
    ensures |Build(j)| == j.Size() && At(Build(j), j.DataAt() + j.mission.FileDefSize(), j.payload)
  {
    hide RecordSize, Build, Rec, Offset;
    ChunkOffsets(j);
    ChunkPlace(j, 12);
    assert Chunks(j)[12] == j.payload;
  }

  // ----- The records are in the file -----

  lemma PowersGrow(w: nat)
    ensures w >= 1 ==> Pow256(w) >= 256
    ensures w >= 2 ==> Pow256(w) >= 0x1_0000
    ensures w >= 4 ==> Pow256(w) >= 0x1_0000_0000
  {
    if w >= 2 {
      assert Pow256(w) == 256 * Pow256(w - 1) && Pow256(w - 1) == 256 * Pow256(w - 2);
    }
    if w >= 4 {
      assert Pow256(w - 2) == 256 * Pow256(w - 3) && Pow256(w - 3) == 256 * Pow256(w - 4);
    }
  }

  lemma RecordIsAt(j: Job, source: seq<Byte>, p: nat, k: RecordKind, values: seq<nat>)
    requires FitsWidth(values, Layout(k, j.is32)) && At(source, p, Rec(j, k, values))
    ensures RecordAt(source, p, k, j.is32, j.target, values)
  {
    RecLength(j, k, values);
    hide Layout, RecordSize, Encode;
  }

  lemma HeaderWritten(j: Job)
    requires j.Valid()
    ensures GoodHeaderValues(j.is32, j.target, j.HeaderValues())
    ensures RecordAt(Build(j), 0, Ehdr, j.is32, j.target, j.HeaderValues())
  {
    hide Build, Rec, Encode, EMachineMap, At;
    HeaderValuesFit(j);
    HeaderPlace(j);
    RecordIsAt(j, Build(j), 0, Ehdr, j.HeaderValues());
    MachineIsKnown();
  }

  lemma MachineIsKnown()
    ensures 2 in EMachineMap()
  {
    assert EMachineMap()[2] == 2;
  }

  lemma HeaderValuesFit(j: Job)
    ensures FitsWidth(j.HeaderValues(), Layout(Ehdr, j.is32))
  {
    var v, l := j.HeaderValues(), Layout(Ehdr, j.is32);
    LayoutLengths(j.is32);
    WidthsArePositive(j.is32);
    hide Layout, Pow256;
    forall i | 0 <= i < 29 ensures v[i] < Pow256(l[i].width) {
      PowersGrow(l[i].width);
      assert v[i] < 256;
    }
  }

  lemma WidthsArePositive(is32: bool)
    ensures forall i :: 0 <= i < |Layout(Ehdr, is32)| ==> Layout(Ehdr, is32)[i].width >= 1
    ensures forall i :: 0 <= i < |Layout(Shdr, is32)| ==> Layout(Shdr, is32)[i].width >= 4
  {
  }

  lemma SectionWritten(j: Job, i: nat)
    requires j.Valid() && i < 5
    ensures RecordAt(Build(j), j.SectionAt(i), Shdr, j.is32, j.target, j.SectionValues()[i])
  {
    hide Build, Rec;
    SectionPlace(j, i);
    SectionValuesFit(j, i);
    RecordIsAt(j, Build(j), j.SectionAt(i), Shdr, j.SectionValues()[i]);
  }

  lemma SectionValuesFit(j: Job, i: nat)
    requires j.Valid() && i < 5
    ensures FitsWidth(j.SectionValues()[i], Layout(Shdr, j.is32))
  {
    var v, l := j.SectionValues()[i], Layout(Shdr, j.is32);
    LayoutLengths(j.is32);
    WidthsArePositive(j.is32);
    hide Layout, Pow256;
    forall k | 0 <= k < 10 ensures v[k] < Pow256(l[k].width) {
      PowersGrow(l[k].width);
      assert v[k] < 0x8000_0000;
    }
  }

  lemma SymbolWritten(j: Job, i: nat)
    requires j.Valid() && i < 3
    ensures RecordAt(Build(j), j.SymbolAt(i), Sym, j.is32, j.target, j.SymbolValues()[i])
  {
    hide Build, Rec;
    SymbolPlace(j, i);
    SymbolValuesFit(j, i);
    RecordIsAt(j, Build(j), j.SymbolAt(i), Sym, j.SymbolValues()[i]);
  }

  lemma SymbolValuesFit(j: Job, i: nat)
    requires j.Valid() && i < 3
    ensures FitsWidth(j.SymbolValues()[i], Layout(Sym, j.is32))
  {
    var v, l := j.SymbolValues()[i], Layout(Sym, j.is32);
    PowersGrow(1);
    PowersGrow(2);
    PowersGrow(4);
    PowersGrow(8);
    hide Pow256;
    forall k | 0 <= k < 6 ensures v[k] < Pow256(l[k].width) {
      assert v[k] < 0x8000_0000;
    }
  }

  // ----- The texts are in the file -----

  lemma {:induction false} TextIn(source: seq<Byte>, p: nat, t: Text)
    requires p + |t| < |source| && source[p..p + |t|] == t && source[p + |t|] == 0 && 0 !in t
    ensures TextAt(source, p) == t
    decreases |t|
  {
    if t != [] {
      assert source[p] == t[0] && source[p + 1..p + |t|] == t[1..];
      TextIn(source, p + 1, t[1..]);
    }
  }

  lemma SliceOfSlice<T>(s: seq<T>, a: nat, b: nat, i: nat, k: nat)
    requires a <= b <= |s| && i <= k <= b - a
    ensures s[a..b][i..k] == s[a + i..a + k]
  {
    var l, r := s[a..b][i..k], s[a + i..a + k];
    forall x | 0 <= x < |l| ensures l[x] == r[x] {
      assert l[x] == s[a..b][i + x] == s[a + i + x];
    }
    assert l == r;
  }

  /** A text with its NUL inside a piece. */
  lemma TextInPiece(source: seq<Byte>, p: nat, piece: seq<Byte>, k: nat, t: Text)
    requires At(source, p, piece) && k + |t| < |piece| && piece[k..k + |t| + 1] == t + [0] && 0 !in t
    ensures TextAt(source, p + k) == t && p + k + |t| < |source|
  {
    var q := p + k;
    var s := source[q..q + |t| + 1];
    SliceOfSlice(source, p, p + |piece|, k, k + |t| + 1);
    assert s == t + [0];
    assert source[q..q + |t|] == s[..|t|] == t && source[q + |t|] == s[|t|] == 0;
    TextIn(source, q, t);
  }

  lemma NamesInNames()
    ensures NAMES[1..7] == DATA + [0] && NAMES[7..15] == SYMTAB + [0]
    ensures NAMES[15..23] == STRTAB + [0] && NAMES[23..33] == SHSTRTAB + [0]
  {
    NamesInRow(DATA, SYMTAB, STRTAB, SHSTRTAB);
  }

  lemma NamesInRow(a: Text, b: Text, c: Text, d: Text)
    requires |a| == 5 && |b| == 7 && |c| == 7 && |d| == 9
    ensures var s := [0] + a + [0] + b + [0] + c + [0] + d + [0];
      s[1..7] == a + [0] && s[7..15] == b + [0] && s[15..23] == c + [0] && s[23..33] == d + [0]
  {
  }

  lemma NamesInStrings(name: Text)
    ensures var s := [0] + TBL_DEF_SYMBOL_NAME + [0] + name + [0];
      s[1..17] == TBL_DEF_SYMBOL_NAME + [0] && s[17..17 + |name| + 1] == name + [0]
  {
  }

  lemma SectionNames(j: Job)
    requires j.Valid()
    ensures var source, n := Build(j), j.NamesAt();
      && TextAt(source, n + 1) == DATA && TextAt(source, n + 7) == SYMTAB
      && TextAt(source, n + 15) == STRTAB && TextAt(source, n + 23) == SHSTRTAB
      && n + 33 <= |source|
  {
    hide Build, TextAt, At, RecordSize;
    NamesPlace(j);
    NamesInNames();
    var n := j.NamesAt();
    TextInPiece(Build(j), n, NAMES, 1, DATA);
    TextInPiece(Build(j), n, NAMES, 7, SYMTAB);
    TextInPiece(Build(j), n, NAMES, 15, STRTAB);
    TextInPiece(Build(j), n, NAMES, 23, SHSTRTAB);
  }

  lemma SymbolNames(j: Job)
    requires j.Valid()
    ensures var source, n := Build(j), j.StringsAt();
      && TextAt(source, n + 1) == TBL_DEF_SYMBOL_NAME && TextAt(source, n + 17) == j.def.objectName
      && n + 18 + |j.def.objectName| <= |source|
  {
    hide Build, TextAt, At, RecordSize;
    StringsPlace(j);
    var n, s, name := j.StringsAt(), j.Strings(), j.def.objectName;
    NamesInStrings(name);
    assert s == [0] + TBL_DEF_SYMBOL_NAME + [0] + name + [0];
    TextInPiece(Build(j), n, s, 1, TBL_DEF_SYMBOL_NAME);
    TextInPiece(Build(j), n, s, 17, name);
  }

  // ----- The file is well formed -----

  lemma SectionsAreWritten(j: Job)
    requires j.Valid()
    ensures SectionsWritten(Build(j), j.File()) && NamesOffset(j.File()) == j.NamesAt()
  {
    hide Build, RecordAt;
    var f := j.File();
    assert f.header[21] == RecordSize(Ehdr, j.is32) && f.header[26] == RecordSize(Shdr, j.is32);
    assert f.header[27] == 5 && f.header[28] == 4;
    forall i | 0 <= i < 5
      ensures RecordAt(Build(j), f.header[21] + i * f.header[26], Shdr, f.is32, f.target, f.sections[i])
    {
      SectionWritten(j, i);
    }
  }

  lemma NamesComeLater(j: Job)
    ensures j.NamesAt() > 0
  {
  }

  lemma NamesAreWritten(j: Job)
    requires j.Valid()
    ensures SectionsWritten(Build(j), j.File()) && NamesWritten(Build(j), j.File())
  {
    hide Build, TextAt, SectionsWritten, RecordSize, At;
    SectionsAreWritten(j);
    SectionNames(j);
    NamesComeLater(j);
    forall i | 0 <= i < 5 && j.SectionValues()[i][0] != 0
      ensures Terminated(Build(j), j.NamesAt() + j.SectionValues()[i][0])
    {
      match i {
        case 1 => case 2 => case 3 => case 4 =>
      }
    }
  }

  lemma SectionRead(j: Job, i: nat)
    requires j.Valid() && i < 5 && SectionsWritten(Build(j), j.File()) && NamesOffset(j.File()) == j.NamesAt()
    ensures var v := j.SectionValues()[i];
      SectionsOfFile(Build(j), j.File())[i]
        == NamedSection(SectionFrom(v), if v[0] != 0 then Some(TextAt(Build(j), j.NamesAt() + v[0])) else None)
  {
    hide Build, TextAt, SectionsWritten, RecordSize, SectionFrom;
  }

  /** The sections as the converter will see them. */
  lemma SectionsRead(j: Job)
    requires j.Valid()
    ensures SectionsWritten(Build(j), j.File())
    ensures var s := SectionsOfFile(Build(j), j.File());
      && |s| == 5 && s[0].name == None
      && s[1] == NamedSection(Section(1, 1, j.DataAt(), j.mission.FileDefSize() + |j.payload|, 0), Some(DATA))
      && s[2] == NamedSection(Section(7, 2, j.SymbolsAt(), 3 * RecordSize(Sym, j.is32), RecordSize(Sym, j.is32)),
        Some(SYMTAB))
      && s[3] == NamedSection(Section(15, 3, j.StringsAt(), j.StringsSize(), 0), Some(STRTAB))
      && s[4] == NamedSection(Section(23, 3, j.NamesAt(), 33, 0), Some(SHSTRTAB))
  {
    hide Build, TextAt, SectionsWritten, RecordSize, SectionsOfFile, At;
    SectionsAreWritten(j);
    SectionNames(j);
    SectionRead(j, 0);
    SectionRead(j, 1);
    SectionRead(j, 2);
    SectionRead(j, 3);
    SectionRead(j, 4);
    var s, v := SectionsOfFile(Build(j), j.File()), j.SectionValues();
    assert |s| == 5;
    assert s[0].name == None;
    assert s[1] == NamedSection(SectionFrom(v[1]), Some(DATA));
    assert s[2] == NamedSection(SectionFrom(v[2]), Some(SYMTAB));
    assert s[3] == NamedSection(SectionFrom(v[3]), Some(STRTAB));
    assert s[4] == NamedSection(SectionFrom(v[4]), Some(SHSTRTAB));
  }

  lemma ThreeEntries(is32: bool)
    ensures var n := RecordSize(Sym, is32); 3 * n / n == 3 && 0 < n <= 3 * n
  {
  }

  lemma EntriesAreWritten(j: Job)
    requires j.Valid()
    ensures EntriesWritten(Build(j), j.File(),
      Section(7, 2, j.SymbolsAt(), 3 * RecordSize(Sym, j.is32), RecordSize(Sym, j.is32)))
  {
    hide Build, RecordAt, RecordSize, At;
    PayloadPlace(j);
    ThreeEntries(j.is32);
    var f := j.File();
    forall k | 1 <= k < 3
      ensures |f.symbols[k]| == 6 && EntryAt(Build(j), j.SymbolsAt() + k * RecordSize(Sym, f.is32), f, k)
    {
      SymbolWritten(j, k);
    }
  }

  lemma SymbolTableIsWritten(j: Job)
    requires j.Valid()
    ensures SectionsWritten(Build(j), j.File()) && SymbolsWritten(Build(j), j.File())
  {
    hide Build, SectionsWritten, SectionsOfFile, EntriesWritten, RecordSize;
    SectionsRead(j);
    EntriesAreWritten(j);
    ThreeEntries(j.is32);
    var s := SectionsOfFile(Build(j), j.File());
    assert IsSymbolTable(s[2]) && forall i :: 0 <= i < 5 && i != 2 ==> !IsSymbolTable(s[i]);
  }

  lemma SymbolsAreWritten(j: Job)
    requires j.Valid()
    ensures SectionsWritten(Build(j), j.File()) && SymbolsWritten(Build(j), j.File())
      && StringsWritten(Build(j), j.File())
  {
    hide Build, SectionsWritten, SymbolsWritten, SectionsOfFile, TextAt, RecordSize;
    SymbolTableIsWritten(j);
    SectionsRead(j);
    SymbolNames(j);
    var s := SectionsOfFile(Build(j), j.File());
    assert IsStrtab(s[3]) && !IsStrtab(s[4]);
    assert LastStrtab(s, 3);
    forall k | 1 <= k < 3 ensures Terminated(Build(j), s[3].section.offset + j.SymbolValues()[k][0]) {
      match k {
        case 1 => case 2 =>
      }
    }
  }

  lemma BuiltIsWellFormed(j: Job)
    requires j.Valid()
    ensures WellFormed(Build(j), j.File())
  {
    hide Build, RecordAt, GoodHeaderValues, SectionsWritten, NamesWritten, SymbolsWritten, StringsWritten, RecordSize;
    HeaderWritten(j);
    NamesAreWritten(j);
    SymbolsAreWritten(j);
    PayloadPlace(j);
  }

  // ----- The table comes out -----

  lemma FivePieces<T>(a: seq<T>, b: seq<T>, c: seq<T>, d: seq<T>, e: seq<T>)
    ensures var s, p := a + b + c + d + e, |a| + |b|;
      && s[0..|a|] == a && s[|a|..p] == b && s[p..p + |c|] == c && s[p + |c| + |d|..p + |c| + |d| + |e|] == e
  {
  }

  lemma DefinitionPieces(j: Job)
    requires j.Valid()
    ensures var m, d, mem := j.mission, j.def, j.DefBytes();
      && Raw(mem, DefObjectName()) == Padded(d.objectName, 64)
      && Raw(mem, DefTableName(m)) == Padded(d.tableName, m.nameLen)
      && Raw(mem, DefDescription(m)) == Padded(d.description, m.descLen)
      && Raw(mem, DefObjectSize(m)) == Bytes(j.target, d.objectSize, 4)
  {
    hide Padded, Bytes;
    var m, d := j.mission, j.def;
    FivePieces(Padded(d.objectName, 64), Padded(d.tableName, m.nameLen), Padded(d.description, m.descLen),
               Padded([], j.RestOfDef()), Bytes(j.target, d.objectSize, 4));
  }

  lemma DefinitionReadsBack(j: Job)
    requires j.Valid()
    ensures FileDefOf(j.target, j.mission, j.DefBytes()) == j.def
  {
    var m, d, mem := j.mission, j.def, j.DefBytes();
    DefinitionPieces(j);
    hide Padded, Bytes, TextField, Get, Raw;
    PaddedText(mem, DefObjectName(), d.objectName);
    PaddedText(mem, DefTableName(m), d.tableName);
    PaddedText(mem, DefDescription(m), d.description);
    PowersGrow(4);
    BytesThenValue(j.target, d.objectSize, 4);
    GetRaw(j.target, mem, DefObjectSize(m));
  }

  lemma GetRaw(o: Order, mem: seq<Byte>, f: Field)
    requires Fits(f, mem)
    ensures Get(o, mem, f) == Value(o, Raw(mem, f))
  {
  }

  lemma SymbolRead(j: Job, i: nat)
    requires j.Valid() && i < 2 && SectionsWritten(Build(j), j.File())
    requires SymbolsWritten(Build(j), j.File()) && StringsWritten(Build(j), j.File())
    requires SectionsOfFile(Build(j), j.File())[3].section.offset == j.StringsAt()
    ensures var v := j.SymbolValues()[i + 1];
      SymbolsOfFile(Build(j), j.File())[i] == NamedSymbol(SymbolFrom(j.is32, v), TextAt(Build(j), j.StringsAt() + v[0]))
  {
    hide Build, TextAt, SectionsWritten, SectionsOfFile, SymbolsWritten, StringsWritten, RecordSize, SymbolFrom;
  }

  lemma SymbolsRead(j: Job)
    requires j.Valid()
    ensures SectionsWritten(Build(j), j.File()) && SymbolsWritten(Build(j), j.File())
      && StringsWritten(Build(j), j.File())
    ensures SymbolsOfFile(Build(j), j.File()) ==
      [NamedSymbol(Symbol(1, 0, j.mission.FileDefSize(), 1), TBL_DEF_SYMBOL_NAME),
       NamedSymbol(Symbol(17, j.mission.FileDefSize(), |j.payload|, 1), j.def.objectName)]
  {
    hide Build, SectionsWritten, SymbolsWritten, StringsWritten, SectionsOfFile, SymbolsOfFile, TextAt, RecordSize;
    SymbolsAreWritten(j);
    SectionsRead(j);
    SymbolNames(j);
    SymbolRead(j, 0);
    SymbolRead(j, 1);
    assert |SymbolsOfFile(Build(j), j.File())| == 2;
  }

  lemma SymbolsPicked(def: NamedSymbol, table: NamedSymbol, stack: nat -> Text)
    requires def.name == TBL_DEF_SYMBOL_NAME && table.name != [] && !CarriesDefinition(table.name)
    requires !Matches(TBL_DEF_SYMBOL_NAME, table.name)
    ensures DefinitionIndex([def, table], stack) == 0 && ObjectIndex([def, table], table.name) == 1
  {
    var symbols := [def, table];
    assert !IsDefinition(symbols[1].name, stack(1));
    DefinitionIsLast(symbols, stack, 0);
    ObjectIsFirstMatch(symbols, table.name, 1);
  }

  /**
   * For every table, class and byte order there is a well-formed file, and from it the converter, whatever the buffer
   * holds and on either host, makes the table file with that table.
   */
  lemma BuiltIsConverted(j: Job, options: Options, stack: nat -> Text)
    requires j.Valid() && options.Valid(j.mission)
    ensures var s := Setup(j.mission, options, stack);
      && WellFormed(Build(j), j.File()) && Defined(Build(j), s)
      && Convert(Build(j), s) == Some(TableFileBytes(j.mission, options, j.def, j.payload))
  {
    hide Build, WellFormed, SectionsWritten, SymbolsWritten, StringsWritten, SectionsOfFile, SymbolsOfFile, RecordSize;
    hide Convert, Defined, TableFileBytes, DefinitionWritten, TableWritten;
    var s := Setup(j.mission, options, stack);
    BuiltIsWellFormed(j);
    SectionsRead(j);
    SymbolsRead(j);
    var source, f := Build(j), j.File();
    var im := Image(HeaderOfFile(f), SectionsOfFile(source, f), SymbolsOfFile(source, f));
    PiecesAreWritten(j, s, im);
    WellFormedIsConverted(source, f, s, j.def, j.payload);
  }

  lemma PiecesAreWritten(j: Job, s: Setup, im: Image)
    requires j.Valid() && s.Valid() && s.mission == j.mission && im.header.target == j.target
    requires |im.sections| == 5 && im.sections[1].name == Some(DATA) && im.sections[1].section.offset == j.DataAt()
    requires im.symbols == [NamedSymbol(Symbol(1, 0, j.mission.FileDefSize(), 1), TBL_DEF_SYMBOL_NAME),
                            NamedSymbol(Symbol(17, j.mission.FileDefSize(), |j.payload|, 1), j.def.objectName)]
    ensures DefinitionWritten(Build(j), s, im, j.def) && TableWritten(Build(j), im, j.def, j.payload)
  {
    hide Build, RecordSize, FileDefOf, CarriesDefinition, Matches, DefinitionIndex, ObjectIndex;
    DefinitionPlace(j);
    PayloadPlace(j);
    DefinitionReadsBack(j);
    SymbolsPicked(im.symbols[0], im.symbols[1], s.stack);
  }
}
