/**
 * Files that are written as the System V ABI says, in either class and byte order: the converter reads from them
 * exactly the records that were written.
 */
module ElfWellFormed {
  import opened Basics
  import opened ElfBytes
  import opened ElfLayout
  import opened ElfImage
  import opened TableFile
  import opened ElfConversion
  import opened ElfProperties

  /** The values of the records of a file, field by field in the order of the structures. */
  datatype ElfFile = ElfFile(is32: bool, target: Order, header: seq<nat>, sections: seq<seq<nat>>,
                             symbols: seq<seq<nat>>, symtab: nat, strtab: nat)

  /** A record with these values is in the file at a place. */
  predicate RecordAt(source: seq<Byte>, p: nat, k: RecordKind, is32: bool, target: Order, values: seq<nat>) {
    && FitsWidth(values, Layout(k, is32))
    && p + RecordSize(k, is32) <= |source|
    && source[p..p + RecordSize(k, is32)] == Encode(target, values, Layout(k, is32))
  }

  function HeaderFrom(is32: bool, target: Order, v: seq<nat>): Header
    requires |v| == 29
  {
    Header(is32, target, v[21], v[26], v[27], v[28])
  }

  function SectionFrom(v: seq<nat>): Section
    requires |v| == 10
  {
    Section(v[0], v[1], v[4], v[5], v[9])
  }

  function SymbolFrom(is32: bool, v: seq<nat>): Symbol
    requires |v| == 6
  {
    if is32 then Symbol(v[0], v[1], v[2], v[5]) else Symbol(v[0], v[4], v[5], v[3])
  }

  lemma LayoutLengths(is32: bool)
    ensures |Layout(Ehdr, is32)| == 29 && |Layout(Shdr, is32)| == 10 && |Layout(Sym, is32)| == 6
  {
  }

  /** Each field of a written record reads back. */
  lemma RecordFields(source: seq<Byte>, p: nat, k: RecordKind, is32: bool, target: Order, values: seq<nat>)
    requires RecordAt(source, p, k, is32, target, values)
    ensures var mem, l := source[p..p + RecordSize(k, is32)], Layout(k, is32);
      forall i :: 0 <= i < |l| ==> Fits(l[i], mem) && Get(target, mem, l[i]) == values[i]
  {
    hide Layout, RecordSize, Get;
    LayoutIsContiguous(k, is32);
    forall i | 0 <= i < |Layout(k, is32)|
      ensures var mem, l := source[p..p + RecordSize(k, is32)], Layout(k, is32);
        Fits(l[i], mem) && Get(target, mem, l[i]) == values[i]
    {
      EncodedField(target, values, Layout(k, is32), i);
    }
  }

  lemma SectionRecord(source: seq<Byte>, h: Header, i: nat, values: seq<nat>)
    requires SectionPos(h, i) >= 0 && RecordAt(source, SectionPos(h, i), Shdr, h.is32, h.target, values)
    ensures |values| == 10 && ParseSection(source, h, i) == Some(SectionFrom(values))
  {
    LayoutLengths(h.is32);
    RecordFields(source, SectionPos(h, i), Shdr, h.is32, h.target, values);
    hide Get;
    var l := Layout(Shdr, h.is32);
    assert l[0] == ShName() && l[1] == ShType() && l[4] == ShOffset(h.is32) && l[5] == ShSize(h.is32);
    assert l[9] == ShEntsize(h.is32);
  }

  lemma SymbolRecord(source: seq<Byte>, h: Header, t: Tables, i: nat, values: seq<nat>)
    requires SymbolPos(t, i) < 0x8000_0000 && RecordAt(source, SymbolPos(t, i), Sym, h.is32, h.target, values)
    ensures |values| == 6 && ParseSymbol(source, h, t, i) == Some(SymbolFrom(h.is32, values))
  {
    LayoutLengths(h.is32);
    RecordFields(source, SymbolPos(t, i), Sym, h.is32, h.target, values);
    hide Get;
    var l := Layout(Sym, h.is32);
    assert l[0] == StName() && StValue(h.is32) == l[if h.is32 then 1 else 4]
      && StSize(h.is32) == l[if h.is32 then 2 else 5];
    assert StShndx(h.is32) == l[if h.is32 then 5 else 3];
  }

  /** e_ident as the ABI wants it, and a type, machine and version that the tool knows. */
  predicate GoodHeaderValues(is32: bool, target: Order, v: seq<nat>) {
    && |v| == 29
    && v[..4] == ELF_MAGIC && v[EI_CLASS] == (if is32 then 1 else 2)
      && v[EI_DATA] == (if target == Little then 1 else 2)
    && v[EI_VERSION] == EV_CURRENT && v[16] in ETypeMap() && v[17] in EMachineMap() && v[18] == EV_CURRENT
  }

  lemma HeaderRecord(source: seq<Byte>, is32: bool, target: Order, values: seq<nat>)
    requires RecordAt(source, 0, Ehdr, is32, target, values) && GoodHeaderValues(is32, target, values)
    ensures ParseHeader(source) == Some(HeaderFrom(is32, target, values))
  {
    hide EMachineMap, ETypeMap, RecordAt, Get, Layout;
    HeaderFields(source, is32, target, values);
    HeaderIndices(is32);
    IdentBytes(source, is32, target, values);
    assert source[..4] == ELF_MAGIC by {
      assert forall k :: 0 <= k < 4 ==> source[k] == values[k] == values[..4][k];
    }
  }

  lemma HeaderFields(source: seq<Byte>, is32: bool, target: Order, values: seq<nat>)
    requires RecordAt(source, 0, Ehdr, is32, target, values)
    ensures |source| >= RecordSize(Ehdr, is32)
    ensures var l := Layout(Ehdr, is32); forall i :: 0 <= i < |l| ==>
      Fits(l[i], source) && Get(target, source, l[i]) == values[i]
  {
    hide Layout, Get, Encode;
    var n, l := RecordSize(Ehdr, is32), Layout(Ehdr, is32);
    RecordFields(source, 0, Ehdr, is32, target, values);
    forall i | 0 <= i < |l| ensures Fits(l[i], source) && Get(target, source, l[i]) == values[i] {
      assert Fits(l[i], source[0..n]);
      SameStart(target, source, n, l[i]);
    }
  }

  lemma SameStart(o: Order, source: seq<Byte>, n: nat, f: Field)
    requires n <= |source| && f.offset + f.width <= n
    ensures Get(o, source, f) == Get(o, source[0..n], f)
  {
    assert Raw(source[0..n], f) == Raw(source, f);
  }

  lemma HeaderIndices(is32: bool)
    ensures var l := Layout(Ehdr, is32);
      && |l| == 29 && l[16] == EType() && l[17] == EMachine() && l[18] == EVersion() && l[21] == EShoff(is32)
      && l[26] == EShentsize(is32) && l[27] == EShnum(is32) && l[28] == EShstrndx(is32)
      && forall i :: 0 <= i < EI_NIDENT ==> l[i] == Field(i, 1)
  {
  }

  lemma OneByte(source: seq<Byte>, n: nat, i: nat)
    requires i < n <= |source|
    ensures Raw(source[0..n], Field(i, 1)) == [source[i]]
  {
  }

  lemma IdentBytes(source: seq<Byte>, is32: bool, target: Order, values: seq<nat>)
    requires RecordAt(source, 0, Ehdr, is32, target, values)
    ensures |values| == 29 && forall i :: 0 <= i < EI_NIDENT ==> source[i] == values[i]
  {
    RecordFields(source, 0, Ehdr, is32, target, values);
    HeaderIndices(is32);
    hide Layout, Encode;
    var mem := source[0..RecordSize(Ehdr, is32)];
    forall i | 0 <= i < EI_NIDENT ensures source[i] == values[i] {
      assert Get(target, mem, Layout(Ehdr, is32)[i]) == values[i];
      OneByte(source, RecordSize(Ehdr, is32), i);
      SingleByte(target, [source[i]]);
    }
  }

  // ----- A whole file -----

  function HeaderOfFile(f: ElfFile): Header
    requires |f.header| == 29
  {
    HeaderFrom(f.is32, f.target, f.header)
  }

  /** Every place in the file is an int64. */
  predicate Seekable(source: seq<Byte>) {
    |source| < 0x8000_0000_0000_0000
  }

  /** The section headers, one after the other from e_shoff on; the tool computes their places from there with int32. */
  ghost predicate SectionsWritten(source: seq<Byte>, f: ElfFile) {
    && |f.header| == 29 && |f.sections| == f.header[27] > 0 && f.header[28] < |f.sections|
    && (forall i :: 0 <= i < |f.sections| ==> i * f.header[26] < 0x8000_0000)
    && forall i :: 0 <= i < |f.sections| ==>
         |f.sections[i]| == 10
           && RecordAt(source, f.header[21] + i * f.header[26], Shdr, f.is32, f.target, f.sections[i])
  }

  /** The place of the section names. */
  function NamesOffset(f: ElfFile): nat
    requires |f.header| == 29 && f.header[28] < |f.sections| && |f.sections[f.header[28]]| == 10
  {
    f.sections[f.header[28]][4]
  }

  ghost predicate NamesWritten(source: seq<Byte>, f: ElfFile)
    requires SectionsWritten(source, f)
  {
    && NamesOffset(f) > 0
    && forall i :: 0 <= i < |f.sections| && f.sections[i][0] != 0 ==>
      Terminated(source, NamesOffset(f) + f.sections[i][0])
  }

  ghost function SectionsOfFile(source: seq<Byte>, f: ElfFile): (r: seq<NamedSection>)
    requires SectionsWritten(source, f)
    ensures |r| == |f.sections|
  {
    seq(|f.sections|, i requires 0 <= i < |f.sections| =>
      NamedSection(SectionFrom(f.sections[i]),
                   if f.sections[i][0] != 0 then Some(TextAt(source, NamesOffset(f) + f.sections[i][0])) else None))
  }

  predicate IsSymbolTable(s: NamedSection) {
    s.name.Some? && s.section.kind == SHT_SYMTAB
  }

  /**
   * The entries of a symbol table, of the size of the record; what entry 0 holds does not matter. The tool keeps places
   * in this table, and of the symbol names, in int32.
   */
  ghost predicate EntriesWritten(source: seq<Byte>, f: ElfFile, s: Section) {
    var n := RecordSize(Sym, f.is32);
    && s.entsize == n && |f.symbols| == s.size / n >= 2
    && s.offset + s.size <= |source| && s.offset + s.size < 0x8000_0000
    && forall k :: 1 <= k < |f.symbols| ==> |f.symbols[k]| == 6 && EntryAt(source, s.offset + k * n, f, k)
  }

  predicate EntryAt(source: seq<Byte>, p: nat, f: ElfFile, k: nat)
    requires k < |f.symbols|
  {
    RecordAt(source, p, Sym, f.is32, f.target, f.symbols[k])
  }

  /** The symbol table is the last one if there are several. */
  ghost predicate SymbolsWritten(source: seq<Byte>, f: ElfFile)
    requires SectionsWritten(source, f)
  {
    var sections := SectionsOfFile(source, f);
    && (forall i :: 0 <= i < |sections| && IsSymbolTable(sections[i]) ==>
          sections[i].section.entsize > 0)
    && f.symtab < |sections| && IsSymbolTable(sections[f.symtab])
    && (forall i :: f.symtab < i < |sections| ==> !IsSymbolTable(sections[i]))
    && EntriesWritten(source, f, sections[f.symtab].section)
  }

  /** The string table: the last .strtab, or the first other one if there is no .strtab. */
  ghost predicate StringsWritten(source: seq<Byte>, f: ElfFile)
    requires SectionsWritten(source, f) && SymbolsWritten(source, f)
  {
    var sections := SectionsOfFile(source, f);
    && (LastStrtab(sections, f.strtab) || (NoStrtab(sections) && FirstOther(HeaderOfFile(f), sections, f.strtab)))
    && sections[f.strtab].section.offset != 0
    && forall k :: 1 <= k < |f.symbols| ==>
         var p := sections[f.strtab].section.offset + f.symbols[k][0];
         p < 0x8000_0000 && Terminated(source, p)
  }

  ghost predicate WellFormed(source: seq<Byte>, f: ElfFile) {
    && Seekable(source)
    && GoodHeaderValues(f.is32, f.target, f.header) && RecordAt(source, 0, Ehdr, f.is32, f.target, f.header)
    && SectionsWritten(source, f) && NamesWritten(source, f) && SymbolsWritten(source, f) && StringsWritten(source, f)
  }

  /** All symbols but the first entry of the table. */
  ghost function SymbolsOfFile(source: seq<Byte>, f: ElfFile): (r: seq<NamedSymbol>)
    requires SectionsWritten(source, f) && SymbolsWritten(source, f) && StringsWritten(source, f)
    ensures |r| == |f.symbols| - 1
  {
    SymbolsFrom(source, f, SectionsOfFile(source, f)[f.strtab].section.offset)
  }

  ghost function SymbolsFrom(source: seq<Byte>, f: ElfFile, strings: nat): (r: seq<NamedSymbol>)
    requires f.symbols != [] && forall k :: 1 <= k < |f.symbols| ==> |f.symbols[k]| == 6
    ensures |r| == |f.symbols| - 1
  {
    seq(|f.symbols| - 1, i requires 0 <= i < |f.symbols| - 1 =>
      NamedSymbol(SymbolFrom(f.is32, f.symbols[i + 1]), TextAt(source, strings + f.symbols[i + 1][0])))
  }

  lemma SmallIsExact(v: nat)
    ensures v < 0x8000_0000_0000_0000 ==> ToInt64(v) == v
    ensures v < 0x8000_0000 ==> ToInt32(v) == v
  {
  }

  lemma SectionIsRead(source: seq<Byte>, f: ElfFile, i: nat)
    requires Seekable(source) && SectionsWritten(source, f) && i < |f.sections|
    ensures var h := HeaderOfFile(f);
      SectionPosDefined(h, i) && SectionPos(h, i) == f.header[21] + i * f.header[26]
      && ParseSection(source, h, i) == Some(SectionFrom(f.sections[i]))
  {
    hide RecordSize, Encode, Layout, ToInt64;
    assert RecordAt(source, f.header[21] + i * f.header[26], Shdr, f.is32, f.target, f.sections[i]);
    SmallIsExact(f.header[21]);
    SectionRecord(source, HeaderOfFile(f), i, f.sections[i]);
  }

  lemma SectionIsNamed(source: seq<Byte>, f: ElfFile, i: nat)
    requires Seekable(source) && SectionsWritten(source, f) && NamesWritten(source, f) && SymbolsWritten(source, f)
    requires i < |f.sections|
    ensures SectionPos(HeaderOfFile(f), i) >= 0
    ensures SectionDefined(source, HeaderOfFile(f), NamesOffset(f), i, SectionFrom(f.sections[i]))
    ensures NameSection(source, HeaderOfFile(f), NamesOffset(f), i, SectionFrom(f.sections[i]))
      == SectionsOfFile(source, f)[i]
  {
    hide SectionPos, RecordAt, TextAt, RecordSize;
    SectionIsRead(source, f, i);
    assert IsSymbolTable(SectionsOfFile(source, f)[i]) ==> f.sections[i][9] > 0;
  }

  lemma {:induction false} SectionsAreRead(source: seq<Byte>, f: ElfFile, n: nat)
    requires Seekable(source) && SectionsWritten(source, f) && NamesWritten(source, f) && SymbolsWritten(source, f)
    requires n <= |f.sections|
    ensures ParseSections(source, HeaderOfFile(f), NamesOffset(f), n) == Some(SectionsOfFile(source, f)[..n])
    decreases n
  {
    hide SectionsWritten, NamesWritten, SymbolsWritten, ParseSection, NameSection, SectionsOfFile;
    if n > 0 {
      SectionsAreRead(source, f, n - 1);
      SectionIsRead(source, f, n - 1);
      SectionIsNamed(source, f, n - 1);
      var all := SectionsOfFile(source, f);
      assert all[..n] == all[..n - 1] + [all[n - 1]];
    }
  }

  /** The tables that the scan settles on. */
  lemma TablesOfFile(source: seq<Byte>, f: ElfFile)
    requires Seekable(source) && SectionsWritten(source, f) && SymbolsWritten(source, f) && StringsWritten(source, f)
    ensures var sections, h := SectionsOfFile(source, f), HeaderOfFile(f);
      && TablesFor(h, sections[f.symtab].section, Scan(h, sections))
      && Scan(h, sections).stringTable == sections[f.strtab].section.offset
      && Scan(h, sections).numSymbols == |f.symbols| - 1
  {
    hide RecordAt, SectionsOfFile;
    var sections, h := SectionsOfFile(source, f), HeaderOfFile(f);
    SymbolTableRule(h, sections, f.symtab);
    if LastStrtab(sections, f.strtab) {
      StrtabIsUsed(h, sections, f.strtab);
    } else {
      FirstOtherIsUsed(h, sections, f.strtab);
    }
  }

  lemma SymbolIsParsed(source: seq<Byte>, f: ElfFile, i: nat)
    requires Seekable(source) && SectionsWritten(source, f) && SymbolsWritten(source, f) && StringsWritten(source, f)
    requires i < |f.symbols| - 1
    ensures |f.symbols[i + 1]| == 6
    ensures ParseSymbol(source, HeaderOfFile(f), Scan(HeaderOfFile(f), SectionsOfFile(source, f)), i)
         == Some(SymbolFrom(f.is32, f.symbols[i + 1]))
  {
    hide SectionsOfFile, Scan, TextAt, RecordAt, StringsWritten;
    var sections, h := SectionsOfFile(source, f), HeaderOfFile(f);
    var t, s := Scan(h, sections), sections[f.symtab].section;
    TablesOfFile(source, f);
    EveryEntryIsRead(h, s, t, i + 1);
    assert EntryAt(source, s.offset + (i + 1) * RecordSize(Sym, f.is32), f, i + 1);
    SymbolLoopReadsTable(h, s, t, i);
    SymbolRecord(source, h, t, i, f.symbols[i + 1]);
  }

  lemma SymbolIsRead(source: seq<Byte>, f: ElfFile, i: nat)
    requires Seekable(source) && SectionsWritten(source, f) && SymbolsWritten(source, f) && StringsWritten(source, f)
    requires i < |f.symbols| - 1
    ensures |f.symbols[i + 1]| == 6
    ensures var h, t := HeaderOfFile(f), Scan(HeaderOfFile(f), SectionsOfFile(source, f));
      && ParseSymbol(source, h, t, i) == Some(SymbolFrom(f.is32, f.symbols[i + 1]))
      && SymbolDefined(source, h, t, i)
      && NameSymbol(source, h, t, i, SymbolFrom(f.is32, f.symbols[i + 1])) == SymbolsOfFile(source, f)[i]
  {
    hide SectionsOfFile, Scan, TextAt, RecordAt, SymbolsWritten, ParseSymbol, SymbolNamePos;
    var sections, h := SectionsOfFile(source, f), HeaderOfFile(f);
    var t := Scan(h, sections);
    TablesOfFile(source, f);
    SymbolIsParsed(source, f, i);
    assert Terminated(source, t.stringTable + f.symbols[i + 1][0]);
    NearName(h, t, i, SymbolFrom(f.is32, f.symbols[i + 1]));
  }

  lemma NearName(h: Header, t: Tables, i: nat, s: Symbol)
    ensures t.stringTable + s.name < 0x8000_0000 ==> SymbolNamePos(h, t, i, s) == t.stringTable + s.name
  {
    if t.stringTable + s.name < 0x8000_0000 {
      SmallIsExact(t.stringTable + s.name);
    }
  }

  lemma {:induction false} SymbolsAreRead(source: seq<Byte>, f: ElfFile, n: nat)
    requires Seekable(source) && SectionsWritten(source, f) && SymbolsWritten(source, f) && StringsWritten(source, f)
    requires n <= |f.symbols| - 1
    ensures var h, t := HeaderOfFile(f), Scan(HeaderOfFile(f), SectionsOfFile(source, f));
            ParseSymbols(source, h, t, n) == Some(SymbolsOfFile(source, f)[..n])
    decreases n
  {
    hide SectionsWritten, StringsWritten, SymbolsWritten, ParseSymbol, NameSymbol, SymbolsOfFile, SymbolDefined, Scan,
      SectionsOfFile;
    if n > 0 {
      SymbolsAreRead(source, f, n - 1);
      SymbolIsRead(source, f, n - 1);
      var all := SymbolsOfFile(source, f);
      assert all[..n] == all[..n - 1] + [all[n - 1]];
    }
  }

  /** The converter reads from a well-formed file its header, its sections and all its symbols but entry 0. */
  lemma WellFormedIsRead(source: seq<Byte>, f: ElfFile)
    requires WellFormed(source, f)
    ensures ImageDefined(source)
    ensures ReadImage(source) == Some(Image(HeaderOfFile(f), SectionsOfFile(source, f), SymbolsOfFile(source, f)))
  {
    hide NamesWritten, SymbolsWritten, StringsWritten, SectionsOfFile, SymbolsOfFile, Scan, ParseHeader, ParseSection,
      ParseSections;
    hide ParseSymbols, SectionsDefined, SymbolsDefined, RecordAt, ImageDefined, ReadImage, ToInt64, GoodHeaderValues;
    var h, sections := HeaderOfFile(f), SectionsOfFile(source, f);
    HeaderRecord(source, f.is32, f.target, f.header);
    SectionIsRead(source, f, f.header[28]);
    NamesAreNear(source, f);
    SectionsAreRead(source, f, |f.sections|);
    assert sections[..|f.sections|] == sections;
    TablesOfFile(source, f);
    SymbolsAreRead(source, f, |f.symbols| - 1);
    assert SymbolsOfFile(source, f)[..|f.symbols| - 1] == SymbolsOfFile(source, f);
    AllSectionsDefined(source, f);
    AllSymbolsDefined(source, f);
    StringsAreThere(source, f);
    ImageIsRead(source, h, SectionFrom(f.sections[f.header[28]]), sections, SymbolsOfFile(source, f));
  }

  lemma StringsAreThere(source: seq<Byte>, f: ElfFile)
    requires SectionsWritten(source, f) && SymbolsWritten(source, f) && StringsWritten(source, f)
    ensures SectionsOfFile(source, f)[f.strtab].section.offset != 0 && |f.symbols| >= 2
  {
    hide RecordAt, SectionsOfFile;
  }

  /** Reading an image, step by step. */
  lemma ImageIsRead(source: seq<Byte>, h: Header, shstrtab: Section, sections: seq<NamedSection>,
                    symbols: seq<NamedSymbol>)
    requires ParseHeader(source) == Some(h) && SectionPosDefined(h, h.shstrndx) && h.shnum > 0
    requires ParseSection(source, h, h.shstrndx) == Some(shstrtab)
    requires SectionsDefined(source, h, ToInt64(shstrtab.offset))
    requires ParseSections(source, h, ToInt64(shstrtab.offset), h.shnum) == Some(sections)
    requires var t := Scan(h, sections);
      && t.stringTable != 0 && t.numSymbols != 0 && SymbolsDefined(source, h, t)
      && ParseSymbols(source, h, t, t.numSymbols) == Some(symbols)
    ensures ImageDefined(source) && ReadImage(source) == Some(Image(h, sections, symbols))
  {
    hide ParseHeader, ParseSection, ParseSections, ParseSymbols, SectionsDefined, SymbolsDefined, ToInt64, Scan,
      SectionPosDefined;
  }

  lemma NamesAreNear(source: seq<Byte>, f: ElfFile)
    requires WellFormed(source, f)
    ensures ToInt64(NamesOffset(f)) == NamesOffset(f)
  {
    hide RecordAt, TextAt, GoodHeaderValues, EntriesWritten, StringsWritten, ToInt64;
    assert IsSymbolTable(SectionsOfFile(source, f)[f.symtab]);
    assert f.sections[f.symtab][0] != 0;
    assert Terminated(source, NamesOffset(f) + f.sections[f.symtab][0]);
    SmallIsExact(NamesOffset(f));
  }

  lemma AllSectionsDefined(source: seq<Byte>, f: ElfFile)
    requires Seekable(source) && SectionsWritten(source, f) && NamesWritten(source, f) && SymbolsWritten(source, f)
    ensures SectionsDefined(source, HeaderOfFile(f), NamesOffset(f))
  {
    var h := HeaderOfFile(f);
    forall i | 0 <= i < h.shnum && ParseSections(source, h, NamesOffset(f), i).Some?
      ensures SectionPosDefined(h, i)
      ensures ParseSection(source, h, i).Some? ==>
        SectionDefined(source, h, NamesOffset(f), i, ParseSection(source, h, i).value)
    {
      SectionIsRead(source, f, i);
      SectionIsNamed(source, f, i);
    }
  }

  lemma AllSymbolsDefined(source: seq<Byte>, f: ElfFile)
    requires Seekable(source) && SectionsWritten(source, f) && SymbolsWritten(source, f) && StringsWritten(source, f)
    ensures SymbolsDefined(source, HeaderOfFile(f), Scan(HeaderOfFile(f), SectionsOfFile(source, f)))
  {
    hide Scan, SectionsOfFile, SymbolDefined;
    var h, t := HeaderOfFile(f), Scan(HeaderOfFile(f), SectionsOfFile(source, f));
    TablesOfFile(source, f);
    assert t.numSymbols < 0x8000_0000;
    forall i | 0 <= i < t.numSymbols ensures SymbolDefined(source, h, t, i) {
      SymbolIsRead(source, f, i);
    }
  }

  // ----- From the file to the table -----

  /** The definition of the table is in the file, behind the symbol that is taken for it. */
  ghost predicate DefinitionWritten(source: seq<Byte>, s: Setup, im: Image, def: FileDef)
    requires s.Valid()
  {
    var d := DefinitionIndex(im.symbols, s.stack);
    && d != -1
    && var sym := im.symbols[d].symbol;
    && (sym.size == 0 || sym.size == s.mission.FileDefSize()) && sym.shndx < |im.sections|
    && var p := im.sections[sym.shndx].section.offset + sym.value;
    && p < UINT32 && p + s.mission.FileDefSize() <= |source|
    && def == FileDefOf(im.header.target, s.mission, source[p..p + s.mission.FileDefSize()])
  }

  /** The table is in the file, behind the symbol that is taken for it, or it is in .bss. */
  ghost predicate TableWritten(source: seq<Byte>, im: Image, def: FileDef, payload: seq<Byte>) {
    var u := ObjectIndex(im.symbols, def.objectName);
    && u < |im.symbols|
    && var sym := im.symbols[u].symbol;
    && HasNamedSection(im.sections, sym)
    && var f := Found(def, sym, im.sections[sym.shndx]);
    && |payload| == TableSize(f) < 0x8000_0000
    && if f.section.name.value == BSS then
         forall k :: 0 <= k < |payload| ==> payload[k] == 0
       else
         var start := f.section.section.offset + sym.value;
         start < UINT32 && start + |payload| <= |source| && payload == source[start..start + |payload|]
  }

  /**
   * End to end: from a well-formed file of either class and byte order that holds a definition and its table, the
   * converter makes the table file with that table in it. No host appears.
   */
  lemma WellFormedIsConverted(source: seq<Byte>, f: ElfFile, s: Setup, def: FileDef, payload: seq<Byte>)
    requires WellFormed(source, f) && s.Valid()
    requires var im := Image(HeaderOfFile(f), SectionsOfFile(source, f), SymbolsOfFile(source, f));
      DefinitionWritten(source, s, im, def) && TableWritten(source, im, def, payload)
    ensures Defined(source, s)
    ensures |def.tableName| < s.mission.nameLen && |def.description| < s.mission.descLen
    ensures Convert(source, s) == Some(TableFileBytes(s.mission, s.options, def, payload))
  {
    hide ReadImage, ImageDefined, TableDefined, ConvertImage, TableFileBytes, DefinitionWritten, TableWritten;
    var im := Image(HeaderOfFile(f), SectionsOfFile(source, f), SymbolsOfFile(source, f));
    WellFormedIsRead(source, f);
    WrittenIsConverted(source, s, im, def, payload);
  }

  lemma WrittenIsConverted(source: seq<Byte>, s: Setup, im: Image, def: FileDef, payload: seq<Byte>)
    requires Seekable(source) && s.Valid()
    requires DefinitionWritten(source, s, im, def) && TableWritten(source, im, def, payload)
    ensures TableDefined(source, s, im)
    ensures |def.tableName| < s.mission.nameLen && |def.description| < s.mission.descLen
    ensures ConvertImage(source, s, im) == Some(TableFileBytes(s.mission, s.options, def, payload))
  {
    hide TableFileBytes, TableWritten, DefinitionWritten, ReadObject, ReadDefinition, ObjectDefined, DefinitionDefined;
    DefinitionIsRead(source, s, im, def);
    TableIsRead(source, im, def, payload);
  }

  lemma DefinitionIsRead(source: seq<Byte>, s: Setup, im: Image, def: FileDef)
    requires Seekable(source) && s.Valid() && DefinitionWritten(source, s, im, def)
    ensures DefinitionDefined(s, im) && ReadDefinition(source, s, im) == Some(def)
  {
    hide DefinitionIndex, FileDefOf;
  }

  lemma TableIsRead(source: seq<Byte>, im: Image, def: FileDef, payload: seq<Byte>)
    requires Seekable(source) && TableWritten(source, im, def, payload)
    ensures ObjectDefined(im, def) && ReadObject(im, def).Some? && Payload(source, ReadObject(im, def).value) == payload
  {
    hide ObjectIndex, Payload;
    var o := ReadObject(im, def).value;
    PayloadBytes(source, o);
    assert o.Zeros? ==> Payload(source, o) == payload;
  }
}
