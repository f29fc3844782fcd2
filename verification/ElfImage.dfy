/**
 * What the converter takes an ELF file to say. Everything here is read in the byte order of the file: no host appears.
 */
module ElfImage {
  import opened Basics
  import opened ElfBytes
  import opened ElfLayout

  const UINT32: int := 0x1_0000_0000
  const UINT64: int := 0x1_0000_0000_0000_0000

  function ToInt32(v: int): (r: int)
    ensures -0x8000_0000 <= r < 0x8000_0000
  {
    var m := v % UINT32;
    if m < 0x8000_0000 then m else m - UINT32
  }

  function ToInt64(v: int): (r: int)
    ensures -0x8000_0000_0000_0000 <= r < 0x8000_0000_0000_0000
  {
    var m := v % UINT64;
    if m < 0x8000_0000_0000_0000 then m else m - UINT64
  }

  /** Text is a sequence of bytes without a NUL. */
  type Text = seq<Byte>

  /** The string that starts at a place, up to the first NUL or the end of the file. */
  function TextAt(source: seq<Byte>, p: nat): (t: Text)
    ensures 0 !in t
    ensures t == [] || (p + |t| <= |source| && t == source[p..p + |t|])
    decreases |source| - p
  {
    if p >= |source| || source[p] == 0 then [] else [source[p]] + TextAt(source, p + 1)
  }

  /** The string ends in the file, and it fits the tool's 60 byte buffer together with its NUL. */
  predicate Terminated(source: seq<Byte>, p: nat) {
    p + |TextAt(source, p)| < |source| && |TextAt(source, p)| < 60
  }

  /** fseek to a negative position fails, and the file position stays where it is. */
  function SeekTo(seek: int, here: nat): nat {
    if seek < 0 then here else seek
  }

  // ----- Header -----

  datatype Header = Header(is32: bool, target: Order, shoff: nat, shentsize: nat, shnum: nat, shstrndx: nat)

  function HeaderOf(o: Order, is32: bool, target: Order, mem: seq<Byte>): (h: Header)
    requires |mem| >= RecordSize(Ehdr, is32)
  {
    Header(is32, target, Get(o, mem, EShoff(is32)), Get(o, mem, EShentsize(is32)), Get(o, mem, EShnum(is32)),
           Get(o, mem, EShstrndx(is32)))
  }

  const ELF_MAGIC: seq<Byte> := [0x7f, 0x45, 0x4C, 0x46]
  const EI_CLASS: nat := 4
  const EI_DATA: nat := 5
  const EI_VERSION: nat := 6
  const EV_CURRENT: nat := 1

  function ETypeMap(): seq<nat> {
    [0, 1, 2, 3, 4]
  }

  function Range(low: nat, high: nat): seq<nat>
    requires low <= high
  {
    seq(high - low + 1, i requires 0 <= i <= high - low => low + i)
  }

  /** The values of e_machine_Map, in its order; 168 is in it twice. */
  function EMachineMap(): seq<nat> {
    Range(0, 5) + Range(7, 10) + [15] + Range(17, 23) + Range(36, 120) + Range(131, 144) + Range(160, 168)
    + Range(168, 171) + Range(173, 181) + [183] + Range(185, 224) + [243]
  }

  predicate GoodIdent(source: seq<Byte>) {
    && |source| >= EI_NIDENT
    && source[..4] == ELF_MAGIC
    && (source[EI_CLASS] == 1 || source[EI_CLASS] == 2)
    && (source[EI_DATA] == 1 || source[EI_DATA] == 2)
    && source[EI_VERSION] == EV_CURRENT
  }

  function Is32(source: seq<Byte>): bool
    requires GoodIdent(source)
  {
    source[EI_CLASS] == 1
  }

  function Target(source: seq<Byte>): Order
    requires GoodIdent(source)
  {
    if source[EI_DATA] == 1 then Little else Big
  }

  /** The checks on the rest of the header, as read in one order. */
  predicate GoodHeader(o: Order, is32: bool, mem: seq<Byte>) {
    && |mem| >= RecordSize(Ehdr, is32)
    && Get(o, mem, EType()) in ETypeMap() && Get(o, mem, EMachine()) in EMachineMap()
    && Get(o, mem, EVersion()) == EV_CURRENT
  }

  function ParseHeader(source: seq<Byte>): (h: Option<Header>)
    ensures h.Some? ==> GoodIdent(source) && h.value.target == Target(source) && h.value.is32 == Is32(source)
  {
    if GoodIdent(source) && GoodHeader(Target(source), Is32(source), source) then
      Some(HeaderOf(Target(source), Is32(source), Target(source), source))
    else None
  }

  // ----- Sections -----

  datatype Section = Section(name: nat, kind: nat, offset: nat, size: nat, entsize: nat)

  const SHT_SYMTAB: nat := 2
  const SHT_STRTAB: nat := 3
  const STRTAB: Text := [0x2E, 0x73, 0x74, 0x72, 0x74, 0x61, 0x62]  // .strtab
  const BSS: Text := [0x2E, 0x62, 0x73, 0x73]                       // .bss

  function SectionOf(o: Order, is32: bool, mem: seq<Byte>): Section
    requires |mem| >= RecordSize(Shdr, is32)
  {
    Section(Get(o, mem, ShName()), Get(o, mem, ShType()), Get(o, mem, ShOffset(is32)), Get(o, mem, ShSize(is32)),
            Get(o, mem, ShEntsize(is32)))
  }

  function SectionPos(h: Header, i: nat): int {
    ToInt64(h.shoff) + i * h.shentsize
  }

  function ParseSection(source: seq<Byte>, h: Header, i: nat): Option<Section> {
    var p, n := SectionPos(h, i), RecordSize(Shdr, h.is32);
    if p < 0 || p + n > |source| then None else Some(SectionOf(h.target, h.is32, source[p..p + n]))
  }

  /** Section names are read only once the place of their string table is known, and only if the section has a name. */
  predicate Named(shstr: int, s: Section) {
    shstr != 0 && s.name != 0
  }

  function SectionNamePos(h: Header, shstr: int, i: nat, s: Section): nat
    requires SectionPos(h, i) >= 0
  {
    SeekTo(shstr + s.name, SectionPos(h, i) + RecordSize(Shdr, h.is32))
  }

  /** A section, and its name if it was read. */
  datatype NamedSection = NamedSection(section: Section, name: Option<Text>)

  function NameSection(source: seq<Byte>, h: Header, shstr: int, i: nat, s: Section): NamedSection
    requires SectionPos(h, i) >= 0
  {
    NamedSection(s, if Named(shstr, s) then Some(TextAt(source, SectionNamePos(h, shstr, i, s))) else None)
  }

  /**
   * What the scan of the sections remembers about the symbol and string tables. The number of symbols is unsigned: for
   * a table that is shorter than one entry it wraps around.
   */
  datatype Tables = Tables(symbolTable: int, entrySize: nat, numSymbols: nat, stringTable: nat)

  function ScanStep(h: Header, i: nat, s: NamedSection, t: Tables): Tables {
    if s.name.None? then t
    else if s.section.kind == SHT_SYMTAB && s.section.entsize > 0 then
      t.(symbolTable := ToInt32(s.section.offset + RecordSize(Sym, h.is32)), entrySize := s.section.entsize,
         numSymbols := (s.section.size / s.section.entsize - 1) % UINT64)
    else if s.section.kind == SHT_STRTAB && (s.name.value == STRTAB || (t.stringTable == 0 && i != h.shstrndx)) then
      t.(stringTable := s.section.offset)
    else t
  }

  function Scan(h: Header, sections: seq<NamedSection>): Tables
    decreases |sections|
  {
    if sections == [] then Tables(0, 0, 0, 0)
    else
      var n := |sections| - 1;
      ScanStep(h, n, sections[n], Scan(h, sections[..n]))
  }

  /** The first n section headers, if all of them can be read. */
  function ParseSections(source: seq<Byte>, h: Header, shstr: int, n: nat): (r: Option<seq<NamedSection>>)
    ensures r.Some? ==> |r.value| == n
  {
    if n == 0 then Some([])
    else
      var prior := ParseSections(source, h, shstr, n - 1);
      var s := ParseSection(source, h, n - 1);
      if prior.None? || s.None? then None else Some(prior.value + [NameSection(source, h, shstr, n - 1, s.value)])
  }

  // ----- Symbols -----

  datatype Symbol = Symbol(name: nat, value: nat, size: nat, shndx: nat)

  const TBL_DEF_SYMBOL_NAME: Text :=
    [0x43, 0x46, 0x45, 0x5F, 0x54, 0x42, 0x4C, 0x5F, 0x46, 0x69, 0x6C, 0x65, 0x44, 0x65, 0x66]  // CFE_TBL_FileDef

  function SymbolOf(o: Order, is32: bool, mem: seq<Byte>): Symbol
    requires |mem| >= RecordSize(Sym, is32)
  {
    Symbol(Get(o, mem, StName()), Get(o, mem, StValue(is32)), Get(o, mem, StSize(is32)), Get(o, mem, StShndx(is32)))
  }

  /** The symbol table offset is an int32, the entry size a uint64; the sum is computed modulo 2^64. */
  function SymbolPos(t: Tables, i: nat): nat {
    (t.symbolTable + i * t.entrySize) % UINT64
  }

  function ParseSymbol(source: seq<Byte>, h: Header, t: Tables, i: nat): Option<Symbol> {
    var p, n := SymbolPos(t, i), RecordSize(Sym, h.is32);
    if p >= 0x8000_0000 || p + n > |source| then None else Some(SymbolOf(h.target, h.is32, source[p..p + n]))
  }

  function SymbolNamePos(h: Header, t: Tables, i: nat, s: Symbol): nat {
    SeekTo(ToInt32(t.stringTable + s.name), SymbolPos(t, i) + RecordSize(Sym, h.is32))
  }

  datatype NamedSymbol = NamedSymbol(symbol: Symbol, name: Text)

  function NameSymbol(source: seq<Byte>, h: Header, t: Tables, i: nat, s: Symbol): NamedSymbol {
    NamedSymbol(s, TextAt(source, SymbolNamePos(h, t, i, s)))
  }

  function ParseSymbols(source: seq<Byte>, h: Header, t: Tables, n: nat): (r: Option<seq<NamedSymbol>>)
    ensures r.Some? ==> |r.value| == n
  {
    if n == 0 then Some([])
    else
      var prior := ParseSymbols(source, h, t, n - 1);
      var s := ParseSymbol(source, h, t, n - 1);
      if prior.None? || s.None? then None else Some(prior.value + [NameSymbol(source, h, t, n - 1, s.value)])
  }

  /**
   * The tool compares the name, and the name without its first character. After an empty name the second comparison
   * looks at bytes of the buffer that were never written in this call: they are whatever the stack holds.
   */
  predicate IsDefinition(name: Text, stack: Text) {
    name == TBL_DEF_SYMBOL_NAME || (if name == [] then stack else name[1..]) == TBL_DEF_SYMBOL_NAME
  }

  /** The index of the symbol that is taken for the definition of the table, or -1. */
  function DefinitionIndex(symbols: seq<NamedSymbol>, stack: nat -> Text): (d: int)
    ensures -1 <= d < |symbols|
    decreases |symbols|
  {
    if symbols == [] then -1
    else
      var n := |symbols| - 1;
      if IsDefinition(symbols[n].name, stack(n)) then n else DefinitionIndex(symbols[..n], stack)
  }

  // ----- The definition of the table -----

  /** The compiler aligns a uint32, and the end of a structure that has one, to four bytes. */
  function Aligned(n: nat): (r: nat)
    ensures n <= r < n + 4 && r % 4 == 0
    ensures r == n <==> n % 4 == 0
  {
    (n + 3) / 4 * 4
  }

  /** The lengths that the mission fixes: descriptions, full table names and file names. */
  datatype Mission = Mission(descLen: nat, nameLen: nat, fileLen: nat) {
    predicate Valid() {
      descLen > 0 && nameLen > 0 && fileLen > 0
    }

    /** The size of CFE_TBL_FileDef_t: its number is aligned behind its four texts. */
    function FileDefSize(): nat {
      Aligned(64 + nameLen + descLen + fileLen) + 4
    }
  }

  datatype FileDef = FileDef(objectName: Text, tableName: Text, description: Text, objectSize: nat)

  /** A character array that the tool has closed with a NUL in its last byte. */
  function TextField(mem: seq<Byte>, f: Field): (t: Text)
    requires Fits(f, mem) && f.width > 0
    ensures |t| < f.width && 0 !in t
  {
    TextAt(Raw(mem, Field(f.offset, f.width - 1)), 0)
  }

  function DefObjectName(): Field { Field(0, 64) }
  function DefTableName(m: Mission): Field { Field(64, m.nameLen) }
  function DefDescription(m: Mission): Field { Field(64 + m.nameLen, m.descLen) }
  function DefObjectSize(m: Mission): Field { Field(Aligned(64 + m.nameLen + m.descLen + m.fileLen), 4) }

  function FileDefOf(o: Order, m: Mission, mem: seq<Byte>): (d: FileDef)
    requires m.Valid() && |mem| == m.FileDefSize()
    ensures |d.objectName| < 64 && |d.tableName| < m.nameLen && |d.description| < m.descLen
    ensures 0 !in d.objectName && 0 !in d.tableName && 0 !in d.description
  {
    FileDef(TextField(mem, DefObjectName()), TextField(mem, DefTableName(m)), TextField(mem, DefDescription(m)),
            Get(o, mem, DefObjectSize(m)))
  }

  /** Where a symbol's data is: the sum is computed modulo 2^64. */
  function DataPos(sections: seq<NamedSection>, s: Symbol): nat
    requires s.shndx < |sections|
  {
    (sections[s.shndx].section.offset + s.value) % UINT64
  }

  function ParseFileDef(source: seq<Byte>, m: Mission, target: Order, sections: seq<NamedSection>,
                        s: Symbol): (r: Option<FileDef>)
    requires m.Valid() && (s.size == 0 || s.size == m.FileDefSize() ==> s.shndx < |sections|)
    ensures r.Some? ==> |r.value.tableName| < m.nameLen && |r.value.description| < m.descLen && 0 !in r.value.objectName
    ensures r.Some? ==> 0 !in r.value.tableName && 0 !in r.value.description
  {
    if s.size != 0 && s.size != m.FileDefSize() then None
    else
      var p := DataPos(sections, s);
      if p >= UINT32 || p + m.FileDefSize() > |source| then None
      else Some(FileDefOf(target, m, source[p..p + m.FileDefSize()]))
  }

  // ----- The table -----

  /**
   * A symbol's name matches the object's name if it is that name, or that name and one character more. The tool means
   * to accept only a non-printable character, but what it tests is the NUL behind it.
   */
  predicate Matches(name: Text, objectName: Text) {
    objectName <= name && |name| <= |objectName| + 1
  }

  /** The index of the first symbol that matches, or the number of symbols. */
  function ObjectIndex(symbols: seq<NamedSymbol>, objectName: Text): (u: nat)
    ensures u <= |symbols|
    decreases |symbols|
  {
    if symbols == [] then 0
    else
      var n := |symbols| - 1;
      var u := ObjectIndex(symbols[..n], objectName);
      if u < n || Matches(symbols[n].name, objectName) then u else n + 1
  }

  /** The symbol that is taken for the table is the first one that matches. */
  lemma {:induction false} ObjectIsFirstMatch(symbols: seq<NamedSymbol>, objectName: Text, u: nat)
    requires u <= |symbols|
    ensures u == ObjectIndex(symbols, objectName) <==>
      && (forall j :: 0 <= j < u ==> !Matches(symbols[j].name, objectName))
      && (u < |symbols| ==> Matches(symbols[u].name, objectName))
    decreases |symbols|
  {
    if symbols != [] {
      var n := |symbols| - 1;
      var v := ObjectIndex(symbols[..n], objectName);
      ObjectIsFirstMatch(symbols[..n], objectName, v);
      if u <= n {
        ObjectIsFirstMatch(symbols[..n], objectName, u);
      }
    }
  }

  /**
   * The symbol that is taken for the definition is the last one whose name says so; there is none exactly if no name
   * does.
   */
  lemma {:induction false} DefinitionIsLast(symbols: seq<NamedSymbol>, stack: nat -> Text, d: int)
    requires -1 <= d < |symbols|
    ensures d == DefinitionIndex(symbols, stack) <==>
      && (forall j :: d < j < |symbols| ==> !IsDefinition(symbols[j].name, stack(j)))
      && (d >= 0 ==> IsDefinition(symbols[d].name, stack(d)))
    decreases |symbols|
  {
    if symbols != [] {
      var n := |symbols| - 1;
      if d < n {
        DefinitionIsLast(symbols[..n], stack, d);
      }
    }
  }

  /** The data of a table: zeros, or a part of the source file. */
  datatype Object = Zeros(size: nat) | Slice(start: nat, size: nat)

  function ObjectSize(stSize: nat, objectSize: nat): nat {
    if stSize == 0 then objectSize else if objectSize < stSize then objectSize else stSize
  }

  predicate HasNamedSection(sections: seq<NamedSection>, s: Symbol) {
    s.shndx < |sections| && sections[s.shndx].name.Some?
  }

  function LocateObject(sections: seq<NamedSection>, s: Symbol, objectSize: nat): Option<Object>
    requires HasNamedSection(sections, s)
  {
    if sections[s.shndx].name.value == BSS then Some(Zeros(s.size))
    else if DataPos(sections, s) >= UINT32 then None
    else Some(Slice(DataPos(sections, s), ObjectSize(s.size, objectSize)))
  }

  /** Reading a character past the end of the file yields 0xFF. */
  function CharAt(source: seq<Byte>, p: nat): Byte {
    if p < |source| then source[p] else 0xFF
  }

  function Payload(source: seq<Byte>, o: Object): (r: seq<Byte>)
    ensures |r| == o.size
  {
    match o
    case Zeros(n) => seq<Byte>(n, _ => 0)
    case Slice(start, n) => seq<Byte>(n, k requires 0 <= k < n => CharAt(source, start + k))
  }
}
