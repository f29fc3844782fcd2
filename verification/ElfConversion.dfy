/** The whole conversion as a function of the source file, and the inputs for which the tool's behaviour is defined. */
module ElfConversion {
  import opened Basics
  import opened ElfBytes
  import opened ElfLayout
  import opened ElfImage
  import opened TableFile

  /**
   * What a run is given besides the source file; stack is what the text buffer holds when the name of a symbol is read.
   */
  datatype Setup = Setup(mission: Mission, options: Options, stack: nat -> Text) {
    predicate Valid() {
      mission.Valid() && FileHeaderSize(mission) < UINT32 && options.Valid(mission)
    }
  }

  /** The sections of a file, and where their names are. */
  function ReadSections(source: seq<Byte>, h: Header): (r: Option<seq<NamedSection>>)
    ensures r.Some? ==> |r.value| == h.shnum > 0
  {
    var shstrtab := ParseSection(source, h, h.shstrndx);
    if shstrtab.None? || h.shnum == 0 then None
    else ParseSections(source, h, ToInt64(shstrtab.value.offset), h.shnum)
  }

  function ReadSymbols(source: seq<Byte>, h: Header, t: Tables): (r: Option<seq<NamedSymbol>>)
    ensures r.Some? ==> |r.value| == t.numSymbols > 0
  {
    if t.stringTable == 0 || t.numSymbols == 0 then None else ParseSymbols(source, h, t, t.numSymbols)
  }

  datatype Image = Image(header: Header, sections: seq<NamedSection>, symbols: seq<NamedSymbol>)

  function ReadImage(source: seq<Byte>): (r: Option<Image>)
    ensures r.Some? ==> ParseHeader(source) == Some(r.value.header) && r.value.symbols != []
    ensures r.Some? ==> ReadSections(source, r.value.header) == Some(r.value.sections)
    ensures r.Some? ==>
      ReadSymbols(source, r.value.header, Scan(r.value.header, r.value.sections)) == Some(r.value.symbols)
  {
    match ParseHeader(source)
    case None => None
    case Some(h) =>
      match ReadSections(source, h)
      case None => None
      case Some(sections) =>
        match ReadSymbols(source, h, Scan(h, sections))
        case None => None
        case Some(symbols) => Some(Image(h, sections, symbols))
  }

  /** The definition of the table in an image. */
  function ReadDefinition(source: seq<Byte>, s: Setup, im: Image): (r: Option<FileDef>)
    requires s.Valid() && DefinitionDefined(s, im)
    ensures r.Some? ==> |r.value.tableName| < s.mission.nameLen && |r.value.description| < s.mission.descLen
    ensures r.Some? ==> 0 !in r.value.tableName && 0 !in r.value.description && 0 !in r.value.objectName
  {
    var d := DefinitionIndex(im.symbols, s.stack);
    if d == -1 then None else ParseFileDef(source, s.mission, im.header.target, im.sections, im.symbols[d].symbol)
  }

  /** The data of the table in an image. */
  function ReadObject(im: Image, d: FileDef): Option<Object>
    requires ObjectDefined(im, d)
  {
    var u := ObjectIndex(im.symbols, d.objectName);
    if u == |im.symbols| then None else LocateObject(im.sections, im.symbols[u].symbol, d.objectSize)
  }

  function ConvertImage(source: seq<Byte>, s: Setup, im: Image): (r: Option<seq<Byte>>)
    requires s.Valid() && TableDefined(source, s, im)
  {
    match ReadDefinition(source, s, im)
    case None => None
    case Some(d) =>
      match ReadObject(im, d)
      case None => None
      case Some(o) => Some(TableFileBytes(s.mission, s.options, d, Payload(source, o)))
  }

  /** The table file, or nothing if the tool fails. */
  function Convert(source: seq<Byte>, s: Setup): (r: Option<seq<Byte>>)
    requires Defined(source, s)
  {
    match ReadImage(source)
    case None => None
    case Some(im) => ConvertImage(source, s, im)
  }

  // ----- Inputs for which the C program is defined -----

  /** The arithmetic on the position of a section header stays in range. */
  predicate SectionPosDefined(h: Header, i: nat) {
    i * h.shentsize < 0x8000_0000 && SectionPos(h, i) < 0x8000_0000_0000_0000
  }

  /** A section's name fits the text buffer, and a symbol table can be divided into entries. */
  predicate SectionDefined(source: seq<Byte>, h: Header, shstr: int, i: nat, s: Section)
    requires SectionPos(h, i) >= 0
  {
    Named(shstr, s) ==>
      && Terminated(source, SectionNamePos(h, shstr, i, s))
      && (s.kind == SHT_SYMTAB ==> s.entsize > 0)
  }

  /** The same for every section that is reached. */
  ghost predicate SectionsDefined(source: seq<Byte>, h: Header, shstr: int) {
    forall i :: 0 <= i < h.shnum && ParseSections(source, h, shstr, i).Some? ==>
      && SectionPosDefined(h, i)
      && (ParseSection(source, h, i).Some? ==> SectionDefined(source, h, shstr, i, ParseSection(source, h, i).value))
  }

  predicate SymbolDefined(source: seq<Byte>, h: Header, t: Tables, i: nat) {
    ParseSymbol(source, h, t, i).Some? ==>
      Terminated(source, SymbolNamePos(h, t, i, ParseSymbol(source, h, t, i).value))
  }

  /** The number of symbols fits the loop counter, and the name of every symbol that is reached fits the text buffer. */
  ghost predicate SymbolsDefined(source: seq<Byte>, h: Header, t: Tables) {
    && t.numSymbols < 0x8000_0000
    && forall i :: 0 <= i < t.numSymbols && ParseSymbols(source, h, t, i).Some? ==> SymbolDefined(source, h, t, i)
  }

  ghost predicate ImageDefined(source: seq<Byte>) {
    ParseHeader(source).Some? ==>
      var h := ParseHeader(source).value;
      && SectionPosDefined(h, h.shstrndx)
      && (ParseSection(source, h, h.shstrndx).Some? && h.shnum > 0 ==>
            SectionsDefined(source, h, ToInt64(ParseSection(source, h, h.shstrndx).value.offset)))
      && (ReadSections(source, h).Some? ==>
            var t := Scan(h, ReadSections(source, h).value);
            t.stringTable != 0 && t.numSymbols != 0 ==> SymbolsDefined(source, h, t))
  }

  /** The definition symbol lies in a section of the file; reserved section indices have none. */
  predicate DefinitionDefined(s: Setup, im: Image) {
    var d := DefinitionIndex(im.symbols, s.stack);
    d != -1 ==>
      var sym := im.symbols[d].symbol;
      sym.size == 0 || sym.size == s.mission.FileDefSize() ==> sym.shndx < |im.sections|
  }

  /** The table's symbol lies in a section whose name was read, and its size fits the loop counter. */
  predicate ObjectDefined(im: Image, d: FileDef) {
    var u := ObjectIndex(im.symbols, d.objectName);
    u < |im.symbols| ==>
      var sym := im.symbols[u].symbol;
      && HasNamedSection(im.sections, sym)
      && (var o := LocateObject(im.sections, sym, d.objectSize); o.Some? ==> o.value.size < 0x8000_0000)
  }

  predicate TableDefined(source: seq<Byte>, s: Setup, im: Image)
    requires s.Valid()
  {
    && DefinitionDefined(s, im)
    && (ReadDefinition(source, s, im).Some? ==> ObjectDefined(im, ReadDefinition(source, s, im).value))
  }

  ghost predicate Defined(source: seq<Byte>, s: Setup) {
    s.Valid() && ImageDefined(source) && (ReadImage(source).Some? ==> TableDefined(source, s, ReadImage(source).value))
  }
}
