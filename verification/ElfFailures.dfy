/**
 * When the converter accepts a file, when it can read it, and when the conversion fails: conditions on the file that do
 * not mention how the conversion is done.
 */
module ElfFailures {
  import opened Basics
  import opened ElfBytes
  import opened ElfLayout
  import opened ElfImage
  import opened TableFile
  import opened ElfConversion
  import opened ElfProperties

  // ----- The header -----

  /** The machines that the tool has a name for. */
  predicate KnownMachine(m: nat) {
    || m <= 5 || 7 <= m <= 10 || m == 15 || 17 <= m <= 23 || 36 <= m <= 120 || 131 <= m <= 144 || 160 <= m <= 171
    || 173 <= m <= 181 || m == 183 || 185 <= m <= 224 || m == 243
  }

  lemma InRange(low: nat, high: nat, m: nat)
    requires low <= high
    ensures m in Range(low, high) <==> low <= m <= high
  {
    if low <= m <= high {
      assert Range(low, high)[m - low] == m;
    }
  }

  lemma MachinesAreKnown(m: nat)
    ensures m in EMachineMap() <==> KnownMachine(m)
  {
    InRange(0, 5, m);
    InRange(7, 10, m);
    InRange(17, 23, m);
    InRange(36, 120, m);
    InRange(131, 144, m);
    InRange(160, 168, m);
    InRange(168, 171, m);
    InRange(173, 181, m);
    InRange(185, 224, m);
    hide Range;
  }

  /** A number in the file, in the order that the file says. */
  function NumberAt(source: seq<Byte>, p: nat, width: nat): nat
    requires p + width <= |source| && |source| > 5
  {
    Value(if source[5] == 1 then Little else Big, source[p..p + width])
  }

  /** Magic number, class, encoding and version are good, and the file has a whole header. */
  predicate HasHeader(source: seq<Byte>) {
    && |source| >= 52 && source[0] == 0x7F && source[1] == 0x45 && source[2] == 0x4C && source[3] == 0x46
    && source[4] in {1, 2} && source[5] in {1, 2} && source[6] == 1
    && (source[4] == 2 ==> |source| >= 64)
  }

  /** The tool accepts a file exactly if its header is good, with a type up to 4, a known machine and version 1. */
  lemma HeaderIsAccepted(source: seq<Byte>)
    ensures ParseHeader(source).Some? <==>
      && HasHeader(source)
      && NumberAt(source, 16, 2) <= 4 && KnownMachine(NumberAt(source, 18, 2)) && NumberAt(source, 20, 4) == 1
    ensures ParseHeader(source).Some? ==>
      var h, wide := ParseHeader(source).value, source[4] == 2;
      && h.is32 == !wide && h.target == (if source[5] == 1 then Little else Big)
      && h.shoff == (if wide then NumberAt(source, 40, 8) else NumberAt(source, 32, 4))
      && h.shentsize == NumberAt(source, if wide then 58 else 46, 2)
      && h.shnum == NumberAt(source, if wide then 60 else 48, 2)
      && h.shstrndx == NumberAt(source, if wide then 62 else 50, 2)
  {
    hide Value, Range, EMachineMap;
    if |source| >= 16 {
      assert source[..4] == ELF_MAGIC <==>
        source[0] == 0x7F && source[1] == 0x45 && source[2] == 0x4C && source[3] == 0x46;
    }
    if HasHeader(source) {
      MachinesAreKnown(NumberAt(source, 18, 2));
    }
  }

  function Ascii(s: string): seq<Byte>
    requires forall i :: 0 <= i < |s| ==> s[i] < 128 as char
  {
    seq(|s|, i requires 0 <= i < |s| => s[i] as int)
  }

  /** The names that the tool looks for. */
  lemma NamesAreSpelled()
    ensures ELF_MAGIC == [0x7F] + Ascii("ELF") && STRTAB == Ascii(".strtab") && BSS == Ascii(".bss")
    ensures TBL_DEF_SYMBOL_NAME == Ascii("CFE_TBL_FileDef")
  {
  }

  // ----- Reading the file -----

  predicate InFile(source: seq<Byte>, p: int, n: nat) {
    0 <= p && p + n <= |source|
  }

  lemma SectionIsRead(source: seq<Byte>, h: Header, i: nat)
    ensures ParseSection(source, h, i).Some? <==> InFile(source, SectionPos(h, i), RecordSize(Shdr, h.is32))
  {
  }

  lemma {:induction false} SectionsAreRead(source: seq<Byte>, h: Header, shstr: int, n: nat)
    ensures ParseSections(source, h, shstr, n).Some? <==>
      forall i :: 0 <= i < n ==> InFile(source, SectionPos(h, i), RecordSize(Shdr, h.is32))
    decreases n
  {
    hide SectionPos, ParseSection, InFile, NameSection;
    if n > 0 {
      SectionsAreRead(source, h, shstr, n - 1);
      SectionIsRead(source, h, n - 1);
    }
  }

  predicate SymbolInFile(source: seq<Byte>, h: Header, t: Tables, i: nat) {
    SymbolPos(t, i) < 0x8000_0000 && InFile(source, SymbolPos(t, i), RecordSize(Sym, h.is32))
  }

  lemma SymbolIsRead(source: seq<Byte>, h: Header, t: Tables, i: nat)
    ensures ParseSymbol(source, h, t, i).Some? <==> SymbolInFile(source, h, t, i)
  {
    hide SymbolPos;
  }

  lemma {:induction false} SymbolsAreRead(source: seq<Byte>, h: Header, t: Tables, n: nat)
    ensures ParseSymbols(source, h, t, n).Some? <==> forall i :: 0 <= i < n ==> SymbolInFile(source, h, t, i)
    decreases n
  {
    hide SymbolInFile, ParseSymbol, NameSymbol;
    if n > 0 {
      SymbolsAreRead(source, h, t, n - 1);
      SymbolIsRead(source, h, t, n - 1);
    }
  }

  /**
   * The tool reads a file exactly if it accepts the header, the header of the section names and every section header
   * lie in the file, there is at least one, a string table and at least one symbol are found, and every symbol lies in
   * the file and below 2^31.
   */
  lemma FileIsRead(source: seq<Byte>)
    ensures ReadImage(source).Some? <==>
      && ParseHeader(source).Some?
      && var h := ParseHeader(source).value;
      && h.shnum > 0 && InFile(source, SectionPos(h, h.shstrndx), RecordSize(Shdr, h.is32))
      && (forall i :: 0 <= i < h.shnum ==> InFile(source, SectionPos(h, i), RecordSize(Shdr, h.is32)))
      && ReadSections(source, h).Some?
      && var t := Scan(h, ReadSections(source, h).value);
      && t.stringTable != 0 && t.numSymbols != 0
      && forall i :: 0 <= i < t.numSymbols ==> SymbolInFile(source, h, t, i)
  {
    hide ParseHeader, ParseSections, ParseSymbols, ParseSection, Scan, SectionPos, SymbolInFile, InFile;
    if ParseHeader(source).Some? {
      var h := ParseHeader(source).value;
      var shstrtab := ParseSection(source, h, h.shstrndx);
      SectionIsRead(source, h, h.shstrndx);
      if shstrtab.Some? && h.shnum > 0 {
        SectionsAreRead(source, h, ToInt64(shstrtab.value.offset), h.shnum);
      }
      if ReadSections(source, h).Some? {
        var t := Scan(h, ReadSections(source, h).value);
        SymbolsAreRead(source, h, t, t.numSymbols);
      }
    }
  }

  // ----- The conversion -----

  /** A symbol that is taken for the definition: it carries the name, or has no name and meets it in the buffer. */
  predicate Taken(symbols: seq<NamedSymbol>, stack: nat -> Text, j: nat)
    requires j < |symbols|
  {
    CarriesDefinition(symbols[j].name) || (symbols[j].name == [] && stack(j) == TBL_DEF_SYMBOL_NAME)
  }

  ghost predicate LastTaken(symbols: seq<NamedSymbol>, stack: nat -> Text, d: nat) {
    d < |symbols| && Taken(symbols, stack, d) && forall j :: d < j < |symbols| ==> !Taken(symbols, stack, j)
  }

  /** A symbol is called as the table is: by its name, or that and one character more. */
  predicate Called(name: Text, objectName: Text) {
    name == objectName || (|name| == |objectName| + 1 && name[..|objectName|] == objectName)
  }

  ghost predicate FirstCalled(symbols: seq<NamedSymbol>, objectName: Text, u: nat) {
    && u < |symbols| && Called(symbols[u].name, objectName)
    && forall j :: 0 <= j < u ==> !Called(symbols[j].name, objectName)
  }

  /** Where a symbol says its data is. */
  function PlaceOf(im: Image, s: Symbol): nat
    requires s.shndx < |im.sections|
  {
    (im.sections[s.shndx].section.offset + s.value) % 0x1_0000_0000_0000_0000
  }

  predicate WrongSize(m: Mission, s: Symbol) {
    s.size != 0 && s.size != m.FileDefSize()
  }

  /** The place of a definition exceeds 32 bits, or the file ends in it. */
  predicate OutOfReach(source: seq<Byte>, m: Mission, im: Image, s: Symbol)
    requires s.shndx < |im.sections|
  {
    PlaceOf(im, s) >= 0x1_0000_0000 || PlaceOf(im, s) + m.FileDefSize() > |source|
  }

  function DefinitionAt(source: seq<Byte>, m: Mission, im: Image, s: Symbol): FileDef
    requires m.Valid() && s.shndx < |im.sections| && !OutOfReach(source, m, im, s)
  {
    FileDefOf(im.header.target, m, source[PlaceOf(im, s)..PlaceOf(im, s) + m.FileDefSize()])
  }

  /** No symbol is called as the table is, or the place of the first one exceeds 32 bits and is not in .bss. */
  ghost predicate TableFails(im: Image, objectName: Text) {
    || (forall j :: 0 <= j < |im.symbols| ==> !Called(im.symbols[j].name, objectName))
    || exists u: nat :: FirstCalled(im.symbols, objectName, u) &&
         var s := im.symbols[u].symbol;
         s.shndx < |im.sections| && im.sections[s.shndx].name != Some(BSS) && PlaceOf(im, s) >= 0x1_0000_0000
  }

  ghost predicate DefinitionFails(source: seq<Byte>, m: Mission, im: Image, s: Symbol)
    requires m.Valid()
  {
    || WrongSize(m, s)
    || (s.shndx < |im.sections| &&
          (OutOfReach(source, m, im, s) || TableFails(im, DefinitionAt(source, m, im, s).objectName)))
  }

  lemma TakenIsDefinition(symbols: seq<NamedSymbol>, stack: nat -> Text)
    ensures forall j :: 0 <= j < |symbols| ==> (Taken(symbols, stack, j) <==> IsDefinition(symbols[j].name, stack(j)))
    ensures var d := DefinitionIndex(symbols, stack);
      && (d == -1 <==> forall j :: 0 <= j < |symbols| ==> !Taken(symbols, stack, j))
      && forall e: nat :: LastTaken(symbols, stack, e) <==> e == d
  {
    DefinitionIsLast(symbols, stack, DefinitionIndex(symbols, stack));
    hide DefinitionIndex;
  }

  lemma CalledIsMatch(symbols: seq<NamedSymbol>, objectName: Text)
    ensures forall j :: 0 <= j < |symbols| ==>
      (Called(symbols[j].name, objectName) <==> Matches(symbols[j].name, objectName))
    ensures var u := ObjectIndex(symbols, objectName);
      && (u == |symbols| <==> forall j :: 0 <= j < |symbols| ==> !Called(symbols[j].name, objectName))
      && forall v: nat :: FirstCalled(symbols, objectName, v) <==> u < |symbols| && v == u
  {
    ObjectIsFirstMatch(symbols, objectName, ObjectIndex(symbols, objectName));
    hide ObjectIndex;
  }

  lemma TableIsFound(im: Image, d: FileDef)
    requires ObjectDefined(im, d)
    ensures ReadObject(im, d).None? <==> TableFails(im, d.objectName)
  {
    CalledIsMatch(im.symbols, d.objectName);
    hide ObjectIndex, Called, FirstCalled;
    var u := ObjectIndex(im.symbols, d.objectName);
    if u < |im.symbols| {
      assert FirstCalled(im.symbols, d.objectName, u);
      assert DataPos(im.sections, im.symbols[u].symbol) == PlaceOf(im, im.symbols[u].symbol);
    }
  }

  /** What fails is described by the last symbol that is taken for the definition, if there is one. */
  ghost predicate Fails(source: seq<Byte>, s: Setup, im: Image)
    requires s.mission.Valid()
  {
    || (forall j :: 0 <= j < |im.symbols| ==> !Taken(im.symbols, s.stack, j))
    || exists d: nat ::
         LastTaken(im.symbols, s.stack, d) && DefinitionFails(source, s.mission, im, im.symbols[d].symbol)
  }

  lemma DefinitionIsRead(source: seq<Byte>, s: Setup, im: Image)
    requires s.Valid() && DefinitionDefined(s, im)
    ensures var d := DefinitionIndex(im.symbols, s.stack);
      if d == -1 then ReadDefinition(source, s, im).None?
      else
        var sym := im.symbols[d].symbol;
        && (!WrongSize(s.mission, sym) ==> sym.shndx < |im.sections|)
        && ReadDefinition(source, s, im) ==
             if WrongSize(s.mission, sym) || OutOfReach(source, s.mission, im, sym) then None
             else Some(DefinitionAt(source, s.mission, im, sym))
  {
    hide DefinitionIndex, FileDefOf;
  }

  lemma ImageFails(source: seq<Byte>, s: Setup, im: Image)
    requires s.Valid() && TableDefined(source, s, im)
    ensures ConvertImage(source, s, im).None? <==> Fails(source, s, im)
  {
    hide DefinitionIndex, Taken, LastTaken, TableFails, TableFileBytes, ElfImage.Payload, ReadDefinition, ReadObject;
    hide WrongSize, OutOfReach, DefinitionAt, ObjectDefined, DefinitionDefined;
    TakenIsDefinition(im.symbols, s.stack);
    DefinitionIsRead(source, s, im);
    var d := DefinitionIndex(im.symbols, s.stack);
    if d != -1 {
      assert LastTaken(im.symbols, s.stack, d);
      if ReadDefinition(source, s, im).Some? {
        TableIsFound(im, ReadDefinition(source, s, im).value);
      }
    }
  }

  /**
   * For a file that is read, the conversion fails exactly if no symbol is taken for the definition, or that of the last
   * one has the wrong size or lies out of reach, or no symbol is called as the table in it, or the table of the first
   * such symbol lies out of reach.
   */
  lemma ConversionFails(source: seq<Byte>, s: Setup, im: Image)
    requires s.Valid() && Defined(source, s) && ReadImage(source) == Some(im)
    ensures Convert(source, s).None? <==> Fails(source, s, im)
  {
    hide ReadImage, Fails, ConvertImage, ImageDefined;
    ImageFails(source, s, im);
  }

  /** And when it succeeds, it has found the definition of the last such symbol and the table of the first. */
  lemma ConversionFinds(source: seq<Byte>, s: Setup, im: Image, d: nat, u: nat)
    requires s.Valid() && Defined(source, s) && ReadImage(source) == Some(im) && Convert(source, s).Some?
    requires LastTaken(im.symbols, s.stack, d)
    ensures var sym := im.symbols[d].symbol;
      && sym.shndx < |im.sections| && !OutOfReach(source, s.mission, im, sym)
      && var definition := DefinitionAt(source, s.mission, im, sym);
      FirstCalled(im.symbols, definition.objectName, u) ==>
        var symbol := im.symbols[u].symbol;
        symbol.shndx < |im.sections| && Find(source, s) == Found(definition, symbol, im.sections[symbol.shndx])
  {
    hide ReadImage, ImageDefined, TableFileBytes, ElfImage.Payload, ReadDefinition, OutOfReach, DefinitionAt;
    hide DefinitionIndex, ObjectIndex, Taken, LastTaken, FirstCalled, WrongSize, DefinitionDefined;
    TakenIsDefinition(im.symbols, s.stack);
    DefinitionIsRead(source, s, im);
    CalledIsMatch(im.symbols, ReadDefinition(source, s, im).value.objectName);
  }
}
