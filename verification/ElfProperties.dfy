/** What the converter promises: which tables and symbols it picks, and what is in the file that it writes. */
module ElfProperties {
  import opened Basics
  import opened ElfBytes
  import opened ElfLayout
  import opened ElfImage
  import opened TableFile
  import opened ElfConversion

  // ----- The string table and the symbol table -----

  predicate IsStringTable(s: NamedSection) {
    s.name.Some? && s.section.kind == SHT_STRTAB
  }

  predicate IsStrtab(s: NamedSection) {
    IsStringTable(s) && s.name.value == STRTAB
  }

  /** A string table other than the one for the names of the sections. */
  predicate IsOther(h: Header, sections: seq<NamedSection>, i: nat)
    requires i < |sections|
  {
    IsStringTable(sections[i]) && i != h.shstrndx
  }

  ghost predicate LastStrtab(sections: seq<NamedSection>, k: nat) {
    k < |sections| && IsStrtab(sections[k]) && forall j :: k < j < |sections| ==> !IsStrtab(sections[j])
  }

  ghost predicate NoStrtab(sections: seq<NamedSection>) {
    forall j :: 0 <= j < |sections| ==> !IsStrtab(sections[j])
  }

  ghost predicate FirstOther(h: Header, sections: seq<NamedSection>, k: nat) {
    k < |sections| && IsOther(h, sections, k) && forall j :: 0 <= j < k ==> !IsOther(h, sections, j)
  }

  /** The names of the symbols come from the last section called .strtab. */
  lemma {:induction false} StrtabIsUsed(h: Header, sections: seq<NamedSection>, k: nat)
    requires LastStrtab(sections, k) && sections[k].section.offset != 0
    ensures Scan(h, sections).stringTable == sections[k].section.offset
    decreases |sections|
  {
    var n := |sections| - 1;
    if k < n {
      StrtabIsUsed(h, sections[..n], k);
    }
  }

  /** Without one, they come from the first string table that is not the one for the names of the sections. */
  lemma {:induction false} FirstOtherIsUsed(h: Header, sections: seq<NamedSection>, k: nat)
    requires NoStrtab(sections) && FirstOther(h, sections, k) && sections[k].section.offset != 0
    ensures Scan(h, sections).stringTable == sections[k].section.offset
    decreases |sections|
  {
    var n := |sections| - 1;
    var prior := sections[..n];
    assert forall j :: 0 <= j < n ==> (IsOther(h, prior, j) <==> IsOther(h, sections, j));
    if k < n {
      FirstOtherIsUsed(h, prior, k);
    } else {
      NoStringTable(h, prior);
    }
  }

  /** Without either, the tool finds none. */
  lemma {:induction false} NoStringTable(h: Header, sections: seq<NamedSection>)
    requires NoStrtab(sections) && forall j :: 0 <= j < |sections| ==> !IsOther(h, sections, j)
    ensures Scan(h, sections).stringTable == 0
    decreases |sections|
  {
    if sections != [] {
      var n := |sections| - 1;
      var prior := sections[..n];
      assert forall j :: 0 <= j < n ==> (IsOther(h, prior, j) <==> IsOther(h, sections, j));
      NoStringTable(h, prior);
      assert !IsOther(h, sections, n) && !IsStrtab(sections[n]);
    }
  }

  /** The symbols come from the last section with a symbol table. */
  lemma {:induction false} SymbolTableRule(h: Header, sections: seq<NamedSection>, k: nat)
    requires k < |sections| && sections[k].name.Some? && sections[k].section.kind == SHT_SYMTAB
    requires sections[k].section.entsize > 0
    requires forall j :: k < j < |sections| ==> sections[j].name.None? || sections[j].section.kind != SHT_SYMTAB
    ensures var t, s := Scan(h, sections), sections[k].section;
      && t.symbolTable == ToInt32(s.offset + RecordSize(Sym, h.is32))
      && t.entrySize == s.entsize && t.numSymbols == (s.size / s.entsize - 1) % UINT64
    decreases |sections|
  {
    var n := |sections| - 1;
    if k < n {
      SymbolTableRule(h, sections[..n], k);
    }
  }

  // ----- The symbol loop -----

  /** The tables as a scan leaves them when a section is the last one with symbols. */
  predicate TablesFor(h: Header, s: Section, t: Tables)
    requires s.entsize > 0
  {
    && t.symbolTable == ToInt32(s.offset + RecordSize(Sym, h.is32))
    && t.entrySize == s.entsize && t.numSymbols == (s.size / s.entsize - 1) % UINT64
  }

  /**
   * Symbol i is read where entry i + 1 of the table is, if the entries have the size of the record. Then every entry
   * but entry 0 is read, each once, and nothing outside the section. With any other entry size not one of them is.
   */
  lemma SymbolLoopReadsTable(h: Header, s: Section, t: Tables, i: nat)
    requires 0 < s.entsize <= s.size && s.offset + s.size < 0x8000_0000 && TablesFor(h, s, t) && i < t.numSymbols
    requires s.offset + RecordSize(Sym, h.is32) < 0x8000_0000
    ensures SymbolPos(t, i) == s.offset + (i + 1) * s.entsize <==> s.entsize == RecordSize(Sym, h.is32)
    ensures s.entsize == RecordSize(Sym, h.is32) ==>
      s.offset < SymbolPos(t, i) && SymbolPos(t, i) + RecordSize(Sym, h.is32) <= s.offset + s.size < 0x8000_0000
  {
    var n := s.size / s.entsize;
    CountIsExact(s, t);
    assert t.numSymbols == n - 1;
    assert (i + 1) * s.entsize == i * s.entsize + s.entsize;
    assert (i + 2) * s.entsize == i * s.entsize + s.entsize + s.entsize;
    assert n * s.entsize <= s.size;
    assert (i + 2) * s.entsize <= n * s.entsize by {
      Monotone(i + 2, n, s.entsize);
    }
    assert t.symbolTable == s.offset + RecordSize(Sym, h.is32);
  }

  /** Without wrap-around there is a symbol for every entry but the first. */
  lemma CountIsExact(s: Section, t: Tables)
    requires 0 < s.entsize <= s.size < UINT64 && t.numSymbols == (s.size / s.entsize - 1) % UINT64
    ensures t.numSymbols == s.size / s.entsize - 1
  {
    var n := s.size / s.entsize;
    assert s.size == n * s.entsize + s.size % s.entsize;
    assert 1 <= n <= s.size by {
      Monotone(1, s.entsize, n);
    }
  }

  lemma Monotone(a: nat, b: nat, c: nat)
    requires a <= b
    ensures a * c <= b * c && c * a <= c * b
  {
  }

  /** Entry k of the table is symbol k - 1, for every entry but the first. */
  lemma EveryEntryIsRead(h: Header, s: Section, t: Tables, k: nat)
    requires 0 < s.entsize <= s.size && s.offset + s.size < 0x8000_0000 && TablesFor(h, s, t)
    requires s.entsize == RecordSize(Sym, h.is32) && 1 <= k < s.size / s.entsize
    ensures 0 <= k - 1 < t.numSymbols && SymbolPos(t, k - 1) == s.offset + k * s.entsize
  {
    SymbolLoopReadsTable(h, s, t, k - 1);
  }

  // ----- The symbols that are picked -----

  /** A name matches exactly if it is the object's name, or that name and any one character. */
  lemma MatchesExactly(name: Text, objectName: Text)
    ensures Matches(name, objectName) <==> name == objectName || exists c: Byte :: name == objectName + [c]
  {
    if Matches(name, objectName) && name != objectName {
      assert name == objectName + [name[|objectName|]];
    }
  }

  /** The last symbol that carries the name of the definition, or -1 if none does. */
  ghost predicate LastCarrier(symbols: seq<NamedSymbol>, d: int) {
    && -1 <= d < |symbols|
    && (d >= 0 ==> CarriesDefinition(symbols[d].name))
    && forall j :: d < j < |symbols| ==> !CarriesDefinition(symbols[j].name)
  }

  /**
   * The definition is the last symbol that carries its name, and is missing if none does, if and only if behind that
   * symbol no empty name meets the name of the definition in the buffer.
   */
  lemma DefinitionByName(symbols: seq<NamedSymbol>, stack: nat -> Text, d: int)
    requires LastCarrier(symbols, d)
    ensures DefinitionIndex(symbols, stack) == d
       <==> forall j :: d < j < |symbols| && symbols[j].name == [] ==> stack(j) != TBL_DEF_SYMBOL_NAME
  {
    DefinitionIsLast(symbols, stack, d);
    assert forall j :: d < j < |symbols| ==>
      (IsDefinition(symbols[j].name, stack(j)) <==> symbols[j].name == [] && stack(j) == TBL_DEF_SYMBOL_NAME);
  }

  /**
   * The name itself, or the name behind one character, as compilers write it that put an underscore before every name.
   */
  predicate CarriesDefinition(name: Text) {
    name == TBL_DEF_SYMBOL_NAME || (name != [] && name[1..] == TBL_DEF_SYMBOL_NAME)
  }

  /**
   * An input for which it fails: if the buffer still holds the text of the symbol before, a symbol without a name that
   * follows the definition, as every section's symbol is, is taken for the definition instead.
   */
  lemma StaleNameIsTaken(definition: Symbol, section: Symbol)
    ensures var symbols := [NamedSymbol(definition, [0x5F] + TBL_DEF_SYMBOL_NAME), NamedSymbol(section, [])];
            DefinitionIndex(symbols, _ => TBL_DEF_SYMBOL_NAME) == 1
  {
    var symbols := [NamedSymbol(definition, [0x5F] + TBL_DEF_SYMBOL_NAME), NamedSymbol(section, [])];
    assert symbols[1].name == [];
  }

  // ----- The file that is written -----

  /** What a conversion that succeeds has found in its source. */
  datatype Found = Found(definition: FileDef, symbol: Symbol, section: NamedSection)

  function FindIn(im: Image, d: FileDef): (f: Found)
    requires ObjectDefined(im, d) && ReadObject(im, d).Some?
  {
    var symbol := im.symbols[ObjectIndex(im.symbols, d.objectName)].symbol;
    Found(d, symbol, im.sections[symbol.shndx])
  }

  function Find(source: seq<Byte>, s: Setup): (f: Found)
    requires Defined(source, s) && Convert(source, s).Some?
  {
    var im := ReadImage(source).value;
    FindIn(im, ReadDefinition(source, s, im).value)
  }

  function PayloadOf(s: Setup, file: seq<Byte>): seq<Byte>
    requires |file| >= FileHeaderWritten(s.mission) + TableHeaderWritten(s.mission)
  {
    file[FileHeaderWritten(s.mission) + TableHeaderWritten(s.mission)..]
  }

  function FoundObject(f: Found): Object
    requires f.section.name.Some?
  {
    if f.section.name.value == BSS then Zeros(f.symbol.size)
    else Slice((f.section.section.offset + f.symbol.value) % UINT64, ObjectSize(f.symbol.size, f.definition.objectSize))
  }

  lemma ConvertedFile(source: seq<Byte>, s: Setup)
    requires Defined(source, s) && Convert(source, s).Some?
    ensures s.Valid()
    ensures var f := Find(source, s);
      && f.section.name.Some? && FoundObject(f).size < 0x8000_0000
      && |f.definition.tableName| < s.mission.nameLen && |f.definition.description| < s.mission.descLen
      && 0 !in f.definition.tableName && 0 !in f.definition.description
      && Convert(source, s).value == TableFileBytes(s.mission, s.options, f.definition, Payload(source, FoundObject(f)))
  {
    hide ReadImage, ReadDefinition, TableFileBytes, ReadObject, Payload, ObjectDefined, FindIn, FoundObject;
    var im := ReadImage(source).value;
    ObjectFound(im, ReadDefinition(source, s, im).value);
  }

  lemma ObjectFound(im: Image, d: FileDef)
    requires ObjectDefined(im, d) && ReadObject(im, d).Some?
    ensures var f := FindIn(im, d);
      f.definition == d && f.section.name.Some? && ReadObject(im, d) == Some(FoundObject(f))
        && FoundObject(f).size < 0x8000_0000
  {
    hide ObjectIndex;
  }

  /** Everything in the headers: the chosen identifiers and texts, and the number of bytes that follow. */
  lemma ConvertedHeaders(source: seq<Byte>, s: Setup)
    requires Defined(source, s) && Convert(source, s).Some?
    ensures var file, d := Convert(source, s).value, Find(source, s).definition;
      && |file| >= FileHeaderWritten(s.mission) + TableHeaderWritten(s.mission)
      && HeadersSay(s.mission, s.options, d, |PayloadOf(s, file)|, ParseFileHeader(s.mission, file),
                    ParseTableHeader(s.mission, file))
  {
    hide ParseFileHeader, ParseTableHeader, Convert, Find, Payload, FileHeaderSize, FileHeaderWritten,
      TableHeaderWritten, HeadersSay, TableFileBytes, FoundObject;
    ConvertedFile(source, s);
    var f := Find(source, s);
    HeadersParseBack(s.mission, s.options, f.definition, Payload(source, FoundObject(f)));
  }

  /** How many bytes the table has: the symbol's size as the definition corrects it, but uncorrected in .bss. */
  function TableSize(f: Found): nat
    requires f.section.name.Some?
  {
    if f.section.name.value == BSS then f.symbol.size
    else if f.symbol.size == 0 then f.definition.objectSize
    else if f.symbol.size <= f.definition.objectSize then f.symbol.size
    else f.definition.objectSize
  }

  /**
   * The payload: for a symbol in .bss as many zeros as the symbol is long, otherwise the bytes of the source from the
   * section's offset plus the symbol's value, modulo 2^64, on; past the end of the source they are 0xFF.
   */
  lemma ConvertedPayload(source: seq<Byte>, s: Setup)
    requires Defined(source, s) && Convert(source, s).Some?
    ensures var file, f := Convert(source, s).value, Find(source, s);
      && f.section.name.Some? && |file| == FileHeaderWritten(s.mission) + TableHeaderWritten(s.mission) + TableSize(f)
      && var payload, start, size :=
        PayloadOf(s, file), (f.section.section.offset + f.symbol.value) % UINT64, TableSize(f);
      && (f.section.name.value == BSS ==> forall k :: 0 <= k < size ==> payload[k] == 0)
      && (f.section.name.value != BSS ==> forall k :: 0 <= k < size ==>
            payload[k] == if start + k < |source| then source[start + k] else 0xFF)
      && (f.section.name.value != BSS && start + size <= |source| ==> payload == source[start..start + size])
  {
    hide Convert, Find, FileHeaderBytes, TableHeaderBytes, FileHeaderWritten, TableHeaderWritten, Payload;
    ConvertedFile(source, s);
    var f := Find(source, s);
    var o := FoundObject(f);
    var headers := FileHeaderBytes(s.mission, s.options, Or(s.options.description, f.definition.description))
                 + TableHeaderBytes(s.mission, |Payload(source, o)|, Or(s.options.tableName, f.definition.tableName));
    assert Convert(source, s).value == headers + Payload(source, o);
    assert PayloadOf(s, Convert(source, s).value) == Payload(source, o);
    PayloadBytes(source, o);
  }

  lemma PayloadBytes(source: seq<Byte>, o: Object)
    ensures var p := Payload(source, o);
      && (o.Zeros? ==> forall k :: 0 <= k < o.size ==> p[k] == 0)
      && (o.Slice? ==> forall k :: 0 <= k < o.size ==> p[k] == CharAt(source, o.start + k))
      && (o.Slice? && o.start + o.size <= |source| ==> p == source[o.start..o.start + o.size])
  {
  }
}
