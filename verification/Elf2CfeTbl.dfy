/**
 * The converter as it runs on a host of either byte order: its globals, its position in the source file, its output.
 */
module Elf2CfeTbl {
  import opened Basics
  import opened ElfBytes
  import opened ElfLayout
  import opened ElfImage
  import opened TableFile
  import opened ElfConversion

  const EHDR_SIZE: nat := 64  // the size of the union of both header structures
  const SHDR_SIZE: nat := 64
  const SYM_SIZE: nat := 24

  class Converter {
    const source: seq<Byte>
    const host: Order
    const setup: Setup
    const elfHeader: array<Byte>

    var pos: nat
    var thisMachineIsLittleEndian: bool
    var byteSwapRequired: bool
    var targetWordsizeIs32Bit: bool
    var sectionHeaderStringTableDataOffset: int
    var sections: seq<NamedSection>
    var stringTableDataOffset: nat
    var symbolTableDataOffset: int
    var symbolTableEntrySize: nat
    var numSymbols: nat
    var symbols: seq<NamedSymbol>
    var tblDefSymbolIndex: int
    var tableDataIsAllZeros: bool
    var output: seq<Byte>

    ghost var header: Header

    constructor (source: seq<Byte>, host: Order, setup: Setup)
      ensures this.source == source && this.host == host && this.setup == setup && fresh(elfHeader) && Start()
    {
      this.source, this.host, this.setup := source, host, setup;
      elfHeader := new Byte[EHDR_SIZE](_ => 0);
      pos, output, sections, symbols := 0, [], [], [];
      thisMachineIsLittleEndian, byteSwapRequired, targetWordsizeIs32Bit := true, false, true;
      sectionHeaderStringTableDataOffset, tblDefSymbolIndex, tableDataIsAllZeros := 0, -1, false;
      stringTableDataOffset, symbolTableDataOffset, symbolTableEntrySize, numSymbols := 0, 0, 0, 0;
    }

    /** The globals as they are initialized. */
    ghost predicate Start()
      reads this
    {
      && pos == 0 && output == [] && sections == [] && symbols == [] && elfHeader.Length == EHDR_SIZE
      && !byteSwapRequired && tblDefSymbolIndex == -1 && !tableDataIsAllZeros && thisMachineIsLittleEndian
      && sectionHeaderStringTableDataOffset == 0 && SymbolTables() == Tables(0, 0, 0, 0)
    }

    ghost function SymbolTables(): Tables
      reads this
    {
      Tables(symbolTableDataOffset, symbolTableEntrySize, numSymbols, stringTableDataOffset)
    }

    /** The header in memory says, in the order of the host, what the file says in its own. */
    ghost predicate HeaderIsRead()
      reads this, elfHeader
    {
      && elfHeader.Length == EHDR_SIZE && targetWordsizeIs32Bit == header.is32
      && byteSwapRequired == (host != header.target) && thisMachineIsLittleEndian == (host == Little)
      && HeaderOf(host, header.is32, header.target, elfHeader[..]) == header
    }

    // ----- The source file -----

    method FSeek(offset: int) returns (ok: bool)
      modifies this`pos
      ensures ok <==> offset >= 0
      ensures pos == SeekTo(offset, old(pos))
    {
      ok := offset >= 0;
      if ok {
        pos := offset;
      }
    }

    method FRead(mem: array<Byte>, at: nat, size: nat) returns (ok: bool)
      requires at + size <= mem.Length
      modifies this`pos, mem
      ensures ok <==> old(pos) + size <= |source|
      ensures ok ==> pos == old(pos) + size
      ensures ok ==> mem[..] == Update(old(mem[..]), Field(at, size), source[old(pos)..old(pos) + size])
    {
      ok := pos + size <= |source|;
      if ok {
        forall k | 0 <= k < size {
          mem[at + k] := source[pos + k];
        }
        pos := pos + size;
      } else if pos < |source| {
        pos := |source|;
      }
    }

    method FGetc() returns (c: Byte)
      modifies this`pos
      ensures c == CharAt(source, old(pos))
      ensures pos == if old(pos) < |source| then old(pos) + 1 else old(pos)
    {
      c := CharAt(source, pos);
      if pos < |source| {
        pos := pos + 1;
      }
    }

    /** Reads characters into the text buffer, up to a NUL. */
    method ReadText() returns (verboseStr: Text)
      requires Terminated(source, pos)
      modifies this`pos
      ensures verboseStr == TextAt(source, old(pos))
    {
      hide TextAt;
      TextEnds(source, pos);
      ghost var start, text := pos, TextAt(source, pos);
      verboseStr := [];
      var c := FGetc();
      while c != 0
        invariant |verboseStr| <= |text| && verboseStr == text[..|verboseStr|]
        invariant pos == start + |verboseStr| + 1 && c == source[start + |verboseStr|]
        decreases |text| - |verboseStr|
      {
        assert |verboseStr| + 1 < 60;  // the index into the buffer
        verboseStr := verboseStr + [c];
        c := FGetc();
      }
      assert |verboseStr| == |text|;
    }

    // ----- Reading the ELF file -----

    method GetStringFromMap(values: seq<nat>, key: nat) returns (found: bool)
      ensures found <==> key in values
    {
      found := false;
      var i := 0;
      while i < |values| && !found
        invariant 0 <= i <= |values| && key !in values[..i]
        invariant found ==> i < |values| && values[i] == key
        decreases |values| - i, !found
      {
        if values[i] == key {
          found := true;
        } else {
          i := i + 1;
        }
      }
    }

    /** The first part of GetElfHeader: the order of the host, and e_ident. */
    method GetElfIdent() returns (ok: bool)
      requires Start()
      modifies this`pos, this`thisMachineIsLittleEndian, this`byteSwapRequired, this`targetWordsizeIs32Bit, elfHeader
      ensures ok <==> GoodIdent(source)
      ensures ok ==> elfHeader[..EI_NIDENT] == source[..EI_NIDENT] && pos == EI_NIDENT
      ensures ok ==> targetWordsizeIs32Bit == Is32(source) && byteSwapRequired == (host != Target(source))
      ensures ok ==> thisMachineIsLittleEndian == (host == Little)
    {
      hide Update, Bytes;
      ProbeBytes();
      if Bytes(host, 0x01020304, 4)[0] == 0x01 {
        thisMachineIsLittleEndian := false;
      }
      ok := FRead(elfHeader, 0, EI_NIDENT);
      if !ok {
        return false;
      }
      ReadAtStart(source, old(elfHeader[..]), EI_NIDENT);
      assert forall k :: 0 <= k < EI_NIDENT ==> elfHeader[k] == elfHeader[..EI_NIDENT][k] == source[k];
      if elfHeader[0] != 0x7f || elfHeader[1] != 0x45 || elfHeader[2] != 0x4C || elfHeader[3] != 0x46 {
        return false;
      }
      match elfHeader[EI_CLASS] {
        case 1 => targetWordsizeIs32Bit := true;
        case 2 => targetWordsizeIs32Bit := false;
        case _ => return false;
      }
      match elfHeader[EI_DATA] {
        case 1 =>
          if !thisMachineIsLittleEndian {
            byteSwapRequired := true;
          }
        case 2 =>
          if thisMachineIsLittleEndian {
            byteSwapRequired := true;
          }
        case _ => return false;
      }
      return elfHeader[EI_VERSION] == EV_CURRENT;
    }

    /** The last part of GetElfHeader: the file type, the machine type and the file version. */
    method CheckElfHeader() returns (ok: bool)
      requires elfHeader.Length == EHDR_SIZE
      ensures ok <==> GoodHeader(host, targetWordsizeIs32Bit, elfHeader[..])
    {
      hide EMachineMap, ETypeMap, Get;
      ok := GetStringFromMap(ETypeMap(), Get(host, elfHeader[..], EType()));
      if ok {
        ok := GetStringFromMap(EMachineMap(), Get(host, elfHeader[..], EMachine()));
      }
      return ok && Get(host, elfHeader[..], EVersion()) == EV_CURRENT;
    }

    method GetElfHeader() returns (ok: bool)
      requires Start()
      modifies this`pos, this`thisMachineIsLittleEndian, this`byteSwapRequired, this`targetWordsizeIs32Bit, this`header,
        elfHeader
      ensures ok <==> ParseHeader(source).Some?
      ensures ok ==> header == ParseHeader(source).value && HeaderIsRead()
    {
      hide EMachineMap, ETypeMap, GoodIdent, GoodHeader, HeaderOf, Is32, Target, Swaps, SwapRecord;
      ok := GetElfIdent();
      if !ok {
        return false;
      }
      var is32 := targetWordsizeIs32Bit;
      var n := RecordSize(Ehdr, is32);
      HeaderIsLongEnough(Target(source), is32, source);
      ok := FRead(elfHeader, EI_NIDENT, n - EI_NIDENT);
      if !ok {
        return false;
      }
      ghost var mem := elfHeader[..];
      assert mem[..n] == source[..EI_NIDENT] + source[EI_NIDENT..n] == source[..n];
      HeaderInMemory(host, Target(source), is32, mem, source);
      if byteSwapRequired {
        SwapElfHeader(elfHeader, is32);
      }
      header := HeaderOf(Target(source), is32, Target(source), source);
      ok := CheckElfHeader();
    }

    /**
     * Reads a section header. Once the section names are known, also reads its name, and takes note of symbol and
     * string tables.
     */
    method GetSectionHeader(sectionIndex: nat) returns (ok: bool, section: Section, sectionName: Option<Text>)
      requires HeaderIsRead() && SectionPosDefined(header, sectionIndex)
      requires ParseSection(source, header, sectionIndex).Some? ==>
        SectionDefined(source, header, sectionHeaderStringTableDataOffset, sectionIndex,
          ParseSection(source, header, sectionIndex).value)
      modifies this`pos, this`stringTableDataOffset, this`symbolTableDataOffset, this`symbolTableEntrySize,
        this`numSymbols
      ensures ok <==> ParseSection(source, header, sectionIndex).Some?
      ensures ok ==>
        NamedSection(section, sectionName)
          == NameSection(source, header, sectionHeaderStringTableDataOffset, sectionIndex,
                         ParseSection(source, header, sectionIndex).value)
      ensures ok ==>
        SymbolTables() == ScanStep(header, sectionIndex, NamedSection(section, sectionName), old(SymbolTables()))
    {
      hide Get, HostMemory, ToInt64, TextAt, SectionOf, ScanStep;
      section, sectionName := Section(0, 0, 0, 0, 0), None;
      var seekOffset := ToInt64(Get(host, elfHeader[..], EShoff(targetWordsizeIs32Bit)));
      var shentsize := Get(host, elfHeader[..], EShentsize(targetWordsizeIs32Bit));
      if sectionIndex > 0 {
        seekOffset := seekOffset + sectionIndex * shentsize;
      }
      assert seekOffset == SectionPos(header, sectionIndex);
      ok := FSeek(seekOffset);
      if !ok {
        return;
      }
      ok, section := ReadSectionHeader();
      if !ok {
        return;
      }
      if sectionHeaderStringTableDataOffset != 0 && section.name != 0 {
        var _ := FSeek(sectionHeaderStringTableDataOffset + section.name);
        var verboseStr := ReadText();
        sectionName := Some(verboseStr);
        NoteTables(sectionIndex, section, verboseStr);
      } else {
        NoName(header, sectionIndex, section, SymbolTables());
      }
    }

    /** The two section types that GetSectionHeader acts on. */
    method NoteTables(sectionIndex: nat, section: Section, verboseStr: Text)
      requires HeaderIsRead() && (section.kind == SHT_SYMTAB ==> section.entsize > 0)
      modifies this`stringTableDataOffset, this`symbolTableDataOffset, this`symbolTableEntrySize, this`numSymbols
      ensures SymbolTables()
        == ScanStep(header, sectionIndex, NamedSection(section, Some(verboseStr)), old(SymbolTables()))
    {
      hide Get, ToInt32;
      match section.kind {
        case 2 =>
          symbolTableDataOffset := ToInt32(section.offset + RecordSize(Sym, targetWordsizeIs32Bit));
          symbolTableEntrySize := section.entsize;
          numSymbols := (section.size / section.entsize - 1) % UINT64;
        case 3 =>
          if verboseStr == STRTAB
            || (stringTableDataOffset == 0
              && sectionIndex != Get(host, elfHeader[..], EShstrndx(targetWordsizeIs32Bit))) {
            stringTableDataOffset := section.offset;
          }
        case _ =>
      }
    }

    /** Reads one section header at the file position and brings it into the order of the host. */
    method ReadSectionHeader() returns (ok: bool, section: Section)
      requires HeaderIsRead()
      modifies this`pos
      ensures ok <==> old(pos) + RecordSize(Shdr, header.is32) <= |source|
      ensures ok ==> pos == old(pos) + RecordSize(Shdr, header.is32)
      ensures ok ==> section == SectionOf(header.target, header.is32, source[old(pos)..pos])
    {
      hide SectionOf, SwapRecord, Swaps, HeaderOf;
      var is32 := targetWordsizeIs32Bit;
      section := Section(0, 0, 0, 0, 0);
      var sectionHeader := new Byte[SHDR_SIZE](_ => 0);
      ghost var record :=
        if pos + RecordSize(Shdr, is32) <= |source| then source[pos..pos + RecordSize(Shdr, is32)] else [];
      ok := FRead(sectionHeader, 0, RecordSize(Shdr, is32));
      if ok {
        ghost var mem := sectionHeader[..];
        assert mem[..RecordSize(Shdr, is32)] == record == record[..RecordSize(Shdr, is32)];
        SectionInMemory(host, header.target, is32, mem, record);
        if byteSwapRequired {
          SwapSectionHeader(sectionHeader, is32);
        }
        section := SectionOf(host, is32, sectionHeader[..]);
      }
    }

    /** Reads a symbol and its name, and remembers its index if it is the definition of the table. */
    method GetSymbol(symbolIndex: nat) returns (ok: bool, symbol: Symbol, symbolName: Text)
      requires HeaderIsRead() && SymbolDefined(source, header, SymbolTables(), symbolIndex)
      modifies this`pos, this`tblDefSymbolIndex
      ensures ok <==> ParseSymbol(source, header, SymbolTables(), symbolIndex).Some?
      ensures ok ==>
        NamedSymbol(symbol, symbolName) == NameSymbol(source, header, SymbolTables(), symbolIndex,
                                                      ParseSymbol(source, header, SymbolTables(), symbolIndex).value)
      ensures ok ==>
        tblDefSymbolIndex == if IsDefinition(symbolName, setup.stack(symbolIndex)) then symbolIndex
          else old(tblDefSymbolIndex)
    {
      hide TextAt, SymbolOf, ToInt32, HeaderOf;
      symbol, symbolName := Symbol(0, 0, 0, 0), [];
      var calculatedOffset := (symbolTableDataOffset + symbolIndex * symbolTableEntrySize) % UINT64;
      var seekOffset := ToInt32(calculatedOffset);
      SeekIsExact(calculatedOffset);
      if seekOffset % UINT64 != calculatedOffset {
        return false, symbol, symbolName;
      }
      ok := FSeek(seekOffset);
      if !ok {
        return;
      }
      ok, symbol := ReadSymbol();
      if !ok {
        return;
      }
      var _ := FSeek(ToInt32(stringTableDataOffset + symbol.name));
      var verboseStr := ReadText();
      symbolName := verboseStr;
      var fromSecond := if verboseStr == [] then setup.stack(symbolIndex) else verboseStr[1..];
      if verboseStr == TBL_DEF_SYMBOL_NAME || fromSecond == TBL_DEF_SYMBOL_NAME {
        tblDefSymbolIndex := symbolIndex;
      }
    }

    /** Reads one symbol table entry at the file position and brings it into the order of the host. */
    method ReadSymbol() returns (ok: bool, symbol: Symbol)
      requires HeaderIsRead()
      modifies this`pos
      ensures ok <==> old(pos) + RecordSize(Sym, header.is32) <= |source|
      ensures ok ==> pos == old(pos) + RecordSize(Sym, header.is32)
      ensures ok ==> symbol == SymbolOf(header.target, header.is32, source[old(pos)..pos])
    {
      hide SymbolOf, SwapRecord, Swaps, HeaderOf;
      var is32 := targetWordsizeIs32Bit;
      symbol := Symbol(0, 0, 0, 0);
      var entry := new Byte[SYM_SIZE](_ => 0);
      ghost var record :=
        if pos + RecordSize(Sym, is32) <= |source| then source[pos..pos + RecordSize(Sym, is32)] else [];
      ok := FRead(entry, 0, RecordSize(Sym, is32));
      if ok {
        ghost var mem := entry[..];
        assert mem[..RecordSize(Sym, is32)] == record == record[..RecordSize(Sym, is32)];
        SymbolInMemory(host, header.target, is32, mem, record);
        if byteSwapRequired {
          SwapSymbol(entry, is32);
        }
        symbol := SymbolOf(host, is32, entry[..]);
      }
    }

    /**
     * Reads the definition of the table: its strings are closed with a NUL, its number brought into the order of the
     * host.
     */
    method GetTblDefInfo() returns (ok: bool, tblFileDef: FileDef)
      requires HeaderIsRead() && setup.Valid() && 0 <= tblDefSymbolIndex < |symbols|
      requires var s := symbols[tblDefSymbolIndex].symbol;
        s.size == 0 || s.size == setup.mission.FileDefSize() ==> s.shndx < |sections|
      modifies this`pos
      ensures ok
        <==> ParseFileDef(source, setup.mission, header.target, sections, symbols[tblDefSymbolIndex].symbol).Some?
      ensures ok ==>
        ParseFileDef(source, setup.mission, header.target, sections, symbols[tblDefSymbolIndex].symbol)
          == Some(tblFileDef)
    {
      hide FileDefOf;
      ok, tblFileDef := true, FileDef([], [], [], 0);
      var m, s := setup.mission, symbols[tblDefSymbolIndex].symbol;
      if s.size != m.FileDefSize() && s.size != 0 {
        return false, tblFileDef;
      }
      var calculatedOffset := (sections[s.shndx].section.offset + s.value) % UINT64;
      var seekOffset := calculatedOffset % UINT32;
      if seekOffset != calculatedOffset {
        ok := false;
      }
      var _ := FSeek(seekOffset);
      var read;
      read, tblFileDef := ReadFileDef();
      ok := ok && read;
    }

    method ReadFileDef() returns (ok: bool, tblFileDef: FileDef)
      requires HeaderIsRead() && setup.Valid()
      modifies this`pos
      ensures ok <==> old(pos) + setup.mission.FileDefSize() <= |source|
      ensures ok ==> pos == old(pos) + setup.mission.FileDefSize()
      ensures ok ==> tblFileDef == FileDefOf(header.target, setup.mission, source[old(pos)..pos])
    {
      hide HeaderOf, FileDefOf;
      var m := setup.mission;
      tblFileDef := FileDef([], [], [], 0);
      var def := new Byte[m.FileDefSize()](_ => 0);
      ok := FRead(def, 0, m.FileDefSize());
      if ok {
        assert def[..] == source[old(pos)..pos];
        CloseFileDef(def);
        tblFileDef := FileDefInMemory(host, m, def[..]);
      }
    }

    /** Closes the four strings of the definition and brings its number into the order of the host. */
    method CloseFileDef(def: array<Byte>)
      requires HeaderIsRead() && setup.Valid() && def.Length == setup.mission.FileDefSize() && def != elfHeader
      modifies def
      ensures FileDefInMemory(host, setup.mission, def[..]) == FileDefOf(header.target, setup.mission, old(def[..]))
    {
      hide HeaderOf, FileDefOf, FileDefInMemory, SwapField;
      var m := setup.mission;
      ghost var record := def[..];
      def[63] := 0;
      def[64 + m.nameLen - 1] := 0;
      def[64 + m.nameLen + m.descLen - 1] := 0;
      def[64 + m.nameLen + m.descLen + m.fileLen - 1] := 0;
      ghost var closed := def[..];
      if byteSwapRequired {
        SwapUInt32(def, Aligned(64 + m.nameLen + m.descLen + m.fileLen));
      }
      DefInMemory(host, header.target, m, record, closed);
    }

    /** Finds the symbol of the table, settles its size and leaves the file position at its data. */
    method LocateAndReadUserObject(tblFileDef: FileDef) returns (ok: bool, userObjSymbolIndex: nat)
      requires ObjectDefined(Image(header, sections, symbols), tblFileDef) && !tableDataIsAllZeros
      modifies this`pos, this`tableDataIsAllZeros, this`symbols
      ensures var o := ReadObject(Image(header, sections, old(symbols)), tblFileDef);
        && (ok <==> o.Some?)
        && (ok ==> userObjSymbolIndex < |symbols| && symbols[userObjSymbolIndex].symbol.size == o.value.size)
        && (ok ==> tableDataIsAllZeros == o.value.Zeros? && (o.value.Slice? ==> pos == o.value.start))
    {
      ok := true;
      var i := 0;
      while i < |symbols|
        invariant 0 <= i <= |symbols|
        invariant forall j :: 0 <= j < i ==> !Matches(symbols[j].name, tblFileDef.objectName)
      {
        if tblFileDef.objectName <= symbols[i].name {
          if |symbols[i].name| - |tblFileDef.objectName| == 1 {
            break;
          } else if |symbols[i].name| - |tblFileDef.objectName| == 0 {
            break;
          }
        }
        i := i + 1;
      }
      ObjectIsFirstMatch(symbols, tblFileDef.objectName, i);
      userObjSymbolIndex := i;
      if i == |symbols| {
        return false, i;
      }
      var s := symbols[i].symbol;
      if sections[s.shndx].name.value == BSS {
        tableDataIsAllZeros := true;
      } else {
        var calculatedOffset := (sections[s.shndx].section.offset + s.value) % UINT64;
        var seekOffset := calculatedOffset % UINT32;
        if seekOffset != calculatedOffset {
          ok := false;
        }
        var _ := FSeek(seekOffset);
        if s.size != 0 {
          if s.size != tblFileDef.objectSize && tblFileDef.objectSize < s.size {
            SetStSize(i, tblFileDef.objectSize);
          }
        } else {
          SetStSize(i, tblFileDef.objectSize);
        }
      }
    }

    method SetStSize(i: nat, newValue: nat)
      requires i < |symbols|
      modifies this`symbols
      ensures |symbols| == |old(symbols)| && symbols[i].symbol == old(symbols)[i].symbol.(size := newValue)
    {
      symbols := symbols[i := symbols[i].(symbol := symbols[i].symbol.(size := newValue))];
    }

    // ----- Writing the table file -----

    method FWrite(b: seq<Byte>)
      modifies this`output
      ensures output == old(output) + b
    {
      output := output + b;
    }

    /** Assigning a number to a field of a structure in memory. */
    method StoreUInt32(mem: array<Byte>, offset: nat, v: nat)
      requires offset + 4 <= mem.Length
      modifies mem
      ensures mem[..] == Update(old(mem[..]), Field(offset, 4), Bytes(host, v, 4))
    {
      var b := Bytes(host, v, 4);
      mem[offset], mem[offset + 1], mem[offset + 2], mem[offset + 3] := b[0], b[1], b[2], b[3];
    }

    /** Clearing a character array and copying a string into it. */
    method StoreText(mem: array<Byte>, f: Field, t: Text)
      requires f.offset + f.width <= mem.Length && |t| <= f.width
      modifies mem
      ensures mem[..] == Update(old(mem[..]), f, Padded(t, f.width))
    {
      forall k | 0 <= k < f.width {
        mem[f.offset + k] := if k < |t| then t[k] else 0;
      }
    }

    /**
     * The header of the file in memory: filled in as the host stores numbers, then swapped if the host is
     * little-endian.
     */
    method MakeFileHeader(fileHeader: array<Byte>, description: Text)
      requires setup.Valid() && fileHeader.Length == FileHeaderSize(setup.mission)
        && |description| < setup.mission.descLen
      requires thisMachineIsLittleEndian == (host == Little)
      modifies fileHeader
      ensures var w := FileHeaderWords(setup.mission, setup.options);
        forall i :: 0 <= i < 8 ==> Raw(fileHeader[..], WordField(i)) == Bytes(Big, w[i], 4)
      ensures Raw(fileHeader[..], Field(32, setup.mission.descLen)) == Padded(description, setup.mission.descLen)
    {
      hide Update, SwapField, Bytes, Raw, Padded;
      var o := setup.options;
      ghost var was, w := fileHeader[..], FileHeaderWords(setup.mission, o);
      StoreUInt32(fileHeader, 0, CONTENT_TYPE);
      StoreUInt32(fileHeader, 4, SUB_TYPE_TBL_IMG);
      StoreUInt32(fileHeader, 8, FileHeaderSize(setup.mission));
      StoreUInt32(fileHeader, 12, Or(o.spacecraftID, 0));
      StoreUInt32(fileHeader, 16, Or(o.processorID, 0));
      StoreUInt32(fileHeader, 20, Or(o.applicationID, 0));
      StoreUInt32(fileHeader, 24, Or(o.time, 0) % UINT32);
      StoreUInt32(fileHeader, 28, 0);
      assert fileHeader[..] == StoreWords(was, host, w, 8);
      StoreText(fileHeader, Field(32, setup.mission.descLen), description);
      ghost var filled := fileHeader[..];
      if thisMachineIsLittleEndian {
        SwapUInt32(fileHeader, 0);
        SwapUInt32(fileHeader, 4);
        SwapUInt32(fileHeader, 8);
        SwapUInt32(fileHeader, 12);
        SwapUInt32(fileHeader, 16);
        SwapUInt32(fileHeader, 20);
        SwapUInt32(fileHeader, 24);
        SwapUInt32(fileHeader, 28);
        assert fileHeader[..] == SwapFields(filled, WordFields(8), 8);
      }
      HeaderWords(was, host, w, Field(32, setup.mission.descLen), Padded(description, setup.mission.descLen));
    }

    method MakeTableHeader(tableHeader: array<Byte>, numBytes: nat, tableName: Text)
      requires setup.Valid() && tableHeader.Length == TableHeaderSize(setup.mission)
        && |tableName| < setup.mission.nameLen
      requires thisMachineIsLittleEndian == (host == Little)
      modifies tableHeader
      ensures var w := TableHeaderWords(numBytes);
        forall i :: 0 <= i < 3 ==> Raw(tableHeader[..], WordField(i)) == Bytes(Big, w[i], 4)
      ensures Raw(tableHeader[..], Field(12, setup.mission.nameLen)) == Padded(tableName, setup.mission.nameLen)
    {
      hide Update, SwapField, Bytes, Raw, Padded;
      ghost var was, w := tableHeader[..], TableHeaderWords(numBytes);
      StoreUInt32(tableHeader, 0, 0);  // memset of the whole structure
      StoreUInt32(tableHeader, 4, 0);
      StoreUInt32(tableHeader, 8, numBytes);
      assert tableHeader[..] == StoreWords(was, host, w, 3);
      StoreText(tableHeader, Field(12, setup.mission.nameLen), tableName);
      ghost var filled := tableHeader[..];
      if thisMachineIsLittleEndian {
        SwapUInt32(tableHeader, 0);
        SwapUInt32(tableHeader, 4);
        SwapUInt32(tableHeader, 8);
        assert tableHeader[..] == SwapFields(filled, WordFields(3), 3);
      }
      HeaderWords(was, host, w, Field(12, setup.mission.nameLen), Padded(tableName, setup.mission.nameLen));
    }

    /** Writes one word of a header. */
    method FWriteWord(mem: array<Byte>, i: nat, ghost w: seq<nat>, ghost start: seq<Byte>)
      requires i < |w| && 4 * |w| <= mem.Length && Raw(mem[..], WordField(i)) == Bytes(Big, w[i], 4)
      requires output == start + Words(w[..i])
      modifies this`output
      ensures output == start + Words(w[..i + 1])
    {
      hide Raw, Bytes;
      assert w[..i + 1][..i] == w[..i];
      FWrite(Raw(mem[..], WordField(i)));
    }

    method WriteFileHeader(description: Text)
      requires setup.Valid() && |description| < setup.mission.descLen && thisMachineIsLittleEndian == (host == Little)
      modifies this`output
      ensures output == old(output) + FileHeaderBytes(setup.mission, setup.options, description)
    {
      hide Raw, Bytes, Padded, Words, FileHeaderWords;
      ghost var w, start := FileHeaderWords(setup.mission, setup.options), output;
      var fileHeader := new Byte[FileHeaderSize(setup.mission)](_ => 0);
      MakeFileHeader(fileHeader, description);
      NoWords(w);
      FWriteWord(fileHeader, 0, w, start);
      FWriteWord(fileHeader, 1, w, start);
      FWriteWord(fileHeader, 2, w, start);
      FWriteWord(fileHeader, 3, w, start);
      FWriteWord(fileHeader, 4, w, start);
      FWriteWord(fileHeader, 5, w, start);
      FWriteWord(fileHeader, 6, w, start);
      FWriteWord(fileHeader, 7, w, start);
      FWrite(Raw(fileHeader[..], Field(32, setup.mission.descLen)));
      assert w[..8] == w;
    }

    method WriteTableHeader(numBytes: nat, tableName: Text)
      requires setup.Valid() && |tableName| < setup.mission.nameLen && thisMachineIsLittleEndian == (host == Little)
      modifies this`output
      ensures output == old(output) + TableHeaderBytes(setup.mission, numBytes, tableName)
    {
      hide Raw, Bytes, Padded, Words, TableHeaderWords;
      ghost var w, start := TableHeaderWords(numBytes), output;
      var tableHeader := new Byte[TableHeaderSize(setup.mission)](_ => 0);
      MakeTableHeader(tableHeader, numBytes, tableName);
      NoWords(w);
      FWriteWord(tableHeader, 0, w, start);
      FWriteWord(tableHeader, 1, w, start);
      FWriteWord(tableHeader, 2, w, start);
      FWrite(Raw(tableHeader[..], Field(12, setup.mission.nameLen)));
      assert w[..3] == w;
    }

    method OutputDataToTargetFile(tblFileDef: FileDef, userObjSymbolIndex: nat)
      requires setup.Valid() && thisMachineIsLittleEndian == (host == Little)
      requires |tblFileDef.tableName| < setup.mission.nameLen && |tblFileDef.description| < setup.mission.descLen
      requires userObjSymbolIndex < |symbols| && symbols[userObjSymbolIndex].symbol.size < 0x8000_0000
      modifies this`pos, this`output
      ensures var size := symbols[userObjSymbolIndex].symbol.size;
        output == old(output) + TableFileBytes(setup.mission, setup.options, tblFileDef,
                                               Payload(source, if tableDataIsAllZeros then Zeros(size)
                                                 else Slice(old(pos), size)))
    {
      hide FileHeaderBytes, TableHeaderBytes, Payload;
      var size := symbols[userObjSymbolIndex].symbol.size;
      WriteFileHeader(Or(setup.options.description, tblFileDef.description));
      WriteTableHeader(size, Or(setup.options.tableName, tblFileDef.tableName));
      ghost var headers := output;
      ghost var start := pos;
      ghost var o := if tableDataIsAllZeros then Zeros(size) else Slice(start, size);
      var i := 0;
      assert headers + Payload(source, o)[..0] == headers;
      if tableDataIsAllZeros {
        while i < size
          invariant 0 <= i <= size && output == headers + Payload(source, o)[..i]
        {
          PayloadByte(source, o, i);
          FWrite([0]);
          i := i + 1;
        }
      } else {
        while i < size
          invariant 0 <= i <= size && output == headers + Payload(source, o)[..i]
          invariant pos == if start + i <= |source| then start + i else if start <= |source| then |source| else start
        {
          PayloadByte(source, o, i);
          var aByte := FGetc();
          FWrite([aByte]);
          i := i + 1;
        }
      }
      assert Payload(source, o)[..i] == Payload(source, o);
    }

    // ----- The whole tool -----

    /** The loop over the section headers; their names are known by now. */
    method ReadSectionHeaders() returns (ok: bool)
      requires HeaderIsRead() && sections == [] && SymbolTables() == Tables(0, 0, 0, 0)
      requires SectionsDefined(source, header, sectionHeaderStringTableDataOffset)
      modifies this`pos, this`stringTableDataOffset, this`symbolTableDataOffset, this`symbolTableEntrySize,
        this`numSymbols, this`sections
      ensures var r := ParseSections(source, header, sectionHeaderStringTableDataOffset, header.shnum);
        (ok <==> r.Some?) && (ok ==> Some(sections) == r && SymbolTables() == Scan(header, sections))
    {
      hide ScanStep, Scan, HeaderOf, ParseSection, ParseSections, NameSection, SectionDefined, SectionPosDefined, Get;
      var shnum := Get(host, elfHeader[..], EShnum(targetWordsizeIs32Bit));
      HeaderShnum(host, header, elfHeader[..]);
      NoSections(source, header, sectionHeaderStringTableDataOffset);
      var i := 0;
      while i < shnum
        invariant 0 <= i <= shnum && SymbolTables() == Scan(header, sections)
        invariant ParseSections(source, header, sectionHeaderStringTableDataOffset, i) == Some(sections)
      {
        NextSection(source, header, sectionHeaderStringTableDataOffset, i, sections);
        var section, sectionName;
        ok, section, sectionName := GetSectionHeader(i);
        if !ok {
          SectionsStop(source, header, sectionHeaderStringTableDataOffset, i + 1, shnum);
          return;
        }
        sections := sections + [NamedSection(section, sectionName)];
        i := i + 1;
      }
      return true;
    }

    /** The loop over the symbols. */
    method ReadAllSymbols() returns (ok: bool)
      requires HeaderIsRead() && symbols == [] && tblDefSymbolIndex == -1
        && SymbolsDefined(source, header, SymbolTables())
      modifies this`pos, this`tblDefSymbolIndex, this`symbols
      ensures var r := ParseSymbols(source, header, SymbolTables(), numSymbols);
        (ok <==> r.Some?) && (ok ==> Some(symbols) == r && tblDefSymbolIndex == DefinitionIndex(symbols, setup.stack))
    {
      hide ParseSymbol, ParseSymbols, DefinitionIndex, IsDefinition, NameSymbol, HeaderOf, SymbolDefined;
      NoSymbols(source, header, SymbolTables(), setup.stack);
      var i := 0;
      while i < numSymbols
        invariant 0 <= i <= numSymbols && ParseSymbols(source, header, SymbolTables(), i) == Some(symbols)
        invariant tblDefSymbolIndex == DefinitionIndex(symbols, setup.stack)
      {
        NextSymbol(source, header, SymbolTables(), i, symbols, setup.stack);
        var symbol, symbolName;
        ok, symbol, symbolName := GetSymbol(i);
        if !ok {
          SymbolsStop(source, header, SymbolTables(), i + 1, numSymbols);
          return;
        }
        symbols := symbols + [NamedSymbol(symbol, symbolName)];
        i := i + 1;
      }
      return true;
    }

    /** All section headers: first the one of the section names, which is read without its own name. */
    method ReadAllSections() returns (ok: bool)
      requires HeaderIsRead() && sections == [] && sectionHeaderStringTableDataOffset == 0
      requires SymbolTables() == Tables(0, 0, 0, 0)
      requires SectionPosDefined(header, header.shstrndx)
      requires ParseSection(source, header, header.shstrndx).Some? && header.shnum > 0 ==>
        SectionsDefined(source, header, ToInt64(ParseSection(source, header, header.shstrndx).value.offset))
      modifies this`pos, this`stringTableDataOffset, this`symbolTableDataOffset, this`symbolTableEntrySize,
        this`numSymbols,
        this`sections, this`sectionHeaderStringTableDataOffset
      ensures ok <==> ReadSections(source, header).Some?
      ensures ok ==> Some(sections) == ReadSections(source, header) && SymbolTables() == Scan(header, sections)
    {
      hide HeaderOf, Scan, ParseSections, ParseSection, SectionsDefined, ToInt64, Get;
      HeaderShnum(host, header, elfHeader[..]);
      NamesUnknown(source, header, header.shstrndx);
      var shstrtab, noName;
      ok, shstrtab, noName := GetSectionHeader(Get(host, elfHeader[..], EShstrndx(targetWordsizeIs32Bit)));
      if !ok {
        return;
      }
      NoName(header, header.shstrndx, shstrtab, Tables(0, 0, 0, 0));
      sectionHeaderStringTableDataOffset := ToInt64(shstrtab.offset);
      if Get(host, elfHeader[..], EShnum(targetWordsizeIs32Bit)) == 0 {
        return false;
      }
      ok := ReadSectionHeaders();
    }

    /** Everything up to the symbols. */
    method ReadElfFile() returns (ok: bool)
      requires Start() && ImageDefined(source)
      modifies this, elfHeader
      ensures output == old(output) && !tableDataIsAllZeros
      ensures ok <==> ReadImage(source).Some?
      ensures ok ==> HeaderIsRead() && Image(header, sections, symbols) == ReadImage(source).value
      ensures ok ==> tblDefSymbolIndex == DefinitionIndex(symbols, setup.stack)
    {
      hide ParseHeader, HeaderOf, ReadSections, Scan, ParseSymbols, SymbolsDefined, SectionsDefined;
      ok := GetElfHeader();
      if !ok {
        return;
      }
      ok := ReadAllSections();
      if !ok {
        return;
      }
      if stringTableDataOffset == 0 || numSymbols == 0 {
        return false;
      }
      ok := ReadAllSymbols();
    }

    /** Everything after the symbols. */
    method ConvertTable() returns (ok: bool)
      requires HeaderIsRead() && setup.Valid() && output == [] && !tableDataIsAllZeros
      requires tblDefSymbolIndex == DefinitionIndex(symbols, setup.stack)
      requires TableDefined(source, setup, Image(header, sections, symbols))
      modifies this`pos, this`tableDataIsAllZeros, this`symbols, this`output
      ensures var r := ConvertImage(source, setup, Image(header, sections, old(symbols)));
        (ok <==> r.Some?) && output == if ok then r.value else []
    {
      hide ParseFileDef, HeaderOf, Payload, TableFileBytes, ObjectIndex, LocateObject, DefinitionIndex;
      if tblDefSymbolIndex == -1 {
        return false;
      }
      var tblFileDef;
      ok, tblFileDef := GetTblDefInfo();
      if !ok {
        return;
      }
      var u;
      ok, u := LocateAndReadUserObject(tblFileDef);
      if !ok {
        return;
      }
      OutputDataToTargetFile(tblFileDef, u);
    }

    /** The tool, from the opened source file to its exit status. */
    method Run() returns (ok: bool)
      requires Start() && Defined(source, setup)
      modifies this, elfHeader
      ensures ok <==> Convert(source, setup).Some?
      ensures output == if ok then Convert(source, setup).value else []
    {
      hide ReadImage, ConvertImage, TableDefined, HeaderOf, ImageDefined;
      ok := ReadElfFile();
      if ok {
        ok := ConvertTable();
      }
    }
  }

  // ----- The loops over sections and symbols -----

  lemma HeaderShnum(host: Order, header: Header, mem: seq<Byte>)
    requires |mem| == EHDR_SIZE && HeaderOf(host, header.is32, header.target, mem) == header
    ensures Get(host, mem, EShnum(header.is32)) == header.shnum
      && Get(host, mem, EShstrndx(header.is32)) == header.shstrndx
  {
  }

  /** Before the place of the section names is known, no section is named. */
  lemma NamesUnknown(source: seq<Byte>, h: Header, i: nat)
    ensures SectionPos(h, i) >= 0 ==> forall s: Section ::
      SectionDefined(source, h, 0, i, s) && NameSection(source, h, 0, i, s) == NamedSection(s, None)
    ensures ParseSection(source, h, i).Some? ==> SectionPos(h, i) >= 0
  {
  }

  lemma NoSections(source: seq<Byte>, h: Header, shstr: int)
    ensures ParseSections(source, h, shstr, 0) == Some([]) && Scan(h, []) == Tables(0, 0, 0, 0)
  {
  }

  lemma NextSection(source: seq<Byte>, h: Header, shstr: int, i: nat, sections: seq<NamedSection>)
    requires ParseSections(source, h, shstr, i) == Some(sections)
    ensures ParseSection(source, h, i).None? ==> ParseSections(source, h, shstr, i + 1).None?
    ensures ParseSection(source, h, i).Some? ==>
      var s := NameSection(source, h, shstr, i, ParseSection(source, h, i).value);
      && ParseSections(source, h, shstr, i + 1) == Some(sections + [s])
      && Scan(h, sections + [s]) == ScanStep(h, i, s, Scan(h, sections))
  {
    hide NameSection, ScanStep;
    if ParseSection(source, h, i).Some? {
      var s := NameSection(source, h, shstr, i, ParseSection(source, h, i).value);
      assert (sections + [s])[..i] == sections;
    }
  }

  lemma NoSymbols(source: seq<Byte>, h: Header, t: Tables, stack: nat -> Text)
    ensures ParseSymbols(source, h, t, 0) == Some([]) && DefinitionIndex([], stack) == -1
  {
  }

  lemma NextSymbol(source: seq<Byte>, h: Header, t: Tables, i: nat, symbols: seq<NamedSymbol>, stack: nat -> Text)
    requires ParseSymbols(source, h, t, i) == Some(symbols)
    ensures ParseSymbol(source, h, t, i).None? ==> ParseSymbols(source, h, t, i + 1).None?
    ensures ParseSymbol(source, h, t, i).Some? ==>
      var s := NameSymbol(source, h, t, i, ParseSymbol(source, h, t, i).value);
      && ParseSymbols(source, h, t, i + 1) == Some(symbols + [s])
      && DefinitionIndex(symbols + [s], stack) == if IsDefinition(s.name, stack(i)) then i
        else DefinitionIndex(symbols, stack)
  {
    hide ParseSymbol, NameSymbol, IsDefinition;
    if ParseSymbol(source, h, t, i).Some? {
      var s := NameSymbol(source, h, t, i, ParseSymbol(source, h, t, i).value);
      assert (symbols + [s])[..i] == symbols;
    }
  }

  lemma {:induction false} SectionsStop(source: seq<Byte>, h: Header, shstr: int, i: nat, n: nat)
    requires i <= n && ParseSections(source, h, shstr, i).None?
    ensures ParseSections(source, h, shstr, n).None?
    decreases n
  {
    hide ParseSection, NameSection;
    if i < n {
      SectionsStop(source, h, shstr, i, n - 1);
    }
  }

  lemma {:induction false} SymbolsStop(source: seq<Byte>, h: Header, t: Tables, i: nat, n: nat)
    requires i <= n && ParseSymbols(source, h, t, i).None?
    ensures ParseSymbols(source, h, t, n).None?
    decreases n
  {
    hide ParseSymbol, NameSymbol;
    if i < n {
      SymbolsStop(source, h, t, i, n - 1);
    }
  }

  // ----- The headers and the payload -----

  lemma NoWords(w: seq<nat>)
    ensures Words(w[..0]) == []
  {
  }

  lemma PayloadByte(source: seq<Byte>, o: Object, i: nat)
    requires i < o.size
    ensures Payload(source, o)[..i + 1] == Payload(source, o)[..i] + [Payload(source, o)[i]]
    ensures Payload(source, o)[i] == if o.Zeros? then 0 else CharAt(source, o.start + i)
  {
  }

  /** A header whose words and text are stored, and whose words are then swapped on a little-endian host. */
  lemma HeaderWords(was: seq<Byte>, host: Order, w: seq<nat>, f: Field, text: seq<Byte>)
    requires f.offset == 4 * |w| && |was| >= f.offset + f.width && |text| == f.width
    ensures var filled := Update(StoreWords(was, host, w, |w|), f, text);
      var r := if host == Little then SwapFields(filled, WordFields(|w|), |w|) else filled;
      && (forall i :: 0 <= i < |w| ==> Raw(r, WordField(i)) == Bytes(Big, w[i], 4))
      && Raw(r, f) == text
  {
    hide Update, Raw, Bytes;
    var stored := StoreWords(was, host, w, |w|);
    var filled := Update(stored, f, text);
    forall i | 0 <= i < |w| ensures Raw(filled, WordField(i)) == Bytes(host, w[i], 4) {
      StoredWord(was, host, w, |w|, i);
      UpdateOthers(stored, f, text, WordField(i));
    }
    forall i | 0 <= i < |w|
      ensures Raw(if host == Little then SwapFields(filled, WordFields(|w|), |w|) else filled, WordField(i))
        == Bytes(Big, w[i], 4)
    {
      WordIsBigEndian(filled, host, w, i);
    }
    UpdateThis(stored, f, text);
    SwapsElsewhere(filled, WordFields(|w|), |w|, f);
  }

  // ----- The definition in memory -----

  function FileDefInMemory(host: Order, m: Mission, mem: seq<Byte>): FileDef
    requires m.Valid() && |mem| == m.FileDefSize()
  {
    FileDef(CString(mem, DefObjectName()), CString(mem, DefTableName(m)), CString(mem, DefDescription(m)),
            Get(host, mem, DefObjectSize(m)))
  }

  /** A character array as C takes it: up to its first NUL. */
  function CString(mem: seq<Byte>, f: Field): Text
    requires Fits(f, mem)
  {
    TextAt(Raw(mem, f), 0)
  }

  lemma {:induction false} ClosedText(t: seq<Byte>, k: nat)
    ensures k <= |t| ==> TextAt(t + [0], k) == TextAt(t, k)
    decreases |t| - k
  {
    if k < |t| {
      ClosedText(t, k + 1);
      assert (t + [0])[k] == t[k];
    }
  }

  lemma ClosedField(record: seq<Byte>, closed: seq<Byte>, f: Field)
    requires f.width > 0 && Fits(f, record) && |closed| == |record|
    requires Raw(closed, f) == Raw(record, f)[f.width - 1 := 0]
    ensures CString(closed, f) == TextField(record, f)
  {
    var body := Raw(record, Field(f.offset, f.width - 1));
    assert Raw(closed, f) == body + [0];
    ClosedText(body, 0);
  }

  /** What the tool gets from the definition in its memory is what the file says. */
  lemma DefInMemory(host: Order, target: Order, m: Mission, record: seq<Byte>, closed: seq<Byte>)
    requires m.Valid() && |record| == m.FileDefSize() == |closed|
    requires var a, b, c, d := 64, 64 + m.nameLen, 64 + m.nameLen + m.descLen, 64 + m.nameLen + m.descLen + m.fileLen;
      closed == record[a - 1 := 0][b - 1 := 0][c - 1 := 0][d - 1 := 0]
    ensures FileDefInMemory(host, m, if host == target then closed else SwapField(closed, DefObjectSize(m)))
      == FileDefOf(target, m, record)
  {
    hide SwapField, CString, TextField;
    var size := DefObjectSize(m);
    assert Raw(closed, size) == Raw(record, size);
    SwapThis(closed, size);
    ReversedValue(host, Raw(closed, size));
    forall f | f in [DefObjectName(), DefTableName(m), DefDescription(m)]
      ensures f.width > 0 && Fits(f, record) && CString(closed, f) == TextField(record, f)
      ensures CString(SwapField(closed, size), f) == CString(closed, f)
    {
      assert Raw(closed, f) == Raw(record, f)[f.width - 1 := 0];
      ClosedField(record, closed, f);
      SwapOthers(closed, size, f);
      SameText(closed, SwapField(closed, size), f);
    }
    assert DefObjectName() in [DefObjectName(), DefTableName(m), DefDescription(m)];
    assert DefTableName(m) in [DefObjectName(), DefTableName(m), DefDescription(m)];
    assert DefDescription(m) in [DefObjectName(), DefTableName(m), DefDescription(m)];
  }

  lemma SameText(a: seq<Byte>, b: seq<Byte>, f: Field)
    requires Fits(f, a) && Fits(f, b) && Raw(a, f) == Raw(b, f)
    ensures CString(a, f) == CString(b, f)
  {
  }

  // ----- Records in memory -----

  lemma NoName(h: Header, i: nat, s: Section, t: Tables)
    ensures ScanStep(h, i, NamedSection(s, None), t) == t
  {
  }

  /** The conversion to int32 changes an offset unless it is the int32 itself; a negative one is refused by fseek. */
  lemma SeekIsExact(offset: nat)
    requires offset < UINT64
    ensures ToInt32(offset) % UINT64 == offset && ToInt32(offset) >= 0 <==> offset < 0x8000_0000
    ensures offset < 0x8000_0000 ==> ToInt32(offset) == offset
  {
  }

  lemma HeaderIsLongEnough(o: Order, is32: bool, mem: seq<Byte>)
    ensures GoodHeader(o, is32, mem) ==> |mem| >= RecordSize(Ehdr, is32)
  {
  }

  lemma SymbolInMemory(host: Order, target: Order, is32: bool, mem: seq<Byte>, record: seq<Byte>)
    requires |mem| == SYM_SIZE && RecordSize(Sym, is32) <= |record|
    requires mem[..RecordSize(Sym, is32)] == record[..RecordSize(Sym, is32)]
    ensures AllFit(Swaps(Sym, is32), mem)
    ensures SymbolOf(host, is32, HostMemory(Sym, is32, host, target, mem)) == SymbolOf(target, is32, record)
  {
    hide Get, HostMemory;
    forall i | 0 <= i < |Layout(Sym, is32)|
      ensures AllFit(Swaps(Sym, is32), mem) && Fits(Layout(Sym, is32)[i], mem) && Fits(Layout(Sym, is32)[i], record)
      ensures Get(host, HostMemory(Sym, is32, host, target, mem), Layout(Sym, is32)[i])
        == Get(target, record, Layout(Sym, is32)[i])
    {
      FieldInMemory(Sym, is32, host, target, mem, record, i);
    }
    var l := Layout(Sym, is32);
    assert l[0] == StName() && StValue(is32) == l[if is32 then 1 else 4] && StSize(is32) == l[if is32 then 2 else 5];
    assert StShndx(is32) == l[if is32 then 5 else 3];
  }

  lemma SectionInMemory(host: Order, target: Order, is32: bool, mem: seq<Byte>, record: seq<Byte>)
    requires |mem| == SHDR_SIZE && RecordSize(Shdr, is32) <= |record|
    requires mem[..RecordSize(Shdr, is32)] == record[..RecordSize(Shdr, is32)]
    ensures AllFit(Swaps(Shdr, is32), mem)
    ensures SectionOf(host, is32, HostMemory(Shdr, is32, host, target, mem)) == SectionOf(target, is32, record)
  {
    hide Get, HostMemory;
    forall i | 0 <= i < |Layout(Shdr, is32)|
      ensures AllFit(Swaps(Shdr, is32), mem) && Fits(Layout(Shdr, is32)[i], mem) && Fits(Layout(Shdr, is32)[i], record)
      ensures Get(host, HostMemory(Shdr, is32, host, target, mem), Layout(Shdr, is32)[i])
        == Get(target, record, Layout(Shdr, is32)[i])
    {
      FieldInMemory(Shdr, is32, host, target, mem, record, i);
    }
    var l := Layout(Shdr, is32);
    assert l[0] == ShName() && l[1] == ShType() && l[4] == ShOffset(is32) && l[5] == ShSize(is32)
      && l[9] == ShEntsize(is32);
  }

  lemma {:induction false} TextEnds(source: seq<Byte>, p: nat)
    ensures p + |TextAt(source, p)| < |source| ==> source[p + |TextAt(source, p)|] == 0
    decreases |source| - p
  {
    if p < |source| && source[p] != 0 {
      TextEnds(source, p + 1);
    }
  }

  lemma ReadAtStart(source: seq<Byte>, mem: seq<Byte>, n: nat)
    requires n <= |source| && n <= |mem|
    ensures Update(mem, Field(0, n), source[0..n])[..n] == source[..n]
  {
  }

  /** The tool finds the order of its host in the first byte of a number in memory. */
  lemma ProbeBytes()
    ensures Bytes(Little, 0x01020304, 4)[0] == 0x04 && Bytes(Big, 0x01020304, 4)[0] == 0x01
  {
    assert LittleBytes(0x01020304, 4) == [0x04, 0x03, 0x02, 0x01];
  }

  lemma SamePrefix(o: Order, a: seq<Byte>, b: seq<Byte>, n: nat, f: Field)
    requires n <= |a| && n <= |b| && a[..n] == b[..n] && f.offset + f.width <= n
    ensures Get(o, a, f) == Get(o, b, f)
  {
    assert Raw(a, f) == a[..n][f.offset..f.offset + f.width] == Raw(b, f);
  }

  /** The host reads from a record in its memory what the file says. */
  lemma FieldInMemory(k: RecordKind, is32: bool, host: Order, target: Order, mem: seq<Byte>, source: seq<Byte>, i: nat)
    requires RecordSize(k, is32) <= |mem| && RecordSize(k, is32) <= |source|
    requires mem[..RecordSize(k, is32)] == source[..RecordSize(k, is32)] && i < |Layout(k, is32)|
    ensures AllFit(Swaps(k, is32), mem) && Fits(Layout(k, is32)[i], mem) && Fits(Layout(k, is32)[i], source)
    ensures Get(host, HostMemory(k, is32, host, target, mem), Layout(k, is32)[i])
      == Get(target, source, Layout(k, is32)[i])
  {
    hide Layout, Swaps, Get, RecordSize, HostMemory;
    HostReadsTarget(k, is32, host, target, mem, i);
    LayoutFits(k, is32, source[..RecordSize(k, is32)]);
    SamePrefix(target, mem, source, RecordSize(k, is32), Layout(k, is32)[i]);
  }

  lemma HeaderInMemory(host: Order, target: Order, is32: bool, mem: seq<Byte>, source: seq<Byte>)
    requires |mem| == EHDR_SIZE && RecordSize(Ehdr, is32) <= |source|
    requires mem[..RecordSize(Ehdr, is32)] == source[..RecordSize(Ehdr, is32)]
    ensures AllFit(Swaps(Ehdr, is32), mem)
    ensures var m := HostMemory(Ehdr, is32, host, target, mem);
      && HeaderOf(host, is32, target, m) == HeaderOf(target, is32, target, source)
      && (GoodHeader(host, is32, m) <==> GoodHeader(target, is32, source))
  {
    hide Get, HostMemory, EMachineMap, ETypeMap;
    HeaderLayout(is32);
    forall i | 0 <= i < |Layout(Ehdr, is32)|
      ensures AllFit(Swaps(Ehdr, is32), mem) && Fits(Layout(Ehdr, is32)[i], mem) && Fits(Layout(Ehdr, is32)[i], source)
      ensures Get(host, HostMemory(Ehdr, is32, host, target, mem), Layout(Ehdr, is32)[i])
        == Get(target, source, Layout(Ehdr, is32)[i])
    {
      FieldInMemory(Ehdr, is32, host, target, mem, source, i);
    }
  }

  lemma HeaderLayout(is32: bool)
    ensures var l := Layout(Ehdr, is32);
      && |l| == 29
      && l[16] == EType() && l[17] == EMachine() && l[18] == EVersion() && l[21] == EShoff(is32)
      && l[26] == EShentsize(is32) && l[27] == EShnum(is32) && l[28] == EShstrndx(is32)
  {
  }
}
