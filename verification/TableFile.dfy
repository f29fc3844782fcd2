/** The cFE table file: a file header, a table header, both big-endian on every host, and the data of the table. */
module TableFile {
  import opened Basics
  import opened ElfBytes
  import opened ElfImage
  import CrcTool

  const CONTENT_TYPE: nat := 0x63464531  // cFE1
  const SUB_TYPE_TBL_IMG: nat := 8

  /** What the command line can say about the headers. */
  datatype Options = Options(
    spacecraftID: Option<nat>,
    processorID: Option<nat>,
    applicationID: Option<nat>,
    time: Option<int>,            // the time of the source file, when time tags are enabled
    tableName: Option<Text>,
    description: Option<Text>)
  {
    predicate Valid(m: Mission) {
      && (forall id :: id in [spacecraftID, processorID, applicationID] && id.Some? ==> id.value < UINT32)
      && (tableName.Some? ==> |tableName.value| < m.nameLen && 0 !in tableName.value)
      && (description.Some? ==> |description.value| < m.descLen && 0 !in description.value)
    }
  }

  /** The chosen value, or the default if none was chosen. */
  function Or<T>(o: Option<T>, default: T): (r: T)
    ensures o.Some? ==> r == o.value
    ensures o.None? ==> r == default
  {
    if o.Some? then o.value else default
  }

  function Padded(t: Text, width: nat): (r: seq<Byte>)
    requires |t| <= width
    ensures |r| == width
  {
    t + seq<Byte>(width - |t|, _ => 0)
  }

  /** The size of CFE_FS_Header_t, padding included. */
  function FileHeaderSize(m: Mission): (n: nat)
    ensures n >= FileHeaderWritten(m)
  {
    Aligned(FileHeaderWritten(m))
  }

  /** The size of CFE_TBL_File_Hdr_t, padding included. */
  function TableHeaderSize(m: Mission): (n: nat)
    ensures n >= TableHeaderWritten(m)
  {
    Aligned(TableHeaderWritten(m))
  }

  /** What is written of the two structures: their fields one by one, without padding. */
  function FileHeaderWritten(m: Mission): nat {
    32 + m.descLen
  }

  function TableHeaderWritten(m: Mission): nat {
    12 + m.nameLen
  }

  /** The eight words of the file header. */
  function FileHeaderWords(m: Mission, o: Options): (w: seq<nat>)
    ensures |w| == 8
  {
    [CONTENT_TYPE, SUB_TYPE_TBL_IMG, FileHeaderSize(m), Or(o.spacecraftID, 0), Or(o.processorID, 0),
     Or(o.applicationID, 0), Or(o.time, 0) % UINT32, 0]
  }

  /** The three words of the table header. */
  function TableHeaderWords(numBytes: nat): (w: seq<nat>)
    ensures |w| == 3
  {
    [0, 0, numBytes]
  }

  function Words(w: seq<nat>): (r: seq<Byte>)
    ensures |r| == 4 * |w|
    decreases |w|
  {
    if w == [] then [] else Words(w[..|w| - 1]) + Bytes(Big, w[|w| - 1], 4)
  }

  function FileHeaderBytes(m: Mission, o: Options, description: Text): (r: seq<Byte>)
    requires |description| < m.descLen
    ensures |r| == FileHeaderWritten(m)
  {
    Words(FileHeaderWords(m, o)) + Padded(description, m.descLen)
  }

  function TableHeaderBytes(m: Mission, numBytes: nat, tableName: Text): (r: seq<Byte>)
    requires |tableName| < m.nameLen
    ensures |r| == TableHeaderWritten(m)
  {
    Words(TableHeaderWords(numBytes)) + Padded(tableName, m.nameLen)
  }

  function TableFileBytes(m: Mission, o: Options, d: FileDef, payload: seq<Byte>): seq<Byte>
    requires o.Valid(m) && |d.tableName| < m.nameLen && |d.description| < m.descLen
  {
    FileHeaderBytes(m, o, Or(o.description, d.description))
      + TableHeaderBytes(m, |payload|, Or(o.tableName, d.tableName))
    + payload
  }

  // ----- Reading a table file -----

  datatype FileHeader = FileHeader(contentType: nat, subType: nat, length: nat, spacecraftID: nat, processorID: nat,
                                   applicationID: nat, timeSeconds: nat, timeSubSeconds: nat, description: Text)

  datatype TableHeader = TableHeader(reserved: nat, offset: nat, numBytes: nat, tableName: Text)

  function Word(file: seq<Byte>, p: nat): nat
    requires p + 4 <= |file|
  {
    Get(Big, file, Field(p, 4))
  }

  function ParseFileHeader(m: Mission, file: seq<Byte>): FileHeader
    requires m.Valid() && |file| >= FileHeaderWritten(m)
  {
    FileHeader(Word(file, 0), Word(file, 4), Word(file, 8), Word(file, 12), Word(file, 16), Word(file, 20),
               Word(file, 24), Word(file, 28), TextField(file, Field(32, m.descLen)))
  }

  function ParseTableHeader(m: Mission, file: seq<Byte>): TableHeader
    requires m.Valid() && |file| >= FileHeaderWritten(m) + TableHeaderWritten(m)
  {
    var p := FileHeaderWritten(m);
    TableHeader(Word(file, p), Word(file, p + 4), Word(file, p + 8), TextField(file, Field(p + 12, m.nameLen)))
  }

  lemma {:induction false} TextThenNul(t: Text, tail: seq<Byte>, k: nat)
    requires 0 !in t && k <= |t|
    ensures TextAt(t + [0] + tail, k) == t[k..]
    decreases |t| - k
  {
    if k < |t| {
      TextThenNul(t, tail, k + 1);
      assert (t + [0] + tail)[k] == t[k];
      assert t[k..] == [t[k]] + t[k + 1..];
    } else {
      assert (t + [0] + tail)[k] == 0;
    }
  }

  /** A text written with padding reads back as the text. */
  lemma PaddedText(file: seq<Byte>, f: Field, t: Text)
    requires Fits(f, file) && |t| < f.width && 0 !in t && Raw(file, f) == Padded(t, f.width)
    ensures TextField(file, f) == t
  {
    var body := Raw(file, Field(f.offset, f.width - 1));
    var zeros := seq<Byte>(f.width - 1 - |t|, _ => 0);
    assert body == Raw(file, f)[..f.width - 1] == t + zeros;
    if zeros == [] {
      assert body == t;
      WholeText(t, 0);
    } else {
      assert zeros == [0] + zeros[1..];
      assert body == t + [0] + zeros[1..];
      TextThenNul(t, zeros[1..], 0);
    }
    assert t[0..] == t;
  }

  lemma {:induction false} WholeText(t: Text, k: nat)
    requires 0 !in t && k <= |t|
    ensures TextAt(t, k) == t[k..]
    decreases |t| - k
  {
    if k < |t| {
      WholeText(t, k + 1);
      assert t[k..] == [t[k]] + t[k + 1..];
    }
  }

  lemma {:induction false} WordAt(before: seq<Byte>, w: seq<nat>, after: seq<Byte>, i: nat)
    requires i < |w| && forall k :: 0 <= k < |w| ==> w[k] < UINT32
    ensures Word(before + Words(w) + after, |before| + 4 * i) == w[i]
    decreases |w|
  {
    var n := |w| - 1;
    var last := Bytes(Big, w[n], 4);
    LastOfWords(before, w, after);
    hide Words, Word, Bytes, Value;
    if i < n {
      WordAt(before, w[..n], last + after, i);
    } else {
      BytesThenValue(Big, w[n], 4);
      LastWord(before + Words(w[..n]), last, after);
    }
  }

  lemma LastOfWords(before: seq<Byte>, w: seq<nat>, after: seq<Byte>)
    requires w != []
    ensures var prior, last := Words(w[..|w| - 1]), Bytes(Big, w[|w| - 1], 4);
      before + Words(w) + after == before + prior + (last + after) == before + prior + last + after
  {
    var prior, last := Words(w[..|w| - 1]), Bytes(Big, w[|w| - 1], 4);
    assert Words(w) == prior + last;
    hide Words, Bytes;
    Regroup(before, prior, last, after);
  }

  lemma Regroup<T>(a: seq<T>, b: seq<T>, c: seq<T>, d: seq<T>)
    ensures a + (b + c) + d == a + b + (c + d) == a + b + c + d
  {
  }

  lemma LastWord(before: seq<Byte>, word: seq<Byte>, after: seq<Byte>)
    requires |word| == 4
    ensures Word(before + word + after, |before|) == Value(Big, word)
    ensures Pow256(4) == UINT32
  {
    assert Raw(before + word + after, Field(|before|, 4)) == word;
  }

  /**
   * What the headers of a table file say: each value that was chosen, and otherwise 0 or what the definition has; the
   * time modulo 2^32; and the number of bytes that follow.
   */
  ghost predicate HeadersSay(m: Mission, o: Options, d: FileDef, numBytes: nat, h: FileHeader, t: TableHeader) {
    && h.contentType == 0x63464531 && h.subType == 8 && h.length == FileHeaderSize(m) && h.timeSubSeconds == 0
    && (match o.spacecraftID case Some(id) => h.spacecraftID == id case None => h.spacecraftID == 0)
    && (match o.processorID case Some(id) => h.processorID == id case None => h.processorID == 0)
    && (match o.applicationID case Some(id) => h.applicationID == id case None => h.applicationID == 0)
    && (match o.time case Some(time) => h.timeSeconds == time % UINT32 case None => h.timeSeconds == 0)
    && (match o.description case Some(text) => h.description == text case None => h.description == d.description)
    && (match o.tableName case Some(name) => t.tableName == name case None => t.tableName == d.tableName)
    && t.reserved == 0 && t.offset == 0 && t.numBytes == numBytes
  }

  /** The values that parsing the headers finds. */
  lemma HeaderValues(m: Mission, o: Options, d: FileDef, payload: seq<Byte>)
    requires m.Valid() && o.Valid(m) && |payload| < UINT32 && FileHeaderSize(m) < UINT32
    requires |d.tableName| < m.nameLen && |d.description| < m.descLen && 0 !in d.tableName && 0 !in d.description
    ensures var file := TableFileBytes(m, o, d, payload);
      && |file| == FileHeaderWritten(m) + TableHeaderWritten(m) + |payload|
      && ParseFileHeader(m, file)
        == FileHeader(0x63464531, 8, FileHeaderSize(m), Or(o.spacecraftID, 0), Or(o.processorID, 0),
                      Or(o.applicationID, 0), Or(o.time, 0) % UINT32, 0, Or(o.description, d.description))
      && ParseTableHeader(m, file) == TableHeader(0, 0, |payload|, Or(o.tableName, d.tableName))
      && file[FileHeaderWritten(m) + TableHeaderWritten(m)..] == payload
  {
    var file := TableFileBytes(m, o, d, payload);
    FileHeaderParsesBack(m, o, Or(o.description, d.description),
                         TableHeaderBytes(m, |payload|, Or(o.tableName, d.tableName)) + payload);
    assert FileHeaderBytes(m, o, Or(o.description, d.description))
         + (TableHeaderBytes(m, |payload|, Or(o.tableName, d.tableName)) + payload) == file;
    TableHeaderParsesBack(m, FileHeaderBytes(m, o, Or(o.description, d.description)), |payload|,
      Or(o.tableName, d.tableName), payload);
  }

  /** Parsing the headers of a table file gives back what went into them, and the bytes behind them are the payload. */
  lemma HeadersParseBack(m: Mission, o: Options, d: FileDef, payload: seq<Byte>)
    requires m.Valid() && o.Valid(m) && |payload| < UINT32 && FileHeaderSize(m) < UINT32
    requires |d.tableName| < m.nameLen && |d.description| < m.descLen && 0 !in d.tableName && 0 !in d.description
    ensures var file := TableFileBytes(m, o, d, payload);
      && |file| == FileHeaderWritten(m) + TableHeaderWritten(m) + |payload|
      && file[..4] == [0x63, 0x46, 0x45, 0x31]
      && HeadersSay(m, o, d, |payload|, ParseFileHeader(m, file), ParseTableHeader(m, file))
      && file[FileHeaderWritten(m) + TableHeaderWritten(m)..] == payload
  {
    hide ParseFileHeader, ParseTableHeader, TableFileBytes, FileHeaderSize, FileHeaderWritten, TableHeaderWritten;
    HeaderValues(m, o, d, payload);
    var file := TableFileBytes(m, o, d, payload);
    HeaderIsRead(m, file);
    BigEndianWord(file);
  }

  lemma HeaderIsRead(m: Mission, file: seq<Byte>)
    requires m.Valid() && |file| >= FileHeaderWritten(m)
    ensures |file| >= 4 && ParseFileHeader(m, file).contentType == Word(file, 0)
  {
  }

  /** The content type is four letters, which start the file whatever the order of the host. */
  lemma BigEndianWord(file: seq<Byte>)
    requires |file| >= 4 && Word(file, 0) == 0x63464531
    ensures file[..4] == [0x63, 0x46, 0x45, 0x31]
  {
    ValueThenBytes(Big, file[..4]);
    assert Raw(file, Field(0, 4)) == file[..4];
    ContentTypeBytes();
  }

  lemma ContentTypeBytes()
    ensures Bytes(Big, 0x63464531, 4) == [0x63, 0x46, 0x45, 0x31]
  {
    assert LittleBytes(0x63, 1) == [0x63];
    assert LittleBytes(0x6346, 2) == [0x46, 0x63];
    assert LittleBytes(0x634645, 3) == [0x45, 0x46, 0x63];
    assert LittleBytes(0x63464531, 4) == [0x31, 0x45, 0x46, 0x63];
  }

  lemma FileHeaderParsesBack(m: Mission, o: Options, description: Text, after: seq<Byte>)
    requires m.Valid() && o.Valid(m) && FileHeaderSize(m) < UINT32 && |description| < m.descLen && 0 !in description
    ensures ParseFileHeader(m, FileHeaderBytes(m, o, description) + after)
         == FileHeader(0x63464531, 8, FileHeaderSize(m), Or(o.spacecraftID, 0), Or(o.processorID, 0),
              Or(o.applicationID, 0), Or(o.time, 0) % UINT32, 0, description)
  {
    hide Word, Words, Padded, TextField;
    var w, text := FileHeaderWords(m, o), Padded(description, m.descLen);
    var file := FileHeaderBytes(m, o, description) + after;
    assert file == [] + Words(w) + (text + after);
    forall i | 0 <= i < 8 ensures Word(file, 4 * i) == w[i] {
      assert o.spacecraftID in [o.spacecraftID, o.processorID, o.applicationID];
      assert o.processorID in [o.spacecraftID, o.processorID, o.applicationID];
      assert o.applicationID in [o.spacecraftID, o.processorID, o.applicationID];
      WordAt([], w, text + after, i);
    }
    assert Word(file, 4 * 0) == w[0] && Word(file, 4 * 1) == w[1] && Word(file, 4 * 2) == w[2]
      && Word(file, 4 * 3) == w[3];
    assert Word(file, 4 * 4) == w[4] && Word(file, 4 * 5) == w[5] && Word(file, 4 * 6) == w[6]
      && Word(file, 4 * 7) == w[7];
    assert Raw(file, Field(32, m.descLen)) == text;
    PaddedText(file, Field(32, m.descLen), description);
  }

  lemma TableHeaderParsesBack(m: Mission, before: seq<Byte>, numBytes: nat, tableName: Text, after: seq<Byte>)
    requires m.Valid() && |before| == FileHeaderWritten(m) && numBytes < UINT32 && |tableName| < m.nameLen
      && 0 !in tableName
    ensures ParseTableHeader(m, before + TableHeaderBytes(m, numBytes, tableName) + after)
      == TableHeader(0, 0, numBytes, tableName)
  {
    hide Word, Words, Padded, TextField;
    var w, text := TableHeaderWords(numBytes), Padded(tableName, m.nameLen);
    var file := before + TableHeaderBytes(m, numBytes, tableName) + after;
    assert file == before + Words(w) + (text + after);
    WordAt(before, w, text + after, 0);
    WordAt(before, w, text + after, 1);
    WordAt(before, w, text + after, 2);
    assert Raw(file, Field(|before| + 12, m.nameLen)) == text;
    PaddedText(file, Field(|before| + 12, m.nameLen), tableName);
  }

  // ----- The CRC of a table file -----

  function AsBytes(s: seq<Byte>): (r: seq<bv8>)
    ensures |r| == |s|
  {
    seq(|s|, i requires 0 <= i < |s| => s[i] as bv8)
  }

  /** How far the sizes of the two structures exceed what is written of them. */
  function Padding(m: Mission): nat {
    FileHeaderSize(m) + TableHeaderSize(m) - FileHeaderWritten(m) - TableHeaderWritten(m)
  }

  /** The sizes are what is written if and only if the lengths are multiples of four, as their comments ask. */
  lemma SizesAreWritten(m: Mission)
    ensures FileHeaderSize(m) == FileHeaderWritten(m) <==> m.descLen % 4 == 0
    ensures TableHeaderSize(m) == TableHeaderWritten(m) <==> m.nameLen % 4 == 0
    ensures Padding(m) == 0 <==> m.descLen % 4 == 0 && m.nameLen % 4 == 0
    ensures Padding(m) <= 6
  {
  }

  /**
   * The CRC tool skips the sizes of the two structures: what it sees of a table file is the payload behind the padding.
   */
  lemma SeenOfTableFile(m: Mission, o: Options, d: FileDef, payload: seq<Byte>)
    requires o.Valid(m) && |d.tableName| < m.nameLen && |d.description| < m.descLen
    ensures var seen :=
      CrcTool.Payload(AsBytes(TableFileBytes(m, o, d, payload)), FileHeaderSize(m) + TableHeaderSize(m));
      seen == if Padding(m) <= |payload| then AsBytes(payload)[Padding(m)..] else []
  {
    var headers := FileHeaderBytes(m, o, Or(o.description, d.description))
                 + TableHeaderBytes(m, |payload|, Or(o.tableName, d.tableName));
    hide FileHeaderSize, TableHeaderSize;
    assert TableFileBytes(m, o, d, payload) == headers + payload;
    AsBytesOf(headers, payload);
    if Padding(m) <= |payload| {
      DropTwice(AsBytes(headers + payload), |headers|, Padding(m));
    }
  }

  lemma DropTwice<T>(s: seq<T>, a: nat, b: nat)
    requires a + b <= |s|
    ensures s[a + b..] == s[a..][b..]
  {
  }

  /** It sees exactly the payload if and only if both lengths are multiples of four, or the payload is empty. */
  lemma CrcOfTableFile(m: Mission, o: Options, d: FileDef, payload: seq<Byte>)
    requires o.Valid(m) && |d.tableName| < m.nameLen && |d.description| < m.descLen
    ensures
      CrcTool.Payload(AsBytes(TableFileBytes(m, o, d, payload)), FileHeaderSize(m) + TableHeaderSize(m))
        == AsBytes(payload)
      <==> (m.descLen % 4 == 0 && m.nameLen % 4 == 0) || payload == []
  {
    SeenOfTableFile(m, o, d, payload);
    SizesAreWritten(m);
  }

  lemma AsBytesOf(a: seq<Byte>, b: seq<Byte>)
    ensures AsBytes(a + b)[|a|..] == AsBytes(b)
  {
  }
}
