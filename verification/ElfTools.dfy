/** The tools at work together, on hosts of either byte order. */
module ElfTools {
  import opened Basics
  import opened ElfBytes
  import opened ElfImage
  import opened TableFile
  import opened ElfConversion
  import opened Elf2CfeTbl
  import opened ElfProperties
  import opened CrcTool

  /** Both hosts fail on the same files, and write the same bytes from all others. */
  method ConvertOnBothHosts(source: seq<Byte>, setup: Setup)
    returns (littleOk: bool, littleFile: seq<Byte>, bigOk: bool, bigFile: seq<Byte>)
    requires Defined(source, setup)
    ensures littleOk == bigOk && littleFile == bigFile
    ensures littleOk <==> Convert(source, setup).Some?
    ensures littleOk ==> littleFile == Convert(source, setup).value
  {
    hide Defined, Convert;
    var little := new Converter(source, Little, setup);
    littleOk := little.Run();
    littleFile := little.output;
    var big := new Converter(source, Big, setup);
    bigOk := big.Run();
    bigFile := big.output;
  }

  /**
   * Running the CRC tool on a file that the converter wrote reports the size and the CRC of the table in it, when the
   * lengths of the mission are multiples of four; otherwise it misses as many bytes as the structures have of padding.
   */
  method ConvertAndCheck(source: seq<Byte>, host: Order, setup: Setup) returns (ok: bool, report: Report)
    requires Defined(source, setup)
    ensures ok <==> Convert(source, setup).Some?
    ensures ok && report.Report? ==>
      var payload, missed := PayloadOf(setup, Convert(source, setup).value), Padding(setup.mission);
      var seen := if missed <= |payload| then AsBytes(payload)[missed..] else [];
      && report == Report(|seen|, Crc(seen, 0))
      && (setup.mission.descLen % 4 == 0 && setup.mission.nameLen % 4 == 0 ==> seen == AsBytes(payload))
  {
    hide Defined, Convert, Crc, TableFileBytes, Find, Padding, FileHeaderSize, TableHeaderSize;
    report := ReadError;
    var converter := new Converter(source, host, setup);
    ok := converter.Run();
    if ok {
      ConvertedFile(source, setup);
      var f := Find(source, setup);
      ghost var payload := ElfImage.Payload(source, FoundObject(f));
      PayloadIsLast(setup, f.definition, payload);
      SeenOfTableFile(setup.mission, setup.options, f.definition, payload);
      SizesAreWritten(setup.mission);
      var fd := new FileDescriptor(AsBytes(converter.output));
      report := ReportCrc(fd, FileHeaderSize(setup.mission) + TableHeaderSize(setup.mission));
    }
  }

  lemma PayloadIsLast(setup: Setup, d: FileDef, payload: seq<Byte>)
    requires setup.Valid() && |d.tableName| < setup.mission.nameLen && |d.description| < setup.mission.descLen
    ensures var file := TableFileBytes(setup.mission, setup.options, d, payload);
      && |file| >= FileHeaderWritten(setup.mission) + TableHeaderWritten(setup.mission)
      && PayloadOf(setup, file) == payload
  {
    hide FileHeaderBytes, TableHeaderBytes, FileHeaderWritten, TableHeaderWritten;
  }
}
