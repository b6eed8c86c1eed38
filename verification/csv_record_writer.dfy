/**
  The record writer that the CSV format's writer provider hands out for one
  destination object. Its state is the `headerWritten` flag and the trace of
  calls made on the destination's streams; `Write`, `Commit` and `Close` are
  pure steps returning the next state together with the call's outcome.
 */
module CsvRecordWriterProvider {
  import opened Streams

  /** The shape of a record's value view: only a `Struct` is serialised. */
  datatype Field = Field(name: string, text: string)

  datatype Value =
    | Struct(fields: seq<Field>)
    | Other(description: string)   // any non-struct value: a scalar, a map, ...
    | Null                         // the view selected nothing

  /** A sink record as the writer sees it: its topic, the schema of the
      selected view, and the selected view of its value. */
  datatype Record = Record(topic: string, schema: string, view: Value)

  /** The CSV converter: the header bytes it reports, and the row bytes it
      produces for a struct from a given topic under a given schema. */
  datatype Converter = Converter(header: Bytes, fromConnectData: (string, string, seq<Field>) -> Bytes)

  /** The storage configuration's compression codec, by its file extension. */
  datatype CompressionType = CompressionType(name: string, extension: string)

  /** The two exception types the writer surfaces. A `RetriableException`
      tells the caller it may redo the whole destination; a
      `ConnectException` is fatal for it. */
  datatype ErrorKind = ConnectException | RetriableException

  datatype Outcome = Completed | Threw(kind: ErrorKind)

  /** One open writer: the converter and line separator it uses, the name it
      was opened for, the header flag and the calls made on its streams. */
  datatype Writer = Writer(
    converter: Converter,
    sep: LineSep,
    filename: string,
    headerWritten: bool,
    trace: seq<Event>)

  const CsvExtension: string := ".csv"

  /** The file extension of CSV objects: the format's own extension followed
      by the configured compression codec's extension. */
  function GetExtension(compression: CompressionType): (r: string)
    ensures |r| == |CsvExtension| + |compression.extension|
    ensures r[..|CsvExtension|] == CsvExtension
    ensures r[|CsvExtension|..] == compression.extension
  {
    CsvExtension + compression.extension
  }

  predicate Accepted(rec: Record)
  {
    rec.view.Struct?
  }

  /** The serialised row of an accepted record. */
  function Row(c: Converter, rec: Record): Bytes
    requires Accepted(rec)
  {
    c.fromConnectData(rec.topic, rec.schema, rec.view.fields)
  }

  /** A freshly created writer: nothing written, header not yet emitted. */
  function GetRecordWriter(c: Converter, sep: LineSep, filename: string): (w: Writer)
    ensures !w.headerWritten && w.trace == []
    ensures Output(w.trace) == [] && Published(w.trace) == None
    ensures w.converter == c && w.sep == sep && w.filename == filename
  {
    Writer(c, sep, filename, false, [])
  }

  /** `write`: a record whose view is not a struct is dropped without effect.
      For an accepted record the flag is tested and set first; if it was
      clear, the header and a separator are appended; then the row and a
      separator. Any I/O failure surfaces as a `ConnectException`. */
  function Write(w: Writer, rec: Record, fault: IoFault): (res: (Writer, Outcome))
    ensures res.0.converter == w.converter && res.0.sep == w.sep && res.0.filename == w.filename
    ensures |res.0.trace| >= |w.trace| && res.0.trace[..|w.trace|] == w.trace
    ensures OnlyWrites(res.0.trace[|w.trace|..])
    ensures !Accepted(rec) ==> res == (w, Completed)
    ensures res.0.headerWritten <==> w.headerWritten || Accepted(rec)
    ensures res.1.Threw? ==> res.1.kind == ConnectException
    ensures res.1.Threw? <==>
      Accepted(rec) && fault.FailAt? && fault.op < (if w.headerWritten then 2 else 4)
  {
    if !Accepted(rec) then (w, Completed)
    else
      var csvLine := Row(w.converter, rec);
      var headerOps := if w.headerWritten then [] else [Event.Write(w.converter.header), Event.Write(w.sep)];
      var issued := Issue(w.trace, headerOps + [Event.Write(csvLine), Event.Write(w.sep)], fault);
      var w' := w.(headerWritten := true, trace := issued.0);
      assert w'.trace[..|w.trace|] == w.trace;
      (w', if issued.1 then Completed else Threw(ConnectException))
  }

  /** `commit`: the raw stream is committed, then the wrapper is closed. A
      failure of either surfaces as a `RetriableException`; if the commit
      itself fails the wrapper is never closed. No bytes are written. */
  function Commit(w: Writer, fault: IoFault): (res: (Writer, Outcome))
    ensures res.0 == w.(trace := res.0.trace)
    ensures |res.0.trace| >= |w.trace| && res.0.trace[..|w.trace|] == w.trace
    ensures CommitPrecedesClose(res.0.trace[|w.trace|..])
    ensures Output(res.0.trace) == Output(w.trace)
    ensures res.1 == Completed <==> res.0.trace == w.trace + [RawCommit, WrapperClose]
    ensures res.1.Threw? ==> res.1.kind == RetriableException && WrapperClose !in res.0.trace[|w.trace|..]
    ensures res.1.Threw? <==> fault.FailAt? && fault.op < 2
  {
    var issued := Issue(w.trace, [RawCommit, WrapperClose], fault);
    OutputAppend(w.trace, issued.0[|w.trace|..]);
    OutputOfNonWrites(issued.0[|w.trace|..]);
    assert issued.0 == w.trace + issued.0[|w.trace|..];
    (w.(trace := issued.0), if issued.1 then Completed else Threw(RetriableException))
  }

  /** `close`: only the wrapper is closed; the raw stream is never committed.
      A failure surfaces as a `ConnectException`. */
  function Close(w: Writer, fault: IoFault): (res: (Writer, Outcome))
    ensures res.0 == w.(trace := res.0.trace)
    ensures |res.0.trace| >= |w.trace| && res.0.trace[..|w.trace|] == w.trace
    ensures RawCommit !in res.0.trace[|w.trace|..]
    ensures res.1 == Completed <==> res.0.trace == w.trace + [WrapperClose]
    ensures res.1.Threw? ==> res.1.kind == ConnectException && res.0.trace == w.trace
    ensures res.1.Threw? <==> fault.FailAt? && fault.op < 1
  {
    var issued := Issue(w.trace, [WrapperClose], fault);
    (w.(trace := issued.0), if issued.1 then Completed else Threw(ConnectException))
  }
}
