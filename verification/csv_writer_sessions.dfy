/**
  Properties of whole writer sessions: a fresh writer, a sequence of
  `write` calls, then `commit` or `close`. The expected object content is
  given by an independent definition, `Expected`, and related to the
  writer's steps by the lemmas below.
 */
module CsvWriterSessions {
  import opened Streams
  import opened CsvRecordWriterProvider

  /** Some record in `recs` passes the struct filter. */
  predicate AnyAccepted(recs: seq<Record>)
  {
    exists i :: 0 <= i < |recs| && Accepted(recs[i])
  }

  /** The rows of the accepted records, each followed by a separator, in order. */
  function Body(c: Converter, sep: LineSep, recs: seq<Record>): Bytes
  {
    if |recs| == 0 then []
    else (if Accepted(recs[0]) then Row(c, recs[0]) + sep else []) + Body(c, sep, recs[1..])
  }

  /** The object a session over `recs` should produce: the header line, then
      one line per accepted record; nothing at all if no record is accepted. */
  function Expected(c: Converter, sep: LineSep, recs: seq<Record>): Bytes
  {
    if AnyAccepted(recs) then c.header + sep + Body(c, sep, recs) else []
  }

  /** The writer after `write` was called, without I/O failure, for each
      record of `recs` in turn. */
  function WriteAll(w: Writer, recs: seq<Record>): Writer
    decreases |recs|
  {
    if |recs| == 0 then w else WriteAll(CsvRecordWriterProvider.Write(w, recs[0], NoFault).0, recs[1..])
  }

  /** One successful `write` of an accepted record appends the header line
      exactly when the flag was clear, and then the record's row line. */
  lemma WriteEmitsHeaderOnceThenRow(w: Writer, rec: Record, fault: IoFault)
    requires Accepted(rec)
    requires CsvRecordWriterProvider.Write(w, rec, fault).1 == Completed
    ensures Output(CsvRecordWriterProvider.Write(w, rec, fault).0.trace) ==
      Output(w.trace) + (if w.headerWritten then [] else w.converter.header + w.sep)
                      + Row(w.converter, rec) + w.sep
  {
    var row := Row(w.converter, rec);
    var rowOps := [Event.Write(row), Event.Write(w.sep)];
    OutputOfWrites(row, w.sep);
    if w.headerWritten {
      assert CsvRecordWriterProvider.Write(w, rec, fault).0.trace == w.trace + rowOps;
      OutputAppend(w.trace, rowOps);
    } else {
      var headerOps := [Event.Write(w.converter.header), Event.Write(w.sep)];
      OutputOfWrites(w.converter.header, w.sep);
      assert CsvRecordWriterProvider.Write(w, rec, fault).0.trace == w.trace + (headerOps + rowOps);
      OutputAppend(w.trace, headerOps + rowOps);
      OutputAppend(headerOps, rowOps);
    }
  }

  /** A record sequence has an accepted record iff its head is accepted or
      its tail has one. */
  lemma AnyAcceptedCons(recs: seq<Record>)
    requires |recs| > 0
    ensures AnyAccepted(recs) <==> Accepted(recs[0]) || AnyAccepted(recs[1..])
  {
  }

  /** Folding `write` over records keeps the converter and separator, only
      appends to the trace, issues nothing but writes, and leaves the header
      flag set iff it was set or some record is accepted. */
  lemma {:induction false} WriteAllFrame(w: Writer, recs: seq<Record>)
    ensures var w' := WriteAll(w, recs);
      && w'.converter == w.converter && w'.sep == w.sep
      && (w'.headerWritten <==> w.headerWritten || AnyAccepted(recs))
      && |w'.trace| >= |w.trace| && w'.trace[..|w.trace|] == w.trace
      && OnlyWrites(w'.trace[|w.trace|..])
      && (!AnyAccepted(recs) ==> w' == w)
    decreases |recs|
  {
    if |recs| == 0 {
      assert w.trace[|w.trace|..] == [];
    } else {
      var w1 := CsvRecordWriterProvider.Write(w, recs[0], NoFault).0;
      var w' := WriteAll(w1, recs[1..]);
      WriteAllFrame(w1, recs[1..]);
      AnyAcceptedCons(recs);
      assert w'.trace[..|w.trace|] == w.trace by {
        assert w'.trace[..|w1.trace|][..|w.trace|] == w1.trace[..|w.trace|];
      }
      assert w'.trace[|w.trace|..] == w1.trace[|w.trace|..] + w'.trace[|w1.trace|..] by {
        assert w'.trace[..|w1.trace|] == w1.trace;
      }
    }
  }

  /** Folding `write` over records appends, after whatever the writer held,
      the header line if the flag was clear and some record is accepted, and
      then the accepted rows in input order. */
  lemma {:induction false} WriteAllAppends(w: Writer, recs: seq<Record>)
    ensures Output(WriteAll(w, recs).trace) == Output(w.trace)
           + (if !w.headerWritten && AnyAccepted(recs) then w.converter.header + w.sep else [])
           + Body(w.converter, w.sep, recs)
    decreases |recs|
  {
    if |recs| > 0 {
      var r := recs[0];
      var w1 := CsvRecordWriterProvider.Write(w, r, NoFault).0;
      var c, sep := w.converter, w.sep;
      WriteAllAppends(w1, recs[1..]);
      AnyAcceptedCons(recs);
      var b := Body(c, sep, recs[1..]);
      var ih := Output(WriteAll(w1, recs[1..]).trace);
      assert WriteAll(w, recs) == WriteAll(w1, recs[1..]);
      if Accepted(r) {
        WriteEmitsHeaderOnceThenRow(w, r, NoFault);
        var row := Row(c, r) + sep;
        var hs: Bytes := if w.headerWritten then [] else c.header + sep;
        assert w1.headerWritten && w1.converter == c && w1.sep == sep;
        assert ih == Output(w1.trace) + b;
        assert Output(w1.trace) == Output(w.trace) + hs + row;
        assert Body(c, sep, recs) == row + b;
        assert ih == Output(w.trace) + hs + (row + b);
      } else {
        assert w1 == w;
        assert Body(c, sep, recs) == [] + b;
      }
    }
  }

  /** A session of successful writes on a fresh writer produces exactly the
      expected object, and sets the header flag iff some record was accepted. */
  lemma FreshWriterOutput(c: Converter, sep: LineSep, filename: string, recs: seq<Record>)
    ensures var w := WriteAll(GetRecordWriter(c, sep, filename), recs);
      && Output(w.trace) == Expected(c, sep, recs)
      && (w.headerWritten <==> AnyAccepted(recs))
      && OnlyWrites(w.trace)
  {
    var w0 := GetRecordWriter(c, sep, filename);
    WriteAllFrame(w0, recs);
    WriteAllAppends(w0, recs);
    assert WriteAll(w0, recs).trace[|w0.trace|..] == WriteAll(w0, recs).trace;
  }

  /** A session writes nothing at all, not even the header, exactly when no
      record is accepted: a header is never emitted without a row. */
  lemma SessionEmptyIffNoneAccepted(c: Converter, sep: LineSep, filename: string, recs: seq<Record>)
    ensures var w := WriteAll(GetRecordWriter(c, sep, filename), recs);
      && (Output(w.trace) == [] <==> !AnyAccepted(recs))
      && (!AnyAccepted(recs) ==> w.trace == [] && !w.headerWritten)
  {
    FreshWriterOutput(c, sep, filename, recs);
    WriteAllFrame(GetRecordWriter(c, sep, filename), recs);
    if AnyAccepted(recs) {
      assert |c.header + sep + Body(c, sep, recs)| >= |sep| > 0;
    }
  }

  /** If the header write of the first accepted record fails, the flag stays
      set, so every later successful write appends rows only: the header is
      never re-emitted by this writer. */
  lemma FailedHeaderWriteNotRepeated(c: Converter, sep: LineSep, filename: string,
                                     rec: Record, k: nat, recs: seq<Record>)
    requires Accepted(rec) && k < 2
    ensures var (w1, out) := CsvRecordWriterProvider.Write(GetRecordWriter(c, sep, filename), rec, FailAt(k));
      && out == Threw(ConnectException)
      && w1.headerWritten
      && Output(WriteAll(w1, recs).trace) == Output(w1.trace) + Body(c, sep, recs)
  {
    var w1 := CsvRecordWriterProvider.Write(GetRecordWriter(c, sep, filename), rec, FailAt(k)).0;
    WriteAllAppends(w1, recs);
  }

  /** A session that writes `recs` and then commits successfully publishes
      exactly the expected object, and its trace is the writes followed by
      the raw commit and then the wrapper close. */
  lemma CommitSessionPublishesExpected(c: Converter, sep: LineSep, filename: string, recs: seq<Record>)
    ensures var w := WriteAll(GetRecordWriter(c, sep, filename), recs);
      var (w', out) := Commit(w, NoFault);
      && out == Completed
      && w'.trace == w.trace + [RawCommit, WrapperClose]
      && OnlyWrites(w.trace)
      && Published(w'.trace) == Some(Expected(c, sep, recs))
  {
    var w := WriteAll(GetRecordWriter(c, sep, filename), recs);
    FreshWriterOutput(c, sep, filename, recs);
    assert RawCommit !in w.trace;
    assert w.trace + [RawCommit, WrapperClose] == w.trace + [RawCommit] + [WrapperClose];
    PublishedAfterCommit(w.trace, [WrapperClose]);
  }

  /** A session that writes `recs` and then closes, whether or not the close
      fails, never commits: nothing of the session becomes visible. */
  lemma CloseSessionPublishesNothing(c: Converter, sep: LineSep, filename: string,
                                     recs: seq<Record>, fault: IoFault)
    ensures var w := WriteAll(GetRecordWriter(c, sep, filename), recs);
      var w' := Close(w, fault).0;
      && RawCommit !in w'.trace
      && Published(w'.trace) == None
  {
    var w := WriteAll(GetRecordWriter(c, sep, filename), recs);
    var w' := Close(w, fault).0;
    FreshWriterOutput(c, sep, filename, recs);
    assert w'.trace == w.trace + w'.trace[|w.trace|..];
    assert RawCommit !in w.trace;
  }

  /** If the raw commit succeeds but closing the wrapper then fails, the
      caller is told to retry although the object is already published. */
  lemma CommitWrapperFailureAfterPublish(c: Converter, sep: LineSep, filename: string, recs: seq<Record>)
    ensures var w := WriteAll(GetRecordWriter(c, sep, filename), recs);
      var (w', out) := Commit(w, FailAt(1));
      && out == Threw(RetriableException)
      && Published(w'.trace) == Some(Expected(c, sep, recs))
  {
    var w := WriteAll(GetRecordWriter(c, sep, filename), recs);
    FreshWriterOutput(c, sep, filename, recs);
    assert RawCommit !in w.trace;
    assert Commit(w, FailAt(1)).0.trace == w.trace + [RawCommit] + [];
    PublishedAfterCommit(w.trace, []);
  }

  /** If the raw commit itself fails, commit throws `RetriableException` and
      nothing of the session is published: retrying the destination is safe. */
  lemma CommitRawFailurePublishesNothing(c: Converter, sep: LineSep, filename: string, recs: seq<Record>)
    ensures var w := WriteAll(GetRecordWriter(c, sep, filename), recs);
      var (w', out) := Commit(w, FailAt(0));
      && out == Threw(RetriableException)
      && w'.trace == w.trace
      && Published(w'.trace) == None
  {
    var w := WriteAll(GetRecordWriter(c, sep, filename), recs);
    FreshWriterOutput(c, sep, filename, recs);
    assert RawCommit !in w.trace;
  }

  const FirstStruct: seq<Field> := [Field("a", "1"), Field("b", "x")]
  const SecondStruct: seq<Field> := [Field("a", "2"), Field("b", "y")]

  /** A converter for the worked session: header `a,b`, rows `1,x` and `2,y`. */
  const ExampleConverter: Converter :=
    Converter([97, 44, 98], (topic: string, schema: string, fields: seq<Field>) =>
      if fields == FirstStruct then [49, 44, 120] else [50, 44, 121])

  /** Two struct records and one scalar record. */
  const ExampleRecords: seq<Record> :=
    [Record("topic", "ab", Struct(FirstStruct)),
     Record("topic", "ab", Struct(SecondStruct)),
     Record("topic", "int32", Other("42"))]

  /** The expected object for the example records: `a,b\n1,x\n2,y\n`. */
  lemma ExampleExpected()
    ensures Expected(ExampleConverter, [10], ExampleRecords)
         == [97, 44, 98, 10, 49, 44, 120, 10, 50, 44, 121, 10]
  {
    var c, recs := ExampleConverter, ExampleRecords;
    assert FirstStruct != SecondStruct by { assert FirstStruct[0] != SecondStruct[0]; }
    assert Row(c, recs[0]) == [49, 44, 120];
    assert Row(c, recs[1]) == [50, 44, 121];
    var b2 := Body(c, [10], recs[2..]);
    assert recs[2..][1..] == [] && !Accepted(recs[2..][0]);
    assert b2 == [] + Body(c, [10], []) == [];
    assert recs[1..][1..] == recs[2..];
    assert Body(c, [10], recs[1..]) == [50, 44, 121, 10] + b2;
    assert Body(c, [10], recs) == [49, 44, 120, 10] + Body(c, [10], recs[1..]);
    assert Accepted(recs[0]);
    assert Expected(c, [10], recs) == [97, 44, 98] + [10] + Body(c, [10], recs);
  }

  /** Worked session: with the converter above and a `\n` separator,
      writing the example records and committing publishes `a,b\n1,x\n2,y\n`:
      one header line, the scalar dropped. */
  lemma WorkedSessionPublishesTwoRows()
    ensures Published(Commit(WriteAll(GetRecordWriter(ExampleConverter, [10], "topic-0001"),
                                      ExampleRecords), NoFault).0.trace)
         == Some([97, 44, 98, 10, 49, 44, 120, 10, 50, 44, 121, 10])
  {
    CommitSessionPublishesExpected(ExampleConverter, [10], "topic-0001", ExampleRecords);
    ExampleExpected();
  }

  /** The extension determines the compression codec's extension: two
      configurations yield the same extension only if their codecs do. */
  lemma ExtensionDeterminesCodec(a: CompressionType, b: CompressionType)
    ensures GetExtension(a) == GetExtension(b) <==> a.extension == b.extension
  {
  }
}
