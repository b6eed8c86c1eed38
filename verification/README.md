# CSV record writer of the S3 sink connector, modelled in Dafny

This project models the record writer that `CsvRecordWriterProvider.getRecordWriter`
returns in the Kafka Connect S3 sink. One writer serves one destination
object. It receives sink records through `write`. It serialises those whose
value view is a `Struct` into CSV lines. It emits the converter's header line
once, before the first row. It finishes with either `commit` or `close`:

- `commit` commits the raw S3 output stream and then closes the compression wrapper.
- `close` only closes the wrapper.

An I/O failure in `write` or `close` surfaces as a `ConnectException`. An I/O
failure in `commit` surfaces as a `RetriableException`.

The model is a functional state machine:

- `streams.dfy` (module `Streams`) describes the writer's two-layer stream as a
  trace of calls. A `Write(bytes)` event is an append through the compression
  wrapper. `RawCommit` is the raw stream's commit. `WrapperClose` is the
  wrapper's close. `Output` is the bytes appended by a trace. `Published` is
  what a reader of the object sees: nothing before a raw commit, and after it
  the bytes appended before that commit. An I/O failure is an input to each
  call, `IoFault`: either nothing fails, or the k-th stream operation of that
  call throws.
- `csv_record_writer.dfy` (module `CsvRecordWriterProvider`) holds the writer
  state (`headerWritten` plus the trace). It holds `write`, `commit` and
  `close` as pure steps returning `(new writer, outcome)`, and `getExtension`.
  The converter is a parameter: the header bytes it reports and a row function
  of `(topic, schema, struct)`. The platform line separator is an arbitrary
  non-empty byte string.
- `csv_writer_sessions.dfy` (module `CsvWriterSessions`) folds `write` over
  record sequences. It defines the expected object independently: the header
  line, then the accepted rows in order, or nothing if no record is accepted.
  It proves whole sessions against that definition.

## Model

| member | source | states |
|---|---|---|
| CsvRecordWriterProvider.GetExtension | kafka-connect-s3/src/main/java/io/confluent/connect/s3/format/csv/CsvRecordWriterProvider.java:114-117 | the extension starts with `.csv` and the rest of it is exactly the compression codec's extension |
| CsvWriterSessions.ExtensionDeterminesCodec | kafka-connect-s3/src/main/java/io/confluent/connect/s3/format/csv/CsvRecordWriterProvider.java:43 | two configurations give the same extension if and only if their codecs' extensions are equal |
| CsvRecordWriterProvider.GetRecordWriter | kafka-connect-s3/src/main/java/io/confluent/connect/s3/format/csv/CsvRecordWriterProvider.java:57-63 | a new writer has `headerWritten` false and an empty trace: it has appended no bytes and has published nothing |
| CsvRecordWriterProvider.Write | kafka-connect-s3/src/main/java/io/confluent/connect/s3/format/csv/CsvRecordWriterProvider.java:65-89 | the trace is only appended to, and only with byte writes. A non-`Struct` view leaves the writer unchanged and completes normally. Afterwards the flag is set iff it was set or the record is accepted, even when the header write fails. The call throws iff the record is accepted and one of its 2 stream writes fails (4 writes while the header is still pending). What it throws is always a `ConnectException` |
| CsvWriterSessions.WriteEmitsHeaderOnceThenRow | kafka-connect-s3/src/main/java/io/confluent/connect/s3/format/csv/CsvRecordWriterProvider.java:77-84 | a successful write of an accepted record appends `header ++ SEP` exactly when the flag was clear, then `row ++ SEP` |
| CsvWriterSessions.WriteAllFrame | kafka-connect-s3/src/main/java/io/confluent/connect/s3/format/csv/CsvRecordWriterProvider.java:63-85 | over any record sequence, writes keep the converter and separator. They only append byte writes to the trace. The flag ends set iff it was set or some record is accepted. If no record is accepted, the writer is unchanged |
| CsvWriterSessions.WriteAllAppends | kafka-connect-s3/src/main/java/io/confluent/connect/s3/format/csv/CsvRecordWriterProvider.java:71-84 | successful writes append, in input order, the header line (only if the flag was clear and some record is accepted), then `row ++ SEP` for each accepted record |
| CsvWriterSessions.FreshWriterOutput | kafka-connect-s3/src/main/java/io/confluent/connect/s3/format/csv/CsvRecordWriterProvider.java:59-85 | on a fresh writer, a sequence of successful writes outputs exactly the expected object: `header ++ SEP` followed by the accepted rows, each followed by `SEP` |
| CsvWriterSessions.SessionEmptyIffNoneAccepted | kafka-connect-s3/src/main/java/io/confluent/connect/s3/format/csv/CsvRecordWriterProvider.java:69-85 | a session's output is empty iff no record is accepted. In that case nothing at all was issued and the flag is still clear |
| CsvWriterSessions.FailedHeaderWriteNotRepeated | kafka-connect-s3/src/main/java/io/confluent/connect/s3/format/csv/CsvRecordWriterProvider.java:77-87 | if writing the header or its separator fails, the call throws `ConnectException` and the flag stays set. Every later successful write then appends only rows, so the header is never written again |
| CsvRecordWriterProvider.Commit | kafka-connect-s3/src/main/java/io/confluent/connect/s3/format/csv/CsvRecordWriterProvider.java:91-101 | commit writes no bytes and changes nothing but the trace. Among the events it adds, every wrapper close comes after a raw commit. It completes iff it added exactly `RawCommit` and then `WrapperClose`. It throws iff one of its two stream operations fails, and then always a `RetriableException`, without having closed the wrapper |
| CsvRecordWriterProvider.Close | kafka-connect-s3/src/main/java/io/confluent/connect/s3/format/csv/CsvRecordWriterProvider.java:103-110 | close never adds a raw commit. It completes iff it added exactly one `WrapperClose`. It throws iff the wrapper close fails, and then always a `ConnectException`, leaving the trace unchanged |
| CsvWriterSessions.CommitSessionPublishesExpected | kafka-connect-s3/src/main/java/io/confluent/connect/s3/format/csv/CsvRecordWriterProvider.java:91-100 | writes followed by a successful commit give a trace of byte writes, then `RawCommit`, then `WrapperClose`. The published object is exactly the expected one |
| CsvWriterSessions.CloseSessionPublishesNothing | kafka-connect-s3/src/main/java/io/confluent/connect/s3/format/csv/CsvRecordWriterProvider.java:103-110 | writes followed by close, whether or not close fails, never commit, and nothing is published |
| CsvWriterSessions.CommitRawFailurePublishesNothing | kafka-connect-s3/src/main/java/io/confluent/connect/s3/format/csv/CsvRecordWriterProvider.java:94-99 | if the raw commit of a session fails, commit throws `RetriableException`, adds no event, and nothing is published |
| CsvWriterSessions.CommitWrapperFailureAfterPublish | kafka-connect-s3/src/main/java/io/confluent/connect/s3/format/csv/CsvRecordWriterProvider.java:94-99 | if the raw commit succeeds and the wrapper close then fails, commit throws `RetriableException` although the expected object is already published |
| CsvWriterSessions.WorkedSessionPublishesTwoRows | kafka-connect-s3/src/main/java/io/confluent/connect/s3/format/csv/CsvRecordWriterProvider.java:66-100 | a session writes two structs and one scalar, with header `a,b` and rows `1,x`, `2,y`, then commits. It publishes `a,b\n1,x\n2,y\n` |

Two consequences of the code's ordering are worth knowing:

- A `RetriableException` from `commit` does not always mean nothing was
  published. The raw commit comes first, so if the wrapper close fails after
  the raw commit succeeded, the object is already visible
  (`CommitWrapperFailureAfterPublish`). Only a failure of the raw commit itself
  leaves nothing published (`CommitRawFailurePublishesNothing`).
- The flag is set before the header is written, so a failed header write is
  never repeated. No later `write` on that writer emits a header
  (`FailedHeaderWriteNotRepeated`). The failed write throws a fatal
  `ConnectException`, so the host is expected to abandon the writer anyway.

## Left out

- Logging (`log.warn` in `write`): it has no effect on the streams or the flag.
- `getAdjustedFilename`, `storage.create` and `wrapForCompression` are not
  part of this model. The writer records the filename it was created for.
  Failures while opening the streams are not modelled.
- `recordView.getView` and `getViewSchema` are not part of this model. A record
  carries its topic, the schema of its view and the view itself, which is a
  `Struct` or not.
- CsvConverter internals are not part of this model. The header is a fixed
  byte string per converter. Rows come from an arbitrary function of
  `(topic, schema, struct)`. Exceptions the converter may raise (they are not
  `IOException` and pass through `write` uncaught) are not modelled.
- Compression and S3 multipart mechanics: a `Write` event carries the
  uncompressed bytes. Buffering in the wrapper is not modelled. The published
  object is the bytes written before the raw commit.
- Partial effects of a failing stream operation: the failing write, commit or
  close contributes no event. Later operations of the same call are not
  issued.
- Concurrency: the `AtomicBoolean` test-and-set is one step of a sequential
  model. Interleavings of concurrent `write` calls are not modelled.
- `System.lineSeparator()` is an arbitrary non-empty byte string.
- Calls after `commit` or `close`: the code has no guard, so the model simply
  issues the same stream operations again and records them. The real streams'
  reaction to this is not modelled.
- GetExtension: takes the compression codec as a parameter instead of reading
  it from the storage configuration.
