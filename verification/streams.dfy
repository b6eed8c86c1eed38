/**
  The two-layer output stream a CSV record writer owns, seen as a trace of
  the calls made on it: bytes appended through the compression wrapper, the
  raw stream's commit (which makes the object durably visible), and the
  wrapper's close. Compression and multipart-upload mechanics are abstracted
  away: the bytes of a `Write` event stand for the uncompressed payload.
 */
module Streams {

  newtype byte = x: int | 0 <= x < 256

  type Bytes = seq<byte>

  /** The platform line separator: some fixed, non-empty byte string. */
  type LineSep = s: Bytes | |s| > 0 witness [10]

  datatype Option<+T> = None | Some(value: T)

  /** One call on the writer's streams, in the order it was issued. */
  datatype Event =
    | Write(bytes: Bytes)   // append through the compression wrapper
    | RawCommit             // finalise the raw stream (upload becomes visible)
    | WrapperClose          // close the compression wrapper

  /** How an I/O failure hits one call of the writer: either no stream
      operation fails, or the `op`-th stream operation that call issues
      (counting from 0) throws; the operations before it took effect, the
      failing one and everything after it did not. */
  datatype IoFault = NoFault | FailAt(op: nat)

  /** The payload a single event contributes to the object's bytes. */
  function Payload(e: Event): Bytes
  {
    if e.Write? then e.bytes else []
  }

  /** The bytes appended to the object by a trace, in order. */
  function Output(t: seq<Event>): Bytes
  {
    if |t| == 0 then [] else Payload(t[0]) + Output(t[1..])
  }

  /** Every event of `t` appends bytes; none commits or closes. */
  predicate OnlyWrites(t: seq<Event>)
  {
    forall i :: 0 <= i < |t| ==> t[i].Write?
  }

  /** Within `t`, every wrapper close is preceded by a raw commit. */
  predicate CommitPrecedesClose(t: seq<Event>)
  {
    forall i :: 0 <= i < |t| && t[i] == WrapperClose ==>
      exists j :: 0 <= j < i && t[j] == RawCommit
  }

  /** Issue the stream operations `ops` after `t` under `fault`: the result is
      the extended trace and whether every operation succeeded. */
  function Issue(t: seq<Event>, ops: seq<Event>, fault: IoFault): (seq<Event>, bool)
  {
    if fault.FailAt? && fault.op < |ops| then (t + ops[..fault.op], false)
    else (t + ops, true)
  }

  /** Position of the first raw commit in `t`, if there is one. */
  function FirstCommit(t: seq<Event>): (r: Option<nat>)
    ensures r.None? <==> RawCommit !in t
    ensures r.Some? ==> r.value < |t| && t[r.value] == RawCommit && RawCommit !in t[..r.value]
  {
    if |t| == 0 then None
    else if t[0] == RawCommit then Some(0)
    else match FirstCommit(t[1..])
      case None => None
      case Some(k) => assert t[..k + 1] == [t[0]] + t[1..][..k]; Some(k + 1)
  }

  /** What a reader of the destination object sees: nothing until the raw
      stream is committed, then the bytes appended before that commit. */
  function Published(t: seq<Event>): Option<Bytes>
  {
    match FirstCommit(t)
    case None => None
    case Some(k) => Some(Output(t[..k]))
  }

  /** The object's bytes are the concatenation of the bytes of its parts. */
  lemma {:induction false} OutputAppend(a: seq<Event>, b: seq<Event>)
    ensures Output(a + b) == Output(a) + Output(b)
    decreases |a|
  {
    if |a| == 0 {
      assert a + b == b;
    } else {
      assert (a + b)[1..] == a[1..] + b;
      OutputAppend(a[1..], b);
    }
  }

  /** A trace of writes with the given payloads outputs their concatenation. */
  lemma OutputOfWrites(x: Bytes, y: Bytes)
    ensures Output([Write(x), Write(y)]) == x + y
  {
    assert [Write(x), Write(y)][1..] == [Write(y)];
    assert [Write(y)][1..] == [];
    assert Output([Write(y)]) == y + [] == y;
  }

  /** Events that append no bytes leave the output unchanged. */
  lemma {:induction false} OutputOfNonWrites(t: seq<Event>)
    requires forall i :: 0 <= i < |t| ==> !t[i].Write?
    ensures Output(t) == []
    decreases |t|
  {
    if |t| > 0 {
      OutputOfNonWrites(t[1..]);
    }
  }

  /** Once the raw stream is committed, exactly the bytes written before the
      commit are published, whatever follows it. */
  lemma PublishedAfterCommit(t: seq<Event>, rest: seq<Event>)
    requires RawCommit !in t
    ensures Published(t + [RawCommit] + rest) == Some(Output(t))
  {
    var u := t + [RawCommit] + rest;
    var k := FirstCommit(u);
    assert u[|t|] == RawCommit;
    assert u[..|t|] == t;
    assert k.Some? && k.value == |t|;
  }
}
