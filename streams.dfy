/**
 * The byte streams the codec talks to, as values.
 *
 * A `Reader` stands for an `io.Reader` over a connection that eventually
 * closes: everything that will ever arrive on it, and how much of that has
 * been consumed. A `Writer` stands for an `io.Writer`: the bytes accepted so
 * far, how many `Write` calls were made, and a fault script saying which calls
 * fail and how many bytes each of them still gets through.
 */
module Streams {
  import opened Types

  datatype IoError = EOF | UnexpectedEOF | WriteFailed

  datatype Stream = Stream(data: seq<byte>, pos: nat)

  type Reader = s: Stream | s.pos <= |s.data| witness Stream([], 0)

  /** The bytes a read from `r` can still obtain. */
  function Remaining(r: Reader): seq<byte> {
    r.data[r.pos..]
  }

  datatype ReadFullResult = ReadFullResult(bytes: seq<byte>, rest: Reader, err: Option<IoError>)

  /**
   * `io.ReadFull(r, buf)` with `len(buf) == n`: either exactly `n` bytes, or
   * the stream ends first, everything left is consumed and the error is `EOF`
   * when nothing at all was read and `UnexpectedEOF` otherwise.
   */
  function ReadFull(r: Reader, n: nat): (o: ReadFullResult)
    ensures o.rest.data == r.data
    ensures o.err.None? <==> n <= |Remaining(r)|
    ensures o.err.None? ==> |o.bytes| == n && o.bytes == Remaining(r)[..n] && o.rest.pos == r.pos + n
    ensures o.err.Some? ==> o.rest.pos == |r.data|
    ensures o.err.Some? ==> o.err.value == if Remaining(r) == [] then EOF else UnexpectedEOF
  {
    if r.pos + n <= |r.data| then
      ReadFullResult(r.data[r.pos..r.pos + n], Stream(r.data, r.pos + n), None)
    else
      ReadFullResult(r.data[r.pos..], Stream(r.data, |r.data|), Some(if r.pos == |r.data| then EOF else UnexpectedEOF))
  }

  datatype Writer = Writer(written: seq<byte>, calls: nat, faults: map<nat, nat>)

  datatype WriteResult = WriteResult(w: Writer, err: Option<IoError>)

  /** A fresh `bytes.Buffer`: empty, and none of its writes fail. */
  const Buffer: Writer := Writer([], 0, map[])

  function Min(a: nat, b: nat): nat {
    if a <= b then a else b
  }

  /**
   * One `w.Write(p)` call. Call number `w.calls` fails iff the fault script
   * names it; a failing call still lets through the first
   * `faults[w.calls]` bytes of `p` (a short write).
   */
  function Write(w: Writer, p: seq<byte>): (r: WriteResult)
    ensures r.w.calls == w.calls + 1 && r.w.faults == w.faults
    ensures r.err.None? <==> w.calls !in w.faults
    ensures r.err.None? ==> r.w.written == w.written + p
    ensures r.err.Some? ==> r.err.value == WriteFailed
    ensures r.err.Some? ==> r.w.written == w.written + p[..Min(w.faults[w.calls], |p|)]
  {
    if w.calls in w.faults then
      WriteResult(Writer(w.written + p[..Min(w.faults[w.calls], |p|)], w.calls + 1, w.faults), Some(WriteFailed))
    else
      WriteResult(Writer(w.written + p, w.calls + 1, w.faults), None)
  }
}
