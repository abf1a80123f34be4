/**
 * The wire framing codec of package `wire`: a frame is a header
 * (network magic, command name in a 12-byte NUL-padded field, payload length,
 * all integers little-endian) followed by a payload produced by an external
 * serialiser.
 *
 * As written, the writer emits a 20-byte header while the reader always
 * consumes `HeaderLen` = 24 bytes and parses only the first 20 of them, so a
 * frame this code writes is not read back as the same frame; the lemmas
 * `WrittenFrameNeverDecodes` and `ReaderTakesFourBytesOfWhatFollows` state
 * exactly what happens instead.
 */
module Wire {
  import opened Types
  import opened Streams

  type NetId = uint32

  const HeaderLen: nat := 24
  const CommandSize: nat := 12

  const MainNetID: NetId := 0xdadb1986
  const TestNetID: NetId := 0xccdd2086

  const CmdVersion: seq<byte> := [0x76, 0x65, 0x72, 0x73, 0x69, 0x6f, 0x6e] // "version"
  const CmdBroadcast: seq<byte> := [0x62, 0x72, 0x6f, 0x61, 0x64, 0x63, 0x61, 0x73, 0x74] // "broadcast"

  /* ---------------- messages ---------------- */

  /**
   * The message kinds the codec knows. The fields of the version message are
   * not part of this model; a broadcast message carries its text and nothing else.
   */
  datatype Message = MsgVersion | MsgBroadcast(Content: seq<byte>)

  /** The command name under which a message travels. */
  function Command(m: Message): (cmd: seq<byte>)
    ensures m.MsgBroadcast? ==> cmd == CmdBroadcast
    ensures m.MsgVersion? ==> cmd == CmdVersion
  {
    match m
    case MsgVersion => CmdVersion
    case MsgBroadcast(_) => CmdBroadcast
  }

  function NewBroadcastMsg(content: seq<byte>): (m: Message)
    ensures m.MsgBroadcast? && m.Content == content
    ensures Command(m) == CmdBroadcast
  {
    MsgBroadcast(content)
  }

  /**
   * The payload serialiser, which the model does not look inside: `marshal`
   * may fail, and `unmarshal` fills the empty message of the header's command
   * from the payload bytes or fails.
   */
  datatype Codec = Codec(marshal: Message -> Option<seq<byte>>, unmarshal: (Message, seq<byte>) -> Option<Message>)

  datatype Error =
    | Io(e: IoError)
    | MagicMismatch(got: NetId, want: NetId)
    | InvalidCommand(command: seq<byte>)
    | MarshalFailed
    | UnmarshalFailed

  /**
   * `getDefaultMsg`: the empty message that a frame with this command is
   * decoded into. Exactly the two command names are known, and each names the
   * message it yields.
   */
  function DefaultMessage(command: seq<byte>): (m: Option<Message>)
    ensures m.Some? <==> command == CmdVersion || command == CmdBroadcast
    ensures m.Some? ==> Command(m.value) == command
  {
    if command == CmdVersion then Some(MsgVersion)
    else if command == CmdBroadcast then Some(MsgBroadcast([]))
    else None
  }

  /* ---------------- integers ---------------- */

  /** `binary.LittleEndian.PutUint32`. */
  function PutUint32(v: uint32): (bs: seq<byte>)
    ensures |bs| == 4
  {
    ToLittleEndian(v, 4)
  }

  /** `binary.LittleEndian.Uint32`. */
  function Uint32(bs: seq<byte>): uint32
    requires |bs| == 4
  {
    Pow256Of4();
    FromLittleEndian(bs)
  }

  /** The value of four bytes, byte 0 the least significant. */
  lemma Uint32Value(bs: seq<byte>)
    requires |bs| == 4
    ensures Uint32(bs) as int == bs[0] as int + 0x100 * bs[1] as int + 0x1_0000 * bs[2] as int + 0x100_0000 * bs[3] as int
  {
    var b1, b2, b3 := bs[1..], bs[2..], bs[3..];
    assert b1[1..] == b2 && b2[1..] == b3 && b3[1..] == [];
    assert FromLittleEndian(b3) == bs[3] as int;
    assert FromLittleEndian(b2) == bs[2] as int + 256 * bs[3] as int;
    assert FromLittleEndian(b1) == bs[1] as int + 256 * FromLittleEndian(b2);
  }

  /** Encoding a 32-bit value and decoding it back gives the value; byte 0 is the least significant. */
  lemma Uint32RoundTrip(v: uint32)
    ensures Uint32(PutUint32(v)) == v
    ensures PutUint32(v)[0] == v % 256
  {
    Pow256Of4();
    DecodeEncode(v, 4);
  }

  /** Every 4-byte string is the encoding of exactly the value it decodes to. */
  lemma Uint32BytesRoundTrip(bs: seq<byte>)
    requires |bs| == 4
    ensures PutUint32(Uint32(bs)) == bs
  {
    EncodeDecode(bs);
  }

  lemma PutUint32Injective(a: uint32, b: uint32)
    requires PutUint32(a) == PutUint32(b)
    ensures a == b
  {
    Uint32RoundTrip(a);
    Uint32RoundTrip(b);
  }

  /** `writeUint32`: one write of the four little-endian bytes; when it succeeds, the four bytes added read back as `v`. */
  function WriteUint32(w: Writer, v: uint32): (r: WriteResult)
    ensures r.w.calls == w.calls + 1
    ensures r.err.None? <==> w.calls !in w.faults
    ensures r.err.None? ==> |r.w.written| == |w.written| + 4 && r.w.written[..|w.written|] == w.written
                            && Uint32(r.w.written[|w.written|..]) == v
  {
    Uint32RoundTrip(v);
    var r := Write(w, PutUint32(v));
    assert r.err.None? ==> r.w.written[|w.written|..] == PutUint32(v);
    r
  }

  datatype ReadWord = ReadWord(result: Result<uint32, IoError>, rest: Reader)

  /** `readUint32`: reads four bytes and yields the value whose encoding they are. */
  function ReadUint32(r: Reader): (o: ReadWord)
    ensures o.rest.data == r.data
    ensures o.result.Ok? <==> 4 <= |Remaining(r)|
    ensures o.result.Ok? ==> PutUint32(o.result.value) == Remaining(r)[..4] && o.rest.pos == r.pos + 4
  {
    var f := ReadFull(r, 4);
    if f.err.Some? then ReadWord(Err(f.err.value), f.rest)
    else
      Uint32BytesRoundTrip(f.bytes);
      ReadWord(Ok(Uint32(f.bytes)), f.rest)
  }

  /** `readUint32` on what `writeUint32` put into a buffer returns the original value. */
  lemma ReadUint32AfterWriteUint32(v: uint32)
    ensures var w := WriteUint32(Buffer, v).w;
            ReadUint32(Stream(w.written, 0)).result == Ok(v)
  {
    var w := WriteUint32(Buffer, v).w;
    var o := ReadUint32(Stream(w.written, 0));
    assert Remaining(Stream(w.written, 0)) == PutUint32(v);
    PutUint32Injective(o.result.value, v);
  }

  /* ---------------- the command field ---------------- */

  /** `copy(command[:], []byte(cmd))` into a zeroed `[CommandSize]byte`: pad with NULs, or cut to 12 bytes. */
  function PadCommand(cmd: seq<byte>): (c: seq<byte>)
    ensures |c| == CommandSize
  {
    var n := Min(|cmd|, CommandSize);
    cmd[..n] + Zeros(CommandSize - n)
  }

  predicate NoTrailingNul(bs: seq<byte>) {
    bs == [] || bs[|bs| - 1] != 0
  }

  /** How much of `bs[..n]` is left once its trailing NUL bytes are removed. */
  function TrimmedLength(bs: seq<byte>, n: nat): (k: nat)
    requires n <= |bs|
    ensures k <= n
  {
    if n == 0 || bs[n - 1] != 0 then n else TrimmedLength(bs, n - 1)
  }

  /** `bytes.TrimRight(b, "\x00")`: `bs` with its trailing NUL bytes removed. */
  function TrimRightNul(bs: seq<byte>): (t: seq<byte>)
    ensures |t| <= |bs|
  {
    bs[..TrimmedLength(bs, |bs|)]
  }

  lemma {:induction false} TrimmedLengthSpec(bs: seq<byte>, n: nat)
    requires n <= |bs|
    ensures var k := TrimmedLength(bs, n);
            (k == 0 || bs[k - 1] != 0) && forall i | k <= i < n :: bs[i] == 0
  {
    if n > 0 && bs[n - 1] == 0 {
      TrimmedLengthSpec(bs, n - 1);
    }
  }

  /** What is trimmed is a prefix of `bs` that does not end in NUL, and everything after it is NUL. */
  lemma TrimRightNulSpec(bs: seq<byte>)
    ensures TrimRightNul(bs) == bs[..|TrimRightNul(bs)|]
    ensures NoTrailingNul(TrimRightNul(bs))
    ensures forall i | |TrimRightNul(bs)| <= i < |bs| :: bs[i] == 0
  {
    TrimmedLengthSpec(bs, |bs|);
  }

  /** Trailing NULs beyond position `m` do not change the trimmed length of `bs[..m + j]`. */
  lemma {:induction false} TrimmedLengthOverZeros(bs: seq<byte>, m: nat, j: nat)
    requires m + j <= |bs|
    requires forall i | m <= i < m + j :: bs[i] == 0
    ensures TrimmedLength(bs, m + j) == TrimmedLength(bs, m)
  {
    if j > 0 {
      TrimmedLengthOverZeros(bs, m, j - 1);
    }
  }

  /** The trimmed length of `bs[..n]` depends on those `n` bytes only. */
  lemma {:induction false} TrimmedLengthOfPrefix(a: seq<byte>, b: seq<byte>, n: nat)
    requires n <= |a| && n <= |b| && a[..n] == b[..n]
    ensures TrimmedLength(a, n) == TrimmedLength(b, n)
  {
    if n > 0 {
      assert a[n - 1] == a[..n][n - 1] == b[..n][n - 1] == b[n - 1];
      assert a[..n - 1] == a[..n][..n - 1];
      assert b[..n - 1] == b[..n][..n - 1];
      TrimmedLengthOfPrefix(a, b, n - 1);
    }
  }

  lemma TrimRightNulAppendZeros(bs: seq<byte>, n: nat)
    ensures TrimRightNul(bs + Zeros(n)) == TrimRightNul(bs)
  {
    var s := bs + Zeros(n);
    TrimmedLengthOverZeros(s, |bs|, n);
    assert s[..|bs|] == bs;
    TrimmedLengthOfPrefix(s, bs, |bs|);
  }

  /**
   * The command field round trip: a command of at most 12 bytes that does not
   * end in NUL is recovered exactly; a longer one comes back as its first 12
   * bytes with trailing NULs removed.
   */
  lemma CommandRoundTrip(cmd: seq<byte>)
    ensures |cmd| <= CommandSize && NoTrailingNul(cmd) ==> TrimRightNul(PadCommand(cmd)) == cmd
    ensures CommandSize < |cmd| ==> TrimRightNul(PadCommand(cmd)) == TrimRightNul(cmd[..CommandSize])
  {
    var n := Min(|cmd|, CommandSize);
    TrimRightNulAppendZeros(cmd[..n], CommandSize - n);
    if |cmd| <= CommandSize {
      assert cmd[..n] == cmd;
    }
  }

  /** The other direction: trimming a 12-byte command field and padding it again restores the field. */
  lemma CommandFieldRoundTrip(field: seq<byte>)
    requires |field| == CommandSize
    ensures PadCommand(TrimRightNul(field)) == field
  {
    var t := TrimRightNul(field);
    TrimRightNulSpec(field);
    assert PadCommand(t) == field[..|t|] + Zeros(CommandSize - |t|);
  }

  /** Both known command names fit the field, so every message's command survives padding and trimming. */
  lemma CommandSurvivesHeader(m: Message)
    ensures |Command(m)| <= CommandSize
    ensures TrimRightNul(PadCommand(Command(m))) == Command(m)
    ensures DefaultMessage(TrimRightNul(PadCommand(Command(m)))).Some?
  {
    assert |CmdBroadcast| == 9 && CmdBroadcast[8] != 0;
    assert |CmdVersion| == 7 && CmdVersion[6] != 0;
    CommandRoundTrip(Command(m));
  }

  /* ---------------- writing elements ---------------- */

  /** The arguments `writeElements` is called with: a NetID or uint32, an int, a byte slice. */
  datatype Element = U32(v: uint32) | Int(i: int) | Bytes(bs: seq<byte>)

  /** What one `writeElement` call hands to its single `Write`. */
  function ElementBytes(e: Element): seq<byte> {
    match e
    case U32(v) => PutUint32(v)
    case Int(i) => PutUint32(ToUint32(i))
    case Bytes(bs) => bs
  }

  /** The byte slices `writeElements` hands to its successive `Write` calls, one per element. */
  function Chunks(elems: seq<Element>): (cs: seq<seq<byte>>)
    ensures |cs| == |elems|
    ensures forall i | 0 <= i < |elems| :: cs[i] == ElementBytes(elems[i])
  {
    seq(|elems|, i requires 0 <= i < |elems| => ElementBytes(elems[i]))
  }

  function Concat(cs: seq<seq<byte>>): seq<byte> {
    if cs == [] then [] else Concat(cs[..|cs| - 1]) + cs[|cs| - 1]
  }

  /** `writeElement`: a 32-bit value (an int truncated to 32 bits) as `writeUint32`, a byte slice as it is. */
  function WriteElement(w: Writer, e: Element): (r: WriteResult)
    ensures r == Write(w, ElementBytes(e))
  {
    match e
    case U32(v) => WriteUint32(w, v)
    case Int(i) => WriteUint32(w, ToUint32(i))
    case Bytes(bs) => Write(w, bs)
  }

  /** Of `n` calls numbered from `from`, the position of the first one the fault script fails, or `n`. */
  function FirstFault(faults: map<nat, nat>, from: nat, n: nat): (k: nat)
    ensures k <= n
    ensures k < n ==> from + k in faults
    decreases n
  {
    if n == 0 || from in faults then 0 else 1 + FirstFault(faults, from + 1, n - 1)
  }

  /** No call before the first fault is in the fault script. */
  lemma {:induction false} NoFaultBeforeFirst(faults: map<nat, nat>, from: nat, n: nat)
    ensures forall c | from <= c < from + FirstFault(faults, from, n) :: c !in faults
    decreases n
  {
    if n > 0 && from !in faults {
      NoFaultBeforeFirst(faults, from + 1, n - 1);
    }
  }

  /** What `writeElements` does to `w`: one write per chunk, in order, up to and including the first that fails. */
  function WriteAll(w: Writer, cs: seq<seq<byte>>): WriteResult
    decreases cs
  {
    if cs == [] then WriteResult(w, None)
    else
      var r := Write(w, cs[0]);
      if r.err.Some? then r else WriteAll(r.w, cs[1..])
  }

  /** A call that does not fault writes the first chunk whole, and `WriteAll` carries on with the rest. */
  lemma WriteAllStep(w: Writer, cs: seq<seq<byte>>)
    requires cs != [] && w.calls !in w.faults
    ensures WriteAll(w, cs) == WriteAll(Writer(w.written + cs[0], w.calls + 1, w.faults), cs[1..])
  {
  }

  lemma ConcatSnoc(cs: seq<seq<byte>>, i: nat)
    requires 0 < i <= |cs|
    ensures Concat(cs[..i]) == Concat(cs[..i - 1]) + cs[i - 1]
  {
    assert cs[..i][..i - 1] == cs[..i - 1];
  }

  /** While the first `i` calls do not fault, `WriteAll` writes the first `i` chunks whole and carries on with the rest. */
  lemma {:induction false} WriteAllPrefix(w: Writer, cs: seq<seq<byte>>, i: nat)
    requires i <= |cs|
    requires forall c | w.calls <= c < w.calls + i :: c !in w.faults
    ensures WriteAll(w, cs) == WriteAll(Writer(w.written + Concat(cs[..i]), w.calls + i, w.faults), cs[i..])
  {
    if i == 0 {
      assert cs[..0] == [] && cs[0..] == cs;
      assert w.written + [] == w.written;
    } else {
      assert w.calls + (i - 1) !in w.faults;
      var before := Writer(w.written + Concat(cs[..i - 1]), w.calls + (i - 1), w.faults);
      var after := Writer(w.written + Concat(cs[..i]), w.calls + i, w.faults);
      assert WriteAll(before, cs[i - 1..]) == WriteAll(after, cs[i..]) by {
        ConcatSnoc(cs, i);
        assert Writer(before.written + cs[i - 1], before.calls + 1, before.faults) == after;
        assert cs[i - 1..][0] == cs[i - 1] && cs[i - 1..][1..] == cs[i..];
        WriteAllStep(before, cs[i - 1..]);
      }
      WriteAllPrefix(w, cs, i - 1);
    }
  }

  /**
   * `WriteAll` succeeds exactly when none of its calls faults, and then it
   * has written every chunk, one call each.
   */
  lemma WriteAllSucceeds(w: Writer, cs: seq<seq<byte>>)
    ensures var r := WriteAll(w, cs);
            && r.w.faults == w.faults
            && (r.err.None? <==> FirstFault(w.faults, w.calls, |cs|) == |cs|)
            && (r.err.None? ==> r.w.written == w.written + Concat(cs) && r.w.calls == w.calls + |cs|)
  {
    var k := FirstFault(w.faults, w.calls, |cs|);
    NoFaultBeforeFirst(w.faults, w.calls, |cs|);
    WriteAllPrefix(w, cs, k);
    if k == |cs| {
      assert cs[..k] == cs && cs[k..] == [];
    } else {
      assert cs[k..][0] == cs[k];
    }
  }

  /**
   * When call `k` is the first to fault, `WriteAll` stops after it: the
   * chunks before it are written whole, and of chunk `k` only the prefix the
   * failing write let through.
   */
  lemma WriteAllFails(w: Writer, cs: seq<seq<byte>>)
    requires FirstFault(w.faults, w.calls, |cs|) < |cs|
    ensures var r := WriteAll(w, cs);
            var k := FirstFault(w.faults, w.calls, |cs|);
            && r.err == Some(WriteFailed)
            && r.w.calls == w.calls + k + 1
            && r.w.written == w.written + Concat(cs[..k]) + cs[k][..Min(w.faults[w.calls + k], |cs[k]|)]
  {
    var k := FirstFault(w.faults, w.calls, |cs|);
    assert w.calls + k in w.faults;
    var at := Writer(w.written + Concat(cs[..k]), w.calls + k, w.faults);
    assert cs[k..][0] == cs[k];
    var r := Write(at, cs[k]);
    assert WriteAll(at, cs[k..]) == r;
    assert WriteAll(w, cs) == WriteAll(at, cs[k..]) by {
      NoFaultBeforeFirst(w.faults, w.calls, |cs|);
      WriteAllPrefix(w, cs, k);
    }
  }

  /** `writeElements`: one write per element, in order, stopping at the first write that fails. */
  method WriteElements(w: Writer, elems: seq<Element>) returns (w': Writer, err: Option<IoError>)
    ensures WriteResult(w', err) == WriteAll(w, Chunks(elems))
  {
    w' := w;
    var i := 0;
    while i < |elems|
      invariant 0 <= i <= |elems|
      invariant WriteAll(w, Chunks(elems)) == WriteAll(w', Chunks(elems)[i..])
    {
      var r := WriteElement(w', elems[i]);
      assert Chunks(elems)[i..][0] == ElementBytes(elems[i]);
      if r.err.Some? {
        return r.w, r.err;
      }
      assert Chunks(elems)[i..][1..] == Chunks(elems)[i + 1..];
      w' := r.w;
      i := i + 1;
    }
    err := None;
  }

  /* ---------------- reading elements ---------------- */

  /** The pointers `readElements` fills: a `*uint32` or `*NetID`, or a `*[n]byte` array. */
  datatype Kind = Word | Array(n: nat)

  datatype Value = WordValue(w: uint32) | ArrayValue(bs: seq<byte>)

  function Width(k: Kind): nat {
    match k
    case Word => 4
    case Array(n) => n
  }

  function TotalWidth(ks: seq<Kind>): nat {
    if ks == [] then 0 else Width(ks[0]) + TotalWidth(ks[1..])
  }

  predicate Fits(k: Kind, v: Value) {
    match k
    case Word => v.WordValue?
    case Array(n) => v.ArrayValue? && |v.bs| == n
  }

  /** The bytes whose reading yields `v`. */
  function ValueBytes(v: Value): seq<byte> {
    match v
    case WordValue(w) => PutUint32(w)
    case ArrayValue(bs) => bs
  }

  function ValuesBytes(vs: seq<Value>): seq<byte> {
    if vs == [] then [] else ValueBytes(vs[0]) + ValuesBytes(vs[1..])
  }

  datatype ReadValue = ReadValue(result: Result<Value, IoError>, rest: Reader)

  /** `readElement`: a word through `readUint32`, an array through `io.ReadFull`. */
  function ReadElement(r: Reader, k: Kind): (o: ReadValue)
    ensures o.rest.data == r.data
    ensures o.result.Ok? <==> Width(k) <= |Remaining(r)|
    ensures o.result.Ok? ==> && Fits(k, o.result.value)
                             && ValueBytes(o.result.value) == Remaining(r)[..Width(k)]
                             && o.rest.pos == r.pos + Width(k)
    ensures o.result.Err? ==> o.rest.pos == |r.data|
  {
    match k
    case Word =>
      var u := ReadUint32(r);
      if u.result.Err? then ReadValue(Err(u.result.error), u.rest)
      else ReadValue(Ok(WordValue(u.result.value)), u.rest)
    case Array(n) =>
      var f := ReadFull(r, n);
      if f.err.Some? then ReadValue(Err(f.err.value), f.rest)
      else ReadValue(Ok(ArrayValue(f.bytes)), f.rest)
  }

  datatype ReadValues = ReadValues(vals: seq<Value>, rest: Reader, err: Option<IoError>)

  /**
   * `readElements` as a value: the elements are read in order, after the
   * values `acc` already read, and the first one the input cannot supply
   * ends the read with its error.
   */
  function ReadAll(r: Reader, kinds: seq<Kind>, acc: seq<Value>): ReadValues
    decreases kinds
  {
    if kinds == [] then ReadValues(acc, r, None)
    else
      var o := ReadElement(r, kinds[0]);
      match o.result
      case Err(e) => ReadValues(acc, o.rest, Some(e))
      case Ok(v) => ReadAll(o.rest, kinds[1..], acc + [v])
  }

  /** The values already read only precede what the rest of the read yields. */
  lemma {:induction false} ReadAllAfter(r: Reader, kinds: seq<Kind>, acc: seq<Value>)
    ensures var own := ReadAll(r, kinds, []);
            ReadAll(r, kinds, acc) == ReadValues(acc + own.vals, own.rest, own.err)
    decreases kinds
  {
    if kinds == [] {
      assert acc + [] == acc;
    } else {
      var o := ReadElement(r, kinds[0]);
      if o.result.Ok? {
        var v := o.result.value;
        assert [] + [v] == [v];
        ReadAllAfter(o.rest, kinds[1..], acc + [v]);
        ReadAllAfter(o.rest, kinds[1..], [v]);
        var tail := ReadAll(o.rest, kinds[1..], []).vals;
        assert acc + [v] + tail == acc + ([v] + tail);
      } else {
        assert acc + [] == acc;
      }
    }
  }

  lemma PrefixSplit(s: seq<byte>, a: nat, n: nat)
    requires a + n <= |s|
    ensures s[..a + n] == s[..a] + s[a..][..n]
  {
  }

  /** Reading with nothing read yet: the first element, then the rest of the read. */
  lemma ReadAllFirst(r: Reader, kinds: seq<Kind>)
    requires kinds != []
    ensures var o := ReadElement(r, kinds[0]);
            var res := ReadAll(r, kinds, []);
            match o.result
            case Err(e) => res == ReadValues([], o.rest, Some(e))
            case Ok(v) =>
              var sub := ReadAll(o.rest, kinds[1..], []);
              res == ReadValues([v] + sub.vals, sub.rest, sub.err)
  {
    var o := ReadElement(r, kinds[0]);
    if o.result.Ok? {
      var v := o.result.value;
      assert [] + [v] == [v];
      ReadAllAfter(o.rest, kinds[1..], [v]);
    }
  }

  /** The read stays on the same input, reads at most one value per kind, and each value fits its kind. */
  lemma {:induction false} ReadAllShape(r: Reader, kinds: seq<Kind>)
    ensures var res := ReadAll(r, kinds, []);
            && res.rest.data == r.data
            && |res.vals| <= |kinds|
            && (forall j | 0 <= j < |res.vals| :: Fits(kinds[j], res.vals[j]))
    decreases kinds
  {
    if kinds != [] {
      var o := ReadElement(r, kinds[0]);
      ReadAllFirst(r, kinds);
      if o.result.Ok? {
        var sub := ReadAll(o.rest, kinds[1..], []);
        ReadAllShape(o.rest, kinds[1..]);
        var vals := [o.result.value] + sub.vals;
        forall j | 0 <= j < |vals|
          ensures Fits(kinds[j], vals[j])
        {
          if j > 0 {
            assert kinds[j] == kinds[1..][j - 1] && vals[j] == sub.vals[j - 1];
          }
        }
      }
    }
  }

  /** The values read are exactly what the bytes consumed for their kinds encode. */
  lemma {:induction false} ReadAllBytes(r: Reader, kinds: seq<Kind>)
    ensures var res := ReadAll(r, kinds, []);
            && |res.vals| <= |kinds|
            && TotalWidth(kinds[..|res.vals|]) <= |Remaining(r)|
            && ValuesBytes(res.vals) == Remaining(r)[..TotalWidth(kinds[..|res.vals|])]
    decreases kinds
  {
    if kinds == [] {
      assert kinds[..0] == [];
    } else {
      var o := ReadElement(r, kinds[0]);
      ReadAllFirst(r, kinds);
      if o.result.Err? {
        assert kinds[..0] == [];
      } else {
        var w := Width(kinds[0]);
        var sub := ReadAll(o.rest, kinds[1..], []);
        var m := |sub.vals|;
        var vals := [o.result.value] + sub.vals;
        ReadAllBytes(o.rest, kinds[1..]);
        var t := TotalWidth(kinds[1..][..m]);
        assert TotalWidth(kinds[..m + 1]) == w + t by {
          assert kinds[..m + 1][1..] == kinds[1..][..m];
        }
        assert ValuesBytes(vals) == ValueBytes(o.result.value) + ValuesBytes(sub.vals) by {
          assert vals[1..] == sub.vals;
        }
        assert Remaining(o.rest) == Remaining(r)[w..];
        PrefixSplit(Remaining(r), w, t);
      }
    }
  }

  /**
   * The read succeeds iff the input holds all the elements, and then consumes
   * exactly their width; otherwise it stops at the first element that does
   * not fit in what remains, having consumed the whole input.
   */
  lemma {:induction false} ReadAllOutcome(r: Reader, kinds: seq<Kind>)
    ensures var res := ReadAll(r, kinds, []);
            && |res.vals| <= |kinds|
            && (res.err.None? <==> TotalWidth(kinds) <= |Remaining(r)|)
            && (res.err.None? ==> |res.vals| == |kinds| && res.rest.pos == r.pos + TotalWidth(kinds))
            && (res.err.Some? ==> |res.vals| < |kinds| && res.rest.pos == |r.data|
                                  && |Remaining(r)| < TotalWidth(kinds[..|res.vals| + 1]))
    decreases kinds
  {
    if kinds != [] {
      var o := ReadElement(r, kinds[0]);
      ReadAllFirst(r, kinds);
      if o.result.Err? {
        assert kinds[..1][1..] == [];
      } else {
        var sub := ReadAll(o.rest, kinds[1..], []);
        var m := |sub.vals|;
        assert |Remaining(o.rest)| == |Remaining(r)| - Width(kinds[0]);
        ReadAllOutcome(o.rest, kinds[1..]);
        if sub.err.Some? {
          assert kinds[..m + 2][1..] == kinds[1..][..m + 1];
        }
      }
    }
  }

  /** Everything `readElements` achieves, for a read that starts with nothing read. */
  lemma ReadAllSpec(r: Reader, kinds: seq<Kind>)
    ensures var res := ReadAll(r, kinds, []);
            && res.rest.data == r.data
            && |res.vals| <= |kinds|
            && (forall j | 0 <= j < |res.vals| :: Fits(kinds[j], res.vals[j]))
            && TotalWidth(kinds[..|res.vals|]) <= |Remaining(r)|
            && ValuesBytes(res.vals) == Remaining(r)[..TotalWidth(kinds[..|res.vals|])]
            && (res.err.None? <==> TotalWidth(kinds) <= |Remaining(r)|)
            && (res.err.None? ==> |res.vals| == |kinds| && res.rest.pos == r.pos + TotalWidth(kinds))
            && (res.err.Some? ==> |res.vals| < |kinds| && res.rest.pos == |r.data|
                                  && |Remaining(r)| < TotalWidth(kinds[..|res.vals| + 1]))
  {
    ReadAllShape(r, kinds);
    ReadAllBytes(r, kinds);
    ReadAllOutcome(r, kinds);
  }

  /** `readElements(r, args...)`: reads the elements in order, as `ReadAll` describes. */
  method ReadElements(r: Reader, kinds: seq<Kind>) returns (vals: seq<Value>, r': Reader, err: Option<IoError>)
    ensures ReadValues(vals, r', err) == ReadAll(r, kinds, [])
  {
    vals, r' := [], r;
    var i := 0;
    while i < |kinds|
      invariant i <= |kinds|
      invariant ReadAll(r, kinds, []) == ReadAll(r', kinds[i..], vals)
    {
      assert kinds[i..][1..] == kinds[i + 1..];
      var o := ReadElement(r', kinds[i]);
      if o.result.Err? {
        return vals, o.rest, Some(o.result.error);
      }
      vals, r' := vals + [o.result.value], o.rest;
      i := i + 1;
    }
    err := None;
  }

  /* ---------------- the header ---------------- */

  datatype MessageHeader = MessageHeader(magic: NetId, command: seq<byte>, msglen: uint32)

  /** The 20 bytes `WriteMessage` sends as the header of a frame: magic, command field, payload length. */
  function EncodeHeader(magic: NetId, cmd: seq<byte>, size: int): (h: seq<byte>)
    ensures |h| == HeaderLen - 4
  {
    PutUint32(magic) + PadCommand(cmd) + PutUint32(ToUint32(size))
  }

  /** What `ReadMessage` makes of its 24 header bytes: it parses the first 20 and ignores the rest. */
  function DecodeHeader(buf: seq<byte>): MessageHeader
    requires |buf| == HeaderLen
  {
    MessageHeader(Uint32(buf[..4]), TrimRightNul(buf[4..16]), Uint32(buf[16..20]))
  }

  /** A decoded command is at most twelve bytes and never ends in a zero byte. */
  lemma DecodedCommandTrimmed(buf: seq<byte>)
    requires |buf| == HeaderLen
    ensures |DecodeHeader(buf).command| <= CommandSize
    ensures NoTrailingNul(DecodeHeader(buf).command)
    ensures DecodeHeader(buf).command == buf[4..4 + |DecodeHeader(buf).command|]
  {
    TrimRightNulSpec(buf[4..16]);
  }

  /**
   * The header written is exactly magic, command field and length, 20 bytes,
   * four fewer than the reader consumes; read back (with any four further
   * bytes) it yields the magic, the command as padding and trimming leave it,
   * and the length modulo 2^32.
   */
  lemma HeaderFieldsRoundTrip(magic: NetId, cmd: seq<byte>, size: int, tail: seq<byte>)
    requires |tail| == HeaderLen - 20
    ensures |EncodeHeader(magic, cmd, size)| == 20 == HeaderLen - 4
    ensures DecodeHeader(EncodeHeader(magic, cmd, size) + tail)
         == MessageHeader(magic, TrimRightNul(PadCommand(cmd)), ToUint32(size))
  {
    var h := EncodeHeader(magic, cmd, size) + tail;
    assert h[..4] == PutUint32(magic);
    assert h[4..16] == PadCommand(cmd);
    assert h[16..20] == PutUint32(ToUint32(size));
    Uint32RoundTrip(magic);
    Uint32RoundTrip(ToUint32(size));
  }

  /* ---------------- ReadMessage ---------------- */

  /** What a frame read yields, and how many input bytes it consumed. */
  datatype ReadOutcome = ReadOutcome(result: Result<Message, Error>, consumed: nat)

  function ShortRead(available: seq<byte>): Error {
    Io(if available == [] then EOF else UnexpectedEOF)
  }

  /**
   * The frame `ReadMessage` reads from input `s`, checked in this order: 24
   * header bytes, magic, known command, `msglen` payload bytes, payload decoding.
   */
  function ParseFrame(s: seq<byte>, magic: NetId, codec: Codec): (o: ReadOutcome)
    ensures o.consumed <= |s|
    ensures o.result.Ok? ==> HeaderLen <= o.consumed
  {
    if |s| < HeaderLen then ReadOutcome(Err(ShortRead(s)), |s|)
    else
      var h := DecodeHeader(s[..HeaderLen]);
      if h.magic != magic then ReadOutcome(Err(MagicMismatch(h.magic, magic)), HeaderLen)
      else match DefaultMessage(h.command)
        case None => ReadOutcome(Err(InvalidCommand(h.command)), HeaderLen)
        case Some(empty) =>
          if |s| - HeaderLen < h.msglen then ReadOutcome(Err(ShortRead(s[HeaderLen..])), |s|)
          else match codec.unmarshal(empty, s[HeaderLen..HeaderLen + h.msglen])
            case None => ReadOutcome(Err(UnmarshalFailed), HeaderLen + h.msglen)
            case Some(m) => ReadOutcome(Ok(m), HeaderLen + h.msglen)
  }

  /** `ReadMessage(r, magic)`: reads one frame from `r`, step by step, as `ParseFrame` describes. */
  method ReadMessage(r: Reader, magic: NetId, codec: Codec) returns (res: Result<Message, Error>, r': Reader)
    ensures r'.data == r.data
    ensures var o := ParseFrame(Remaining(r), magic, codec);
            res == o.result && r'.pos == r.pos + o.consumed
  {
    var hdr := ReadFull(r, HeaderLen);
    if hdr.err.Some? {
      return Err(Io(hdr.err.value)), hdr.rest;
    }
    var hr: Reader := Stream(hdr.bytes, 0);
    var kinds := [Word, Array(CommandSize), Word];
    var vals, _, _ := ReadElements(hr, kinds);
    HeaderElements(hdr.bytes, kinds);
    var header := MessageHeader(vals[0].w, TrimRightNul(vals[1].bs), vals[2].w);
    if header.magic != magic {
      return Err(MagicMismatch(header.magic, magic)), hdr.rest;
    }
    var msg := DefaultMessage(header.command);
    if msg.None? {
      return Err(InvalidCommand(header.command)), hdr.rest;
    }
    var body := ReadFull(hdr.rest, header.msglen);
    if body.err.Some? {
      return Err(Io(body.err.value)), body.rest;
    }
    assert Remaining(r)[..HeaderLen] == hdr.bytes;
    assert body.bytes == Remaining(r)[HeaderLen..HeaderLen + header.msglen];
    var decoded := codec.unmarshal(msg.value, body.bytes);
    if decoded.None? {
      return Err(UnmarshalFailed), body.rest;
    }
    res, r' := Ok(decoded.value), body.rest;
  }

  lemma HeaderChunks(elems: seq<Element>)
    requires |elems| == 3
    ensures Concat(Chunks(elems)) == ElementBytes(elems[0]) + ElementBytes(elems[1]) + ElementBytes(elems[2])
  {
    var cs: seq<seq<byte>> := Chunks(elems);
    assert Concat(cs[..1]) == cs[0] by { assert cs[..1][..0] == []; }
    assert Concat(cs[..2]) == cs[0] + cs[1] by { assert cs[..2][..1] == cs[..1]; }
    assert cs[..|cs| - 1] == cs[..2];
  }

  lemma ValuesBytesOfThree(vs: seq<Value>)
    requires |vs| == 3
    ensures ValuesBytes(vs) == ValueBytes(vs[0]) + ValueBytes(vs[1]) + ValueBytes(vs[2])
  {
    assert vs[1..][0] == vs[1] && vs[1..][1..] == vs[2..];
    assert vs[2..][0] == vs[2] && vs[2..][1..] == [];
    assert ValuesBytes(vs[2..]) == ValueBytes(vs[2]);
  }

  lemma HeaderKindsWidths(kinds: seq<Kind>)
    requires kinds == [Word, Array(CommandSize), Word]
    ensures TotalWidth(kinds[..0]) == 0 && TotalWidth(kinds[..1]) == 4
    ensures TotalWidth(kinds[..2]) == 16 && TotalWidth(kinds) == 20
  {
    assert kinds[..0] == [];
    assert kinds[..1][1..] == [];
    assert kinds[..2][1..] == [Array(CommandSize)] && kinds[..2][1..][1..] == [];
    assert kinds[1..] == [Array(CommandSize), Word] && kinds[1..][1..] == [Word] && kinds[1..][1..][1..] == [];
    assert TotalWidth(kinds[1..][1..]) == 4;
    assert TotalWidth(kinds[1..]) == 16;
  }

  /** Reading magic, command field and length out of a 24-byte header yields `DecodeHeader`'s fields. */
  lemma HeaderElements(buf: seq<byte>, kinds: seq<Kind>)
    requires |buf| == HeaderLen && kinds == [Word, Array(CommandSize), Word]
    ensures var vals := ReadAll(Stream(buf, 0), kinds, []).vals;
            && |vals| == 3 && vals[0].WordValue? && vals[1].ArrayValue? && vals[2].WordValue?
            && DecodeHeader(buf) == MessageHeader(vals[0].w, TrimRightNul(vals[1].bs), vals[2].w)
  {
    var r: Reader := Stream(buf, 0);
    assert Remaining(r) == buf;
    HeaderKindsWidths(kinds);
    ReadAllSpec(r, kinds);
    var vals := ReadAll(r, kinds, []).vals;
    assert |vals| == 3;
    assert kinds[..|vals|] == kinds;
    assert Fits(kinds[0], vals[0]) && Fits(kinds[1], vals[1]) && Fits(kinds[2], vals[2]);
    HeaderFromValues(buf, vals);
  }

  lemma SplitThree(buf: seq<byte>, b0: seq<byte>, b1: seq<byte>, b2: seq<byte>)
    requires |buf| == HeaderLen && |b0| == 4 && |b1| == CommandSize && |b2| == 4
    requires buf[..20] == b0 + b1 + b2
    ensures buf[..4] == b0 && buf[4..16] == b1 && buf[16..20] == b2
  {
    assert buf[..4] == buf[..20][..4];
    assert buf[4..16] == buf[..20][4..16];
    assert buf[16..20] == buf[..20][16..20];
  }

  lemma HeaderFromValues(buf: seq<byte>, vals: seq<Value>)
    requires |buf| == HeaderLen && |vals| == 3
    requires vals[0].WordValue? && vals[1].ArrayValue? && |vals[1].bs| == CommandSize && vals[2].WordValue?
    requires ValuesBytes(vals) == buf[..20]
    ensures DecodeHeader(buf) == MessageHeader(vals[0].w, TrimRightNul(vals[1].bs), vals[2].w)
  {
    ValuesBytesOfThree(vals);
    var b0, b1, b2 := PutUint32(vals[0].w), vals[1].bs, PutUint32(vals[2].w);
    SplitThree(buf, b0, b1, b2);
    assert Uint32(buf[..4]) == vals[0].w by { Uint32RoundTrip(vals[0].w); }
    assert Uint32(buf[16..20]) == vals[2].w by { Uint32RoundTrip(vals[2].w); }
  }

  /* ---------------- properties of reading ---------------- */

  /** Fewer than 24 available bytes: a short-read error, and everything available is consumed. */
  lemma ShortHeaderFails(s: seq<byte>, magic: NetId, codec: Codec)
    requires |s| < HeaderLen
    ensures ParseFrame(s, magic, codec) == ReadOutcome(Err(Io(if s == [] then EOF else UnexpectedEOF)), |s|)
  {
  }

  /** Header bytes 20..23 are read but play no part in the outcome. */
  lemma HeaderTailIgnored(s: seq<byte>, t: seq<byte>, magic: NetId, codec: Codec)
    requires |s| == |t| && HeaderLen <= |s|
    requires s[..20] == t[..20] && s[HeaderLen..] == t[HeaderLen..]
    ensures ParseFrame(s, magic, codec) == ParseFrame(t, magic, codec)
  {
    assert s[..HeaderLen][..4] == s[..4] == t[..4] == t[..HeaderLen][..4];
    assert s[..HeaderLen][4..16] == s[4..16] == t[4..16] == t[..HeaderLen][4..16];
    assert s[..HeaderLen][16..20] == s[16..20] == t[16..20] == t[..HeaderLen][16..20];
    assert DecodeHeader(s[..HeaderLen]) == DecodeHeader(t[..HeaderLen]);
    var n := DecodeHeader(s[..HeaderLen]).msglen;
    if HeaderLen + n <= |s| {
      assert s[HeaderLen..HeaderLen + n] == t[HeaderLen..HeaderLen + n];
    }
  }

  /**
   * A wrong magic is reported before the command is looked at and before any
   * payload byte is consumed, whatever the command and payload are.
   */
  lemma MagicCheckedBeforeCommand(s: seq<byte>, magic: NetId, codec: Codec)
    requires HeaderLen <= |s| && Uint32(s[..4]) != magic
    ensures ParseFrame(s, magic, codec) == ReadOutcome(Err(MagicMismatch(Uint32(s[..4]), magic)), HeaderLen)
  {
    assert s[..HeaderLen][..4] == s[..4];
  }

  /** With the right magic, a command other than "version" or "broadcast" is rejected and no payload byte is read. */
  lemma UnknownCommandRejected(s: seq<byte>, magic: NetId, codec: Codec)
    requires HeaderLen <= |s| && Uint32(s[..4]) == magic
    requires var c := TrimRightNul(s[4..16]); c != CmdVersion && c != CmdBroadcast
    ensures ParseFrame(s, magic, codec) == ReadOutcome(Err(InvalidCommand(TrimRightNul(s[4..16]))), HeaderLen)
  {
    assert s[..HeaderLen][..4] == s[..4];
    assert s[..HeaderLen][4..16] == s[4..16];
  }

  /**
   * With a good header, the frame consumes exactly 24 + msglen bytes and hands
   * exactly those payload bytes to the decoder; if fewer are available the
   * read fails with a short-read error and yields no message.
   */
  lemma PayloadExactlyMsglen(s: seq<byte>, magic: NetId, codec: Codec)
    requires HeaderLen <= |s| && Uint32(s[..4]) == magic
    requires DefaultMessage(TrimRightNul(s[4..16])).Some?
    ensures var n := Uint32(s[16..20]);
            var o := ParseFrame(s, magic, codec);
            && (|s| < HeaderLen + n ==> o == ReadOutcome(Err(ShortRead(s[HeaderLen..])), |s|))
            && (HeaderLen + n <= |s| ==> o.consumed == HeaderLen + n)
            && (o.result.Ok? <==>
                  && HeaderLen + n <= |s|
                  && codec.unmarshal(DefaultMessage(TrimRightNul(s[4..16])).value, s[HeaderLen..HeaderLen + n]).Some?)
  {
    assert s[..HeaderLen][..4] == s[..4];
    assert s[..HeaderLen][4..16] == s[4..16];
    assert s[..HeaderLen][16..20] == s[16..20];
  }

  /**
   * A frame written by this codec, on a stream that then closes, is never
   * decoded: the reader takes the first four payload bytes as the rest of
   * its 24-byte header and then finds four bytes too few.
   */
  lemma WrittenFrameNeverDecodes(magic: NetId, msg: Message, payload: seq<byte>, codec: Codec)
    requires |payload| < 0x1_0000_0000
    ensures ParseFrame(EncodeHeader(magic, Command(msg), |payload|) + payload, magic, codec).result.Err?
  {
    var h := EncodeHeader(magic, Command(msg), |payload|);
    var s := h + payload;
    if HeaderLen <= |s| {
      HeaderFieldsRoundTrip(magic, Command(msg), |payload|, s[20..24]);
      assert s[..HeaderLen] == h + s[20..24];
      CommandSurvivesHeader(msg);
      assert |s| - HeaderLen < |payload|;
    }
  }

  /**
   * When more bytes follow a written frame, the reader accepts the frame's
   * length but takes its payload four bytes late: it hands the decoder the
   * frame's payload without its first four bytes followed by the first four
   * bytes of whatever was written next, which it thereby consumes.
   */
  lemma ReaderTakesFourBytesOfWhatFollows(magic: NetId, msg: Message, payload: seq<byte>, next: seq<byte>, codec: Codec)
    requires |payload| < 0x1_0000_0000 && 4 <= |next|
    ensures var s := EncodeHeader(magic, Command(msg), |payload|) + payload + next;
            var o := ParseFrame(s, magic, codec);
            var empty := DefaultMessage(Command(msg)).value;
            && o.consumed == HeaderLen + |payload|
            && (o.result.Ok? <==> codec.unmarshal(empty, (payload + next)[4..4 + |payload|]).Some?)
  {
    var h := EncodeHeader(magic, Command(msg), |payload|);
    var s := h + payload + next;
    HeaderFieldsRoundTrip(magic, Command(msg), |payload|, s[20..24]);
    assert s[..HeaderLen] == h + s[20..24];
    CommandSurvivesHeader(msg);
    assert s[HeaderLen..HeaderLen + |payload|] == (payload + next)[4..4 + |payload|];
  }

  /* ---------------- WriteMessage ---------------- */

  datatype WriteOutcome = WriteOutcome(w: Writer, err: Option<Error>)

  /**
   * What `WriteMessage` does to writer `w`: serialise the message (nothing is
   * written if that fails), write the header, and only if that succeeded
   * write the payload, as a second, separate write.
   */
  function SendFrame(w: Writer, magic: NetId, msg: Message, codec: Codec): (o: WriteOutcome)
    ensures o.w.faults == w.faults
  {
    match codec.marshal(msg)
    case None => WriteOutcome(w, Some(MarshalFailed))
    case Some(payload) =>
      var hdr := Write(w, EncodeHeader(magic, Command(msg), |payload|));
      if hdr.err.Some? then WriteOutcome(hdr.w, Some(Io(hdr.err.value)))
      else
        var body := Write(hdr.w, payload);
        WriteOutcome(body.w, if body.err.Some? then Some(Io(body.err.value)) else None)
  }

  /** `WriteMessage(w, magic, msg)`: builds the header in a buffer with `writeElements`, then two writes to `w`. */
  method WriteMessage(w: Writer, magic: NetId, msg: Message, codec: Codec) returns (w': Writer, err: Option<Error>)
    ensures WriteOutcome(w', err) == SendFrame(w, magic, msg, codec)
  {
    var payload := codec.marshal(msg);
    if payload.None? {
      return w, Some(MarshalFailed);
    }
    var size := |payload.value|;
    var cmd := Command(msg);
    var command := PadCommand(cmd);
    var elems := [U32(magic), Bytes(command), Int(size)];
    var buf, _ := WriteElements(Buffer, elems);
    ghost var header := EncodeHeader(magic, cmd, size);
    assert buf.written == header by {
      WriteAllSucceeds(Buffer, Chunks(elems));
      assert FirstFault(Buffer.faults, Buffer.calls, |elems|) == |elems|;
      HeaderChunks(elems);
    }
    var hdr := Write(w, buf.written);
    if hdr.err.Some? {
      return hdr.w, Some(Io(hdr.err.value));
    }
    var body := Write(hdr.w, payload.value);
    w' := body.w;
    err := if body.err.Some? then Some(Io(body.err.value)) else None;
  }

  /**
   * The outcomes of `WriteMessage`: when serialisation fails nothing is
   * written; when the header write fails the payload is never attempted
   * (one call, at most the 20 header bytes); otherwise the header and then
   * the payload follow what was written before.
   */
  lemma SendFrameOutcomes(w: Writer, magic: NetId, msg: Message, codec: Codec)
    ensures codec.marshal(msg).None? ==> SendFrame(w, magic, msg, codec) == WriteOutcome(w, Some(MarshalFailed))
    ensures codec.marshal(msg).Some? && w.calls in w.faults ==>
              var o := SendFrame(w, magic, msg, codec);
              var h := EncodeHeader(magic, Command(msg), |codec.marshal(msg).value|);
              && o.err == Some(Io(WriteFailed)) && o.w.calls == w.calls + 1
              && o.w.written == w.written + h[..Min(w.faults[w.calls], |h|)]
              && |o.w.written| <= |w.written| + HeaderLen - 4
    ensures codec.marshal(msg).Some? && w.calls !in w.faults ==>
              var o := SendFrame(w, magic, msg, codec);
              var p := codec.marshal(msg).value;
              var h := EncodeHeader(magic, Command(msg), |p|);
              && o.w.calls == w.calls + 2
              && (o.err.None? <==> w.calls + 1 !in w.faults)
              && (o.err.None? ==> o.w.written == w.written + h + p)
              && (o.err.Some? ==> o.w.written == w.written + h + p[..Min(w.faults[w.calls + 1], |p|)])
  {
    if codec.marshal(msg).Some? {
      var p := codec.marshal(msg).value;
      var h := EncodeHeader(magic, Command(msg), |p|);
      HeaderFieldsRoundTrip(magic, Command(msg), |p|, [0, 0, 0, 0]);
      assert |h| == 20;
    }
  }
}
