/**
 * The node: a server holding the configuration and the peer registry (a map
 * from peer ID to peer), peers that each own one connection, and the control
 * line that triggers broadcasts.
 *
 * The model is sequential. Each activity the source runs as a goroutine is a
 * method that the environment calls: `Server.StartPeer` is the goroutine
 * `AddPeer` launches, `Peer.InHandler` the read loop a successful
 * `Peer.Start` launches, `Server.ReadInput` the control-line reader.
 */
module Node {
  import opened Types
  import opened Streams
  import Wire
  import opened Config

  /* ---------------- connections ---------------- */

  /**
   * A TCP connection: the remote address (which names the peer), everything
   * that will arrive on it, its writing side, and whether it was closed.
   */
  class Conn {
    const remoteAddr: string
    var rx: Reader
    var tx: Writer
    var closed: bool

    constructor (remoteAddr: string, rx: Reader, tx: Writer)
      ensures this.remoteAddr == remoteAddr && this.rx == rx && this.tx == tx && !closed
    {
      this.remoteAddr := remoteAddr;
      this.rx := rx;
      this.tx := tx;
      this.closed := false;
    }

    method Close()
      modifies this
      ensures closed && rx == old(rx) && tx == old(tx)
    {
      closed := true;
    }
  }

  /* ---------------- peers ---------------- */

  /** Which of the two events `Start`'s select receives first. */
  datatype Race = NegotiationFirst | TimeoutFirst

  datatype PeerError = NegotiationFailed(reason: string) | NegotiationTimeout

  /** The seconds `Start` waits for negotiation. */
  const NegotiateTimeout: nat := 30

  /** The outcome of one `InHandler` session: messages read in order, where reading stopped, and the error that ended it. */
  datatype Session = Session(messages: seq<Wire.Message>, rest: Reader, error: Wire.Error)

  /** Reading frames from `r` until the first one that fails, after the messages `received` were read already. */
  function ReadUntilError(r: Reader, received: seq<Wire.Message>, magic: Wire.NetId, codec: Wire.Codec): (session: Session)
    ensures session.rest.data == r.data && r.pos <= session.rest.pos
    ensures |received| <= |session.messages| && session.messages[..|received|] == received
    decreases |r.data| - r.pos
  {
    var o := Wire.ParseFrame(Remaining(r), magic, codec);
    var next := Stream(r.data, r.pos + o.consumed);
    match o.result
    case Err(e) => Session(received, next, e)
    case Ok(m) => ReadUntilError(next, received + [m], magic, codec)
  }

  /**
   * A session only moves forward on its connection and only appends to what
   * was received; every message it delivers took at least a full header's
   * worth of input.
   */
  lemma {:induction false} SessionConsumesHeaders(r: Reader, received: seq<Wire.Message>, magic: Wire.NetId, codec: Wire.Codec)
    ensures var session := ReadUntilError(r, received, magic, codec);
            && session.rest.data == r.data
            && |received| <= |session.messages| && session.messages[..|received|] == received
            && r.pos + Wire.HeaderLen * (|session.messages| - |received|) <= session.rest.pos
    decreases |r.data| - r.pos
  {
    var o := Wire.ParseFrame(Remaining(r), magic, codec);
    if o.result.Ok? {
      var next := Stream(r.data, r.pos + o.consumed);
      var more := received + [o.result.value];
      SessionConsumesHeaders(next, more, magic, codec);
      assert more[..|received|] == received;
    }
  }

  /** A handshake's error, as `Start` reports it. */
  function NegotiationError(negotiated: Option<string>): (err: Option<PeerError>)
    ensures err.None? <==> negotiated.None?
  {
    match negotiated
    case None => None
    case Some(reason) => Some(NegotiationFailed(reason))
  }

  class Peer {
    const server: Server
    const conn: Conn
    const incoming: bool

    /** `newPeer`. */
    constructor (s: Server, conn: Conn, incoming: bool)
      ensures server == s && this.conn == conn && this.incoming == incoming
    {
      server := s;
      this.conn := conn;
      this.incoming := incoming;
    }

    static method NewInboundPeer(s: Server, conn: Conn) returns (p: Peer)
      ensures fresh(p) && p.incoming && p.server == s && p.conn == conn
    {
      p := new Peer(s, conn, true);
    }

    static method NewOutboundPeer(s: Server, conn: Conn) returns (p: Peer)
      ensures fresh(p) && !p.incoming && p.server == s && p.conn == conn
    {
      p := new Peer(s, conn, false);
    }

    function Direction(): (d: string)
      ensures d == "Inbound" <==> incoming
      ensures d == "Outbound" <==> !incoming
    {
      if incoming then "Inbound" else "Outbound"
    }

    /** The peer is known by its connection's remote address. */
    function ID(): string {
      conn.remoteAddr
    }

    /** The inbound handshake: currently none, so it always succeeds. */
    function NegotiateInboundProtocol(): (err: Option<string>)
      ensures err.None?
    {
      None
    }

    /** The outbound handshake: currently none, so it always succeeds. */
    function NegotiateOutboundProtocol(): (err: Option<string>)
      ensures err.None?
    {
      None
    }

    /**
     * `Start`: negotiate (inbound or outbound) against the timeout. A timeout
     * or a negotiation error is returned and the read loop is not launched;
     * otherwise it is. With the current handshakes only the timeout can fail.
     */
    method Start(race: Race) returns (err: Option<PeerError>, handlerLaunched: bool)
      ensures handlerLaunched <==> err.None?
      ensures race == TimeoutFirst ==> err == Some(NegotiationTimeout)
      ensures err.None? <==> race == NegotiationFirst
    {
      var negotiated := if incoming then NegotiateInboundProtocol() else NegotiateOutboundProtocol();
      err := match race
        case TimeoutFirst => Some(NegotiationTimeout)
        case NegotiationFirst => NegotiationError(negotiated);
      handlerLaunched := err.None?;
    }

    /** `readMessage`: one frame from the connection, checked against the owning server's network ID. */
    method ReadMessage(codec: Wire.Codec) returns (res: Result<Wire.Message, Wire.Error>)
      modifies conn
      ensures var o := Wire.ParseFrame(Remaining(old(conn.rx)), server.conf.params.netID, codec);
              res == o.result && conn.rx == Stream(old(conn.rx.data), old(conn.rx.pos) + o.consumed)
      ensures conn.tx == old(conn.tx) && conn.closed == old(conn.closed)
    {
      var r;
      res, r := Wire.ReadMessage(conn.rx, server.NetID(), codec);
      conn.rx := r;
    }

    /** `WriteMessage`: one frame to the connection, under the owning server's network ID. */
    method WriteMessage(msg: Wire.Message, codec: Wire.Codec) returns (err: Option<Wire.Error>)
      modifies conn
      ensures Wire.WriteOutcome(conn.tx, err) == Wire.SendFrame(old(conn.tx), server.conf.params.netID, msg, codec)
      ensures conn.rx == old(conn.rx) && conn.closed == old(conn.closed)
    {
      var w;
      w, err := Wire.WriteMessage(conn.tx, server.NetID(), msg, codec);
      conn.tx := w;
    }

    /** `Disconnect`: close the connection and take the peer's ID out of the registry. */
    method Disconnect()
      modifies conn, server
      ensures conn.closed && conn.rx == old(conn.rx) && conn.tx == old(conn.tx)
      ensures server.peers == old(server.peers) - {ID()}
      ensures old(server.Valid()) ==> server.Valid()
    {
      conn.Close();
      server.RemovePeer(this);
    }

    /**
     * The loop of `InHandler`: read frames until the first read error. It
     * stops where `ReadUntilError` says and delivers its messages.
     */
    method ReadLoop(codec: Wire.Codec) returns (received: seq<Wire.Message>)
      modifies conn
      ensures var session := ReadUntilError(old(conn.rx), [], server.conf.params.netID, codec);
              received == session.messages && conn.rx == session.rest
      ensures conn.tx == old(conn.tx) && conn.closed == old(conn.closed)
    {
      received := [];
      while true
        invariant ReadUntilError(old(conn.rx), [], server.conf.params.netID, codec)
               == ReadUntilError(conn.rx, received, server.conf.params.netID, codec)
        invariant conn.tx == old(conn.tx) && conn.closed == old(conn.closed)
        decreases |conn.rx.data| - conn.rx.pos
      {
        var res := ReadMessage(codec);
        if res.Err? {
          break;
        }
        received := received + [res.value];
      }
    }

    /**
     * `InHandler`: the read loop, then `Disconnect`; afterwards the peer's ID
     * is no longer registered.
     */
    method InHandler(codec: Wire.Codec) returns (received: seq<Wire.Message>)
      modifies conn, server
      ensures var session := ReadUntilError(old(conn.rx), [], server.conf.params.netID, codec);
              received == session.messages && conn.rx == session.rest
      ensures conn.closed && conn.tx == old(conn.tx)
      ensures server.peers == old(server.peers) - {ID()}
      ensures ID() !in server.peers
      ensures old(server.Valid()) ==> server.Valid()
    {
      received := ReadLoop(codec);
      Disconnect();
    }
  }

  /* ---------------- the server ---------------- */

  /** The concurrent activities `Server.Start` launches. */
  datatype Activity = Listener | Connector | InputReader | KillWatcher

  /** A control line read from the console, or the read error that ends the input. */
  datatype LineRead = Line(bytes: seq<byte>) | ReadFailed

  /** What a control line asks for. */
  datatype ControlAction = BroadcastText(text: seq<byte>) | Ignored | IndexOutOfRange

  /** An enumeration of a map's keys, each exactly once: an order in which `range` may visit the map. */
  predicate IsEnumeration(order: seq<string>, keys: set<string>) {
    && (forall i, j | 0 <= i < j < |order| :: order[i] != order[j])
    && AmongKeys(order, keys)
    && (forall id | id in keys :: id in order)
  }

  /** Every ID in `order` is one of `keys`. */
  predicate AmongKeys(order: seq<string>, keys: set<string>) {
    forall i | 0 <= i < |order| :: order[i] in keys
  }

  /** A map that differs from `before` at most at `key` is `before` updated at `key`. */
  lemma UpdatedAt(before: map<string, Writer>, after: map<string, Writer>, key: string)
    requires key in after && before.Keys == after.Keys
    requires forall k | k in after && k != key :: after[k] == before[k]
    ensures after == before[key := after[key]]
  {
  }

  /**
   * The outcome of one `broadcast`: every peer's connection output by ID, how
   * many writes were attempted, and the error that stopped it, if any.
   */
  datatype Delivery = Delivery(txs: map<string, Writer>, attempted: nat, err: Option<Wire.Error>)

  /** Writing one frame with `msg` to a peer's output, under the network ID `magic`. */
  function Sender(magic: Wire.NetId, msg: Wire.Message, codec: Wire.Codec): (send: Writer -> Wire.WriteOutcome)
    ensures forall w :: send(w) == Wire.SendFrame(w, magic, msg, codec)
  {
    w => Wire.SendFrame(w, magic, msg, codec)
  }

  /**
   * `broadcast` on the peers' outputs: `send` (one frame) to each ID in
   * `order`, stopping right after the first write that fails.
   */
  function BroadcastAll(txs: map<string, Writer>, order: seq<string>, send: Writer -> Wire.WriteOutcome): (d: Delivery)
    requires AmongKeys(order, txs.Keys)
    ensures d.txs.Keys == txs.Keys
    ensures d.attempted <= |order|
    decreases |order|
  {
    if order == [] then Delivery(txs, 0, None)
    else
      var o := send(txs[order[0]]);
      var next := txs[order[0] := o.w];
      if o.err.Some? then Delivery(next, 1, o.err)
      else
        var d := BroadcastAll(next, order[1..], send);
        Delivery(d.txs, d.attempted + 1, d.err)
  }

  /** After `done` writes without error, what is left of `broadcast` from `txs` ends as the whole one from `start`. */
  predicate Resumes(start: map<string, Writer>, txs: map<string, Writer>, order: seq<string>, done: nat, send: Writer -> Wire.WriteOutcome)
    requires AmongKeys(order, start.Keys) && txs.Keys == start.Keys && done <= |order|
  {
    var d := BroadcastAll(txs, order[done..], send);
    Delivery(d.txs, d.attempted + done, d.err) == BroadcastAll(start, order, send)
  }

  /** One more write of `broadcast`: it either stops the broadcast with its error or leaves the rest to do. */
  lemma BroadcastAllAdvance(start: map<string, Writer>, txs: map<string, Writer>, order: seq<string>, done: nat,
                            after: map<string, Writer>, err: Option<Wire.Error>, send: Writer -> Wire.WriteOutcome)
    requires AmongKeys(order, start.Keys) && txs.Keys == start.Keys && done < |order|
    requires Resumes(start, txs, order, done, send)
    requires order[done] in after && after == txs[order[done] := after[order[done]]]
    requires Wire.WriteOutcome(after[order[done]], err) == send(txs[order[done]])
    ensures err.None? ==> Resumes(start, after, order, done + 1, send)
    ensures err.Some? ==> Delivery(after, done + 1, err) == BroadcastAll(start, order, send)
  {
    assert order[done..][0] == order[done] && order[done..][1..] == order[done + 1..];
  }

  /**
   * What one `broadcast` does to each peer: the first `attempted` peers in
   * visiting order each received one `SendFrame`, all of them successful
   * except possibly the last, whose error is the one returned; every other
   * peer's output is untouched; no error means every peer was attempted.
   */
  lemma {:induction false} BroadcastAllPerPeer(txs: map<string, Writer>, order: seq<string>, send: Writer -> Wire.WriteOutcome)
    requires AmongKeys(order, txs.Keys)
    requires forall i, j | 0 <= i < j < |order| :: order[i] != order[j]
    ensures var d := BroadcastAll(txs, order, send);
            && (d.err.None? ==> d.attempted == |order|)
            && (d.err.Some? ==> d.attempted > 0)
            && (forall j | 0 <= j < d.attempted ::
                  var o := send(txs[order[j]]);
                  && d.txs[order[j]] == o.w
                  && (o.err.None? <==> j < d.attempted - 1 || d.err.None?)
                  && (o.err.Some? ==> d.err == o.err))
            && (forall j | d.attempted <= j < |order| :: d.txs[order[j]] == txs[order[j]])
            && (forall id | id in txs && id !in order :: d.txs[id] == txs[id])
    decreases |order|
  {
    if order != [] {
      var x := order[0];
      var o := send(txs[x]);
      var next := txs[x := o.w];
      if o.err.None? {
        var rest := order[1..];
        BroadcastAllPerPeer(next, rest, send);
        var d' := BroadcastAll(next, rest, send);
        assert x !in rest;
        forall j | 1 <= j < |order| ensures order[j] == rest[j - 1] && order[j] != x { }
      }
    }
  }

  /**
   * What handling one control line does to the peers' outputs: the broadcast
   * of its text, visiting the peers in `order`, if it carries one; otherwise
   * nothing is written.
   */
  function LineDelivery(txs: map<string, Writer>, line: seq<byte>, order: seq<string>, magic: Wire.NetId, codec: Wire.Codec): (d: Delivery)
    requires AmongKeys(order, txs.Keys)
  {
    match ParseControlLine(line)
    case BroadcastText(text) => BroadcastAll(txs, order, Sender(magic, Wire.NewBroadcastMsg(text), codec))
    case _ => Delivery(txs, 0, None)
  }

  /** Where `ReadInput` stopped: the peers' outputs, the number of lines handled, and whether the last one faulted. */
  datatype ConsoleRun = ConsoleRun(txs: map<string, Writer>, handled: nat, crashed: bool)

  /**
   * `ReadInput` on the peers' outputs: handle `lines` one after the other
   * until a read error or a bare "broadcast" line, the i-th line's broadcast
   * visiting the peers in `orders[i]`.
   */
  function Console(txs: map<string, Writer>, lines: seq<LineRead>, orders: seq<seq<string>>, magic: Wire.NetId, codec: Wire.Codec): (run: ConsoleRun)
    requires |lines| <= |orders|
    requires forall i | 0 <= i < |orders| :: AmongKeys(orders[i], txs.Keys)
    ensures run.txs.Keys == txs.Keys
    ensures run.handled <= |lines|
    decreases |lines|
  {
    if lines == [] || lines[0].ReadFailed? then ConsoleRun(txs, 0, false)
    else if ParseControlLine(lines[0].bytes).IndexOutOfRange? then ConsoleRun(txs, 0, true)
    else
      var next := LineDelivery(txs, lines[0].bytes, orders[0], magic, codec).txs;
      var run := Console(next, lines[1..], orders[1..], magic, codec);
      ConsoleRun(run.txs, run.handled + 1, run.crashed)
  }

  /** After `done` lines, what is left of `ReadInput` from `txs` ends as the whole run from `start`. */
  predicate ConsoleResumes(start: map<string, Writer>, txs: map<string, Writer>, lines: seq<LineRead>, orders: seq<seq<string>>,
                           done: nat, magic: Wire.NetId, codec: Wire.Codec)
    requires |lines| <= |orders| && done <= |lines| && txs.Keys == start.Keys
    requires forall i | 0 <= i < |orders| :: AmongKeys(orders[i], start.Keys)
  {
    var run := Console(txs, lines[done..], orders[done..], magic, codec);
    ConsoleRun(run.txs, run.handled + done, run.crashed) == Console(start, lines, orders, magic, codec)
  }

  /** One more line of `ReadInput`: it faults and stops the reader, or its delivery leaves the rest to do. */
  lemma ConsoleAdvance(start: map<string, Writer>, txs: map<string, Writer>, lines: seq<LineRead>, orders: seq<seq<string>>,
                       done: nat, after: map<string, Writer>, magic: Wire.NetId, codec: Wire.Codec)
    requires |lines| <= |orders| && done < |lines| && lines[done].Line? && txs.Keys == start.Keys
    requires forall i | 0 <= i < |orders| :: AmongKeys(orders[i], start.Keys)
    requires ConsoleResumes(start, txs, lines, orders, done, magic, codec)
    requires after == LineDelivery(txs, lines[done].bytes, orders[done], magic, codec).txs
    ensures after.Keys == start.Keys
    ensures ParseControlLine(lines[done].bytes).IndexOutOfRange? ==>
              ConsoleRun(after, done, true) == Console(start, lines, orders, magic, codec)
    ensures !ParseControlLine(lines[done].bytes).IndexOutOfRange? ==>
              ConsoleResumes(start, after, lines, orders, done + 1, magic, codec)
  {
    assert lines[done..][0] == lines[done] && lines[done..][1..] == lines[done + 1..];
    assert orders[done..][0] == orders[done] && orders[done..][1..] == orders[done + 1..];
  }

  /**
   * Where `ReadInput` stops: every line it handled was read and is not a bare
   * "broadcast"; it stops at the end of the input or at a read error, or, when
   * it faults, at a bare "broadcast" line.
   */
  lemma {:induction false} ConsoleStops(txs: map<string, Writer>, lines: seq<LineRead>, orders: seq<seq<string>>, magic: Wire.NetId, codec: Wire.Codec)
    requires |lines| <= |orders|
    requires forall i | 0 <= i < |orders| :: AmongKeys(orders[i], txs.Keys)
    ensures var run := Console(txs, lines, orders, magic, codec);
            && (forall j | 0 <= j < run.handled :: lines[j].Line? && !ParseControlLine(lines[j].bytes).IndexOutOfRange?)
            && (run.crashed ==> run.handled < |lines| && lines[run.handled].Line? && ParseControlLine(lines[run.handled].bytes).IndexOutOfRange?)
            && (!run.crashed ==> run.handled == |lines| || lines[run.handled].ReadFailed?)
    decreases |lines|
  {
    if lines != [] && lines[0].Line? && !ParseControlLine(lines[0].bytes).IndexOutOfRange? {
      var next := LineDelivery(txs, lines[0].bytes, orders[0], magic, codec).txs;
      ConsoleStops(next, lines[1..], orders[1..], magic, codec);
      var run := Console(next, lines[1..], orders[1..], magic, codec);
      forall j | 1 <= j < run.handled + 1 ensures lines[j] == lines[1..][j - 1] { }
    }
  }

  /** Lines that broadcast nothing leave every peer's output as it was, whatever the visiting orders. */
  lemma {:induction false} QuietInputSendsNothing(txs: map<string, Writer>, lines: seq<LineRead>, orders: seq<seq<string>>, magic: Wire.NetId, codec: Wire.Codec)
    requires |lines| <= |orders|
    requires forall i | 0 <= i < |orders| :: AmongKeys(orders[i], txs.Keys)
    requires forall i | 0 <= i < |lines| :: lines[i].ReadFailed? || !ParseControlLine(lines[i].bytes).BroadcastText?
    ensures Console(txs, lines, orders, magic, codec).txs == txs
    decreases |lines|
  {
    if lines != [] && lines[0].Line? && !ParseControlLine(lines[0].bytes).IndexOutOfRange? {
      QuietInputSendsNothing(txs, lines[1..], orders[1..], magic, codec);
    }
  }

  /**
   * A single "broadcast:<text>" line reaches the peers: each peer visited
   * before the first failing write receives exactly one broadcast frame
   * carrying `text`.
   */
  lemma BroadcastLineReachesPeers(txs: map<string, Writer>, line: seq<byte>, text: seq<byte>, order: seq<string>, magic: Wire.NetId, codec: Wire.Codec)
    requires IsBroadcastLine(line, text)
    requires AmongKeys(order, txs.Keys)
    requires forall i, j | 0 <= i < j < |order| :: order[i] != order[j]
    ensures var d := BroadcastAll(txs, order, Sender(magic, Wire.NewBroadcastMsg(text), codec));
            && Console(txs, [Line(line)], [order], magic, codec) == ConsoleRun(d.txs, 1, false)
            && (forall j | 0 <= j < d.attempted ::
                  d.txs[order[j]] == Wire.SendFrame(txs[order[j]], magic, Wire.NewBroadcastMsg(text), codec).w)
  {
    BroadcastLineExactly(line, text);
    BroadcastAllPerPeer(txs, order, Sender(magic, Wire.NewBroadcastMsg(text), codec));
    assert [Line(line)][1..] == [];
  }

  class Server {
    const conf: Config
    var peers: map<string, Peer>

    /** Every registered peer is stored under its own ID and belongs to this server. */
    ghost predicate Valid()
      reads this
    {
      forall id | id in peers :: peers[id].ID() == id && peers[id].server == this
    }

    /**
     * Peers are registered under their remote addresses, so two different
     * IDs never share a connection.
     */
    lemma DistinctPeersDistinctConns(a: string, b: string)
      requires Valid() && a in peers && b in peers && a != b
      ensures peers[a].conn != peers[b].conn
    {
      assert peers[a].ID() == a && peers[b].ID() == b;
    }

    /** `newServer`: the given configuration and no peers. */
    constructor (conf: Config)
      ensures this.conf == conf && peers == map[] && Valid()
    {
      this.conf := conf;
      peers := map[];
    }

    /** `netID`: the magic of the configured network. */
    function NetID(): (id: Wire.NetId)
      ensures id == conf.params.netID
    {
      conf.params.netID
    }

    /**
     * `Start`: the listener runs iff listening is configured, the connector
     * iff a peer to connect to is configured; the control-line reader and the
     * kill watcher always run.
     */
    function Start(): (launched: set<Activity>)
      ensures Listener in launched <==> conf.listen
      ensures Connector in launched <==> |conf.connect| > 0
      ensures InputReader in launched && KillWatcher in launched
    {
      (if conf.listen then {Listener} else {})
      + (if |conf.connect| > 0 then {Connector} else {})
      + {InputReader, KillWatcher}
    }

    /** `AddPeer`: registers the peer under its ID, replacing any peer with the same ID. */
    method AddPeer(p: Peer)
      modifies this
      ensures peers == old(peers)[p.ID() := p]
      ensures p.ID() in peers && peers[p.ID()] == p
      ensures forall id | id in old(peers) && id != p.ID() :: id in peers && peers[id] == old(peers)[id]
      ensures old(Valid()) && p.server == this ==> Valid()
    {
      peers := peers[p.ID() := p];
    }

    /**
     * The goroutine `AddPeer` launches: start the peer and, if starting
     * fails, disconnect it, which unregisters it.
     */
    method StartPeer(p: Peer, race: Race) returns (launched: bool)
      requires p.server == this
      modifies this, p.conn
      ensures launched <==> race == NegotiationFirst
      ensures launched ==> peers == old(peers) && p.conn.closed == old(p.conn.closed)
      ensures !launched ==> peers == old(peers) - {p.ID()} && p.conn.closed
      ensures p.conn.rx == old(p.conn.rx) && p.conn.tx == old(p.conn.tx)
      ensures old(Valid()) ==> Valid()
    {
      var err;
      err, launched := p.Start(race);
      if err.Some? {
        p.Disconnect();
      }
    }

    /** `RemovePeer`: unregisters the peer's ID; removing an ID that is not registered changes nothing. */
    method RemovePeer(p: Peer)
      modifies this
      ensures peers == old(peers) - {p.ID()}
      ensures p.ID() !in old(peers) ==> peers == old(peers)
      ensures old(Valid()) ==> Valid()
    {
      peers := peers - {p.ID()};
    }

    /** Every registered peer's connection output, by ID. */
    function Txs(): (txs: map<string, Writer>)
      reads this, set id | id in peers :: peers[id].conn
      ensures txs.Keys == peers.Keys
    {
      map id | id in peers :: peers[id].conn.tx
    }

    /**
     * One iteration of `broadcast`: write a frame with `msg` to the peer
     * registered under `id`; no other peer's connection changes.
     */
    method SendTo(id: string, msg: Wire.Message, codec: Wire.Codec) returns (err: Option<Wire.Error>)
      requires Valid() && id in peers
      modifies peers[id].conn
      ensures Wire.WriteOutcome(Txs()[id], err) == Wire.SendFrame(old(Txs())[id], NetID(), msg, codec)
      ensures Txs() == old(Txs())[id := Txs()[id]]
      ensures forall k | k in peers :: peers[k].conn.rx == old(peers[k].conn.rx) && peers[k].conn.closed == old(peers[k].conn.closed)
    {
      ghost var before := Txs();
      var p := peers[id];
      assert forall k | k in peers && k != id :: peers[k].conn != p.conn by {
        forall k | k in peers && k != id ensures peers[k].conn != p.conn {
          assert peers[k].ID() != p.ID();
        }
      }
      err := p.WriteMessage(msg, codec);
      UpdatedAt(before, Txs(), id);
    }

    /**
     * `broadcast`: visits the peers in `order` (the map's iteration order),
     * writing each a broadcast message with `text`, and stops right after the
     * first write that fails; peers after it are not attempted. The registry
     * and the connections' inputs are not changed.
     */
    method Broadcast(text: seq<byte>, order: seq<string>, codec: Wire.Codec) returns (attempted: nat, err: Option<Wire.Error>)
      requires Valid() && IsEnumeration(order, peers.Keys)
      modifies set id | id in peers :: peers[id].conn
      ensures peers == old(peers)
      ensures Delivery(Txs(), attempted, err) == BroadcastAll(old(Txs()), order, Sender(NetID(), Wire.NewBroadcastMsg(text), codec))
      ensures forall id | id in peers :: peers[id].conn.rx == old(peers[id].conn.rx) && peers[id].conn.closed == old(peers[id].conn.closed)
    {
      var msg := Wire.NewBroadcastMsg(text);
      ghost var send := Sender(NetID(), msg, codec);
      attempted, err := 0, None;
      ghost var txs := Txs();
      while attempted < |order| && err.None?
        invariant peers == old(peers) && txs == Txs()
        invariant attempted <= |order|
        invariant err.None? ==> Resumes(old(Txs()), txs, order, attempted, send)
        invariant err.Some? ==> Delivery(txs, attempted, err) == BroadcastAll(old(Txs()), order, send)
        invariant forall id | id in peers :: peers[id].conn.rx == old(peers[id].conn.rx) && peers[id].conn.closed == old(peers[id].conn.closed)
      {
        var id := order[attempted];
        err := SendTo(id, msg, codec);
        ghost var after := Txs();
        BroadcastAllAdvance(old(Txs()), txs, order, attempted, after, err, send);
        txs := after;
        attempted := attempted + 1;
      }
    }

    /**
     * The body of `ReadInput`'s loop for one line: broadcast the text the line
     * carries, if any, visiting the peers in `order`. A line that carries none
     * leaves every connection as it was.
     */
    method HandleLine(line: seq<byte>, order: seq<string>, codec: Wire.Codec) returns (action: ControlAction, attempted: nat, err: Option<Wire.Error>)
      requires Valid() && IsEnumeration(order, peers.Keys)
      modifies set id | id in peers :: peers[id].conn
      ensures action == ParseControlLine(line)
      ensures peers == old(peers)
      ensures Delivery(Txs(), attempted, err) == LineDelivery(old(Txs()), line, order, NetID(), codec)
      ensures forall id | id in peers :: peers[id].conn.rx == old(peers[id].conn.rx) && peers[id].conn.closed == old(peers[id].conn.closed)
    {
      action, attempted, err := ParseControlLine(line), 0, None;
      if action.BroadcastText? {
        attempted, err := Broadcast(action.text, order, codec);
      }
    }

    /**
     * `ReadInput`: handles control lines until the first read error. A line
     * whose first field is "broadcast" broadcasts its second field, visiting
     * the peers in that line's order of `orders`; one without a second field
     * stops the reader with an index-out-of-range fault; any other line is
     * ignored.
     */
    method ReadInput(input: seq<LineRead>, orders: seq<seq<string>>, codec: Wire.Codec) returns (handled: nat, crashed: bool)
      requires Valid()
      requires |orders| == |input| && forall i | 0 <= i < |orders| :: IsEnumeration(orders[i], peers.Keys) && AmongKeys(orders[i], peers.Keys)
      modifies set id | id in peers :: peers[id].conn
      ensures peers == old(peers)
      ensures ConsoleRun(Txs(), handled, crashed) == Console(old(Txs()), input, orders, NetID(), codec)
      ensures forall id | id in peers :: peers[id].conn.rx == old(peers[id].conn.rx) && peers[id].conn.closed == old(peers[id].conn.closed)
    {
      handled, crashed := 0, false;
      ghost var txs := Txs();
      while handled < |input| && input[handled].Line?
        invariant handled <= |input|
        invariant peers == old(peers) && txs == Txs()
        invariant ConsoleResumes(old(Txs()), txs, input, orders, handled, NetID(), codec)
        invariant forall id | id in peers :: peers[id].conn.rx == old(peers[id].conn.rx) && peers[id].conn.closed == old(peers[id].conn.closed)
        decreases |input| - handled
      {
        var action, _, _ := HandleLine(input[handled].bytes, orders[handled], codec);
        ConsoleAdvance(old(Txs()), txs, input, orders, handled, Txs(), NetID(), codec);
        if action.IndexOutOfRange? {
          crashed := true;
          return;
        }
        txs := Txs();
        handled := handled + 1;
      }
    }
  }

  /** Calling `Disconnect` a second time, as both the start-failure and the read-loop paths may, leaves the registry as once. */
  method DisconnectTwice(p: Peer)
    modifies p.conn, p.server
    ensures p.server.peers == old(p.server.peers) - {p.ID()}
    ensures p.conn.closed
  {
    p.Disconnect();
    p.Disconnect();
  }

  /* ---------------- control lines ---------------- */

  const Colon: byte := 0x3a
  const BroadcastKeyword: seq<byte> := Ascii("broadcast")

  /** The position of the first `b` in `s`. */
  function IndexOf(s: seq<byte>, b: byte): (i: nat)
    requires b in s
    ensures i < |s| && s[i] == b && b !in s[..i]
  {
    if s[0] == b then 0 else assert s[1..][..IndexOf(s[1..], b)] == s[..IndexOf(s[1..], b) + 1][1..]; 1 + IndexOf(s[1..], b)
  }

  /** `strings.Split(s, sep)` for a one-byte separator: the fields between separators, at least one. */
  function Split(s: seq<byte>, sep: byte): (fields: seq<seq<byte>>)
    ensures |fields| >= 1
    ensures forall i | 0 <= i < |fields| :: sep !in fields[i]
    decreases |s|
  {
    if sep !in s then [s]
    else
      var i := IndexOf(s, sep);
      [s[..i]] + Split(s[i + 1..], sep)
  }

  /** `strings.Join(fields, sep)`. */
  function Join(fields: seq<seq<byte>>, sep: byte): seq<byte>
    requires |fields| >= 1
  {
    if |fields| == 1 then fields[0] else fields[0] + [sep] + Join(fields[1..], sep)
  }

  /** Joining the fields of a split with the separator gives back the line. */
  lemma {:induction false} JoinSplit(s: seq<byte>, sep: byte)
    ensures Join(Split(s, sep), sep) == s
    decreases |s|
  {
    if sep in s {
      var i := IndexOf(s, sep);
      var rest := Split(s[i + 1..], sep);
      var fields := Split(s, sep);
      assert fields == [s[..i]] + rest;
      assert |fields| >= 2 && fields[0] == s[..i] && fields[1..] == rest;
      JoinSplit(s[i + 1..], sep);
      assert Join(fields, sep) == s[..i] + [sep] + s[i + 1..];
      assert s[..i] + [sep] + s[i + 1..] == s by {
        assert s == s[..i] + [s[i]] + s[i + 1..];
      }
    }
  }

  /** Splitting a join of separator-free fields gives back the fields. */
  lemma {:induction false} SplitJoin(fields: seq<seq<byte>>, sep: byte)
    requires |fields| >= 1 && forall i | 0 <= i < |fields| :: sep !in fields[i]
    ensures Split(Join(fields, sep), sep) == fields
    decreases |fields|
  {
    if |fields| > 1 {
      var s := Join(fields, sep);
      var f := fields[0];
      assert s[|f|] == sep && s[..|f|] == f;
      IndexOfUnique(s, sep, |f|);
      assert s[|f| + 1..] == Join(fields[1..], sep);
      SplitJoin(fields[1..], sep);
    }
  }

  lemma IndexOfUnique(s: seq<byte>, b: byte, k: nat)
    requires k < |s| && s[k] == b && b !in s[..k]
    ensures IndexOf(s, b) == k
  {
  }

  /** What `ReadInput` does with one line: dispatch on the first field, broadcast the second. */
  function ParseControlLine(line: seq<byte>): ControlAction {
    var cmd := Split(line, Colon);
    if cmd[0] == BroadcastKeyword then
      if |cmd| < 2 then IndexOutOfRange else BroadcastText(cmd[1])
    else Ignored
  }

  /** The line reads "broadcast:", then `text` (free of ':'), then its end or a further ':'. */
  predicate IsBroadcastLine(line: seq<byte>, text: seq<byte>) {
    var k := |BroadcastKeyword|;
    && k + 1 + |text| <= |line|
    && line[..k] == BroadcastKeyword && line[k] == Colon
    && line[k + 1..k + 1 + |text|] == text && Colon !in text
    && (|line| == k + 1 + |text| || line[k + 1 + |text|] == Colon)
  }

  /**
   * A line triggers the broadcast of `text` exactly when it reads
   * "broadcast:" followed by `text`, which holds no ':', and then either ends
   * or continues with a further ':' (whatever follows is dropped).
   */
  lemma BroadcastLineExactly(line: seq<byte>, text: seq<byte>)
    ensures ParseControlLine(line) == BroadcastText(text) <==> IsBroadcastLine(line, text)
  {
    if ParseControlLine(line) == BroadcastText(text) {
      ParsedBroadcastLine(line, text);
    }
    if IsBroadcastLine(line, text) {
      BroadcastLineParsed(line, text);
    }
  }

  lemma ParsedBroadcastLine(line: seq<byte>, text: seq<byte>)
    requires ParseControlLine(line) == BroadcastText(text)
    ensures IsBroadcastLine(line, text)
  {
    var k := |BroadcastKeyword|;
    var cmd := Split(line, Colon);
    assert Colon in line;
    var i := IndexOf(line, Colon);
    assert cmd == [line[..i]] + Split(line[i + 1..], Colon);
    assert line[..i] == BroadcastKeyword;
    assert i == k;
    var rest := line[k + 1..];
    assert text == Split(rest, Colon)[0];
    if Colon in rest {
      var j := IndexOf(rest, Colon);
      assert text == rest[..j];
      assert line[k + 1..k + 1 + j] == rest[..j];
      assert line[k + 1 + j] == rest[j];
    } else {
      assert text == rest;
    }
  }

  lemma BroadcastLineParsed(line: seq<byte>, text: seq<byte>)
    requires IsBroadcastLine(line, text)
    ensures ParseControlLine(line) == BroadcastText(text)
  {
    var k := |BroadcastKeyword|;
    assert Colon !in BroadcastKeyword;
    assert line[..k] == BroadcastKeyword;
    IndexOfUnique(line, Colon, k);
    var rest := line[k + 1..];
    assert Split(line, Colon) == [BroadcastKeyword] + Split(rest, Colon);
    if |line| == k + 1 + |text| {
      assert rest == text;
      assert Split(rest, Colon) == [text];
    } else {
      assert rest[..|text|] == text && rest[|text|] == Colon;
      IndexOfUnique(rest, Colon, |text|);
      assert Split(rest, Colon)[0] == text;
    }
  }

  /** The bare word "broadcast" has no second field: indexing it is out of range. */
  lemma BareBroadcastFaults()
    ensures ParseControlLine(BroadcastKeyword) == IndexOutOfRange
  {
    assert Colon !in BroadcastKeyword;
  }

  /** The line starts with the field "broadcast" followed by a ':'. */
  predicate HasBroadcastField(line: seq<byte>) {
    var k := |BroadcastKeyword|;
    k < |line| && line[..k] == BroadcastKeyword && line[k] == Colon
  }

  /**
   * The three ways a control line is handled: the bare word "broadcast"
   * faults, a line starting "broadcast:" broadcasts, and every other line is
   * ignored.
   */
  lemma {:induction false} ControlLineDispatch(line: seq<byte>)
    ensures ParseControlLine(line).IndexOutOfRange? <==> line == BroadcastKeyword
    ensures ParseControlLine(line).BroadcastText? <==> HasBroadcastField(line)
    ensures ParseControlLine(line).Ignored? <==> line != BroadcastKeyword && !HasBroadcastField(line)
  {
    var k := |BroadcastKeyword|;
    assert Colon !in BroadcastKeyword;
    if Colon in line {
      var i := IndexOf(line, Colon);
      assert Split(line, Colon) == [line[..i]] + Split(line[i + 1..], Colon);
      if HasBroadcastField(line) {
        IndexOfUnique(line, Colon, k);
      }
      if line[..i] == BroadcastKeyword {
        assert i == k;
      }
    }
  }

  /** A line whose first field is not "broadcast" triggers nothing. */
  lemma OtherLinesIgnored(line: seq<byte>)
    requires Split(line, Colon)[0] != BroadcastKeyword
    ensures ParseControlLine(line) == Ignored
  {
  }
}
