/**
 * Network selection: the two parameter records and the switch that picks one
 * by name, with the command-line defaults it starts from.
 */
module Config {
  import opened Types
  import Wire

  datatype Params = Params(port: string, netID: Wire.NetId)

  const MainNetParams: Params := Params("1986", Wire.MainNetID)
  const TestNetParams: Params := Params("11986", Wire.TestNetID)

  datatype Config = Config(net: string, connect: string, listen: bool, params: Params)

  /** The values of the `-net`, `-connect` and `-listen` flags after parsing. */
  datatype Flags = Flags(net: string, connect: string, listen: bool)

  /** The values the flags take when they are not given. */
  const DefaultFlags: Flags := Flags("main", "", true)

  datatype ConfigError = InvalidNetworkType

  /**
   * `loadConfig` after flag parsing: "main" and "test" (exactly, case
   * included) select their parameter records, any other name is an error.
   */
  function LoadConfig(flags: Flags): (r: Result<Config, ConfigError>)
    ensures r.Ok? <==> flags.net == "main" || flags.net == "test"
    ensures r.Ok? ==> r.value.net == flags.net && r.value.connect == flags.connect && r.value.listen == flags.listen
    ensures r.Ok? ==> r.value.params == if flags.net == "main" then MainNetParams else TestNetParams
  {
    match flags.net
    case "main" => Ok(Config(flags.net, flags.connect, flags.listen, MainNetParams))
    case "test" => Ok(Config(flags.net, flags.connect, flags.listen, TestNetParams))
    case _ => Err(InvalidNetworkType)
  }

  /** Started without flags, the node joins the main network, listens, and dials nobody. */
  lemma DefaultConfiguration()
    ensures LoadConfig(DefaultFlags) == Ok(Config("main", "", true, MainNetParams))
    ensures MainNetParams.port == "1986" && MainNetParams.netID == Wire.MainNetID
    ensures DefaultFlags.net == "main" && DefaultFlags.connect == "" && DefaultFlags.listen
  {
  }

  /** The main network listens on port 1986 under magic 0xdadb1986, the test network on 11986 under 0xccdd2086. */
  lemma NetworkParameters()
    ensures MainNetParams.port == "1986" && MainNetParams.netID == 0xdadb1986
    ensures TestNetParams.port == "11986" && TestNetParams.netID == 0xccdd2086
  {
  }

  /** A differently capitalised network name is not accepted. */
  lemma NetworkNameIsCaseSensitive(connect: string, listen: bool)
    ensures LoadConfig(Flags("Main", connect, listen)).Err?
    ensures LoadConfig(Flags("TEST", connect, listen)).Err?
  {
  }

  /** The two networks listen on different ports and carry different magics. */
  lemma NetworksDistinct()
    ensures MainNetParams.port != TestNetParams.port
    ensures MainNetParams.netID != TestNetParams.netID
  {
  }

  /**
   * Because the magics differ, a frame written for one network is refused by
   * a node of the other at the magic check, whatever its command and payload.
   */
  lemma CrossNetworkFrameRejected(from: Params, to: Params, cmd: seq<byte>, size: int, rest: seq<byte>, codec: Wire.Codec)
    requires from in {MainNetParams, TestNetParams} && to in {MainNetParams, TestNetParams} && from != to
    requires 4 <= |rest|
    ensures Wire.ParseFrame(Wire.EncodeHeader(from.netID, cmd, size) + rest, to.netID, codec)
         == Wire.ReadOutcome(Err(Wire.MagicMismatch(from.netID, to.netID)), Wire.HeaderLen)
  {
    var s := Wire.EncodeHeader(from.netID, cmd, size) + rest;
    Wire.HeaderFieldsRoundTrip(from.netID, cmd, size, rest[..4]);
    assert s[..4] == (Wire.EncodeHeader(from.netID, cmd, size) + rest[..4])[..4];
    Wire.MagicCheckedBeforeCommand(s, to.netID, codec);
  }
}
