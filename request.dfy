/** The device controller's request validation (device_controller/validators/request.py):
    the command names, the port range, the driver looked up by name, and the
    device socket a valid request designates. The address parser of `IPvAnyAddress`
    is not part of this model: an address arrives already parsed, as its
    compressed text, or as None when it does not parse. */
module Request {
  import opened Common
  import opened Registry

  /** `Commands`. */
  datatype Command = Stream | Get | Stop | Status

  const MinPort: int := 1024
  const MaxPort: int := 65535

  /** The value of each command. */
  function CommandName(c: Command): string
  {
    match c
    case Stream => "stream"
    case Get => "get"
    case Stop => "stop"
    case Status => "status"
  }

  /** `Commands(value)`: the command with that value, None for any other text. */
  function ParseCommand(s: string): (r: Option<Command>)
    ensures r.Some? ==> CommandName(r.value) == s
  {
    if s == "stream" then Some(Stream)
    else if s == "get" then Some(Get)
    else if s == "stop" then Some(Stop)
    else if s == "status" then Some(Status)
    else None
  }

  /** An address as `ip.compressed` gives it. */
  datatype Address = Address(compressed: string)

  /** The request as the client sends it: `ipText` is the address exactly as sent, `ip`
      its parse (None when it is not an address). */
  datatype RawRequest = RawRequest(command: string, ipText: string, ip: Option<Address>, port: int, driver: string)

  /** `ClientRequest` once validated. */
  datatype ClientRequest = ClientRequest(command: Command, ip: Address, port: int, driver: Controller)

  predicate PortOk(port: int) { MinPort <= port <= MaxPort }

  /** Validation: the command must be one of the four, the address must parse, the
      port must lie in 1024..65535 and `find_driver` must find the driver; an unknown
      driver gives None, which fails the field's type. */
  function Validate(raw: RawRequest): Option<ClientRequest>
  {
    var c := ParseCommand(raw.command);
    var d := GetScalesController(raw.driver);
    if c.None? || raw.ip.None? || !PortOk(raw.port) || d.None? then None
    else Some(ClientRequest(c.value, raw.ip.value, raw.port, d.value))
  }

  /** `device_socket`. */
  function DeviceSocket(r: ClientRequest): (string, int)
  {
    (r.ip.compressed, r.port)
  }

  // ---------------------------------------------------------------------
  // Properties.

  /** Every command reads back from its value, and no other text is a command. */
  lemma CommandRoundTrip(c: Command, s: string)
    ensures ParseCommand(CommandName(c)) == Some(c)
    ensures ParseCommand(s).Some? <==> s in {"stream", "get", "stop", "status"}
  {
  }

  /** A request is valid exactly when each field is; the valid request keeps the
      port and the address, and designates the socket (address, port). */
  lemma ValidateFacts(raw: RawRequest)
    ensures Validate(raw).Some?
      <==> ParseCommand(raw.command).Some? && raw.ip.Some? && 1024 <= raw.port <= 65535
           && raw.driver in {"tenzo_m", "mt_sics", "digi_di160"}
    ensures Validate(raw).Some? ==>
      DeviceSocket(Validate(raw).value) == (raw.ip.value.compressed, raw.port)
      && CommandName(Validate(raw).value.command) == raw.command
      && IsScale(Validate(raw).value.driver)
  {
    ScalesLookup(raw.driver);
  }
}
