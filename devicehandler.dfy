/** The device controller's websocket handler (device_controller/core/handler.py).
    `ACTIVE_WEBSOCKETS` maps a device endpoint to the task streaming from it; the
    commands stream, get, stop and status read and update it, close connections in the
    shared pool, and reply to the client.

    The asyncio side is reduced to atomic steps: creating a task registers it, cancelling
    and awaiting it is one removal. The streaming loop the task runs, and the pool
    connection `run_exchange` opens, are not part of this model; one exchange yields the
    reply given as a parameter. Two statements are modelled as written although they do
    not do what their comments say. `status` does not await the availability check
    (handler.py:110) and passes the coroutine as the reply's `ok`, which the `bool` field
    of `ServerResponse` refuses: the validation error ends the session before any reply
    is sent. The cleanup after the client disconnects calls `task_cancellation` with the
    endpoint in the websocket's place and no request (handler.py:158), so it cancels
    nothing. */
module DeviceHandler {
  import opened Common
  import opened Request
  import opened Connections

  const ErrorUnknownCommand: string := "Получена неизвестная команда"
  const ErrorRequestValidation: string := "Ошибка валидации - неверный запрос"
  const MessageExchangeStopped: string := "Обмен остановлен"
  const MessageExchangeStarted: string := "Обмен запущен"
  const MessageDeviceBusy: string := "Устройство занято"
  const MessageDeviceAvailable: string := "Устройство доступно"

  /** `ResponseTypes`. */
  datatype ResponseType = WeightType | InfoType | ErrorType | StatusType

  /** `ScalesWeightResponse`; the float weight is a real here. */
  datatype WeightData = WeightData(weight: real, stable: bool, overload: bool)

  /** `ServerResponse`. */
  datatype ServerResponse = ServerResponse(device: Endpoint, ok: bool, kind: ResponseType, data: Option<WeightData>, message: Option<string>)

  /** A client websocket, by its id. */
  type ClientId = nat

  /** A reply sent to a client. */
  datatype Sent = Sent(client: ClientId, response: ServerResponse)

  /** A streaming task, known by the name `task_creation` gives it. */
  datatype Task = Task(name: string)

  /** A message from the client, with the reply one exchange with the device would give
      while serving it. */
  datatype Incoming = Incoming(raw: RawRequest, reading: ServerResponse)

  /** What the handler's commands touch: `ACTIVE_WEBSOCKETS`, the connection pool, the
      replies sent so far and the client websockets the server has closed. */
  datatype Server = Server(active: map<Endpoint, Task>, pool: Pool, outbox: seq<Sent>, closedClients: set<ClientId>)

  /** An int as an f-string writes it. */
  function IntText(n: int): string
  {
    if n < 0 then "-" + DecDigits(-n) else DecDigits(n)
  }

  /** `Task-for-{ip}:{port}`. */
  function TaskName(key: Endpoint): string
  {
    "Task-for-" + key.0 + ":" + IntText(key.1)
  }

  /** A reply about the request's device, with no weight data. */
  function Reply(r: ClientRequest, ok: bool, kind: ResponseType, message: string): ServerResponse
  {
    ServerResponse(DeviceSocket(r), ok, kind, None, Some(message))
  }

  /** The reply to a request that fails validation names the address and port as sent. */
  function InvalidReply(raw: RawRequest): ServerResponse
  {
    ServerResponse((raw.ipText, raw.port), false, ErrorType, None, Some(ErrorRequestValidation))
  }

  /** `send_message`. */
  function Send(s: Server, c: ClientId, response: ServerResponse): Server
  {
    s.(outbox := s.outbox + [Sent(c, response)])
  }

  /** `is_device_available`: no task is registered for the endpoint. */
  predicate Free(s: Server, r: ClientRequest)
  {
    DeviceSocket(r) !in s.active
  }

  /** `task_creation`. */
  function Register(s: Server, r: ClientRequest): Server
  {
    var key := DeviceSocket(r);
    s.(active := s.active[key := Task(TaskName(key))])
  }

  /** `stop_exchange`: the driver closes the pool's connection to the device, then the
      client is told the exchange stopped. */
  function StopExchangeStep(s: Server, c: ClientId, r: ClientRequest): Server
  {
    Send(s.(pool := CloseStep(s.pool, DeviceSocket(r))), c, Reply(r, true, InfoType, MessageExchangeStopped))
  }

  /** `task_cancellation`: with a request whose endpoint is registered, the task is removed
      (cancelled and awaited) and the exchange stopped; otherwise nothing happens. */
  function CancelStep(s: Server, c: ClientId, r: Option<ClientRequest>): Server
  {
    if r.Some? && DeviceSocket(r.value) in s.active then
      StopExchangeStep(s.(active := s.active - {DeviceSocket(r.value)}), c, r.value)
    else s
  }

  /** `stream`. */
  function StreamStep(s: Server, c: ClientId, r: ClientRequest): Server
  {
    if !Free(s, r) then s
    else Send(Register(s, r), c, Reply(r, true, InfoType, MessageExchangeStarted))
  }

  /** `get`: on a free device, "exchange started", one exchange, the exchange stopped, and
      the client websocket closed. */
  function GetOnceStep(s: Server, c: ClientId, r: ClientRequest, reading: ServerResponse): Server
  {
    if !Free(s, r) then s
    else
      var started := Send(s, c, Reply(r, true, InfoType, MessageExchangeStarted));
      var stopped := StopExchangeStep(Send(started, c, reading), c, r);
      stopped.(closedClients := stopped.closedClients + {c})
  }

  /** `stop`. */
  function StopStep(s: Server, c: ClientId, r: ClientRequest): Server
  {
    CancelStep(s, c, Some(r))
  }

  /** `status` as written: the un-awaited coroutine is given as the reply's `ok`, which
      only accepts a bool, so building the reply raises a validation error. It escapes
      `dispatch` and `main_handler` (which catch only a closed connection), nothing is
      sent, and the server closes the client's websocket. */
  function StatusStep(s: Server, c: ClientId, r: ClientRequest): Server
  {
    s.(closedClients := s.closedClients + {c})
  }

  /** `status` with its availability check awaited. */
  function StatusChecked(s: Server, c: ClientId, r: ClientRequest): Server
  {
    var free := Free(s, r);
    Send(s, c, Reply(r, free, StatusType, if free then MessageDeviceAvailable else MessageDeviceBusy))
  }

  /** `command_not_found`. */
  function NotFoundStep(s: Server, c: ClientId, r: ClientRequest): Server
  {
    Send(s, c, Reply(r, false, ErrorType, ErrorUnknownCommand))
  }

  /** `str.lower` on ASCII letters. */
  function Lower(s: string): string
  {
    if s == [] then []
    else [if 'A' <= s[0] <= 'Z' then (s[0] as int + 32) as char else s[0]] + Lower(s[1..])
  }

  /** The handler method `getattr` finds under a name: the one named after a command. */
  function HandlerFor(name: string): Option<Command>
  {
    ParseCommand(name)
  }

  /** `dispatch`: the method named after the command handles it. Every command has one
      (`EveryCommandHasHandler`), so `command_not_found` is never chosen. */
  function DispatchStep(s: Server, c: ClientId, r: ClientRequest, reading: ServerResponse): Server
  {
    match r.command
    case Stream => StreamStep(s, c, r)
    case Get => GetOnceStep(s, c, r, reading)
    case Stop => StopStep(s, c, r)
    case Status => StatusStep(s, c, r)
  }

  /** One message of `main_handler`'s loop: validate it, and dispatch it if valid. */
  function MessageStep(s: Server, c: ClientId, m: Incoming): Server
  {
    match Validate(m.raw)
    case None => Send(s, c, InvalidReply(m.raw))
    case Some(r) => DispatchStep(s, c, r, m.reading)
  }

  /** The server state and the `request` variable of `main_handler`. */
  datatype Session = Session(server: Server, request: Option<ClientRequest>)

  /** `main_handler`'s loop: messages are served in order until the server closes the
      client's websocket; `request` holds the last message's validation result. */
  function Serve(s: Session, c: ClientId, msgs: seq<Incoming>): Session
    decreases |msgs|
  {
    if msgs == [] || c in s.server.closedClients then s
    else Serve(Session(MessageStep(s.server, c, msgs[0]), Validate(msgs[0].raw)), c, msgs[1..])
  }

  /** `main_handler` as written: the loop, then the cleanup call that passes no request. */
  function Disconnect(s: Server, c: ClientId, msgs: seq<Incoming>): Server
  {
    CancelStep(Serve(Session(s, None), c, msgs).server, c, None)
  }

  /** `main_handler` with the cleanup cancelling the last request's task, as its comment
      says it should. */
  function DisconnectIntended(s: Server, c: ClientId, msgs: seq<Incoming>): Server
  {
    var last := Serve(Session(s, None), c, msgs);
    CancelStep(last.server, c, last.request)
  }

  /** The endpoints of the valid stream requests among the messages. */
  function Streamed(msgs: seq<Incoming>): set<Endpoint>
  {
    if msgs == [] then {}
    else
      var v := Validate(msgs[0].raw);
      (if v.Some? && v.value.command == Stream then {DeviceSocket(v.value)} else {}) + Streamed(msgs[1..])
  }

  /** Every registered task carries the name of its endpoint. */
  predicate TasksNamed(s: Server)
  {
    forall k :: k in s.active ==> s.active[k] == Task(TaskName(k))
  }

  // ---------------------------------------------------------------------
  // Properties.

  /** `getattr` finds a handler for every command's lower-cased value. */
  lemma EveryCommandHasHandler(cmd: Command)
    ensures HandlerFor(Lower(CommandName(cmd))) == Some(cmd)
  {
    match cmd
    case Stream => LowerOfLower("stream");
    case Get => LowerOfLower("get");
    case Stop => LowerOfLower("stop");
    case Status => LowerOfLower("status");
  }

  lemma {:induction false} LowerOfLower(s: string)
    requires forall i :: 0 <= i < |s| ==> 'a' <= s[i] <= 'z'
    ensures Lower(s) == s
  {
    if s != [] {
      LowerOfLower(s[1..]);
    }
  }

  /** `stream` on a busy device changes nothing and sends nothing; on a free one it
      registers exactly one task, named after the endpoint, and says the exchange started. */
  lemma StreamFacts(s: Server, c: ClientId, r: ClientRequest)
    ensures !Free(s, r) ==> StreamStep(s, c, r) == s
    ensures Free(s, r) ==>
      var key, t := DeviceSocket(r), StreamStep(s, c, r);
      key in t.active && t.active[key].name == TaskName(key)
      && t.active - {key} == s.active && !Free(t, r)
      && t.outbox == s.outbox + [Sent(c, Reply(r, true, InfoType, MessageExchangeStarted))]
      && t.pool == s.pool && t.closedClients == s.closedClients
  {
    var key := DeviceSocket(r);
    if Free(s, r) {
      assert StreamStep(s, c, r).active - {key} == s.active - {key};
    }
  }

  /** `get` never registers a task. On a free device it sends "exchange started", the
      exchange's reply and "exchange stopped", frees the pool's endpoint and closes the
      client websocket; on a busy one it does nothing. */
  lemma GetOnceFacts(s: Server, c: ClientId, r: ClientRequest, reading: ServerResponse)
    ensures GetOnceStep(s, c, r, reading).active == s.active
    ensures !Free(s, r) ==> GetOnceStep(s, c, r, reading) == s
    ensures Free(s, r) ==>
      var t := GetOnceStep(s, c, r, reading);
      t.outbox == s.outbox + [Sent(c, Reply(r, true, InfoType, MessageExchangeStarted)), Sent(c, reading),
                              Sent(c, Reply(r, true, InfoType, MessageExchangeStopped))]
      && Available(t.pool, DeviceSocket(r)) && t.pool == CloseStep(s.pool, DeviceSocket(r))
      && c in t.closedClients
  {
  }

  /** `stop` on a registered device removes its task, closes its pool connection and says
      the exchange stopped; on an unregistered one it does nothing. Stopping twice is
      stopping once. */
  lemma StopFacts(s: Server, c: ClientId, r: ClientRequest)
    ensures Free(s, r) ==> StopStep(s, c, r) == s
    ensures !Free(s, r) ==>
      var t := StopStep(s, c, r);
      t.active == s.active - {DeviceSocket(r)} && Free(t, r)
      && t.pool == CloseStep(s.pool, DeviceSocket(r))
      && t.outbox == s.outbox + [Sent(c, Reply(r, true, InfoType, MessageExchangeStopped))]
    ensures StopStep(StopStep(s, c, r), c, r) == StopStep(s, c, r)
  {
  }

  /** As written, `status` sends no reply, whether the device is free or busy, changes
      neither the registry nor the pool, and ends the client's session. */
  lemma StatusEndsSession(s: Server, c: ClientId, r: ClientRequest)
    ensures var t := StatusStep(s, c, r);
      t.outbox == s.outbox && t.active == s.active && t.pool == s.pool && c in t.closedClients
  {
  }

  /** As written, no message after a valid `status` request is served: the session ends
      with the state the status request left. */
  lemma StatusStopsServing(s: Session, c: ClientId, m: Incoming, rest: seq<Incoming>)
    requires Validate(m.raw).Some? && Validate(m.raw).value.command == Status
    requires c !in s.server.closedClients
    ensures Serve(s, c, [m] + rest) == Session(StatusStep(s.server, c, Validate(m.raw).value), Validate(m.raw))
    ensures Serve(s, c, [m] + rest).server.outbox == s.server.outbox
  {
    var msgs := [m] + rest;
    assert msgs[0] == m;
    var next := Session(MessageStep(s.server, c, m), Validate(m.raw));
    assert c in next.server.closedClients;
  }

  /** With the check awaited, `status` reports exactly whether the device is free, and
      changes nothing but the replies. */
  lemma StatusCheckedFacts(s: Server, c: ClientId, r: ClientRequest)
    ensures var t := StatusChecked(s, c, r);
      |t.outbox| == |s.outbox| + 1 && t.outbox[..|s.outbox|] == s.outbox
      && (t.outbox[|s.outbox|].response.ok <==> Free(s, r))
      && (t.outbox[|s.outbox|].response.message == Some(MessageDeviceBusy) <==> !Free(s, r))
      && t.active == s.active && t.pool == s.pool
  {
  }

  /** Only a stream command adds a registry entry, and only under its own endpoint; the
      entries of other endpoints keep their tasks. */
  lemma DispatchRegisters(s: Server, c: ClientId, r: ClientRequest, reading: ServerResponse)
    ensures var t := DispatchStep(s, c, r, reading);
      t.active.Keys <= s.active.Keys + (if r.command == Stream then {DeviceSocket(r)} else {})
      && forall k :: k in s.active && k != DeviceSocket(r) ==> k in t.active && t.active[k] == s.active[k]
  {
  }

  /** An invalid message is answered with the validation error and dispatched to nothing. */
  lemma InvalidNotDispatched(s: Server, c: ClientId, m: Incoming)
    requires Validate(m.raw).None?
    ensures MessageStep(s, c, m).active == s.active && MessageStep(s, c, m).pool == s.pool
    ensures MessageStep(s, c, m).outbox == s.outbox + [Sent(c, InvalidReply(m.raw))]
  {
  }

  /** Over a whole session, registry keys come only from valid stream requests. */
  lemma {:induction false} ServeRegistersOnlyStreamed(s: Session, c: ClientId, msgs: seq<Incoming>)
    ensures Serve(s, c, msgs).server.active.Keys <= s.server.active.Keys + Streamed(msgs)
    decreases |msgs|
  {
    if msgs != [] && c !in s.server.closedClients {
      var m := msgs[0];
      var next := Session(MessageStep(s.server, c, m), Validate(m.raw));
      if Validate(m.raw).Some? {
        DispatchRegisters(s.server, c, Validate(m.raw).value, m.reading);
      }
      ServeRegistersOnlyStreamed(next, c, msgs[1..]);
    }
  }

  /** One message keeps every registered task named after its endpoint. */
  lemma MessageKeepsTaskNames(s: Server, c: ClientId, m: Incoming)
    requires TasksNamed(s)
    ensures TasksNamed(MessageStep(s, c, m))
  {
    match Validate(m.raw)
    case None =>
    case Some(r) => DispatchRegisters(s, c, r, m.reading);
  }

  /** Over a whole session, every registered task is named after its endpoint. */
  lemma {:induction false} ServeKeepsTaskNames(s: Session, c: ClientId, msgs: seq<Incoming>)
    requires TasksNamed(s.server)
    ensures TasksNamed(Serve(s, c, msgs).server)
    decreases |msgs|
  {
    if msgs != [] && c !in s.server.closedClients {
      MessageKeepsTaskNames(s.server, c, msgs[0]);
      ServeKeepsTaskNames(Session(MessageStep(s.server, c, msgs[0]), Validate(msgs[0].raw)), c, msgs[1..]);
    }
  }

  /** As written, the `finally` cleanup after a disconnect frees nothing: the registry is
      as the loop left it, so a client that streamed and went away still has its device
      registered when the cleanup is done. (The streaming task's own exit, which removes
      the entry once a send to the closed websocket fails, is not part of this model.) */
  lemma DisconnectKeepsTask(s: Server, c: ClientId, m: Incoming)
    requires Validate(m.raw).Some? && Validate(m.raw).value.command == Stream
    requires Free(s, Validate(m.raw).value) && c !in s.closedClients
    ensures Disconnect(s, c, [m]).active == Serve(Session(s, None), c, [m]).server.active
    ensures !Free(Disconnect(s, c, [m]), Validate(m.raw).value)
  {
    var r := Validate(m.raw).value;
    StreamFacts(s, c, r);
    assert [m][1..] == [];
  }

  /** With the intended cleanup, the device of the last request served is free again once
      the client disconnects. */
  lemma DisconnectIntendedFrees(s: Server, c: ClientId, msgs: seq<Incoming>)
    requires Serve(Session(s, None), c, msgs).request.Some?
    ensures Free(DisconnectIntended(s, c, msgs), Serve(Session(s, None), c, msgs).request.value)
  {
  }

  /** The handler object. `ACTIVE_WEBSOCKETS` is a module-level dictionary in the source;
      the one handler object holds it here, next to the pool it shares with the drivers. */
  class WebsocketsHandler {
    var activeWebsockets: map<Endpoint, Task>
    const pool: ScaleConnectionsPool
    var outbox: seq<Sent>
    var closedClients: set<ClientId>

    function Model(): Server
      reads this, pool
    {
      Server(activeWebsockets, pool.State(), outbox, closedClients)
    }

    constructor (pool: ScaleConnectionsPool)
      ensures this.pool == pool
      ensures activeWebsockets == map[] && outbox == [] && closedClients == {}
    {
      this.pool := pool;
      activeWebsockets := map[];
      outbox := [];
      closedClients := {};
    }

    method SendMessage(c: ClientId, response: ServerResponse)
      modifies this
      ensures Model() == Send(old(Model()), c, response)
    {
      outbox := outbox + [Sent(c, response)];
    }

    method CommandNotFound(c: ClientId, r: ClientRequest)
      modifies this
      ensures Model() == NotFoundStep(old(Model()), c, r)
    {
      SendMessage(c, Reply(r, false, ErrorType, ErrorUnknownCommand));
    }

    /** `validate_request`. */
    method ValidateRequest(c: ClientId, raw: RawRequest) returns (r: Option<ClientRequest>)
      modifies this
      ensures r == Validate(raw)
      ensures Model() == if r.None? then Send(old(Model()), c, InvalidReply(raw)) else old(Model())
    {
      r := Validate(raw);
      if r.None? {
        SendMessage(c, InvalidReply(raw));
      }
    }

    /** `is_device_available`. */
    method IsDeviceAvailable(r: ClientRequest) returns (available: bool)
      ensures available <==> Free(Model(), r)
    {
      available := DeviceSocket(r) !in activeWebsockets;
    }

    method TaskCreation(r: ClientRequest)
      modifies this
      ensures Model() == Register(old(Model()), r)
    {
      var key := DeviceSocket(r);
      activeWebsockets := activeWebsockets[key := Task(TaskName(key))];
    }

    method StopExchange(c: ClientId, r: ClientRequest)
      modifies this, pool
      ensures Model() == StopExchangeStep(old(Model()), c, r)
    {
      pool.Close(r.ip.compressed, r.port);
      SendMessage(c, Reply(r, true, InfoType, MessageExchangeStopped));
    }

    method TaskCancellation(c: ClientId, r: Option<ClientRequest>)
      modifies this, pool
      ensures Model() == CancelStep(old(Model()), c, r)
    {
      if r.Some? && DeviceSocket(r.value) in activeWebsockets {
        activeWebsockets := activeWebsockets - {DeviceSocket(r.value)};
        StopExchange(c, r.value);
      }
    }

    method Stream(c: ClientId, r: ClientRequest)
      modifies this
      ensures Model() == StreamStep(old(Model()), c, r)
    {
      var available := IsDeviceAvailable(r);
      if available {
        TaskCreation(r);
        SendMessage(c, Reply(r, true, InfoType, MessageExchangeStarted));
      }
    }

    method Get(c: ClientId, r: ClientRequest, reading: ServerResponse)
      modifies this, pool
      ensures Model() == GetOnceStep(old(Model()), c, r, reading)
    {
      var available := IsDeviceAvailable(r);
      if available {
        SendMessage(c, Reply(r, true, InfoType, MessageExchangeStarted));
        SendMessage(c, reading);
        StopExchange(c, r);
        closedClients := closedClients + {c};
      }
    }

    method Stop(c: ClientId, r: ClientRequest)
      modifies this, pool
      ensures Model() == StopStep(old(Model()), c, r)
    {
      TaskCancellation(c, Some(r));
    }

    /** `status` as written (see `StatusStep`): the reply cannot be built from the
        un-awaited check, so none is sent and the server closes the websocket. */
    method Status(c: ClientId, r: ClientRequest)
      modifies this
      ensures Model() == StatusStep(old(Model()), c, r)
    {
      closedClients := closedClients + {c};
    }

    method Dispatch(c: ClientId, r: ClientRequest, reading: ServerResponse)
      modifies this, pool
      ensures Model() == DispatchStep(old(Model()), c, r, reading)
    {
      match r.command
      case Stream => Stream(c, r);
      case Get => Get(c, r, reading);
      case Stop => Stop(c, r);
      case Status => Status(c, r);
    }

    /** `main_handler`: serve the messages until the websocket is closed, then clean up
      as the source does. */
    method MainHandler(c: ClientId, msgs: seq<Incoming>)
      modifies this, pool
      ensures Model() == Disconnect(old(Model()), c, msgs)
    {
      var request: Option<ClientRequest> := None;
      var i := 0;
      while i < |msgs| && c !in closedClients
        invariant 0 <= i <= |msgs|
        invariant Serve(Session(old(Model()), None), c, msgs) == Serve(Session(Model(), request), c, msgs[i..])
      {
        assert msgs[i..][1..] == msgs[i + 1..];
        request := ValidateRequest(c, msgs[i].raw);
        if request.Some? {
          Dispatch(c, request.value, msgs[i].reading);
        }
        i := i + 1;
      }
      TaskCancellation(c, None);
    }
  }
}
