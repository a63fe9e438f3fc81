/** The weighing service's websocket handler (weighing_service/core/handlers.py).
    `SCALE_LOCKS` maps a scale's IP address text to the task polling it; a client's start
    and stop commands take and release these locks, and the handler's local variables
    (`poll_task`, `scales_ip`, `driver`) carry over from one message to the next and
    decide the cleanup when the client goes away.

    Tasks are created and cancelled atomically, and the polling loop they run is not part
    of this model. The driver's own connection table (the Tenzo-M driver keeps one, with
    the same get/close/close_all logic as the pool) is modelled by the pool. Three things
    are modelled as written: locks are keyed by the IP alone, so a second port on the same
    scale is refused; `stop` hands the driver the address object where its table is keyed
    by text, so it closes nothing; and the cleanup releases only the last IP the client
    named, whoever holds it. */
module WeighingHandler {
  import opened Common
  import opened Connections
  import Request

  const ErrorDriverNotFound: string := "Драйвер для данного модели не найден"
  const ErrorRequestValidation: string := "Ошибка валидации - неверный запрос"
  const MessageExchangeStopped: string := "Обмен остановлен"

  /** The busy error, naming the scale's address. */
  function BusyError(ip: string): string
  {
    "Устройство " + ip + " уже занято"
  }

  /** `Commands`. */
  datatype WeighCommand = Start | Stop

  /** The request as the client sends it; `ip` is None when the text is not an address. */
  datatype RawWeighRequest = RawWeighRequest(command: string, ip: Option<Request.Address>, port: int, model: string)

  /** `RequestModel`. */
  datatype WeighRequest = WeighRequest(command: WeighCommand, ip: Request.Address, port: int, model: string)

  function ParseWeighCommand(s: string): (r: Option<WeighCommand>)
    ensures r == Some(Start) <==> s == "start"
    ensures r == Some(Stop) <==> s == "stop"
  {
    if s == "start" then Some(Start) else if s == "stop" then Some(Stop) else None
  }

  /** Validation: a known command, an address, a port in 1024..65535; any model text. */
  function ValidateWeigh(raw: RawWeighRequest): (r: Option<WeighRequest>)
    ensures r.Some? <==> ParseWeighCommand(raw.command).Some? && raw.ip.Some? && 1024 <= raw.port <= 65535
    ensures r.Some? ==> r.value.ip == raw.ip.value && r.value.port == raw.port && r.value.model == raw.model
  {
    var c := ParseWeighCommand(raw.command);
    if c.None? || raw.ip.None? || !Request.PortOk(raw.port) then None
    else Some(WeighRequest(c.value, raw.ip.value, raw.port, raw.model))
  }

  /** The one scale driver the service knows. */
  datatype Driver = TensoM

  /** `get_driver`: the driver table holds only `tenzo_m`. */
  function GetDriver(model: string): (r: Option<Driver>)
    ensures r.Some? <==> model == "tenzo_m"
  {
    if model == "tenzo_m" then Some(TensoM) else None
  }

  type ClientId = nat

  /** A polling task: the client that started it, and which of its messages did. */
  datatype PollTask = PollTask(client: ClientId, serial: nat)

  /** The JSON objects the handler sends: `{'error': …}` or `{'message': …}`. */
  datatype Reply = ErrorReply(error: string) | MessageReply(message: string)

  datatype Sent = Sent(client: ClientId, reply: Reply)

  /** What the handler touches: `SCALE_LOCKS`, the driver's connection table and the
      replies sent so far. */
  datatype Service = Service(locks: map<string, PollTask>, driverPool: Pool, outbox: seq<Sent>)

  /** The handler's local variables. */
  datatype Local = Local(pollTask: Option<PollTask>, scalesIp: Option<string>, driver: Option<Driver>)

  const Fresh: Local := Local(None, None, None)

  datatype Session = Session(service: Service, local: Local)

  function Send(s: Service, c: ClientId, reply: Reply): Service
  {
    s.(outbox := s.outbox + [Sent(c, reply)])
  }

  /** `start`: the driver variable is overwritten before it is checked; an unknown model
      is refused, a locked IP is refused as busy, and a free one is locked by a new task. */
  function StartStep(s: Service, l: Local, c: ClientId, serial: nat, r: WeighRequest): Session
  {
    var ip := r.ip.compressed;
    var d := GetDriver(r.model);
    var l' := l.(driver := d);
    if d.None? then Session(Send(s, c, ErrorReply(ErrorDriverNotFound)), l')
    else if ip in s.locks then Session(Send(s, c, ErrorReply(BusyError(ip))), l')
    else
      var task := PollTask(c, serial);
      Session(s.(locks := s.locks[ip := task]), l'.(pollTask := Some(task)))
  }

  /** The driver's `close_connection` as `stop` calls it: it receives the address object,
      while the table's keys hold the address text, so no entry matches. */
  function CloseConnectionAsCalled(p: Pool, r: WeighRequest): Pool
  {
    p
  }

  /** `stop`: a locked IP is released (its task cancelled and awaited), the driver told to
      close the connection, and the client told the exchange stopped; an unlocked IP is
      left alone, silently. */
  function StopStep(s: Service, l: Local, c: ClientId, r: WeighRequest): Service
  {
    var ip := r.ip.compressed;
    if ip !in s.locks then s
    else
      var released := s.(locks := s.locks - {ip});
      var closed := if l.driver.Some? then released.(driverPool := CloseConnectionAsCalled(s.driverPool, r)) else released;
      Send(closed, c, MessageReply(MessageExchangeStopped))
  }

  /** `stop` with the driver given the address text, which closes the scale's connection. */
  function StopClosing(s: Service, l: Local, c: ClientId, r: WeighRequest): Service
  {
    var ip := r.ip.compressed;
    if ip !in s.locks then s
    else
      var released := s.(locks := s.locks - {ip});
      var closed := if l.driver.Some? then released.(driverPool := CloseStep(s.driverPool, (ip, r.port))) else released;
      Send(closed, c, MessageReply(MessageExchangeStopped))
  }

  /** A valid request: `scales_ip` is set first, whatever the command. */
  function RequestStep(s: Service, l: Local, c: ClientId, serial: nat, r: WeighRequest): Session
  {
    var l' := l.(scalesIp := Some(r.ip.compressed));
    match r.command
    case Start => StartStep(s, l', c, serial, r)
    case Stop => Session(StopStep(s, l', c, r), l')
  }

  /** One message: an invalid one is answered with the validation error and skipped. */
  function MessageStep(s: Session, c: ClientId, serial: nat, raw: RawWeighRequest): Session
  {
    match ValidateWeigh(raw)
    case None => Session(Send(s.service, c, ErrorReply(ErrorRequestValidation)), s.local)
    case Some(r) => RequestStep(s.service, s.local, c, serial, r)
  }

  /** The message loop; `serial` numbers the messages. */
  function Serve(s: Session, c: ClientId, serial: nat, msgs: seq<RawWeighRequest>): Session
    decreases |msgs|
  {
    if msgs == [] then s
    else Serve(MessageStep(s, c, serial, msgs[0]), c, serial + 1, msgs[1..])
  }

  /** The `finally` block as written: the lock of the last IP named is released, whoever
      holds it, and if a driver is set all its connections are closed. */
  function Cleanup(s: Session): Service
  {
    var ip := s.local.scalesIp;
    var service := s.service;
    var released :=
      if ip.Some? && ip.value != "" && ip.value in service.locks then service.(locks := service.locks - {ip.value})
      else service;
    if s.local.driver.Some? then released.(driverPool := CloseAllStep(released.driverPool)) else released
  }

  /** The locks the client's own tasks do not hold. */
  function LocksOfOthers(locks: map<string, PollTask>, c: ClientId): map<string, PollTask>
  {
    map ip | ip in locks && locks[ip].client != c :: locks[ip]
  }

  /** The cleanup its comment describes: every lock the client's tasks hold is released,
      and no other. */
  function CleanupOwned(s: Session, c: ClientId): Service
  {
    var released := s.service.(locks := LocksOfOthers(s.service.locks, c));
    if s.local.driver.Some? then released.(driverPool := CloseAllStep(released.driverPool)) else released
  }

  /** `handler` as written: the message loop, then the cleanup. */
  function HandleClient(s: Service, c: ClientId, msgs: seq<RawWeighRequest>): Service
  {
    Cleanup(Serve(Session(s, Fresh), c, 0, msgs))
  }

  /** `handler` with the cleanup releasing exactly the client's own locks. */
  function HandleClientOwned(s: Service, c: ClientId, msgs: seq<RawWeighRequest>): Service
  {
    CleanupOwned(Serve(Session(s, Fresh), c, 0, msgs), c)
  }

  /** The IPs named by valid start requests among the messages. */
  function StartedIps(msgs: seq<RawWeighRequest>): set<string>
  {
    if msgs == [] then {}
    else
      var v := ValidateWeigh(msgs[0]);
      (if v.Some? && v.value.command == Start then {v.value.ip.compressed} else {}) + StartedIps(msgs[1..])
  }

  // ---------------------------------------------------------------------
  // Properties.

  /** The port takes no part in a request's effect on the locks, the driver's table and
      the replies: two requests that differ only in their port do the same. */
  lemma LocksIgnorePort(s: Service, l: Local, c: ClientId, serial: nat, r: WeighRequest, port: int)
    ensures RequestStep(s, l, c, serial, r.(port := port)) == RequestStep(s, l, c, serial, r)
  {
  }

  /** A scale locked through one port is busy through every other port of the same IP. */
  lemma OtherPortBusy(s: Service, l: Local, c: ClientId, d: ClientId, m: nat, n: nat, r: WeighRequest, port: int)
    requires r.command == Start && r.model == "tenzo_m" && r.ip.compressed !in s.locks
    ensures var first := StartStep(s, l, c, m, r);
      var second := StartStep(first.service, Fresh, d, n, r.(port := port));
      second.service.locks == first.service.locks
      && second.service.outbox == first.service.outbox + [Sent(d, ErrorReply(BusyError(r.ip.compressed)))]
  {
  }

  /** `start`: an unknown model is refused with "driver not found"; a locked IP with the
      busy error; both leave the locks alone. A free IP is locked by the client's new task,
      and nothing else changes. */
  lemma StartFacts(s: Service, l: Local, c: ClientId, serial: nat, r: WeighRequest)
    ensures var t := StartStep(s, l, c, serial, r);
      var ip := r.ip.compressed;
      (r.model != "tenzo_m" ==> t.service == Send(s, c, ErrorReply(ErrorDriverNotFound)) && t.local.driver.None?)
      && (r.model == "tenzo_m" && ip in s.locks ==> t.service == Send(s, c, ErrorReply(BusyError(ip))))
      && (r.model == "tenzo_m" && ip !in s.locks ==>
            t.service.locks - {ip} == s.locks && t.service.locks[ip] == PollTask(c, serial)
            && t.service.outbox == s.outbox && t.local.pollTask == Some(PollTask(c, serial)))
      && t.service.driverPool == s.driverPool
  {
    var ip := r.ip.compressed;
    if r.model == "tenzo_m" && ip !in s.locks {
      assert StartStep(s, l, c, serial, r).service.locks - {ip} == s.locks - {ip};
    }
  }

  /** `stop` releases a locked IP and says so; on an unlocked IP it does nothing and sends
      nothing. Stopping twice is stopping once. */
  lemma StopFacts(s: Service, l: Local, c: ClientId, r: WeighRequest)
    ensures var ip := r.ip.compressed;
      (ip !in s.locks ==> StopStep(s, l, c, r) == s)
      && (ip in s.locks ==>
            StopStep(s, l, c, r).locks == s.locks - {ip}
            && StopStep(s, l, c, r).outbox == s.outbox + [Sent(c, MessageReply(MessageExchangeStopped))])
    ensures StopStep(StopStep(s, l, c, r), l, c, r) == StopStep(s, l, c, r)
  {
  }

  /** As written, `stop` leaves the scale's connection in the driver's table. */
  lemma StopKeepsDriverConnection(s: Service, l: Local, c: ClientId, r: WeighRequest)
    requires r.ip.compressed in s.locks && l.driver.Some?
    requires (r.ip.compressed, r.port) in s.driverPool.conns
    ensures (r.ip.compressed, r.port) in StopStep(s, l, c, r).driverPool.conns
  {
  }

  /** With the address text passed, `stop` on a locked scale frees its connection and
      closes its writer, and otherwise does what `stop` does. */
  lemma StopClosingFacts(s: Service, l: Local, c: ClientId, r: WeighRequest)
    requires r.ip.compressed in s.locks && l.driver.Some?
    ensures Available(StopClosing(s, l, c, r).driverPool, (r.ip.compressed, r.port))
    ensures (r.ip.compressed, r.port) in s.driverPool.conns ==>
      s.driverPool.conns[(r.ip.compressed, r.port)] in StopClosing(s, l, c, r).driverPool.closed
    ensures StopClosing(s, l, c, r).locks == StopStep(s, l, c, r).locks
    ensures StopClosing(s, l, c, r).outbox == StopStep(s, l, c, r).outbox
  {
  }

  /** An invalid message changes nothing but the replies, and not the local variables. */
  lemma InvalidSkipped(s: Session, c: ClientId, serial: nat, raw: RawWeighRequest)
    requires ValidateWeigh(raw).None?
    ensures MessageStep(s, c, serial, raw).local == s.local
    ensures MessageStep(s, c, serial, raw).service == Send(s.service, c, ErrorReply(ErrorRequestValidation))
  {
  }

  /** One message locks at most the IP of a valid start, and never changes the driver's
      table. */
  lemma MessageLocks(s: Session, c: ClientId, serial: nat, raw: RawWeighRequest)
    ensures var t := MessageStep(s, c, serial, raw).service;
      var v := ValidateWeigh(raw);
      t.locks.Keys <= s.service.locks.Keys + (if v.Some? && v.value.command == Start then {v.value.ip.compressed} else {})
      && t.driverPool == s.service.driverPool
  {
    match ValidateWeigh(raw)
    case None =>
    case Some(r) =>
      var l := s.local.(scalesIp := Some(r.ip.compressed));
      match r.command
      case Start => StartFacts(s.service, l, c, serial, r);
      case Stop => StopFacts(s.service, l, c, r);
  }

  /** Over the message loop, new locks come only from valid starts, and the driver's table
      is not touched (closing happens only at cleanup). */
  lemma {:induction false} ServeLocks(s: Session, c: ClientId, serial: nat, msgs: seq<RawWeighRequest>)
    ensures Serve(s, c, serial, msgs).service.locks.Keys <= s.service.locks.Keys + StartedIps(msgs)
    ensures Serve(s, c, serial, msgs).service.driverPool == s.service.driverPool
    decreases |msgs|
  {
    if msgs != [] {
      MessageLocks(s, c, serial, msgs[0]);
      ServeLocks(MessageStep(s, c, serial, msgs[0]), c, serial + 1, msgs[1..]);
    }
  }

  /** As written, the cleanup releases the last-named IP whoever holds it, and closes every
      connection of the driver's table once a driver is set. */
  lemma CleanupFacts(s: Session)
    ensures var ip := s.local.scalesIp;
      ip.Some? && ip.value != "" ==> ip.value !in Cleanup(s).locks
    ensures Cleanup(s).locks.Keys <= s.service.locks.Keys
    ensures s.local.driver.Some? ==> Cleanup(s).driverPool.conns == map[]
  {
  }

  /** A client whose start is refused because another client holds the scale releases that
      client's lock when it disconnects. */
  lemma CleanupReleasesForeignLock(s: Service, c: ClientId, raw: RawWeighRequest)
    requires ValidateWeigh(raw).Some?
    requires var r := ValidateWeigh(raw).value;
      r.command == Start && r.model == "tenzo_m" && r.ip.compressed != ""
      && r.ip.compressed in s.locks && s.locks[r.ip.compressed].client != c
    ensures ValidateWeigh(raw).value.ip.compressed !in HandleClient(s, c, [raw]).locks
  {
    var r := ValidateWeigh(raw).value;
    var after := MessageStep(Session(s, Fresh), c, 0, raw);
    assert after == StartStep(s, Fresh.(scalesIp := Some(r.ip.compressed)), c, 0, r);
    assert Serve(Session(s, Fresh), c, 0, [raw]) == after;
  }

  /** A client that starts two free scales in turn leaves the first one locked by its own
      task after it disconnects. */
  lemma CleanupLeaksEarlierLock(s: Service, c: ClientId, raw1: RawWeighRequest, raw2: RawWeighRequest)
    requires ValidateWeigh(raw1).Some? && ValidateWeigh(raw2).Some?
    requires var r1, r2 := ValidateWeigh(raw1).value, ValidateWeigh(raw2).value;
      r1.command == Start && r1.model == "tenzo_m" && r2.command == Start && r2.model == "tenzo_m"
      && r1.ip.compressed != r2.ip.compressed
      && r1.ip.compressed !in s.locks && r2.ip.compressed !in s.locks
    ensures var ip1 := ValidateWeigh(raw1).value.ip.compressed;
      ip1 in HandleClient(s, c, [raw1, raw2]).locks && HandleClient(s, c, [raw1, raw2]).locks[ip1].client == c
  {
    var r1, r2 := ValidateWeigh(raw1).value, ValidateWeigh(raw2).value;
    var a := MessageStep(Session(s, Fresh), c, 0, raw1);
    assert a == StartStep(s, Fresh.(scalesIp := Some(r1.ip.compressed)), c, 0, r1);
    var b := MessageStep(a, c, 1, raw2);
    assert b == StartStep(a.service, a.local.(scalesIp := Some(r2.ip.compressed)), c, 1, r2);
    assert [raw1, raw2][1..] == [raw2];
    assert Serve(a, c, 1, [raw2]) == b;
  }

  /** The intended cleanup leaves no lock held by the client's tasks and keeps every lock
      held by anyone else. */
  lemma CleanupOwnedFacts(s: Session, c: ClientId, ip: string)
    ensures ip in CleanupOwned(s, c).locks ==> CleanupOwned(s, c).locks[ip].client != c
    ensures ip in s.service.locks && s.service.locks[ip].client != c ==>
      ip in CleanupOwned(s, c).locks && CleanupOwned(s, c).locks[ip] == s.service.locks[ip]
    ensures s.local.driver.Some? ==> CleanupOwned(s, c).driverPool.conns == map[]
  {
  }

  /** The handler. `SCALE_LOCKS` is a module-level dictionary in the source, and the
      driver a module-level object; this object holds the locks and the driver's table. */
  class WeighingServer {
    var scaleLocks: map<string, PollTask>
    const driverConnections: ScaleConnectionsPool
    var outbox: seq<Sent>

    function Model(): Service
      reads this, driverConnections
    {
      Service(scaleLocks, driverConnections.State(), outbox)
    }

    constructor (driverConnections: ScaleConnectionsPool)
      ensures this.driverConnections == driverConnections
      ensures scaleLocks == map[] && outbox == []
    {
      this.driverConnections := driverConnections;
      scaleLocks := map[];
      outbox := [];
    }

    method SendMessage(c: ClientId, reply: Reply)
      modifies this
      ensures Model() == Send(old(Model()), c, reply)
    {
      outbox := outbox + [Sent(c, reply)];
    }

    /** `handler`: each message is validated and served with the local variables carried
        over, then the cleanup runs. */
    method Handler(c: ClientId, msgs: seq<RawWeighRequest>)
      modifies this, driverConnections
      ensures Model() == HandleClient(old(Model()), c, msgs)
    {
      var pollTask: Option<PollTask> := None;
      var scalesIp: Option<string> := None;
      var driver: Option<Driver> := None;
      var i := 0;
      while i < |msgs|
        invariant 0 <= i <= |msgs|
        invariant Serve(Session(old(Model()), Fresh), c, 0, msgs)
          == Serve(Session(Model(), Local(pollTask, scalesIp, driver)), c, i, msgs[i..])
      {
        assert msgs[i..][1..] == msgs[i + 1..];
        var request := ValidateWeigh(msgs[i]);
        if request.None? {
          SendMessage(c, ErrorReply(ErrorRequestValidation));
        } else {
          var r := request.value;
          var ip := r.ip.compressed;
          scalesIp := Some(ip);
          if r.command == Start {
            driver := GetDriver(r.model);
            if driver.None? {
              SendMessage(c, ErrorReply(ErrorDriverNotFound));
            } else if ip in scaleLocks {
              SendMessage(c, ErrorReply(BusyError(ip)));
            } else {
              pollTask := Some(PollTask(c, i));
              scaleLocks := scaleLocks[ip := pollTask.value];
            }
          } else if ip in scaleLocks {
            scaleLocks := scaleLocks - {ip};
            // `close_connection` receives the address object; the table is keyed by the
            // address text, so it closes nothing (`CloseConnectionAsCalled`).
            SendMessage(c, MessageReply(MessageExchangeStopped));
          }
        }
        i := i + 1;
      }
      if scalesIp.Some? && scalesIp.value != "" && scalesIp.value in scaleLocks {
        scaleLocks := scaleLocks - {scalesIp.value};
      }
      if driver.Some? {
        driverConnections.CloseAll();
      }
    }
  }
}
