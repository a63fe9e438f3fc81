/** The TCP connection pool of the device controller (device_controller/core/connections.py)
    and of the weighing service (weighing_service/core/connections.py). Both keep one
    class-level dictionary from (host, port) to an open stream, and their `get`, `close`
    and `close_all` are the same code; only the device controller has `device_available`.
    A stream is modelled by its writer: the reader travels with it and takes no part in
    the pool's logic.

    Whether `asyncio.open_connection` succeeds within the timeout, and whether a stored
    writer reports `is_closing()`, are decided outside the pool and arrive as parameters. */
module Connections {
  import opened Common

  /** (host, port). */
  type Endpoint = (string, int)

  /** A stream writer, told apart by an identity fixed when the connection is opened. */
  datatype Writer = Writer(id: nat)

  /** What opening a TCP connection within the timeout gives. */
  datatype OpenOutcome = Opened(writer: Writer) | OpenFailed

  /** The exception `get` re-raises when no connection could be opened. */
  datatype PoolError = ConnectFailed

  /** The pool: its dictionary, and the writers it has closed so far. */
  datatype Pool = Pool(conns: map<Endpoint, Writer>, closed: set<Writer>)

  function EmptyPool(): Pool { Pool(map[], {}) }

  /** `device_available`: the pool holds no connection for the endpoint. */
  predicate Available(p: Pool, key: Endpoint)
  {
    key !in p.conns
  }

  /** `get`: a stored writer that is not closing is handed back as it is; a closing one
      is dropped from the dictionary (without being closed) and a new connection is
      opened; a failed open re-raises. `closing` is what the stored writer reports and
      matters only when there is one. */
  function GetStep(p: Pool, key: Endpoint, closing: bool, outcome: OpenOutcome): (r: (Pool, Result<Writer, PoolError>))
    ensures r.0.closed == p.closed
    ensures r.0.conns - {key} == p.conns - {key}
    ensures r.1.Ok? <==> key in r.0.conns
    ensures r.1.Ok? ==> r.0.conns[key] == r.1.value
    ensures key in p.conns && !closing ==> r.1 == Ok(p.conns[key]) && r.0 == p
    ensures (key !in p.conns || closing) ==> (r.1.Ok? <==> outcome.Opened?)
    ensures (key !in p.conns || closing) && outcome.Opened? ==> r.1.value == outcome.writer
  {
    if key in p.conns && !closing then (p, Ok(p.conns[key]))
    else
      var evicted := p.conns - {key};
      match outcome
      case Opened(w) => (Pool(evicted[key := w], p.closed), Ok(w))
      case OpenFailed => (Pool(evicted, p.closed), Err(ConnectFailed))
  }

  /** `close`: the endpoint's writer, if there is one, leaves the dictionary and is closed. */
  function CloseStep(p: Pool, key: Endpoint): (r: Pool)
    ensures key !in r.conns && r.conns - {key} == p.conns - {key}
    ensures key in p.conns ==> r.closed == p.closed + {p.conns[key]}
    ensures key !in p.conns ==> r == p
  {
    if key in p.conns then Pool(p.conns - {key}, p.closed + {p.conns[key]}) else p
  }

  /** The writers stored under the given endpoints. */
  function WritersOf(m: map<Endpoint, Writer>, keys: set<Endpoint>): set<Writer>
  {
    set k | k in keys && k in m :: m[k]
  }

  /** `close_all`: every stored writer is closed and the dictionary is cleared. */
  function CloseAllStep(p: Pool): (r: Pool)
    ensures r.conns == map[]
    ensures forall w :: w in r.closed <==> w in p.closed || w in p.conns.Values
  {
    Pool(map[], p.closed + p.conns.Values)
  }

  // ---------------------------------------------------------------------
  // Properties.

  /** After a successful `get` the endpoint is taken, after a failed one it is free. */
  lemma GetThenAvailable(p: Pool, key: Endpoint, closing: bool, outcome: OpenOutcome)
    ensures Available(GetStep(p, key, closing, outcome).0, key)
        <==> GetStep(p, key, closing, outcome).1.Err?
  {
  }

  /** A second `get` right after a successful one, while the writer is live, returns the
      same writer and changes nothing. */
  lemma GetTwice(p: Pool, key: Endpoint, c1: bool, o1: OpenOutcome, o2: OpenOutcome)
    requires GetStep(p, key, c1, o1).1.Ok?
    ensures GetStep(GetStep(p, key, c1, o1).0, key, false, o2) == (GetStep(p, key, c1, o1).0, GetStep(p, key, c1, o1).1)
  {
  }

  /** `close` is idempotent and frees its endpoint. */
  lemma CloseIdempotent(p: Pool, key: Endpoint)
    ensures CloseStep(CloseStep(p, key), key) == CloseStep(p, key)
    ensures Available(CloseStep(p, key), key)
  {
  }

  /** Closing one endpoint leaves every other endpoint's connection where it was. */
  lemma CloseOthers(p: Pool, key: Endpoint, other: Endpoint)
    requires other != key
    ensures other in CloseStep(p, key).conns <==> other in p.conns
    ensures other in p.conns ==> CloseStep(p, key).conns[other] == p.conns[other]
  {
    assert other in p.conns - {key} <==> other in p.conns;
  }

  /** After `close_all` every endpoint is available, and every writer the pool held is closed. */
  lemma CloseAllFrees(p: Pool, key: Endpoint)
    ensures Available(CloseAllStep(p), key)
    ensures key in p.conns ==> p.conns[key] in CloseAllStep(p).closed
  {
  }

  /** Every writer stored under a set of endpoints is among the dictionary's values. */
  lemma WritersOfAll(m: map<Endpoint, Writer>)
    ensures WritersOf(m, m.Keys) == m.Values
  {
    forall w | w in m.Values
      ensures w in WritersOf(m, m.Keys)
    {
      var k :| k in m && m[k] == w;
    }
  }

  /** The pool object. In the source the dictionary is a class attribute shared by every
      instance; here the one object stands for it. */
  class ScaleConnectionsPool {
    var connections: map<Endpoint, Writer>
    var closed: set<Writer>

    function State(): Pool
      reads this
    {
      Pool(connections, closed)
    }

    constructor ()
      ensures State() == EmptyPool()
    {
      connections := map[];
      closed := {};
    }

    /** `device_available` (device controller only). */
    method DeviceAvailable(host: string, port: int) returns (r: bool)
      ensures r <==> Available(State(), (host, port))
    {
      r := (host, port) !in connections;
    }

    /** `get`. */
    method Get(host: string, port: int, closing: bool, outcome: OpenOutcome) returns (r: Result<Writer, PoolError>)
      modifies this
      ensures State() == GetStep(old(State()), (host, port), closing, outcome).0
      ensures r == GetStep(old(State()), (host, port), closing, outcome).1
    {
      var key := (host, port);
      if key in connections && !closing {
        r := Ok(connections[key]);
      } else {
        if key in connections {
          connections := connections - {key};
        }
        match outcome
        case Opened(w) =>
          connections := connections[key := w];
          r := Ok(w);
        case OpenFailed =>
          r := Err(ConnectFailed);
      }
    }

    /** `close`. */
    method Close(host: string, port: int)
      modifies this
      ensures State() == CloseStep(old(State()), (host, port))
    {
      var key := (host, port);
      if key in connections {
        var writer := connections[key];
        connections := connections - {key};
        closed := closed + {writer};
      }
    }

    /** `close_all`: each writer is closed in turn, then the dictionary is cleared. */
    method CloseAll()
      modifies this
      ensures State() == CloseAllStep(old(State()))
    {
      var pending := connections.Keys;
      ghost var done: set<Endpoint> := {};
      while pending != {}
        invariant connections == old(connections)
        invariant pending + done == connections.Keys && pending !! done
        invariant closed == old(closed) + WritersOf(connections, done)
        decreases pending
      {
        var key :| key in pending;
        closed := closed + {connections[key]};
        pending := pending - {key};
        done := done + {key};
      }
      WritersOfAll(connections);
      connections := map[];
    }
  }
}
