/** The DICOMServer class of DICOMServer.py as a sequential state machine: its shutdown flag,
    event loop, stop future, server thread, listener and set of connected clients. Threads and
    the event loop are abstracted: each method call is one atomic transition. */
module Lifecycle {
  import opened Wrappers

  /** `self.stop_future`: not created yet, created and pending, or resolved. */
  datatype Future = NoFuture | Pending | Resolved

  /** `self.server_thread`: not created yet, running, or terminated. */
  datatype Thread = NoThread | Alive | Finished

  /** A websocket connection, by identity. */
  type Conn = nat

  datatype Server = Server(
    shuttingDown: bool,
    loop: bool,
    future: Future,
    thread: Thread,
    listening: bool,
    clients: set<Conn>)

  /** The states the transitions below can reach from `Init`: the loop and the future exist
      exactly once the thread has run, and the listener accepts exactly while the thread runs. */
  predicate Valid(s: Server) {
    && (s.thread.NoThread? <==> !s.loop)
    && (s.loop <==> !s.future.NoFuture?)
    && (s.thread.Alive? <==> s.listening)
  }

  /** The state a failed bind leaves: `main()` raised out of `serve`, so the loop stopped and the
      thread ended while the stop future was still pending. */
  predicate StartFailed(s: Server) {
    s.loop && s.future.Pending? && s.thread.Finished?
  }

  /** `__init__`. */
  function Init(): (s: Server)
    ensures s.clients == {} && !s.shuttingDown
    ensures !s.loop && s.future.NoFuture? && s.thread.NoThread? && !s.listening
    ensures Valid(s)
  {
    Server(false, false, NoFuture, NoThread, false, {})
  }

  /** `start()` up to `await self.stop_future` in `main()`: the thread runs a fresh loop and
      creates the pending future, then `serve` tries to listen on port 2025. `bound` says whether
      it succeeded; if not, `main()` raises, `run_until_complete` returns and the thread ends. */
  function Start(s: Server, bound: bool): (t: Server)
    requires s.thread.NoThread?
    ensures Valid(s) ==> Valid(t)
    ensures t.loop && t.future.Pending?
    ensures bound ==> t.thread.Alive? && t.listening
    ensures !bound ==> StartFailed(t) && !t.listening
    ensures t.clients == s.clients && t.shuttingDown == s.shuttingDown
  {
    if bound then s.(loop := true, future := Pending, thread := Alive, listening := true)
    else s.(loop := true, future := Pending, thread := Finished, listening := false)
  }

  /** `stop_websocket_server_async`: resolves the future only if it exists and is not done. */
  function StopAsync(s: Server): (t: Server)
    ensures t.future == (if s.future.Pending? then Resolved else s.future)
    ensures t == s.(future := t.future)
    ensures Valid(s) ==> Valid(t)
  {
    if s.future.Pending? then s.(future := Resolved) else s
  }

  /** The rest of `main()` once the awaited future resolves: `close()` shuts the listener and
      every open connection, and `wait_closed()` returns only after every connection handler
      has returned, each having removed itself from `clients` in its `finally`. Then the thread
      ends. While the future is unresolved, `main()` is still waiting. */
  function ServerExits(s: Server): (t: Server)
    ensures !(s.future.Resolved? && s.thread.Alive?) ==> t == s
    ensures s.future.Resolved? && s.thread.Alive? ==> !t.listening && t.thread.Finished? && t.clients == {}
    ensures t.future == s.future && t.shuttingDown == s.shuttingDown
    ensures Valid(s) ==> Valid(t)
  {
    if s.future.Resolved? && s.thread.Alive? then s.(listening := false, thread := Finished, clients := {})
    else s
  }

  /** A first `stop()` that reaches the running server's `main()`: the thread still runs and the
      future is resolved already or is pending on the live loop. */
  predicate StopsRunningServer(s: Server) {
    !s.shuttingDown && s.thread.Alive? && (s.future.Resolved? || (s.loop && s.future.Pending?))
  }

  /** Python's message for calling method `name` on `None`. */
  function NoneAttributeText(name: string): string {
    "'NoneType' object has no attribute '" + name + "'"
  }

  /** How a `stop()` call ends: it returns, it raises, or it waits forever, in `join()` or in
      `.result()` on a coroutine handed to a loop that no longer runs. */
  datatype StopOutcome =
    | Returned(server: Server)
    | Raised(error: string, server: Server)
    | Blocked(server: Server)

  /** `stop()` as written. The coroutine handed to `run_coroutine_threadsafe` runs only while the
      server thread runs the loop; otherwise `.result()` never returns. */
  function Stop(s: Server): (o: StopOutcome)
    ensures s.shuttingDown ==> o == Returned(s)
    ensures o.server.shuttingDown
    ensures StopsRunningServer(s) ==> o.Returned? && o.server.clients == {}
    ensures !StopsRunningServer(s) ==> o.server.clients == s.clients
    ensures o.server.future != s.future <==>
      !s.shuttingDown && s.loop && s.future.Pending? && s.thread.Alive?
  {
    if s.shuttingDown then Returned(s)
    else
      var s1 := s.(shuttingDown := true);
      if s1.loop && s1.future.NoFuture? then Raised(NoneAttributeText("done"), s1)
      else if s1.loop && s1.future.Pending? && !s1.thread.Alive? then Blocked(s1)
      else
        var s2 := if s1.loop && s1.future.Pending? then StopAsync(s1) else s1;
        match s2.thread
        case NoThread => Raised(NoneAttributeText("is_alive"), s2)
        case Finished => Returned(s2)
        case Alive => if s2.future.Resolved? then Returned(ServerExits(s2)) else Blocked(s2)
  }

  /** A second `stop()` changes nothing and returns, whatever the first one did. */
  lemma StopIdempotent(s: Server)
    ensures Stop(Stop(s).server) == Returned(Stop(s).server)
  {
  }

  /** From any reachable state, `stop()` leaves a reachable state. It waits forever exactly when
      the start failed to bind; on a running server it returns with the listener closed and
      the thread finished. */
  lemma StopFromRunning(s: Server)
    requires Valid(s)
    ensures Valid(Stop(s).server)
    ensures Stop(s).Blocked? <==> !s.shuttingDown && StartFailed(s)
    ensures s.thread.Alive? && !s.shuttingDown ==>
      && Stop(s).Returned? && Stop(s).server.thread.Finished? && !Stop(s).server.listening
      && Stop(s).server.clients == {}
  {
  }

  /** `stop()` raises from a reachable state only on a server that was never started. */
  lemma StopRaisesOnlyUnstarted(s: Server)
    requires Valid(s)
    ensures Stop(s).Raised? <==> !s.shuttingDown && s.thread.NoThread?
  {
  }

  /** `stop()` right after `__init__`: `self.server_thread` is still `None`, so the `is_alive()`
      call raises, after `shutting_down` is already set. */
  lemma StopUnstartedRaises()
    ensures Stop(Init()) == Raised(NoneAttributeText("is_alive"), Init().(shuttingDown := true))
  {
  }

  /** `stop()` after a start whose bind failed: the future is still pending, so the coroutine is
      scheduled on the stopped loop and `.result()` never returns. */
  lemma StopAfterFailedStartBlocks()
    ensures Stop(Start(Init(), false)) == Blocked(Start(Init(), false).(shuttingDown := true))
  {
  }

  /** `stop()` with both `None` checks in place (`self.stop_future and ...`,
      `self.server_thread and ...`) and the stop coroutine scheduled only while the loop runs,
      the case the `else` branch's message describes. */
  function StopGuarded(s: Server): (o: StopOutcome)
    ensures s.shuttingDown ==> o == Returned(s)
    ensures o.server.shuttingDown
    ensures StopsRunningServer(s) ==> o.Returned? && o.server.clients == {}
    ensures !StopsRunningServer(s) ==> o.server.clients == s.clients
    ensures s.thread != NoThread && !(s.loop && s.future.NoFuture?) && !StartFailed(s) ==> o == Stop(s)
  {
    if s.shuttingDown then Returned(s)
    else
      var s1 := s.(shuttingDown := true);
      var s2 := if s1.loop && s1.thread.Alive? && s1.future.Pending? then StopAsync(s1) else s1;
      match s2.thread
      case NoThread => Returned(s2)
      case Finished => Returned(s2)
      case Alive => if s2.future.Resolved? then Returned(ServerExits(s2)) else Blocked(s2)
  }

  /** With the guards, `stop()` always returns from a reachable state, a never-started server
      and a failed start included, and a second call is still a no-op. */
  lemma StopGuardedReturns(s: Server)
    requires Valid(s)
    ensures StopGuarded(s).Returned? && Valid(StopGuarded(s).server)
    ensures StopGuarded(StopGuarded(s).server) == Returned(StopGuarded(s).server)
    ensures StopGuarded(Init()) == Returned(Init().(shuttingDown := true))
    ensures StopGuarded(Start(Init(), false)) == Returned(Start(Init(), false).(shuttingDown := true))
  {
  }

  // ---------------------------------------------------------------- client registry

  /** `self.clients.add(websocket)` on entry to `websocket_echo`. */
  function Register(s: Server, c: Conn): (t: Server)
    ensures c in t.clients && t.clients - {c} == s.clients - {c}
    ensures t == s.(clients := t.clients)
  {
    s.(clients := s.clients + {c})
  }

  /** `self.clients.remove(websocket)` in the `finally` block; `set.remove` needs it present. */
  function Unregister(s: Server, c: Conn): (t: Server)
    requires c in s.clients
    ensures c !in t.clients && t.clients + {c} == s.clients
    ensures t == s.(clients := t.clients)
  {
    s.(clients := s.clients - {c})
  }

  /** A Python exception: its classes from the most derived up to `BaseException`, and its
      message. */
  datatype PyError = PyError(classes: seq<string>, text: string)

  /** `except C` catches an exception exactly when `C` is one of its classes. */
  predicate Catches(handler: string, e: PyError) {
    handler in e.classes
  }

  /** What `json.loads` raises on text that is not JSON. */
  function JsonDecodeError(text: string): PyError {
    PyError(["JSONDecodeError", "ValueError", "Exception", "BaseException"], text)
  }

  /** What `json.loads` raises on a binary frame whose bytes do not decode. */
  function UnicodeDecodeError(text: string): PyError {
    PyError(["UnicodeDecodeError", "UnicodeError", "ValueError", "Exception", "BaseException"], text)
  }

  /** What `json.loads` raises on JSON nested too deeply for the parser. */
  function RecursionError(text: string): PyError {
    PyError(["RecursionError", "RuntimeError", "Exception", "BaseException"], text)
  }

  /** What `json.loads(message)` did with one message: returned a value, or raised. */
  datatype Loads = Decoded | LoadError(error: PyError)

  /** `handle_json_from_client`: logs and sends nothing. The exception `json.loads` raises
      escapes unless the `except json.JSONDecodeError` clause catches it. */
  function HandleJson(m: Loads): (r: Option<PyError>)
    ensures r.None? <==> m.Decoded? || Catches("JSONDecodeError", m.error)
    ensures r.Some? ==> m.LoadError? && r.value == m.error
  {
    match m
    case Decoded => None
    case LoadError(e) => if Catches("JSONDecodeError", e) then None else Some(e)
  }

  /** Text that is not JSON is swallowed; undecodable bytes and runaway nesting escape, each of
      them an `Exception` that the connection handler catches. */
  lemma HandleJsonEscapes(text: string)
    ensures HandleJson(LoadError(JsonDecodeError(text))).None?
    ensures HandleJson(LoadError(UnicodeDecodeError(text))) == Some(UnicodeDecodeError(text))
    ensures HandleJson(LoadError(RecursionError(text))) == Some(RecursionError(text))
    ensures Catches("Exception", UnicodeDecodeError(text)) && Catches("Exception", RecursionError(text))
  {
    assert UnicodeDecodeError(text).classes[3] == "Exception";
    assert RecursionError(text).classes[2] == "Exception";
  }

  /** How many messages the `async for` handles before an exception ends it. */
  function Handled(msgs: seq<Loads>): (n: nat)
    ensures n <= |msgs|
    ensures forall i :: 0 <= i < n ==> HandleJson(msgs[i]).None?
    ensures n < |msgs| ==> HandleJson(msgs[n]).Some?
  {
    if |msgs| == 0 || HandleJson(msgs[0]).Some? then 0 else 1 + Handled(msgs[1..])
  }

  /** How a connection handler ends: the messages ran out, an `Exception` escaped the message
      handler and was logged by `except Exception`, or another exception propagated past it. */
  datatype SessionEnd = Closed | Logged(error: PyError) | Propagated(error: PyError)

  /** One run of `websocket_echo`: register, handle messages until the first escaping error,
      unregister in `finally`. Returns the server afterwards, the count handled, and how the
      handler ended. */
  function Session(s: Server, c: Conn, msgs: seq<Loads>): (out: (Server, nat, SessionEnd))
    requires c !in s.clients
    ensures out.1 == Handled(msgs)
    ensures out.2.Closed? <==> out.1 == |msgs|
    ensures !out.2.Closed? ==> HandleJson(msgs[out.1]) == Some(out.2.error)
    ensures out.2.Logged? <==> out.1 < |msgs| && Catches("Exception", HandleJson(msgs[out.1]).value)
    ensures c !in out.0.clients
  {
    var inside := Register(s, c);
    var n := Handled(msgs);
    var end :=
      if n == |msgs| then Closed
      else
        var e := HandleJson(msgs[n]).value;
        if Catches("Exception", e) then Logged(e) else Propagated(e);
    (Unregister(inside, c), n, end)
  }

  /** The connection is registered while its handler runs, and afterwards the server is
      exactly as before, whether the loop ended normally or by an error. */
  lemma SessionRestores(s: Server, c: Conn, msgs: seq<Loads>)
    requires c !in s.clients
    ensures c in Register(s, c).clients
    ensures Session(s, c, msgs).0 == s
  {
    assert Register(s, c).clients - {c} == s.clients;
  }

  /** Two connections' registrations interleave without disturbing each other: one leaving
      while another is inside leaves just the other registered. */
  lemma RegistryInterleaves(s: Server, a: Conn, b: Conn)
    requires a !in s.clients && a != b
    ensures Unregister(Register(Register(s, a), b), a) == Register(s, b)
  {
    assert (s.clients + {a} + {b}) - {a} == s.clients + {b};
  }
}
