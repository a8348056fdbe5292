/** Resource accounting of the Gamespy TCP listener: the admission semaphore,
    the accept-args pool, the read/write-args pool bound to the buffer arena,
    and the streams handed to the protocol layer. Every asynchronous
    completion is one atomic step of a state machine; the point is the
    conservation of permits and read/write args, not the interleavings. */
module TcpSocket {
  import opened Common

  /** Accept args created up front. */
  const ConcurrentAcceptPoolSize: nat := 4

  /** Bytes of arena assigned to each read/write arg. */
  const BufferSizePerEventArg: int := 256

  /** Largest connection bound whose read/write-arg count `2 * M` fits in an `int`. */
  const MaxPooledConnections: int := 0x3FFF_FFFF

  /** Largest connection bound whose arena size `256 * M * 2` fits in an `int`. */
  const MaxArenaConnections: int := 0x3F_FFFF

  /** An accept event-args object: its identity and the socket it carries, if any. */
  datatype AcceptArg = AcceptArg(id: nat, socket: Option<nat>)

  /** A connection handed to the protocol layer: its socket and the read and
      write args (identified by number) it holds. */
  datatype Stream = Stream(socket: nat, readArg: nat, writeArg: nat)

  /** Exceptions that escape a step. */
  datatype Fault =
    | InvalidMaxConnections  // the semaphore refuses a maximum count <= 0
    | SemaphoreFull          // a release beyond the semaphore's maximum count
    | SemaphoreDisposed      // a release on the disposed semaphore
    | PoolExhausted          // a pop from an empty read/write pool
    | EventArgsDisposed      // a stream whose args were disposed is released

  datatype Listener = Listener(
    maxConnections: int,
    arenaSize: int,
    permits: int,                 // free count of the admission semaphore
    acceptPool: seq<AcceptArg>,   // a stack: push appends, pop takes the last
    rwPool: seq<nat>,             // a stack of read/write args
    waiting: seq<AcceptArg>,      // accepts suspended waiting for a permit
    accepting: seq<AcceptArg>,    // accepts in flight, each holding a permit
    active: seq<Stream>,          // streams handed off and not yet released
    openSockets: set<nat>,        // accepted sockets not yet closed
    nextAcceptId: nat,            // identity for the next freshly created accept arg
    nextSocket: nat,              // identity for the next accepted socket
    rwCreated: nat,               // read/write args created by the constructor
    isListening: bool,
    ignoreNewConnections: bool,
    isDisposed: bool)

  /** The state after a step, and the exception the step raised, if any. */
  datatype Effect = Effect(next: Listener, raised: Option<Fault>)

  /** The read/write args held by a sequence of streams. */
  function HeldArgs(streams: seq<Stream>): seq<nat> {
    if |streams| == 0 then []
    else HeldArgs(streams[..|streams| - 1]) + [streams[|streams| - 1].readArg, streams[|streams| - 1].writeArg]
  }

  function Range(n: nat): (r: seq<nat>)
    ensures |r| == n && forall i :: 0 <= i < n ==> r[i] == i
  {
    seq(n, i requires 0 <= i < n => i)
  }

  function RemoveAt<T>(s: seq<T>, i: nat): (r: seq<T>)
    requires i < |s|
    ensures |r| == |s| - 1
    ensures multiset(r) + multiset{s[i]} == multiset(s)
  {
    assert s == s[..i] + [s[i]] + s[i + 1..];
    s[..i] + s[i + 1..]
  }

  /** A sequence is the part before `i`, the element at `i`, and the part after it. */
  lemma SplitAt<T>(s: seq<T>, i: nat)
    requires i < |s|
    ensures s == (s[..i] + [s[i]]) + s[i + 1..]
    ensures RemoveAt(s, i) == s[..i] + s[i + 1..]
  {
  }

  /** Permits the semaphore still accounts for: free ones plus those held by
      in-flight accepts and by active streams. */
  function PermitAccount(s: Listener): int {
    s.permits + |s.accepting| + |s.active|
  }

  /** All accept args currently owned by the listener. */
  function CirculatingAcceptArgs(s: Listener): seq<AcceptArg> {
    s.acceptPool + s.waiting + s.accepting
  }

  predicate Live(s: Listener) {
    s.isListening && !s.isDisposed
  }

  /** An accept arg `AcceptAsync` can take: its AcceptSocket was cleared. */
  predicate Reusable(a: AcceptArg) {
    a.socket.None?
  }

  /** Every circulating accept arg can be reused. */
  predicate CleanArgs(s: Listener) {
    forall a :: a in CirculatingAcceptArgs(s) ==> Reusable(a)
  }

  /** Starting an accept with a free permit pops an arg that still holds the
      closed socket of a rejected connection: `AcceptAsync` refuses it. */
  predicate ArmFails(s: Listener) {
    s.permits > 0 && |s.acceptPool| > 0 && !Reusable(s.acceptPool[|s.acceptPool| - 1])
  }

  // ---------------------------------------------------------------------
  // Construction

  /** The constructor: the semaphore starts full, four accept args without
      buffers, `2 * M` read/write args with 256-byte windows of an arena of
      `256 * M * 2` bytes (both products are C# `int` arithmetic). */
  function Construct(maxConnections: int): (r: Result<Listener, Fault>)
    requires IsInt32(maxConnections)
    ensures r.Failure? <==> maxConnections <= 0
    ensures r.Success? ==>
      && r.value.permits == maxConnections
      && |r.value.acceptPool| == ConcurrentAcceptPoolSize
      && (forall a :: a in r.value.acceptPool ==> a.socket.None?)
      && r.value.waiting == [] && r.value.accepting == [] && r.value.active == []
      && r.value.isListening && !r.value.ignoreNewConnections && !r.value.isDisposed
    ensures r.Success? && maxConnections <= MaxPooledConnections ==>
      |r.value.rwPool| == 2 * maxConnections
    ensures r.Success? && maxConnections <= MaxArenaConnections ==>
      r.value.arenaSize == BufferSizePerEventArg * maxConnections * 2
  {
    if maxConnections <= 0 then Failure(InvalidMaxConnections)
    else
      var rwCount := Wrap32(maxConnections * 2);
      var created: nat := if rwCount > 0 then rwCount else 0;
      var arena := Wrap32(Wrap32(BufferSizePerEventArg * maxConnections) * 2);
      Success(Listener(
        maxConnections, arena, maxConnections,
        seq(ConcurrentAcceptPoolSize, i requires 0 <= i < ConcurrentAcceptPoolSize => AcceptArg(i, None)),
        Range(created), [], [], [], {},
        ConcurrentAcceptPoolSize, 0, created,
        true, false, false))
  }

  // ---------------------------------------------------------------------
  // Steps

  /** Takes an accept arg: the top of the pool when there is one, otherwise a
      freshly created arg. */
  function ObtainAcceptArg(s: Listener): (r: (AcceptArg, Listener))
    ensures |s.acceptPool| > 0 ==>
      r.0 == s.acceptPool[|s.acceptPool| - 1] && r.1 == s.(acceptPool := s.acceptPool[..|s.acceptPool| - 1])
    ensures |s.acceptPool| == 0 ==>
      r.0 == AcceptArg(s.nextAcceptId, None) && r.1 == s.(nextAcceptId := s.nextAcceptId + 1)
  {
    if |s.acceptPool| > 0 then
      (s.acceptPool[|s.acceptPool| - 1], s.(acceptPool := s.acceptPool[..|s.acceptPool| - 1]))
    else
      (AcceptArg(s.nextAcceptId, None), s.(nextAcceptId := s.nextAcceptId + 1))
  }

  /** Starts `AcceptAsync` with a permit already taken. On a closed listener
      the call throws, and it also throws for an arg whose AcceptSocket is
      still set (the closed socket of a rejected connection). Either
      exception is caught and logged, and both the arg and the permit are lost. */
  function BeginAccept(s: Listener, arg: AcceptArg): (r: Listener)
    ensures r == s.(accepting := r.accepting)
    ensures s.isListening && Reusable(arg) ==> r.accepting == s.accepting + [arg]
    ensures !s.isListening || !Reusable(arg) ==> r == s
  {
    if s.isListening && Reusable(arg) then s.(accepting := s.accepting + [arg]) else s
  }

  /** Waits for a permit with an obtained arg: proceeds at once when one is
      free, suspends otherwise; on the disposed semaphore the wait throws, the
      exception is swallowed and the arg is lost. */
  function AwaitPermit(s: Listener, arg: AcceptArg): (r: Listener)
    ensures r == s.(accepting := r.accepting, waiting := r.waiting, permits := r.permits)
    ensures !s.isDisposed && s.permits == 0 ==> r.waiting == s.waiting + [arg] && r.permits == 0
    ensures !s.isDisposed && s.permits > 0 ==> r.waiting == s.waiting && r.permits == s.permits - 1
    ensures s.isDisposed ==> r == s
  {
    if s.isDisposed then s
    else if s.permits == 0 then s.(waiting := s.waiting + [arg])
    else BeginAccept(s.(permits := s.permits - 1), arg)
  }

  /** `StartAcceptAsync`: obtain an accept arg, then wait for a permit. Only
      the accept-side fields change, and the semaphore's account never grows. */
  function StartAccept(s: Listener): (r: Listener)
    ensures r == s.(acceptPool := r.acceptPool, nextAcceptId := r.nextAcceptId,
                    waiting := r.waiting, accepting := r.accepting, permits := r.permits)
    ensures s.permits >= 0 ==> r.permits >= 0
    ensures PermitAccount(r) <= PermitAccount(s)
    ensures Live(s) && s.permits >= 0 ==> PermitAccount(r) == PermitAccount(s) - (if ArmFails(s) then 1 else 0)
    ensures Live(s) && s.permits >= 0 ==>
      |CirculatingAcceptArgs(r)| ==
        |CirculatingAcceptArgs(s)| + (if |s.acceptPool| == 0 then 1 else 0) - (if ArmFails(s) then 1 else 0)
    ensures Live(s) && CleanArgs(s) ==> CleanArgs(r)
  {
    var (arg, s1) := ObtainAcceptArg(s);
    AwaitPermit(s1, arg)
  }

  /** `SemaphoreSlim.Release`: it throws on the disposed semaphore and when
      the free count is already at the maximum; otherwise the permit goes
      straight to the oldest suspended accept, which then starts accepting
      (or loses the permit, as `BeginAccept` says), and only when no accept
      waits does the free count grow. */
  function ReleasePermit(s: Listener): (e: Effect)
    ensures e.raised.None? <==> !s.isDisposed && s.permits < s.maxConnections
    ensures e.raised.Some? ==> e.next == s
    ensures s.isDisposed ==> e.raised == Some(SemaphoreDisposed)
    ensures e.next == s.(waiting := e.next.waiting, accepting := e.next.accepting, permits := e.next.permits)
  {
    if s.isDisposed then Effect(s, Some(SemaphoreDisposed))
    else if s.permits >= s.maxConnections then Effect(s, Some(SemaphoreFull))
    else if |s.waiting| > 0 then Effect(BeginAccept(s.(waiting := s.waiting[1..]), s.waiting[0]), None)
    else Effect(s.(permits := s.permits + 1), None)
  }

  /** Where a released permit goes: to the free count when no accept waits;
      otherwise to the oldest waiting accept, which leaves the queue and, on a
      listening socket and with a reusable arg, starts accepting (otherwise its
      `AcceptAsync` throws and the permit is lost with it). Nothing else changes. */
  lemma ReleaseHandsOver(s: Listener)
    requires !s.isDisposed && s.permits < s.maxConnections
    ensures var e := ReleasePermit(s);
      && e.raised.None?
      && (|s.waiting| == 0 ==> e.next == s.(permits := s.permits + 1))
      && (|s.waiting| > 0 ==>
            && e.next.permits == s.permits
            && e.next.waiting == s.waiting[1..]
            && e.next.accepting ==
                 (if s.isListening && Reusable(s.waiting[0]) then s.accepting + [s.waiting[0]] else s.accepting)
            && e.next == s.(waiting := e.next.waiting, accepting := e.next.accepting))
  {
  }

  /** `PrepareAccept` for the in-flight accept at `index`, which completed with
      `success`; its new socket is `nextSocket`. */
  function CompleteAccept(s: Listener, index: nat, success: bool, handoffOk: bool): (e: Effect)
    requires index < |s.accepting|
    ensures s.ignoreNewConnections || !success ==> e.raised.None?
    ensures !s.ignoreNewConnections && success ==> (e.raised == Some(PoolExhausted) <==> |s.rwPool| < 2)
    ensures e.next.isListening == s.isListening && e.next.isDisposed == s.isDisposed
  {
    var s0 := Detach(s, index);
    if s.ignoreNewConnections || !success then Effect(RejectAccept(s0, s.accepting[index], s.nextSocket), None)
    else AcceptSucceeded(s0, s.accepting[index], s.nextSocket, handoffOk)
  }

  /** The completed accept leaves `accepting`, and its socket takes the next identity. */
  function Detach(s: Listener, index: nat): (r: Listener)
    requires index < |s.accepting|
    ensures r == s.(accepting := r.accepting, nextSocket := s.nextSocket + 1)
    ensures |r.accepting| == |s.accepting| - 1
  {
    s.(accepting := RemoveAt(s.accepting, index), nextSocket := s.nextSocket + 1)
  }

  /** The reject branch (ignoring new connections, or a socket error): close
      the socket, push the arg back with the closed socket still attached, and
      start accepting again. The permit this accept was admitted with is not
      given back, and the accept restarted pops that same arg: with a permit
      free it is refused at once, otherwise it waits and is refused when a
      permit reaches it. */
  function RejectAccept(s: Listener, arg: AcceptArg, socket: nat): (r: Listener)
    ensures r.rwPool == s.rwPool && r.active == s.active && r.openSockets == s.openSockets
    ensures Live(s) ==> r.acceptPool == s.acceptPool && r.accepting == s.accepting
    ensures Live(s) && s.permits != 0 ==> r.waiting == s.waiting && r.permits == s.permits - 1
    ensures Live(s) && s.permits == 0 ==> r.waiting == s.waiting + [arg.(socket := Some(socket))] && r.permits == 0
    ensures Live(s) ==>
      |CirculatingAcceptArgs(r)| == |CirculatingAcceptArgs(s)| + (if s.permits != 0 then 0 else 1)
  {
    StartAccept(s.(acceptPool := s.acceptPool + [arg.(socket := Some(socket))]))
  }

  /** The success branch: arm the next accept first, then hand the connection off. */
  function AcceptSucceeded(s: Listener, arg: AcceptArg, socket: nat, handoffOk: bool): (e: Effect)
    ensures e.raised == Some(PoolExhausted) <==> |s.rwPool| < 2
    ensures |s.rwPool| >= 2 ==> (socket in e.next.openSockets <==> handoffOk)
  {
    HandOff(StartAccept(s), arg, socket, handoffOk)
  }

  /** Pop a read and then a write arg, move the socket from the accept arg to
      them, push the cleared accept arg back, and hand the stream off. A failed
      hand-off closes the socket, pushes both args back and releases the permit. */
  function HandOff(s: Listener, arg: AcceptArg, socket: nat, handoffOk: bool): (e: Effect)
    ensures e.raised == Some(PoolExhausted) <==> |s.rwPool| < 2
    ensures |s.rwPool| >= 2 ==> e.next.acceptPool == s.acceptPool + [arg.(socket := None)]
    ensures |s.rwPool| >= 2 ==> (socket in e.next.openSockets <==> handoffOk)
    ensures |s.rwPool| >= 2 && handoffOk ==>
      e.next.active == s.active + [Stream(socket, s.rwPool[|s.rwPool| - 1], s.rwPool[|s.rwPool| - 2])]
    ensures |s.rwPool| >= 2 && !handoffOk ==>
      e.next.active == s.active && multiset(e.next.rwPool) == multiset(s.rwPool)
  {
    var n := |s.rwPool|;
    if n < 2 then Effect(s, Some(PoolExhausted))
    else
      var readArg := s.rwPool[n - 1];
      var writeArg := s.rwPool[n - 2];
      var s2 := s.(rwPool := s.rwPool[..n - 2],
                   acceptPool := s.acceptPool + [arg.(socket := None)],
                   openSockets := s.openSockets + {socket});
      if handoffOk then
        Effect(s2.(active := s2.active + [Stream(socket, readArg, writeArg)]), None)
      else
        SwapTopTwo(s.rwPool);
        ReleasePermit(s2.(openSockets := s2.openSockets - {socket},
                          rwPool := s2.rwPool + [readArg, writeArg]))
  }

  /** `Release` of the active stream at `index`: close its socket; if its args
      were disposed, throw; otherwise push its read and write args back and
      release one permit. */
  function Release(s: Listener, index: nat, argsDisposed: bool): (e: Effect)
    requires index < |s.active|
    ensures s.active[index].socket !in e.next.openSockets
    ensures argsDisposed ==> e.raised == Some(EventArgsDisposed) && e.next.active == s.active && e.next.rwPool == s.rwPool
    ensures !argsDisposed ==>
      && e.next.rwPool == s.rwPool + [s.active[index].readArg, s.active[index].writeArg]
      && e.next.active == RemoveAt(s.active, index)
    ensures !argsDisposed && !s.isDisposed && s.permits < s.maxConnections ==> e.raised.None?
    ensures !argsDisposed && Live(s) && CleanArgs(s) && s.permits < s.maxConnections ==>
      PermitAccount(e.next) == PermitAccount(s)
  {
    var stream := s.active[index];
    var s0 := s.(openSockets := s.openSockets - {stream.socket});
    if argsDisposed then Effect(s0, Some(EventArgsDisposed))
    else ReleasePermit(s0.(rwPool := s0.rwPool + [stream.readArg, stream.writeArg],
                           active := RemoveAt(s0.active, index)))
  }

  /** `ShutdownSocket`: stop listening, once. */
  function Shutdown(s: Listener): (r: Listener)
    ensures !r.isListening
    ensures r == s.(isListening := false)
  {
    if !s.isListening then s else s.(isListening := false)
  }

  /** `Dispose`: once only; shuts the listener down and disposes every pooled
      arg; the semaphore is disposed with it. */
  function Dispose(s: Listener): (r: Listener)
    ensures !s.isDisposed ==> r.isDisposed && !r.isListening && r.acceptPool == [] && r.rwPool == []
    ensures !s.isDisposed ==> r == s.(isDisposed := true, isListening := false, acceptPool := [], rwPool := [])
    ensures s.isDisposed ==> r == s
  {
    if s.isDisposed then s
    else
      var s1 := s.(isDisposed := true);
      var s2 := if s1.isListening then Shutdown(s1) else s1;
      s2.(acceptPool := [], rwPool := [])
  }

  // ---------------------------------------------------------------------
  // The machine

  datatype Event =
    | StartAcceptEvent
    | CompleteEvent(index: nat, success: bool, handoffOk: bool)
    | ReleaseEvent(index: nat, argsDisposed: bool)
    | SetIgnoreNewConnections(ignore: bool)
    | ShutdownEvent
    | DisposeEvent

  predicate Enabled(s: Listener, e: Event) {
    match e
    case CompleteEvent(i, _, _) => i < |s.accepting|
    case ReleaseEvent(i, _) => i < |s.active|
    case _ => true
  }

  function Next(s: Listener, e: Event): (r: Effect)
    requires Enabled(s, e)
    ensures r.raised.Some? ==> e.CompleteEvent? || e.ReleaseEvent?
    ensures e.CompleteEvent? && (s.ignoreNewConnections || !e.success) ==> r.raised.None?
  {
    match e
    case StartAcceptEvent => Effect(StartAccept(s), None)
    case CompleteEvent(i, success, handoffOk) => CompleteAccept(s, i, success, handoffOk)
    case ReleaseEvent(i, argsDisposed) => Release(s, i, argsDisposed)
    case SetIgnoreNewConnections(ignore) => Effect(s.(ignoreNewConnections := ignore), None)
    case ShutdownEvent => Effect(Shutdown(s), None)
    case DisposeEvent => Effect(Dispose(s), None)
  }

  /** Runs a sequence of events, skipping those not enabled; exceptions raised
      by a step propagate to its caller and do not stop the listener. */
  function Run(s: Listener, events: seq<Event>): Listener
    decreases |events|
  {
    if |events| == 0 then s
    else
      var s' := if Enabled(s, events[0]) then Next(s, events[0]).next else s;
      Run(s', events[1..])
  }

  // ---------------------------------------------------------------------
  // Invariant

  /** The accounting invariant: the semaphore never has more permits out than
      the bound allows, and while the listener is not disposed every read/write
      arg the constructor created is either in the pool or held by exactly one
      active stream. */
  predicate Inv(s: Listener) {
    && 0 < s.maxConnections <= MaxPooledConnections
    && s.rwCreated == 2 * s.maxConnections
    && 0 <= s.permits
    && PermitAccount(s) <= s.maxConnections
    && (s.isDisposed ==> !s.isListening)
    && (!s.isDisposed ==> multiset(s.rwPool) + multiset(HeldArgs(s.active)) == multiset(Range(s.rwCreated)))
  }

  lemma {:induction false} HeldArgsLength(streams: seq<Stream>)
    ensures |HeldArgs(streams)| == 2 * |streams|
  {
    if |streams| > 0 {
      HeldArgsLength(streams[..|streams| - 1]);
    }
  }

  lemma {:induction false} HeldArgsAppend(a: seq<Stream>, b: seq<Stream>)
    ensures HeldArgs(a + b) == HeldArgs(a) + HeldArgs(b)
    decreases |b|
  {
    if |b| > 0 {
      var b' := b[..|b| - 1];
      assert (a + b)[..|a + b| - 1] == a + b';
      HeldArgsAppend(a, b');
    } else {
      assert a + b == a;
    }
  }

  lemma HeldArgsRemove(streams: seq<Stream>, i: nat)
    requires i < |streams|
    ensures multiset(HeldArgs(streams)) ==
      multiset(HeldArgs(RemoveAt(streams, i))) + multiset{streams[i].readArg, streams[i].writeArg}
  {
    var pre := streams[..i];
    var x := streams[i];
    var post := streams[i + 1..];
    SplitAt(streams, i);
    HeldArgsAppend(pre + [x], post);
    HeldArgsAppend(pre, [x]);
    HeldArgsAppend(pre, post);
    assert HeldArgs([x]) == [x.readArg, x.writeArg] by {
      assert [x][..0] == [];
    }
    var a := HeldArgs(pre);
    var b := HeldArgs(post);
    assert HeldArgs(streams) == (a + [x.readArg, x.writeArg]) + b;
    assert HeldArgs(RemoveAt(streams, i)) == a + b;
  }

  lemma {:induction false} PoolSize(s: Listener)
    requires Inv(s) && !s.isDisposed
    ensures |s.rwPool| + 2 * |s.active| == 2 * s.maxConnections
  {
    HeldArgsLength(s.active);
    assert |multiset(s.rwPool) + multiset(HeldArgs(s.active))| == |multiset(Range(s.rwCreated))|;
  }

  /** The constructor establishes the invariant. */
  lemma ConstructEstablishes(maxConnections: int)
    requires 0 < maxConnections <= MaxPooledConnections
    ensures Construct(maxConnections).Success? && Inv(Construct(maxConnections).value)
  {
    var s := Construct(maxConnections).value;
    assert HeldArgs(s.active) == [];
  }

  /** A release with room in the account keeps the invariant: the permit
      goes to the oldest waiting accept or back to the free count. */
  lemma ReleasePermitKeeps(s: Listener)
    requires Inv(s) && PermitAccount(s) < s.maxConnections
    ensures Inv(ReleasePermit(s).next)
    ensures ReleasePermit(s).raised != Some(SemaphoreFull)
    ensures !s.isDisposed ==> ReleasePermit(s).raised.None?
    ensures Live(s) && CleanArgs(s) ==> PermitAccount(ReleasePermit(s).next) == PermitAccount(s) + 1
    ensures PermitAccount(ReleasePermit(s).next) <= PermitAccount(s) + 1
    ensures ReleasePermit(s).next.rwPool == s.rwPool && ReleasePermit(s).next.active == s.active
    ensures CleanArgs(s) ==> CleanArgs(ReleasePermit(s).next)
    ensures Live(s) && CleanArgs(s) ==>
      |CirculatingAcceptArgs(ReleasePermit(s).next)| == |CirculatingAcceptArgs(s)|
  {
    if |s.waiting| > 0 {
      assert s.waiting[0] in CirculatingAcceptArgs(s);
    }
  }

  lemma StartAcceptKeeps(s: Listener)
    requires Inv(s)
    ensures Inv(StartAccept(s))
  {
  }

  /** The accept being completed is out of `accepting`, so the account has room for it. */
  lemma DetachKeeps(s: Listener, i: nat)
    requires Inv(s) && i < |s.accepting|
    ensures Inv(Detach(s, i)) && PermitAccount(Detach(s, i)) == PermitAccount(s) - 1
  {
  }

  lemma HandOffOkKeeps(s: Listener, arg: AcceptArg, socket: nat)
    requires Inv(s) && PermitAccount(s) < s.maxConnections && |s.rwPool| >= 2
    ensures Inv(HandOff(s, arg, socket, true).next)
    ensures HandOff(s, arg, socket, true).raised.None?
    ensures PermitAccount(HandOff(s, arg, socket, true).next) == PermitAccount(s) + 1
    ensures CleanArgs(s) ==> CleanArgs(HandOff(s, arg, socket, true).next)
    ensures |CirculatingAcceptArgs(HandOff(s, arg, socket, true).next)| == |CirculatingAcceptArgs(s)| + 1
  {
    HandOffOkIsHandedOff(s, arg, socket);
    var next := HandedOff(s, arg, socket);
    PushedClean(s, next, arg);
    assert PermitAccount(next) == PermitAccount(s) + 1;
    PopTwoKeepsArgs(s.rwPool, s.active, socket);
    InvFromParts(s, next);
  }

  /** The listener after a successful hand-off: the top two read/write args
      form a new stream on the new, open socket, and the accept arg is back. */
  function HandedOff(s: Listener, arg: AcceptArg, socket: nat): Listener
    requires |s.rwPool| >= 2
  {
    var n := |s.rwPool|;
    s.(rwPool := s.rwPool[..n - 2], acceptPool := s.acceptPool + [arg.(socket := None)],
       openSockets := s.openSockets + {socket},
       active := s.active + [Stream(socket, s.rwPool[n - 1], s.rwPool[n - 2])])
  }

  lemma HandOffOkIsHandedOff(s: Listener, arg: AcceptArg, socket: nat)
    requires |s.rwPool| >= 2
    ensures HandOff(s, arg, socket, true) == Effect(HandedOff(s, arg, socket), None)
  {
  }

  /** Pushing a cleared accept arg onto the pool, with the waiting and
      in-flight accepts unchanged, adds one reusable arg. */
  lemma PushedClean(s: Listener, t: Listener, arg: AcceptArg)
    requires t.acceptPool == s.acceptPool + [arg.(socket := None)]
    requires t.waiting == s.waiting && t.accepting == s.accepting
    ensures CleanArgs(s) ==> CleanArgs(t)
    ensures |CirculatingAcceptArgs(t)| == |CirculatingAcceptArgs(s)| + 1
  {
    assert CirculatingAcceptArgs(t) == s.acceptPool + [arg.(socket := None)] + s.waiting + s.accepting;
  }

  /** The invariant carries over to a state with the same bounds, flags and
      permits, no larger account, and the same args overall. */
  lemma InvFromParts(s: Listener, t: Listener)
    requires Inv(s)
    requires t.maxConnections == s.maxConnections && t.rwCreated == s.rwCreated && t.permits == s.permits
    requires t.isDisposed == s.isDisposed && t.isListening == s.isListening
    requires PermitAccount(t) <= s.maxConnections
    requires !s.isDisposed ==>
      multiset(t.rwPool) + multiset(HeldArgs(t.active)) == multiset(s.rwPool) + multiset(HeldArgs(s.active))
    ensures Inv(t)
  {
  }

  /** Swapping the top two pooled args keeps the pool's contents. */
  lemma SwapTopTwo(pool: seq<nat>)
    requires |pool| >= 2
    ensures var n := |pool|; multiset(pool[..n - 2] + [pool[n - 1], pool[n - 2]]) == multiset(pool)
  {
    var n := |pool|;
    assert pool == pool[..n - 2] + [pool[n - 2], pool[n - 1]];
  }

  /** Moving the top two pooled args into a new stream keeps the args overall. */
  lemma PopTwoKeepsArgs(pool: seq<nat>, active: seq<Stream>, socket: nat)
    requires |pool| >= 2
    ensures var n := |pool|;
      multiset(pool[..n - 2]) + multiset(HeldArgs(active + [Stream(socket, pool[n - 1], pool[n - 2])]))
        == multiset(pool) + multiset(HeldArgs(active))
  {
    var n := |pool|;
    var st := Stream(socket, pool[n - 1], pool[n - 2]);
    assert pool == pool[..n - 2] + [pool[n - 2], pool[n - 1]];
    HeldArgsAppend(active, [st]);
    assert HeldArgs([st]) == [pool[n - 1], pool[n - 2]];
  }

  lemma HandOffFailedKeeps(s: Listener, arg: AcceptArg, socket: nat)
    requires Inv(s) && PermitAccount(s) < s.maxConnections && |s.rwPool| >= 2
    ensures Inv(HandOff(s, arg, socket, false).next)
    ensures HandOff(s, arg, socket, false).raised != Some(SemaphoreFull)
    ensures !s.isDisposed ==> HandOff(s, arg, socket, false).raised.None?
    ensures Live(s) && CleanArgs(s) ==> PermitAccount(HandOff(s, arg, socket, false).next) == PermitAccount(s) + 1
    ensures CleanArgs(s) ==> CleanArgs(HandOff(s, arg, socket, false).next)
    ensures Live(s) && CleanArgs(s) ==>
      |CirculatingAcceptArgs(HandOff(s, arg, socket, false).next)| == |CirculatingAcceptArgs(s)| + 1
    ensures PermitAccount(HandOff(s, arg, socket, false).next) <= PermitAccount(s) + 1
    ensures multiset(HandOff(s, arg, socket, false).next.rwPool) == multiset(s.rwPool)
    ensures HandOff(s, arg, socket, false).next.active == s.active
    ensures socket !in HandOff(s, arg, socket, false).next.openSockets
  {
    var n := |s.rwPool|;
    var rest := s.rwPool[..n - 2];
    var mid := s.(rwPool := rest + [s.rwPool[n - 1], s.rwPool[n - 2]],
                  acceptPool := s.acceptPool + [arg.(socket := None)],
                  openSockets := s.openSockets + {socket} - {socket});
    assert HandOff(s, arg, socket, false) == ReleasePermit(mid);
    SwapTopTwo(s.rwPool);
    PushedClean(s, mid, arg);
    ReleasePermitKeeps(mid);
  }

  lemma AcceptSucceededKeeps(s: Listener, arg: AcceptArg, socket: nat, handoffOk: bool)
    requires Inv(s) && PermitAccount(s) < s.maxConnections
    ensures Inv(AcceptSucceeded(s, arg, socket, handoffOk).next)
    ensures AcceptSucceeded(s, arg, socket, handoffOk).raised != Some(SemaphoreFull)
    ensures !s.isDisposed ==> AcceptSucceeded(s, arg, socket, handoffOk).raised.None?
    ensures Live(s) && CleanArgs(s) ==> PermitAccount(AcceptSucceeded(s, arg, socket, handoffOk).next) == PermitAccount(s) + 1
    ensures PermitAccount(AcceptSucceeded(s, arg, socket, handoffOk).next) <= PermitAccount(s) + 1
    ensures AcceptSucceeded(s, arg, socket, handoffOk).next.maxConnections == s.maxConnections
  {
    var s1 := StartAccept(s);
    StartAcceptKeeps(s);
    if !s.isDisposed {
      PoolSize(s1);
    }
    assert AcceptSucceeded(s, arg, socket, handoffOk) == HandOff(s1, arg, socket, handoffOk);
    if |s1.rwPool| >= 2 {
      if handoffOk {
        HandOffOkKeeps(s1, arg, socket);
      } else {
        HandOffFailedKeeps(s1, arg, socket);
      }
    }
  }

  /** The success branch returns its arg cleared, so reusable args stay
      reusable, and while live no arg is lost. */
  lemma AcceptSucceededArgs(s: Listener, arg: AcceptArg, socket: nat, handoffOk: bool)
    requires Inv(s) && PermitAccount(s) < s.maxConnections && !s.isDisposed && CleanArgs(s)
    ensures CleanArgs(AcceptSucceeded(s, arg, socket, handoffOk).next)
    ensures Live(s) ==>
      |CirculatingAcceptArgs(AcceptSucceeded(s, arg, socket, handoffOk).next)| >= |CirculatingAcceptArgs(s)| + 1
  {
    var s1 := StartAccept(s);
    StartAcceptKeeps(s);
    PoolSize(s1);
    assert AcceptSucceeded(s, arg, socket, handoffOk) == HandOff(s1, arg, socket, handoffOk);
    if handoffOk {
      HandOffOkKeeps(s1, arg, socket);
    } else {
      HandOffFailedKeeps(s1, arg, socket);
    }
  }

  /** The success branch leaves the listener's flags alone. */
  lemma AcceptSucceededFlags(s: Listener, arg: AcceptArg, socket: nat, handoffOk: bool)
    ensures var t := AcceptSucceeded(s, arg, socket, handoffOk).next;
      t.isListening == s.isListening && t.isDisposed == s.isDisposed
      && t.ignoreNewConnections == s.ignoreNewConnections
  {
    var s1 := StartAccept(s);
    assert AcceptSucceeded(s, arg, socket, handoffOk) == HandOff(s1, arg, socket, handoffOk);
  }

  lemma RejectAcceptKeeps(s: Listener, arg: AcceptArg, socket: nat)
    requires Inv(s)
    ensures Inv(RejectAccept(s, arg, socket))
    ensures PermitAccount(RejectAccept(s, arg, socket)) <= PermitAccount(s)
  {
    StartAcceptKeeps(s.(acceptPool := s.acceptPool + [arg.(socket := Some(socket))]));
  }

  lemma CompleteAcceptKeeps(s: Listener, i: nat, success: bool, handoffOk: bool)
    requires Inv(s) && i < |s.accepting|
    ensures Inv(CompleteAccept(s, i, success, handoffOk).next)
    ensures CompleteAccept(s, i, success, handoffOk).raised != Some(SemaphoreFull)
    ensures !s.isDisposed ==> CompleteAccept(s, i, success, handoffOk).raised != Some(PoolExhausted)
    ensures PermitAccount(CompleteAccept(s, i, success, handoffOk).next) <= PermitAccount(s)
    ensures CompleteAccept(s, i, success, handoffOk).next.maxConnections == s.maxConnections
  {
    var s0 := Detach(s, i);
    DetachKeeps(s, i);
    if s.ignoreNewConnections || !success {
      RejectAcceptKeeps(s0, s.accepting[i], s.nextSocket);
    } else {
      AcceptSucceededKeeps(s0, s.accepting[i], s.nextSocket, handoffOk);
    }
  }

  lemma ReleaseKeeps(s: Listener, i: nat, argsDisposed: bool)
    requires Inv(s) && i < |s.active|
    ensures Inv(Release(s, i, argsDisposed).next)
    ensures Release(s, i, argsDisposed).raised != Some(SemaphoreFull)
    ensures Release(s, i, argsDisposed).raised != Some(PoolExhausted)
    ensures Release(s, i, argsDisposed).next.maxConnections == s.maxConnections
  {
    if !argsDisposed {
      var mid := Returned(s, i);
      ReturnedKeeps(s, i);
      ReleasePermitKeeps(mid);
      assert Release(s, i, argsDisposed) == ReleasePermit(mid);
    }
  }

  /** The listener between closing a released stream and releasing its permit:
      the socket closed, the args back in the pool, the stream gone. */
  function Returned(s: Listener, i: nat): Listener
    requires i < |s.active|
  {
    var stream := s.active[i];
    s.(openSockets := s.openSockets - {stream.socket},
       rwPool := s.rwPool + [stream.readArg, stream.writeArg],
       active := RemoveAt(s.active, i))
  }

  lemma ReturnedKeeps(s: Listener, i: nat)
    requires Inv(s) && i < |s.active|
    ensures Inv(Returned(s, i)) && PermitAccount(Returned(s, i)) < s.maxConnections
  {
    HeldArgsRemove(s.active, i);
  }

  /** Every step keeps the invariant, never releases the semaphore beyond its
      bound, and, until disposal, never pops from an empty read/write pool. */
  lemma StepKeeps(s: Listener, e: Event)
    requires Inv(s) && Enabled(s, e)
    ensures Inv(Next(s, e).next)
    ensures Next(s, e).raised != Some(SemaphoreFull)
    ensures !s.isDisposed ==> Next(s, e).raised != Some(PoolExhausted)
    ensures Next(s, e).next.maxConnections == s.maxConnections
  {
    match e
    case StartAcceptEvent => StartAcceptKeeps(s);
    case CompleteEvent(i, success, handoffOk) => CompleteAcceptKeeps(s, i, success, handoffOk);
    case ReleaseEvent(i, argsDisposed) => ReleaseKeeps(s, i, argsDisposed);
    case SetIgnoreNewConnections(ignore) =>
      assert Next(s, e).next == s.(ignoreNewConnections := ignore);
    case ShutdownEvent =>
      assert Next(s, e).next == s.(isListening := false);
    case DisposeEvent =>
      assert Next(s, e).next == Dispose(s);
  }

  lemma {:induction false} RunKeeps(s: Listener, events: seq<Event>)
    requires Inv(s)
    ensures Inv(Run(s, events))
    ensures Run(s, events).maxConnections == s.maxConnections
    decreases |events|
  {
    if |events| > 0 {
      var s' := if Enabled(s, events[0]) then Next(s, events[0]).next else s;
      if Enabled(s, events[0]) {
        StepKeeps(s, events[0]);
      }
      RunKeeps(s', events[1..]);
    }
  }

  /** In every state reachable from construction: at most `M` permits are out,
      no permit is free while an accept waits, and before disposal the
      read/write pool plus two args per active stream is exactly the `2 * M`
      args created. */
  lemma Reachable(maxConnections: int, events: seq<Event>)
    requires 0 < maxConnections <= MaxPooledConnections
    ensures var s := Run(Construct(maxConnections).value, events);
      && 0 <= s.permits
      && s.permits + |s.accepting| + |s.active| <= maxConnections
      && (|s.waiting| > 0 ==> s.permits == 0)
      && (!s.isDisposed ==> |s.rwPool| + 2 * |s.active| == 2 * maxConnections)
  {
    ConstructEstablishes(maxConnections);
    var s := Run(Construct(maxConnections).value, events);
    RunKeeps(Construct(maxConnections).value, events);
    RunQueues(Construct(maxConnections).value, events);
    if !s.isDisposed {
      PoolSize(s);
    }
  }

  // ---------------------------------------------------------------------
  // Waiting accepts

  /** The semaphore's queue discipline: a permit is never free while an accept
      waits for one, so a new accept cannot overtake a suspended one. */
  predicate NoIdlePermit(s: Listener) {
    s.waiting == [] || s.permits == 0
  }

  lemma StartAcceptQueues(s: Listener)
    requires NoIdlePermit(s)
    ensures NoIdlePermit(StartAccept(s))
  {
  }

  lemma ReleasePermitQueues(s: Listener)
    requires NoIdlePermit(s)
    ensures NoIdlePermit(ReleasePermit(s).next)
  {
  }

  lemma HandOffQueues(s: Listener, arg: AcceptArg, socket: nat, handoffOk: bool)
    requires NoIdlePermit(s)
    ensures NoIdlePermit(HandOff(s, arg, socket, handoffOk).next)
  {
    var n := |s.rwPool|;
    if n >= 2 && !handoffOk {
      var mid := s.(rwPool := s.rwPool[..n - 2] + [s.rwPool[n - 1], s.rwPool[n - 2]],
                    acceptPool := s.acceptPool + [arg.(socket := None)],
                    openSockets := s.openSockets + {socket} - {socket});
      ReleasePermitQueues(mid);
      assert HandOff(s, arg, socket, handoffOk) == ReleasePermit(mid);
    }
  }

  /** Every step keeps the queue discipline. */
  lemma StepQueues(s: Listener, e: Event)
    requires NoIdlePermit(s) && Enabled(s, e)
    ensures NoIdlePermit(Next(s, e).next)
  {
    match e
    case StartAcceptEvent => StartAcceptQueues(s);
    case CompleteEvent(i, success, handoffOk) =>
      var s0 := Detach(s, i);
      if s.ignoreNewConnections || !success {
        StartAcceptQueues(s0.(acceptPool := s0.acceptPool + [s.accepting[i].(socket := Some(s.nextSocket))]));
      } else {
        StartAcceptQueues(s0);
        HandOffQueues(StartAccept(s0), s.accepting[i], s.nextSocket, handoffOk);
      }
    case ReleaseEvent(i, argsDisposed) =>
      if !argsDisposed {
        var stream := s.active[i];
        var mid := s.(openSockets := s.openSockets - {stream.socket},
                      rwPool := s.rwPool + [stream.readArg, stream.writeArg],
                      active := RemoveAt(s.active, i));
        ReleasePermitQueues(mid);
        assert Release(s, i, argsDisposed) == ReleasePermit(mid);
      }
    case SetIgnoreNewConnections(_) =>
    case ShutdownEvent =>
    case DisposeEvent =>
  }

  lemma {:induction false} RunQueues(s: Listener, events: seq<Event>)
    requires NoIdlePermit(s)
    ensures NoIdlePermit(Run(s, events))
    decreases |events|
  {
    if |events| > 0 {
      var s' := if Enabled(s, events[0]) then Next(s, events[0]).next else s;
      if Enabled(s, events[0]) {
        StepQueues(s, events[0]);
      }
      RunQueues(s', events[1..]);
    }
  }

  // ---------------------------------------------------------------------
  // Permit conservation, and where it fails

  /** While live, a successful accept hands the completing accept's permit
      on to the new stream or, if the hand-off fails, back to the semaphore. */
  lemma SuccessConservesPermits(s: Listener, i: nat, handoffOk: bool)
    requires Inv(s) && Live(s) && CleanArgs(s) && i < |s.accepting| && !s.ignoreNewConnections
    ensures PermitAccount(CompleteAccept(s, i, true, handoffOk).next) == PermitAccount(s)
  {
    var s0 := Detach(s, i);
    DetachKeeps(s, i);
    DetachClean(s, i);
    AcceptSucceededKeeps(s0, s.accepting[i], s.nextSocket, handoffOk);
  }

  /** While the listener is live and its accept args reusable, a successful
      accept, a failed hand-off, a release and a new accept all keep the
      semaphore's account. */
  lemma PermitsConserved(s: Listener, e: Event)
    requires Inv(s) && Live(s) && CleanArgs(s) && Enabled(s, e)
    requires e.CompleteEvent? ==> e.success && !s.ignoreNewConnections
    requires e.ReleaseEvent? ==> !e.argsDisposed
    ensures PermitAccount(Next(s, e).next) == PermitAccount(s)
  {
    match e
    case StartAcceptEvent =>
    case CompleteEvent(i, success, handoffOk) => SuccessConservesPermits(s, i, handoffOk);
    case ReleaseEvent(i, argsDisposed) => ReleaseClean(s, i);
    case SetIgnoreNewConnections(_) =>
    case ShutdownEvent =>
    case DisposeEvent =>
  }

  /** The completed accept's arg was reusable, and the others stay so. */
  lemma DetachClean(s: Listener, i: nat)
    requires CleanArgs(s) && i < |s.accepting|
    ensures CleanArgs(Detach(s, i)) && Reusable(s.accepting[i])
    ensures |CirculatingAcceptArgs(Detach(s, i))| == |CirculatingAcceptArgs(s)| - 1
  {
    assert s.accepting[i] in CirculatingAcceptArgs(s);
    var t := Detach(s, i);
    forall a | a in CirculatingAcceptArgs(t)
      ensures Reusable(a)
    {
      if a in t.accepting {
        assert multiset(t.accepting)[a] > 0;
        assert a in s.accepting;
      }
    }
  }

  /** Releasing a stream leaves the accept args reusable and keeps their number. */
  lemma ReleaseClean(s: Listener, i: nat)
    requires CleanArgs(s) && i < |s.active|
    ensures !s.isDisposed ==> CleanArgs(Release(s, i, false).next)
    ensures Live(s) ==> |CirculatingAcceptArgs(Release(s, i, false).next)| == |CirculatingAcceptArgs(s)|
  {
    var mid := Returned(s, i);
    assert CirculatingAcceptArgs(mid) == CirculatingAcceptArgs(s);
    ReleasePermitKeepsArgs(mid);
    assert Release(s, i, false) == ReleasePermit(mid);
  }

  /** A release moves at most the head of the queue into flight. */
  lemma ReleasePermitKeepsArgs(s: Listener)
    requires CleanArgs(s)
    ensures CleanArgs(ReleasePermit(s).next)
    ensures Live(s) ==> |CirculatingAcceptArgs(ReleasePermit(s).next)| == |CirculatingAcceptArgs(s)|
  {
    if |s.waiting| > 0 {
      assert s.waiting[0] in CirculatingAcceptArgs(s);
    }
  }

  /** A rejected accept loses the permit it was admitted with, and the accept
      it restarts with the same arg loses a second one when a permit is free:
      the semaphore's account drops by one or two, for good. */
  lemma RejectStrandsPermit(s: Listener, i: nat, success: bool, handoffOk: bool)
    requires Inv(s) && Live(s) && i < |s.accepting|
    requires s.ignoreNewConnections || !success
    ensures PermitAccount(CompleteAccept(s, i, success, handoffOk).next) ==
      PermitAccount(s) - (if s.permits > 0 then 2 else 1)
  {
  }

  /** No step ever raises the semaphore's account. */
  lemma PermitAccountNeverGrows(s: Listener, e: Event)
    requires Inv(s) && Enabled(s, e)
    ensures PermitAccount(Next(s, e).next) <= PermitAccount(s)
  {
    match e
    case StartAcceptEvent =>
    case CompleteEvent(i, success, handoffOk) =>
      CompleteAcceptKeeps(s, i, success, handoffOk);
      if !s.isDisposed {
        PoolSize(s);
      }
    case ReleaseEvent(i, argsDisposed) =>
    case SetIgnoreNewConnections(_) =>
    case ShutdownEvent =>
    case DisposeEvent =>
  }

  /** A listener bounded to one connection whose first accept fails is wedged:
      no permit is free, nothing is in flight and nothing is active, so no
      later step can admit a connection. */
  lemma RejectWedgesSingleConnectionListener()
    ensures var s0 := Construct(1).value;
      var s1 := StartAccept(s0);
      var s2 := CompleteAccept(s1, 0, false, true).next;
      && s1.permits == 0 && |s1.accepting| == 1
      && PermitAccount(s2) == 0 && s2.permits == 0 && |s2.waiting| == 1
  {
  }

  /** A listener with no free permit, nothing in flight and no stream stays
      so: a new accept can only wait, and no completion or release is ever
      enabled to hand it a permit. */
  lemma {:induction false} StarvedStaysStarved(s: Listener, events: seq<Event>)
    requires s.permits == 0 && s.accepting == [] && s.active == []
    ensures var t := Run(s, events);
      t.permits == 0 && t.accepting == [] && t.active == []
    decreases |events|
  {
    if |events| > 0 {
      var s' := if Enabled(s, events[0]) then Next(s, events[0]).next else s;
      assert s'.permits == 0 && s'.accepting == [] && s'.active == [];
      StarvedStaysStarved(s', events[1..]);
    }
  }

  /** Whatever happens after the failed first accept, the one-connection
      listener never accepts a connection again. */
  lemma SingleConnectionListenerNeverRecovers(events: seq<Event>)
    ensures var s0 := Construct(1).value;
      var s2 := CompleteAccept(StartAccept(s0), 0, false, true).next;
      Run(s2, events).accepting == [] && Run(s2, events).active == []
  {
    RejectWedgesSingleConnectionListener();
    var s2 := CompleteAccept(StartAccept(Construct(1).value), 0, false, true).next;
    StarvedStaysStarved(s2, events);
  }

  /** A listener with nothing in flight and no stream stays so until a new
      `StartAcceptAsync` call: no completion or release is enabled. */
  lemma {:induction false} IdleStaysIdle(s: Listener, events: seq<Event>)
    requires s.accepting == [] && s.active == []
    requires forall k :: 0 <= k < |events| ==> !events[k].StartAcceptEvent?
    ensures Run(s, events).accepting == [] && Run(s, events).active == []
    decreases |events|
  {
    if |events| > 0 {
      var s' := if Enabled(s, events[0]) then Next(s, events[0]).next else s;
      assert s'.accepting == [] && s'.active == [];
      IdleStaysIdle(s', events[1..]);
    }
  }

  /** For every connection bound, when the first accept completes with a
      socket error the listener stops accepting: the restarted accept takes
      the arg with the closed socket and is refused (or waits for a permit
      that nothing will release), so unless something outside `PrepareAccept`
      starts accepting again, no connection is ever accepted. */
  lemma RejectStopsAccepting(maxConnections: int, events: seq<Event>)
    requires 0 < maxConnections <= MaxPooledConnections
    requires forall k :: 0 <= k < |events| ==> !events[k].StartAcceptEvent?
    ensures var s1 := StartAccept(Construct(maxConnections).value);
      var s2 := CompleteAccept(s1, 0, false, true).next;
      && |s1.accepting| == 1
      && s2.accepting == [] && s2.active == []
      && Run(s2, events).accepting == [] && Run(s2, events).active == []
  {
    var s1 := StartAccept(Construct(maxConnections).value);
    RejectedAccept(s1, 0, false);
    assert CompleteAccept(s1, 0, false, true) == CompleteAccept(s1, 0, false, false);
    IdleStaysIdle(CompleteAccept(s1, 0, false, true).next, events);
  }

  // ---------------------------------------------------------------------
  // Accept args

  /** A completion that takes the reject branch. */
  predicate Rejects(s: Listener, e: Event) {
    e.CompleteEvent? && (s.ignoreNewConnections || !e.success)
  }

  /** While the listener is live and its accept args reusable, every step but
      a rejected accept and disposal keeps every circulating accept arg, and
      keeps them reusable: the accept pool only grows, by a fresh arg when a
      start finds it empty. */
  lemma AcceptArgsNeverShrink(s: Listener, e: Event)
    requires Inv(s) && Live(s) && CleanArgs(s) && Enabled(s, e)
    requires !e.DisposeEvent? && !Rejects(s, e)
    ensures |CirculatingAcceptArgs(Next(s, e).next)| >= |CirculatingAcceptArgs(s)|
    ensures CleanArgs(Next(s, e).next)
  {
    match e
    case StartAcceptEvent =>
    case CompleteEvent(i, success, handoffOk) =>
      var s0 := Detach(s, i);
      DetachKeeps(s, i);
      DetachClean(s, i);
      AcceptSucceededArgs(s0, s.accepting[i], s.nextSocket, handoffOk);
    case ReleaseEvent(i, argsDisposed) =>
      if !argsDisposed {
        ReleaseClean(s, i);
      } else {
        assert CirculatingAcceptArgs(Next(s, e).next) == CirculatingAcceptArgs(s);
      }
    case SetIgnoreNewConnections(_) =>
      assert Next(s, e).next == s.(ignoreNewConnections := e.ignore);
    case ShutdownEvent =>
      assert Next(s, e).next == s.(isListening := false);
  }

  /** An event that neither rejects connections nor stops the listener. */
  predicate Benign(e: Event) {
    match e
    case StartAcceptEvent => true
    case CompleteEvent(_, success, _) => success
    case ReleaseEvent(_, _) => true
    case SetIgnoreNewConnections(ignore) => !ignore
    case ShutdownEvent => false
    case DisposeEvent => false
  }

  /** A benign step keeps the listener live and accepting connections. */
  lemma BenignKeepsLive(s: Listener, e: Event)
    requires Inv(s) && Live(s) && !s.ignoreNewConnections && Enabled(s, e) && Benign(e)
    ensures Live(Next(s, e).next) && !Next(s, e).next.ignoreNewConnections
  {
    match e
    case StartAcceptEvent =>
    case CompleteEvent(i, success, handoffOk) =>
      AcceptSucceededFlags(Detach(s, i), s.accepting[i], s.nextSocket, handoffOk);
    case ReleaseEvent(i, argsDisposed) =>
    case SetIgnoreNewConnections(_) =>
  }

  /** Over any run of benign events the accept args are never lost and stay reusable. */
  lemma {:induction false} RunKeepsAcceptArgs(s: Listener, events: seq<Event>)
    requires Inv(s) && Live(s) && CleanArgs(s) && !s.ignoreNewConnections
    requires forall k :: 0 <= k < |events| ==> Benign(events[k])
    ensures var t := Run(s, events);
      |CirculatingAcceptArgs(t)| >= |CirculatingAcceptArgs(s)| && CleanArgs(t) && Live(t)
    decreases |events|
  {
    if |events| > 0 {
      var s' := if Enabled(s, events[0]) then Next(s, events[0]).next else s;
      if Enabled(s, events[0]) {
        StepKeeps(s, events[0]);
        AcceptArgsNeverShrink(s, events[0]);
        BenignKeepsLive(s, events[0]);
      }
      assert forall k :: 0 <= k < |events[1..]| ==> Benign(events[1..][k]) by {
        forall k | 0 <= k < |events[1..]| ensures Benign(events[1..][k]) {
          assert events[1..][k] == events[k + 1];
        }
      }
      RunKeepsAcceptArgs(s', events[1..]);
    }
  }

  /** The reject branch as intended: the same clean-up, but the arg goes back
      with its AcceptSocket cleared, as the success branch does, and the permit
      the accept was admitted with is released before accepting again. */
  function RejectReleasingPermit(s: Listener, arg: AcceptArg, socket: nat): (e: Effect)
    ensures e.next.rwPool == s.rwPool && e.next.active == s.active && e.next.openSockets == s.openSockets
    ensures e.raised.None? <==> !s.isDisposed && s.permits < s.maxConnections
  {
    var e := ReleasePermit(s.(acceptPool := s.acceptPool + [arg.(socket := None)]));
    Effect(StartAccept(e.next), e.raised)
  }

  /** `PrepareAccept` with the corrected reject branch. */
  function CompleteAcceptReleasing(s: Listener, index: nat, success: bool, handoffOk: bool): (e: Effect)
    requires index < |s.accepting|
  {
    var s0 := Detach(s, index);
    if s.ignoreNewConnections || !success then RejectReleasingPermit(s0, s.accepting[index], s.nextSocket)
    else AcceptSucceeded(s0, s.accepting[index], s.nextSocket, handoffOk)
  }

  /** With the corrected reject branch every completion of an accept, on
      every branch, raises nothing, keeps the invariant and keeps the
      semaphore's account exactly, so no permit is ever stranded; the accept
      args all stay reusable and none is lost. */
  lemma ReleasingConservesPermits(s: Listener, i: nat, success: bool, handoffOk: bool)
    requires Inv(s) && Live(s) && CleanArgs(s) && i < |s.accepting|
    ensures CompleteAcceptReleasing(s, i, success, handoffOk).raised.None?
    ensures Inv(CompleteAcceptReleasing(s, i, success, handoffOk).next)
    ensures PermitAccount(CompleteAcceptReleasing(s, i, success, handoffOk).next) == PermitAccount(s)
    ensures CleanArgs(CompleteAcceptReleasing(s, i, success, handoffOk).next)
    ensures |CirculatingAcceptArgs(CompleteAcceptReleasing(s, i, success, handoffOk).next)| >= |CirculatingAcceptArgs(s)|
  {
    var s0 := Detach(s, i);
    DetachKeeps(s, i);
    DetachClean(s, i);
    if s.ignoreNewConnections || !success {
      var s1 := s0.(acceptPool := s0.acceptPool + [s.accepting[i].(socket := None)]);
      PushedClean(s0, s1, s.accepting[i]);
      ReleasePermitKeeps(s1);
      var s2 := ReleasePermit(s1).next;
      assert Live(s2);
      StartAcceptKeeps(s2);
      assert CompleteAcceptReleasing(s, i, success, handoffOk) == Effect(StartAccept(s2), None);
    } else {
      AcceptSucceededKeeps(s0, s.accepting[i], s.nextSocket, handoffOk);
      AcceptSucceededArgs(s0, s.accepting[i], s.nextSocket, handoffOk);
    }
  }

  // ---------------------------------------------------------------------
  // Step-level guarantees

  /** A successful accept with a successful hand-off: the next accept is armed
      before the accept arg goes back, so an empty accept pool forces a fresh
      arg; the returned arg has its socket cleared; the new stream holds the
      top two read/write args and the new socket, which is open. */
  lemma SuccessfulAccept(s: Listener, i: nat)
    requires Inv(s) && Live(s) && i < |s.accepting| && !s.ignoreNewConnections
    ensures var e := CompleteAccept(s, i, true, true);
      var n := |s.rwPool|;
      && e.raised.None?
      && n >= 2
      && e.next.acceptPool[|e.next.acceptPool| - 1] == AcceptArg(s.accepting[i].id, None)
      && (|s.acceptPool| == 0 ==> e.next.nextAcceptId == s.nextAcceptId + 1)
      && e.next.rwPool == s.rwPool[..n - 2]
      && e.next.active == s.active + [Stream(s.nextSocket, s.rwPool[n - 1], s.rwPool[n - 2])]
      && s.nextSocket in e.next.openSockets
  {
    PoolSize(s);
  }

  /** A failed hand-off unwinds completely: the socket is closed, the
      read/write pool holds the same args as before, no stream is added, and
      the permit the accept was admitted with is released. */
  lemma FailedHandoffUnwinds(s: Listener, i: nat)
    requires Inv(s) && Live(s) && CleanArgs(s) && i < |s.accepting| && !s.ignoreNewConnections
    ensures var e := CompleteAccept(s, i, true, false);
      && e.raised.None?
      && s.nextSocket !in e.next.openSockets
      && multiset(e.next.rwPool) == multiset(s.rwPool)
      && e.next.active == s.active
      && PermitAccount(e.next) == PermitAccount(s)
  {
    PoolSize(s);
    var s0 := Detach(s, i);
    DetachKeeps(s, i);
    DetachClean(s, i);
    var s1 := StartAccept(s0);
    StartAcceptKeeps(s0);
    PoolSize(s1);
    HandOffFailedKeeps(s1, s.accepting[i], s.nextSocket);
    assert CompleteAccept(s, i, true, false) == HandOff(s1, s.accepting[i], s.nextSocket, false);
  }

  /** A rejected accept pushes its arg back still carrying the closed socket,
      and the accept it restarts pops that same arg. With a permit free the
      arg is refused and lost along with that permit, and no accept is armed;
      with none free it joins the back of the queue. The read/write pool, the
      streams and the open sockets are left alone. */
  lemma RejectedAccept(s: Listener, i: nat, success: bool)
    requires Live(s) && i < |s.accepting|
    requires s.ignoreNewConnections || !success
    ensures var e := CompleteAccept(s, i, success, false);
      && e.raised.None?
      && e.next.rwPool == s.rwPool && e.next.active == s.active
      && e.next.openSockets == s.openSockets
      && e.next.acceptPool == s.acceptPool
      && e.next.accepting == RemoveAt(s.accepting, i)
      && (s.permits != 0 ==>
            && e.next.waiting == s.waiting && e.next.permits == s.permits - 1
            && |CirculatingAcceptArgs(e.next)| == |CirculatingAcceptArgs(s)| - 1)
      && (s.permits == 0 ==>
            && e.next.waiting == s.waiting + [s.accepting[i].(socket := Some(s.nextSocket))]
            && |CirculatingAcceptArgs(e.next)| == |CirculatingAcceptArgs(s)|)
  {
  }

  /** Shutdown and disposal happen once: repeating them changes nothing. */
  lemma ShutdownDisposeIdempotent(s: Listener)
    ensures Shutdown(Shutdown(s)) == Shutdown(s)
    ensures Dispose(Dispose(s)) == Dispose(s)
  {
  }
}
