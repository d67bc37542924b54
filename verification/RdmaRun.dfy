/** The run of the RDMA pair, from the client's text to the server's go-ahead: two threads, two
    completion handlers, one ordered `state` per side, and a send queue that completes in order.
    Data moves byte by byte, in any order among the requests under way, but a send is not delivered
    before what was queued ahead of it is done.  No errors, signals or disconnects. */
module RdmaRun {

  // enum test_state
  const IDLE: nat := 1
  const CONNECTED: nat := 5
  const RDMA_READ_ADV: nat := 6
  const RDMA_READ_COMPLETE: nat := 7
  const RDMA_WRITE_ADV: nat := 8
  const RDMA_WRITE_COMPLETE: nat := 9

  const SIZE: nat := 64
  const TXDEPTH: nat := 64
  const ROUNDS: nat := 10

  type Byte = b: int | 0 <= b < 256

  /** "rdma-ping-1: " */
  const PREFIX: seq<Byte> := [114, 100, 109, 97, 45, 112, 105, 110, 103, 45, 49, 58, 32]

  /** What the client puts into a buffer of this size: the prefix, the codes from 65 to 122 over and
      over, and a 0. */
  function Letters(size: nat): (t: seq<Byte>)
    requires |PREFIX| < size
    ensures |t| == size
  { seq(size, i requires 0 <= i < size => if i == size - 1 then 0 else if i < |PREFIX| then PREFIX[i] else 65 + (i - |PREFIX|) % 58) }

  /** The filling of start_buf in megaVM_test_client; sprintf also writes a terminating 0. */
  method FillStartBuf(buf: array<Byte>)
    requires |PREFIX| < buf.Length
    modifies buf
    ensures buf[..] == Letters(buf.Length)
  {
    var cc := 0;
    while cc < |PREFIX|
      invariant 0 <= cc <= |PREFIX| && forall k :: 0 <= k < cc ==> buf[k] == PREFIX[k]
    {
      buf[cc] := PREFIX[cc];
      cc := cc + 1;
    }
    buf[cc] := 0;
    var i, c: Byte := cc, 65;
    while i < buf.Length
      invariant cc == |PREFIX| && cc <= i <= buf.Length && c == 65 + (i - cc) % 58
      invariant forall k :: 0 <= k < cc ==> buf[k] == PREFIX[k]
      invariant forall k :: cc <= k < i ==> buf[k] == 65 + (k - cc) % 58
    {
      buf[i] := c;
      c := c + 1;
      if c > 122 { c := 65; }
      i := i + 1;
    }
    buf[buf.Length - 1] := 0;
  }

  function Text(): (t: seq<Byte>)
    ensures |t| == SIZE
  { Letters(SIZE) }

  lemma TextIs()
    ensures forall i :: 0 <= i < 64 ==> Text()[i] == if i == 63 then 0 else if i < 13 then PREFIX[i] else 65 + (i - 13) % 58
  {
  }

  /** strlen: the place of the first 0. */
  function StrLen(s: seq<Byte>): (n: nat)
    requires 0 in s
    ensures n < |s| && s[n] == 0 && forall i :: 0 <= i < n ==> s[i] != 0
  { if s[0] == 0 then 0 else 1 + StrLen(s[1..]) }

  /** The text is a string that fills its buffer, so that all of it is written back. */
  lemma TextIsFull(size: nat)
    requires |PREFIX| < size
    ensures 0 in Letters(size) && StrLen(Letters(size)) == size - 1
  {
    var t := Letters(size);
    assert t[size - 1] == 0;
    assert forall i :: 0 <= i < |PREFIX| ==> PREFIX[i] != 0;
    assert forall i :: 0 <= i < size - 1 ==> t[i] != 0;
    hide Letters, StrLen;
  }

  // ---- the machine

  datatype Kind = Read | Write | Go

  /** A posted request and the bytes of it that have moved. */
  datatype Request = Request(kind: Kind, len: nat, moved: set<nat>)

  datatype ServerPc = WaitConnected | WaitAdv | PostRead | WaitRead | PostWrite | WaitWrite | PostGo | Finished
  datatype ClientPc = Filling | Sending | Waiting | Left

  datatype State = State(
    server: ServerPc, round: nat, serverState: nat, remoteLen: nat,
    rdmaBuf: seq<Byte>, queue: seq<Request>, posted: nat,
    log: seq<Kind>,     // what the server has posted so far
    client: ClientPc, clientState: nat, startBuf: seq<Byte>,
    advert: bool,       // the client's advertisement is on its way
    advertised: nat)    // and says this length

  datatype Action =
    | Fill | Advertise | Leave                 // the client's thread
    | Step                                     // the server's thread
    | RecvAdvert                               // server_recv
    | Move(k: nat, j: nat)                     // one byte of a request under way
    | Deliver(k: nat)                          // client_recv of the go-ahead
    | Complete                                 // the server's completion handler

  predicate AllMoved(r: Request) { forall j :: 0 <= j < r.len ==> j in r.moved }

  /** The server's thread can go on: wait_event's conditions. */
  predicate Runs(s: State) {
    match s.server
    case WaitConnected => CONNECTED <= s.serverState
    case WaitAdv => RDMA_READ_ADV <= s.serverState
    case WaitRead => RDMA_READ_COMPLETE <= s.serverState
    case WaitWrite => RDMA_WRITE_COMPLETE <= s.serverState
    case PostWrite => 0 in s.rdmaBuf
    case Finished => false
    case _ => true
  }

  predicate Enabled(s: State, act: Action) {
    match act
    case Fill => s.client.Filling?
    case Advertise => s.client.Sending?
    case Leave => s.client.Waiting? && RDMA_WRITE_ADV <= s.clientState
    case Step => Runs(s)
    case RecvAdvert => s.advert
    case Move(k, j) => k < |s.queue| && !s.queue[k].kind.Go? && j < s.queue[k].len && j < |s.rdmaBuf| && j < |s.startBuf| && j !in s.queue[k].moved
    case Deliver(k) => k < |s.queue| && s.queue[k].kind.Go? && 0 !in s.queue[k].moved && forall i :: 0 <= i < k ==> AllMoved(s.queue[i])
    case Complete => 0 < |s.queue| && AllMoved(s.queue[0])
  }

  function Post(s: State, kind: Kind, len: nat): State {
    s.(queue := s.queue + [Request(kind, len, {})], posted := s.posted + 1, log := s.log + [kind])
  }

  /** The server's thread: start_MegaVM_server with megaVM_rdma_read and megaVM_rdma_write. */
  function ServerStep(s: State): State
    requires Runs(s)
  {
    match s.server
    case WaitConnected => s.(server := WaitAdv)
    case WaitAdv => s.(server := PostRead, round := 0)
    case PostRead => Post(s, Read, s.remoteLen).(server := WaitRead)
    case WaitRead => s.(server := PostWrite)
    case PostWrite => Post(s, Write, StrLen(s.rdmaBuf) + 1).(server := WaitWrite)
    case WaitWrite => s.(round := s.round + 1, server := if s.round + 1 < ROUNDS then PostRead else PostGo)
    case PostGo => Post(s, Go, 1).(server := Finished)
  }

  function Next(s: State, act: Action): State
    requires Enabled(s, act)
  {
    match act
    case Fill => s.(clientState := RDMA_READ_ADV, startBuf := Text(), client := Sending)
    case Advertise => s.(advert := true, advertised := SIZE, client := Waiting)
    case Leave => s.(client := Left)
    case Step => ServerStep(s)
    case RecvAdvert =>
      s.(advert := false, remoteLen := s.advertised,
         serverState := if s.serverState <= CONNECTED || s.serverState == RDMA_WRITE_COMPLETE then RDMA_READ_ADV else RDMA_WRITE_ADV)
    case Move(k, j) =>
      var r := s.queue[k];
      var now := s.(queue := s.queue[k := r.(moved := r.moved + {j})]);
      if r.kind.Read? then now.(rdmaBuf := s.rdmaBuf[j := s.startBuf[j]]) else now.(startBuf := s.startBuf[j := s.rdmaBuf[j]])
    case Deliver(k) =>
      s.(queue := s.queue[k := s.queue[k].(moved := {0})],
         clientState := if s.clientState == RDMA_READ_ADV then RDMA_WRITE_ADV else RDMA_WRITE_COMPLETE)
    case Complete =>
      var now := s.(queue := s.queue[1..]);
      match s.queue[0].kind
      case Read => now.(serverState := RDMA_READ_COMPLETE)
      case Write => now.(serverState := RDMA_WRITE_COMPLETE)
      case Go => now
  }

  predicate Start(s: State) {
    && s.server.WaitConnected? && s.round == 0 && IDLE <= s.serverState <= CONNECTED && |s.rdmaBuf| == SIZE && s.queue == [] && s.posted == 0 && s.log == []
    && s.client.Filling? && s.clientState <= CONNECTED && |s.startBuf| == SIZE && !s.advert
  }

  // ---- what every step keeps

  /** The n-th request that is ever posted. */
  function KindOf(n: nat): Kind { if n == 2 * ROUNDS then Go else if n % 2 == 0 then Read else Write }

  /** Completed requests. */
  function Completed(s: State): int { s.posted - |s.queue| }

  /** How many requests have been posted at each place of the server's thread. */
  ghost predicate PostedFits(s: State) {
    && s.round <= ROUNDS
    && match s.server
       case WaitConnected => s.posted == 0 && s.round == 0
       case WaitAdv => s.posted == 0 && s.round == 0
       case PostRead => s.posted == 2 * s.round && s.round < ROUNDS
       case WaitRead => s.posted == 2 * s.round + 1 && s.round < ROUNDS
       case PostWrite => s.posted == 2 * s.round + 1 && s.round < ROUNDS
       case WaitWrite => s.posted == 2 * s.round + 2 && s.round < ROUNDS
       case PostGo => s.posted == 2 * ROUNDS
       case Finished => s.posted == 2 * ROUNDS + 1
  }

  /** What has been posted, in this order. */
  ghost predicate LogFits(s: State) { |s.log| == s.posted && forall n :: 0 <= n < |s.log| ==> s.log[n] == KindOf(n) }

  ghost predicate QueueFits(s: State) {
    && 0 <= Completed(s)
    && (forall k :: 0 <= k < |s.queue| ==>
         && s.queue[k].kind == KindOf(Completed(s) + k)
         && s.queue[k].len == (if s.queue[k].kind.Go? then 1 else SIZE)
         && (forall j :: j in s.queue[k].moved ==> j < s.queue[k].len))
  }

  /** The server's state value is that of the last completion. */
  ghost predicate StateFits(s: State) {
    && (Completed(s) == 0 ==> s.serverState <= RDMA_READ_ADV)
    && (0 < Completed(s) <= 2 * ROUNDS ==> s.serverState == if KindOf(Completed(s) - 1).Read? then RDMA_READ_COMPLETE else RDMA_WRITE_COMPLETE)
    && (!s.server.WaitConnected? && !s.server.WaitAdv? ==> RDMA_READ_ADV <= s.serverState && !s.advert && s.remoteLen == SIZE)
    && (s.serverState == RDMA_READ_ADV ==> !s.advert && s.remoteLen == SIZE)
    && (s.advert || RDMA_READ_ADV <= s.serverState ==> s.client.Waiting? || s.client.Left?)
    && (s.advert ==> s.advertised == SIZE && s.serverState <= CONNECTED)
    && (s.client.Waiting? || s.client.Left? ==> s.advert || RDMA_READ_ADV <= s.serverState)
  }

  /** After the first read the two buffers hold the same text, and so no write changes anything. */
  ghost predicate DataFits(s: State) {
    && |s.rdmaBuf| == SIZE && |s.startBuf| == SIZE
    && (!s.client.Filling? ==> s.startBuf == Text())
    && (0 < Completed(s) ==> s.rdmaBuf == Text())
    && (s.queue != [] && Completed(s) == 0 ==> forall j :: j in s.queue[0].moved && j < SIZE ==> s.rdmaBuf[j] == Text()[j])
    && (s.server.PostWrite? || s.server.WaitWrite? || s.server.PostGo? || s.server.Finished? || 0 < s.round ==> 0 < Completed(s))
  }

  /** The go-ahead has reached the client. */
  predicate Delivered(s: State) { s.posted == 2 * ROUNDS + 1 && (s.queue == [] || s.queue[|s.queue| - 1].moved != {}) }

  /** The client's state says whether the go-ahead has reached it, and then all that was queued ahead of
      it is done. */
  ghost predicate ClientFits(s: State) {
    && (!s.client.Filling? ==> s.clientState == if Delivered(s) then RDMA_WRITE_ADV else RDMA_READ_ADV)
    && (s.client.Left? ==> Delivered(s))
    && (Delivered(s) ==> forall k :: 0 <= k < |s.queue| - 1 ==> AllMoved(s.queue[k]))
  }

  ghost predicate Inv(s: State) { PostedFits(s) && QueueFits(s) && StateFits(s) && DataFits(s) && ClientFits(s) }

  lemma ClientKeeps(s: State, act: Action)
    requires Inv(s) && Enabled(s, act) && (act.Fill? || act.Advertise? || act.Leave?)
    ensures Inv(Next(s, act))
  {
  }

  lemma RecvKeeps(s: State, act: Action)
    requires Inv(s) && Enabled(s, act) && act.RecvAdvert?
    ensures Inv(Next(s, act))
  {
  }

  lemma PostKeeps(s: State, act: Action)
    requires Inv(s) && Enabled(s, act) && act.Step? && (s.server.PostRead? || s.server.PostWrite? || s.server.PostGo?)
    ensures Inv(Next(s, act))
  {
    hide Letters, StrLen;
    TextIsFull(SIZE);
    assert s.server.PostWrite? ==> s.rdmaBuf == Text();
  }

  lemma WaitKeeps(s: State, act: Action)
    requires Inv(s) && Enabled(s, act) && act.Step? && !s.server.PostRead? && !s.server.PostWrite? && !s.server.PostGo?
    ensures Inv(Next(s, act))
  {
    hide Letters, StrLen;
  }

  lemma MoveKeeps(s: State, act: Action)
    requires Inv(s) && Enabled(s, act) && act.Move?
    ensures Inv(Next(s, act))
  {
    hide Letters, StrLen;
  }

  lemma DeliverKeeps(s: State, act: Action)
    requires Inv(s) && Enabled(s, act) && act.Deliver?
    ensures Inv(Next(s, act))
  {
    hide Letters, StrLen;
  }

  lemma CompleteKeeps(s: State, act: Action)
    requires Inv(s) && Enabled(s, act) && act.Complete?
    ensures Inv(Next(s, act))
  {
    hide Letters, StrLen;
    assert 0 in s.queue[0].moved;
    assert s.queue[1..] != [] ==> s.queue[1..][|s.queue| - 2] == s.queue[|s.queue| - 1];
  }

  lemma InvNext(s: State, act: Action)
    requires Inv(s) && Enabled(s, act)
    ensures Inv(Next(s, act))
  {
    hide Inv, Next, Enabled;
    match act
    case Step =>
      if s.server.PostRead? || s.server.PostWrite? || s.server.PostGo? { PostKeeps(s, act); } else { WaitKeeps(s, act); }
    case RecvAdvert => RecvKeeps(s, act);
    case Move(_, _) => MoveKeeps(s, act);
    case Deliver(_) => DeliverKeeps(s, act);
    case Complete => CompleteKeeps(s, act);
    case _ => ClientKeeps(s, act);
  }

  // ---- the run ends

  function Unmoved(r: Request): set<nat> { set j | 0 <= j < r.len && j !in r.moved }

  function QueueWork(q: seq<Request>): nat {
    if q == [] then 0 else |Unmoved(q[0])| + 1 + QueueWork(q[1..])
  }

  function ServerWork(s: State): nat
    requires s.round <= ROUNDS
  {
    match s.server
    case WaitConnected => 4 * ROUNDS + 3
    case WaitAdv => 4 * ROUNDS + 2
    case PostRead => 4 * (ROUNDS - s.round) + 1
    case WaitRead => 4 * (ROUNDS - s.round)
    case PostWrite => if s.round < ROUNDS then 4 * (ROUNDS - s.round) - 1 else 0
    case WaitWrite => if s.round < ROUNDS then 4 * (ROUNDS - s.round) - 2 else 0
    case PostGo => 1
    case Finished => 0
  }

  function ClientWork(s: State): nat {
    (match s.client case Filling => 4 case Sending => 3 case Waiting => 1 case Left => 0) + (if s.advert then 1 else 0)
  }

  /** Steps that are left at most. */
  function WorkLeft(s: State): nat
    requires s.round <= ROUNDS && s.posted <= 2 * ROUNDS + 1
  { ServerWork(s) + ClientWork(s) + QueueWork(s.queue) + (2 * ROUNDS + 1 - s.posted) * (SIZE + 2) }

  lemma {:induction false} QueueWorkUpdate(q: seq<Request>, k: nat, r: Request)
    requires k < |q|
    ensures QueueWork(q[k := r]) == QueueWork(q) - |Unmoved(q[k])| + |Unmoved(r)|
  {
    hide Unmoved;
    if k == 0 {
      assert q[k := r][1..] == q[1..];
    } else {
      assert q[k := r][1..] == q[1..][k - 1 := r];
      QueueWorkUpdate(q[1..], k - 1, r);
    }
  }

  lemma {:induction false} QueueWorkAppend(q: seq<Request>, r: Request)
    ensures QueueWork(q + [r]) == QueueWork(q) + |Unmoved(r)| + 1
  {
    hide Unmoved;
    if q == [] {
      assert q + [r] == [r];
    } else {
      assert (q + [r])[1..] == q[1..] + [r];
      QueueWorkAppend(q[1..], r);
    }
  }

  lemma UnmovedLess(r: Request, j: nat)
    requires j < r.len && j !in r.moved
    ensures |Unmoved(r.(moved := r.moved + {j}))| < |Unmoved(r)|
  {
    var a, b := Unmoved(r.(moved := r.moved + {j})), Unmoved(r);
    assert b == a + {j};
  }

  lemma {:induction false} UnmovedBound(len: nat)
    ensures |Unmoved(Request(Read, len, {}))| == len && |Unmoved(Request(Write, len, {}))| == len && |Unmoved(Request(Go, len, {}))| == len
  {
    assert Unmoved(Request(Write, len, {})) == Unmoved(Request(Read, len, {})) == Unmoved(Request(Go, len, {}));
    if len == 0 {
      assert Unmoved(Request(Read, len, {})) == {};
    } else {
      UnmovedBound(len - 1);
      assert Unmoved(Request(Read, len, {})) == Unmoved(Request(Read, len - 1, {})) + {len - 1};
    }
  }

  lemma PostedBound(s: State)
    requires Inv(s)
    ensures s.round <= ROUNDS && s.posted <= 2 * ROUNDS + 1
  {
  }

  lemma MoveDrops(s: State, k: nat, j: nat)
    requires Inv(s) && Enabled(s, Move(k, j)) && s.round <= ROUNDS && s.posted <= 2 * ROUNDS + 1
    ensures WorkLeft(Next(s, Move(k, j))) < WorkLeft(s)
  {
    hide Inv, Letters, StrLen, QueueWork, Unmoved;
    QueueWorkUpdate(s.queue, k, s.queue[k].(moved := s.queue[k].moved + {j}));
    UnmovedLess(s.queue[k], j);
  }

  lemma OtherDrops(s: State, act: Action)
    requires Inv(s) && Enabled(s, act) && s.round <= ROUNDS && s.posted <= 2 * ROUNDS + 1 && (act.Fill? || act.Advertise? || act.Leave? || act.RecvAdvert? || act.Complete?)
    ensures WorkLeft(Next(s, act)) < WorkLeft(s)
  {
    hide Letters, StrLen, PostedFits, QueueFits, DataFits, ClientFits, Unmoved;
  }

  lemma WorkDrops(s: State, act: Action)
    requires Inv(s) && Enabled(s, act)
    ensures Inv(Next(s, act)) && s.round <= ROUNDS && s.posted <= 2 * ROUNDS + 1
    ensures Next(s, act).round <= ROUNDS && Next(s, act).posted <= 2 * ROUNDS + 1
    ensures WorkLeft(Next(s, act)) < WorkLeft(s)
  {
    hide Inv, Enabled, QueueWork, ServerWork, ClientWork;
    InvNext(s, act);
    PostedBound(s);
    PostedBound(Next(s, act));
    match act
    case Move(k, j) => MoveDrops(s, k, j);
    case Deliver(k) => DeliverDrops(s, k);
    case Step => StepDrops(s);
    case _ => OtherDrops(s, act);
  }

  lemma DeliverDrops(s: State, k: nat)
    requires Inv(s) && Enabled(s, Deliver(k)) && s.round <= ROUNDS && s.posted <= 2 * ROUNDS + 1
    ensures WorkLeft(Next(s, Deliver(k))) < WorkLeft(s)
  {
    hide Letters, StrLen;
    var r := s.queue[k];
    assert r.len == 1 && r.moved == {};
    QueueWorkUpdate(s.queue, k, r.(moved := {0}));
    assert Unmoved(r.(moved := {0})) == {} && 0 in Unmoved(r);
  }

  lemma StepDrops(s: State)
    requires Inv(s) && Enabled(s, Step) && s.posted <= 2 * ROUNDS + 1
    ensures s.round <= ROUNDS && ServerStep(s).round <= ROUNDS && ServerStep(s).posted <= 2 * ROUNDS + 1
    ensures WorkLeft(ServerStep(s)) < WorkLeft(s)
  {
    hide Letters, StrLen;
    TextIsFull(SIZE);
    assert s.server.PostWrite? ==> s.rdmaBuf == Text();
    var s' := ServerStep(s);
    if s'.posted == s.posted + 1 {
      QueueWorkAppend(s.queue, s'.queue[|s.queue|]);
      UnmovedBound(s'.queue[|s.queue|].len);
      assert s'.queue[|s.queue|].moved == {};
    }
  }

  /** Whatever waits can be woken: unless everything is done, some step is possible. */
  lemma NotStuck(s: State) returns (act: Action)
    requires Inv(s) && !(s.server.Finished? && s.queue == [] && s.client.Left? && !s.advert)
    ensures Enabled(s, act)
  {
    hide Letters, StrLen;
    if s.client.Filling? { return Fill; }
    if s.client.Sending? { return Advertise; }
    if s.advert { return RecvAdvert; }
    if Runs(s) { return Step; }
    TextIsFull(SIZE);
    if s.queue != [] {
      act := HeadMoves(s);
      return;
    }
    return Leave;
  }

  /** The request at the head can move a byte, be delivered, or complete. */
  lemma HeadMoves(s: State) returns (act: Action)
    requires Inv(s) && s.queue != []
    ensures Enabled(s, act)
  {
    hide Letters, StrLen;
    var r := s.queue[0];
    if AllMoved(r) { return Complete; }
    var j: nat :| j < r.len && j !in r.moved;
    if r.kind.Go? { return Deliver(0); }
    return Move(0, j);
  }

  lemma LogNext(s: State, act: Action)
    requires Inv(s) && LogFits(s) && Enabled(s, act)
    ensures LogFits(Next(s, act))
  {
    hide Letters, StrLen, DataFits, StateFits, ClientFits, QueueFits;
  }

  /** Reads and writes by turns. */
  function Rounds(n: nat): (kinds: seq<Kind>)
    ensures |kinds| == 2 * n
  { if n == 0 then [] else Rounds(n - 1) + [Read, Write] }

  lemma {:induction false} RoundsAre(n: nat)
    ensures forall i :: 0 <= i < 2 * n ==> Rounds(n)[i] == if i % 2 == 0 then Read else Write
  {
    if n > 0 { RoundsAre(n - 1); }
  }

  lemma {:induction false} RoundsCount(n: nat)
    ensures multiset(Rounds(n))[Read] == multiset(Rounds(n))[Write] == n && multiset(Rounds(n))[Go] == 0
  {
    if n > 0 {
      RoundsCount(n - 1);
      assert multiset([Read, Write]) == multiset{Read, Write};
      assert multiset(Rounds(n)) == multiset(Rounds(n - 1)) + multiset([Read, Write]);
    }
  }

  lemma WholeLog(s: State)
    requires LogFits(s) && s.posted == 2 * ROUNDS + 1
    ensures s.log == Rounds(ROUNDS) + [Go]
  {
    RoundsAre(ROUNDS);
  }

  // ---- whole runs

  ghost predicate IsRun(states: seq<State>, acts: seq<Action>) {
    && |states| == |acts| + 1 && Start(states[0])
    && (forall i :: 0 <= i < |acts| ==> Enabled(states[i], acts[i]) && states[i + 1] == Next(states[i], acts[i]))
  }

  lemma StartInv(s: State)
    requires Start(s)
    ensures Inv(s) && LogFits(s)
  {
    hide Letters, StrLen;
  }

  lemma {:induction false} InvAlways(states: seq<State>, acts: seq<Action>, n: nat)
    requires IsRun(states, acts) && n <= |acts|
    ensures Inv(states[n]) && LogFits(states[n]) && PostedBounds(states[n]) && PostedBounds(states[0]) && WorkLeft(states[n]) + n <= WorkLeft(states[0])
  {
    hide Inv, LogFits, Next, Enabled, WorkLeft;
    if n == 0 {
      StartInv(states[0]);
      PostedBound(states[0]);
    } else {
      InvAlways(states, acts, n - 1);
      WorkDrops(states[n - 1], acts[n - 1]);
      LogNext(states[n - 1], acts[n - 1]);
    }
  }

  predicate PostedBounds(s: State) { s.round <= ROUNDS && s.posted <= 2 * ROUNDS + 1 }

  /** At every moment of every run: at most 21 requests are outstanding, which the queue of depth 64 can
      hold; every read and write covers exactly what the client advertised; and the client's buffer, once
      filled, holds its text byte for byte. */
  lemma RunIsSafe(states: seq<State>, acts: seq<Action>, n: nat)
    requires IsRun(states, acts) && n <= |acts|
    ensures var s := states[n];
      && |s.queue| <= 2 * ROUNDS + 1 <= TXDEPTH
      && (forall k :: 0 <= k < |s.queue| && !s.queue[k].kind.Go? ==> s.queue[k].len == s.advertised == 64)
      && (!s.client.Filling? ==> s.startBuf == Text())
  {
    InvAlways(states, acts, n);
    hide Letters, StrLen, WorkLeft, ClientFits, Enabled, Next;
    AdvertisedSize(states, acts, n);
  }

  /** The advertised length does not change once the server has it. */
  lemma {:induction false} AdvertisedSize(states: seq<State>, acts: seq<Action>, n: nat)
    requires IsRun(states, acts) && n <= |acts|
    ensures states[n].client.Waiting? || states[n].client.Left? ==> states[n].advertised == SIZE
  {
    hide Letters, StrLen;
    if n > 0 { AdvertisedSize(states, acts, n - 1); }
  }

  /** The client leaves its wait only after a go-ahead that was queued behind exactly 20 requests, ten
      reads and ten writes by turns; what is left of these in the queue has moved all its bytes, so that
      nobody touches the client's buffer any more. */
  lemma LeavesBehindGoAhead(states: seq<State>, acts: seq<Action>, n: nat, act: Action)
    requires IsRun(states, acts) && n <= |acts| && states[n].client.Left?
    ensures states[n].log == Rounds(ROUNDS) + [Go]
    ensures |states[n].queue| <= |states[n].log| && forall k :: 0 <= k < |states[n].queue| ==>
      && states[n].queue[k].kind == states[n].log[|states[n].log| - |states[n].queue| + k]
      && (!states[n].queue[k].kind.Go? ==> AllMoved(states[n].queue[k]))
    ensures states[n].clientState == RDMA_WRITE_ADV && (act.Move? ==> !Enabled(states[n], act))
  {
    InvAlways(states, acts, n);
    WholeLog(states[n]);
    hide Letters, StrLen, WorkLeft, Rounds;
  }

  /** No run goes on for ever, and one that cannot go on has finished on both sides, with ten reads and
      ten writes done by turns and then the go-ahead, and the client's text in both buffers. */
  lemma RunEnds(states: seq<State>, acts: seq<Action>)
    requires IsRun(states, acts)
    ensures PostedBounds(states[0]) && |acts| <= WorkLeft(states[0])
    ensures var s := states[|acts|]; (forall act :: !Enabled(s, act)) ==> s.server.Finished? && s.client.Left? && s.queue == [] && s.log == Rounds(ROUNDS) + [Go]
    ensures multiset(Rounds(ROUNDS))[Read] == multiset(Rounds(ROUNDS))[Write] == ROUNDS
    ensures |Rounds(ROUNDS)| == 20 && forall i :: 0 <= i < 20 ==> Rounds(ROUNDS)[i] == if i % 2 == 0 then Read else Write
    ensures var s := states[|acts|]; (forall act :: !Enabled(s, act)) ==> s.rdmaBuf == s.startBuf == Text()
    ensures forall i :: 0 <= i < 64 ==> Text()[i] == if i == 63 then 0 else if i < 13 then PREFIX[i] else 65 + (i - 13) % 58
  {
    TextIs();
    InvAlways(states, acts, |acts|);
    RoundsCount(ROUNDS);
    RoundsAre(ROUNDS);
    if states[|acts|].posted == 2 * ROUNDS + 1 { WholeLog(states[|acts|]); }
    hide WorkLeft, Enabled, Rounds, Letters, Text, StrLen;
    var s := states[|acts|];
    if !(s.server.Finished? && s.queue == [] && s.client.Left? && !s.advert) {
      var act := NotStuck(s);
      assert Enabled(s, act);
    }
  }
}
