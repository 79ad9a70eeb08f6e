/**
 The shared-memory ring of project2: client threads that write requests and wait for responses, one
 server that answers them, four counters that wrap at 32 bits, and condition variables.

 The code between taking and releasing the mutex (or waiting on a condition) is one atomic step.
 A signal wakes one waiter if there is any, and nobody wakes without a signal.
 */
module Ring {
  import opened Bytes

  const MAXSIZE := 128
  const WRAP := 0x1_0000_0000

  type u32 = i: int | 0 <= i < WRAP

  datatype Request = Request(x: int, p: int, response: int)

  /** struct ring_buffer. `locked` says that somebody returned without releasing the mutex. */
  datatype Ring = Ring(
    requests: seq<Request>, requestWrites: u32, requestReads: u32,
    responses: seq<int>, responseWrites: u32, responseReads: u32, locked: bool)

  predicate Shaped(ring: Ring)
  {
    && |ring.requests| == MAXSIZE && |ring.responses| == MAXSIZE
    && forall i | 0 <= i < MAXSIZE :: ring.requests[i].response == i
  }

  function Succ(i: u32): u32 { (i + 1) % WRAP }

  /** An unsigned difference. */
  function Minus(a: u32, b: u32): u32 { (a - b) % WRAP }

  /** An unsigned difference stored in an int. */
  function Size(a: u32, b: u32): int
  {
    var d := Minus(a, b);
    if d < 0x8000_0000 then d else d - WRAP
  }

  /**
    * 2 to a negative power truncates to 0. C's remainder takes the sign of the dividend, here never negative, so
    * it agrees with Dafny's for every p but 0. No answer is claimed where C's is undefined: at p == 0 the 0 is
    * arbitrary, and from x == 31 on the power does not fit an int.
    */
  function Answer(x: int, p: int): int
  {
    if x < 0 || p == 0 then 0 else Pow2(x) % p
  }

  /** `r` is the remainder of 2^x by p. */
  ghost predicate IsRemainder(x: nat, p: int, r: int)
  {
    0 <= r < (if p < 0 then -p else p) && exists q: int :: Pow2(x) == p * q + r
  }

  /** An answer is the remainder; there is only one. */
  lemma {:induction false} AnswerIsRemainder(x: nat, p: int, r: int)
    requires p != 0
    ensures IsRemainder(x, p, r) <==> r == Answer(x, p)
  {
    var n := Pow2(x);
    assert n == p * (n / p) + n % p;
    if IsRemainder(x, p, r) {
      var q: int :| n == p * q + r;
      if p > 0 {
        ModUnique(n, p, q, r);
      } else {
        assert n == (-p) * (-q) + r && n % p == n % (-p);
        ModUnique(n, -p, -q, r);
      }
    }
  }

  /** The requests the clients make: pow(2.0, x) < INT_MAX. */
  predicate Askable(x: int, p: int) { 0 <= x <= 30 && p == 97 }

  // ---------------------------------------------------------------- the three critical sections

  /** write_request: what becomes of the ring, and what is returned. */
  function Wrote(ring: Ring, x: int, p: int): (Ring, int)
    requires Shaped(ring)
  {
    if Size(ring.requestWrites, ring.requestReads) > MAXSIZE - 1 then (ring.(locked := true), -1)
    else
      var i := ring.requestWrites % MAXSIZE;
      (ring.(requests := ring.requests[i := Request(x, p, ring.requests[i].response)],
             requestWrites := Succ(ring.requestWrites)),
       ring.requests[i].response)
  }

  /** read_request: what becomes of the ring, and which response_ready is signalled. */
  function Served(ring: Ring): (Ring, Option<int>)
    requires Shaped(ring)
  {
    if Size(ring.requestWrites, ring.requestReads) < 1 then (ring.(locked := true), None)
    else
      var next := ring.requests[ring.requestReads % MAXSIZE];
      (ring.(requestReads := Succ(ring.requestReads),
             responses := ring.responses[ring.responseWrites % MAXSIZE := Answer(next.x, next.p)],
             responseWrites := Succ(ring.responseWrites)),
       Some(next.response))
  }

  /** The end of make_requests: the response read, and the ring after it. */
  function Taken(ring: Ring): (Ring, int)
    requires Shaped(ring)
  {
    (ring.(responseReads := Succ(ring.responseReads)), ring.responses[ring.responseReads % MAXSIZE])
  }

  lemma {:induction false} MinusSucc(a: u32, b: u32)
    requires 0 < Minus(a, b) <= MAXSIZE
    ensures Minus(a, Succ(b)) == Minus(a, b) - 1 && Size(a, b) == Minus(a, b)
  {
    if b + 1 == WRAP {
      assert Succ(b) == 0;
    }
  }

  /** The early returns: with 128 requests pending or more, the caller is told -1, and with none nobody is
      signalled; both leave everything as it was but the mutex, which stays locked. */
  lemma {:induction false} EarlyReturns(ring: Ring, x: int, p: int)
    requires Shaped(ring)
    ensures var pending := Size(ring.requestWrites, ring.requestReads);
            && (pending >= 128 <==> Wrote(ring, x, p) == (ring.(locked := true), -1))
            && (pending < 128 ==> Wrote(ring, x, p).0.locked == ring.locked)
            && (pending < 1 ==> Served(ring) == (ring.(locked := true), None))
            && (pending >= 1 ==> Served(ring).0.locked == ring.locked && Served(ring).1.Some?)
  {
    hide Size, Answer;
    var i := ring.requestWrites % MAXSIZE;
    assert ring.requests[i].response == i;
  }

  lemma {:induction false} ServedShrinks(ring: Ring)
    requires Shaped(ring) && 0 < Minus(ring.requestWrites, ring.requestReads) <= MAXSIZE
    ensures var after := Served(ring).0;
            && Shaped(after) && after.locked == ring.locked && after.requestWrites == ring.requestWrites
            && Minus(after.requestWrites, after.requestReads) == Minus(ring.requestWrites, ring.requestReads) - 1
  {
    hide Answer, Minus, Size, Succ;
    MinusSucc(ring.requestWrites, ring.requestReads);
  }

  /** process_requests, left alone. */
  function Drained(ring: Ring): Ring
    requires Shaped(ring) && Minus(ring.requestWrites, ring.requestReads) <= MAXSIZE
    decreases Minus(ring.requestWrites, ring.requestReads)
  {
    if Minus(ring.requestWrites, ring.requestReads) == 0 then ring
    else ServedShrinks(ring); Drained(Served(ring).0)
  }

  function Fresh(): Ring
  {
    Ring(seq(MAXSIZE, i => Request(0, 1, i)), 0, 0, seq(MAXSIZE, i => 0), 0, 0, false)
  }

  class RingBuffer {
    const requests: array<Request>
    const responses: array<int>
    var requestWrites: u32
    var requestReads: u32
    var responseWrites: u32
    var responseReads: u32
    var locked: bool

    ghost predicate Valid()
      reads this, requests
    {
      && requests.Length == MAXSIZE && responses.Length == MAXSIZE
      && forall i | 0 <= i < MAXSIZE :: requests[i].response == i
    }

    ghost function View(): (ring: Ring)
      requires Valid()
      reads this, requests, responses
      ensures Shaped(ring)
    {
      Ring(requests[..], requestWrites, requestReads, responses[..], responseWrites, responseReads, locked)
    }

    /** init_ring_buffer */
    constructor ()
      ensures Valid() && fresh(requests) && fresh(responses)
      ensures View() == Fresh()
    {
      requests := new Request[MAXSIZE](i => Request(0, 1, i));
      responses := new int[MAXSIZE](i => 0);
      requestWrites, requestReads, responseWrites, responseReads, locked := 0, 0, 0, 0, false;
    }

    /** write_request */
    method WriteRequest(x: int, p: int) returns (response: int)
      requires Valid() && !locked
      modifies this, requests
      ensures Valid() && (View(), response) == Wrote(old(View()), x, p)
    {
      hide Size, Succ;
      locked := true;
      var size := Size(requestWrites, requestReads);
      if size > MAXSIZE - 1 {
        return -1;
      }
      var next := requestWrites % MAXSIZE;
      requests[next] := Request(x, p, requests[next].response);
      requestWrites := Succ(requestWrites);
      response := requests[next].response;
      locked := false;
    }

    /** read_request */
    method ReadRequest() returns (signalled: Option<int>)
      requires Valid() && !locked
      modifies this, responses
      ensures Valid() && (View(), signalled) == Served(old(View()))
    {
      hide Size, Succ, Answer;
      locked := true;
      var size := Size(requestWrites, requestReads);
      if size < 1 {
        return None;
      }
      var next := requests[requestReads % MAXSIZE];
      requestReads := Succ(requestReads);
      responses[responseWrites % MAXSIZE] := Answer(next.x, next.p);
      responseWrites := Succ(responseWrites);
      locked := false;
      return Some(next.response);
    }

    /** process_requests, with nobody else at the ring meanwhile. */
    method ProcessRequests()
      requires Valid() && !locked && Minus(requestWrites, requestReads) <= MAXSIZE
      modifies this, responses
      ensures Valid() && View() == Drained(old(View()))
    {
      hide Minus, Answer, Served;
      while Minus(requestWrites, requestReads) > 0
        invariant Valid() && !locked && Minus(requestWrites, requestReads) <= MAXSIZE
        invariant Drained(View()) == Drained(old(View()))
        decreases Minus(requestWrites, requestReads)
      {
        ServedShrinks(View());
        ghost var before := View();
        var _ := ReadRequest();
        assert View() == Served(before).0;
      }
    }

    /** What make_requests does once it has been woken. */
    method TakeResponse() returns (result: int)
      requires Valid() && !locked
      modifies this
      ensures Valid() && (View(), result) == Taken(old(View()))
    {
      hide Succ;
      locked := true;
      result := responses[responseReads % MAXSIZE];
      responseReads := Succ(responseReads);
      locked := false;
    }
  }

  // ---------------------------------------------------------------- the system

  /** A client thread: about to write; between write_request and its wait; waiting for the response
      of a slot; woken and about to read a response. */
  datatype Client = Idle | Written(slot: int) | Waiting(slot: int) | Woken(slot: int)

  /** The server: about to wait; waiting; woken; testing the counters without the mutex; about to
      call read_request. */
  datatype Server = Starting | Blocked | Ready | Checking | Reading

  datatype Question = Question(x: int, p: int)

  /** `asked` and `consumed` record the requests written and the responses read, in order. */
  datatype State = State(ring: Ring, clients: seq<Client>, server: Server, asked: seq<Question>, consumed: seq<int>)

  datatype Event =
    | Write(c: nat, x: int, p: int)
    | Wait(c: nat)
    | Consume(c: nat)
    | ServerWait
    | ServerWake
    | ServerCheck
    | ServerRead(woken: Option<nat>)

  predicate Waits(st: State, c: nat, slot: int) { c < |st.clients| && st.clients[c] == Waiting(slot) }

  /** Which client a signal wakes is free, but it wakes one if one waits. */
  ghost predicate Wakes(st: State, slot: int, woken: Option<nat>)
  {
    match woken
    case Some(c) => Waits(st, c, slot)
    case None => forall c: nat :: !Waits(st, c, slot)
  }

  ghost predicate Enabled(st: State, e: Event)
  {
    && Shaped(st.ring)
    && match e
       case Write(c, x, p) => !st.ring.locked && c < |st.clients| && st.clients[c].Idle? && Askable(x, p)
       case Wait(c) => !st.ring.locked && c < |st.clients| && st.clients[c].Written?
       case Consume(c) => !st.ring.locked && c < |st.clients| && st.clients[c].Woken?
       case ServerWait => !st.ring.locked && st.server == Starting
       case ServerWake => !st.ring.locked && st.server == Ready
       case ServerCheck => st.server == Checking
       case ServerRead(woken) =>
         && !st.ring.locked && st.server == Reading
         && match Served(st.ring).1
            case Some(slot) => Wakes(st, slot, woken)
            case None => woken == None
  }

  ghost function Next(st: State, e: Event): State
    requires Enabled(st, e)
  {
    match e
    case Write(c, x, p) =>
      var (ring, response) := Wrote(st.ring, x, p);
      if response == -1 then st.(ring := ring)
      else st.(ring := ring, clients := st.clients[c := Written(response)],
               server := if st.server == Blocked then Ready else st.server,
               asked := st.asked + [Question(x, p)])
    case Wait(c) => st.(clients := st.clients[c := Waiting(st.clients[c].slot)])
    case Consume(c) =>
      var (ring, result) := Taken(st.ring);
      st.(ring := ring, clients := st.clients[c := Idle], consumed := st.consumed + [result])
    case ServerWait => st.(server := Blocked)
    case ServerWake => st.(server := Checking)
    case ServerCheck =>
      st.(server := if Minus(st.ring.requestWrites, st.ring.requestReads) > 0 then Reading else Starting)
    case ServerRead(woken) =>
      st.(ring := Served(st.ring).0, server := Checking,
          clients := if woken.Some? && Waits(st, woken.value, Served(st.ring).1.value)
                     then st.clients[woken.value := Woken(st.clients[woken.value].slot)] else st.clients)
  }

  function Start(n: nat): State
  {
    State(Fresh(), seq(n, i => Idle), Starting, [], [])
  }

  ghost predicate LegalRun(st: State, events: seq<Event>)
    decreases |events|
  {
    events == [] || (Enabled(st, events[0]) && LegalRun(Next(st, events[0]), events[1..]))
  }

  ghost function Run(st: State, events: seq<Event>): State
    requires LegalRun(st, events)
    decreases |events|
  {
    if events == [] then st else Run(Next(st, events[0]), events[1..])
  }

  // ---------------------------------------------------------------- the invariant

  /** Clients with a request whose response they have not read; or only those that were woken. */
  function Weight(c: Client, wokenOnly: bool): nat
  {
    if c.Idle? || (wokenOnly && !c.Woken?) then 0 else 1
  }

  function Count(clients: seq<Client>, wokenOnly: bool): (n: nat)
    ensures n <= |clients|
  {
    if clients == [] then 0 else Count(clients[..|clients| - 1], wokenOnly) + Weight(clients[|clients| - 1], wokenOnly)
  }

  /** What the ring holds: requests not yet served, and responses not yet read, each in the slot its
      number names. */
  ghost predicate Carries(ring: Ring, asked: seq<Question>, served: nat, taken: nat)
  {
    && Shaped(ring) && taken <= served <= |asked|
    && (forall k | served <= k < |asked| ::
          ring.requests[k % MAXSIZE].x == asked[k].x && ring.requests[k % MAXSIZE].p == asked[k].p)
    && (forall k | taken <= k < served :: ring.responses[k % MAXSIZE] == Answer(asked[k].x, asked[k].p))
  }

  ghost predicate Counters(ring: Ring, asked: nat, served: nat, taken: nat)
  {
    && ring.requestWrites == asked % WRAP
    && ring.requestReads == served % WRAP && ring.responseWrites == served % WRAP
    && ring.responseReads == taken % WRAP
  }

  /** With `served` requests answered so far: the counters are the true counts modulo the wrap, as
      many requests are outstanding as clients wait for a response, every client woken has a response
      to read, and the responses read were the answers in the order of the requests. */
  ghost predicate InvAt(st: State, served: nat)
  {
    var asked, taken := |st.asked|, |st.consumed|;
    && |st.clients| <= MAXSIZE && !st.ring.locked
    && Counters(st.ring, asked, served, taken)
    && Carries(st.ring, st.asked, served, taken)
    && asked == taken + Count(st.clients, false)
    && taken + Count(st.clients, true) <= served
    && (st.server == Reading ==> served < asked)
    && (forall k | 0 <= k < taken :: st.consumed[k] == Answer(st.asked[k].x, st.asked[k].p))
  }

  ghost predicate Inv(st: State) { exists served: nat :: InvAt(st, served) }

  // ---------------------------------------------------------------- arithmetic of wrapping counters

  lemma {:induction false} MulAtLeast(m: int, d: int)
    requires m > 0
    ensures d >= 1 ==> m * d >= m
    ensures d <= -1 ==> m * d <= -m
  {
    if d >= 1 {
      assert m * d == m + m * (d - 1);
    } else {
      assert m * d == -m + m * (d + 1);
    }
  }

  lemma {:induction false} ModUnique(a: int, m: int, q: int, r: int)
    requires 0 <= r < m && a == m * q + r
    ensures a % m == r
  {
    var d := a / m - q;
    assert m * d == r - a % m;
    MulAtLeast(m, d);
  }

  /** Since the ring size divides the wrap, a wrapped counter names the same slot. */
  lemma {:induction false} SlotOfWrapped(k: nat)
    ensures k % WRAP % MAXSIZE == k % MAXSIZE
  {
    var q, r := k / WRAP, k % WRAP;
    ModUnique(k, MAXSIZE, q * 0x200_0000 + r / MAXSIZE, r % MAXSIZE);
  }

  lemma {:induction false} SuccWrapped(k: nat)
    ensures Succ(k % WRAP) == (k + 1) % WRAP
  {
  }

  lemma {:induction false} MinusWrapped(a: nat, b: nat)
    requires b <= a < b + WRAP
    ensures Minus(a % WRAP, b % WRAP) == a - b
  {
    var q := a / WRAP - b / WRAP;
    assert a % WRAP - b % WRAP == WRAP * (-q) + (a - b);
    ModUnique(a % WRAP - b % WRAP, WRAP, -q, a - b);
  }

  lemma {:induction false} SlotsDiffer(a: nat, b: nat)
    requires a < b < a + MAXSIZE
    ensures a % MAXSIZE != b % MAXSIZE
  {
  }

  lemma {:induction false} CountSet(clients: seq<Client>, c: nat, x: Client, wokenOnly: bool)
    requires c < |clients|
    ensures Count(clients[c := x], wokenOnly) + Weight(clients[c], wokenOnly)
         == Count(clients, wokenOnly) + Weight(x, wokenOnly)
  {
    var n := |clients| - 1;
    if c < n {
      CountSet(clients[..n], c, x, wokenOnly);
      assert clients[c := x][..n] == clients[..n][c := x];
    } else {
      assert clients[c := x][..n] == clients[..n];
    }
  }

  lemma {:induction false} CountFull(clients: seq<Client>, c: nat)
    requires c < |clients| && clients[c].Idle?
    ensures Count(clients, false) < |clients|
  {
    var n := |clients| - 1;
    if c < n {
      CountFull(clients[..n], c);
    }
  }

  lemma {:induction false} CountHas(clients: seq<Client>, c: nat, wokenOnly: bool)
    requires c < |clients|
    ensures Count(clients, wokenOnly) >= Weight(clients[c], wokenOnly)
  {
    var n := |clients| - 1;
    if c < n {
      CountHas(clients[..n], c, wokenOnly);
    }
  }

  // ---------------------------------------------------------------- every step keeps the invariant

  lemma {:induction false} WriteCarries(ring: Ring, asked: seq<Question>, served: nat, taken: nat, x: int, p: int)
    requires Carries(ring, asked, served, taken) && Counters(ring, |asked|, served, taken)
    requires |asked| < taken + MAXSIZE
    ensures var after := Wrote(ring, x, p);
            && after.1 == |asked| % MAXSIZE
            && after.0.locked == ring.locked
            && Counters(after.0, |asked| + 1, served, taken)
            && Carries(after.0, asked + [Question(x, p)], served, taken)
  {
    hide Succ, Minus, Answer;
    var asked' := asked + [Question(x, p)];
    var after := Wrote(ring, x, p);
    MinusWrapped(|asked|, served);
    SlotOfWrapped(|asked|);
    SuccWrapped(|asked|);
    forall k | served <= k < |asked'|
      ensures after.0.requests[k % MAXSIZE].x == asked'[k].x && after.0.requests[k % MAXSIZE].p == asked'[k].p
    {
      if k < |asked| {
        SlotsDiffer(k, |asked|);
      }
    }
  }

  lemma {:induction false} ServeCarries(ring: Ring, asked: seq<Question>, served: nat, taken: nat)
    requires Carries(ring, asked, served, taken) && Counters(ring, |asked|, served, taken)
    requires |asked| <= taken + MAXSIZE && served < |asked|
    ensures var after := Served(ring);
            && after.1 == Some(served % MAXSIZE)
            && after.0.locked == ring.locked
            && Counters(after.0, |asked|, served + 1, taken)
            && Carries(after.0, asked, served + 1, taken)
  {
    hide Succ, Minus, Answer;
    var after := Served(ring);
    MinusWrapped(|asked|, served);
    SlotOfWrapped(served);
    SuccWrapped(served);
    forall k | taken <= k < served + 1
      ensures after.0.responses[k % MAXSIZE] == Answer(asked[k].x, asked[k].p)
    {
      if k < served {
        SlotsDiffer(k, served);
      }
    }
  }

  /** Left alone, the server answers every request there is, and then stops. */
  lemma {:induction false} DrainCarries(ring: Ring, asked: seq<Question>, served: nat, taken: nat)
    requires Carries(ring, asked, served, taken) && Counters(ring, |asked|, served, taken)
    requires |asked| <= taken + MAXSIZE
    ensures Minus(ring.requestWrites, ring.requestReads) <= MAXSIZE
    ensures Counters(Drained(ring), |asked|, |asked|, taken) && Carries(Drained(ring), asked, |asked|, taken)
    decreases |asked| - served
  {
    hide Served, Minus, Answer, Carries, Counters;
    assert Shaped(ring) && taken <= served <= |asked| by { CarriesOrder(ring, asked, served, taken); }
    PendingOf(ring, asked, served, taken);
    if served < |asked| {
      ServeCarries(ring, asked, served, taken);
      ServedShrinks(ring);
      DrainCarries(Served(ring).0, asked, served + 1, taken);
    }
  }

  lemma {:induction false} PendingOf(ring: Ring, asked: seq<Question>, served: nat, taken: nat)
    requires Counters(ring, |asked|, served, taken) && taken <= served <= |asked| <= taken + MAXSIZE
    ensures Minus(ring.requestWrites, ring.requestReads) == |asked| - served
  {
    MinusWrapped(|asked|, served);
  }

  lemma {:induction false} TakeCarries(ring: Ring, asked: seq<Question>, served: nat, taken: nat)
    requires Carries(ring, asked, served, taken) && Counters(ring, |asked|, served, taken)
    requires taken < served
    ensures var after := Taken(ring);
            && after.1 == Answer(asked[taken].x, asked[taken].p)
            && after.0.locked == ring.locked
            && Counters(after.0, |asked|, served, taken + 1)
            && Carries(after.0, asked, served, taken + 1)
  {
    hide Succ, Answer;
    SlotOfWrapped(taken);
    SuccWrapped(taken);
  }

  lemma {:induction false} StepKeeps(st: State, e: Event, served: nat)
    requires InvAt(st, served) && Enabled(st, e)
    ensures InvAt(Next(st, e), if e.ServerRead? then served + 1 else served)
  {
    hide Count, Counters, Carries, Wrote, Served, Taken, Minus, Answer;
    var asked, taken := |st.asked|, |st.consumed|;
    match e {
      case Write(c, x, p) =>
        CountFull(st.clients, c);
        WriteCarries(st.ring, st.asked, served, taken, x, p);
        CountSet(st.clients, c, Written(asked % MAXSIZE), false);
        CountSet(st.clients, c, Written(asked % MAXSIZE), true);
      case Wait(c) =>
        CountSet(st.clients, c, Waiting(st.clients[c].slot), false);
        CountSet(st.clients, c, Waiting(st.clients[c].slot), true);
      case Consume(c) =>
        CountHas(st.clients, c, true);
        TakeCarries(st.ring, st.asked, served, taken);
        CountSet(st.clients, c, Idle, false);
        CountSet(st.clients, c, Idle, true);
      case ServerWait =>
      case ServerWake =>
      case ServerCheck =>
        CheckSees(st, served);
      case ServerRead(woken) =>
        ServeCarries(st.ring, st.asked, served, taken);
        if woken.Some? {
          CountSet(st.clients, woken.value, Woken(st.clients[woken.value].slot), false);
          CountSet(st.clients, woken.value, Woken(st.clients[woken.value].slot), true);
        }
    }
  }

  /** The test outside the mutex is right when it is made, and only the server can make it wrong. */
  lemma {:induction false} CheckSees(st: State, served: nat)
    requires InvAt(st, served)
    ensures Minus(st.ring.requestWrites, st.ring.requestReads) > 0 <==> served < |st.asked|
  {
    hide Count, Minus, Answer;
    MinusWrapped(|st.asked|, served);
  }

  lemma {:induction false} NobodyWaits(n: nat, wokenOnly: bool)
    ensures Count(seq(n, i => Idle), wokenOnly) == 0
  {
    if n > 0 {
      assert seq(n, i => Idle)[..n - 1] == seq(n - 1, i => Idle);
      NobodyWaits(n - 1, wokenOnly);
    }
  }

  lemma {:induction false} StartInv(n: nat)
    requires n <= MAXSIZE
    ensures InvAt(Start(n), 0)
  {
    NobodyWaits(n, false);
    NobodyWaits(n, true);
  }

  lemma {:induction false} RunKeeps(st: State, events: seq<Event>)
    requires Inv(st) && LegalRun(st, events)
    ensures Inv(Run(st, events))
    decreases |events|
  {
    hide InvAt, Enabled, Next;
    if events != [] {
      var served: nat :| InvAt(st, served);
      StepKeeps(st, events[0], served);
      RunKeeps(Next(st, events[0]), events[1..]);
    }
  }

  // ---------------------------------------------------------------- safety of every run

  /** In every interleaving of the server and at most 128 clients: nobody returns with the mutex
      locked, the outstanding requests are those of the clients that wait for a response, both rings
      have room for them, requests and responses are counted alike, and responses never run behind
      their readers. */
  lemma {:induction false} Safety(n: nat, events: seq<Event>)
    requires n <= MAXSIZE && LegalRun(Start(n), events)
    ensures var st := Run(Start(n), events);
            && !st.ring.locked
            && Minus(st.ring.requestWrites, st.ring.responseReads) == Count(st.clients, false) <= n
            && st.ring.requestReads == st.ring.responseWrites
            && Minus(st.ring.requestWrites, st.ring.requestReads) <= MAXSIZE
            && Count(st.clients, true) <= Minus(st.ring.responseWrites, st.ring.responseReads) <= MAXSIZE
  {
    hide Run, Minus, Count, Answer, Carries;
    StartInv(n);
    RunKeeps(Start(n), events);
    ClientsKept(Start(n), events);
    var st := Run(Start(n), events);
    var served: nat :| InvAt(st, served);
    assert Carries(st.ring, st.asked, served, |st.consumed|);
    CarriesOrder(st.ring, st.asked, served, |st.consumed|);
    MinusWrapped(|st.asked|, |st.consumed|);
    MinusWrapped(|st.asked|, served);
    MinusWrapped(served, |st.consumed|);
  }

  lemma {:induction false} CarriesOrder(ring: Ring, asked: seq<Question>, served: nat, taken: nat)
    requires Carries(ring, asked, served, taken)
    ensures Shaped(ring) && taken <= served <= |asked|
  {
  }

  lemma {:induction false} ClientsKept(st: State, events: seq<Event>)
    requires LegalRun(st, events)
    ensures |Run(st, events).clients| == |st.clients|
    decreases |events|
  {
    if events != [] {
      ClientsKept(Next(st, events[0]), events[1..]);
    }
  }

  ghost predicate AllAskable(asked: seq<Question>) { forall k | 0 <= k < |asked| :: Askable(asked[k].x, asked[k].p) }

  lemma {:induction false} RunAsks(st: State, events: seq<Event>)
    requires LegalRun(st, events) && AllAskable(st.asked)
    ensures AllAskable(Run(st, events).asked)
    decreases |events|
  {
    hide Wrote, Served, Taken, Askable, Minus;
    if events != [] {
      RunAsks(Next(st, events[0]), events[1..]);
    }
  }

  /** The k-th response read is 2^x modulo 97 for the x of the k-th request written: none is lost,
      answered twice or read out of order, however often the counters wrap. */
  lemma {:induction false} FirstInFirstOut(n: nat, events: seq<Event>)
    requires n <= MAXSIZE && LegalRun(Start(n), events)
    ensures var st := Run(Start(n), events);
            && |st.consumed| <= |st.asked|
            && forall k | 0 <= k < |st.consumed| :: 0 <= st.asked[k].x <= 30 && IsRemainder(st.asked[k].x, 97, st.consumed[k])
  {
    hide Run, Minus, Count, Answer, IsRemainder;
    StartInv(n);
    RunKeeps(Start(n), events);
    RunAsks(Start(n), events);
    var st := Run(Start(n), events);
    forall k | 0 <= k < |st.consumed|
      ensures 0 <= st.asked[k].x <= 30 && IsRemainder(st.asked[k].x, 97, st.consumed[k])
    {
      assert Askable(st.asked[k].x, st.asked[k].p);
      AnswerIsRemainder(st.asked[k].x, 97, st.consumed[k]);
    }
  }

  // ---------------------------------------------------------------- the limits of the protocol

  ghost predicate LocksUp(st: State, events: seq<Event>)
  {
    LegalRun(st, events) && Run(st, events).ring.locked
  }

  lemma {:induction false} OneMore(st: State, e: Event, rest: seq<Event>)
    requires Enabled(st, e) && LegalRun(Next(st, e), rest)
    ensures LegalRun(st, [e] + rest) && Run(st, [e] + rest) == Run(Next(st, e), rest)
  {
    hide Enabled, Next;
    assert ([e] + rest)[1..] == rest;
  }

  lemma {:induction false} NoMore(st: State)
    ensures LegalRun(st, []) && Run(st, []) == st
  {
  }

  /** So far `k` clients have written and the server has not read. */
  ghost predicate WrittenBy(st: State, k: nat)
  {
    && Shaped(st.ring) && !st.ring.locked && st.ring.requestWrites == k && st.ring.requestReads == 0
    && forall c | k <= c < |st.clients| :: st.clients[c].Idle?
  }

  lemma {:induction false} FillUp(st: State, k: nat) returns (events: seq<Event>)
    requires WrittenBy(st, k) && k <= MAXSIZE < |st.clients|
    ensures LocksUp(st, events)
    decreases MAXSIZE - k
  {
    var e := Write(k, 0, 97);
    var st' := Next(st, e);
    if k == MAXSIZE {
      NoMore(st');
      OneMore(st, e, []);
      events := [e] + [];
    } else {
      assert WrittenBy(st', k + 1);
      var rest := FillUp(st', k + 1);
      OneMore(st, e, rest);
      events := [e] + rest;
    }
  }

  /** Returning early with the mutex still locked can happen if and only if there are more clients
      than slots. */
  lemma {:induction false} EarlyReturn(n: nat)
    ensures (exists events: seq<Event> :: LocksUp(Start(n), events)) <==> n > MAXSIZE
  {
    hide Run, LegalRun, Count, Minus;
    if n > MAXSIZE {
      var events := FillUp(Start(n), 0);
    } else {
      forall events: seq<Event>
        ensures !LocksUp(Start(n), events)
      {
        if LegalRun(Start(n), events) {
          Safety(n, events);
        }
      }
    }
  }

  /** Nothing more can happen. */
  ghost predicate Stuck(st: State) { forall e: Event :: !Enabled(st, e) }

  ghost predicate AllWait(st: State)
  {
    st.server == Blocked && forall c | 0 <= c < |st.clients| :: st.clients[c].Waiting?
  }

  /** A signal finds its waiter, or finds nobody. */
  lemma {:induction false} SomebodyOrNobody(st: State, slot: int) returns (woken: Option<nat>)
    ensures Wakes(st, slot, woken)
  {
    if c: nat :| Waits(st, c, slot) {
      woken := Some(c);
    } else {
      woken := None;
    }
  }

  /** Unless everybody waits there is a next step. */
  lemma {:induction false} NextStep(st: State, served: nat) returns (e: Event)
    requires InvAt(st, served) && !AllWait(st)
    ensures Enabled(st, e)
  {
    hide Count, Counters, Carries, Minus, Answer, Served;
    InvShaped(st, served);
    match st.server {
      case Starting => e := ServerWait;
      case Ready => e := ServerWake;
      case Checking => e := ServerCheck;
      case Reading =>
        InvServes(st, served);
        var woken := SomebodyOrNobody(st, served % MAXSIZE);
        e := ServerRead(woken);
      case Blocked =>
        var c: nat :| c < |st.clients| && !st.clients[c].Waiting?;
        e := if st.clients[c].Idle? then Write(c, 0, 97) else if st.clients[c].Written? then Wait(c) else Consume(c);
    }
  }

  lemma {:induction false} StuckInv(st: State, served: nat)
    requires InvAt(st, served)
    ensures Stuck(st) <==> AllWait(st)
  {
    hide InvAt, Served;
    if !AllWait(st) {
      var e := NextStep(st, served);
    }
  }

  /** With at most 128 clients the system has stopped for good if and only if everybody waits. */
  lemma {:induction false} StuckIffAllWait(n: nat, events: seq<Event>)
    requires n <= MAXSIZE && LegalRun(Start(n), events)
    ensures Stuck(Run(Start(n), events)) <==> AllWait(Run(Start(n), events))
  {
    hide Run, InvAt, Stuck, AllWait;
    StartInv(n);
    RunKeeps(Start(n), events);
    var served: nat :| InvAt(Run(Start(n), events), served);
    StuckInv(Run(Start(n), events), served);
  }

  // how everybody can come to wait

  ghost predicate CanStop(st: State) { exists events: seq<Event> :: LegalRun(st, events) && Stuck(Run(st, events)) }

  lemma {:induction false} StopsLater(st: State, e: Event)
    requires Enabled(st, e) && CanStop(Next(st, e))
    ensures CanStop(st)
  {
    hide Enabled, Next, Stuck;
    var rest: seq<Event> :| LegalRun(Next(st, e), rest) && Stuck(Run(Next(st, e), rest));
    OneMore(st, e, rest);
  }

  /** The clients before `k` are in the first state, the others in the second. */
  ghost predicate Split(clients: seq<Client>, k: nat, waiting: bool)
  {
    && (forall c | 0 <= c < |clients| && c < k :: if waiting then clients[c].Waiting? else clients[c].Written?)
    && (forall c | k <= c < |clients| :: if waiting then clients[c].Written? else clients[c].Idle?)
  }

  lemma {:induction false} ThenAllWait(st: State, served: nat, k: nat)
    requires InvAt(st, served) && st.server == Blocked && k <= |st.clients| && Split(st.clients, k, true)
    ensures CanStop(st)
    decreases |st.clients| - k
  {
    hide Count, Counters, Carries, Minus, Answer;
    if k == |st.clients| {
      StuckInv(st, served);
      NoMore(st);
    } else {
      assert Shaped(st.ring) by { CarriesOrder(st.ring, st.asked, served, |st.consumed|); }
      StepKeeps(st, Wait(k), served);
      ThenAllWait(Next(st, Wait(k)), served, k + 1);
      StopsLater(st, Wait(k));
    }
  }

  /** The server answers every request before any client waits for its answer. */
  lemma {:induction false} ThenAllServed(st: State, served: nat)
    requires InvAt(st, served) && served <= |st.asked| && st.server == Checking && Split(st.clients, 0, true)
    ensures CanStop(st)
    decreases |st.asked| - served
  {
    hide Count, Counters, Carries, Minus, Answer, Served, CanStop, InvAt;
    assert Shaped(st.ring) && !st.ring.locked by { InvShaped(st, served); }
    StepKeeps(st, ServerCheck, served);
    CheckSees(st, served);
    var checked := Next(st, ServerCheck);
    assert Shaped(checked.ring);
    if served < |st.asked| {
      var read := ServerRead(None);
      assert Served(checked.ring).1.Some? by { InvServes(checked, served); }
      assert Enabled(checked, read);
      StepKeeps(checked, read, served);
      ThenAllServed(Next(checked, read), served + 1);
      StopsLater(checked, read);
    } else {
      StepKeeps(checked, ServerWait, served);
      ThenAllWait(Next(checked, ServerWait), served, 0);
      StopsLater(checked, ServerWait);
    }
    StopsLater(st, ServerCheck);
  }

  lemma {:induction false} InvShaped(st: State, served: nat)
    requires InvAt(st, served)
    ensures Shaped(st.ring) && !st.ring.locked && |st.consumed| <= served <= |st.asked|
  {
    CarriesOrder(st.ring, st.asked, served, |st.consumed|);
  }

  lemma {:induction false} InvServes(st: State, served: nat)
    requires InvAt(st, served) && served < |st.asked|
    ensures Shaped(st.ring) && Served(st.ring).1 == Some(served % MAXSIZE)
  {
    hide Count, Counters, Minus, Answer, Served;
    ServeCarries(st.ring, st.asked, served, |st.consumed|);
  }

  lemma {:induction false} InvWrites(st: State, served: nat, c: nat, x: int, p: int)
    requires InvAt(st, served) && c < |st.clients| && st.clients[c].Idle?
    ensures Shaped(st.ring) && Wrote(st.ring, x, p).1 == |st.asked| % MAXSIZE
  {
    hide Counters, Minus, Answer, Wrote;
    CountFull(st.clients, c);
    WriteCarries(st.ring, st.asked, served, |st.consumed|, x, p);
  }

  /** Every client writes before the woken server looks. */
  lemma {:induction false} ThenAllWritten(st: State, served: nat, k: nat)
    requires InvAt(st, served) && k <= |st.clients| && Split(st.clients, k, false)
    requires st.server == if k == 0 then Blocked else Ready
    ensures CanStop(st)
    decreases |st.clients| - k
  {
    hide Count, Counters, Carries, Minus, Answer, Wrote, CanStop, InvAt;
    assert Shaped(st.ring) && !st.ring.locked && served <= |st.asked| by { InvShaped(st, served); }
    if k < |st.clients| {
      var write := Write(k, 0, 97);
      InvWrites(st, served, k, 0, 97);
      StepKeeps(st, write, served);
      ThenAllWritten(Next(st, write), served, k + 1);
      StopsLater(st, write);
    } else if k == 0 {
      ThenAllWait(st, served, 0);
    } else {
      StepKeeps(st, ServerWake, served);
      ThenAllServed(Next(st, ServerWake), served);
      StopsLater(st, ServerWake);
    }
  }

  /** Responses signalled before their clients wait wake nobody: however many clients there are, up to
      128, some run stops with everybody waiting for good. */
  lemma {:induction false} LostWakeup(n: nat)
    requires n <= MAXSIZE
    ensures exists events: seq<Event> :: LegalRun(Start(n), events) && Stuck(Run(Start(n), events))
  {
    hide InvAt, Stuck, LegalRun, Run;
    StartInv(n);
    StepKeeps(Start(n), ServerWait, 0);
    ThenAllWritten(Next(Start(n), ServerWait), 0, 0);
    StopsLater(Start(n), ServerWait);
  }

  // only lost signals can stop the system

  /** The step signals a condition nobody waits for. */
  ghost predicate LosesSignal(st: State, e: Event)
    requires Enabled(st, e)
  {
    match e
    case Write(_, x, p) => Wrote(st.ring, x, p).1 != -1 && st.server != Blocked
    case ServerRead(woken) => Served(st.ring).1.Some? && woken == None
    case _ => false
  }

  ghost predicate SomeSignalLost(st: State, events: seq<Event>)
    requires LegalRun(st, events)
    decreases |events|
  {
    events != [] && (LosesSignal(st, events[0]) || SomeSignalLost(Next(st, events[0]), events[1..]))
  }

  /** While no signal is lost, each request served has woken its client, and the server waits only
      when there is nothing to serve. */
  ghost predicate NothingLost(st: State, served: nat)
  {
    && InvAt(st, served)
    && |st.consumed| + Count(st.clients, true) == served
    && (st.server == Starting || st.server == Blocked ==> served == |st.asked|)
  }

  lemma {:induction false} StepLosesNothing(st: State, e: Event, served: nat)
    requires NothingLost(st, served) && Enabled(st, e) && !LosesSignal(st, e)
    ensures NothingLost(Next(st, e), if e.ServerRead? then served + 1 else served)
  {
    hide Count, Counters, Carries, Wrote, Served, Taken, Minus, Answer;
    StepKeeps(st, e, served);
    var asked := |st.asked|;
    match e {
      case Write(c, x, p) =>
        InvWrites(st, served, c, x, p);
        CountSet(st.clients, c, Written(asked % MAXSIZE), true);
      case Wait(c) => CountSet(st.clients, c, Waiting(st.clients[c].slot), true);
      case Consume(c) => CountSet(st.clients, c, Idle, true);
      case ServerWait =>
      case ServerWake =>
      case ServerCheck =>
        InvShaped(st, served);
        CheckSees(st, served);
      case ServerRead(woken) =>
        InvServes(st, served);
        CountSet(st.clients, woken.value, Woken(st.clients[woken.value].slot), true);
    }
  }

  lemma {:induction false} RunLosesNothing(st: State, events: seq<Event>, served: nat) returns (served': nat)
    requires NothingLost(st, served) && LegalRun(st, events) && !SomeSignalLost(st, events)
    ensures NothingLost(Run(st, events), served')
    decreases |events|
  {
    hide NothingLost, Enabled, Next, LosesSignal;
    if events == [] {
      served' := served;
    } else {
      StepLosesNothing(st, events[0], served);
      served' := RunLosesNothing(Next(st, events[0]), events[1..], if events[0].ServerRead? then served + 1 else served);
    }
  }

  lemma {:induction false} NobodyWoken(clients: seq<Client>)
    requires forall c | 0 <= c < |clients| :: clients[c].Waiting?
    ensures Count(clients, true) == 0 && Count(clients, false) == |clients|
  {
    if clients != [] {
      NobodyWoken(clients[..|clients| - 1]);
    }
  }

  /** A run of at least one client stops for good only if some signal was sent while nobody waited
      for it. */
  lemma {:induction false} StopsOnlyByLostSignal(n: nat, events: seq<Event>)
    requires 1 <= n <= MAXSIZE && LegalRun(Start(n), events) && Stuck(Run(Start(n), events))
    ensures SomeSignalLost(Start(n), events)
  {
    hide Run, Stuck, Counters, Carries, Minus, Answer, SomeSignalLost;
    if !SomeSignalLost(Start(n), events) {
      StartInv(n);
      NobodyWaits(n, true);
      var served := RunLosesNothing(Start(n), events, 0);
      StuckIffAllWait(n, events);
      ClientsKept(Start(n), events);
      NobodyWoken(Run(Start(n), events).clients);
    }
  }
}
