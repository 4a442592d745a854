/**
 The request server of snfs_server/server.c as a state machine: one producer and any number of consumers share the
 ring under one monitor with one condition. A step is what one thread does between two points where others may run;
 the monitor's lock is not fair, and a waiting thread may also wake up for no reason.
 */
module ServerProtocol {
  import opened Bytes
  import opened ServerBuffer

  /** Where a consumer is; from Counting to Serving it has a request in hand. */
  datatype Consumer =
    | Entering | Checking | Waiting | Woken | Getting
    | Counting(req: Req) | Signalling(req: Req) | Leaving(req: Req) | Serving(req: Req)

  datatype Producer =
    | PEntering | PChecking | PWaiting | PWoken | Receiving | Putting(req: Req) | PCounting | PSignalling | PLeaving

  datatype Lock = Free | ByProducer | ByConsumer(i: nat)

  /** The request types with a handler. */
  const SERVICES: seq<int> := [1, 2, 3, 4, 5, 6, 7, 8]

  datatype Response = Response(to: Req, sn: int, known: bool)

  /** The answer to a request: its own serial number, and whether its type has a handler. */
  function Answer(q: Req): Response {
    Response(q, q.sn, q.kind in SERVICES)
  }

  /** accepted, taken and answers record what was put, what was got and what was sent, in order. */
  datatype Server = Server(
    ring: Ring, avail: int, lock: Lock, consumers: seq<Consumer>, producer: Producer,
    accepted: seq<Req>, taken: seq<Req>, answers: seq<Response>)

  function Start(n: nat): Server {
    Server(EmptyRing(), 0, Free, seq(n, _ => Entering), PEntering, [], [], [])
  }

  // ------------------------------------------------------------------ steps

  /** Whom a single signal wakes. */
  datatype Waiter = NoOne | AConsumer(j: nat) | TheProducer

  datatype Action =
    | CEnter(i: nat) | CCheck(i: nat) | CGet(i: nat) | CCount(i: nat) | CSignal(i: nat, w: Waiter) | CLeave(i: nat)
    | CAnswer(i: nat) | CSpurious(i: nat)
    | PEnter | PCheck | PReceive(m: Option<Req>) | PPut | PCount | PSignalAll | PLeave | PSpurious

  predicate Wakes(s: Server, w: Waiter) {
    match w
    case NoOne => s.producer != PWaiting && forall j :: 0 <= j < |s.consumers| ==> s.consumers[j] != Waiting
    case AConsumer(j) => j < |s.consumers| && s.consumers[j] == Waiting
    case TheProducer => s.producer == PWaiting
  }

  predicate At(s: Server, i: nat, c: Consumer) {
    i < |s.consumers| && s.consumers[i] == c
  }

  predicate Can(s: Server, a: Action) {
    match a
    case CEnter(i) => (At(s, i, Entering) || At(s, i, Woken)) && s.lock == Free
    case CCheck(i) => At(s, i, Checking)
    case CGet(i) => At(s, i, Getting) && GetReq(s.ring).0.Some?
    case CCount(i) => i < |s.consumers| && s.consumers[i].Counting?
    case CSignal(i, w) => i < |s.consumers| && s.consumers[i].Signalling? && Wakes(s, w)
    case CLeave(i) => i < |s.consumers| && s.consumers[i].Leaving?
    case CAnswer(i) => i < |s.consumers| && s.consumers[i].Serving?
    case CSpurious(i) => At(s, i, Waiting)
    case PEnter => (s.producer == PEntering || s.producer == PWoken) && s.lock == Free
    case PCheck => s.producer == PChecking
    case PReceive(_) => s.producer == Receiving
    case PPut => s.producer.Putting?
    case PCount => s.producer == PCounting
    case PSignalAll => s.producer == PSignalling
    case PLeave => s.producer == PLeaving
    case PSpurious => s.producer == PWaiting
  }

  function Move(s: Server, i: nat, c: Consumer): Server
    requires i < |s.consumers|
  {
    s.(consumers := s.consumers[i := c])
  }

  function WakeAll(cs: seq<Consumer>): (r: seq<Consumer>)
    ensures |r| == |cs| && forall i :: 0 <= i < |r| ==> r[i] == if cs[i] == Waiting then Woken else cs[i]
  {
    seq(|cs|, i requires 0 <= i < |cs| => if cs[i] == Waiting then Woken else cs[i])
  }

  function Wake(s: Server, w: Waiter): Server
    requires Wakes(s, w)
  {
    match w
    case NoOne => s
    case AConsumer(j) => Move(s, j, Woken)
    case TheProducer => s.(producer := PWoken)
  }

  function Do(s: Server, a: Action): Server
    requires Can(s, a)
  {
    match a
    case CEnter(i) => Move(s, i, Checking).(lock := ByConsumer(i))
    case CCheck(i) => if s.avail == 0 then Move(s, i, Waiting).(lock := Free) else Move(s, i, Getting)
    case CGet(i) =>
      var (q, ring) := GetReq(s.ring);
      Move(s, i, Counting(q.value)).(ring := ring, taken := s.taken + [q.value])
    case CCount(i) => Move(s, i, Signalling(s.consumers[i].req)).(avail := s.avail - 1)
    case CSignal(i, w) => Move(Wake(s, w), i, Leaving(s.consumers[i].req))
    case CLeave(i) => Move(s, i, Serving(s.consumers[i].req)).(lock := Free)
    case CAnswer(i) => Move(s, i, Entering).(answers := s.answers + [Answer(s.consumers[i].req)])
    case CSpurious(i) => Move(s, i, Woken)
    case PEnter => s.(producer := PChecking, lock := ByProducer)
    case PCheck => if s.avail == RING_SIZE then s.(producer := PWaiting, lock := Free) else s.(producer := Receiving)
    case PReceive(m) => s.(producer := if m.Some? then Putting(m.value) else PLeaving)
    case PPut => s.(ring := PutReq(s.ring, s.producer.req), producer := PCounting,
          accepted := s.accepted + [s.producer.req])
    case PCount => s.(avail := s.avail + 1, producer := PSignalling)
    case PSignalAll => s.(consumers := WakeAll(s.consumers), producer := PLeaving)
    case PLeave => s.(producer := PEntering, lock := Free)
    case PSpurious => s.(producer := PWoken)
  }

  /** The actions, one after the other, lead from s to s'. */
  ghost predicate Leads(s: Server, actions: seq<Action>, s': Server)
    decreases |actions|
  {
    if actions == [] then s' == s else Can(s, actions[0]) && Leads(Do(s, actions[0]), actions[1..], s')
  }

  ghost predicate Reachable(s: Server) {
    exists n: nat, actions: seq<Action> :: Leads(Start(n), actions, s)
  }

  // ------------------------------------------------------------------ the invariant

  predicate InMonitor(c: Consumer) {
    c.Checking? || c.Getting? || c.Counting? || c.Signalling? || c.Leaving?
  }

  predicate ProducerInMonitor(p: Producer) {
    p.PChecking? || p.Receiving? || p.Putting? || p.PCounting? || p.PSignalling? || p.PLeaving?
  }

  /** The lock says who is inside. */
  ghost predicate LockOk(s: Server) {
    && (s.lock.ByConsumer? ==> s.lock.i < |s.consumers|)
    && (forall i :: 0 <= i < |s.consumers| ==> (InMonitor(s.consumers[i]) <==> s.lock == ByConsumer(i)))
    && (ProducerInMonitor(s.producer) <==> s.lock == ByProducer)
  }

  /** The bounds of the counter each thread inside relies on. */
  ghost predicate CountOk(s: Server) {
    && 0 <= s.avail <= RING_SIZE
    && (s.producer.Receiving? || s.producer.Putting? || s.producer.PCounting? ==> s.avail < RING_SIZE)
    && (s.producer.PSignalling? ==> 0 < s.avail)
    && (forall i :: 0 <= i < |s.consumers| && (s.consumers[i].Getting? || s.consumers[i].Counting?) ==> 0 < s.avail)
    && (forall i :: 0 <= i < |s.consumers| && s.consumers[i].Signalling? ==> s.avail < RING_SIZE)
  }

  /** A consumer has decremented the counter and not yet signalled. */
  ghost predicate SignalDue(s: Server) {
    s.lock.ByConsumer? && s.lock.i < |s.consumers| && s.consumers[s.lock.i].Signalling?
  }

  /**
   Consumers sleep only while there is nothing to take, the producer only while there is no room, except between a
   change of the counter and the signal that follows it; and then no consumer sleeps that could catch the signal
   meant for the producer.
   */
  ghost predicate WaitOk(s: Server) {
    && (forall i :: 0 <= i < |s.consumers| && s.consumers[i] == Waiting ==>
          (s.avail == 0 || s.producer == PSignalling) && !SignalDue(s))
    && (s.producer == PWaiting ==> s.avail == RING_SIZE || SignalDue(s))
  }

  /** Between get_req and the decrement, and between put_req and the increment, the counter is one off. */
  ghost function Unread(s: Server): int {
    s.avail + (if s.producer == PCounting then 1 else 0)
            - (if s.lock.ByConsumer? && s.lock.i < |s.consumers| && s.consumers[s.lock.i].Counting? then 1 else 0)
  }

  /** The requests taken are a prefix of those accepted; the rest lie in the ring in order. */
  ghost predicate FifoOk(ring: Ring, accepted: seq<Req>, taken: seq<Req>) {
    && taken <= accepted && |accepted| - |taken| <= RING_SIZE
    && ring.putPos == Place(ring.getPos, |accepted| - |taken|)
    && var rest := accepted[|taken|..];
       forall i :: 0 <= i < |rest| ==> Pending(ring, |rest|)[i] == Some(rest[i])
  }

  /** The request a consumer has in hand. */
  function Hand(c: Consumer): Option<Req> {
    if c.Counting? || c.Signalling? || c.Leaving? || c.Serving? then Some(c.req) else None
  }

  function InHand(c: Consumer): multiset<Req> {
    AsMultiset(Hand(c))
  }

  function AsMultiset(q: Option<Req>): multiset<Req> {
    if q.Some? then multiset{q.value} else multiset{}
  }

  ghost function Held(cs: seq<Consumer>): multiset<Req> {
    if cs == [] then multiset{} else InHand(cs[0]) + Held(cs[1..])
  }

  ghost function Answered(answers: seq<Response>): (m: multiset<Req>) {
    if answers == [] then multiset{} else Answered(answers[..|answers| - 1]) + multiset{answers[|answers| - 1].to}
  }

  ghost predicate AnswersOk(s: Server) {
    && Held(s.consumers) + Answered(s.answers) == multiset(s.taken)
    && forall i :: 0 <= i < |s.answers| ==> s.answers[i] == Answer(s.answers[i].to)
  }

  ghost predicate Inv(s: Server) {
    && LockOk(s) && CountOk(s) && WaitOk(s)
    && FifoOk(s.ring, s.accepted, s.taken) && |s.accepted| - |s.taken| == Unread(s)
    && AnswersOk(s)
  }

  // ------------------------------------------------------------------ one step keeps it

  lemma LockStep(s: Server, a: Action)
    requires Can(s, a) && LockOk(s)
    ensures LockOk(Do(s, a))
  {
    hide GetReq, PutReq, Answer;
  }

  lemma CountStep(s: Server, a: Action)
    requires Can(s, a) && LockOk(s) && CountOk(s)
    ensures CountOk(Do(s, a))
  {
    hide GetReq, PutReq, Answer;
  }

  lemma WaitStep(s: Server, a: Action)
    requires Can(s, a) && LockOk(s) && CountOk(s) && WaitOk(s)
    ensures WaitOk(Do(s, a))
  {
    hide GetReq, PutReq, Answer;
  }

  lemma UnreadStep(s: Server, a: Action)
    requires Can(s, a) && LockOk(s)
    ensures Unread(Do(s, a)) == Unread(s) + (if a.PPut? then 1 else 0) - (if a.CGet? then 1 else 0)
  {
    hide GetReq, PutReq, Answer;
  }

  lemma FifoStep(s: Server, a: Action)
    requires Can(s, a) && Inv(s)
    ensures var s' := Do(s, a);
      FifoOk(s'.ring, s'.accepted, s'.taken)
            && |s'.accepted| - |s'.taken|
              == |s.accepted| - |s.taken| + (if a.PPut? then 1 else 0) - (if a.CGet? then 1 else 0)
  {
    hide GetReq, PutReq, Answer, Pending, Place, Held, WaitOk;
    if a.CGet? {
      TakeKeepsFifo(s.ring, s.accepted, s.taken);
    } else if a.PPut? {
      PutKeepsFifo(s.ring, s.accepted, s.taken, s.producer.req);
    }
  }

  lemma TakeKeepsFifo(ring: Ring, accepted: seq<Req>, taken: seq<Req>)
    requires FifoOk(ring, accepted, taken) && |taken| < |accepted|
    ensures var (q, ring') := GetReq(ring); q.Some? && FifoOk(ring', accepted, taken + [q.value])
  {
    hide GetReq, Pending, Place;
    var rest := accepted[|taken|..];
    PendingAfterGet(ring, |rest|);
    GetKeepsPut(ring);
    var (q, ring') := GetReq(ring);
    assert Pending(ring, |rest|)[0] == Some(rest[0]);
    var rest' := accepted[|taken| + 1..];
    forall i | 0 <= i < |rest'| ensures Pending(ring', |rest'|)[i] == Some(rest'[i]) {
      assert Pending(ring, |rest|)[i + 1] == Some(rest[i + 1]);
    }
  }

  lemma PutKeepsFifo(ring: Ring, accepted: seq<Req>, taken: seq<Req>, q: Req)
    requires FifoOk(ring, accepted, taken) && |accepted| - |taken| < RING_SIZE
    ensures FifoOk(PutReq(ring, q), accepted + [q], taken)
  {
    hide PutReq, Pending, Place;
    var rest := accepted[|taken|..];
    PendingAfterPut(ring, |rest|, q);
    PutKeepsGet(ring, q);
    assert (accepted + [q])[|taken|..] == rest + [q];
  }

  lemma {:induction false} HeldUpdate(cs: seq<Consumer>, i: nat, c: Consumer)
    requires i < |cs|
    ensures Held(cs[i := c]) + InHand(cs[i]) == Held(cs) + InHand(c)
  {
    hide InHand;
    var ds := cs[i := c];
    if i == 0 {
      assert ds[1..] == cs[1..];
    } else {
      HeldUpdate(cs[1..], i - 1, c);
      assert ds[1..] == cs[1..][i - 1 := c];
      assert cs[1..][i - 1] == cs[i] && ds[0] == cs[0];
      assert Held(ds) + InHand(cs[i]) == InHand(cs[0]) + (Held(ds[1..]) + InHand(cs[i]));
    }
  }

  lemma {:induction false} HeldSame(cs: seq<Consumer>, ds: seq<Consumer>)
    requires |cs| == |ds| && forall i :: 0 <= i < |cs| ==> Hand(cs[i]) == Hand(ds[i])
    ensures Held(cs) == Held(ds)
  {
    hide Hand, AsMultiset;
    if cs != [] {
      assert Hand(cs[0]) == Hand(ds[0]);
      HeldSame(cs[1..], ds[1..]);
    }
  }

  /** What an action puts into a consumer's hand, and what it takes out. */
  ghost function Gained(s: Server, a: Action): multiset<Req>
    requires Can(s, a)
  {
    if a.CGet? then multiset{GetReq(s.ring).0.value} else multiset{}
  }

  ghost function Lost(s: Server, a: Action): multiset<Req>
    requires Can(s, a)
  {
    if a.CAnswer? then multiset{s.consumers[a.i].req} else multiset{}
  }

  predicate MovesOne(a: Action) {
    a.CEnter? || a.CCheck? || a.CGet? || a.CCount? || a.CLeave? || a.CAnswer? || a.CSpurious?
  }

  lemma OneMoves(s: Server, a: Action)
    requires Can(s, a) && MovesOne(a)
    ensures var cs := Do(s, a).consumers;
      && a.i < |s.consumers| == |cs| && cs == s.consumers[a.i := cs[a.i]]
      && (a.CGet? ==> Hand(s.consumers[a.i]) == None && Hand(cs[a.i]) == GetReq(s.ring).0)
      && (a.CAnswer? ==> Hand(s.consumers[a.i]) == Some(s.consumers[a.i].req) && Hand(cs[a.i]) == None)
      && (!a.CGet? && !a.CAnswer? ==> Hand(cs[a.i]) == Hand(s.consumers[a.i]))
  {
    hide GetReq, PutReq, Answer;
  }

  lemma HandBalance(s: Server, a: Action)
    requires Can(s, a) && MovesOne(a)
    ensures a.i < |s.consumers| == |Do(s, a).consumers|
    ensures InHand(Do(s, a).consumers[a.i]) + Lost(s, a) == InHand(s.consumers[a.i]) + Gained(s, a)
  {
    hide Do, Hand;
    OneMoves(s, a);
  }

  lemma HandsStay(s: Server, a: Action)
    requires Can(s, a) && !MovesOne(a)
    ensures var cs := Do(s, a).consumers;
      |cs| == |s.consumers| && forall i :: 0 <= i < |cs| ==> Hand(s.consumers[i]) == Hand(cs[i])
  {
    hide GetReq, PutReq, Answer;
  }

  lemma NothingMoves(s: Server, a: Action)
    requires Can(s, a) && !MovesOne(a)
    ensures Gained(s, a) == Lost(s, a) == multiset{}
  {
    hide Can, Do;
  }

  lemma HeldStep(s: Server, a: Action)
    requires Can(s, a)
    ensures Held(Do(s, a).consumers) + Lost(s, a) == Held(s.consumers) + Gained(s, a)
  {
    hide Held, Gained, Lost, InHand, Hand, Do, Can;
    if MovesOne(a) {
      OneMoves(s, a);
      HandBalance(s, a);
      HeldUpdate(s.consumers, a.i, Do(s, a).consumers[a.i]);
      Exchange(Held(Do(s, a).consumers), InHand(s.consumers[a.i]), Held(s.consumers), InHand(Do(s, a).consumers[a.i]),
            Lost(s, a), Gained(s, a));
    } else {
      HandsStay(s, a);
      NothingMoves(s, a);
      HeldSame(s.consumers, Do(s, a).consumers);
    }
  }

  lemma Exchange(h': multiset<Req>, x: multiset<Req>, h: multiset<Req>, x': multiset<Req>, lost: multiset<Req>,
        gained: multiset<Req>)
    requires h' + x == h + x' && x' + lost == x + gained
    ensures h' + lost == h + gained
  {
    forall q: Req ensures (h' + lost)[q] == (h + gained)[q] {
      assert (h' + x)[q] == (h + x')[q] && (x' + lost)[q] == (x + gained)[q];
    }
  }

  lemma RecordsAre(s: Server, a: Action)
    requires Can(s, a)
    ensures Do(s, a).taken == if a.CGet? then s.taken + [GetReq(s.ring).0.value] else s.taken
    ensures Do(s, a).answers == if a.CAnswer? then s.answers + [Answer(s.consumers[a.i].req)] else s.answers
  {
    hide GetReq, PutReq, Answer;
  }

  lemma RecordsStep(s: Server, a: Action)
    requires Can(s, a)
    ensures multiset(Do(s, a).taken) == multiset(s.taken) + Gained(s, a)
    ensures Answered(Do(s, a).answers) == Answered(s.answers) + Lost(s, a)
    ensures Do(s, a).answers == s.answers || (a.CAnswer? && Do(s, a).answers
          == s.answers + [Answer(s.consumers[a.i].req)])
  {
    RecordsAre(s, a);
    hide Do, GetReq;
    if a.CAnswer? {
      assert Do(s, a).answers[..|s.answers|] == s.answers;
    }
  }

  lemma AnswersStep(s: Server, a: Action)
    requires Can(s, a) && AnswersOk(s)
    ensures AnswersOk(Do(s, a))
  {
    hide Held, Gained, Lost, Do, Can, Answered;
    HeldStep(s, a);
    RecordsStep(s, a);
    var s' := Do(s, a);
    assert Held(s'.consumers) + Answered(s'.answers) == Held(s'.consumers) + Lost(s, a) + Answered(s.answers);
  }

  lemma StepKeepsInv(s: Server, a: Action)
    requires Can(s, a) && Inv(s)
    ensures Inv(Do(s, a))
  {
    hide LockOk, CountOk, WaitOk, FifoOk, AnswersOk, Unread, Do, Can;
    LockStep(s, a);
    CountStep(s, a);
    WaitStep(s, a);
    UnreadStep(s, a);
    FifoStep(s, a);
    AnswersStep(s, a);
  }

  lemma {:induction false} NobodyHolds(n: nat)
    ensures Held(seq(n, _ => Entering)) == multiset{}
  {
    if n > 0 {
      assert seq(n, _ => Entering)[1..] == seq(n - 1, _ => Entering);
      NobodyHolds(n - 1);
    }
  }

  lemma StartOk(n: nat)
    ensures Inv(Start(n))
  {
    NobodyHolds(n);
  }

  lemma {:induction false} LeadsKeepsInv(s: Server, actions: seq<Action>, s': Server)
    requires Inv(s) && Leads(s, actions, s')
    ensures Inv(s')
    decreases |actions|
  {
    hide Inv, Can, Do;
    if actions != [] {
      StepKeepsInv(s, actions[0]);
      LeadsKeepsInv(Do(s, actions[0]), actions[1..], s');
    }
  }

  lemma ReachableInv(s: Server)
    requires Reachable(s)
    ensures Inv(s)
  {
    hide Inv, Leads;
    var n: nat, actions: seq<Action> :| Leads(Start(n), actions, s);
    StartOk(n);
    LeadsKeepsInv(Start(n), actions, s);
  }

  // ------------------------------------------------------------------ what follows

  /** No lost wake-up: unless a thread is just about to signal, sleepers have nothing to do. */
  lemma NoLostWakeUp(s: Server)
    requires Reachable(s)
    ensures forall i :: 0 <= i < |s.consumers| && s.consumers[i] == Waiting ==>
          s.avail == 0 || s.producer == PSignalling
    ensures s.producer == PWaiting ==>
      s.avail == RING_SIZE || exists i :: 0 <= i < |s.consumers| && s.consumers[i].Signalling?
  {
    hide LockOk, CountOk, FifoOk, AnswersOk, Unread, Reachable;
    ReachableInv(s);
  }

  /** One signal is enough: it wakes the producer whenever the producer sleeps. */
  lemma SignalReachesProducer(s: Server, i: nat, w: Waiter)
    requires Reachable(s) && Can(s, CSignal(i, w)) && s.producer == PWaiting
    ensures w == TheProducer && Do(s, CSignal(i, w)).producer == PWoken
  {
    hide CountOk, FifoOk, AnswersOk, Unread, Reachable;
    ReachableInv(s);
    assert s.lock == ByConsumer(i);
  }

  predicate Spurious(a: Action) {
    a.CSpurious? || a.PSpurious?
  }

  /** The next step of the thread inside the monitor. */
  lemma InsideCanMove(s: Server) returns (a: Action)
    requires Inv(s) && s.lock != Free
    ensures Can(s, a) && !Spurious(a)
  {
    hide FifoOk, AnswersOk, WaitOk, GetReq, PutReq, Pending, Held, Place;
    match s.lock
    case ByProducer =>
      a := match s.producer
        case PChecking => PCheck
        case Receiving => PReceive(None)
        case Putting(_) => PPut
        case PCounting => PCount
        case PSignalling => PSignalAll
        case _ => PLeave;
    case ByConsumer(i) =>
      match s.consumers[i]
      case Checking => a := CCheck(i);
      case Getting =>
        TakeKeepsFifo(s.ring, s.accepted, s.taken);
        a := CGet(i);
      case Counting(_) => a := CCount(i);
      case Signalling(_) =>
        if j: nat :| j < |s.consumers| && s.consumers[j] == Waiting {
          a := CSignal(i, AConsumer(j));
        } else if s.producer == PWaiting {
          a := CSignal(i, TheProducer);
        } else {
          a := CSignal(i, NoOne);
        }
      case _ => a := CLeave(i);
  }

  lemma OutsideCanMove(s: Server) returns (a: Action)
    requires Inv(s) && s.lock == Free && |s.consumers| > 0
    ensures Can(s, a) && !Spurious(a)
  {
    hide FifoOk, AnswersOk, GetReq, PutReq, Held;
    if s.producer == PWaiting {
      a := if s.consumers[0].Serving? then CAnswer(0) else CEnter(0);
    } else {
      a := PEnter;
    }
  }

  /** The threads are never all asleep or stuck: without any spurious wake-up, some thread can always move. */
  lemma NeverStuck(s: Server)
    requires Reachable(s) && |s.consumers| > 0
    ensures exists a: Action :: Can(s, a) && !Spurious(a)
  {
    hide Inv, Reachable, Can;
    ReachableInv(s);
    if s.lock == Free {
      var a := OutsideCanMove(s);
    } else {
      var a := InsideCanMove(s);
    }
  }

  /**
   The buffer is an exactly-once queue: what was taken is a prefix of what was accepted, in order, at most ten requests
   are in between, and they are what the ring still holds: no slot is overwritten before it is read.
   */
  lemma ExactlyOnceInOrder(s: Server)
    requires Reachable(s)
    ensures s.taken <= s.accepted && 0 <= s.avail <= RING_SIZE && |s.accepted| - |s.taken| <= RING_SIZE
    ensures s.lock == Free ==>
      s.avail == |s.accepted| - |s.taken| && s.ring.putPos == (s.ring.getPos + s.avail) % RING_SIZE
    ensures var rest := s.accepted[|s.taken|..];
      forall i :: 0 <= i < |rest| ==> s.ring.slots[Place(s.ring.getPos, i)] == Some(rest[i])
  {
    hide WaitOk, AnswersOk, Reachable;
    ReachableInv(s);
    var rest := s.accepted[|s.taken|..];
    forall i | 0 <= i < |rest| ensures s.ring.slots[Place(s.ring.getPos, i)] == Some(rest[i]) {
      assert Pending(s.ring, |rest|)[i] == Some(rest[i]);
    }
  }

  /** Every request taken is answered at most once and is otherwise still in a consumer's hand; answers carry the
   request's own serial number. */
  lemma AnsweredOnceEach(s: Server)
    requires Reachable(s)
    ensures Held(s.consumers) + Answered(s.answers) == multiset(s.taken)
    ensures forall i :: 0 <= i < |s.answers| ==>
      s.answers[i].sn == s.answers[i].to.sn && (s.answers[i].known <==> 1 <= s.answers[i].to.kind <= 8)
  {
    hide LockOk, WaitOk, CountOk, FifoOk, Unread, Reachable, Held, Answered;
    ReachableInv(s);
  }
}
