/** Message queues as step systems.  A receive may ask for one kind of message; the source then
    marks the message it found and shifts the whole queue down over its head, so a message
    further back leaves a dead cell behind and takes the head with it. */
module QueueModel {
  import opened Common
  import opened IpcModel

  const QUEUE_SIZE: nat := 16

  datatype Message = Message(kind: nat, data: seq<bv8>)

  datatype Cell = Cell(m: Message, valid: bool)

  datatype Queue = Queue(cells: seq<Cell>, senders: seq<Pid>, receivers: seq<Pid>)

  // ---------------------------------------------------------------------------------
  // Cells
  // ---------------------------------------------------------------------------------

  /** Kind 0 asks for any message. */
  predicate Wanted(c: Cell, want: nat)
  {
    c.valid && (want == 0 || c.m.kind == want)
  }

  /** The first wanted cell, or the length. */
  function Match(cells: seq<Cell>, want: nat): (k: nat)
    ensures k <= |cells| && (k < |cells| ==> Wanted(cells[k], want))
    ensures forall j: nat | j < k :: !Wanted(cells[j], want)
  {
    if cells == [] || Wanted(cells[0], want) then 0 else 1 + Match(cells[1..], want)
  }

  /** How many cells are wanted. */
  function Matching(cells: seq<Cell>, want: nat): (n: nat)
    ensures n <= |cells|
  {
    if cells == [] then 0 else (if Wanted(cells[0], want) then 1 else 0) + Matching(cells[1..], want)
  }

  /** The messages that can still be received, oldest first. */
  function Live(cells: seq<Cell>): (ms: seq<Message>)
    ensures |ms| <= |cells|
  {
    if cells == [] then [] else LiveIn(cells[0]) + Live(cells[1..])
  }

  function LiveIn(c: Cell): seq<Message> {
    if c.valid then [c.m] else []
  }

  /** The messages of one kind. */
  function Of(t: nat, ms: seq<Message>): seq<Message>
  {
    if ms == [] then [] else OfOne(t, ms[0]) + Of(t, ms[1..])
  }

  function OfOne(t: nat, m: Message): seq<Message> {
    if m.kind == t then [m] else []
  }

  /** What a receive leaves: the cell is dead, and the head is gone. */
  function Taken(cells: seq<Cell>, k: nat): seq<Cell>
    requires k < |cells|
  {
    cells[k := cells[k].(valid := false)][1..]
  }

  /** What a receive should leave: the cell is gone. */
  function Without(cells: seq<Cell>, k: nat): seq<Cell>
    requires k < |cells|
  {
    cells[..k] + cells[k + 1..]
  }

  lemma Assoc<T>(a: seq<T>, b: seq<T>, c: seq<T>)
    ensures a + (b + c) == a + b + c
  {
  }

  lemma Tail<T>(a: seq<T>, b: seq<T>)
    requires a != []
    ensures (a + b)[0] == a[0] && (a + b)[1..] == a[1..] + b
  {
  }

  lemma CutAt<T>(s: seq<T>, k: nat)
    requires k < |s|
    ensures s == s[..k] + [s[k]] + s[k + 1..]
  {
  }

  lemma CutUpTo<T>(s: seq<T>, k: nat)
    requires 0 < k <= |s|
    ensures s[..k] == s[..1] + s[1..k]
  {
  }

  lemma CutTaken(cells: seq<Cell>, k: nat)
    requires 0 < k < |cells|
    ensures Taken(cells, k) == cells[1..k] + [cells[k].(valid := false)] + cells[k + 1..]
  {
  }

  lemma {:induction false} LiveCat(a: seq<Cell>, b: seq<Cell>)
    ensures Live(a + b) == Live(a) + Live(b)
  {
    if a == [] {
      assert a + b == b;
    } else {
      Tail(a, b);
      LiveCat(a[1..], b);
      Assoc(LiveIn(a[0]), Live(a[1..]), Live(b));
    }
  }

  lemma {:induction false} OfCat(t: nat, a: seq<Message>, b: seq<Message>)
    ensures Of(t, a + b) == Of(t, a) + Of(t, b)
  {
    if a == [] {
      assert a + b == b;
    } else {
      Tail(a, b);
      OfCat(t, a[1..], b);
      Assoc(OfOne(t, a[0]), Of(t, a[1..]), Of(t, b));
    }
  }

  lemma {:induction false} MatchingCat(a: seq<Cell>, b: seq<Cell>, want: nat)
    ensures Matching(a + b, want) == Matching(a, want) + Matching(b, want)
  {
    if a == [] {
      assert a + b == b;
    } else {
      Tail(a, b);
      MatchingCat(a[1..], b, want);
    }
  }

  lemma {:induction false} NoMatch(cells: seq<Cell>, want: nat)
    requires forall c | c in cells :: !Wanted(c, want)
    ensures Matching(cells, want) == 0
  {
    if cells != [] {
      NoMatch(cells[1..], want);
    }
  }

  /** Cells none of which is wanted hold no message of that kind. */
  lemma {:induction false} NoneOf(cells: seq<Cell>, want: nat, t: nat)
    requires (forall c | c in cells :: !Wanted(c, want)) && (want == 0 || want == t)
    ensures Of(t, Live(cells)) == []
  {
    if cells != [] {
      NoneOf(cells[1..], want, t);
      assert !Wanted(cells[0], want);
      OfCat(t, LiveIn(cells[0]), Live(cells[1..]));
    }
  }

  /** A cell that matches and no earlier one does is the match. */
  lemma MatchIs(cells: seq<Cell>, want: nat, k: nat)
    requires k <= |cells| && (k < |cells| ==> Wanted(cells[k], want))
    requires forall j: nat | j < k :: !Wanted(cells[j], want)
    ensures Match(cells, want) == k
  {
  }

  lemma LiveThree(a: seq<Cell>, c: Cell, b: seq<Cell>)
    ensures Live(a + [c] + b) == Live(a) + LiveIn(c) + Live(b)
  {
    LiveCat(a + [c], b);
    LiveCat(a, [c]);
    assert Live([c]) == LiveIn(c);
  }

  /** The live messages around a cell. */
  lemma LiveAround(cells: seq<Cell>, k: nat)
    requires 0 < k < |cells| && cells[k].valid
    ensures Live(cells) == Live(cells[..1]) + Live(cells[1..k]) + [cells[k].m] + Live(cells[k + 1..])
    ensures Live(Taken(cells, k)) == Live(cells[1..k]) + Live(cells[k + 1..])
    ensures Live(Without(cells, k)) == Live(cells[..1]) + Live(cells[1..k]) + Live(cells[k + 1..])
  {
    LiveUpTo(cells, k);
    LiveAt(cells, k);
    LiveCat(cells[..k], cells[k + 1..]);
    TakenLive(cells, k);
  }

  lemma LiveUpTo(cells: seq<Cell>, k: nat)
    requires 0 < k < |cells|
    ensures Live(cells[..k]) == Live(cells[..1]) + Live(cells[1..k])
  {
    CutUpTo(cells, k);
    LiveCat(cells[..1], cells[1..k]);
  }

  lemma LiveAt(cells: seq<Cell>, k: nat)
    requires k < |cells| && cells[k].valid
    ensures Live(cells) == Live(cells[..k]) + [cells[k].m] + Live(cells[k + 1..])
  {
    CutAt(cells, k);
    LiveThree(cells[..k], cells[k], cells[k + 1..]);
  }

  lemma TakenLive(cells: seq<Cell>, k: nat)
    requires 0 < k < |cells|
    ensures Live(Taken(cells, k)) == Live(cells[1..k]) + Live(cells[k + 1..])
  {
    var dead := cells[k].(valid := false);
    CutTaken(cells, k);
    LiveThree(cells[1..k], dead, cells[k + 1..]);
    assert Live(cells[1..k]) + [] == Live(cells[1..k]);
  }

  /** A receive leaves exactly the other messages if and only if it took the head, or the head
      was dead. */
  lemma TakenExactIff(cells: seq<Cell>, k: nat)
    requires k < |cells| && cells[k].valid
    ensures Live(Taken(cells, k)) == Live(Without(cells, k)) <==> k == 0 || !cells[0].valid
  {
    if k == 0 {
      assert Taken(cells, k) == Without(cells, k);
    } else {
      LiveAround(cells, k);
      HeadLive(cells);
    }
  }

  lemma HeadLive(cells: seq<Cell>)
    requires cells != []
    ensures Live(cells[..1]) == LiveIn(cells[0])
  {
    assert cells[..1] == [cells[0]];
  }

  /** Fewer wanted messages are left behind a receive that took one. */
  lemma TakenMatching(cells: seq<Cell>, k: nat, want: nat)
    requires k < |cells| && Wanted(cells[k], want)
    ensures Matching(Taken(cells, k), want) < Matching(cells, want)
  {
    var dead := cells[k].(valid := false);
    var marked := cells[k := dead];
    assert cells == cells[..k] + ([cells[k]] + cells[k + 1..]);
    assert marked == cells[..k] + ([dead] + cells[k + 1..]);
    MatchingCat(cells[..k], [cells[k]] + cells[k + 1..], want);
    MatchingCat(cells[..k], [dead] + cells[k + 1..], want);
    MatchingCat([cells[k]], cells[k + 1..], want);
    MatchingCat([dead], cells[k + 1..], want);
    assert Matching([cells[k]], want) == 1 && Matching([dead], want) == 0;
  }

  // ---------------------------------------------------------------------------------
  // Steps
  // ---------------------------------------------------------------------------------

  /** What a step did: its result and the processes it woke. */
  datatype Effect = Effect(q: Queue, result: Result, woken: seq<Pid>)

  /** One turn of a send.  A full queue first wakes every blocked receiver. */
  function SendStep(q: Queue, p: Pid, m: Message): Effect
  {
    if |q.cells| >= QUEUE_SIZE then
      if |q.senders| >= MAX_BLOCKED then Effect(q.(receivers := []), Refused, q.receivers)
      else Effect(q.(receivers := [], senders := q.senders + [p]), Waiting, q.receivers)
    else
      var r := q.(cells := q.cells + [Cell(m, true)]);
      if q.receivers == [] then Effect(r, Done, []) else Effect(r.(receivers := q.receivers[1..]), Done, [q.receivers[0]])
  }

  /** One turn of a receive. */
  function RecvStep(q: Queue, p: Pid, want: nat): Effect
  {
    var k := Match(q.cells, want);
    if k < |q.cells| then
      var r := q.(cells := Taken(q.cells, k));
      if q.senders == [] then Effect(r, Done, []) else Effect(r.(senders := q.senders[1..]), Done, [q.senders[0]])
    else if |q.receivers| >= MAX_BLOCKED then Effect(q, Refused, [])
    else Effect(q.(receivers := q.receivers + [p]), Waiting, [])
  }

  // ---------------------------------------------------------------------------------
  // Runs
  // ---------------------------------------------------------------------------------

  /** A message that left the queue. */
  datatype Gone = Delivered(m: Message) | Dropped(m: Message)

  /** `wants` is what each blocked receiver asks for; `gone` is what left the queue, in order. */
  datatype QueueSystem = QueueSystem(
    q: Queue, wants: map<Pid, nat>, wokenS: set<Pid>, wokenR: set<Pid>, sent: seq<Message>, gone: seq<Gone>)

  datatype QueueStep = Send(pid: Pid, m: Message) | Recv(pid: Pid, want: nat)

  function All(gone: seq<Gone>): (ms: seq<Message>)
    ensures |ms| == |gone|
  {
    seq(|gone|, i requires 0 <= i < |gone| => gone[i].m)
  }

  function Received(gone: seq<Gone>): (ms: seq<Message>)
    ensures |ms| <= |gone|
  {
    if gone == [] then [] else ReceivedOne(gone[0]) + Received(gone[1..])
  }

  function ReceivedOne(g: Gone): seq<Message> {
    if g.Delivered? then [g.m] else []
  }

  /** What leaves the queue when cell `k` is received. */
  function Leaving(cells: seq<Cell>, k: nat): seq<Gone>
    requires k < |cells|
  {
    (if k > 0 && cells[0].valid then [Dropped(cells[0].m)] else []) + [Delivered(cells[k].m)]
  }

  ghost predicate QueueLegal(y: QueueSystem, step: QueueStep)
  {
    step.pid !in y.q.senders && step.pid !in y.q.receivers
  }

  ghost function QueueAfter(y: QueueSystem, step: QueueStep): QueueSystem
  {
    match step
    case Send(p, m) =>
      var e := SendStep(y.q, p, m);
      y.(q := e.q, wokenS := y.wokenS - {p}, wokenR := y.wokenR + Members(e.woken),
         sent := if e.result == Done then y.sent + [m] else y.sent)
    case Recv(p, want) =>
      var e, k := RecvStep(y.q, p, want), Match(y.q.cells, want);
      y.(q := e.q, wants := y.wants[p := want], wokenR := y.wokenR - {p}, wokenS := y.wokenS + Members(e.woken),
         gone := if k < |y.q.cells| then y.gone + Leaving(y.q.cells, k) else y.gone)
  }

  ghost predicate QueueRunOk(y: QueueSystem, steps: seq<QueueStep>)
    decreases |steps|
  {
    steps == [] || (QueueLegal(y, steps[0]) && QueueRunOk(QueueAfter(y, steps[0]), steps[1..]))
  }

  ghost function QueueRun(y: QueueSystem, steps: seq<QueueStep>): QueueSystem
    decreases |steps|
  {
    if steps == [] then y else QueueRun(QueueAfter(y, steps[0]), steps[1..])
  }

  ghost function Idle(): QueueSystem {
    QueueSystem(Queue([], [], []), map[], {}, {}, [], [])
  }

  // ---------------------------------------------------------------------------------
  // What every run keeps
  // ---------------------------------------------------------------------------------

  /** The messages of one kind left the queue in the order they were sent, and the rest of that
      kind is still there in order. */
  ghost predicate InOrder(y: QueueSystem, t: nat)
  {
    Of(t, y.sent) == Of(t, All(y.gone)) + Of(t, Live(y.q.cells))
  }

  ghost predicate MessagesOk(y: QueueSystem)
  {
    && (forall t: nat :: InOrder(y, t))
    && |y.sent| == |y.gone| + |Live(y.q.cells)|
    && |y.q.cells| <= QUEUE_SIZE && (|y.q.cells| == QUEUE_SIZE ==> Live(y.q.cells) != [])
  }

  /** While a sender is blocked, no more cells are free than woken senders are still to retry. */
  ghost predicate ListsOk(y: QueueSystem)
  {
    && |y.q.senders| <= MAX_BLOCKED && |y.q.receivers| <= MAX_BLOCKED
    && NoDup(y.q.senders) && NoDup(y.q.receivers)
    && Members(y.q.senders) !! y.wokenS && Members(y.q.receivers) !! y.wokenR
    && (y.q.senders != [] ==> QUEUE_SIZE - |y.q.cells| <= |y.wokenS|)
    && (forall r | r in y.q.receivers :: r in y.wants)
  }

  ghost predicate QueueInv(y: QueueSystem)
  {
    MessagesOk(y) && ListsOk(y)
  }

  lemma IdleOk()
    ensures QueueInv(Idle())
  {
    forall t: nat ensures InOrder(Idle(), t) {
    }
  }

  /** A new message goes behind those of its kind. */
  lemma SentOk(y: QueueSystem, p: Pid, m: Message)
    requires MessagesOk(y)
    ensures MessagesOk(QueueAfter(y, Send(p, m)))
  {
    var z := QueueAfter(y, Send(p, m));
    if |y.q.cells| < QUEUE_SIZE {
      LiveCat(y.q.cells, [Cell(m, true)]);
      assert Live([Cell(m, true)]) == [m];
      forall t: nat ensures InOrder(z, t) {
        assert InOrder(y, t);
        OfCat(t, y.sent, [m]);
        OfCat(t, Live(y.q.cells), [m]);
      }
    } else {
      forall t: nat ensures InOrder(z, t) {
        assert InOrder(y, t);
      }
    }
  }

  /** The messages of each kind around a receive: what left and what stays. */
  lemma TakenInOrder(cells: seq<Cell>, want: nat, t: nat)
    requires Match(cells, want) < |cells|
    ensures var k := Match(cells, want);
            Of(t, Live(cells)) == Of(t, All(Leaving(cells, k))) + Of(t, Live(Taken(cells, k)))
  {
    var k := Match(cells, want);
    var m := cells[k].m;
    if k == 0 {
      assert All(Leaving(cells, k)) == [m];
      assert Taken(cells, k) == cells[1..];
      OfCat(t, [m], Live(cells[1..]));
    } else {
      var first, mid, rest := Live(cells[..1]), Live(cells[1..k]), Live(cells[k + 1..]);
      LiveAround(cells, k);
      HeadLive(cells);
      assert All(Leaving(cells, k)) == first + [m];
      if t == m.kind {
        NoneBefore(cells, want);
      }
      SplitOf(t, first, mid, m, rest);
    }
  }

  /** No cell before the match holds a message of its kind. */
  lemma NoneBefore(cells: seq<Cell>, want: nat)
    requires 0 < Match(cells, want) < |cells|
    ensures var k := Match(cells, want);
            Of(cells[k].m.kind, Live(cells[..1])) == Of(cells[k].m.kind, Live(cells[1..k])) == []
  {
    var k := Match(cells, want);
    NoneOf(cells[..1], want, cells[k].m.kind);
    NoneOf(cells[1..k], want, cells[k].m.kind);
  }

  /** A message passes others of another kind. */
  lemma SplitOf(t: nat, first: seq<Message>, mid: seq<Message>, m: Message, rest: seq<Message>)
    requires t == m.kind ==> Of(t, first) == Of(t, mid) == []
    ensures Of(t, first + mid + [m] + rest) == Of(t, first + [m]) + Of(t, mid + rest)
  {
    OfCat(t, first + mid + [m], rest);
    OfCat(t, first + mid, [m]);
    OfCat(t, first, mid);
    OfCat(t, first, [m]);
    OfCat(t, mid, rest);
    Passing(Of(t, first), Of(t, mid), Of(t, [m]), Of(t, rest));
  }

  lemma Passing(a: seq<Message>, b: seq<Message>, c: seq<Message>, d: seq<Message>)
    requires c == [] || a == b == []
    ensures a + b + c + d == a + c + (b + d)
  {
  }

  lemma TakenLength(cells: seq<Cell>, k: nat)
    requires k < |cells| && cells[k].valid
    ensures |Live(cells)| == |Leaving(cells, k)| + |Live(Taken(cells, k))|
  {
    if k > 0 {
      LiveAround(cells, k);
      HeadLive(cells);
    }
  }

  lemma AllCat(t: nat, a: seq<Gone>, b: seq<Gone>)
    ensures Of(t, All(a + b)) == Of(t, All(a)) + Of(t, All(b))
  {
    assert All(a + b) == All(a) + All(b);
    OfCat(t, All(a), All(b));
  }

  /** A receive keeps the order of each kind. */
  lemma TookInOrder(y: QueueSystem, p: Pid, want: nat, t: nat)
    requires InOrder(y, t) && Match(y.q.cells, want) < |y.q.cells|
    ensures InOrder(QueueAfter(y, Recv(p, want)), t)
  {
    var z, leaving := QueueAfter(y, Recv(p, want)), Leaving(y.q.cells, Match(y.q.cells, want));
    TakenInOrder(y.q.cells, want, t);
    AllCat(t, y.gone, leaving);
    Assoc(Of(t, All(y.gone)), Of(t, All(leaving)), Of(t, Live(z.q.cells)));
  }

  lemma ReceivedOk(y: QueueSystem, p: Pid, want: nat)
    requires MessagesOk(y)
    ensures MessagesOk(QueueAfter(y, Recv(p, want)))
  {
    var z, cells, k := QueueAfter(y, Recv(p, want)), y.q.cells, Match(y.q.cells, want);
    if k < |cells| {
      TakenLength(cells, k);
      forall t: nat ensures InOrder(z, t) {
        assert InOrder(y, t);
        TookInOrder(y, p, want, t);
      }
    } else {
      forall t: nat ensures InOrder(z, t) {
        assert InOrder(y, t);
      }
    }
  }

  lemma SendLists(y: QueueSystem, p: Pid, m: Message)
    requires QueueInv(y) && QueueLegal(y, Send(p, m))
    ensures ListsOk(QueueAfter(y, Send(p, m)))
  {
    CardBound(y.wokenS, y.wokenS - {p}, p);
    if |y.q.cells| < QUEUE_SIZE {
      WakeOne(y.q.receivers, y.wokenR);
    } else {
      PushFacts(y.q.senders, p);
    }
  }

  lemma RecvLists(y: QueueSystem, p: Pid, want: nat)
    requires QueueInv(y) && QueueLegal(y, Recv(p, want))
    ensures ListsOk(QueueAfter(y, Recv(p, want)))
  {
    CardBound(y.wokenR, y.wokenR - {p}, p);
    if Match(y.q.cells, want) < |y.q.cells| {
      TookLists(y, p, want);
    } else {
      BlockedLists(y, p, want);
    }
  }

  lemma TookLists(y: QueueSystem, p: Pid, want: nat)
    requires QueueInv(y) && QueueLegal(y, Recv(p, want)) && Match(y.q.cells, want) < |y.q.cells|
    ensures ListsOk(QueueAfter(y, Recv(p, want)))
  {
    WakeOne(y.q.senders, y.wokenS);
  }

  lemma BlockedLists(y: QueueSystem, p: Pid, want: nat)
    requires QueueInv(y) && QueueLegal(y, Recv(p, want)) && Match(y.q.cells, want) == |y.q.cells|
    ensures ListsOk(QueueAfter(y, Recv(p, want)))
  {
    PushFacts(y.q.receivers, p);
    assert Members([]) == {};
  }

  lemma QueueStepKeeps(y: QueueSystem, step: QueueStep)
    requires QueueInv(y) && QueueLegal(y, step)
    ensures QueueInv(QueueAfter(y, step))
  {
    match step
    case Send(p, m) =>
      SentOk(y, p, m);
      SendLists(y, p, m);
    case Recv(p, want) =>
      ReceivedOk(y, p, want);
      RecvLists(y, p, want);
  }

  /** In every run the messages of each kind leave in the order they were sent, none twice, and
      no wakeup of a sender is lost. */
  lemma {:induction false} QueueRunKeeps(y: QueueSystem, steps: seq<QueueStep>)
    requires QueueInv(y) && QueueRunOk(y, steps)
    ensures QueueInv(QueueRun(y, steps))
    decreases |steps|
  {
    if steps != [] {
      QueueStepKeeps(y, steps[0]);
      QueueRunKeeps(QueueAfter(y, steps[0]), steps[1..]);
    }
  }

  // ---------------------------------------------------------------------------------
  // When nothing is lost
  // ---------------------------------------------------------------------------------

  /** Every receive of the run that finds a message finds it at the head, or behind a dead head. */
  ghost predicate Careful(y: QueueSystem, steps: seq<QueueStep>)
    decreases |steps|
  {
    steps == [] ||
    ((steps[0].Recv? ==>
        var k := Match(y.q.cells, steps[0].want);
        0 < k < |y.q.cells| ==> !y.q.cells[0].valid)
     && Careful(QueueAfter(y, steps[0]), steps[1..]))
  }

  lemma {:induction false} ReceivedCat(a: seq<Gone>, b: seq<Gone>)
    ensures Received(a + b) == Received(a) + Received(b)
  {
    if a == [] {
      assert a + b == b;
    } else {
      Tail(a, b);
      ReceivedCat(a[1..], b);
      Assoc(ReceivedOne(a[0]), Received(a[1..]), Received(b));
    }
  }

  /** How many messages were dropped. */
  ghost function Lost(y: QueueSystem): nat {
    |y.gone| - |Received(y.gone)|
  }

  lemma StepLoses(y: QueueSystem, step: QueueStep)
    ensures Lost(QueueAfter(y, step)) >= Lost(y)
    ensures Lost(QueueAfter(y, step)) == Lost(y) <==> Careful(y, [step])
  {
    if step.Recv? {
      var cells, k := y.q.cells, Match(y.q.cells, step.want);
      if k < |cells| {
        ReceivedCat(y.gone, Leaving(cells, k));
        LeavingReceived(cells, k);
      }
    }
  }

  lemma LeavingReceived(cells: seq<Cell>, k: nat)
    requires k < |cells|
    ensures Received(Leaving(cells, k)) == [cells[k].m]
  {
    var last := [Delivered(cells[k].m)];
    assert Received(last) == [cells[k].m];
    if k > 0 && cells[0].valid {
      assert Leaving(cells, k)[1..] == last;
    }
  }

  lemma {:induction false} RunLoses(y: QueueSystem, steps: seq<QueueStep>)
    ensures Lost(QueueRun(y, steps)) >= Lost(y)
    ensures Lost(QueueRun(y, steps)) == Lost(y) <==> Careful(y, steps)
    decreases |steps|
  {
    if steps != [] {
      StepLoses(y, steps[0]);
      RunLoses(QueueAfter(y, steps[0]), steps[1..]);
    }
  }

  /** In a run from the start every message sent is delivered or still there if and only if every
      receive took the head of the queue or came upon a dead head. */
  lemma NothingLostIff(steps: seq<QueueStep>)
    requires QueueRunOk(Idle(), steps)
    ensures var z := QueueRun(Idle(), steps);
            |z.sent| == |Received(z.gone)| + |Live(z.q.cells)| <==> Careful(Idle(), steps)
  {
    IdleOk();
    QueueRunKeeps(Idle(), steps);
    RunLoses(Idle(), steps);
  }

  /** A receive of the second message's kind: the first message is lost, and the dead cell of
      the second keeps its place. */
  lemma HeadLost(a: Message, b: Message)
    requires b.kind != 0 && a.kind != b.kind
    ensures var z := QueueRun(Idle(), [Send(1, a), Send(1, b), Recv(2, b.kind)]);
            && z.sent == [a, b] && Received(z.gone) == [b] && Live(z.q.cells) == []
            && z.q == Queue([Cell(b, false)], [], [])
  {
    var y1 := QueueAfter(Idle(), Send(1, a));
    var y2 := QueueAfter(y1, Send(1, b));
    assert y2.q.cells == [Cell(a, true), Cell(b, true)] && y2.sent == [a, b];
    MatchIs(y2.q.cells, b.kind, 1);
    LeavingReceived(y2.q.cells, 1);
    assert Taken(y2.q.cells, 1) == [Cell(b, false)];
    Cons(y2, Recv(2, b.kind), []);
    Cons(y1, Send(1, b), [Recv(2, b.kind)]);
    Cons(Idle(), Send(1, a), [Send(1, b), Recv(2, b.kind)]);
  }

  /** A run whose receives take any kind delivers the messages in the order they were sent. */
  ghost predicate Fifo(y: QueueSystem)
  {
    && (forall c | c in y.q.cells :: c.valid) && (forall g | g in y.gone :: g.Delivered?)
    && y.sent == All(y.gone) + Live(y.q.cells)
  }

  lemma FifoStep(y: QueueSystem, step: QueueStep)
    requires Fifo(y) && (step.Recv? ==> step.want == 0)
    ensures Fifo(QueueAfter(y, step))
  {
    if step.Send? {
      LiveCat(y.q.cells, [Cell(step.m, true)]);
      assert Live([Cell(step.m, true)]) == [step.m];
      Assoc(All(y.gone), Live(y.q.cells), [step.m]);
    } else if y.q.cells != [] {
      FifoTaken(y, step.pid);
    }
  }

  lemma FifoTaken(y: QueueSystem, p: Pid)
    requires Fifo(y) && y.q.cells != []
    ensures Fifo(QueueAfter(y, Recv(p, 0)))
  {
    var z, m := QueueAfter(y, Recv(p, 0)), y.q.cells[0].m;
    assert y.q.cells[0] in y.q.cells;
    assert z.q.cells == y.q.cells[1..] && z.gone == y.gone + [Delivered(m)];
    assert All(z.gone) == All(y.gone) + [m];
    Assoc(All(y.gone), [m], Live(y.q.cells[1..]));
  }

  lemma {:induction false} FifoRun(y: QueueSystem, steps: seq<QueueStep>)
    requires Fifo(y) && Asking(steps, {0})
    ensures Fifo(QueueRun(y, steps))
    decreases |steps|
  {
    if steps != [] {
      FifoStep(y, steps[0]);
      FifoRun(QueueAfter(y, steps[0]), steps[1..]);
    }
  }

  // ---------------------------------------------------------------------------------
  // When no wakeup of a receiver is lost
  // ---------------------------------------------------------------------------------

  /** The receives of a run ask for kinds of `w`. */
  ghost predicate Asking(steps: seq<QueueStep>, w: set<nat>)
  {
    forall s | s in steps && s.Recv? :: s.want in w
  }

  /** While a receiver is blocked, no more messages that it wants are there than woken receivers
      are still to retry. */
  ghost predicate Wakes(y: QueueSystem)
  {
    forall r | r in y.q.receivers :: r in y.wants && Matching(y.q.cells, y.wants[r]) <= |y.wokenR|
  }

  ghost predicate AlwaysWakes(w: set<nat>)
  {
    forall steps: seq<QueueStep> | QueueRunOk(Idle(), steps) && Asking(steps, w) :: Wakes(QueueRun(Idle(), steps))
  }

  /** All blocked receivers ask for the same. */
  ghost predicate Same(y: QueueSystem, want: nat)
  {
    && (forall r | r in y.q.receivers :: r in y.wants && y.wants[r] == want)
    && (y.q.receivers != [] ==> Matching(y.q.cells, want) <= |y.wokenR|)
  }

  lemma SameStep(y: QueueSystem, step: QueueStep, want: nat)
    requires QueueInv(y) && QueueLegal(y, step) && Same(y, want) && (step.Recv? ==> step.want == want)
    ensures Same(QueueAfter(y, step), want)
  {
    var cells := y.q.cells;
    if step.Send? {
      if |cells| < QUEUE_SIZE {
        WakeOne(y.q.receivers, y.wokenR);
        MatchingCat(cells, [Cell(step.m, true)], want);
      }
    } else {
      var k := Match(cells, want);
      CardBound(y.wokenR, y.wokenR - {step.pid}, step.pid);
      if k < |cells| {
        TakenMatching(cells, k, want);
      } else {
        NoMatch(cells, want);
      }
    }
  }

  lemma {:induction false} SameRun(y: QueueSystem, steps: seq<QueueStep>, want: nat)
    requires QueueInv(y) && QueueRunOk(y, steps) && Same(y, want)
    requires forall s | s in steps && s.Recv? :: s.want == want
    ensures Wakes(QueueRun(y, steps))
    decreases |steps|
  {
    if steps != [] {
      SameStep(y, steps[0], want);
      QueueStepKeeps(y, steps[0]);
      SameRun(QueueAfter(y, steps[0]), steps[1..], want);
    }
  }

  /** Two blocked receivers, and a message for the second: the send wakes the first, which blocks
      again behind the second. */
  ghost function LosingRun(u: nat, v: nat, m: Message): seq<QueueStep> {
    [Recv(1, u), Recv(2, v), Send(3, m), Recv(1, u)]
  }

  lemma LostWakeup(u: nat, v: nat, m: Message)
    requires u != 0 && m.kind != u && (v == 0 || v == m.kind)
    ensures QueueRunOk(Idle(), LosingRun(u, v, m))
    ensures var z := QueueRun(Idle(), LosingRun(u, v, m));
            && z.q == Queue([Cell(m, true)], [], [2, 1]) && z.wokenR == {} && 2 in z.wants && z.wants[2] == v
            && Matching(z.q.cells, v) == 1
  {
    var y0 := Idle();
    var y1 := QueueSystem(Queue([], [], [1]), map[1 := u], {}, {}, [], []);
    var y2 := QueueSystem(Queue([], [], [1, 2]), map[1 := u, 2 := v], {}, {}, [], []);
    var y3 := QueueSystem(Queue([Cell(m, true)], [], [2]), map[1 := u, 2 := v], {}, {1}, [m], []);
    var y4 := QueueSystem(Queue([Cell(m, true)], [], [2, 1]), map[1 := u, 2 := v], {}, {}, [m], []);
    Blocks(y0, 1, u, y1);
    Blocks(y1, 2, v, y2);
    assert QueueAfter(y2, Send(3, m)) == y3 by {
      assert Members([1]) == {1};
    }
    MatchIs(y3.q.cells, u, 1);
    Blocks(y3, 1, u, y4);
    Cons(y3, Recv(1, u), []);
    Cons(y2, Send(3, m), [Recv(1, u)]);
    Cons(y1, Recv(2, v), [Send(3, m), Recv(1, u)]);
    Cons(y0, Recv(1, u), [Recv(2, v), Send(3, m), Recv(1, u)]);
  }

  /** A receive that finds nothing queues up. */
  lemma Blocks(y: QueueSystem, p: Pid, want: nat, z: QueueSystem)
    requires Match(y.q.cells, want) == |y.q.cells| && |y.q.receivers| < MAX_BLOCKED
    requires z == y.(q := y.q.(receivers := y.q.receivers + [p]), wants := y.wants[p := want], wokenR := y.wokenR - {p})
    ensures QueueAfter(y, Recv(p, want)) == z
  {
    assert Members([]) == {};
  }

  lemma Cons(y: QueueSystem, s: QueueStep, rest: seq<QueueStep>)
    ensures QueueRun(y, [s] + rest) == QueueRun(QueueAfter(y, s), rest)
    ensures QueueRunOk(y, [s] + rest) <==> QueueLegal(y, s) && QueueRunOk(QueueAfter(y, s), rest)
  {
    assert ([s] + rest)[1..] == rest;
  }

  /** No run loses the wakeup of a receiver if and only if all receivers ask for the same. */
  lemma AlwaysWakesIff(w: set<nat>)
    ensures AlwaysWakes(w) <==> forall u, v | u in w && v in w :: u == v
  {
    if u, v :| u in w && v in w && u != v {
      var first, second := if u != 0 then u else v, if u != 0 then v else u;
      var m := Message(if second != 0 then second else if first == 1 then 2 else 1, []);
      LostWakeup(first, second, m);
      assert Asking(LosingRun(first, second, m), w);
      assert 2 in QueueRun(Idle(), LosingRun(first, second, m)).q.receivers;
    } else {
      forall steps: seq<QueueStep> | QueueRunOk(Idle(), steps) && Asking(steps, w) ensures Wakes(QueueRun(Idle(), steps)) {
        var want := if w == {} then 0 else var x :| x in w; x;
        IdleOk();
        SameRun(Idle(), steps, want);
      }
    }
  }
}
