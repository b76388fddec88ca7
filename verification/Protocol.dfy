/**
 The discipline of `main.c`: three threads share one connection, and each sends a request and waits
 for its reply while it holds the lock. Replies may be late, lost, doubled or out of order. Steps are
 interleaved freely.
 */
module Protocol {
  import opened Pdu
  import Tcp
  import Rtu
  import Crc

  // ---------------------------------------------------------------------------------------------
  // The transaction counter

  // What the counter says after n requests.
  function CodeOf(n: nat): bv16 {
    if n == 0 then 0 else Tcp.Next(CodeOf(n - 1))
  }

  function Double(v: bv16): bv16 {
    v << 1
  }

  lemma DoubleNext(v: bv16)
    ensures Double(Tcp.Next(v)) == Tcp.Next(Tcp.Next(Double(v)))
  {
  }

  lemma NextInjective(v: bv16, w: bv16)
    ensures Tcp.Next(v) == Tcp.Next(w) <==> v == w
  {
  }

  lemma {:induction false} CodeDoubles(n: nat)
    ensures CodeOf(2 * n) == Double(CodeOf(n))
  {
    if n > 0 {
      CodeDoubles(n - 1);
      DoubleNext(CodeOf(n - 1));
      CodeNext(n - 1);
      CodeNext(2 * n - 2);
      CodeNext(2 * n - 1);
      hide *;
      assert 2 * (n - 1) == 2 * n - 2;
    }
  }

  lemma CodeNext(n: nat)
    ensures CodeOf(n + 1) == Tcp.Next(CodeOf(n))
  {
  }

  // The counter starts at zero and each request adds one to it.
  lemma CodeCounts(n: nat)
    ensures CodeOf(0) == 0 && CodeOf(n + 1) == CodeOf(n) + 1
  {
  }

  // Going on from a request leads back to its code exactly if it does from the start.
  lemma {:induction false} CodeShift(a: nat, d: nat)
    ensures CodeOf(a + d) == CodeOf(a) <==> CodeOf(d) == 0
  {
    if a > 0 {
      CodeShift(a - 1, d);
      NextInjective(CodeOf(a - 1 + d), CodeOf(a - 1));
      CodeNext(a - 1);
      CodeNext(a - 1 + d);
      hide *;
      assert a - 1 + d + 1 == a + d;
    }
  }

  // It comes round after 65536 requests,
  lemma CodeRound()
    ensures CodeOf(0x10000) == 0
  {
    CodeDoubles(0x1);
    CodeDoubles(0x2);
    CodeDoubles(0x4);
    CodeDoubles(0x8);
    CodeDoubles(0x10);
    CodeDoubles(0x20);
    CodeDoubles(0x40);
    CodeDoubles(0x80);
    CodeDoubles(0x100);
    CodeDoubles(0x200);
    CodeDoubles(0x400);
    CodeDoubles(0x800);
    CodeDoubles(0x1000);
    CodeDoubles(0x2000);
    CodeDoubles(0x4000);
    CodeDoubles(0x8000);
    CodeNext(0);
    hide CodeOf;
  }

  lemma {:induction false} CodeRounds(q: nat)
    ensures CodeOf(q * 0x10000) == 0
  {
    if q > 0 {
      CodeRounds(q - 1);
      CodeRound();
      hide CodeOf;
      CodeShift((q - 1) * 0x10000, 0x10000);
      assert (q - 1) * 0x10000 + 0x10000 == q * 0x10000;
    }
  }

  // 2 to the i
  function Power(i: nat): nat {
    if i == 0 then 1 else 2 * Power(i - 1)
  }

  // The mask of the lowest i bits.
  function LowMask(i: nat): bv16
    requires i <= 16
  {
    match i
    case 0 => 0x0
    case 1 => 0x1
    case 2 => 0x3
    case 3 => 0x7
    case 4 => 0xF
    case 5 => 0x1F
    case 6 => 0x3F
    case 7 => 0x7F
    case 8 => 0xFF
    case 9 => 0x1FF
    case 10 => 0x3FF
    case 11 => 0x7FF
    case 12 => 0xFFF
    case 13 => 0x1FFF
    case 14 => 0x3FFF
    case 15 => 0x7FFF
    case _ => 0xFFFF
  }

  predicate Clear(w: bv16, mask: bv16) {
    w & mask == 0
  }

  lemma MaskHalf(i: nat)
    requires 0 < i <= 16
    ensures LowMask(i) & 1 == 1 && LowMask(i - 1) == LowMask(i) >> 1
  {
  }

  lemma HalfClear(v: bv16, mask: bv16)
    requires mask & 1 == 1
    ensures !Clear(Tcp.Next(Double(v)), mask)
    ensures Clear(Double(v), mask) ==> Clear(v, mask >> 1)
  {
  }

  // and not before: if the lowest i bits are zero, so are those of the number of requests.
  lemma {:induction false} CodeClear(n: nat, i: nat) returns (q: nat)
    requires i <= 16 && Clear(CodeOf(n), LowMask(i))
    ensures n == q * Power(i)
    decreases i
  {
    if i == 0 {
      q := n;
    } else {
      var half := n / 2;
      CodeDoubles(half);
      CodeNext(2 * half);
      MaskHalf(i);
      HalfClear(CodeOf(half), LowMask(i));
      hide LowMask, Clear, Double, CodeOf, Tcp.Next;
      assert n == if n % 2 == 0 then 2 * half else 2 * half + 1;
      q := CodeClear(half, i - 1);
      Twice(q, Power(i - 1));
    }
  }

  lemma Twice(q: nat, p: nat)
    ensures 2 * (q * p) == q * (2 * p)
  {
  }

  // Two requests have the same code exactly if their distance is a multiple of 65536.
  lemma SameCode(a: nat, b: nat)
    requires a <= b
    ensures CodeOf(a) == CodeOf(b) <==> (b - a) % 0x10000 == 0
  {
    hide *;
    var d := b - a;
    CodeShift(a, d);
    if CodeOf(d) == 0 {
      ZeroClear();
      var q := CodeClear(d, 16);
      PowerIs();
      assert d % 0x10000 == 0;
    }
    if d % 0x10000 == 0 {
      var q := d / 0x10000;
      assert q * 0x10000 == d;
      CodeRounds(q);
    }
  }

  lemma ZeroClear()
    ensures Clear(0, LowMask(16))
  {
  }

  lemma PowerIs()
    ensures Power(16) == 0x10000
  {
    assert Power(4) == 16;
    assert Power(8) == 16 * Power(4) == 256;
    assert Power(12) == 16 * Power(8) == 4096;
  }

  // ---------------------------------------------------------------------------------------------
  // The threads and the channel

  datatype Thread = Worker | Stay | Rely

  // Before the lock, between exchanges, between a request and its reply, and before the unlock.
  datatype Phase = Outside | Ready | Waiting | Leaving

  // A request, by the thread that sent it.
  datatype Sent = Sent(thread: Thread, request: Info)

  // A reply on its way, by the number of the request it answers.
  datatype InFlight = InFlight(answers: nat, reply: Reply)

  // A reply a thread went on with, by the number of the thread's own request.
  datatype Accepted = Accepted(thread: Thread, request: nat, got: InFlight)

  datatype Holder = Free | Held(thread: Thread)

  datatype State = State(lock: Holder, phase: map<Thread, Phase>, sent: seq<Sent>, channel: multiset<InFlight>,
                         accepted: seq<Accepted>)

  // The unit addressed, and what the server makes of its i-th request.
  datatype System = System(unit: bv8, server: (nat, Info) -> Reply)

  ghost predicate Init(s: State) {
    && s.lock == Free && s.sent == [] && s.channel == multiset{} && s.accepted == []
    && forall t: Thread :: In(s, t, Outside)
  }

  datatype Step =
    | Lock(t: Thread)
    | Send(t: Thread, request: Info)
    | SendFails(t: Thread, request: Info)
    | Serve(i: nat)
    | Lose(m: InFlight)
    | Receive(t: Thread, first: InFlight, more: seq<InFlight>)
    | TimeOut(t: Thread)
    | Unlock(t: Thread)

  // The bytes of a reply: the server gives back the transaction, protocol and unit it was sent.
  function FrameOf(sys: System, m: InFlight): seq<bv8> {
    Tcp.TcpFrame(CodeOf(m.answers + 1), 0, sys.unit, ReplyBytes(m.reply))
  }

  function FramesOf(sys: System, ms: seq<InFlight>): seq<bv8> {
    if ms == [] then [] else FrameOf(sys, ms[0]) + FramesOf(sys, ms[1..])
  }

  // The header the sender remembers after n requests; see Tcp.MbTcp.Send.
  function HeadAfter(sys: System, n: nat): Tcp.Mbap {
    Tcp.Mbap(CodeOf(n), 0, 0, sys.unit)
  }

  // Tcp.MbTcp.Recv on all the bytes that have come in: the first header decides.
  ghost predicate Accepts(sys: System, n: nat, first: InFlight, more: seq<InFlight>) {
    Tcp.Answers(Tcp.ReceivedHead(FrameOf(sys, first) + FramesOf(sys, more)), HeadAfter(sys, n))
  }

  predicate In(s: State, t: Thread, p: Phase) {
    t in s.phase && s.phase[t] == p
  }

  function Move(s: State, t: Thread, p: Phase): State {
    s.(phase := s.phase[t := p])
  }

  ghost predicate Next(sys: System, s: State, step: Step, s': State) {
    match step
    case Lock(t) => In(s, t, Outside) && s.lock == Free && s' == Move(s, t, Ready).(lock := Held(t))
    case Send(t, request) =>
      In(s, t, Ready) && s' == Move(s, t, Waiting).(sent := s.sent + [Sent(t, request)])
    case SendFails(t, request) =>
      // the counter has moved on, and the server may have got the request all the same
      In(s, t, Ready) && s' == Move(s, t, Leaving).(sent := s.sent + [Sent(t, request)])
    case Serve(i) =>
      i < |s.sent| && s' == s.(channel := s.channel + multiset{InFlight(i, sys.server(i, s.sent[i].request))})
    case Lose(m) => m in s.channel && s' == s.(channel := s.channel - multiset{m})
    case Receive(t, first, more) =>
      var taken := multiset([first] + more);
      var after := s.(channel := s.channel - taken);
      && In(s, t, Waiting) && taken <= s.channel
      && s' == if Accepts(sys, |s.sent|, first, more)
               then Move(after, t, if t.Rely? then Ready else Leaving)
                      .(accepted := s.accepted + [Accepted(t, if |s.sent| > 0 then |s.sent| - 1 else 0, first)])
               else Move(after, t, Leaving)
    case TimeOut(t) => In(s, t, Waiting) && s' == Move(s, t, Leaving)
    case Unlock(t) =>
      // the worker locks only with a request at hand
      (In(s, t, Leaving) || (In(s, t, Ready) && !t.Worker?)) && s' == Move(s, t, Outside).(lock := Free)
  }

  ghost predicate Run(sys: System, states: seq<State>, steps: seq<Step>) {
    && |states| == |steps| + 1 && Init(states[0])
    && forall i :: 0 <= i < |steps| ==> Next(sys, states[i], steps[i], states[i + 1])
  }

  // The threads inside are those with the lock, so there is at most one; and what it waits for is the
  // reply to the last request sent.
  ghost predicate Locked(s: State) {
    forall t: Thread :: LockedAt(s, t)
  }

  ghost predicate LockedAt(s: State, t: Thread) {
    && t in s.phase && (s.phase[t] != Outside <==> s.lock == Held(t))
    && (s.phase[t] == Waiting ==> s.sent != [] && s.sent[|s.sent| - 1].thread == t)
  }

  // Replies answer requests that have been sent, as the server does.
  ghost predicate Honest(sys: System, s: State) {
    forall m :: m in s.channel ==> Answer(sys, s.sent, m)
  }

  ghost predicate Answer(sys: System, sent: seq<Sent>, m: InFlight) {
    m.answers < |sent| && m.reply == sys.server(m.answers, sent[m.answers].request)
  }

  // Each accepted reply was taken by the thread that had sent the request, and answers a request at a
  // distance that is a multiple of 65536.
  ghost predicate Matched(sys: System, s: State) {
    forall a :: a in s.accepted ==> Right(sys, s.sent, a)
  }

  ghost predicate Right(sys: System, sent: seq<Sent>, a: Accepted) {
    && a.got.answers <= a.request < |sent| && sent[a.request].thread == a.thread
    && Answer(sys, sent, a.got) && (a.request - a.got.answers) % 0x10000 == 0
  }

  ghost predicate Safe(sys: System, s: State) {
    Locked(s) && Honest(sys, s) && Matched(sys, s)
  }

  // What is accepted, in terms of the bytes: exactly the replies whose distance to the last request is a
  // multiple of 65536.
  lemma AcceptsIff(sys: System, n: nat, first: InFlight, more: seq<InFlight>)
    requires first.answers < n
    ensures Accepts(sys, n, first, more) <==> (n - 1 - first.answers) % 0x10000 == 0
  {
    hide *;
    var head := Tcp.ReceivedHead(FrameOf(sys, first) + FramesOf(sys, more));
    AcceptsIs(sys, n, first, more);
    FramesAre(sys, first, more);
    Tcp.FrameHead(CodeOf(first.answers + 1), 0, sys.unit, ReplyBytes(first.reply), FramesOf(sys, more));
    Tcp.AnswersIs(head, HeadAfter(sys, n));
    SameCode(first.answers + 1, n);
  }

  lemma AcceptsIs(sys: System, n: nat, first: InFlight, more: seq<InFlight>)
    ensures Accepts(sys, n, first, more) <==>
      Tcp.Answers(Tcp.ReceivedHead(FrameOf(sys, first) + FramesOf(sys, more)), HeadAfter(sys, n))
    ensures var h := HeadAfter(sys, n); h.transaction == CodeOf(n) && h.protocol == 0 && h.unit == sys.unit
  {
  }

  lemma LockedStep(sys: System, s: State, step: Step, s': State)
    requires Locked(s) && Next(sys, s, step, s')
    ensures Locked(s')
  {
    forall t: Thread ensures LockedAt(s', t) {
      assert LockedAt(s, t) && (step.Serve? || step.Lose? || LockedAt(s, step.t));
      LockedAtStep(sys, s, step, s', t);
    }
  }

  lemma LockedAtStep(sys: System, s: State, step: Step, s': State, t: Thread)
    requires LockedAt(s, t) && (step.Serve? || step.Lose? || LockedAt(s, step.t)) && Next(sys, s, step, s')
    ensures LockedAt(s', t)
  {
    if step.Serve? || step.Lose? {
      ChannelOnly(sys, s, step, s');
    } else {
      Moves(sys, s, step, s');
    }
    hide Next, Accepts;
  }

  lemma ChannelOnly(sys: System, s: State, step: Step, s': State)
    requires Next(sys, s, step, s') && (step.Serve? || step.Lose?)
    ensures s'.lock == s.lock && s'.phase == s.phase && s'.sent == s.sent
  {
    hide Accepts, In, Move;
  }

  // What a thread's step does to the lock, the phases and the log.
  lemma Moves(sys: System, s: State, step: Step, s': State)
    requires Next(sys, s, step, s') && !step.Serve? && !step.Lose?
    ensures var t := step.t;
      && t in s.phase && t in s'.phase && s'.phase == s.phase[t := s'.phase[t]]
      && (if step.Lock? then s.lock == Free && s'.lock == Held(t) && s'.phase[t] == Ready
          else if step.Unlock? then s.phase[t] != Outside && s'.lock == Free && s'.phase[t] == Outside
          else s.phase[t] != Outside && s'.phase[t] != Outside && s'.lock == s.lock)
      && (s'.phase[t] == Waiting ==> s'.sent != [] && s'.sent[|s'.sent| - 1].thread == t)
      && (s'.sent != s.sent ==> s.phase[t] == Ready)
  {
    hide Accepts;
    match step
    case Lock(u) =>
    case Send(u, request) =>
    case SendFails(u, request) =>
    case Receive(u, first, more) =>
    case TimeOut(u) =>
    case Unlock(u) =>
  }

  lemma HonestStep(sys: System, s: State, step: Step, s': State)
    requires Honest(sys, s) && Next(sys, s, step, s')
    ensures Honest(sys, s')
  {
    NextGrows(sys, s, step, s');
    forall m | m in s'.channel ensures Answer(sys, s'.sent, m) {
      OnTheWay(sys, s, step, s', m);
    }
  }

  // What is on the way was so before, or has just been served.
  lemma OnTheWay(sys: System, s: State, step: Step, s': State, m: InFlight)
    requires Next(sys, s, step, s') && m in s'.channel
    ensures m in s.channel || Answer(sys, s.sent, m)
  {
    hide Accepts, In;
  }

  lemma MatchedStep(sys: System, s: State, step: Step, s': State)
    requires Safe(sys, s) && Next(sys, s, step, s')
    ensures Matched(sys, s')
  {
    NextGrows(sys, s, step, s');
    forall a | a in s'.accepted ensures Right(sys, s'.sent, a) {
      if a in s.accepted {
        assert Right(sys, s.sent, a);
        RightStill(sys, s.sent, s'.sent, a);
      } else {
        ReceiveRight(sys, s, step, s', a);
      }
    }
  }

  lemma NextGrows(sys: System, s: State, step: Step, s': State)
    requires Next(sys, s, step, s')
    ensures s.sent <= s'.sent
    ensures !step.Receive? ==> s'.accepted == s.accepted
  {
    hide Accepts;
  }

  lemma RightStill(sys: System, sent: seq<Sent>, sent': seq<Sent>, a: Accepted)
    requires Right(sys, sent, a) && sent <= sent'
    ensures Right(sys, sent', a)
  {
  }

  // The thread that receives is the one that sent last, and it is the one with the lock.
  lemma ReceiveRight(sys: System, s: State, step: Step, s': State, a: Accepted)
    requires Safe(sys, s) && Next(sys, s, step, s') && a in s'.accepted && a !in s.accepted
    ensures step.Receive? && s.lock == Held(a.thread) && a.thread == step.t
    ensures a.request == |s.sent| - 1 && Right(sys, s'.sent, a)
  {
    hide *;
    NextGrows(sys, s, step, s');
    ReceiveTakes(sys, s, step, s', a);
    SafeFacts(sys, s, step.t, step.first);
    AcceptsIff(sys, |s.sent|, step.first, step.more);
    RightIs(sys, s'.sent, a);
  }

  lemma SafeFacts(sys: System, s: State, t: Thread, m: InFlight)
    requires Safe(sys, s)
    ensures t in s.phase && (s.phase[t] == Waiting ==>
      s.lock == Held(t) && s.sent != [] && s.sent[|s.sent| - 1].thread == t)
    ensures m in s.channel ==> Answer(sys, s.sent, m) && m.answers < |s.sent|
  {
    hide Matched, Answer;
    assert LockedAt(s, t);
    assert m in s.channel ==> Answer(sys, s.sent, m);
    AnswerIs(sys, s.sent, m);
  }

  lemma AnswerIs(sys: System, sent: seq<Sent>, m: InFlight)
    ensures Answer(sys, sent, m) ==> m.answers < |sent|
  {
  }

  lemma RightIs(sys: System, sent: seq<Sent>, a: Accepted)
    ensures Right(sys, sent, a) <==>
      && a.got.answers <= a.request < |sent| && sent[a.request].thread == a.thread
      && Answer(sys, sent, a.got) && (a.request - a.got.answers) % 0x10000 == 0
  {
  }

  lemma ReceiveTakes(sys: System, s: State, step: Step, s': State, a: Accepted)
    requires Next(sys, s, step, s') && step.Receive? && a in s'.accepted && a !in s.accepted
    ensures step.t in s.phase && s.phase[step.t] == Waiting && step.first in s.channel && s'.sent == s.sent
    ensures Accepts(sys, |s.sent|, step.first, step.more)
    ensures |s.sent| > 0 ==> a == Accepted(step.t, |s.sent| - 1, step.first)
  {
    hide Accepts;
    assert step.first in multiset([step.first] + step.more);
  }

  lemma InitSafe(sys: System, s: State)
    requires Init(s)
    ensures Safe(sys, s)
  {
    forall t: Thread ensures LockedAt(s, t) {
      assert In(s, t, Outside);
    }
  }

  lemma {:induction false} RunSafe(sys: System, states: seq<State>, steps: seq<Step>)
    requires Run(sys, states, steps)
    ensures forall k :: 0 <= k < |states| ==> Safe(sys, states[k])
    decreases |steps|
  {
    var n := |steps|;
    if n == 0 {
      InitSafe(sys, states[0]);
    } else {
      RunSafe(sys, states[..n], steps[..n - 1]);
      var s, step, s' := states[n - 1], steps[n - 1], states[n];
      assert states[..n][n - 1] == s && Next(sys, s, step, s');
      LockedStep(sys, s, step, s');
      HonestStep(sys, s, step, s');
      MatchedStep(sys, s, step, s');
      hide *;
      assert forall k :: 0 <= k < n ==> states[..n][k] == states[k];
    }
  }

  // Over every run: whatever the channel does, a thread goes on only with the server's answer to its own
  // request, if no reply is 65536 requests late.
  lemma AcceptedAnswers(sys: System, states: seq<State>, steps: seq<Step>, k: nat, a: Accepted)
    requires Run(sys, states, steps) && k < |states| && a in states[k].accepted
    requires a.request - a.got.answers < 0x10000
    ensures var sent := states[k].sent;
      && a.request < |sent| && sent[a.request].thread == a.thread
      && a.got.answers == a.request && a.got.reply == sys.server(a.request, sent[a.request].request)
  {
    RunSafe(sys, states, steps);
    assert Safe(sys, states[k]) && Right(sys, states[k].sent, a);
  }

  // At the moment of acceptance that request is the last one sent, and its thread has the lock, alone.
  lemma AcceptedLast(sys: System, states: seq<State>, steps: seq<Step>, k: nat, a: Accepted)
    requires Run(sys, states, steps) && k < |steps|
    requires a in states[k + 1].accepted && a !in states[k].accepted
    ensures states[k].lock == Held(a.thread) && a.request == |states[k].sent| - 1
    ensures forall t: Thread :: t in states[k].phase && (states[k].phase[t] != Outside ==> t == a.thread)
  {
    RunSafe(sys, states, steps);
    assert Next(sys, states[k], steps[k], states[k + 1]) && Safe(sys, states[k]);
    ReceiveRight(sys, states[k], steps[k], states[k + 1], a);
    forall t: Thread ensures t in states[k].phase && (states[k].phase[t] != Outside ==> t == a.thread) {
      assert LockedAt(states[k], t);
    }
  }

  // And the fields it goes on with are those of the server's answer to its request, whatever came in
  // behind the reply and whatever the fields held before; but for the last byte of a register reply of
  // odd length that came in alone.
  lemma AcceptedFields(sys: System, states: seq<State>, steps: seq<Step>, k: nat, a: Accepted, stale: Info)
    requires Run(sys, states, steps) && k < |steps|
    requires a in states[k + 1].accepted && a !in states[k].accepted && a.request - a.got.answers < 0x10000
    requires WellFormed(a.got.reply) && Sized(stale)
    ensures steps[k].Receive? && steps[k].t == a.thread && a.request < |states[k].sent|
    ensures var answer := sys.server(a.request, states[k].sent[a.request].request);
      var received := FrameOf(sys, steps[k].first) + FramesOf(sys, steps[k].more);
      var d := Decoded(received, Tcp.HEAD, stale);
      && Sized(d.info) && a.got.reply == answer
      && (Yields(d.info, answer) <==>
          Even(answer) || steps[k].more != [] || answer.data[|answer.data| - 1] == stale.value[|answer.data| - 1])
  {
    RunSafe(sys, states, steps);
    assert Next(sys, states[k], steps[k], states[k + 1]) && Safe(sys, states[k]);
    ReceiveRight(sys, states[k], steps[k], states[k + 1], a);
    NextGrows(sys, states[k], steps[k], states[k + 1]);
    ReceiveTakes(sys, states[k], steps[k], states[k + 1], a);
    AcceptedAnswers(sys, states, steps, k + 1, a);
    FrameRead(sys, a.got, steps[k].more, stale);
  }

  lemma FramesAre(sys: System, first: InFlight, more: seq<InFlight>)
    ensures FrameOf(sys, first) == Tcp.TcpFrame(CodeOf(first.answers + 1), 0, sys.unit, ReplyBytes(first.reply))
    ensures FramesOf(sys, more) != [] <==> more != []
  {
    hide CodeOf, ReplyBytes;
  }

  lemma FrameRead(sys: System, first: InFlight, more: seq<InFlight>, stale: Info)
    requires WellFormed(first.reply) && Sized(stale)
    ensures var d, r := Decoded(FrameOf(sys, first) + FramesOf(sys, more), Tcp.HEAD, stale), first.reply;
      && Sized(d.info)
      && (Yields(d.info, r) <==> Even(r) || more != [] || r.data[|r.data| - 1] == stale.value[|r.data| - 1])
  {
    hide *;
    var code, pdu, rest := CodeOf(first.answers + 1), ReplyBytes(first.reply), FramesOf(sys, more);
    FramesAre(sys, first, more);
    Tcp.FrameIsHead(code, 0, sys.unit, pdu);
    var h := Tcp.Mbap(code, 0, Swap(Tcp.LengthWord(|pdu| + 1)), sys.unit);
    Tcp.ReplyAccepted(HeadAfter(sys, 0), h, first.reply, rest, stale);
  }

  // The bound is sharp: there is a run in which a reply comes 65536 requests late and is accepted.
  lemma LateReplyMisleads(sys: System, request: Info) returns (states: seq<State>, steps: seq<Step>, a: Accepted)
    ensures Run(sys, states, steps) && a in states[|steps|].accepted
    ensures a.request == 0x10000 && a.got.answers == 0
  {
    states, steps := Rounds(sys, request, 0xFFFF);
    hide Run, Init;
    var s := states[|steps|];
    assert In(s, Rely, Outside);
    var s1 := Move(s, Rely, Ready).(lock := Held(Rely));
    states, steps := Extend(sys, states, steps, Lock(Rely), s1);
    var s2 := Move(s1, Rely, Waiting).(sent := s1.sent + [Sent(Rely, request)]);
    states, steps := Extend(sys, states, steps, Send(Rely, request), s2);
    var m := InFlight(0, sys.server(0, request));
    a := Accepted(Rely, 0x10000, m);
    var s3 := LateTaken(sys, s2, m);
    states, steps := Extend(sys, states, steps, Receive(Rely, m, []), s3);
  }

  lemma LateTaken(sys: System, s: State, m: InFlight) returns (s': State)
    requires In(s, Rely, Waiting) && |s.sent| == 0x10001 && s.channel == multiset{m} && m.answers == 0
    ensures Next(sys, s, Receive(Rely, m, []), s') && Accepted(Rely, 0x10000, m) in s'.accepted
  {
    hide *;
    AcceptsIff(sys, 0x10001, m, []);
    OneTaken(m);
    s' := Move(s.(channel := s.channel - multiset([m] + [])), Rely, Ready)
          .(accepted := s.accepted + [Accepted(Rely, 0x10000, m)]);
    RelyTakes(sys, s, m, s');
  }

  lemma OneTaken(m: InFlight)
    ensures multiset([m] + []) == multiset{m}
  {
    assert [m] + [] == [m];
  }

  // A reply accepted by the thread of the rules.
  lemma RelyTakes(sys: System, s: State, m: InFlight, s': State)
    requires In(s, Rely, Waiting) && |s.sent| > 0 && multiset([m] + []) <= s.channel
    requires Accepts(sys, |s.sent|, m, [])
    requires s' == Move(s.(channel := s.channel - multiset([m] + [])), Rely, Ready)
                   .(accepted := s.accepted + [Accepted(Rely, |s.sent| - 1, m)])
    ensures Next(sys, s, Receive(Rely, m, []), s')
  {
    hide Accepts, In, Move;
  }

  // A run of n + 1 requests that all time out, while the reply to the first is on its way.
  lemma {:induction false} Rounds(sys: System, request: Info, n: nat) returns (states: seq<State>, steps: seq<Step>)
    ensures Run(sys, states, steps)
    ensures Resting(states[|steps|], n + 1) && states[|steps|].accepted == []
    ensures states[|steps|].channel == multiset{InFlight(0, sys.server(0, request))}
  {
    if n == 0 {
      var s0 := State(Free, map[Worker := Outside, Stay := Outside, Rely := Outside], [], multiset{}, []);
      forall t: Thread ensures In(s0, t, Outside) {
        match t case Worker => case Stay => case Rely =>
      }
      states, steps := [s0], [];
      assert Run(sys, states, steps) && Resting(s0, 0);
      states, steps := Round(sys, states, steps, request, true);
    } else {
      states, steps := Rounds(sys, request, n - 1);
      states, steps := Round(sys, states, steps, request, false);
    }
  }

  ghost predicate Resting(s: State, n: nat) {
    s.lock == Free && |s.sent| == n && forall t: Thread :: In(s, t, Outside)
  }

  lemma Round(sys: System, states0: seq<State>, steps0: seq<Step>, request: Info, serve: bool)
    returns (states: seq<State>, steps: seq<Step>)
    requires Run(sys, states0, steps0)
    requires var s := states0[|steps0|]; Resting(s, |s.sent|) && (serve ==> s.sent == [] && s.channel == multiset{})
    ensures Run(sys, states, steps)
    ensures var s, s' := states0[|steps0|], states[|steps|];
      && Resting(s', |s.sent| + 1) && s'.accepted == s.accepted
      && s'.channel == if serve then multiset{InFlight(0, sys.server(0, request))} else s.channel
  {
    states, steps := states0, steps0;
    var s := states[|steps|];
    var s1 := Move(s, Rely, Ready).(lock := Held(Rely));
    states, steps := Extend(sys, states, steps, Lock(Rely), s1);
    var s2 := Move(s1, Rely, Waiting).(sent := s1.sent + [Sent(Rely, request)]);
    states, steps := Extend(sys, states, steps, Send(Rely, request), s2);
    var s3 := Move(s2, Rely, Leaving);
    states, steps := Extend(sys, states, steps, TimeOut(Rely), s3);
    var s4 := Move(s3, Rely, Outside).(lock := Free);
    states, steps := Extend(sys, states, steps, Unlock(Rely), s4);
    forall t: Thread ensures In(s4, t, Outside) {
      assert In(s, t, Outside);
    }
    if serve {
      var s5 := s4.(channel := s4.channel + multiset{InFlight(0, sys.server(0, request))});
      assert forall t: Thread :: In(s5, t, Outside) <==> In(s4, t, Outside);
      states, steps := Extend(sys, states, steps, Serve(0), s5);
    }
  }

  lemma Extend(sys: System, states0: seq<State>, steps0: seq<Step>, step: Step, s': State)
    returns (states: seq<State>, steps: seq<Step>)
    requires Run(sys, states0, steps0) && Next(sys, states0[|steps0|], step, s')
    ensures Run(sys, states, steps) && |steps| == |steps0| + 1 && states[|steps|] == s'
    ensures states == states0 + [s'] && steps == steps0 + [step]
  {
    states, steps := states0 + [s'], steps0 + [step];
    hide Next, Init;
    forall i | 0 <= i < |steps| ensures Next(sys, states[i], steps[i], states[i + 1]) {
      if i < |steps0| {
        assert Next(sys, states0[i], steps0[i], states0[i + 1]);
      }
    }
  }

  // What the steps leave open: after any run the answer to any request sent may come in, again and again
  // and in any order, and any reply on its way may be lost.
  lemma ChannelCan(sys: System, states: seq<State>, steps: seq<Step>, i: nat, m: InFlight)
    returns (served: seq<State>, lost: seq<State>)
    requires Run(sys, states, steps) && i < |states[|steps|].sent| && m in states[|steps|].channel
    ensures var s := states[|steps|];
      && |served| == |lost| == |states| + 1
      && Run(sys, served, steps + [Serve(i)]) && Run(sys, lost, steps + [Lose(m)])
      && served[|steps| + 1] == s.(channel := s.channel + multiset{InFlight(i, sys.server(i, s.sent[i].request))})
      && lost[|steps| + 1] == s.(channel := s.channel - multiset{m})
  {
    var s := states[|steps|];
    var more := s.(channel := s.channel + multiset{InFlight(i, sys.server(i, s.sent[i].request))});
    var fewer := s.(channel := s.channel - multiset{m});
    var steps1;
    served, steps1 := Extend(sys, states, steps, Serve(i), more);
    lost, steps1 := Extend(sys, states, steps, Lose(m), fewer);
  }

  ghost predicate Can(sys: System, s: State, step: Step) {
    exists s' :: Next(sys, s, step, s')
  }

  // When each step of a thread may happen. Any of the three may send, and fail to; any set of replies on
  // the way may come in together, in any order; only the worker never leaves without an exchange.
  lemma ThreadCan(sys: System, s: State, t: Thread, request: Info, first: InFlight, more: seq<InFlight>)
    ensures Can(sys, s, Lock(t)) <==> In(s, t, Outside) && s.lock == Free
    ensures Can(sys, s, Send(t, request)) <==> In(s, t, Ready)
    ensures Can(sys, s, SendFails(t, request)) <==> In(s, t, Ready)
    ensures Can(sys, s, TimeOut(t)) <==> In(s, t, Waiting)
    ensures Can(sys, s, Receive(t, first, more)) <==> In(s, t, Waiting) && multiset([first] + more) <= s.channel
    ensures Can(sys, s, Unlock(t)) <==> In(s, t, Leaving) || (In(s, t, Ready) && t != Worker)
  {
    CanLock(sys, s, t);
    CanSend(sys, s, t, request);
    CanReceive(sys, s, t, first, more);
    CanUnlock(sys, s, t);
    hide *;
  }

  lemma CanLock(sys: System, s: State, t: Thread)
    ensures Can(sys, s, Lock(t)) <==> In(s, t, Outside) && s.lock == Free
    ensures Can(sys, s, TimeOut(t)) <==> In(s, t, Waiting)
  {
    hide In, Move;
    if In(s, t, Outside) && s.lock == Free {
      assert Next(sys, s, Lock(t), Move(s, t, Ready).(lock := Held(t)));
    }
    if In(s, t, Waiting) {
      assert Next(sys, s, TimeOut(t), Move(s, t, Leaving));
    }
  }

  lemma CanSend(sys: System, s: State, t: Thread, request: Info)
    ensures Can(sys, s, Send(t, request)) <==> In(s, t, Ready)
    ensures Can(sys, s, SendFails(t, request)) <==> In(s, t, Ready)
  {
    hide In, Move;
    var sent := s.sent + [Sent(t, request)];
    if In(s, t, Ready) {
      assert Next(sys, s, Send(t, request), Move(s, t, Waiting).(sent := sent));
      assert Next(sys, s, SendFails(t, request), Move(s, t, Leaving).(sent := sent));
    }
  }

  lemma CanReceive(sys: System, s: State, t: Thread, first: InFlight, more: seq<InFlight>)
    ensures Can(sys, s, Receive(t, first, more)) <==> In(s, t, Waiting) && multiset([first] + more) <= s.channel
  {
    hide In, Move, Accepts;
    if In(s, t, Waiting) && multiset([first] + more) <= s.channel {
      var after := s.(channel := s.channel - multiset([first] + more));
      var last := if |s.sent| > 0 then |s.sent| - 1 else 0;
      var s' := if Accepts(sys, |s.sent|, first, more)
                then Move(after, t, if t.Rely? then Ready else Leaving)
                       .(accepted := s.accepted + [Accepted(t, last, first)])
                else Move(after, t, Leaving);
      assert Next(sys, s, Receive(t, first, more), s');
    }
  }

  lemma CanUnlock(sys: System, s: State, t: Thread)
    ensures Can(sys, s, Unlock(t)) <==> In(s, t, Leaving) || (In(s, t, Ready) && t != Worker)
  {
    hide In, Move;
    if In(s, t, Leaving) || (In(s, t, Ready) && t != Worker) {
      assert Next(sys, s, Unlock(t), Move(s, t, Outside).(lock := Free));
    }
  }

  // An RTU frame has nothing to tell requests apart by: the late reply to an earlier request of any kind
  // is taken for the one sent now exactly as it would have been in time, and yields its own fields.
  // `asked` is what the fields held.
  lemma RtuCannotTell(addr: bv8, late: Reply, asked: Info)
    requires Sized(asked) && WellFormed(late)
    ensures var f := Rtu.RtuFrame(addr, ReplyBytes(late));
      && (Rtu.RtuAccepts(f, addr as bv16, asked) <==>
          Even(late) || Crc.Checksum([addr] + ReplyBytes(late)) == 0)
      && var d := Decoded(f, 1, asked); Sized(d.info) && Yields(d.info, late)
  {
    Rtu.ReplyAccepted(addr as bv16, addr, late, asked);
  }
}
