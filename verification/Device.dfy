/** The device-side processor's ack tracker: commands sent to the oven, and the one
    outcome each of them is reported with. */
module Device {
  import opened Session

  /** A command sent to the oven and not yet seen among those it has processed. */
  datatype PendingAck = PendingAck(id: string, deadline: nat)

  datatype Status = Ok | Timeout | Disconnected | SendFailed

  /** What the state machine is told. */
  datatype Event = Connected | CookerDiscovered | LinkDown | ApoState | ParseError
    | CommandAck(id: string, status: Status)

  /** What the loop wakes up for. Sends that may fail carry how they went. */
  datatype Input =
    | NewSession(rateSent: bool)
    | Report(processed: seq<string>)
    | OtherFrame(parsed: bool, keep: bool)
    | LinkLost
    | Deadline(now: nat)
    | Command(id: string, sent: bool, now: nat)

  datatype State = State(connected: bool, pending: seq<PendingAck>, events: seq<Event>)

  function Acks(entries: seq<PendingAck>, status: Status): seq<Event> {
    seq(|entries|, i requires 0 <= i < |entries| => CommandAck(entries[i].id, status))
  }

  function Those(pending: seq<PendingAck>, ids: seq<string>): seq<PendingAck> {
    if pending == [] then [] else (if pending[0].id in ids then [pending[0]] else []) + Those(pending[1..], ids)
  }

  function Without(pending: seq<PendingAck>, ids: seq<string>): seq<PendingAck> {
    if pending == [] then [] else (if pending[0].id in ids then [] else [pending[0]]) + Without(pending[1..], ids)
  }

  function Expired(pending: seq<PendingAck>, now: nat): seq<PendingAck> {
    if pending == [] then [] else (if pending[0].deadline <= now then [pending[0]] else []) + Expired(pending[1..], now)
  }

  function Unexpired(pending: seq<PendingAck>, now: nat): seq<PendingAck> {
    if pending == [] then []
    else (if pending[0].deadline <= now then [] else [pending[0]]) + Unexpired(pending[1..], now)
  }

  function Ended(s: State): State {
    if s.connected then s.(connected := false, events := s.events + [LinkDown]) else s
  }

  /** The loop's response to one input. Without a session there is nothing to read frames from. */
  function Step(s: State, i: Input, ackTimeout: nat): State {
    match i
    case NewSession(rateSent) =>
      var told := Ended(s).events + [Connected, CookerDiscovered];
      if rateSent then State(true, s.pending, told) else State(false, s.pending, told + [LinkDown])
    case Report(processed) =>
      if !s.connected then s
      else State(true, Without(s.pending, processed), s.events + [ApoState] + Acks(Those(s.pending, processed), Ok))
    case OtherFrame(parsed, keep) =>
      if !s.connected then s
      else
        var told := if parsed then s else s.(events := s.events + [ParseError]);
        if keep then told else Ended(told)
    case LinkLost => Ended(s)
    case Deadline(now) =>
      State(s.connected, Unexpired(s.pending, now), s.events + Acks(Expired(s.pending, now), Timeout))
    case Command(id, sent, now) =>
      if !s.connected then s.(events := s.events + [CommandAck(id, Disconnected)])
      else if !sent then Ended(s.(events := s.events + [CommandAck(id, SendFailed)]))
      else s.(pending := s.pending + [PendingAck(id, now + ackTimeout)])
  }

  const INITIAL: State := State(false, [], [])

  /** The loop's variables, updated in place. */
  class Processor {
    const ackTimeout: nat
    var connected: bool
    var pending: seq<PendingAck>
    /** Everything sent to the state machine. */
    ghost var events: seq<Event>

    ghost function Value(): State reads this { State(connected, pending, events) }

    constructor (ackTimeout: nat)
      ensures Value() == INITIAL && this.ackTimeout == ackTimeout
    {
      this.ackTimeout := ackTimeout;
      connected, pending, events := false, [], [];
    }

    method Tell(e: Event)
      modifies this`events
      ensures events == old(events) + [e]
    {
      events := events + [e];
    }

    method EndSession()
      modifies this`connected, this`events
      ensures Value() == Ended(old(Value()))
    {
      if connected {
        connected := false;
        Tell(LinkDown);
      }
    }

    /** Remove and return the pending commands the oven has handled. */
    method TakeAcked(processed: seq<string>) returns (acked: seq<PendingAck>)
      modifies this`pending
      ensures acked == Those(old(pending), processed) && pending == Without(old(pending), processed)
    {
      var rest: seq<PendingAck> := [];
      acked := [];
      for i := 0 to |pending|
        invariant acked + Those(pending[i..], processed) == Those(pending, processed)
        invariant rest + Without(pending[i..], processed) == Without(pending, processed)
      {
        assert pending[i..][1..] == pending[i + 1..];
        if pending[i].id in processed {
          acked := acked + [pending[i]];
        } else {
          rest := rest + [pending[i]];
        }
      }
      pending := rest;
    }

    /** Remove and return the pending commands past their deadline. */
    method TakeExpired(now: nat) returns (expired: seq<PendingAck>)
      modifies this`pending
      ensures expired == Expired(old(pending), now) && pending == Unexpired(old(pending), now)
    {
      var rest: seq<PendingAck> := [];
      expired := [];
      for i := 0 to |pending|
        invariant expired + Expired(pending[i..], now) == Expired(pending, now)
        invariant rest + Unexpired(pending[i..], now) == Unexpired(pending, now)
      {
        assert pending[i..][1..] == pending[i + 1..];
        if pending[i].deadline <= now {
          expired := expired + [pending[i]];
        } else {
          rest := rest + [pending[i]];
        }
      }
      pending := rest;
    }

    method SendAcks(entries: seq<PendingAck>, status: Status)
      modifies this`events
      ensures events == old(events) + Acks(entries, status)
    {
      for i := 0 to |entries|
        invariant events == old(events) + Acks(entries, status)[..i]
      {
        Tell(CommandAck(entries[i].id, status));
        assert Acks(entries, status)[..i + 1] == Acks(entries, status)[..i] + [CommandAck(entries[i].id, status)];
      }
      assert Acks(entries, status)[..|entries|] == Acks(entries, status);
    }

    /** One pass of the loop. */
    method Handle(i: Input)
      modifies this
      ensures Value() == Step(old(Value()), i, ackTimeout)
    {
      match i
      case NewSession(rateSent) =>
        EndSession();
        Tell(Connected);
        Tell(CookerDiscovered);
        if rateSent {
          connected := true;
        } else {
          Tell(LinkDown);
        }
      case Report(processed) =>
        if connected {
          // The state first, so that an ack is told after the state that confirms it.
          Tell(ApoState);
          var acked := TakeAcked(processed);
          SendAcks(acked, Ok);
        }
      case OtherFrame(parsed, keep) =>
        if connected {
          if !parsed {
            Tell(ParseError);
          }
          if !keep {
            EndSession();
          }
        }
      case LinkLost =>
        EndSession();
      case Deadline(now) =>
        var expired := TakeExpired(now);
        SendAcks(expired, Timeout);
      case Command(id, sent, now) =>
        if !connected {
          Tell(CommandAck(id, Disconnected));
        } else if !sent {
          Tell(CommandAck(id, SendFailed));
          EndSession();
        } else {
          pending := pending + [PendingAck(id, now + ackTimeout)];
        }
    }
  }

  // ---- Exactly one outcome ----

  function AckCount(events: seq<Event>, id: string): nat {
    if events == [] then 0
    else
      var last := events[|events| - 1];
      AckCount(events[..|events| - 1], id) + if last.CommandAck? && last.id == id then 1 else 0
  }

  function PendingCount(pending: seq<PendingAck>, id: string): nat {
    if pending == [] then 0 else (if pending[0].id == id then 1 else 0) + PendingCount(pending[1..], id)
  }

  lemma {:induction false} AckCountAppends(a: seq<Event>, b: seq<Event>, id: string)
    ensures AckCount(a + b, id) == AckCount(a, id) + AckCount(b, id)
    decreases |b|
  {
    if b == [] {
      assert a + b == a;
    } else {
      assert (a + b)[..|a + b| - 1] == a + b[..|b| - 1];
      AckCountAppends(a, b[..|b| - 1], id);
    }
  }

  lemma {:induction false} PendingCountAppends(a: seq<PendingAck>, b: seq<PendingAck>, id: string)
    ensures PendingCount(a + b, id) == PendingCount(a, id) + PendingCount(b, id)
    decreases |a|
  {
    if a == [] {
      assert a + b == b;
    } else {
      assert (a + b)[1..] == a[1..] + b;
      PendingCountAppends(a[1..], b, id);
    }
  }

  lemma {:induction false} AcksCounted(entries: seq<PendingAck>, status: Status, id: string)
    ensures AckCount(Acks(entries, status), id) == PendingCount(entries, id)
    decreases |entries|
  {
    if entries != [] {
      var init, last := entries[..|entries| - 1], entries[|entries| - 1];
      assert Acks(entries, status)[..|entries| - 1] == Acks(init, status);
      AcksCounted(init, status, id);
      PendingCountAppends(init, [last], id);
      assert init + [last] == entries && [last][1..] == [];
    }
  }

  lemma CountCons(p: PendingAck, keep: bool, rest: seq<PendingAck>, id: string)
    ensures PendingCount((if keep then [p] else []) + rest, id) ==
      PendingCount(rest, id) + if keep && p.id == id then 1 else 0
  {
    if keep {
      assert ([p] + rest)[1..] == rest;
    } else {
      assert [] + rest == rest;
    }
  }

  lemma {:induction false} AckedSplit(pending: seq<PendingAck>, ids: seq<string>, id: string)
    ensures PendingCount(Those(pending, ids), id) + PendingCount(Without(pending, ids), id) == PendingCount(pending, id)
  {
    if pending != [] {
      var taken := pending[0].id in ids;
      CountCons(pending[0], taken, Those(pending[1..], ids), id);
      CountCons(pending[0], !taken, Without(pending[1..], ids), id);
      AckedSplit(pending[1..], ids, id);
    }
  }

  lemma {:induction false} ExpiredSplit(pending: seq<PendingAck>, now: nat, id: string)
    ensures PendingCount(Expired(pending, now), id) + PendingCount(Unexpired(pending, now), id) ==
      PendingCount(pending, id)
  {
    if pending != [] {
      var taken := pending[0].deadline <= now;
      CountCons(pending[0], taken, Expired(pending[1..], now), id);
      CountCons(pending[0], !taken, Unexpired(pending[1..], now), id);
      ExpiredSplit(pending[1..], now, id);
    }
  }

  /** How often a command's outcome is told or still owed. */
  function Outcomes(s: State, id: string): nat {
    AckCount(s.events, id) + PendingCount(s.pending, id)
  }

  lemma {:induction false} NoAcks(events: seq<Event>, id: string)
    requires forall i :: 0 <= i < |events| ==> !events[i].CommandAck?
    ensures AckCount(events, id) == 0
  {
    if events != [] {
      NoAcks(events[..|events| - 1], id);
    }
  }

  /** Only sending a command adds an outcome, and exactly one, to that command. */
  lemma StepOutcomes(s: State, i: Input, ackTimeout: nat, id: string)
    ensures Outcomes(Step(s, i, ackTimeout), id) == Outcomes(s, id) + if i.Command? && i.id == id then 1 else 0
  {
    var s' := Step(s, i, ackTimeout);
    match i {
      case Report(processed) =>
        var acked := Those(s.pending, processed);
        AckCountAppends(s.events + [ApoState], Acks(acked, Ok), id);
        AckCountAppends(s.events, [ApoState], id);
        NoAcks([ApoState], id);
        AcksCounted(acked, Ok, id);
        AckedSplit(s.pending, processed, id);
      case Deadline(now) =>
        AckCountAppends(s.events, Acks(Expired(s.pending, now), Timeout), id);
        AcksCounted(Expired(s.pending, now), Timeout, id);
        ExpiredSplit(s.pending, now, id);
      case Command(id', sent, now) =>
        if s.connected && sent {
          PendingCountAppends(s.pending, [PendingAck(id', now + ackTimeout)], id);
          OnePending(PendingAck(id', now + ackTimeout), id);
        } else {
          var told := if s.connected then [CommandAck(id', SendFailed), LinkDown] else [CommandAck(id', Disconnected)];
          assert s'.events == s.events + if s.connected then told else [CommandAck(id', Disconnected)];
          AckCountAppends(s.events, told, id);
          OneAck(id', if s.connected then SendFailed else Disconnected, id);
        }
      case _ =>
        QuietStep(s, i, ackTimeout, id);
    }
  }

  lemma OnePending(p: PendingAck, id: string)
    ensures PendingCount([p], id) == if p.id == id then 1 else 0
  {
    assert [p][1..] == [];
  }

  lemma OneAck(acked: string, status: Status, id: string)
    ensures AckCount([CommandAck(acked, status)], id) == if acked == id then 1 else 0
    ensures AckCount([CommandAck(acked, status), LinkDown], id) == if acked == id then 1 else 0
  {
    assert [CommandAck(acked, status), LinkDown][..1] == [CommandAck(acked, status)];
    assert [CommandAck(acked, status)][..0] == [];
  }

  /** What the state machine is told when a connection comes or goes. */
  function Quiet(s: State, i: Input): seq<Event>
    requires i.NewSession? || i.OtherFrame? || i.LinkLost?
  {
    var down := if s.connected then [LinkDown] else [];
    match i
    case NewSession(rateSent) => down + [Connected, CookerDiscovered] + if rateSent then [] else [LinkDown]
    case OtherFrame(parsed, keep) =>
      if !s.connected then [] else (if parsed then [] else [ParseError]) + if keep then [] else down
    case _ => down
  }

  /** Connections come and go without touching any command's outcome. */
  lemma QuietStep(s: State, i: Input, ackTimeout: nat, id: string)
    requires i.NewSession? || i.OtherFrame? || i.LinkLost?
    ensures Outcomes(Step(s, i, ackTimeout), id) == Outcomes(s, id)
  {
    QuietTells(s, i, ackTimeout);
    QuietHasNoAcks(s, i);
    AckCountAppends(s.events, Quiet(s, i), id);
    NoAcks(Quiet(s, i), id);
  }

  lemma QuietTells(s: State, i: Input, ackTimeout: nat)
    requires i.NewSession? || i.OtherFrame? || i.LinkLost?
    ensures Step(s, i, ackTimeout).events == s.events + Quiet(s, i) && Step(s, i, ackTimeout).pending == s.pending
  {
  }

  lemma QuietHasNoAcks(s: State, i: Input)
    requires i.NewSession? || i.OtherFrame? || i.LinkLost?
    ensures forall k :: 0 <= k < |Quiet(s, i)| ==> !Quiet(s, i)[k].CommandAck?
  {
  }

  function Run(s: State, inputs: seq<Input>, ackTimeout: nat): State
    decreases |inputs|
  {
    if inputs == [] then s else Step(Run(s, inputs[..|inputs| - 1], ackTimeout), inputs[|inputs| - 1], ackTimeout)
  }

  function Issued(inputs: seq<Input>, id: string): nat
    decreases |inputs|
  {
    if inputs == [] then 0
    else
      var last := inputs[|inputs| - 1];
      Issued(inputs[..|inputs| - 1], id) + if last.Command? && last.id == id then 1 else 0
  }

  /** Over any run, a command given once has exactly one outcome, told or owed, and a
      command never given has none: nothing is acked twice, or acked unasked, however the
      oven's reports, timeouts and reconnects fall. */
  lemma {:induction false} ExactlyOneOutcome(inputs: seq<Input>, ackTimeout: nat, id: string)
    ensures Outcomes(Run(INITIAL, inputs, ackTimeout), id) == Issued(inputs, id)
    decreases |inputs|
  {
    if inputs != [] {
      ExactlyOneOutcome(inputs[..|inputs| - 1], ackTimeout, id);
      StepOutcomes(Run(INITIAL, inputs[..|inputs| - 1], ackTimeout), inputs[|inputs| - 1], ackTimeout, id);
    }
  }

  /** After a deadline wake-up nothing pending has expired; after a report nothing pending
      has been processed. */
  lemma {:induction false} WakeUpsClear(pending: seq<PendingAck>, now: nat, processed: seq<string>)
    ensures forall p <- Unexpired(pending, now) :: p.deadline > now
    ensures forall p <- Without(pending, processed) :: p.id !in processed
  {
    if pending != [] {
      WakeUpsClear(pending[1..], now, processed);
    }
  }

  /** An ack says what happened: "ok" is told by the report that lists the command, after
      its state, and "timeout" by a wake-up at or past the deadline. */
  lemma AckMeansWhatItSays(s: State, i: Input, ackTimeout: nat, k: nat)
    requires var s' := Step(s, i, ackTimeout); |s.events| <= k < |s'.events| && s'.events[k].CommandAck?
    ensures var ack := Step(s, i, ackTimeout).events[k];
      && (ack.status == Ok ==>
            && i.Report? && ack.id in i.processed && k > |s.events|
            && exists p <- s.pending :: p.id == ack.id)
      && (ack.status == Timeout ==> i.Deadline? && exists p <- s.pending :: p.id == ack.id && p.deadline <= i.now)
      && (ack.status == Disconnected ==> i.Command? && i.id == ack.id && !s.connected)
      && (ack.status == SendFailed ==> i.Command? && i.id == ack.id && s.connected && !i.sent)
  {
    match i {
      case Report(processed) => TakenArePending(s.pending, processed, 0);
      case Deadline(now) => TakenArePending(s.pending, [], now);
      case _ =>
    }
  }

  lemma {:induction false} TakenArePending(pending: seq<PendingAck>, processed: seq<string>, now: nat)
    ensures forall p <- Those(pending, processed) :: p in pending && p.id in processed
    ensures forall p <- Expired(pending, now) :: p in pending && p.deadline <= now
  {
    if pending != [] {
      TakenArePending(pending[1..], processed, now);
    }
  }

  // ---- Every command is answered in time ----

  /** Input `k` of the run sent the command that `p` waits for, that long before its deadline. */
  ghost predicate SentBy(inputs: seq<Input>, p: PendingAck, ackTimeout: nat, k: nat)
    requires k < |inputs|
  {
    inputs[k].Command? && inputs[k].id == p.id && inputs[k].sent && p.deadline == inputs[k].now + ackTimeout
  }

  ghost predicate WasSent(inputs: seq<Input>, p: PendingAck, ackTimeout: nat) {
    exists k :: 0 <= k < |inputs| && SentBy(inputs, p, ackTimeout, k)
  }

  /** Every pending command was sent, the ack timeout before its deadline. */
  lemma {:induction false} PendingWereSent(inputs: seq<Input>, ackTimeout: nat)
    ensures forall p <- Run(INITIAL, inputs, ackTimeout).pending :: WasSent(inputs, p, ackTimeout)
    decreases |inputs|
  {
    if inputs != [] {
      var (init, last) := (inputs[..|inputs| - 1], inputs[|inputs| - 1]);
      var before := Run(INITIAL, init, ackTimeout);
      PendingWereSent(init, ackTimeout);
      forall p | p in Run(INITIAL, inputs, ackTimeout).pending ensures WasSent(inputs, p, ackTimeout) {
        if p in before.pending {
          var k :| 0 <= k < |init| && SentBy(init, p, ackTimeout, k);
          assert SentBy(inputs, p, ackTimeout, k);
        } else {
          PendingFrom(before, last, ackTimeout, p);
          assert SentBy(inputs, p, ackTimeout, |inputs| - 1);
        }
      }
    }
  }

  /** What a step leaves pending was pending before, or is the command it sent. */
  lemma PendingFrom(s: State, i: Input, ackTimeout: nat, p: PendingAck)
    requires p in Step(s, i, ackTimeout).pending && p !in s.pending
    ensures i.Command? && i.id == p.id && i.sent && p.deadline == i.now + ackTimeout
  {
    match i {
      case Report(processed) => LeftArePending(s.pending, processed, 0);
      case Deadline(now) => LeftArePending(s.pending, [], now);
      case _ =>
    }
  }

  lemma {:induction false} LeftArePending(pending: seq<PendingAck>, processed: seq<string>, now: nat)
    ensures forall p <- Without(pending, processed) :: p in pending
    ensures forall p <- Unexpired(pending, now) :: p in pending
  {
    if pending != [] {
      LeftArePending(pending[1..], processed, now);
    }
  }

  lemma {:induction false} NonePending(pending: seq<PendingAck>, id: string)
    requires forall p <- pending :: p.id != id
    ensures PendingCount(pending, id) == 0
  {
    if pending != [] {
      assert pending[0] in pending;
      NonePending(pending[1..], id);
    }
  }

  lemma IssuedAfter(inputs: seq<Input>, i: Input, id: string)
    requires !i.Command?
    ensures Issued(inputs + [i], id) == Issued(inputs, id)
  {
    assert (inputs + [i])[..|inputs|] == inputs;
  }

  lemma RunAfter(inputs: seq<Input>, i: Input, ackTimeout: nat)
    ensures Run(INITIAL, inputs + [i], ackTimeout) == Step(Run(INITIAL, inputs, ackTimeout), i, ackTimeout)
  {
    assert (inputs + [i])[..|inputs|] == inputs;
  }

  /** A command given once has had its ack after any wake-up that comes the ack timeout or
      longer after it was given. */
  lemma AnsweredInTime(inputs: seq<Input>, ackTimeout: nat, id: string, now: nat)
    requires Issued(inputs, id) == 1
    requires forall k :: 0 <= k < |inputs| && inputs[k].Command? && inputs[k].id == id ==>
      now >= inputs[k].now + ackTimeout
    ensures AckCount(Run(INITIAL, inputs + [Deadline(now)], ackTimeout).events, id) == 1
  {
    var before := Run(INITIAL, inputs, ackTimeout);
    var after := Run(INITIAL, inputs + [Deadline(now)], ackTimeout);
    RunAfter(inputs, Deadline(now), ackTimeout);
    IssuedAfter(inputs, Deadline(now), id);
    ExactlyOneOutcome(inputs + [Deadline(now)], ackTimeout, id);
    PendingWereSent(inputs, ackTimeout);
    WakeUpsClear(before.pending, now, []);
    LeftArePending(before.pending, [], now);
    forall p | p in after.pending ensures p.id != id {
      assert p in before.pending && WasSent(inputs, p, ackTimeout);
    }
    NonePending(after.pending, id);
  }

  /** A command given once has had its ack after any report in a session that lists it. */
  lemma AnsweredWhenProcessed(inputs: seq<Input>, ackTimeout: nat, id: string, processed: seq<string>)
    requires Issued(inputs, id) == 1 && id in processed && Run(INITIAL, inputs, ackTimeout).connected
    ensures AckCount(Run(INITIAL, inputs + [Report(processed)], ackTimeout).events, id) == 1
  {
    var before := Run(INITIAL, inputs, ackTimeout);
    RunAfter(inputs, Report(processed), ackTimeout);
    IssuedAfter(inputs, Report(processed), id);
    ExactlyOneOutcome(inputs + [Report(processed)], ackTimeout, id);
    WakeUpsClear(before.pending, 0, processed);
    NonePending(Run(INITIAL, inputs + [Report(processed)], ackTimeout).pending, id);
  }

  /** "timeout" is told of a command only when the ack timeout has passed since it was sent. */
  lemma TimeoutIsLate(inputs: seq<Input>, i: Input, ackTimeout: nat, k: nat)
    requires var (s, s') := (Run(INITIAL, inputs, ackTimeout), Step(Run(INITIAL, inputs, ackTimeout), i, ackTimeout));
      |s.events| <= k < |s'.events| && s'.events[k].CommandAck? && s'.events[k].status == Timeout
    ensures i.Deadline?
    ensures var id := Step(Run(INITIAL, inputs, ackTimeout), i, ackTimeout).events[k].id;
      exists j :: 0 <= j < |inputs| && SentAndLate(inputs, j, id, ackTimeout, i.now)
  {
    var s := Run(INITIAL, inputs, ackTimeout);
    AckMeansWhatItSays(s, i, ackTimeout, k);
    PendingWereSent(inputs, ackTimeout);
    var id := Step(s, i, ackTimeout).events[k].id;
    var p :| p in s.pending && p.id == id && p.deadline <= i.now;
    assert WasSent(inputs, p, ackTimeout);
    var j :| 0 <= j < |inputs| && SentBy(inputs, p, ackTimeout, j);
    assert SentAndLate(inputs, j, id, ackTimeout, i.now);
  }

  ghost predicate SentAndLate(inputs: seq<Input>, j: nat, id: string, ackTimeout: nat, now: nat)
    requires j < |inputs|
  {
    inputs[j].Command? && inputs[j].id == id && inputs[j].sent && now >= inputs[j].now + ackTimeout
  }

  // ---- What is told comes session by session ----

  function SignalOf(e: Event): Signal {
    match e
    case CookerDiscovered => Opened
    case LinkDown => Closed
    case ApoState => StateTold
    case _ => Other
  }

  function Signals(events: seq<Event>): (signals: seq<Signal>)
    ensures |signals| == |events|
  {
    seq(|events|, k requires 0 <= k < |events| => SignalOf(events[k]))
  }

  /** So far sessions were told one at a time, reports in open ones only, and one is open when
      an oven is connected; and each was announced by its connection. */
  ghost predicate Orderly(s: State) {
    && Bracketed(Signals(s.events)) && (IsOpen(Signals(s.events), |s.events|) <==> s.connected)
    && forall k :: 0 <= k < |s.events| && s.events[k] == CookerDiscovered ==> k > 0 && s.events[k - 1] == Connected
  }

  lemma TellsInOrder(s: State, e: Event)
    requires Orderly(s) && (e == ApoState || e == LinkDown ==> s.connected)
    requires e == CookerDiscovered ==> !s.connected && s.events != [] && s.events[|s.events| - 1] == Connected
    ensures Orderly(s.(events := s.events + [e], connected := e == CookerDiscovered || (e != LinkDown && s.connected)))
  {
    assert Signals(s.events + [e]) == Signals(s.events) + [SignalOf(e)];
    OneMoreSignal(Signals(s.events), SignalOf(e));
  }

  lemma {:induction false} AcksInOrder(s: State, entries: seq<PendingAck>, status: Status)
    requires Orderly(s)
    ensures Orderly(s.(events := s.events + Acks(entries, status)))
  {
    if entries == [] {
      assert s.events + Acks(entries, status) == s.events;
    } else {
      var init, last := entries[..|entries| - 1], entries[|entries| - 1];
      AcksInOrder(s, init, status);
      TellsInOrder(s.(events := s.events + Acks(init, status)), CommandAck(last.id, status));
      assert s.events + Acks(init, status) + [CommandAck(last.id, status)] == s.events + Acks(entries, status);
    }
  }

  lemma EndsInOrder(s: State)
    requires Orderly(s)
    ensures Orderly(Ended(s)) && !Ended(s).connected
  {
    if s.connected {
      TellsInOrder(s, LinkDown);
    }
  }

  lemma NewSessionInOrder(s: State, rateSent: bool, ackTimeout: nat)
    requires Orderly(s)
    ensures Orderly(Step(s, NewSession(rateSent), ackTimeout))
  {
    var ended := Ended(s);
    EndsInOrder(s);
    TellsInOrder(ended, Connected);
    var greeted := ended.(events := ended.events + [Connected]);
    TellsInOrder(greeted, CookerDiscovered);
    var named := State(true, s.pending, greeted.events + [CookerDiscovered]);
    TellsInOrder(named, LinkDown);
    assert named.events == ended.events + [Connected, CookerDiscovered];
  }

  lemma StepInOrder(s: State, i: Input, ackTimeout: nat)
    requires Orderly(s)
    ensures Orderly(Step(s, i, ackTimeout))
  {
    match i {
      case NewSession(rateSent) => NewSessionInOrder(s, rateSent, ackTimeout);
      case Report(processed) =>
        if s.connected {
          TellsInOrder(s, ApoState);
          AcksInOrder(s.(events := s.events + [ApoState]), Those(s.pending, processed), Ok);
        }
      case OtherFrame(_, _) =>
        EndsInOrder(s);
        TellsInOrder(s, ParseError);
        EndsInOrder(s.(events := s.events + [ParseError]));
      case LinkLost => EndsInOrder(s);
      case Deadline(now) => AcksInOrder(s, Expired(s.pending, now), Timeout);
      case Command(id, _, _) =>
        TellsInOrder(s, CommandAck(id, Disconnected));
        TellsInOrder(s, CommandAck(id, SendFailed));
        EndsInOrder(s.(events := s.events + [CommandAck(id, SendFailed)]));
    }
  }

  /** Over any run the state machine is told of reports only in an open session: after its
      oven was named, and before the link is said to be down. */
  lemma {:induction false} ReportsInSessions(inputs: seq<Input>, ackTimeout: nat)
    ensures Orderly(Run(INITIAL, inputs, ackTimeout))
    decreases |inputs|
  {
    if inputs != [] {
      ReportsInSessions(inputs[..|inputs| - 1], ackTimeout);
      StepInOrder(Run(INITIAL, inputs[..|inputs| - 1], ackTimeout), inputs[|inputs| - 1], ackTimeout);
    }
  }
}
