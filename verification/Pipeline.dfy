/**
 The two processes of `gobgp mrt inject`: a producer that reads the dump and sends
 batches into a bounded channel, and a consumer that ranges over the channel and
 streams each batch to the daemon. A schedule is any sequence of enabled steps; an
 exit of either process ends both, whatever is still queued.
 */
module Pipeline {
  import opened Bytes
  import opened Int64
  import opened MrtWire
  import opened Injection
  import opened Window

  /** Blocked on `ch <- paths` is `Offering`; `Stopped` is after `close(ch)`. */
  datatype Producer = Reading | Offering(batch: Batch) | Closing | Stopped

  /** Blocked in AddPathStream, on the channel, in Send, and in CloseAndRecv. */
  datatype Consumer = Opening | Receiving | Sending(batch: Batch) | Finishing

  datatype Exit = Running | Refused | Aborted(error: Error) | StreamFailed | Done

  datatype State = State(
    input: seq<byte>, peers: Option<seq<Peer>>, idx: int64, producer: Producer,
    queue: seq<Batch>, closed: bool, consumer: Consumer, sent: seq<Batch>, exit: Exit)

  /** The daemon decides whether opening, sending and finishing succeed. */
  datatype Step = Read | Offer | Close | Open(ok: bool) | Receive | Send(ok: bool) | EndRange | Finish(ok: bool)

  function Init(input: seq<byte>): State {
    State(input, None, 0, Reading, [], false, Opening, [], Running)
  }

  predicate Enabled(opts: Opts, s: State, step: Step) {
    && s.exit.Running?
    && match step
       case Read => s.producer.Reading?
       case Offer => s.producer.Offering? && |s.queue| < opts.queueSize
       case Close => s.producer.Closing?
       case Open(_) => s.consumer.Opening?
       case Receive => s.consumer.Receiving? && s.queue != []
       case Send(_) => s.consumer.Sending?
       case EndRange => s.consumer.Receiving? && s.queue == [] && s.closed
       case Finish(_) => s.consumer.Finishing?
  }

  /** The producer after a counted record: the index moves on, and may end the loop. */
  function Advance(opts: Opts, s: State): State {
    var idx := Wrap64(s.idx + 1);
    s.(idx := idx, producer := if idx == StopIndex(opts) then Closing else Reading)
  }

  /** One turn of the producer's loop, up to its next channel operation. */
  function ReadStep(env: Env, opts: Opts, s: State): State {
    match ReadRecord(s.input)
    case AtEnd => s.(producer := Closing)
    case Broken => s.(exit := Aborted(BrokenInput))
    case Got(r, rest) =>
      var t := s.(input := rest);
      match Judge(env, opts, s.peers, r)
      case Ignored => t
      case NewTable(ps) => t.(peers := Some(ps))
      case Fatal(e) => s.(exit := Aborted(e))
      case Counted(b) => if s.idx >= opts.skip then t.(producer := Offering(b)) else Advance(opts, t)
  }

  function Apply(env: Env, opts: Opts, s: State, step: Step): State
    requires Enabled(opts, s, step)
  {
    match step
    case Read => ReadStep(env, opts, s)
    case Offer => Advance(opts, s.(queue := s.queue + [s.producer.batch]))
    case Close => s.(closed := true, producer := Stopped)
    case Open(ok) => if ok then s.(consumer := Receiving) else s.(exit := StreamFailed)
    case Receive => s.(queue := s.queue[1..], consumer := Sending(s.queue[0]))
    case Send(ok) =>
      if ok then s.(sent := s.sent + [s.consumer.batch], consumer := Receiving) else s.(exit := StreamFailed)
    case EndRange => s.(consumer := Finishing)
    case Finish(ok) => s.(exit := if ok then Done else StreamFailed)
  }

  // ------------------------------------------------------------------- runs

  predicate Allowed(env: Env, opts: Opts, s: State, schedule: seq<Step>)
    decreases |schedule|
  {
    schedule == [] ||
    (Enabled(opts, s, schedule[0]) && Allowed(env, opts, Apply(env, opts, s, schedule[0]), schedule[1..]))
  }

  function Run(env: Env, opts: Opts, s: State, schedule: seq<Step>): State
    requires Allowed(env, opts, s, schedule)
    decreases |schedule|
  {
    if schedule == [] then s else Run(env, opts, Apply(env, opts, s, schedule[0]), schedule[1..])
  }

  // -------------------------------------------------------------- refinement

  /** What the whole dump amounts to when it is injected sequentially. */
  function Expected(env: Env, opts: Opts, dump: seq<byte>): Outcome {
    Inject(env, opts, None, 0, dump)
  }

  function InFlight(s: State): seq<Batch> {
    if s.consumer.Sending? then [s.consumer.batch] else []
  }

  /** Batches that have left the producer's loop but not yet the stream. */
  function InTransit(s: State): seq<Batch> {
    InFlight(s) + s.queue
  }

  /** What the producer has still to hand over, and how it will end. */
  function Remaining(env: Env, opts: Opts, s: State): Outcome {
    match s.exit
    case Aborted(e) => Outcome([], Faulted(e))
    case _ =>
      match s.producer
      case Reading => Inject(env, opts, s.peers, s.idx, s.input)
      case Offering(b) =>
        var later := AfterCounted(env, opts, s.peers, s.idx, s.input);
        Outcome([b] + later.batches, later.end)
      case _ => Outcome([], Clean)
  }

  /**
   Nothing lost, duplicated or reordered: what was sent, what is in transit and what is
   still to come make up the sequential outcome, in this order.
   */
  ghost predicate Refines(env: Env, opts: Opts, dump: seq<byte>, s: State) {
    var expected, left := Expected(env, opts, dump), Remaining(env, opts, s);
    s.sent + InTransit(s) + left.batches == expected.batches && left.end == expected.end
  }

  /** The control part of the invariant. */
  predicate Shape(opts: Opts, s: State) {
    && |s.queue| <= opts.queueSize
    && s.closed == s.producer.Stopped?
    && (s.consumer.Opening? ==> s.sent == [])
    && (s.consumer.Finishing? ==> s.closed && s.queue == [])
    && (s.exit.Done? ==> s.consumer.Finishing?)
    && (s.exit.Aborted? ==> s.producer.Reading?)
    && (s.exit.StreamFailed? ==> !s.consumer.Receiving?)
    && !s.exit.Refused?
  }

  ghost predicate Inv(env: Env, opts: Opts, dump: seq<byte>, s: State) {
    Shape(opts, s) && Refines(env, opts, dump, s)
  }

  lemma InitInv(env: Env, opts: Opts, dump: seq<byte>)
    requires opts.queueSize >= 1
    ensures Inv(env, opts, dump, Init(dump))
  {
  }

  lemma ReadKeepsShape(env: Env, opts: Opts, s: State)
    requires Shape(opts, s) && Enabled(opts, s, Read)
    ensures Shape(opts, ReadStep(env, opts, s))
  {
  }

  lemma OtherStepKeepsShape(env: Env, opts: Opts, s: State, step: Step)
    requires Shape(opts, s) && Enabled(opts, s, step) && !step.Read?
    ensures Shape(opts, Apply(env, opts, s, step))
  {
  }

  lemma StepKeepsShape(env: Env, opts: Opts, s: State, step: Step)
    requires Shape(opts, s) && Enabled(opts, s, step)
    ensures Shape(opts, Apply(env, opts, s, step))
  {
    if step.Read? {
      ReadKeepsShape(env, opts, s);
    } else {
      OtherStepKeepsShape(env, opts, s, step);
    }
  }

  /** A counted record below `skip` is passed over, and the process goes on as after it. */
  lemma PassedOver(env: Env, opts: Opts, s: State, b: Batch, rest: seq<byte>)
    requires s.exit.Running? && s.idx < opts.skip
    ensures var later := AfterCounted(env, opts, s.peers, s.idx, rest);
            Remaining(env, opts, Advance(opts, s.(input := rest)))
            == Outcome(Offered(opts, s.idx, b) + later.batches, later.end)
  {
    var later := AfterCounted(env, opts, s.peers, s.idx, rest);
    assert [] + later.batches == later.batches;
  }

  lemma ReadKeepsRemaining(env: Env, opts: Opts, s: State)
    requires Enabled(opts, s, Read)
    ensures Remaining(env, opts, ReadStep(env, opts, s)) == Remaining(env, opts, s)
  {
    var r := ReadRecord(s.input);
    if r.Got? && s.idx < opts.skip {
      var v := Judge(env, opts, s.peers, r.record);
      if v.Counted? {
        PassedOver(env, opts, s, v.batch, r.rest);
      }
    }
  }

  lemma OfferTakesTheNext(env: Env, opts: Opts, s: State)
    requires Enabled(opts, s, Offer)
    ensures var left := Remaining(env, opts, Apply(env, opts, s, Offer));
            Remaining(env, opts, s) == Outcome([s.producer.batch] + left.batches, left.end)
  {
  }

  lemma ConsumerKeepsRemaining(env: Env, opts: Opts, s: State, step: Step)
    requires Enabled(opts, s, step) && !step.Read? && !step.Offer?
    ensures Remaining(env, opts, Apply(env, opts, s, step)) == Remaining(env, opts, s)
  {
  }

  lemma ConsumerKeepsTransit(env: Env, opts: Opts, s: State, step: Step)
    requires Enabled(opts, s, step) && !step.Read? && !step.Offer?
    ensures var t := Apply(env, opts, s, step);
            t.sent + InTransit(t) == s.sent + InTransit(s)
  {
    match step
    case Receive => Received(s.sent, s.queue);
    case Send(_) => Moved(s.sent, s.consumer.batch, s.queue);
    case _ =>
  }

  lemma Received(sent: seq<Batch>, queue: seq<Batch>)
    requires queue != []
    ensures sent + ([queue[0]] + queue[1..]) == sent + ([] + queue)
  {
    assert [queue[0]] + queue[1..] == queue;
  }

  lemma Moved(sent: seq<Batch>, b: Batch, queue: seq<Batch>)
    ensures sent + [b] + ([] + queue) == sent + ([b] + queue)
  {
  }

  lemma Regroup(sent: seq<Batch>, flight: seq<Batch>, queue: seq<Batch>, b: Batch, later: seq<Batch>)
    ensures sent + (flight + (queue + [b])) + later == sent + (flight + queue) + ([b] + later)
  {
    assert flight + (queue + [b]) == flight + queue + [b];
    assert sent + (flight + queue + [b]) == sent + (flight + queue) + [b];
  }

  lemma OfferRefines(env: Env, opts: Opts, dump: seq<byte>, s: State)
    requires Refines(env, opts, dump, s) && Enabled(opts, s, Offer)
    ensures Refines(env, opts, dump, Apply(env, opts, s, Offer))
  {
    var t := Apply(env, opts, s, Offer);
    OfferTakesTheNext(env, opts, s);
    Regroup(s.sent, InFlight(s), s.queue, s.producer.batch, Remaining(env, opts, t).batches);
  }

  lemma ReadRefines(env: Env, opts: Opts, dump: seq<byte>, s: State)
    requires Refines(env, opts, dump, s) && Enabled(opts, s, Read)
    ensures Refines(env, opts, dump, ReadStep(env, opts, s))
  {
    ReadKeepsRemaining(env, opts, s);
    ReadKeepsTransit(env, opts, s);
  }

  lemma ReadKeepsTransit(env: Env, opts: Opts, s: State)
    ensures var t := ReadStep(env, opts, s);
            t.sent == s.sent && InTransit(t) == InTransit(s)
  {
  }

  lemma ConsumerRefines(env: Env, opts: Opts, dump: seq<byte>, s: State, step: Step)
    requires Refines(env, opts, dump, s) && Enabled(opts, s, step) && !step.Read? && !step.Offer?
    ensures Refines(env, opts, dump, Apply(env, opts, s, step))
  {
    ConsumerKeepsTransit(env, opts, s, step);
    ConsumerKeepsRemaining(env, opts, s, step);
  }

  lemma StepRefines(env: Env, opts: Opts, dump: seq<byte>, s: State, step: Step)
    requires Refines(env, opts, dump, s) && Enabled(opts, s, step)
    ensures Refines(env, opts, dump, Apply(env, opts, s, step))
  {
    match step
    case Read => ReadRefines(env, opts, dump, s);
    case Offer => OfferRefines(env, opts, dump, s);
    case _ => ConsumerRefines(env, opts, dump, s, step);
  }

  lemma StepKeepsInv(env: Env, opts: Opts, dump: seq<byte>, s: State, step: Step)
    requires Inv(env, opts, dump, s) && Enabled(opts, s, step)
    ensures Inv(env, opts, dump, Apply(env, opts, s, step))
  {
    StepKeepsShape(env, opts, s, step);
    StepRefines(env, opts, dump, s, step);
  }

  lemma {:induction false} RunKeepsInv(env: Env, opts: Opts, dump: seq<byte>, s: State, schedule: seq<Step>)
    requires Inv(env, opts, dump, s) && Allowed(env, opts, s, schedule)
    ensures Inv(env, opts, dump, Run(env, opts, s, schedule))
    decreases |schedule|
  {
    if schedule != [] {
      StepKeepsInv(env, opts, dump, s, schedule[0]);
      RunKeepsInv(env, opts, dump, Apply(env, opts, s, schedule[0]), schedule[1..]);
    }
  }

  // ---------------------------------------------------------------- progress

  /**
   A bound on the steps left. Reading a record takes at least 12 bytes off the input, which
   more than pays for offering, receiving and sending its batch.
   */
  function Measure(s: State): nat {
    if !s.exit.Running? then 0
    else
      4 * |s.input| + 3 * |s.queue|
      + (match s.producer case Reading => 2 case Offering(_) => 6 case Closing => 1 case Stopped => 0)
      + (match s.consumer case Opening => 4 case Receiving => 3 case Sending(_) => 4 case Finishing => 2)
  }

  lemma ReadDecreases(env: Env, opts: Opts, s: State)
    requires Enabled(opts, s, Read)
    ensures Measure(ReadStep(env, opts, s)) < Measure(s)
  {
  }

  lemma OtherStepDecreases(env: Env, opts: Opts, s: State, step: Step)
    requires Enabled(opts, s, step) && !step.Read?
    ensures Measure(Apply(env, opts, s, step)) < Measure(s)
  {
  }

  lemma StepDecreases(env: Env, opts: Opts, s: State, step: Step)
    requires Enabled(opts, s, step)
    ensures Measure(Apply(env, opts, s, step)) < Measure(s)
  {
    if step.Read? {
      ReadDecreases(env, opts, s);
    } else {
      OtherStepDecreases(env, opts, s, step);
    }
  }

  /** A healthy stream with the consumer always first. */
  function Eager(s: State): Step {
    match s.consumer
    case Opening => Open(true)
    case Sending(_) => Send(true)
    case Finishing => Finish(true)
    case Receiving =>
      if s.queue != [] then Receive
      else match s.producer
        case Reading => Read
        case Offering(_) => Offer
        case Closing => Close
        case Stopped => EndRange
  }

  /** While the process runs, some step is enabled, even if the stream never fails. */
  lemma NeverStuck(opts: Opts, s: State)
    requires opts.queueSize >= 1 && Shape(opts, s) && s.exit.Running?
    ensures exists step :: Enabled(opts, s, step) && !Fails(step)
  {
    assert Enabled(opts, s, Eager(s)) && !Fails(Eager(s));
  }

  /** The daemon refuses. */
  predicate Fails(step: Step) {
    step in {Open(false), Send(false), Finish(false)}
  }

  lemma {:induction false} RunIsBounded(env: Env, opts: Opts, s: State, schedule: seq<Step>)
    requires Allowed(env, opts, s, schedule)
    ensures |schedule| + Measure(Run(env, opts, s, schedule)) <= Measure(s)
    decreases |schedule|
  {
    if schedule != [] {
      StepDecreases(env, opts, s, schedule[0]);
      RunIsBounded(env, opts, Apply(env, opts, s, schedule[0]), schedule[1..]);
    }
  }

  // ----------------------------------------------------------- main theorems

  /**
   Every interleaving, at every moment: the queue is within its bound, and what was sent
   is a prefix of the sequential outcome, lagging behind what the producer has handed over
   by at most the queue and one batch in flight.
   */
  lemma EveryRunIsSafe(env: Env, opts: Opts, dump: seq<byte>, schedule: seq<Step>)
    requires opts.queueSize >= 1 && Allowed(env, opts, Init(dump), schedule)
    ensures var s := Run(env, opts, Init(dump), schedule);
            && |s.queue| <= opts.queueSize
            && s.sent <= Expected(env, opts, dump).batches
            && s.sent + InTransit(s) <= Expected(env, opts, dump).batches
            && |InTransit(s)| <= opts.queueSize + 1
  {
    InitInv(env, opts, dump);
    RunKeepsInv(env, opts, dump, Init(dump), schedule);
  }

  /**
   How a run can end. Success means the dump was well formed and everything in its window
   was sent, once and in order. An abort means the dump holds a fatal record inside the
   window; then at most queueSize + 1 of the batches before it are lost.
   */
  ghost predicate Explained(env: Env, opts: Opts, dump: seq<byte>, exit: Exit, sent: seq<Batch>) {
    var expected := Expected(env, opts, dump);
    && sent <= expected.batches
    && (exit.Done? ==> sent == expected.batches && expected.end == Clean)
    && (exit.Aborted? ==>
         expected.end == Faulted(exit.error) && |expected.batches| <= |sent| + opts.queueSize + 1)
  }

  lemma InvExplains(env: Env, opts: Opts, dump: seq<byte>, s: State)
    requires Inv(env, opts, dump, s)
    ensures Explained(env, opts, dump, s.exit, s.sent)
  {
    var left := Remaining(env, opts, s).batches;
    assert s.sent + InTransit(s) + left == s.sent + (InTransit(s) + left);
  }

  lemma EveryExitIsExplained(env: Env, opts: Opts, dump: seq<byte>, schedule: seq<Step>)
    requires opts.queueSize >= 1 && Allowed(env, opts, Init(dump), schedule)
    ensures var s := Run(env, opts, Init(dump), schedule);
            Explained(env, opts, dump, s.exit, s.sent)
  {
    InitInv(env, opts, dump);
    RunKeepsInv(env, opts, dump, Init(dump), schedule);
    InvExplains(env, opts, dump, Run(env, opts, Init(dump), schedule));
  }

  lemma RunAfterStep(env: Env, opts: Opts, s: State, step: Step, rest: seq<Step>)
    requires Enabled(opts, s, step) && Allowed(env, opts, Apply(env, opts, s, step), rest)
    ensures Allowed(env, opts, s, [step] + rest)
    ensures Run(env, opts, s, [step] + rest) == Run(env, opts, Apply(env, opts, s, step), rest)
  {
    assert ([step] + rest)[1..] == rest;
  }

  /** A state from which a run can still abort with exactly k batches sent. */
  ghost predicate CanLoseAllBut(env: Env, opts: Opts, dump: seq<byte>, s: State, k: nat) {
    && Inv(env, opts, dump, s) && s.exit.Running? && opts.queueSize >= 1
    && Expected(env, opts, dump).end.Faulted?
    && |s.sent| <= k <= |Expected(env, opts, dump).batches| <= k + opts.queueSize + 1
  }

  /**
   The next step on the way there. Below k the consumer goes first. At k the producer does, and
   the consumer takes one batch off the queue, without sending it, only when the queue is full.
   */
  function NextToLose(opts: Opts, s: State, k: nat): Step {
    if |s.sent| < k && s.consumer.Sending? then Send(true)
    else if s.consumer.Opening? && (|s.sent| < k || |s.queue| == opts.queueSize) then Open(true)
    else if s.consumer.Receiving? && s.queue != [] && (|s.sent| < k || |s.queue| == opts.queueSize) then Receive
    else if s.producer.Reading? then Read
    else Offer
  }

  lemma NextIsEnabled(env: Env, opts: Opts, dump: seq<byte>, s: State, k: nat)
    requires CanLoseAllBut(env, opts, dump, s, k)
    ensures Enabled(opts, s, NextToLose(opts, s, k))
  {
    var left := Remaining(env, opts, s);
    assert |s.sent| + |InTransit(s)| + |left.batches| == |Expected(env, opts, dump).batches|;
  }

  lemma NextKeepsCount(env: Env, opts: Opts, s: State, k: nat)
    requires Shape(opts, s) && |s.sent| <= k && Enabled(opts, s, NextToLose(opts, s, k))
    ensures var t := Apply(env, opts, s, NextToLose(opts, s, k));
            && |t.sent| <= k && (t.exit.Running? || t.exit.Aborted?)
            && (t.exit.Aborted? ==> t.sent == s.sent && t.queue == s.queue && t.consumer == s.consumer
                                    && (|s.sent| == k || InTransit(s) == []))
  {
  }

  lemma LoseAllBut(env: Env, opts: Opts, dump: seq<byte>, s: State, k: nat) returns (schedule: seq<Step>)
    requires CanLoseAllBut(env, opts, dump, s, k)
    ensures Allowed(env, opts, s, schedule)
    ensures var t := Run(env, opts, s, schedule); t.exit.Aborted? && |t.sent| == k
    decreases Measure(s)
  {
    var step := NextToLose(opts, s, k);
    NextIsEnabled(env, opts, dump, s, k);
    NextKeepsCount(env, opts, s, k);
    var t := Apply(env, opts, s, step);
    StepKeepsInv(env, opts, dump, s, step);
    StepDecreases(env, opts, s, step);
    var rest := [];
    if t.exit.Running? {
      rest := LoseAllBut(env, opts, dump, t, k);
    } else {
      AbortedHasHandedOverAll(env, opts, dump, t);
    }
    RunAfterStep(env, opts, s, step, rest);
    schedule := [step] + rest;
  }

  lemma AbortedHasHandedOverAll(env: Env, opts: Opts, dump: seq<byte>, s: State)
    requires Inv(env, opts, dump, s) && s.exit.Aborted?
    ensures |s.sent| + |InTransit(s)| == |Expected(env, opts, dump).batches|
  {
  }

  /**
   Exactly how much an abort can lose, for every dump and queue: a run can abort with k batches
   sent if and only if the dump is faulty and all but at most queueSize + 1 of its batches are
   among those k. So a dump with no more than queueSize + 1 batches can be lost altogether.
   */
  lemma LossIff(env: Env, opts: Opts, dump: seq<byte>, k: nat)
    requires opts.queueSize >= 1
    ensures (exists schedule :: Allowed(env, opts, Init(dump), schedule)
                                && Run(env, opts, Init(dump), schedule).exit.Aborted?
                                && |Run(env, opts, Init(dump), schedule).sent| == k)
            <==> Expected(env, opts, dump).end.Faulted?
                 && k <= |Expected(env, opts, dump).batches| <= k + opts.queueSize + 1
  {
    forall schedule | Allowed(env, opts, Init(dump), schedule)
                      && Run(env, opts, Init(dump), schedule).exit.Aborted?
      ensures Explained(env, opts, dump, Run(env, opts, Init(dump), schedule).exit,
                        Run(env, opts, Init(dump), schedule).sent)
    {
      EveryExitIsExplained(env, opts, dump, schedule);
    }
    InitInv(env, opts, dump);
    if CanLoseAllBut(env, opts, dump, Init(dump), k) {
      var schedule := LoseAllBut(env, opts, dump, Init(dump), k);
    }
  }

  // -------------------------------------------- which ends can be reached

  /** It aborts only when nothing is in transit, and succeeds only by finishing. */
  lemma EagerStep(env: Env, opts: Opts, s: State)
    requires opts.queueSize >= 1 && Shape(opts, s) && s.exit.Running?
    ensures Enabled(opts, s, Eager(s))
    ensures var t := Apply(env, opts, s, Eager(s));
            && (t.exit.Running? || (t.exit.Aborted? && InTransit(t) == []) || (t.exit.Done? && s.consumer.Finishing?))
            && |t.sent| == |s.sent| + if s.consumer.Sending? then 1 else 0
  {
  }

  /** What the consumer's position says about the number sent. */
  lemma SentAt(env: Env, opts: Opts, dump: seq<byte>, s: State)
    requires Inv(env, opts, dump, s) && !s.exit.Aborted?
    ensures var expected := Expected(env, opts, dump);
            && (s.consumer.Opening? ==> s.sent == [])
            && (s.consumer.Sending? ==> |s.sent| < |expected.batches|)
            && (s.consumer.Finishing? ==> |s.sent| == |expected.batches| && expected.end == Clean)
  {
    var left := Remaining(env, opts, s);
    assert |s.sent| + |InTransit(s)| + |left.batches| == |Expected(env, opts, dump).batches|;
  }

  /** The stream can fail with k batches sent if there is another one to send. */
  lemma FailAt(env: Env, opts: Opts, dump: seq<byte>, s: State, k: nat) returns (schedule: seq<Step>)
    requires opts.queueSize >= 1 && Inv(env, opts, dump, s) && s.exit.Running?
    requires |s.sent| <= k < |Expected(env, opts, dump).batches|
    ensures Allowed(env, opts, s, schedule)
    ensures var t := Run(env, opts, s, schedule); t.exit.StreamFailed? && |t.sent| == k
    decreases Measure(s)
  {
    var fails := |s.sent| == k && s.consumer.Sending?;
    var step, rest := if fails then Send(false) else Eager(s), [];
    EagerStep(env, opts, s);
    var t := Apply(env, opts, s, step);
    StepKeepsInv(env, opts, dump, s, step);
    StepDecreases(env, opts, s, step);
    if !fails {
      SentAt(env, opts, dump, s);
      if t.exit.Aborted? {
        AbortedHasHandedOverAll(env, opts, dump, t);
      }
      rest := FailAt(env, opts, dump, t, k);
    }
    RunAfterStep(env, opts, s, step, rest);
    schedule := [step] + rest;
  }

  /** If the dump is sound, the consumer can get to the end, where the daemon decides. */
  lemma FinishWith(env: Env, opts: Opts, dump: seq<byte>, s: State, ok: bool) returns (schedule: seq<Step>)
    requires opts.queueSize >= 1 && Inv(env, opts, dump, s) && s.exit.Running?
    requires Expected(env, opts, dump).end.Clean?
    ensures Allowed(env, opts, s, schedule)
    ensures var t := Run(env, opts, s, schedule);
            t.exit == (if ok then Done else StreamFailed) && |t.sent| == |Expected(env, opts, dump).batches|
    decreases Measure(s)
  {
    var finishes := s.consumer.Finishing?;
    var step, rest := if finishes then Finish(ok) else Eager(s), [];
    EagerStep(env, opts, s);
    SentAt(env, opts, dump, s);
    var t := Apply(env, opts, s, step);
    StepKeepsInv(env, opts, dump, s, step);
    StepDecreases(env, opts, s, step);
    if !finishes {
      InvExplains(env, opts, dump, t);
      rest := FinishWith(env, opts, dump, t, ok);
    }
    RunAfterStep(env, opts, s, step, rest);
    schedule := [step] + rest;
  }

  /** Success is possible exactly with a sound dump. */
  lemma SuccessIff(env: Env, opts: Opts, dump: seq<byte>)
    requires opts.queueSize >= 1
    ensures (exists schedule :: Allowed(env, opts, Init(dump), schedule)
                                && Run(env, opts, Init(dump), schedule).exit.Done?)
            <==> Expected(env, opts, dump).end.Clean?
  {
    forall schedule | Allowed(env, opts, Init(dump), schedule)
                      && Run(env, opts, Init(dump), schedule).exit.Done?
      ensures Expected(env, opts, dump).end.Clean?
    {
      EveryExitIsExplained(env, opts, dump, schedule);
    }
    InitInv(env, opts, dump);
    if Expected(env, opts, dump).end.Clean? {
      var schedule := FinishWith(env, opts, dump, Init(dump), true);
    }
  }

  /**
   How much can have been sent when the stream fails: nothing, since it may not even open; any
   number short of all batches; or all of them, if the dump is sound, so that the failure is at the end.
   */
  lemma StreamFailureIff(env: Env, opts: Opts, dump: seq<byte>, k: nat)
    requires opts.queueSize >= 1
    ensures (exists schedule :: Allowed(env, opts, Init(dump), schedule)
                                && Run(env, opts, Init(dump), schedule).exit.StreamFailed?
                                && |Run(env, opts, Init(dump), schedule).sent| == k)
            <==> k == 0 || k < |Expected(env, opts, dump).batches|
                 || (k == |Expected(env, opts, dump).batches| && Expected(env, opts, dump).end.Clean?)
  {
    var expected := Expected(env, opts, dump);
    InitInv(env, opts, dump);
    forall schedule | Allowed(env, opts, Init(dump), schedule)
                      && Run(env, opts, Init(dump), schedule).exit.StreamFailed?
      ensures var n := |Run(env, opts, Init(dump), schedule).sent|;
              n == 0 || n < |expected.batches| || (n == |expected.batches| && expected.end.Clean?)
    {
      RunKeepsInv(env, opts, dump, Init(dump), schedule);
      SentAt(env, opts, dump, Run(env, opts, Init(dump), schedule));
    }
    if k == 0 {
      RunAfterStep(env, opts, Init(dump), Open(false), []);
    } else if k < |expected.batches| {
      var schedule := FailAt(env, opts, dump, Init(dump), k);
    } else if k == |expected.batches| && expected.end.Clean? {
      var schedule := FinishWith(env, opts, dump, Init(dump), false);
    }
  }

  predicate StreamIsHealthy(schedule: seq<Step>) {
    forall i | 0 <= i < |schedule| :: !Fails(schedule[i])
  }

  lemma {:induction false} HealthyRunsDoNotFail(env: Env, opts: Opts, s: State, schedule: seq<Step>)
    requires Allowed(env, opts, s, schedule) && StreamIsHealthy(schedule) && !s.exit.StreamFailed?
    ensures !Run(env, opts, s, schedule).exit.StreamFailed?
    decreases |schedule|
  {
    if schedule != [] {
      assert forall i | 0 <= i < |schedule[1..]| :: schedule[1..][i] == schedule[i + 1];
      HealthyRunsDoNotFail(env, opts, Apply(env, opts, s, schedule[0]), schedule[1..]);
    }
  }

  /**
   The outcome does not depend on the interleaving: every schedule is finite, and one that
   cannot be extended, over a stream that never fails, succeeds exactly when the dump does.
   */
  lemma OutcomeIsDetermined(env: Env, opts: Opts, dump: seq<byte>, schedule: seq<Step>)
    requires opts.queueSize >= 1 && Allowed(env, opts, Init(dump), schedule)
    ensures |schedule| <= Measure(Init(dump))
    ensures var s := Run(env, opts, Init(dump), schedule);
            StreamIsHealthy(schedule) && (forall step :: !Enabled(opts, s, step)) ==>
              if Expected(env, opts, dump).end.Clean?
              then s.exit == Done && s.sent == Expected(env, opts, dump).batches
              else s.exit == Aborted(Expected(env, opts, dump).end.error)
  {
    RunIsBounded(env, opts, Init(dump), schedule);
    EveryExitIsExplained(env, opts, dump, schedule);
    InitInv(env, opts, dump);
    RunKeepsInv(env, opts, dump, Init(dump), schedule);
    var s := Run(env, opts, Init(dump), schedule);
    if StreamIsHealthy(schedule) && forall step :: !Enabled(opts, s, step) {
      HealthyRunsDoNotFail(env, opts, Init(dump), schedule);
      if s.exit.Running? {
        NeverStuck(opts, s);
      }
    }
  }

  /**
   End to end: a run that succeeds has sent exactly the batches of the records inside the
   skip/count window, in record order. Whatever follows the record at which the count stops the
   process does not matter. Below 2^63 records the window is one slice of the counted batches.
   */
  lemma SuccessSendsTheWindow(env: Env, opts: Opts, dump: seq<byte>, schedule: seq<Step>)
    requires opts.queueSize >= 1
    requires Allowed(env, opts, Init(dump), schedule) && Run(env, opts, Init(dump), schedule).exit.Done?
    ensures var vs := Verdicts(env, opts, Frame(dump).records);
            var f, sent := FirstFatal(vs, 0), Run(env, opts, Init(dump), schedule).sent;
            var hi := WindowEnd(opts, |Batches(vs, f)|);
            && sent == Selected(Cut(opts, vs, f), opts.skip)
            && (|Frame(dump).records| < TWO_TO_THE_63 ==> sent == Batches(vs, f)[Clamp(opts.skip, hi)..hi])
  {
    EveryExitIsExplained(env, opts, dump, schedule);
    WindowOf(env, opts, dump);
    if |Frame(dump).records| < TWO_TO_THE_63 {
      WindowIsSlice(env, opts, dump);
    }
  }

  /**
   Everything ever sent, in any interleaving, however the run ends. Batch n is that of record
   at[n], and these positions increase. Its paths are those of the entries es[n], in entry order,
   attributed to their peers in the PEER_INDEX_TABLE at tables[n], the latest before that record.
   */
  lemma SentPathsAreAttributed(env: Env, opts: Opts, dump: seq<byte>, schedule: seq<Step>)
      returns (at: seq<nat>, tables: seq<nat>, es: seq<seq<nat>>)
    requires opts.queueSize >= 1 && Allowed(env, opts, Init(dump), schedule)
    ensures Increasing(at)
    ensures AllAttributed(
      env, opts, Frame(dump).records, Run(env, opts, Init(dump), schedule).sent, at, tables, es)
  {
    var sent := Run(env, opts, Init(dump), schedule).sent;
    EveryRunIsSafe(env, opts, dump, schedule);
    at := HandedOverFrom(env, opts, dump);
    at := at[..|sent|];
    tables, es := CountedAreAttributed(env, opts, Frame(dump).records, at, sent);
  }

  // ------------------------------------------------------- the two loops run

  /** The daemon's answers: to opening, to a batch after those sent, and to closing. */
  datatype Daemon = Daemon(opens: bool, accepts: (seq<Batch>, Batch) -> bool, finishes: seq<Batch> -> bool)

  /** The daemon refuses what comes after the batches sent. */
  predicate Refuses(daemon: Daemon, expected: Outcome, sent: seq<Batch>) {
    || (sent == [] && !daemon.opens)
    || (|sent| < |expected.batches| && !daemon.accepts(sent, expected.batches[|sent|]))
    || (sent == expected.batches && expected.end == Clean && !daemon.finishes(sent))
  }

  /** The scheduler picks any process that can go on; the daemon decides what comes of it. */
  method Choose(opts: Opts, daemon: Daemon, s: State) returns (step: Step)
    requires opts.queueSize >= 1 && Shape(opts, s) && s.exit.Running?
    ensures Enabled(opts, s, step) && Obeys(daemon, s, step)
  {
    if {
      case Enabled(opts, s, Read) => step := Read;
      case Enabled(opts, s, Offer) => step := Offer;
      case Enabled(opts, s, Close) => step := Close;
      case Enabled(opts, s, Receive) => step := Receive;
      case Enabled(opts, s, EndRange) => step := EndRange;
      case s.consumer.Opening? => step := Open(daemon.opens);
      case s.consumer.Sending? => step := Send(daemon.accepts(s.sent, s.consumer.batch));
      case s.consumer.Finishing? => step := Finish(daemon.finishes(s.sent));
    }
  }

  predicate Obeys(daemon: Daemon, s: State, step: Step) {
    match step
    case Open(ok) => ok == daemon.opens
    case Send(ok) => s.consumer.Sending? && ok == daemon.accepts(s.sent, s.consumer.batch)
    case Finish(ok) => ok == daemon.finishes(s.sent)
    case _ => true
  }

  /** The batch in flight is the next one of the sequential outcome. */
  lemma NextInFlight(env: Env, opts: Opts, dump: seq<byte>, s: State)
    requires Inv(env, opts, dump, s) && s.consumer.Sending?
    ensures |s.sent| < |Expected(env, opts, dump).batches|
    ensures Expected(env, opts, dump).batches[|s.sent|] == s.consumer.batch
  {
    var left := Remaining(env, opts, s).batches;
    assert (s.sent + ([s.consumer.batch] + s.queue) + left)[|s.sent|] == s.consumer.batch;
  }

  lemma FailureIsRefusal(env: Env, opts: Opts, dump: seq<byte>, daemon: Daemon, s: State, step: Step)
    requires Inv(env, opts, dump, s) && Enabled(opts, s, step) && Obeys(daemon, s, step)
    ensures var t := Apply(env, opts, s, step);
            t.exit.StreamFailed? ==> Refuses(daemon, Expected(env, opts, dump), t.sent)
  {
    SentAt(env, opts, dump, s);
    if s.consumer.Sending? {
      NextInFlight(env, opts, dump, s);
    }
    var left := Remaining(env, opts, s).batches;
    assert s.consumer.Finishing? ==> s.sent + InTransit(s) + left == s.sent;
  }

  /**
   injectMrt: both loops, under any scheduler and any daemon, come to an end. The stream fails
   only where the daemon refuses; so with one that accepts everything, the dump alone decides.
   */
  method InjectMrt(env: Env, opts: Opts, dump: seq<byte>, daemon: Daemon) returns (exit: Exit, sent: seq<Batch>)
    ensures opts.queueSize < 1 ==> exit == Refused && sent == []
    ensures opts.queueSize >= 1 ==>
              && (exit.Done? || exit.Aborted? || exit.StreamFailed?) && Explained(env, opts, dump, exit, sent)
              && (exit.StreamFailed? ==> Refuses(daemon, Expected(env, opts, dump), sent))
    ensures opts.queueSize >= 1 && daemon.opens && (forall bs, b :: daemon.accepts(bs, b))
            && (forall bs :: daemon.finishes(bs)) ==>
              if Expected(env, opts, dump).end.Clean? then exit == Done && sent == Expected(env, opts, dump).batches
              else exit == Aborted(Expected(env, opts, dump).end.error)
  {
    if opts.queueSize < 1 {
      return Refused, [];
    }
    var s := Init(dump);
    InitInv(env, opts, dump);
    while s.exit.Running?
      invariant Inv(env, opts, dump, s)
      invariant s.exit.StreamFailed? ==> Refuses(daemon, Expected(env, opts, dump), s.sent)
      decreases Measure(s)
    {
      var step := Choose(opts, daemon, s);
      StepKeepsInv(env, opts, dump, s, step);
      StepDecreases(env, opts, s, step);
      FailureIsRefusal(env, opts, dump, daemon, s, step);
      s := Apply(env, opts, s, step);
    }
    InvExplains(env, opts, dump, s);
    return s.exit, s.sent;
  }
}
