/** The producer/consumer sample: a Lua thread that publishes a sample and waits for an
    acknowledgement, and a C thread that counts samples and acknowledges each. The two threads
    meet only in two FIFOs, one behind each channel, and every interleaving, every lost
    message, every reported error and every timeout is a run of the system. */
module Handshake {
  import opened Bytes
  import opened Wrappers

  datatype ProducerPc = Testing | Publishing | Waiting | Finished | Broken
  datatype ConsumerPc = Receiving | Acking

  /** data holds the rounds whose samples wait for the consumer, acks the counts that wait for
      the producer. The fields from published on only record history. */
  datatype State = State(
    pc: ProducerPc, i: int, cpc: ConsumerPc, count: int,
    data: seq<int>, acks: seq<int>,
    published: nat, consumed: seq<int>, sent: nat, received: seq<int>,
    lostData: nat, lostAcks: nat)

  datatype Action =
    | Test                                    // evaluate `while i < 10`
    | PublishData(err: int, delivered: bool)  // chan_acc_data:pub; its error is only printed
    | ReceiveAck                              // wait_msg returns 0
    | WaitFails                               // wait_msg returns an error: break
    | Consume                                 // zbus_sub_wait_msg, then ++count
    | PublishAck(err: int, delivered: bool)   // zbus_chan_pub; its result is ignored

  const INIT := State(Testing, 1, Receiving, 0, [], [], 0, [], 0, [], 0, 0)

  /** ++ on an int32_t. */
  function Increment(c: int): int
  {
    WrapS(c + 1, 4)
  }

  /** The state after an action, if the action can be taken. A publish puts its message into
      the FIFO at most once, whatever error it reports. */
  function Step(s: State, a: Action): (r: Option<State>)
  {
    match a
    case Test =>
      if s.pc != Testing then None
      else Some(s.(pc := if s.i < 10 then Publishing else Finished))
    case PublishData(_, delivered) =>
      if s.pc != Publishing then None
      else
        var round := s.published + 1;
        Some(s.(pc := Waiting, published := round,
                data := if delivered then s.data + [round] else s.data,
                lostData := if delivered then s.lostData else s.lostData + 1))
    case ReceiveAck =>
      if s.pc != Waiting || s.acks == [] then None
      else Some(s.(pc := Testing, i := s.acks[0], acks := s.acks[1..], received := s.received + [s.acks[0]]))
    case WaitFails =>
      if s.pc != Waiting then None else Some(s.(pc := Broken))
    case Consume =>
      if s.cpc != Receiving || s.data == [] then None
      else Some(s.(cpc := Acking, count := Increment(s.count), data := s.data[1..], consumed := s.consumed + [s.data[0]]))
    case PublishAck(_, delivered) =>
      if s.cpc != Acking then None
      else Some(s.(cpc := Receiving, sent := s.sent + 1,
                   acks := if delivered then s.acks + [s.count] else s.acks,
                   lostAcks := if delivered then s.lostAcks else s.lostAcks + 1))
  }

  /** The state a run ends in; None when some action of it cannot be taken. */
  function Run(run: seq<Action>): (r: Option<State>)
  {
    if run == [] then Some(INIT)
    else
      match Run(run[..|run| - 1])
      case None => None
      case Some(s) => Step(s, run[|run| - 1])
  }

  // ---------------------------------------------------------------- the invariant

  predicate Increasing(s: seq<int>, lo: int, hi: int)
  {
    && (forall k | 0 <= k < |s| :: lo <= s[k] <= hi)
    && (forall k, l | 0 <= k < l < |s| :: s[k] < s[l])
  }

  /** [1, 2, ..., n] */
  predicate UpTo(s: seq<int>)
  {
    forall k | 0 <= k < |s| :: s[k] == k + 1
  }

  predicate ProducerInv(s: State)
  {
    && UpTo(s.received)
    && s.i == (if s.received == [] then 1 else |s.received|)
    && s.published == |s.received| + (if s.pc in {Waiting, Broken} then 1 else 0)
    && |s.received| <= 10
    && (s.pc in {Publishing, Waiting, Broken} ==> |s.received| <= 9)
    && (s.pc == Finished ==> |s.received| == 10)
  }

  predicate ConsumerInv(s: State)
  {
    && s.count == |s.consumed|
    && s.count == s.sent + (if s.cpc == Acking then 1 else 0)
    && Increasing(s.consumed + s.data, 1, s.published)
    && |s.consumed| + |s.data| + s.lostData == s.published
    && Increasing(s.received + s.acks, 1, s.sent)
    && |s.received| + |s.acks| + s.lostAcks == s.sent
    && |s.received| <= |s.consumed| && UpTo(s.consumed[..|s.received|])
  }

  predicate Inv(s: State)
  {
    ProducerInv(s) && ConsumerInv(s)
  }

  lemma {:induction false} IncreasingLength(s: seq<int>, hi: int)
    requires Increasing(s, 1, hi) && hi >= 0
    ensures |s| <= hi
    ensures forall k | 0 <= k < |s| :: k + 1 <= s[k] <= hi - (|s| - 1 - k)
  {
    if s != [] {
      var n := |s| - 1;
      var init := s[..n];
      assert s[n] >= 1;
      assert forall k | 0 <= k < n :: init[k] == s[k] < s[n];
      IncreasingLength(init, s[n] - 1);
    }
  }

  lemma {:induction false} IncrementExact(c: int)
    requires 0 <= c < 1000
    ensures Increment(c) == c + 1
  {
    assert Pow256(4) == 256 * Pow256(3) && Pow256(3) == 256 * Pow256(2) && Pow256(2) == 256 * Pow256(1);
    WrapSFix(c + 1, 4);
  }

  lemma {:induction false} AppendIncreasing(s: seq<int>, hi: int, x: int)
    requires Increasing(s, 1, hi) && 0 <= hi < x
    ensures Increasing(s + [x], 1, x)
  {
  }

  /** The squeeze: the acknowledgement at the head of the queue carries the number of
      acknowledgements received including itself. */
  lemma {:induction false} HeadAck(s: State)
    requires Inv(s) && s.pc == Waiting && s.acks != []
    ensures s.acks[0] == |s.received| + 1
  {
    var all := s.received + s.acks;
    IncreasingLength(all, s.sent);
    assert all[|s.received|] == s.acks[0];
    IncreasingLength(s.consumed + s.data, s.published);
  }

  /** When an acknowledgement is waiting for the producer, every sample has been consumed. */
  lemma {:induction false} AllConsumed(s: State)
    requires Inv(s) && s.pc == Waiting && s.acks != []
    ensures |s.consumed| == s.published && UpTo(s.consumed)
  {
    var all := s.consumed + s.data;
    IncreasingLength(all, s.published);
    assert |all| <= s.published && |s.received| + 1 <= s.sent <= |s.consumed|;
    assert all == s.consumed;
  }

  lemma {:induction false} PublishDataInv(s: State, err: int, delivered: bool)
    requires Inv(s) && s.pc == Publishing
    ensures Inv(Step(s, PublishData(err, delivered)).value)
  {
    var s' := Step(s, PublishData(err, delivered)).value;
    AppendIncreasing(s.consumed + s.data, s.published, s'.published);
    assert s.consumed + (s.data + [s'.published]) == (s.consumed + s.data) + [s'.published];
  }

  lemma {:induction false} ReceiveAckInv(s: State)
    requires Inv(s) && s.pc == Waiting && s.acks != []
    ensures Inv(Step(s, ReceiveAck).value)
  {
    var s' := Step(s, ReceiveAck).value;
    HeadAck(s);
    AllConsumed(s);
    assert s'.received + s'.acks == s.received + s.acks;
  }

  lemma {:induction false} ConsumeInv(s: State)
    requires Inv(s) && s.cpc == Receiving && s.data != []
    ensures Inv(Step(s, Consume).value)
  {
    hide Increment;
    var s' := Step(s, Consume).value;
    assert s'.consumed + s'.data == s.consumed + s.data;
    assert s'.consumed[..|s.received|] == s.consumed[..|s.received|];
    IncreasingLength(s.consumed + s.data, s.published);
    IncrementExact(s.count);
  }

  lemma {:induction false} PublishAckInv(s: State, err: int, delivered: bool)
    requires Inv(s) && s.cpc == Acking
    ensures Inv(Step(s, PublishAck(err, delivered)).value)
  {
    AppendIncreasing(s.received + s.acks, s.sent, s.count);
    assert s.received + (s.acks + [s.count]) == (s.received + s.acks) + [s.count];
  }

  lemma {:induction false} StepInv(s: State, a: Action)
    requires Inv(s) && Step(s, a).Some?
    ensures Inv(Step(s, a).value)
  {
    match a
    case Test =>
    case PublishData(err, delivered) =>
      hide Inv;
      PublishDataInv(s, err, delivered);
    case ReceiveAck =>
      hide Inv;
      ReceiveAckInv(s);
    case WaitFails =>
    case Consume =>
      hide Inv;
      ConsumeInv(s);
    case PublishAck(err, delivered) =>
      hide Inv;
      PublishAckInv(s, err, delivered);
  }

  lemma {:induction false} RunInv(run: seq<Action>)
    requires Run(run).Some?
    ensures Inv(Run(run).value)
  {
    if run != [] {
      RunInv(run[..|run| - 1]);
      StepInv(Run(run[..|run| - 1]).value, run[|run| - 1]);
    }
  }

  // ---------------------------------------------------------------- what every run satisfies

  /** In every run the k-th acknowledgement received carries count k and answers the sample of
      round k, the producer publishes at most ten times and the consumer's 32-bit counter
      never comes near its end. */
  lemma {:induction false} EveryRun(run: seq<Action>)
    requires Run(run).Some?
    ensures var s := Run(run).value;
            && UpTo(s.received)
            && |s.received| <= |s.consumed| && UpTo(s.consumed[..|s.received|])
            && |s.received| <= s.sent <= s.count <= s.published <= 10
            && s.count == |s.consumed|
  {
    RunInv(run);
    var s := Run(run).value;
    IncreasingLength(s.consumed + s.data, s.published);
  }

  predicate Lossy(a: Action)
  {
    || a == WaitFails
    || (a.PublishData? && !a.delivered)
    || (a.PublishAck? && !a.delivered)
  }

  predicate SomeLoss(run: seq<Action>)
  {
    exists k | 0 <= k < |run| :: Lossy(run[k])
  }

  lemma {:induction false} SomeLossLast(run: seq<Action>)
    requires run != []
    ensures SomeLoss(run) <==> SomeLoss(run[..|run| - 1]) || Lossy(run[|run| - 1])
  {
    var n := |run| - 1;
    var init := run[..n];
    hide Lossy;
    if k :| 0 <= k < n && Lossy(run[k]) {
      assert Lossy(init[k]);
    }
    if k :| 0 <= k < n && Lossy(init[k]) {
      assert Lossy(run[k]);
    }
  }

  /** The state remembers that something was lost or that a wait failed. */
  predicate Lost(s: State)
  {
    s.lostData + s.lostAcks > 0 || s.pc == Broken
  }

  lemma {:induction false} LossStep(s: State, a: Action)
    requires Step(s, a).Some?
    ensures Lost(Step(s, a).value) <==> Lost(s) || Lossy(a)
  {
    hide Increment;
  }

  lemma {:induction false} LossStays(run: seq<Action>)
    requires Run(run).Some?
    ensures SomeLoss(run) <==> Lost(Run(run).value)
  {
    if run != [] {
      var init, a := run[..|run| - 1], run[|run| - 1];
      assert Run(run) == Step(Run(init).value, a);
      hide Run, Step, SomeLoss, Lossy, Lost;
      LossStays(init);
      LossStep(Run(init).value, a);
      SomeLossLast(run);
    }
  }

  /** The loop ends normally only after exactly ten rounds, all of them consumed and
      acknowledged in order, with nothing left in either FIFO and nothing lost on the way. */
  lemma {:induction false} NormalEnd(run: seq<Action>)
    requires Run(run).Some? && Run(run).value.pc == Finished
    ensures var s := Run(run).value;
            && s.published == |s.received| == |s.consumed| == s.count == 10
            && UpTo(s.received) && UpTo(s.consumed)
            && s.data == [] && s.acks == []
    ensures forall k | 0 <= k < |run| :: !Lossy(run[k])
  {
    RunInv(run);
    LossStays(run);
    var s := Run(run).value;
    IncreasingLength(s.consumed + s.data, s.published);
    assert s.consumed + s.data == s.consumed;
  }

  // ---------------------------------------------------------------- runs without loss

  /** How far a run without loss has come: five actions a round. */
  function Progress(s: State): int
  {
    |s.received| * 5 + (match s.pc
                        case Testing => 0
                        case Publishing => 1
                        case Waiting => 2 + (if s.cpc == Acking then 1 else if s.acks != [] then 2 else 0)
                        case Finished => 1
                        case Broken => 0)
  }

  lemma {:induction false} ProgressStep(s: State, a: Action)
    requires Inv(s) && s.lostData + s.lostAcks == 0 && s.pc != Broken
    requires Step(s, a).Some? && !Lossy(a)
    ensures Progress(Step(s, a).value) == Progress(s) + 1
  {
  }

  lemma {:induction false} LosslessProgress(run: seq<Action>)
    requires Run(run).Some? && forall k | 0 <= k < |run| :: !Lossy(run[k])
    ensures Progress(Run(run).value) == |run|
  {
    if run != [] {
      var init, a := run[..|run| - 1], run[|run| - 1];
      assert Run(run) == Step(Run(init).value, a);
      assert forall k | 0 <= k < |init| :: init[k] == run[k];
      hide Step, Run, Inv, Lossy, Progress;
      LosslessProgress(init);
      LossStays(init);
      RunInv(init);
      ProgressStep(Run(init).value, a);
    }
  }

  /** Without loss and timeouts the system cannot get stuck before the end and cannot run on:
      a run that is not finished has a next action, and a finished one took 51. */
  lemma {:induction false} LosslessFinish(run: seq<Action>)
    requires Run(run).Some? && forall k | 0 <= k < |run| :: !Lossy(run[k])
    ensures Run(run).value.pc == Finished <==> |run| == 51
    ensures |run| <= 51
    ensures |run| < 51 ==> exists a :: !Lossy(a) && Run(run + [a]).Some?
  {
    LosslessProgress(run);
    LossStays(run);
    RunInv(run);
    var s := Run(run).value;
    if s.pc != Finished {
      var a := match s.pc
               case Testing => Test
               case Publishing => PublishData(0, true)
               case Waiting =>
                 if s.acks != [] then ReceiveAck else if s.cpc == Acking then PublishAck(0, true) else Consume
               case _ => WaitFails;
      assert (run + [a])[..|run|] == run;
      assert !Lossy(a) && Step(s, a).Some?;
      assert Run(run + [a]).Some?;
    }
  }

  /** From a run without loss the loop can always be brought to its normal end, without loss. */
  lemma {:induction false} LosslessExtends(run: seq<Action>) returns (more: seq<Action>)
    requires Run(run).Some? && forall k | 0 <= k < |run| :: !Lossy(run[k])
    ensures Run(run + more).Some? && Run(run + more).value.pc == Finished && |run + more| == 51
    ensures forall k | 0 <= k < |more| :: !Lossy(more[k])
    decreases 51 - |run|
  {
    LosslessFinish(run);
    hide Run, Lossy, Step, Inv;
    if |run| == 51 {
      more := [];
      assert run + more == run;
    } else {
      var a :| !Lossy(a) && Run(run + [a]).Some?;
      var rest := LosslessExtends(run + [a]);
      more := [a] + rest;
      Assoc(run, a, rest);
    }
  }

  lemma {:induction false} Assoc(run: seq<Action>, a: Action, rest: seq<Action>)
    ensures run + ([a] + rest) == run + [a] + rest
  {
  }

  // ---------------------------------------------------------------- how a run can end

  lemma {:induction false} RunSnoc(run: seq<Action>, a: Action)
    requires Run(run).Some?
    ensures Run(run + [a]) == Step(Run(run).value, a)
  {
    assert (run + [a])[..|run|] == run;
  }

  /** The state after further actions. */
  function RunFrom(s: State, more: seq<Action>): Option<State>
    decreases |more|
  {
    if more == [] then Some(s)
    else
      match Step(s, more[0])
      case None => None
      case Some(s') => RunFrom(s', more[1..])
  }

  lemma {:induction false} RunMore(run: seq<Action>, more: seq<Action>)
    requires Run(run).Some?
    ensures Run(run + more) == RunFrom(Run(run).value, more)
    decreases |more|
  {
    if more == [] {
      assert run + more == run;
    } else {
      RunSnoc(run, more[0]);
      assert run + more == run + [more[0]] + more[1..];
      if Step(Run(run).value, more[0]).Some? {
        RunMore(run + [more[0]], more[1..]);
      } else {
        RunStuck(run + [more[0]], more[1..]);
      }
    }
  }

  lemma {:induction false} RunStuck(run: seq<Action>, more: seq<Action>)
    requires Run(run) == None
    ensures Run(run + more) == None
  {
    if more == [] {
      assert run + more == run;
    } else {
      RunStuck(run, more[..|more| - 1]);
      assert (run + more)[..|run + more| - 1] == run + more[..|more| - 1];
    }
  }

  lemma {:induction false} RunFromStep(s: State, a: Action, more: seq<Action>)
    requires more != [] && more[0] == a && Step(s, a).Some?
    ensures RunFrom(s, more) == RunFrom(Step(s, a).value, more[1..])
    ensures |more| == 1 ==> RunFrom(s, more) == Step(s, a)
  {
  }

  /** [1, 2, ..., n] */
  function FirstN(n: nat): (s: seq<int>)
    ensures |s| == n && UpTo(s)
  {
    seq(n, k => k + 1)
  }

  /** Nothing is under way and nothing was lost after n rounds. */
  function AfterRounds(n: nat): State
  {
    State(Testing, if n == 0 then 1 else n, Receiving, n, [], [], n, FirstN(n), n, FirstN(n), 0, 0)
  }

  /** Then the next sample waits for the consumer, ... */
  function Sampled(n: nat): State
  {
    AfterRounds(n).(pc := Waiting, published := n + 1, data := [n + 1])
  }

  /** ... is counted, ... */
  function Counted(n: nat): State
  {
    Sampled(n).(cpc := Acking, count := n + 1, data := [], consumed := FirstN(n + 1))
  }

  /** ... and its acknowledgement waits for the producer. */
  function Acked(n: nat): State
  {
    Counted(n).(cpc := Receiving, sent := n + 1, acks := [n + 1])
  }

  /** One round in which nothing is lost. */
  const ROUND: seq<Action> := [Test, PublishData(0, true), Consume, PublishAck(0, true), ReceiveAck]

  function Rounds(n: nat): seq<Action>
  {
    if n == 0 then [] else Rounds(n - 1) + ROUND
  }

  lemma {:induction false} FirstNext(n: nat)
    ensures FirstN(n + 1) == FirstN(n) + [n + 1]
  {
  }

  lemma {:induction false} OneElement(x: int)
    ensures [] + [x] == [x] && [x][1..] == []
  {
  }

  lemma {:induction false} RoundSteps(n: nat, err: int)
    requires n <= 9
    ensures Step(AfterRounds(n), Test) == Some(AfterRounds(n).(pc := Publishing))
    ensures Step(AfterRounds(n).(pc := Publishing), PublishData(err, true)) == Some(Sampled(n))
    ensures Step(Sampled(n), Consume) == Some(Counted(n))
    ensures Step(Counted(n), PublishAck(err, true)) == Some(Acked(n))
    ensures Step(Acked(n), ReceiveAck) == Some(AfterRounds(n + 1))
  {
    hide FirstN, Increment, UpTo;
    IncrementExact(n);
    FirstNext(n);
    OneElement(n + 1);
  }

  lemma {:induction false} RoundRun(n: nat)
    requires n <= 9
    ensures RunFrom(AfterRounds(n), ROUND) == Some(AfterRounds(n + 1))
  {
    hide RunFrom, Step, AfterRounds, Sampled, Counted, Acked;
    RoundSteps(n, 0);
    RunFromStep(AfterRounds(n), Test, ROUND);
    RunFromStep(AfterRounds(n).(pc := Publishing), PublishData(0, true), ROUND[1..]);
    RunFromStep(Sampled(n), Consume, ROUND[2..]);
    RunFromStep(Counted(n), PublishAck(0, true), ROUND[3..]);
    RunFromStep(Acked(n), ReceiveAck, ROUND[4..]);
  }

  lemma {:induction false} NoRounds()
    ensures Run(Rounds(0)) == Some(AfterRounds(0))
  {
    assert FirstN(0) == [];
  }

  lemma {:induction false} RoundsNext(n: nat)
    requires n > 0
    ensures Rounds(n) == Rounds(n - 1) + ROUND
  {
  }

  lemma {:induction false} RoundsRun(n: nat)
    requires n <= 10
    ensures Run(Rounds(n)) == Some(AfterRounds(n))
  {
    hide Run, RunFrom, Rounds, AfterRounds, FirstN;
    if n == 0 {
      NoRounds();
    } else {
      RoundsRun(n - 1);
      RoundsNext(n);
      RoundRun(n - 1);
      RunMore(Rounds(n - 1), ROUND);
    }
  }

  /** Ten rounds end the loop. */
  lemma {:induction false} FullRun()
    ensures Run(Rounds(10) + [Test]).Some? && Run(Rounds(10) + [Test]).value.pc == Finished
  {
    RoundsRun(10);
    hide Run, Rounds, FirstN;
    RunMore(Rounds(10), [Test]);
    RunFromStep(AfterRounds(10), Test, [Test]);
  }

  /** After any number of rounds below ten a sample can be lost, and the wait for its
      acknowledgement then fails, whatever code the publish returned. */
  lemma {:induction false} LostSample(n: nat, err: int)
    requires n <= 9
    ensures var r := Run(Rounds(n) + [Test, PublishData(err, false), WaitFails]);
            && r.Some? && r.value.pc == Broken && |r.value.received| == n
            && r.value.lostData == 1 && r.value.lostAcks == 0 && r.value.data == r.value.acks == []
  {
    var more := [Test, PublishData(err, false), WaitFails];
    RoundsRun(n);
    RunMore(Rounds(n), more);
    hide Run, RunFrom, Rounds, FirstN, UpTo;
    var s := AfterRounds(n).(pc := Publishing);
    RunFromStep(AfterRounds(n), Test, more);
    RunFromStep(s, PublishData(err, false), more[1..]);
    RunFromStep(Step(s, PublishData(err, false)).value, WaitFails, more[2..]);
  }

  /** The sample can arrive and its acknowledgement be lost. */
  lemma {:induction false} LostAck(n: nat, err: int, ackErr: int)
    requires n <= 9
    ensures var r := Run(Rounds(n) + [Test, PublishData(err, true), Consume, PublishAck(ackErr, false), WaitFails]);
            && r.Some? && r.value.pc == Broken && |r.value.received| == n
            && r.value.lostData == 0 && r.value.lostAcks == 1 && |r.value.consumed| == n + 1
  {
    var more := [Test, PublishData(err, true), Consume, PublishAck(ackErr, false), WaitFails];
    RoundsRun(n);
    RunMore(Rounds(n), more);
    RoundSteps(n, err);
    hide Run, RunFrom, Rounds, FirstN, UpTo, Increment;
    RunFromStep(AfterRounds(n), Test, more);
    RunFromStep(AfterRounds(n).(pc := Publishing), PublishData(err, true), more[1..]);
    RunFromStep(Sampled(n), Consume, more[2..]);
    RunFromStep(Counted(n), PublishAck(ackErr, false), more[3..]);
    RunFromStep(Step(Counted(n), PublishAck(ackErr, false)).value, WaitFails, more[4..]);
  }

  /** Or nothing is lost and the producer gives up too early, even with its acknowledgement
      already waiting. */
  lemma {:induction false} GivesUp(n: nat, err: int, ackErr: int)
    requires n <= 9
    ensures var r := Run(Rounds(n) + [Test, PublishData(err, true), Consume, PublishAck(ackErr, true), WaitFails]);
            && r.Some? && r.value.pc == Broken && |r.value.received| == n
            && r.value.lostData == r.value.lostAcks == 0 && r.value.data == [] && r.value.acks == [n + 1]
  {
    var more := [Test, PublishData(err, true), Consume, PublishAck(ackErr, true), WaitFails];
    RoundsRun(n);
    RunMore(Rounds(n), more);
    RoundSteps(n, err);
    RoundSteps(n, ackErr);
    hide Run, RunFrom, Rounds, FirstN, UpTo, Increment;
    RunFromStep(AfterRounds(n), Test, more);
    RunFromStep(AfterRounds(n).(pc := Publishing), PublishData(err, true), more[1..]);
    RunFromStep(Sampled(n), Consume, more[2..]);
    RunFromStep(Counted(n), PublishAck(ackErr, true), more[3..]);
    RunFromStep(Acked(n), WaitFails, more[4..]);
  }

  /** The loop can break off with n acknowledgements received if and only if n is below ten. */
  lemma {:induction false} BrokenIff(n: nat)
    ensures (exists run :: Run(run).Some? && Run(run).value.pc == Broken && |Run(run).value.received| == n) <==> n < 10
  {
    if n < 10 {
      LostSample(n, -11);
    }
    hide Rounds;
    forall run | Run(run).Some? && Run(run).value.pc == Broken ensures |Run(run).value.received| <= 9 {
      RunInv(run);
    }
  }

  /** No run is stuck before the loop has ended: it extends to one that has. */
  lemma {:induction false} EveryRunEnds(run: seq<Action>) returns (more: seq<Action>)
    requires Run(run).Some? && Run(run).value.pc != Finished && Run(run).value.pc != Broken
    ensures Run(run + more).Some?
    ensures Run(run + more).value.pc == Finished || Run(run + more).value.pc == Broken
    ensures |more| <= 3
  {
    var s := Run(run).value;
    hide Run, RunFrom, Increment;
    var lost := PublishData(-11, false);
    if s.pc == Testing {
      more := if s.i < 10 then [Test, lost, WaitFails] else [Test];
      RunMore(run, more);
      RunFromStep(s, Test, more);
      if s.i < 10 {
        RunFromStep(Step(s, Test).value, lost, more[1..]);
        RunFromStep(Step(Step(s, Test).value, lost).value, WaitFails, more[2..]);
      }
    } else if s.pc == Publishing {
      more := [lost, WaitFails];
      RunMore(run, more);
      RunFromStep(s, lost, more);
      RunFromStep(Step(s, lost).value, WaitFails, more[1..]);
    } else {
      more := [WaitFails];
      RunMore(run, more);
      RunFromStep(s, WaitFails, more);
    }
  }

  // ---------------------------------------------------------------- the published samples

  const MODULUS := 0x1_0000_0000

  /** producer.lua's generator under a 32-bit lua_Integer; Lua's % takes the divisor's sign. */
  function GetRandom(seed: int): int
  {
    WrapS(WrapS(71047 * seed, 4) + 8810, 4) % 7602
  }

  lemma {:induction false} Pow32()
    ensures Pow256(4) == MODULUS
  {
    assert Pow256(4) == 256 * Pow256(3) && Pow256(3) == 256 * Pow256(2) && Pow256(2) == 256 * Pow256(1);
  }

  /** How often v wraps around. */
  lemma {:induction false} Wraps(v: int) returns (q: int)
    ensures v == WrapS(v, 4) + MODULUS * q && -0x8000_0000 <= WrapS(v, 4) < 0x8000_0000
  {
    Pow32();
    q := if WrapS(v, 4) < 0 then v / MODULUS + 1 else v / MODULUS;
  }

  lemma {:induction false} SignedUnique(w: int, q: int, w': int, q': int)
    requires -0x8000_0000 <= w < 0x8000_0000 && -0x8000_0000 <= w' < 0x8000_0000
    requires w + MODULUS * q == w' + MODULUS * q'
    ensures w == w'
  {
  }

  lemma {:induction false} WrapOnce(v: int, b: int)
    ensures WrapS(WrapS(v, 4) + b, 4) == WrapS(v + b, 4)
  {
    hide WrapS;
    var q := Wraps(v);
    var k := Wraps(WrapS(v, 4) + b);
    var l := Wraps(v + b);
    SignedUnique(WrapS(WrapS(v, 4) + b, 4), k + q, WrapS(v + b, 4), l);
  }

  lemma {:induction false} FactorOnly(q: int, k: int)
    requires MODULUS * q == 7602 * k
    ensures q == 3801 * (INVERSE * (k - 564978 * q) - COFACTOR * q)
  {
    assert 2270 * q == 3801 * (k - 564978 * q);
  }

  /** A multiple of 2^32 is a multiple of 7602 only if its factor is one of 3801. */
  lemma {:induction false} FactorIff(q: int)
    ensures (MODULUS * q) % 7602 == 0 <==> q % 3801 == 0
  {
    if (MODULUS * q) % 7602 == 0 {
      var k := (MODULUS * q) / 7602;
      FactorOnly(q, k);
      DivModUnique(q, 3801, INVERSE * (k - 564978 * q) - COFACTOR * q, 0);
    } else if q % 3801 == 0 {
      var j := q / 3801;
      DivModUnique(MODULUS * q, 7602, 0x8000_0000 * j, 0);
    }
  }

  // 2270 * INVERSE == 1 + 3801 * COFACTOR
  const INVERSE := 2510
  const COFACTOR := 1499

  lemma {:induction false} SameRemainder(x: int, y: int, d: nat)
    requires d > 0
    ensures x % d == y % d <==> (x - y) % d == 0
  {
    var p, q := x / d, y / d;
    assert x == d * p + x % d && y == d * q + y % d;
    if x % d == y % d {
      DivModUnique(x - y, d, p - q, 0);
    } else if (x - y) % d == 0 {
      var k := (x - y) / d;
      DivModUnique(x, d, q + k, y % d);
    }
  }

  /** The generator returns what its formula says if and only if the number of times the
      product has wrapped around is a multiple of 3801. */
  lemma {:induction false} GetRandomIff(seed: int) returns (wraps: int)
    ensures var exact := 71047 * seed + 8810;
            && exact == WrapS(exact, 4) + MODULUS * wraps
            && (GetRandom(seed) == exact % 7602 <==> wraps % 3801 == 0)
  {
    var exact := 71047 * seed + 8810;
    WrapOnce(71047 * seed, 8810);
    wraps := Wraps(exact);
    SameRemainder(exact, WrapS(exact, 4), 7602);
    FactorIff(wraps);
  }

  /** For the seeds of the main loop, at most nine times the largest factor, the formula holds
      if and only if there is no overflow at all. */
  lemma {:induction false} ProducerSeedIff(seed: int)
    requires 0 <= seed <= 9 * 0x82716
    ensures GetRandom(seed) == (71047 * seed + 8810) % 7602 <==> 71047 * seed + 8810 < 0x8000_0000
  {
    var wraps := GetRandomIff(seed);
    assert 0 <= wraps < 3801;
  }

  /** The first y coordinate: the product wraps around to a negative number. */
  lemma {:induction false} FirstYWraps()
    ensures WrapS(71047 * 0x82716, 4) < 0
    ensures GetRandom(0x82716) != (71047 * 0x82716 + 8810) % 7602
  {
    var q := Wraps(71047 * 0x82716);
    ProducerSeedIff(0x82716);
  }
}
