/** The receive path of the network card: a poll finds out once which interface the driver has, and
    then takes frames by RPC or from a ring that the driver fills at the same time. */
module NicReceive {

  // A ring slot is empty when its length is 0.
  datatype Frame = Frame(len: nat, data: seq<int>)

  datatype ReadStatus = ReadOk | ReadNotImplemented | ReadNotInitialized | ReadNoData | ReadOther

  // What one dev_read call gives: its status, the frame, and how many frames remain.
  datatype ReadResult = ReadResult(status: ReadStatus, frame: Frame, remaining: nat)

  datatype Phase = Outside | RpcLoop | RingLoop | RingRelease | Halted

  // The current or latest poll: where it is, the score left and given, the frames delivered before
  // it, the frames dev_read said remain, and whether it woke the main loop.
  datatype Poll = Poll(phase: Phase, score: int, given: int, base: nat, remaining: nat, woke: bool)

  // The static variables and the ring, with what was delivered to picoTCP from either interface,
  // the driver's write position and all it has put into the ring.
  datatype Nic = Nic(
    legacy: bool,
    detected: bool,
    pos: nat,
    ring: seq<Frame>,
    fromRpc: seq<Frame>,
    fromRing: seq<Frame>,
    wpos: nat,
    produced: seq<Frame>,
    poll: Poll)

  datatype NStep =
    | NPoll(score: int)
    | NRead(r: ReadResult)
    | NRpcDone
    | NRingTest
    | NRingRelease
    | NFill(frame: Frame)

  function Delivered(m: Nic): nat
  {
    |m.fromRpc| + |m.fromRing|
  }

  predicate RpcGoesOn(p: Poll)
  {
    p.score > 0 && p.remaining != 0
  }

  predicate NEnabled(m: Nic, s: NStep)
  {
    match s
    case NPoll(_) => m.poll.phase == Outside
    case NRead(_) => m.poll.phase == RpcLoop && RpcGoesOn(m.poll)
    case NRpcDone => m.poll.phase == RpcLoop && !RpcGoesOn(m.poll)
    case NRingTest => m.poll.phase == RingLoop && m.pos < |m.ring|
    case NRingRelease => m.poll.phase == RingRelease && m.pos < |m.ring|
    // The driver fills empty slots only, in circular order.
    case NFill(f) => m.wpos < |m.ring| && m.ring[m.wpos].len == 0 && f.len > 0
  }

  function Read(m: Nic, r: ReadResult): Nic
  {
    match r.status
    case ReadNotImplemented =>
      if m.detected then m.(poll := m.poll.(phase := Halted))
      else m.(legacy := true, detected := true, poll := m.poll.(phase := RingLoop))
    case ReadNotInitialized | ReadNoData => m.(poll := m.poll.(phase := Outside))
    case ReadOk | ReadOther =>
      m.(fromRpc := m.fromRpc + [r.frame], detected := true,
         poll := m.poll.(score := m.poll.score - 1, remaining := r.remaining))
  }

  function NNext(m: Nic, s: NStep): Nic
    requires NEnabled(m, s)
  {
    match s
    case NPoll(score) =>
      m.(poll := Poll(if m.legacy then RingLoop else RpcLoop, score, score, Delivered(m), 1, false))
    case NRead(r) => Read(m, r)
    case NRpcDone => m.(poll := m.poll.(phase := Outside, woke := m.poll.score == 0 && m.poll.remaining != 0))
    case NRingTest =>
      if m.poll.score > 0 && m.ring[m.pos].len != 0 then
        m.(fromRing := m.fromRing + [m.ring[m.pos]], poll := m.poll.(phase := RingRelease, score := m.poll.score - 1))
      else m.(poll := m.poll.(phase := Outside))
    case NRingRelease =>
      m.(ring := m.ring[m.pos := m.ring[m.pos].(len := 0)], pos := (m.pos + 1) % |m.ring|,
         poll := m.poll.(phase := RingLoop))
    case NFill(f) =>
      m.(ring := m.ring[m.wpos := f], wpos := (m.wpos + 1) % |m.ring|, produced := m.produced + [f])
  }

  predicate NValidRun(m: Nic, run: seq<NStep>)
    decreases |run|
  {
    |run| == 0 || (NEnabled(m, run[0]) && NValidRun(NNext(m, run[0]), run[1..]))
  }

  function NExec(m: Nic, run: seq<NStep>): Nic
    requires NValidRun(m, run)
    decreases |run|
  {
    if |run| == 0 then m else NExec(NNext(m, run[0]), run[1..])
  }

  function Start(ring: seq<Frame>): Nic
  {
    Nic(false, false, 0, ring, [], [], 0, [], Poll(Outside, 0, 0, 0, 0, false))
  }

  // ---------------------------------------------------------------- invariant

  function At(pos: nat, j: nat, n: nat): int
  {
    if pos + j >= n then pos + j - n else pos + j
  }

  // What the driver has put into the ring and the poll has not yet taken out. In RingRelease the
  // slot at pos has been delivered but is still full.
  function Held(m: Nic): seq<Frame>
    requires |m.fromRing| <= |m.produced| && (m.poll.phase == RingRelease ==> |m.fromRing| > 0)
  {
    m.produced[if m.poll.phase == RingRelease then |m.fromRing| - 1 else |m.fromRing|..]
  }

  /** The ring holds these frames from pos on, up to the driver's position, and is empty elsewhere. */
  predicate Holds(ring: seq<Frame>, pos: nat, wpos: nat, held: seq<Frame>)
  {
    && pos < |ring| && wpos < |ring|
    && |held| <= |ring|
    && wpos == At(pos, |held|, |ring|)
    && (forall j :: 0 <= j < |held| ==> ring[At(pos, j, |ring|)] == held[j] && held[j].len > 0)
    && (forall j :: |held| <= j < |ring| ==> ring[At(pos, j, |ring|)].len == 0)
  }

  predicate RingOk(m: Nic)
  {
    && m.fromRing <= m.produced
    && (m.poll.phase == RingRelease ==> |m.fromRing| > 0)
    && Holds(m.ring, m.pos, m.wpos, Held(m))
  }

  predicate ModeOk(m: Nic)
  {
    && (m.legacy ==> m.detected && m.fromRpc == [])
    && (!m.legacy ==> m.fromRing == [] && (m.detected <==> m.fromRpc != []))
    && (m.poll.phase == RpcLoop || m.poll.phase == Halted ==> !m.legacy)
    && (m.poll.phase == RingLoop || m.poll.phase == RingRelease ==> m.legacy)
    && (m.poll.phase == Halted ==> m.fromRpc != [])
  }

  predicate ScoreOk(m: Nic)
  {
    && m.poll.base <= Delivered(m)
    && m.poll.score == m.poll.given - (Delivered(m) - m.poll.base)
    && (Delivered(m) > m.poll.base ==> m.poll.score >= 0)
    && (m.poll.phase == RpcLoop ==> !m.poll.woke)
    && (m.poll.phase == Outside && !m.legacy ==> (m.poll.woke <==> m.poll.score == 0 && m.poll.remaining != 0))
  }

  predicate NInv(m: Nic)
  {
    RingOk(m) && ModeOk(m) && ScoreOk(m)
  }

  lemma SuccMod(pos: nat, n: nat)
    requires pos < n
    ensures (pos + 1) % n == At(pos, 1, n)
  {
  }

  // The circle of n slots, seen from pos: every index once.
  lemma AtInjective(pos: nat, n: nat, k: nat)
    requires pos < n && k < n
    ensures forall j :: 0 <= j < n && At(pos, j, n) == At(pos, k, n) ==> j == k
  {
  }

  lemma FillHolds(ring: seq<Frame>, pos: nat, wpos: nat, held: seq<Frame>, f: Frame)
    requires Holds(ring, pos, wpos, held) && ring[wpos].len == 0 && f.len > 0
    ensures Holds(ring[wpos := f], pos, (wpos + 1) % |ring|, held + [f])
  {
    var n := |ring|;
    var k := |held|;
    SuccMod(wpos, n);
    assert k < n by {
      assert ring[At(pos, 0, n)] == ring[pos];
    }
    AtInjective(pos, n, k);
  }

  lemma TakeHolds(ring: seq<Frame>, pos: nat, wpos: nat, held: seq<Frame>)
    requires Holds(ring, pos, wpos, held) && |held| > 0
    ensures Holds(ring[pos := ring[pos].(len := 0)], (pos + 1) % |ring|, wpos, held[1..])
  {
    var n := |ring|;
    SuccMod(pos, n);
    var next := At(pos, 1, n);
    var ring' := ring[pos := ring[pos].(len := 0)];
    forall j | 0 <= j < n - 1 ensures At(next, j, n) == At(pos, j + 1, n) != pos && ring'[At(next, j, n)] == ring[At(pos, j + 1, n)] {
    }
    assert At(next, n - 1, n) == pos;
  }

  lemma HeadHolds(ring: seq<Frame>, pos: nat, wpos: nat, held: seq<Frame>)
    requires Holds(ring, pos, wpos, held)
    ensures ring[pos].len != 0 <==> |held| > 0
    ensures |held| > 0 ==> held[0] == ring[pos]
  {
    assert ring[At(pos, 0, |ring|)] == ring[pos];
  }

  lemma MoreProduced(produced: seq<Frame>, k: int, f: Frame)
    requires 0 <= k <= |produced|
    ensures (produced + [f])[k..] == produced[k..] + [f] && produced <= produced + [f]
  {
  }

  lemma FillKeepsRing(m: Nic, f: Frame)
    requires RingOk(m) && NEnabled(m, NFill(f))
    ensures RingOk(NNext(m, NFill(f)))
  {
    FillHolds(m.ring, m.pos, m.wpos, Held(m), f);
    MoreProduced(m.produced, if m.poll.phase == RingRelease then |m.fromRing| - 1 else |m.fromRing|, f);
  }

  lemma ReleaseKeepsRing(m: Nic)
    requires RingOk(m) && NEnabled(m, NRingRelease)
    ensures RingOk(NNext(m, NRingRelease))
  {
    TakeHolds(m.ring, m.pos, m.wpos, Held(m));
    assert Held(NNext(m, NRingRelease)) == Held(m)[1..];
  }

  lemma TestKeepsRing(m: Nic)
    requires RingOk(m) && NEnabled(m, NRingTest)
    ensures RingOk(NNext(m, NRingTest))
  {
    HeadHolds(m.ring, m.pos, m.wpos, Held(m));
    var m' := NNext(m, NRingTest);
    if m'.poll.phase == RingRelease {
      assert Held(m)[0] == m.produced[|m.fromRing|];
    }
    assert Held(m') == Held(m);
  }

  lemma StepKeepsRing(m: Nic, s: NStep)
    requires RingOk(m) && NEnabled(m, s)
    ensures RingOk(NNext(m, s))
  {
    match s {
      case NFill(f) => FillKeepsRing(m, f);
      case NRingRelease => ReleaseKeepsRing(m);
      case NRingTest => TestKeepsRing(m);
      case _ =>
    }
  }

  lemma StepKeepsMode(m: Nic, s: NStep)
    requires ModeOk(m) && ScoreOk(m) && NEnabled(m, s)
    ensures ModeOk(NNext(m, s)) && ScoreOk(NNext(m, s))
  {
  }

  lemma NStepKeepsInv(m: Nic, s: NStep)
    requires NInv(m) && NEnabled(m, s)
    ensures NInv(NNext(m, s))
  {
    StepKeepsRing(m, s);
    StepKeepsMode(m, s);
  }

  lemma {:induction false} NRunKeepsInv(m: Nic, run: seq<NStep>)
    requires NInv(m) && NValidRun(m, run)
    ensures NInv(NExec(m, run))
    decreases |run|
  {
    if |run| > 0 {
      NStepKeepsInv(m, run[0]);
      NRunKeepsInv(NNext(m, run[0]), run[1..]);
    }
  }

  // ---------------------------------------------------------------- what holds over all runs

  // The frames found in the ring from pos on, up to the first empty slot.
  function InRing(ring: seq<Frame>, pos: nat, j: nat): seq<Frame>
    requires pos < |ring| && j <= |ring|
    decreases |ring| - j
  {
    if j == |ring| || ring[At(pos, j, |ring|)].len == 0 then []
    else [ring[At(pos, j, |ring|)]] + InRing(ring, pos, j + 1)
  }

  lemma {:induction false} InRingIsHeld(m: Nic, j: nat)
    requires RingOk(m) && j <= |Held(m)|
    ensures InRing(m.ring, m.pos, j) == Held(m)[j..]
    decreases |m.ring| - j
  {
    if j < |Held(m)| {
      InRingIsHeld(m, j + 1);
      assert Held(m)[j..] == [Held(m)[j]] + Held(m)[j + 1..];
    }
  }

  /** Exactly once, in order: whatever the interleaving of driver and poll, within a poll and across
      polls, the frames delivered from the ring followed by those found in it from pos on are the
      frames the driver produced. Between delivery and release the slot at pos counts once. */
  lemma RingIsFifo(ring: seq<Frame>, run: seq<NStep>)
    requires |ring| > 0 && (forall i :: 0 <= i < |ring| ==> ring[i].len == 0) && NValidRun(Start(ring), run)
    ensures var m := NExec(Start(ring), run);
            && m.pos < |m.ring|
            && (m.poll.phase == RingRelease ==> |m.fromRing| > 0)
            && m.produced == (if m.poll.phase == RingRelease then m.fromRing[..|m.fromRing| - 1] else m.fromRing)
                             + InRing(m.ring, m.pos, 0)
  {
    StartInv(ring);
    NRunKeepsInv(Start(ring), run);
    InRingIsHeld(NExec(Start(ring), run), 0);
  }

  lemma StartInv(ring: seq<Frame>)
    requires |ring| > 0 && forall i :: 0 <= i < |ring| ==> ring[i].len == 0
    ensures NInv(Start(ring))
  {
  }

  /** In every reachable state: the score left is the score given minus the frames this poll
      delivered, never more than were given; the two interfaces never mix; the fatal stop means that
      frames had been read by RPC before; and a poll by RPC has woken the main loop exactly when it
      used up its score with frames remaining. */
  lemma PollAccounts(ring: seq<Frame>, run: seq<NStep>)
    requires |ring| > 0 && (forall i :: 0 <= i < |ring| ==> ring[i].len == 0) && NValidRun(Start(ring), run)
    ensures var m := NExec(Start(ring), run);
            && m.poll.base <= Delivered(m)
            && m.poll.score == m.poll.given - (Delivered(m) - m.poll.base)
            && (Delivered(m) - m.poll.base <= if m.poll.given > 0 then m.poll.given else 0)
            && (m.fromRpc == [] || m.fromRing == [])
            && (m.legacy ==> m.fromRpc == [])
            && (m.poll.phase == Halted ==> m.fromRpc != [])
            && (m.poll.phase == Outside && !m.legacy ==> (m.poll.woke <==> m.poll.score == 0 && m.poll.remaining != 0))
  {
    StartInv(ring);
    NRunKeepsInv(Start(ring), run);
  }

  /** A poll of the ring that returns with score left has delivered everything produced so far. */
  lemma RingPollDrains(m: Nic)
    requires NInv(m) && NEnabled(m, NRingTest) && m.poll.score > 0 && NNext(m, NRingTest).poll.phase == Outside
    ensures m.fromRing == m.produced
  {
    HeadHolds(m.ring, m.pos, m.wpos, Held(m));
  }

  /** The interface changes for one reason only: dev_read answers NOT_IMPLEMENTED before detection is
      done. Once it is done, that answer is fatal. */
  lemma FallsBackIff(m: Nic, s: NStep)
    requires NInv(m) && NEnabled(m, s)
    ensures !m.legacy && NNext(m, s).legacy <==> s.NRead? && s.r.status == ReadNotImplemented && !m.detected
    ensures NNext(m, s).poll.phase == Halted && m.poll.phase != Halted
       <==> s.NRead? && s.r.status == ReadNotImplemented && m.detected
    ensures NNext(m, s).detected <==>
            m.detected || (s.NRead? && s.r.status != ReadNotInitialized && s.r.status != ReadNoData)
  {
  }

  /** What each answer of dev_read does: not ready and no data end the poll and leave all else alone, a frame
      is delivered as it is, costs one of the score, and says how many remain. */
  lemma AnswerEffect(m: Nic, r: ReadResult)
    requires NEnabled(m, NRead(r))
    ensures var e := NNext(m, NRead(r));
            && e.ring == m.ring && e.pos == m.pos && e.wpos == m.wpos && e.produced == m.produced && e.fromRing == m.fromRing
            && e.poll.given == m.poll.given && e.poll.base == m.poll.base && e.poll.woke == m.poll.woke
            && (r.status == ReadNotInitialized || r.status == ReadNoData ==>
                  e == m.(poll := e.poll) && e.poll.phase == Outside && e.poll.score == m.poll.score)
            && (r.status == ReadNotImplemented ==>
                  e.fromRpc == m.fromRpc && e.poll.score == m.poll.score
                  && e.poll.phase == if m.detected then Halted else RingLoop)
            && (r.status == ReadOk || r.status == ReadOther ==>
                  e.fromRpc == m.fromRpc + [r.frame] && e.legacy == m.legacy && e.detected
                  && e.poll.phase == RpcLoop && e.poll.score == m.poll.score - 1 && e.poll.remaining == r.remaining)
  {
  }

  /** A new poll reads by RPC or from the ring according to the mode, and while it has score it does so. */
  lemma PollBegins(m: Nic, score: int, r: ReadResult)
    requires NInv(m) && m.poll.phase == Outside
    ensures var e := NNext(m, NPoll(score));
            && e == m.(poll := e.poll) && e.poll.score == score && e.poll.given == score
            && e.poll.base == |m.fromRpc| + |m.fromRing|
            && (NEnabled(e, NRead(r)) <==> !m.legacy && score > 0)
            && (NEnabled(e, NRpcDone) <==> !m.legacy && score <= 0)
            && (NEnabled(e, NRingTest) <==> m.legacy)
  {
  }

  /** A look at the ring delivers the frame at pos exactly if there is score and the slot is not empty; it
      is released next, and then pos moves on by one slot, cyclically. */
  lemma RingEffect(m: Nic)
    requires NInv(m) && NEnabled(m, NRingTest)
    ensures var e := NNext(m, NRingTest);
            var f := m.ring[m.pos];
            if m.poll.score > 0 && f.len != 0 then
              && e.fromRing == m.fromRing + [f] && e.poll.score == m.poll.score - 1 && NEnabled(e, NRingRelease)
              && e.ring == m.ring && e.pos == m.pos
              && var d := NNext(e, NRingRelease);
                 d.ring == m.ring[m.pos := Frame(0, f.data)]
                 && d.pos == (if m.pos + 1 == |m.ring| then 0 else m.pos + 1)
                 && d.poll.phase == RingLoop && d.poll.score == e.poll.score && d.fromRing == e.fromRing
            else e == m.(poll := e.poll) && e.poll.phase == Outside && e.poll.score == m.poll.score
  {
  }

  // The frames among the answers of a run.
  function FramesRead(run: seq<NStep>): seq<Frame>
  {
    if |run| == 0 then []
    else
      (if run[0].NRead? && (run[0].r.status == ReadOk || run[0].r.status == ReadOther) then [run[0].r.frame] else [])
      + FramesRead(run[1..])
  }

  /** By RPC picoTCP gets just the frames that dev_read returned, in order. */
  lemma {:induction false} RpcDeliversAnswers(m: Nic, run: seq<NStep>)
    requires NValidRun(m, run)
    ensures NExec(m, run).fromRpc == m.fromRpc + FramesRead(run)
    decreases |run|
  {
    if |run| > 0 {
      RpcDeliversAnswers(NNext(m, run[0]), run[1..]);
    }
  }

  // How often the run falls back to the legacy interface.
  function Fallbacks(m: Nic, run: seq<NStep>): nat
    requires NValidRun(m, run)
    decreases |run|
  {
    if |run| == 0 then 0
    else (if !m.legacy && NNext(m, run[0]).legacy then 1 else 0) + Fallbacks(NNext(m, run[0]), run[1..])
  }

  /** Detection is one-way: a run falls back to the legacy interface at most once, never comes back
      from it, never falls back once a frame was delivered, and only on the answer NOT_IMPLEMENTED. */
  lemma {:induction false} DetectionIsOneWay(m: Nic, run: seq<NStep>)
    requires NInv(m) && NValidRun(m, run)
    ensures Fallbacks(m, run) == if NExec(m, run).legacy && !m.legacy then 1 else 0
    ensures m.legacy ==> NExec(m, run).legacy
    ensures !m.legacy && Delivered(m) > 0 ==> !NExec(m, run).legacy
    ensures !m.legacy && NExec(m, run).legacy ==>
              exists i :: 0 <= i < |run| && run[i].NRead? && run[i].r.status == ReadNotImplemented
    decreases |run|
  {
    if |run| > 0 {
      NStepKeepsInv(m, run[0]);
      FallsBackIff(m, run[0]);
      DetectionIsOneWay(NNext(m, run[0]), run[1..]);
    }
  }

  // An upper bound for the steps left in a poll.
  function StepsLeft(p: Poll): nat
  {
    var s := if p.score > 0 then p.score else 0;
    match p.phase
    case Outside | Halted => 0
    case RpcLoop => 3 * s + 3
    case RingLoop => 2 * s + 1
    case RingRelease => 2 * s + 2
  }

  function OwnSteps(run: seq<NStep>): nat
  {
    if |run| == 0 then 0 else (if run[0].NFill? then 0 else 1) + OwnSteps(run[1..])
  }

  /** A poll ends however fast the driver refills: with no new poll, the poll takes at most as many
      steps as its score allows. */
  lemma {:induction false} PollTerminates(m: Nic, run: seq<NStep>)
    requires NValidRun(m, run) && forall i :: 0 <= i < |run| ==> !run[i].NPoll?
    ensures OwnSteps(run) + StepsLeft(NExec(m, run).poll) <= StepsLeft(m.poll)
    decreases |run|
  {
    if |run| > 0 {
      PollTerminates(NNext(m, run[0]), run[1..]);
    }
  }

  predicate PollOver(p: Poll)
  {
    p.phase == Outside || p.phase == Halted
  }

  // The poll has a next step, if dev_read should be called and answers r.
  predicate HasNext(m: Nic, r: ReadResult)
  {
    NEnabled(m, NRead(r)) || NEnabled(m, NRpcDone) || NEnabled(m, NRingTest) || NEnabled(m, NRingRelease)
  }

  lemma PollGoesOn(m: Nic, r: ReadResult)
    requires NInv(m) && !PollOver(m.poll)
    ensures HasNext(m, r)
  {
  }

  lemma NothingLeft(p: Poll)
    ensures StepsLeft(p) == 0 <==> PollOver(p)
  {
  }

  /** Every poll comes to its end: whatever the driver does between its steps and whatever dev_read answers,
      in any run without a new poll it is over or has a next step, it is over once it has taken as
      many steps as its score allows, and it never takes more. */
  lemma PollEnds(m: Nic, run: seq<NStep>, r: ReadResult)
    requires NInv(m) && NValidRun(m, run) && forall i :: 0 <= i < |run| ==> !run[i].NPoll?
    ensures PollOver(NExec(m, run).poll) || (OwnSteps(run) < StepsLeft(m.poll) && HasNext(NExec(m, run), r))
    ensures OwnSteps(run) <= StepsLeft(m.poll)
  {
    var e := NExec(m, run);
    PollTerminates(m, run);
    NRunKeepsInv(m, run);
    NothingLeft(e.poll);
    if !PollOver(e.poll) {
      PollGoesOn(e, r);
    }
  }

  lemma {:induction false} NExecAppend(m: Nic, run: seq<NStep>, s: NStep)
    requires NValidRun(m, run) && NEnabled(NExec(m, run), s)
    ensures NValidRun(m, run + [s]) && NExec(m, run + [s]) == NNext(NExec(m, run), s)
    decreases |run|
  {
    if |run| == 0 {
      assert ([s])[1..] == [];
    } else {
      assert (run + [s])[1..] == run[1..] + [s];
      NExecAppend(NNext(m, run[0]), run[1..], s);
    }
  }
}
