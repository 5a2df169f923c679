/** The poll function as the program it is: static variables, a shared ring, two loops. */
module NicPoller {
  import opened NicReceive

  class Poller {
    var isLegacyInterface: bool
    var isDetectionDone: bool
    var pos: nat
    const ring: array<Frame>
    ghost var fromRpc: seq<Frame>
    ghost var fromRing: seq<Frame>
    ghost var produced: seq<Frame>
    var wpos: nat

    constructor (size: nat)
      requires size > 0
      ensures fresh(ring) && ring.Length == size
      ensures forall i :: 0 <= i < size ==> ring[i] == Frame(0, [])
      ensures forall p: Poll :: State(p) == Start(ring[..]).(poll := p)
    {
      isLegacyInterface := false;
      isDetectionDone := false;
      pos := 0;
      wpos := 0;
      ring := new Frame[size](_ => Frame(0, []));
      fromRpc := [];
      fromRing := [];
      produced := [];
    }

    /** The state as a value, with the locals of the current or latest poll. */
    ghost function State(p: Poll): Nic
      reads this, ring
    {
      Nic(isLegacyInterface, isDetectionDone, pos, ring[..], fromRpc, fromRing, wpos, produced, p)
    }

    // The run so far ends in the present state.
    ghost predicate Ran(m0: Nic, run: seq<NStep>, p: Poll)
      reads this, ring
    {
      NValidRun(m0, run) && State(p) == NExec(m0, run) && pos < ring.Length && wpos < ring.Length
    }

    // What a run continues with: no other poll.
    ghost predicate Continues(before: seq<NStep>, run: seq<NStep>)
    {
      before <= run && forall i :: |before| <= i < |run| ==> !run[i].NPoll?
    }

    /** The driver puts one frame into the ring if the next slot is empty. */
    method DriveOne(frame: Frame, ghost m0: Nic, ghost before: seq<NStep>, ghost p: Poll) returns (ghost run: seq<NStep>)
      requires frame.len > 0 && Ran(m0, before, p)
      modifies this`wpos, this`produced, ring
      ensures Continues(before, run) && Ran(m0, run, p)
    {
      run := before;
      if ring[wpos].len == 0 {
        NExecAppend(m0, run, NFill(frame));
        ring[wpos] := frame;
        wpos := (wpos + 1) % ring.Length;
        produced := produced + [frame];
        run := run + [NFill(frame)];
      }
    }

    /** The driver at work: it puts as many of these frames into the ring as there is room for. */
    method Drive(frames: seq<Frame>, ghost m0: Nic, ghost before: seq<NStep>, ghost p: Poll) returns (ghost run: seq<NStep>)
      requires forall i :: 0 <= i < |frames| ==> frames[i].len > 0
      requires Ran(m0, before, p)
      modifies this`wpos, this`produced, ring
      ensures Continues(before, run) && Ran(m0, run, p)
    {
      run := before;
      for i := 0 to |frames|
        invariant Continues(before, run) && Ran(m0, run, p)
      {
        run := DriveOne(frames[i], m0, run, p);
      }
    }

    // The frames of the first n answers.
    ghost function FramesOf(answers: seq<ReadResult>, n: nat): seq<Frame>
      requires n <= |answers|
    {
      seq(n, i requires 0 <= i < n => answers[i].frame)
    }

    lemma OneMoreFrame(answers: seq<ReadResult>, n: nat)
      requires n < |answers|
      ensures FramesOf(answers, n + 1) == FramesOf(answers, n) + [answers[n].frame]
    {
    }

    // The first n answers are frames, all but the last with more to come.
    ghost predicate AllFrames(answers: seq<ReadResult>, n: nat)
    {
      && n <= |answers|
      && (forall i :: 0 <= i < n ==> answers[i].status == ReadOk || answers[i].status == ReadOther)
      && (forall i :: 0 <= i < n - 1 ==> answers[i].remaining != 0)
    }

    /** How a poll by RPC with this score goes: its first n answers are frames with more to come; then the
        score is used up or no frame remains, or the next answer ends it. Only NOT_IMPLEMENTED makes it
        fall back, if nothing was detected before, or halt; it notifies exactly if the score ran out
        with frames remaining. */
    ghost predicate RpcOutcome(loopScore: int, answers: seq<ReadResult>, n: nat, detected: bool,
                               legacy: bool, halted: bool, notified: bool)
    {
      && AllFrames(answers, n) && (n > 0 ==> n <= loopScore)
      && if loopScore <= n || (n > 0 && answers[n - 1].remaining == 0) then
           !legacy && !halted && (notified <==> loopScore == n && (n == 0 || answers[n - 1].remaining != 0))
         else
           && n < |answers| && !notified
           && (answers[n].status == ReadNotImplemented || answers[n].status == ReadNotInitialized || answers[n].status == ReadNoData)
           && (legacy <==> answers[n].status == ReadNotImplemented && n == 0 && !detected)
           && (halted <==> answers[n].status == ReadNotImplemented && (n > 0 || detected))
    }

    /** One answer of dev_read: a frame goes to picoTCP, all others end the poll. */
    method TakeAnswer(r: ReadResult, ghost m0: Nic, ghost before: seq<NStep>, ghost p0: Poll)
      returns (goesOn: bool, halted: bool, ghost p: Poll, ghost run: seq<NStep>)
      requires Ran(m0, before, p0) && p0.phase == RpcLoop && RpcGoesOn(p0) && !isLegacyInterface
      modifies this`isLegacyInterface, this`isDetectionDone, this`fromRpc
      ensures Continues(before, run) && Ran(m0, run, p)
      ensures goesOn <==> r.status == ReadOk || r.status == ReadOther
      ensures halted <==> r.status == ReadNotImplemented && old(isDetectionDone)
      ensures isLegacyInterface <==> r.status == ReadNotImplemented && !old(isDetectionDone)
      ensures isDetectionDone == (old(isDetectionDone) || goesOn || isLegacyInterface)
      ensures fromRpc == if goesOn then old(fromRpc) + [r.frame] else old(fromRpc)
      ensures p.phase == if goesOn then RpcLoop else if halted then Halted else if isLegacyInterface then RingLoop else Outside
      ensures p == p0.(phase := p.phase, score := if goesOn then p0.score - 1 else p0.score,
                       remaining := if goesOn then r.remaining else p0.remaining)
    {
      NExecAppend(m0, before, NRead(r));
      run := before + [NRead(r)];
      p := NNext(State(p0), NRead(r)).poll;
      goesOn, halted := false, false;
      if r.status == ReadNotImplemented {
        if isDetectionDone {
          halted := true;
          return;
        }
        isLegacyInterface := true;
        isDetectionDone := true;
        return;
      }
      if r.status == ReadNotInitialized || r.status == ReadNoData {
        return;
      }
      fromRpc := fromRpc + [r.frame];
      isDetectionDone := true;
      goesOn := true;
    }

    /** The loop over the RPC interface; `answers` are what the driver says to successive calls. The
        frames among the first n are delivered. */
    method PollRpc(loopScore: int, answers: seq<ReadResult>, ghost m0: Nic, ghost p0: Poll)
      returns (score: int, notified: bool, halted: bool, ghost p: Poll, ghost run: seq<NStep>, ghost n: nat)
      requires Ran(m0, [NPoll(loopScore)], p0) && p0 == Poll(RpcLoop, loopScore, loopScore, p0.base, 1, false)
      requires !isLegacyInterface && |answers| >= loopScore
      modifies this`isLegacyInterface, this`isDetectionDone, this`fromRpc
      ensures Continues([NPoll(loopScore)], run) && Ran(m0, run, p)
      ensures p.phase == if halted then Halted else if isLegacyInterface then RingLoop else Outside
      ensures p.score == score && p.woke == notified && (isLegacyInterface || halted ==> !notified)
      ensures RpcOutcome(loopScore, answers, n, old(isDetectionDone), isLegacyInterface, halted, notified)
      ensures score == loopScore - n && fromRpc == old(fromRpc) + FramesOf(answers, n)
      ensures isDetectionDone == (old(isDetectionDone) || n > 0 || isLegacyInterface)
    {
      n := 0;
      run, p := [NPoll(loopScore)], p0;
      score, notified, halted := loopScore, false, false;
      var framesRemaining := 1;
      var k := 0;
      while score > 0 && framesRemaining != 0
        invariant Continues([NPoll(loopScore)], run) && Ran(m0, run, p)
        invariant p.phase == RpcLoop && !isLegacyInterface && !halted
        invariant p.score == score && p.remaining == framesRemaining && !p.woke
        invariant k == loopScore - score && k >= 0 && n == k <= |answers| && (k > 0 ==> k <= loopScore)
        invariant AllFrames(answers, k)
        invariant framesRemaining == if k == 0 then 1 else answers[k - 1].remaining
        invariant fromRpc == old(fromRpc) + FramesOf(answers, k)
        invariant isDetectionDone == (old(isDetectionDone) || k > 0)
        decreases score
      {
        var r := answers[k];
        var goesOn;
        goesOn, halted, p, run := TakeAnswer(r, m0, run, p);
        if !goesOn {
          return;
        }
        score := score - 1;
        framesRemaining := r.remaining;
        OneMoreFrame(answers, k);
        k := k + 1;
        n := n + 1;
      }
      if score == 0 && framesRemaining != 0 {
        notified := true;
      }
      NExecAppend(m0, run, NRpcDone);
      run := run + [NRpcDone];
      p := NNext(State(p), NRpcDone).poll;
    }

    /** Takes the frame at pos out of the ring. */
    method TakeFrame(ghost m0: Nic, ghost before: seq<NStep>, ghost p0: Poll) returns (ghost p: Poll, ghost run: seq<NStep>)
      requires Ran(m0, before, p0) && p0.phase == RingLoop && p0.score > 0 && ring[pos].len != 0
      modifies this`pos, this`fromRing, ring
      ensures Continues(before, run) && Ran(m0, run, p)
      ensures p == p0.(score := p0.score - 1)
    {
      NExecAppend(m0, before, NRingTest);
      fromRing := fromRing + [ring[pos]];
      p := p0.(phase := RingRelease, score := p0.score - 1);
      run := before + [NRingTest];
      NExecAppend(m0, run, NRingRelease);
      ring[pos] := ring[pos].(len := 0);
      pos := (pos + 1) % ring.Length;
      p := p.(phase := RingLoop);
      run := run + [NRingRelease];
    }

    /** The loop over the ring; before each look at the ring the driver gets a turn. */
    method PollRing(loopScore: int, turns: seq<seq<Frame>>, ghost m0: Nic, ghost before: seq<NStep>, ghost p0: Poll)
      returns (score: int, ghost p: Poll, ghost run: seq<NStep>)
      requires Ran(m0, before, p0) && p0.phase == RingLoop && p0.score == loopScore && |turns| > loopScore
      requires forall i, j :: 0 <= i < |turns| && 0 <= j < |turns[i]| ==> turns[i][j].len > 0
      modifies this`pos, this`wpos, this`produced, this`fromRing, ring
      ensures Continues(before, run) && Ran(m0, run, p)
      ensures p.phase == Outside && p.score == score
    {
      score, p, run := loopScore, p0, before;
      if score > 0 {
        var k := 0;
        run := Drive(turns[0], m0, run, p);
        while ring[pos].len != 0 && score > 0
          invariant Continues(before, run) && Ran(m0, run, p)
          invariant p.phase == RingLoop && p.score == score && k == loopScore - score && 0 <= score <= loopScore
          decreases score
        {
          p, run := TakeFrame(m0, run, p);
          score := score - 1;
          k := k + 1;
          run := Drive(turns[k], m0, run, p);
        }
      }
      NExecAppend(m0, run, NRingTest);
      p := NNext(State(p), NRingTest).poll;
      run := run + [NRingTest];
    }

    /** One poll, with the driver at work beside it, is a run of the machine that starts with the
        poll and contains no other; so all that holds of such runs holds of it. It returns the score
        it was given less the frames it delivered. */
    method PollData(loopScore: int, answers: seq<ReadResult>, turns: seq<seq<Frame>>, ghost p0: Poll)
      returns (score: int, notified: bool, halted: bool, ghost p: Poll, ghost run: seq<NStep>, ghost n: nat)
      requires NInv(State(p0)) && p0.phase == Outside && |answers| >= loopScore && |turns| > loopScore
      requires forall i, j :: 0 <= i < |turns| && 0 <= j < |turns[i]| ==> turns[i][j].len > 0
      modifies this, ring
      ensures Continues([NPoll(loopScore)], run) && NValidRun(old(State(p0)), run)
      ensures State(p) == NExec(old(State(p0)), run) && NInv(State(p))
      ensures p.phase == if halted then Halted else Outside
      ensures score == loopScore - (|fromRpc| + |fromRing| - |old(fromRpc)| - |old(fromRing)|)
      ensures !isLegacyInterface && !halted ==> (notified <==> score == 0 && p.remaining != 0)
      ensures isLegacyInterface <==>
              (old(isLegacyInterface) || (loopScore > 0 && !old(isDetectionDone) && answers[0].status == ReadNotImplemented))
      ensures !old(isLegacyInterface) ==>
                && RpcOutcome(loopScore, answers, n, old(isDetectionDone), isLegacyInterface, halted, notified)
                && fromRpc == old(fromRpc) + FramesOf(answers, n)
                && isDetectionDone == (old(isDetectionDone) || n > 0 || isLegacyInterface)
      ensures old(isLegacyInterface) ==> n == 0 && fromRpc == old(fromRpc) && !halted && !notified
    {
      ghost var m0 := State(p0);
      n := 0;
      run := [NPoll(loopScore)];
      p := NNext(m0, NPoll(loopScore)).poll;
      assert NExec(m0, run) == NNext(m0, NPoll(loopScore)) by {
        assert run[1..] == [];
      }
      score, notified, halted := loopScore, false, false;
      if !isLegacyInterface {
        score, notified, halted, p, run, n := PollRpc(loopScore, answers, m0, p);
      }
      if isLegacyInterface && !halted {
        score, p, run := PollRing(score, turns, m0, run, p);
      }
      PollBase(m0, run);
      NRunKeepsInv(m0, run);
    }
  }

  lemma {:induction false} BaseStays(m: Nic, run: seq<NStep>)
    requires NValidRun(m, run) && forall i :: 0 <= i < |run| ==> !run[i].NPoll?
    ensures NExec(m, run).poll.base == m.poll.base && NExec(m, run).poll.given == m.poll.given
    decreases |run|
  {
    if |run| > 0 {
      BaseStays(NNext(m, run[0]), run[1..]);
    }
  }

  // Within one poll the frames delivered are counted from its start.
  lemma PollBase(m: Nic, run: seq<NStep>)
    requires NValidRun(m, run) && |run| > 0 && run[0].NPoll? && forall i :: 0 < i < |run| ==> !run[i].NPoll?
    ensures NExec(m, run).poll.base == Delivered(m) && NExec(m, run).poll.given == run[0].score
  {
    BaseStays(NNext(m, run[0]), run[1..]);
  }
}
