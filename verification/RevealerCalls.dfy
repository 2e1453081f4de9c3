/**
 The two flags a DualEx process keeps about its equality checks, under any sequence of calls.
 The module Revealer follows the swaps themselves; here a swap is only recorded.
 */
module RevealerCalls {
  import opened Revealer

  datatype Call = RequestCheck | GetResults | StopChecker

  datatype Flags = Flags(readyToRequest: bool, checkInProgress: bool)

  const INITIAL: Flags := Flags(true, false)

  predicate Accepts(f: Flags, call: Call) {
    if call == GetResults then f.checkInProgress else f.readyToRequest
  }

  /** A refused call changes nothing. */
  function FlagsAfter(f: Flags, call: Call): Flags {
    if !Accepts(f, call) then f
    else match call
      case RequestCheck => Flags(false, true)
      case GetResults => Flags(true, false)
      case StopChecker => Flags(false, false)
  }

  function FlagsAfterAll(calls: seq<Call>): Flags {
    if calls == [] then INITIAL else FlagsAfter(FlagsAfterAll(calls[..|calls| - 1]), calls[|calls| - 1])
  }

  /** The calls that were not refused, in order. */
  function Accepted(calls: seq<Call>): (a: seq<Call>)
    ensures |a| <= |calls|
  {
    if calls == [] then []
    else
      var before, call := calls[..|calls| - 1], calls[|calls| - 1];
      Accepted(before) + if Accepts(FlagsAfterAll(before), call) then [call] else []
  }

  /** What may come after the calls accepted so far. */
  predicate MayFollow(accepted: seq<Call>, call: Call) {
    if accepted == [] then call != GetResults
    else
      match accepted[|accepted| - 1]
      case RequestCheck => call == GetResults
      case GetResults => call != GetResults
      case StopChecker => false
  }

  /** Requests and results take turns, starting with a request; nothing comes after a stop. */
  ghost predicate TakeTurns(accepted: seq<Call>) {
    forall i :: 0 <= i < |accepted| ==> MayFollow(accepted[..i], accepted[i])
  }

  /** The flags say exactly what may come next. */
  lemma {:induction false} FlagsDecide(calls: seq<Call>, call: Call)
    ensures Accepts(FlagsAfterAll(calls), call) <==> MayFollow(Accepted(calls), call)
  {
    if calls != [] {
      var before, last := calls[..|calls| - 1], calls[|calls| - 1];
      FlagsDecide(before, GetResults);
      FlagsDecide(before, RequestCheck);
      FlagsDecide(before, StopChecker);
    }
  }

  /**
   Whatever a process calls, what is let through takes turns: it never requests again before collecting its
   verdict.
   */
  lemma {:induction false} AcceptedTakeTurns(calls: seq<Call>)
    ensures TakeTurns(Accepted(calls))
  {
    if calls != [] {
      var before, last := calls[..|calls| - 1], calls[|calls| - 1];
      AcceptedTakeTurns(before);
      FlagsDecide(before, last);
      var a, b := Accepted(before), Accepted(calls);
      forall i | 0 <= i < |b|
        ensures MayFollow(b[..i], b[i])
      {
        if i < |a| {
          assert b[..i] == a[..i];
        } else {
          assert b[..i] == a;
        }
      }
    }
  }

  /** One DualEx process's view of the checker. */
  class DualExProcess {
    const garbler: bool
    const maxBits: nat
    var readyToRequest: bool
    var checkInProgress: bool
    /** The request last written, and the channels swapped so far. */
    var request: Message
    ghost var swaps: seq<Channel>

    ghost function View(): Flags
      reads this
    {
      Flags(readyToRequest, checkInProgress)
    }

    constructor (garbler: bool, maxBits: nat)
      ensures this.garbler == garbler && this.maxBits == maxBits && View() == INITIAL && swaps == []
    {
      this.garbler, this.maxBits := garbler, maxBits;
      readyToRequest, checkInProgress, request, swaps := true, false, Stale, [];
    }

    method RequestEqCheck(side: RevealSide, revealableBits: nat) returns (ok: bool)
      modifies this
      ensures ok == Accepts(old(View()), RequestCheck) && View() == FlagsAfter(old(View()), RequestCheck)
      ensures swaps == old(swaps) + if !ok then []
                                    else if garbler then [GARBLER_WANTS, GARBLER_LABELS]
                                    else [NON_GARBLER_WANTS, NON_GARBLER_LABELS, NON_GARBLER_BOOLS]
      ensures request == if ok then Request(true, side, if revealableBits == 0 then maxBits else revealableBits)
                         else old(request)
    {
      if !readyToRequest {
        return false;
      }
      readyToRequest := false;
      request := Request(true, side, if revealableBits == 0 then maxBits else revealableBits);
      if garbler {
        swaps := swaps + [GARBLER_WANTS, GARBLER_LABELS];
      } else {
        swaps := swaps + [NON_GARBLER_WANTS, NON_GARBLER_LABELS, NON_GARBLER_BOOLS];
      }
      checkInProgress := true;
      ok := true;
    }

    /** The verdict is what stands in the result patch after the swap; a refused call reads as false. */
    method GetEqCheckResults(verdict: bool) returns (result: bool)
      modifies this`readyToRequest, this`checkInProgress, this`swaps
      ensures result == (Accepts(old(View()), GetResults) && verdict) && View() == FlagsAfter(old(View()), GetResults)
      ensures swaps == old(swaps) + if Accepts(old(View()), GetResults) then [Result(garbler)] else []
    {
      if !checkInProgress {
        return false;
      }
      swaps := swaps + [Result(garbler)];
      checkInProgress, readyToRequest := false, true;
      result := verdict;
    }

    method StopEqChecker() returns (ok: bool)
      modifies this
      ensures ok == Accepts(old(View()), StopChecker) && View() == FlagsAfter(old(View()), StopChecker)
      ensures swaps == old(swaps) + if ok then [Wants(garbler)] else []
      ensures ok ==> request.Request? && !request.want
      ensures !ok ==> request == old(request)
    {
      if !readyToRequest {
        return false;
      }
      readyToRequest, checkInProgress := false, false;
      request := if request.Request? then request.(want := false) else Request(false, Both, 0);
      swaps := swaps + [Wants(garbler)];
      ok := true;
    }
  }
}
