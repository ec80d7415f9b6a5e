/** Requests and responses over the USB FIFO interface (transports/libhoth_usb_fifo.c). */
module UsbFifo {
  import opened Words
  import opened UsbTransfers
  import Xorshift

  /** A packet is a request ID of 16 bytes and a payload of up to this many. */
  const MAX_REQUEST_SIZE := 1024

  /** Each cause has its own name here; NotSent, Short and GaveUp are all LIBUSB_ERROR_IO to the caller. */
  datatype Status =
    | Ok | InvalidParam | NotSent | RunFailed(run: RunResult) | HaltError | TransferError(transfer: TransferStatus)
    | OutUnderflow | InOverflow | Short | GaveUp | StillWaiting

  /** What a search through the device's packets comes to. */
  datatype Reply = Reply(status: Status, payload: seq<octet>, taken: nat)

  predicate WellFormed(packet: seq<octet>, maxResponseSize: nat) {
    16 <= |packet| <= 16 + maxResponseSize
  }

  predicate Matches(packet: seq<octet>, id: seq<octet>) {
    |packet| >= 16 && packet[..16] == id
  }

  /** The first packet with the ID among at most `tries` of them. */
  function Search(queue: seq<seq<octet>>, id: seq<octet>, maxResponseSize: nat, tries: nat): Reply
    decreases tries
  {
    if queue == [] || tries == 0 then Reply(StillWaiting, [], 0)
    else if |queue[0]| > 16 + maxResponseSize then Reply(InOverflow, [], 1)
    else if |queue[0]| < 16 then Reply(Short, [], 1)
    else if queue[0][..16] == id then Reply(Ok, queue[0][16..], 1)
    else if tries == 1 then Reply(GaveUp, [], 1)
    else var r := Search(queue[1..], id, maxResponseSize, tries - 1); r.(taken := r.taken + 1)
  }

  lemma SearchStep(packet: seq<octet>, rest: seq<seq<octet>>, id: seq<octet>, maxResponseSize: nat, tries: nat)
    requires tries > 0
    ensures Search([packet] + rest, id, maxResponseSize, tries) ==
      if |packet| > 16 + maxResponseSize then Reply(InOverflow, [], 1)
      else if |packet| < 16 then Reply(Short, [], 1)
      else if packet[..16] == id then Reply(Ok, packet[16..], 1)
      else if tries == 1 then Reply(GaveUp, [], 1)
      else var r := Search(rest, id, maxResponseSize, tries - 1); r.(taken := r.taken + 1)
  {
    assert ([packet] + rest)[1..] == rest;
  }

  /** After stale but well-formed packets, the first one with the ID is the reply. */
  lemma {:induction false} SearchFindsFirstMatch(
      queue: seq<seq<octet>>, id: seq<octet>, maxResponseSize: nat, tries: nat, k: nat)
    requires k < |queue| && k < tries && Matches(queue[k], id)
    requires forall j :: 0 <= j <= k ==> WellFormed(queue[j], maxResponseSize)
    requires forall j :: 0 <= j < k ==> !Matches(queue[j], id)
    ensures Search(queue, id, maxResponseSize, tries) == Reply(Ok, queue[k][16..], k + 1)
    decreases tries
  {
    assert WellFormed(queue[0], maxResponseSize);
    if k > 0 {
      assert !Matches(queue[0], id);
      forall j | 0 <= j <= k - 1 ensures queue[1..][j] == queue[j + 1] {
      }
      SearchFindsFirstMatch(queue[1..], id, maxResponseSize, tries - 1, k - 1);
    }
  }

  /** It gives up on well-formed packets exactly when none of the first `tries` has the ID. */
  lemma {:induction false} SearchGivesUp(queue: seq<seq<octet>>, id: seq<octet>, maxResponseSize: nat, tries: nat)
    requires 0 < tries <= |queue|
    requires forall j :: 0 <= j < tries ==> WellFormed(queue[j], maxResponseSize)
    ensures Search(queue, id, maxResponseSize, tries) == Reply(GaveUp, [], tries)
       <==> forall j :: 0 <= j < tries ==> !Matches(queue[j], id)
    decreases tries
  {
    assert WellFormed(queue[0], maxResponseSize);
    if tries > 1 {
      SearchGivesUp(queue[1..], id, maxResponseSize, tries - 1);
      if forall j :: 0 <= j < tries - 1 ==> !Matches(queue[1..][j], id) {
        forall j | 0 < j < tries ensures !Matches(queue[j], id) {
          assert queue[j] == queue[1..][j - 1];
        }
      } else {
        var j :| 0 <= j < tries - 1 && Matches(queue[1..][j], id);
        assert Matches(queue[j + 1], id);
      }
    }
  }

  lemma Associate(a: seq<octet>, b: seq<octet>, c: seq<octet>)
    ensures a + (b + c) == a + b + c
  {
  }

  /** The request ID: the low bytes of 16 draws. */
  method DrawId(fifo: Fifo) returns (id: seq<octet>)
    modifies fifo`prngState
    ensures id == Xorshift.Bytes(old(fifo.prngState), 16)
    ensures fifo.prngState == Xorshift.Draw(old(fifo.prngState), 16)
  {
    hide Xorshift.Next, Xorshift.LowByte, Xorshift.Draw, Xorshift.Bytes;
    id := [];
    for i := 0 to 16
      invariant id + Xorshift.Bytes(fifo.prngState, 16 - i) == Xorshift.Bytes(old(fifo.prngState), 16)
      invariant Xorshift.Draw(fifo.prngState, 16 - i) == Xorshift.Draw(old(fifo.prngState), 16)
    {
      Xorshift.OneDraw(fifo.prngState, 16 - i);
      fifo.prngState := Xorshift.Next(fifo.prngState);
      var low := [Xorshift.LowByte(fifo.prngState)];
      Associate(id, low, Xorshift.Bytes(fifo.prngState, 15 - i));
      id := id + low;
    }
    Xorshift.NoDraw(fifo.prngState);
  }

  lemma NextIdDiffers(state: word)
    requires state != 0
    ensures Xorshift.Bytes(Xorshift.Draw(state, 16), 16) != Xorshift.Bytes(state, 16)
  {
    hide Xorshift.Draw, Xorshift.Bytes;
    Xorshift.LaterIdsDiffer(state, 4);
    assert Xorshift.Integers.Pow2(4) == 16;
  }

  /** A late reply to a request is stale for the next one. */
  lemma LateReplyIsStale(state: word, packet: seq<octet>)
    requires state != 0 && Matches(packet, Xorshift.Bytes(state, 16))
    ensures !Matches(packet, Xorshift.Bytes(Xorshift.Draw(state, 16), 16))
  {
    hide Xorshift.Draw, Xorshift.Bytes;
    NextIdDiffers(state);
  }

  /**
   * libhoth_usb_fifo_send_request. The ID of the next request will be another one, if the generator was seeded
   * as it must be.
   */
  method SendRequest(fifo: Fifo, request: seq<octet>) returns (status: Status)
    modifies fifo`outBuffer, fifo`prngState, fifo.outTransfer`length
    ensures status == if |request| > 1024 then InvalidParam else Ok
    ensures status == Ok ==>
      && fifo.outBuffer == Xorshift.Bytes(old(fifo.prngState), 16) + request
      && fifo.prngState == Xorshift.Draw(old(fifo.prngState), 16)
      && fifo.outTransfer.length == 16 + |request|
    ensures status != Ok ==>
      fifo.outTransfer.length == old(fifo.outTransfer.length) && fifo.prngState == old(fifo.prngState)
    ensures old(fifo.prngState) != 0 ==> fifo.prngState != 0
    ensures old(fifo.prngState) != 0 && status == Ok ==> Xorshift.Bytes(fifo.prngState, 16) != fifo.outBuffer[..16]
  {
    if |request| > MAX_REQUEST_SIZE {
      return InvalidParam;
    }
    hide Xorshift.Draw, Xorshift.Bytes;
    var id := DrawId(fifo);
    fifo.outBuffer := id + request;
    fifo.outTransfer.length := 16 + |request|;
    if old(fifo.prngState) != 0 {
      Xorshift.DrawNonZero(old(fifo.prngState), 16);
      NextIdDiffers(old(fifo.prngState));
      assert fifo.outBuffer[..16] == id;
    }
    status := Ok;
  }

  /** Every status that is not about packets is about something that has happened since the state `old`. */
  twostate predicate Explained(fifo: Fifo, status: Status, patience: nat)
    reads fifo, fifo.inTransfer, fifo.outTransfer
  {
    match status
    case StillWaiting =>
      fifo.allCompleted == 0 && fifo.polls >= old(fifo.polls) + patience
    case RunFailed(run) =>
      && fifo.haltErrors == old(fifo.haltErrors)
      && if fifo.refusals != old(fifo.refusals) then run == SubmitError
         else run == EventError && fifo.loopErrors != old(fifo.loopErrors)
    case _ =>
      && fifo.refusals == old(fifo.refusals) && fifo.loopErrors == old(fifo.loopErrors)
      && (fifo.haltErrors != old(fifo.haltErrors) <==> status == HaltError)
      && (status == HaltError ==> fifo.stalls > old(fifo.stalls))
  }

  /**
   * The first exchange of libhoth_usb_fifo_receive_response, with its retry after a stall. `lost` packets
   * came in before the one it holds: none without a stall, and never more than one.
   */
  method Exchange(fifo: Fifo, patience: nat) returns (status: Status, ghost lost: nat)
    requires fifo.Idle()
    modifies fifo`inCompleted, fifo`outCompleted, fifo`allCompleted, fifo`inBuffer, fifo`queue
    modifies fifo`refusals, fifo`polls, fifo`loopErrors, fifo`stalls, fifo`haltErrors
    modifies fifo`haltedSubmissions
    modifies fifo.inTransfer, fifo.outTransfer
    ensures fifo.outTransfer.length == old(fifo.outTransfer.length)
    ensures status.RunFailed? || status in {Ok, HaltError, StillWaiting}
    ensures Explained(fifo, status, patience) && old(fifo.polls) <= fifo.polls
    ensures status != StillWaiting ==> fifo.Idle()
    ensures lost <= 1 && (lost == 1 ==> fifo.stalls > old(fifo.stalls))
    ensures !old(fifo.inTransfer.halted) && !old(fifo.outTransfer.halted) ==>
      && fifo.haltedSubmissions == old(fifo.haltedSubmissions)
      && (status == Ok && fifo.inTransfer.halted ==> fifo.inTransfer.status == Stall)
    ensures status == Ok && (fifo.inTransfer.status == Stall || fifo.outTransfer.status == Stall) ==>
      fifo.stalls >= old(fifo.stalls) + 2
    ensures status == Ok && fifo.inTransfer.status == Completed ==>
      && lost < |old(fifo.queue)| && old(fifo.queue)[lost..] == [fifo.inBuffer] + fifo.queue
      && fifo.inTransfer.actualLength == |fifo.inBuffer|
  {
    lost := 0;
    var r := fifo.RunTransfers(true, true, patience);
    if r.Waiting? {
      return StillWaiting, 0;
    }
    if r != Finished {
      return RunFailed(r), 0;
    }
    if fifo.inTransfer.status == Stall || fifo.outTransfer.status == Stall {
      var cleared := fifo.ClearHalt(fifo.inTransfer);
      if !cleared {
        return HaltError, 0;
      }
      cleared := fifo.ClearHalt(fifo.outTransfer);
      if !cleared {
        return HaltError, 0;
      }
      lost := |old(fifo.queue)| - |fifo.queue|;
      r := fifo.RunTransfers(true, true, patience);
      if r.Waiting? {
        return StillWaiting, lost;
      }
      if r != Finished {
        return RunFailed(r), lost;
      }
    }
    status := Ok;
  }

  /** Statuses that the packets of the device alone decide. */
  predicate Decided(s: Status) {
    s in {Ok, InOverflow, Short, GaveUp}
  }

  /** Another IN transfer. */
  method FetchNext(fifo: Fifo, patience: nat) returns (status: Status)
    requires fifo.Idle()
    modifies fifo`inCompleted, fifo`outCompleted, fifo`allCompleted, fifo`inBuffer, fifo`queue
    modifies fifo`refusals, fifo`polls, fifo`loopErrors, fifo`stalls
    modifies fifo`haltedSubmissions
    modifies fifo.inTransfer, fifo.outTransfer
    ensures fifo.outTransfer.length == old(fifo.outTransfer.length)
    ensures fifo.outTransfer.status == old(fifo.outTransfer.status)
    ensures fifo.outTransfer.actualLength == old(fifo.outTransfer.actualLength)
    ensures status.RunFailed? || status in {Ok, StillWaiting}
    ensures Explained(fifo, status, patience)
    ensures old(fifo.polls) <= fifo.polls && old(fifo.stalls) <= fifo.stalls
    ensures status != StillWaiting ==> fifo.Idle()
    ensures status == Ok && fifo.inTransfer.status == Completed ==>
      && old(fifo.queue) == [fifo.inBuffer] + fifo.queue && fifo.inTransfer.actualLength == |fifo.inBuffer|
    ensures !old(fifo.inTransfer.halted) ==>
      && fifo.haltedSubmissions == old(fifo.haltedSubmissions)
      && (fifo.inTransfer.halted ==> fifo.inTransfer.status == Stall)
  {
    var r := fifo.RunTransfers(false, true, patience);
    status := if r.Waiting? then StillWaiting else if r != Finished then RunFailed(r) else Ok;
  }

  /** The loop of libhoth_usb_fifo_receive_response: the IN transfer has just finished. */
  method FindReply(fifo: Fifo, maxResponseSize: nat, patience: nat) returns (status: Status, response: seq<octet>)
    requires fifo.Idle() && |fifo.outBuffer| >= 16
    requires fifo.inTransfer.actualLength == |fifo.inBuffer| || fifo.inTransfer.status != Completed
    modifies fifo`inCompleted, fifo`outCompleted, fifo`allCompleted, fifo`inBuffer, fifo`queue
    modifies fifo`refusals, fifo`polls, fifo`loopErrors, fifo`stalls
    modifies fifo`haltedSubmissions
    modifies fifo.inTransfer, fifo.outTransfer
    ensures fifo.outTransfer.length == old(fifo.outTransfer.length)
    ensures fifo.outTransfer.status == old(fifo.outTransfer.status)
    ensures fifo.outTransfer.actualLength == old(fifo.outTransfer.actualLength)
    ensures Decided(status) ==>
      && old(fifo.inTransfer.status) == Completed
      && var packets := [old(fifo.inBuffer)] + old(fifo.queue);
      && var found := Search(packets, fifo.outBuffer[..16], maxResponseSize, 11);
      && found.status == status && found.payload == response
      && found.taken <= |packets| && fifo.queue == packets[found.taken..]
    ensures Decided(status) || status.TransferError? || status.RunFailed? || status == StillWaiting
    ensures status.TransferError? ==> status.transfer == fifo.inTransfer.status != Completed
    ensures Explained(fifo, status, patience) && old(fifo.stalls) <= fifo.stalls
    ensures !old(fifo.inTransfer.halted) || old(fifo.inTransfer.status) == Stall ==>
      fifo.haltedSubmissions == old(fifo.haltedSubmissions)
    ensures status != StillWaiting ==> fifo.Idle()
  {
    hide Search, Fifo.RunSoFar, Fifo.CrossCancelled;
    response := [];
    ghost var id := fifo.outBuffer[..16];
    ghost var packets := [fifo.inBuffer] + fifo.queue;
    ghost var found := Search(packets, id, maxResponseSize, 11);
    var i := 0;
    while true
      invariant fifo.Idle() && i <= 10 && response == []
      invariant fifo.outTransfer.length == old(fifo.outTransfer.length)
      invariant fifo.outTransfer.status == old(fifo.outTransfer.status)
      invariant fifo.outTransfer.actualLength == old(fifo.outTransfer.actualLength)
      invariant !old(fifo.inTransfer.halted) || old(fifo.inTransfer.status) == Stall ==>
        && fifo.haltedSubmissions == old(fifo.haltedSubmissions)
        && (fifo.inTransfer.halted ==> fifo.inTransfer.status == Stall)
      invariant fifo.refusals == old(fifo.refusals) && fifo.loopErrors == old(fifo.loopErrors)
      invariant old(fifo.polls) <= fifo.polls && old(fifo.stalls) <= fifo.stalls
      invariant fifo.inTransfer.actualLength == |fifo.inBuffer| || fifo.inTransfer.status != Completed
      invariant i == 0 ==> fifo.inTransfer.status == old(fifo.inTransfer.status)
      invariant i > 0 ==> old(fifo.inTransfer.status) == Completed
      invariant fifo.inTransfer.status == Completed ==>
        && i < |packets| && packets[i..] == [fifo.inBuffer] + fifo.queue
        && var rest := Search(packets[i..], id, maxResponseSize, 11 - i);
        && found == rest.(taken := rest.taken + i)
      decreases 11 - i
    {
      if fifo.inTransfer.status != Completed {
        return TransferError(fifo.inTransfer.status), [];
      }
      SearchStep(fifo.inBuffer, fifo.queue, id, maxResponseSize, 11 - i);
      if fifo.inTransfer.actualLength > 16 + maxResponseSize {
        return InOverflow, [];
      }
      if fifo.inTransfer.actualLength < 16 {
        return Short, [];
      }
      if fifo.outBuffer[..16] == fifo.inBuffer[..16] {
        return Ok, fifo.inBuffer[16..];
      }
      if i >= 10 {
        return GaveUp, [];
      }
      assert packets[i..][1..] == packets[i + 1..] == fifo.queue;
      status := FetchNext(fifo, patience);
      if status != Ok {
        return;
      }
      i := i + 1;
    }
  }

  /**
   * libhoth_usb_fifo_receive_response. Unless a transfer fails, the packets that the device has ready decide
   * the outcome, and those up to the one that decided it are gone; a stall at the start can lose one packet.
   */
  method ReceiveResponse(fifo: Fifo, maxResponseSize: nat, patience: nat)
    returns (status: Status, response: seq<octet>, ghost lost: nat)
    requires fifo.Idle() && (fifo.outTransfer.length != 0 ==> |fifo.outBuffer| >= 16)
    modifies fifo`inCompleted, fifo`outCompleted, fifo`allCompleted, fifo`inBuffer, fifo`queue
    modifies fifo`refusals, fifo`polls, fifo`loopErrors, fifo`stalls, fifo`haltErrors
    modifies fifo`haltedSubmissions
    modifies fifo.inTransfer, fifo.outTransfer
    ensures status == InvalidParam <==> maxResponseSize > 1024
    ensures status == NotSent <==> maxResponseSize <= 1024 && old(fifo.outTransfer.length) == 0
    ensures lost <= 1 && (lost == 1 ==> fifo.stalls > old(fifo.stalls))
    ensures Decided(status) ==>
      && fifo.outTransfer.status == Completed && fifo.outTransfer.actualLength == old(fifo.outTransfer.length)
      && lost <= |old(fifo.queue)|
      && var packets := old(fifo.queue)[lost..];
      && var found := Search(packets, fifo.outBuffer[..16], maxResponseSize, 11);
      && found.status == status && found.payload == response
      && found.taken <= |packets| && fifo.queue == packets[found.taken..]
    ensures status.TransferError? ==>
      status.transfer == if fifo.outTransfer.status != Completed then fifo.outTransfer.status
                         else fifo.inTransfer.status
    ensures status.TransferError? ==> status.transfer != Completed
    ensures status == TransferError(Stall) && fifo.outTransfer.status == Stall ==>
      fifo.stalls >= old(fifo.stalls) + 2
    ensures status == OutUnderflow ==>
      fifo.outTransfer.status == Completed && fifo.outTransfer.actualLength != fifo.outTransfer.length
    ensures Explained(fifo, status, patience)
    ensures !old(fifo.inTransfer.halted) && !old(fifo.outTransfer.halted) ==>
      fifo.haltedSubmissions == old(fifo.haltedSubmissions)
    ensures fifo.outTransfer.length ==
      if status in {InvalidParam, NotSent, OutUnderflow, StillWaiting} then old(fifo.outTransfer.length) else 0
    ensures status != StillWaiting ==> fifo.Idle()
  {
    hide Search, Fifo.RunSoFar, Fifo.CrossCancelled;
    response, lost := [], 0;
    if maxResponseSize > MAX_REQUEST_SIZE {
      return InvalidParam, [], 0;
    }
    if fifo.outTransfer.length == 0 {
      return NotSent, [], 0;
    }
    status, lost := Exchange(fifo, patience);
    if status == StillWaiting {
      return;
    }
    if status == Ok && fifo.outTransfer.status != Completed {
      status := TransferError(fifo.outTransfer.status);
    } else if status == Ok {
      if fifo.outTransfer.actualLength != fifo.outTransfer.length {
        status := OutUnderflow;
        return;
      }
      status, response := FindReply(fifo, maxResponseSize, patience);
      if status == StillWaiting {
        return;
      }
    }
    fifo.outTransfer.length := 0;
  }

  /**
   * A request and its response, on an interface where no failure happens: the first of the packets that the
   * device has ready with the request's ID is the reply, and the stale ones before it are gone.
   */
  method Transact(fifo: Fifo, request: seq<octet>, maxResponseSize: nat, patience: nat, ghost k: nat)
    returns (status: Status, response: seq<octet>)
    requires fifo.Idle() && |request| <= 1024 && maxResponseSize <= 1024
    requires k < |fifo.queue| && k < 11
    requires Matches(fifo.queue[k], Xorshift.Bytes(fifo.prngState, 16))
    requires forall j :: 0 <= j <= k ==> WellFormed(fifo.queue[j], maxResponseSize)
    requires forall j :: 0 <= j < k ==> !Matches(fifo.queue[j], Xorshift.Bytes(fifo.prngState, 16))
    modifies fifo, fifo.inTransfer, fifo.outTransfer
    ensures Decided(status) && fifo.stalls == old(fifo.stalls) ==>
      status == Ok && response == old(fifo.queue)[k][16..] && fifo.queue == old(fifo.queue)[k + 1..]
    ensures !Decided(status) ==>
      || (status.TransferError? && status.transfer != Completed)
      || (status == OutUnderflow && fifo.outTransfer.actualLength != 16 + |request|)
      || ((status in {StillWaiting, HaltError} || status.RunFailed?) && Explained(fifo, status, patience))
    ensures fifo.outTransfer.length == 0 || status in {OutUnderflow, StillWaiting}
  {
    hide Search, Xorshift.Bytes, Xorshift.Draw;
    var sent := SendRequest(fifo, request);
    assert fifo.outBuffer[..16] == Xorshift.Bytes(old(fifo.prngState), 16);
    ghost var lost;
    status, response, lost := ReceiveResponse(fifo, maxResponseSize, patience);
    SearchFindsFirstMatch(old(fifo.queue), Xorshift.Bytes(old(fifo.prngState), 16), maxResponseSize, 11, k);
    assert old(fifo.queue)[0..] == old(fifo.queue);
  }
}
