/** Running an IN and an OUT transfer side by side on libusb's event loop (transports/libhoth_usb_fifo.c). */
module UsbTransfers {
  import opened Words

  datatype TransferStatus = Completed | Failed | TimedOut | Cancelled | Stall | NoDevice | Overflow

  /** Neither completed nor cancelled. */
  predicate Broken(s: TransferStatus) {
    s != Completed && s != Cancelled
  }

  lemma BrokenStatuses(s: TransferStatus)
    ensures Broken(s) <==> s in {Failed, TimedOut, Stall, NoDevice, Overflow}
  {
  }

  /** What a run of transfers returns; `Waiting` stands for an event loop that has not ended yet. */
  datatype RunResult = Finished | SubmitError | EventError | Waiting(draining: bool)

  /** `struct libusb_transfer`; what is below the line is libusb's own. */
  class Transfer {
    var length: nat
    var actualLength: nat
    var status: TransferStatus

    var inFlight: bool
    var cancelRequested: bool
    ghost var reported: bool    // the callback has run for it since it was last submitted
    ghost var halted: bool      // a stall halts the endpoint until the halt is cleared

    constructor ()
      ensures !inFlight && !reported && !halted && length == 0
    {
      length, actualLength, status := 0, 0, Completed;
      inFlight, cancelRequested, reported, halted := false, false, false, false;
    }

    /** libusb takes the transfer out of flight. */
    method Finish(status: TransferStatus, actualLength: nat)
      modifies this`inFlight, this`reported, this`status, this`actualLength, this`halted
      ensures !inFlight && reported && this.status == status && this.actualLength == actualLength
      ensures halted == (old(halted) || status == Stall)
    {
      inFlight, reported, this.status, this.actualLength := false, true, status, actualLength;
      halted := halted || status == Stall;
    }

    /** libusb_clear_halt */
    method ClearHalt() returns (cleared: bool)
      modifies this`halted
      ensures halted == (old(halted) && !cleared)
    {
      cleared := *;
      halted := halted && !cleared;
    }

    ghost predicate Stalled()
      reads this
    {
      !inFlight && reported && status == Stall
    }

    /** libusb_cancel_transfer: asynchronous, and an error when there is nothing to cancel. */
    method Cancel()
      modifies this`cancelRequested
      ensures cancelRequested == (old(cancelRequested) || inFlight)
    {
      cancelRequested := cancelRequested || inFlight;
    }
  }

  /** `struct libhoth_usb_fifo`: its two transfers, the flags, the buffers and the generator. */
  class Fifo {
    const inTransfer: Transfer
    const outTransfer: Transfer
    var allCompleted: int
    var inCompleted: bool
    var outCompleted: bool
    var inBuffer: seq<octet>
    var outBuffer: seq<octet>
    var prngState: word
    var queue: seq<seq<octet>>    // the packets that the device has for the host

    // What has happened to the host so far: submissions refused, calls of the event loop and how many of
    // them failed, transfers that ended in a stall, halts that could not be cleared, and submissions to an
    // endpoint that was still halted.
    ghost var refusals: nat
    ghost var polls: nat
    ghost var loopErrors: nat
    ghost var stalls: nat
    ghost var haltErrors: nat
    ghost var haltedSubmissions: nat

    constructor (seed: word, queue: seq<seq<octet>>)
      ensures Idle() && prngState == seed && this.queue == queue && outTransfer.length == 0
      ensures fresh(inTransfer) && fresh(outTransfer)
      ensures !inTransfer.halted && !outTransfer.halted
    {
      inTransfer := new Transfer();
      outTransfer := new Transfer();
      allCompleted, inCompleted, outCompleted := 1, true, true;
      inBuffer, outBuffer, prngState, this.queue := [], [], seed, queue;
    }

    /** libusb_submit_transfer */
    method Submit(transfer: Transfer) returns (accepted: bool)
      requires !transfer.inFlight
      modifies transfer`inFlight, transfer`cancelRequested, transfer`reported, this`refusals, this`haltedSubmissions
      ensures haltedSubmissions == old(haltedSubmissions) + if transfer.halted then 1 else 0
      ensures accepted <==> refusals == old(refusals)
      ensures accepted ==> transfer.inFlight && !transfer.reported && !transfer.cancelRequested
      ensures !accepted ==> !transfer.inFlight && transfer.reported == old(transfer.reported)
    {
      haltedSubmissions := haltedSubmissions + if transfer.halted then 1 else 0;
      accepted := *;
      if accepted {
        transfer.inFlight, transfer.cancelRequested, transfer.reported := true, false, false;
      } else {
        refusals := refusals + 1;
      }
    }

    /** libusb_clear_halt, for the endpoint of a transfer */
    method ClearHalt(transfer: Transfer) returns (cleared: bool)
      modifies this`haltErrors, transfer`halted
      ensures cleared <==> haltErrors == old(haltErrors)
      ensures old(haltErrors) <= haltErrors
      ensures transfer.halted == (old(transfer.halted) && !cleared)
    {
      cleared := transfer.ClearHalt();
      haltErrors := haltErrors + if cleared then 0 else 1;
    }

    /** The flags say which transfers are in flight, and the combined flag agrees with them. */
    ghost predicate InStep()
      reads this, inTransfer, outTransfer
    {
      && inTransfer != outTransfer
      && inCompleted == !inTransfer.inFlight && outCompleted == !outTransfer.inFlight
      && allCompleted == if inCompleted && outCompleted then 1 else 0
    }

    /** A transfer that broke leaves the other finished or about to be cancelled. */
    ghost predicate CrossCancelled()
      reads this, inTransfer, outTransfer
    {
      && (inTransfer.reported && Broken(inTransfer.status) ==> !outTransfer.inFlight || outTransfer.cancelRequested)
      && (outTransfer.reported && Broken(outTransfer.status) ==> !inTransfer.inFlight || inTransfer.cancelRequested)
    }

    ghost predicate Idle()
      reads this, inTransfer, outTransfer
    {
      InStep() && !inTransfer.inFlight && !outTransfer.inFlight
    }

    /** fifo_transfer_callback, for a transfer that libusb has just taken out of flight */
    method Callback(transfer: Transfer)
      requires inTransfer != outTransfer && transfer in {inTransfer, outTransfer}
      requires !transfer.inFlight && transfer.reported && allCompleted == 0
      requires inCompleted == (!inTransfer.inFlight && transfer != inTransfer)
      requires outCompleted == (!outTransfer.inFlight && transfer != outTransfer)
      requires inTransfer.reported && Broken(inTransfer.status) && transfer != inTransfer ==>
        !outTransfer.inFlight || outTransfer.cancelRequested
      requires outTransfer.reported && Broken(outTransfer.status) && transfer != outTransfer ==>
        !inTransfer.inFlight || inTransfer.cancelRequested
      modifies this`inCompleted, this`outCompleted, this`allCompleted
      modifies inTransfer`cancelRequested, outTransfer`cancelRequested
      ensures InStep() && CrossCancelled()
      ensures inTransfer.cancelRequested == (old(inTransfer.cancelRequested) ||
        (transfer == outTransfer && Broken(outTransfer.status) && inTransfer.inFlight))
      ensures outTransfer.cancelRequested == (old(outTransfer.cancelRequested) ||
        (transfer == inTransfer && Broken(inTransfer.status) && outTransfer.inFlight))
    {
      if transfer == inTransfer {
        inCompleted := true;
        if transfer.status != Completed && transfer.status != Cancelled && !outCompleted {
          outTransfer.Cancel();
        }
      }
      if transfer == outTransfer {
        outCompleted := true;
        if transfer.status != Completed && transfer.status != Cancelled && !inCompleted {
          inTransfer.Cancel();
        }
      }
      if inCompleted && outCompleted {
        allCompleted := 1;
      }
    }

    /** What any number of callbacks can have done to the transfers since the state `old`. */
    twostate predicate Progress()
      reads this, inTransfer, outTransfer
    {
      && (inTransfer.inFlight ==> old(inTransfer.inFlight) && inTransfer.reported == old(inTransfer.reported))
      && (outTransfer.inFlight ==> old(outTransfer.inFlight) && outTransfer.reported == old(outTransfer.reported))
      && (old(inTransfer.inFlight) && !inTransfer.inFlight ==> inTransfer.reported)
      && (old(outTransfer.inFlight) && !outTransfer.inFlight ==> outTransfer.reported)
      && (old(inTransfer.cancelRequested) ==> inTransfer.cancelRequested)
      && (old(outTransfer.cancelRequested) ==> outTransfer.cancelRequested)
      && (old(inTransfer.inFlight) == inTransfer.inFlight ==>
           inTransfer.reported == old(inTransfer.reported) && queue == old(queue) && inBuffer == old(inBuffer)
           && inTransfer.status == old(inTransfer.status) && inTransfer.actualLength == old(inTransfer.actualLength))
      && (old(outTransfer.inFlight) == outTransfer.inFlight ==>
           outTransfer.reported == old(outTransfer.reported) && outTransfer.status == old(outTransfer.status)
           && outTransfer.actualLength == old(outTransfer.actualLength))
      && inTransfer.length == old(inTransfer.length) && outTransfer.length == old(outTransfer.length)
      && (old(inTransfer.inFlight) && !inTransfer.inFlight ==> InDelivered())
      && (inTransfer.halted ==> old(inTransfer.halted) || (old(inTransfer.inFlight) && inTransfer.Stalled()))
      && (outTransfer.halted ==> old(outTransfer.halted) || (old(outTransfer.inFlight) && outTransfer.Stalled()))
      && stalls == old(stalls) + (if old(inTransfer.inFlight) && inTransfer.Stalled() then 1 else 0)
                               + (if old(outTransfer.inFlight) && outTransfer.Stalled() then 1 else 0)
    }

    /** A completed IN transfer holds the next packet of the device; any other takes none. */
    twostate predicate InDelivered()
      reads this, inTransfer
    {
      if inTransfer.status == Completed then
        && old(queue) != [] && inBuffer == old(queue)[0] && queue == old(queue)[1..]
        && inTransfer.actualLength == |inBuffer|
      else queue == old(queue) && inBuffer == old(inBuffer)
    }

    /**
     * libusb_handle_events_completed: any number of callbacks, in any order and with any statuses,
     * for transfers that are in flight.
     */
    method HandleEvents() returns (ok: bool)
      requires InStep() && CrossCancelled()
      modifies this`inCompleted, this`outCompleted, this`allCompleted, this`inBuffer, this`queue
      modifies inTransfer, outTransfer, this`stalls, this`polls, this`loopErrors
      ensures InStep() && CrossCancelled() && Progress()
      ensures polls == old(polls) + 1 && old(loopErrors) <= loopErrors
      ensures ok <==> loopErrors == old(loopErrors)
    {
      ok := *;
      polls, loopErrors := polls + 1, loopErrors + if ok then 0 else 1;
      hide Fifo.InDelivered, Fifo.CrossCancelled;
      var wantIn: bool, wantOut: bool, inFirst: bool := *, *, *;
      if wantIn && inFirst && inTransfer.inFlight {
        FinishIn();
      }
      if wantOut && outTransfer.inFlight {
        FinishOut();
      }
      if wantIn && !inFirst && inTransfer.inFlight {
        FinishIn();
      }
    }

    /** libusb finishes the IN transfer and calls back. */
    method FinishIn()
      requires InStep() && CrossCancelled() && inTransfer.inFlight
      modifies this`inCompleted, this`outCompleted, this`allCompleted, this`inBuffer, this`queue
      modifies inTransfer, outTransfer`cancelRequested, this`stalls
      ensures InStep() && CrossCancelled() && Progress() && !inTransfer.inFlight
      ensures outTransfer.inFlight == old(outTransfer.inFlight)
    {
      var status: TransferStatus := *;
      if status == Completed && queue == [] {
        status := TimedOut;
      }
      if status == Completed {
        inBuffer, queue := queue[0], queue[1..];
      }
      inTransfer.Finish(status, if status == Completed then |inBuffer| else 0);
      stalls := stalls + if status == Stall then 1 else 0;
      Callback(inTransfer);
    }

    /** libusb finishes the OUT transfer and calls back. */
    method FinishOut()
      requires InStep() && CrossCancelled() && outTransfer.inFlight
      modifies this`inCompleted, this`outCompleted, this`allCompleted
      modifies inTransfer`cancelRequested, outTransfer, this`stalls
      ensures InStep() && CrossCancelled() && Progress() && !outTransfer.inFlight
      ensures inTransfer.inFlight == old(inTransfer.inFlight)
    {
      var status: TransferStatus, sent: nat := *, *;
      outTransfer.Finish(status, sent);
      stalls := stalls + if status == Stall then 1 else 0;
      Callback(outTransfer);
    }

    /** Every transfer still in flight has been asked to stop. */
    ghost predicate Stopping()
      reads this, inTransfer, outTransfer
    {
      && (inTransfer.inFlight ==> inTransfer.cancelRequested)
      && (outTransfer.inFlight ==> outTransfer.cancelRequested)
    }

    /** What a run has done so far with the transfers that it was asked to run. */
    twostate predicate RunSoFar(out: bool, in_: bool)
      reads this, inTransfer, outTransfer
    {
      && InStep() && CrossCancelled()
      && (inTransfer.reported ==> in_ && InDelivered())
      && (!inTransfer.reported ==> queue == old(queue) && inBuffer == old(inBuffer))
      && (outTransfer.reported ==> out)
      && (!out ==> outTransfer.status == old(outTransfer.status))
      && (!out ==> outTransfer.actualLength == old(outTransfer.actualLength))
      && (inTransfer.inFlight ==> in_) && (outTransfer.inFlight ==> out)
      && (inTransfer.inFlight ==> !inTransfer.reported)
      && inTransfer.length == old(inTransfer.length) && outTransfer.length == old(outTransfer.length)
      && (inTransfer.halted ==> old(inTransfer.halted) || inTransfer.Stalled())
      && (outTransfer.halted ==> old(outTransfer.halted) || outTransfer.Stalled())
      && old(stalls) <= stalls && (stalls > old(stalls) <==> inTransfer.Stalled() || outTransfer.Stalled())
    }

    /** The submissions at the start of a run. */
    method SubmitAll(out: bool, in_: bool) returns (r: RunResult)
      requires Idle()
      modifies this`inCompleted, this`outCompleted, this`allCompleted
      modifies inTransfer, outTransfer, this`refusals, this`haltedSubmissions
      ensures RunSoFar(out, in_) && r in {Finished, SubmitError}
      ensures !(in_ && inTransfer.halted) && !(out && outTransfer.halted) ==>
        haltedSubmissions == old(haltedSubmissions)
      ensures r == SubmitError ==> !outTransfer.inFlight
      ensures r == SubmitError <==> refusals != old(refusals)
      ensures !inTransfer.reported && !outTransfer.reported
      ensures r == Finished ==> inTransfer.inFlight == in_ && outTransfer.inFlight == out
    {
      allCompleted, outCompleted, inCompleted := 1, true, true;
      inTransfer.reported, outTransfer.reported := false, false;
      r := Finished;
      if in_ {
        var accepted := Submit(inTransfer);
        if !accepted {
          return SubmitError;
        }
        allCompleted, inCompleted := 0, false;
      }
      if out {
        var accepted := Submit(outTransfer);
        if !accepted {
          return SubmitError;
        }
        allCompleted, outCompleted := 0, false;
      }
    }

    /**
     * libhoth_usb_fifo_run_transfers, for every order of completions, every status and every error of the
     * event loop. It returns only with nothing in flight. `patience` bounds the calls of the event loop;
     * when they are used up the run is still waiting, and if it is draining, then only for cancellations.
     * A refused submission is what is reported, then the first error of the event loop, then success.
     */
    method RunTransfers(out: bool, in_: bool, patience: nat) returns (r: RunResult)
      requires Idle()
      modifies this`inCompleted, this`outCompleted, this`allCompleted, this`inBuffer, this`queue
      modifies inTransfer, outTransfer, this`refusals, this`stalls, this`polls, this`loopErrors
      modifies this`haltedSubmissions
      ensures RunSoFar(out, in_)
      ensures !(in_ && old(inTransfer.halted)) && !(out && old(outTransfer.halted)) ==>
        haltedSubmissions == old(haltedSubmissions)
      ensures r == SubmitError ==> !outTransfer.reported
      ensures inTransfer.halted ==> old(inTransfer.halted) || inTransfer.status == Stall
      ensures old(polls) <= polls <= old(polls) + patience && (r.Waiting? ==> polls == old(polls) + patience)
      ensures !r.Waiting? ==> (r == SubmitError <==> refusals != old(refusals))
      ensures !r.Waiting? ==> (r == Finished <==> refusals == old(refusals) && loopErrors == old(loopErrors))
      ensures r == Waiting(false) ==> refusals == old(refusals) && loopErrors == old(loopErrors)
      ensures r == Waiting(true) ==> refusals != old(refusals) || loopErrors != old(loopErrors)
      ensures !r.Waiting? ==> Idle() && allCompleted == 1
      ensures r.Waiting? ==> allCompleted == 0
      ensures r == Waiting(true) ==> Stopping()
      ensures r == Finished ==> inTransfer.reported == in_ && outTransfer.reported == out
      ensures r == Finished && in_ ==> InDelivered()
      ensures outTransfer.length == old(outTransfer.length)
    {
      r := SubmitAll(out, in_);
      var left := patience;
      if r == Finished {
        r, left := Await(patience);
        if r.Waiting? {
          return;
        }
      }
      var waiting := CleanUp(left);
      if waiting {
        return Waiting(true);
      }
    }

    /** The first loop of libhoth_usb_fifo_run_transfers, up to the jump or fall to its clean-up. */
    method Await(patience: nat) returns (r: RunResult, left: nat)
      requires InStep() && CrossCancelled()
      modifies this`inCompleted, this`outCompleted, this`allCompleted, this`inBuffer, this`queue
      modifies inTransfer, outTransfer, this`stalls, this`polls, this`loopErrors
      ensures InStep() && CrossCancelled() && Progress()
      ensures r in {Finished, EventError, Waiting(false)}
      ensures r == Finished ==> allCompleted == 1
      ensures r == Waiting(false) ==> allCompleted == 0 && left == 0
      ensures old(polls) <= polls && polls + left == old(polls) + patience && old(loopErrors) <= loopErrors
      ensures r == EventError <==> loopErrors != old(loopErrors)
    {
      left := patience;
      while allCompleted == 0
        invariant InStep() && CrossCancelled() && Progress()
        invariant polls + left == old(polls) + patience && loopErrors == old(loopErrors)
        decreases left
      {
        if left == 0 {
          return Waiting(false), left;
        }
        left := left - 1;
        var ok := HandleEvents();
        if !ok {
          return EventError, left;
        }
      }
      inCompleted, outCompleted := true, true;
      r := Finished;
    }

    /** The clean-up of libhoth_usb_fifo_run_transfers: cancel what is in flight and wait for it. */
    method CleanUp(patience: nat) returns (waiting: bool)
      requires InStep() && CrossCancelled()
      modifies this`inCompleted, this`outCompleted, this`allCompleted, this`inBuffer, this`queue
      modifies inTransfer, outTransfer, this`stalls, this`polls, this`loopErrors
      ensures InStep() && CrossCancelled() && Stopping() && Progress()
      ensures waiting <==> allCompleted == 0
      ensures old(polls) <= polls <= old(polls) + patience && (waiting ==> polls == old(polls) + patience)
      ensures old(loopErrors) <= loopErrors
      ensures old(allCompleted) != 0 ==> loopErrors == old(loopErrors)
    {
      if !inCompleted {
        inTransfer.Cancel();
      }
      if !outCompleted {
        outTransfer.Cancel();
      }
      waiting := false;
      var left := patience;
      while allCompleted == 0
        invariant InStep() && CrossCancelled() && Stopping() && Progress()
        invariant polls + left == old(polls) + patience && old(loopErrors) <= loopErrors
        invariant old(allCompleted) != 0 ==> allCompleted != 0 && loopErrors == old(loopErrors)
        decreases left
      {
        if left == 0 {
          return true;
        }
        left := left - 1;
        var _ := HandleEvents();
      }
    }
  }
}
