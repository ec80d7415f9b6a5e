/** Installing firmware over the DFU host commands (protocol/dfu_hostcmd.c). */
module Dfu {
  import opened Bytes
  import opened OtVersion

  /** The payload of struct hoth_dfu_write_request. */
  const CHUNK_SIZE := 1000

  datatype Status = Success | DeviceError | UnexpectedResponse | BadBundle | SecurityVersionTooLow
                  | BootSlotWrong | Mismatch(what: Completion)

  /** A chip that takes DFU sessions, as the host sees it. */
  class DfuDevice {
    var versions: Versions
    var session: seq<byte>
    var nonce: int
    ghost var ties: seq<bool>    // one for each update it has done
    ghost var writes: nat        // how many chunks it has been sent
    ghost var faults: nat        // how often the chip, the transport or the host's random source has failed

    constructor (versions: Versions)
      ensures this.versions == versions && ties == [] && faults == 0
    {
      this.versions := versions;
      session, nonce, ties, faults := [], 0, [], 0;
    }

    method Fault() returns (fault: bool)
      modifies this`faults
      ensures fault <==> faults != old(faults)
      ensures old(faults) <= faults
    {
      fault := *;
      faults := faults + if fault then 1 else 0;
    }

    /** HOTH_OPENTITAN_GET_VERSION */
    method GetVersion() returns (status: Status, v: Versions)
      modifies this`faults
      ensures status in {Success, DeviceError} && (status.DeviceError? <==> faults != old(faults))
      ensures old(faults) <= faults
      ensures status == Success ==> v == versions
    {
      var fault := Fault();
      status, v := if fault then DeviceError else Success, versions;
    }

    /** HOTH_CMD_DFU_WRITE: a new session, or the next chunk of the session with the same nonce. */
    method Write(nonce: int, newSession: bool, chunk: seq<byte>) returns (status: Status, responseLen: nat)
      modifies this`session, this`nonce, this`faults, this`writes
      ensures writes == old(writes) + 1
      ensures status in {Success, DeviceError} && old(faults) <= faults
      ensures |chunk| > MAILBOX_SIZE - 8 - 16 ==> status == DeviceError
      ensures (newSession || nonce == old(this.nonce)) && |chunk| <= MAILBOX_SIZE - 8 - 16 ==>
        (status == Success && responseLen == 0 <==> faults == old(faults))
      ensures status == Success ==>
        this.nonce == nonce && session == (if newSession then [] else old(session)) + chunk
    {
      writes := writes + 1;
      var fault := Fault();
      var longReply := Fault();
      responseLen := 0;
      if longReply {
        responseLen :| responseLen > 0;
      }
      if fault || |chunk| > MAILBOX_SIZE - 8 - 16 || (!newSession && nonce != this.nonce) {
        return DeviceError, responseLen;
      }
      session := (if newSession then [] else session) + chunk;
      this.nonce := nonce;
      status := Success;
    }

    /** HOTH_CMD_DFU_COMPLETE: the chip restarts, so even a success may be reported as an error. */
    method Complete(nonce: int) returns (status: Status)
      modifies this`versions, this`ties, this`faults
      ensures old(faults) <= faults
      ensures ties == old(ties) ==> versions == old(versions)
      ensures ties != old(ties) ==>
        && ExtractBundle(session).Some?
        && |ties| == |old(ties)| + 1 && ties[..|old(ties)|] == old(ties)
        && var bundle := ExtractBundle(session).value;
        && versions == Updated(old(versions), bundle.0, bundle.1, ties[|old(ties)|])
      ensures faults == old(faults) && nonce == this.nonce && ExtractBundle(session).Some? ==> ties != old(ties)
    {
      hide Updated, ExtractBundle;
      var fault := Fault();
      status := *;
      if fault || nonce != this.nonce {
        return;
      }
      match ExtractBundle(session)
      case None =>
      case Some((romExt, app)) =>
        var tie: bool := *;
        versions := Updated(versions, romExt, app, tie);
        ties := ties + [tie];
    }

    /** libhoth_device_reconnect */
    method Reconnect() returns (status: Status)
      modifies this`faults
      ensures status in {Success, DeviceError} && (status.DeviceError? <==> faults != old(faults))
      ensures old(faults) <= faults
    {
      var fault := Fault();
      status := if fault then DeviceError else Success;
    }
  }

  /** generate_random_nonce */
  method GenerateNonce(dev: DfuDevice) returns (status: Status, nonce: int)
    modifies dev`faults
    ensures status in {Success, DeviceError} && (status.DeviceError? <==> dev.faults != old(dev.faults))
    ensures old(dev.faults) <= dev.faults
  {
    nonce := *;
    var fault := dev.Fault();
    status := if fault then DeviceError else Success;
  }

  /** libhoth_dfu_update: at most one update, of exactly the image, and without a fault just that. */
  method Update(dev: DfuDevice, image: seq<byte>) returns (status: Status)
    modifies dev
    ensures dev.ties == old(dev.ties) ==> dev.versions == old(dev.versions)
    ensures dev.ties != old(dev.ties) && image != [] ==>
      && ExtractBundle(image).Some?
      && |dev.ties| == |old(dev.ties)| + 1 && dev.ties[..|old(dev.ties)|] == old(dev.ties)
      && var bundle := ExtractBundle(image).value;
      && dev.versions == Updated(old(dev.versions), bundle.0, bundle.1, dev.ties[|old(dev.ties)|])
    ensures dev.faults == old(dev.faults) && image != [] && ExtractBundle(image).Some? ==> dev.ties != old(dev.ties)
    ensures dev.faults == old(dev.faults) ==> status == Success
    ensures status == Success ==> |image| <= 1000 * (dev.writes - old(dev.writes)) < |image| + 1000
    ensures status in {Success, DeviceError, UnexpectedResponse} && old(dev.faults) <= dev.faults
    ensures image != [] ==> dev.versions.minSecurity == old(dev.versions.minSecurity)
  {
    assert forall bundle: (Version, Version), tie: bool ::
      Updated(dev.versions, bundle.0, bundle.1, tie).minSecurity == dev.versions.minSecurity;
    hide Updated;
    var nonce;
    status, nonce := GenerateNonce(dev);
    if status != Success {
      return;
    }
    var bytesSent := 0;
    while bytesSent < |image|
      invariant bytesSent <= |image| && dev.faults == old(dev.faults)
      invariant
        var sent := 1000 * (dev.writes - old(dev.writes));
        bytesSent <= sent < bytesSent + 1000 && (bytesSent < |image| ==> bytesSent == sent)
      invariant bytesSent > 0 ==> dev.nonce == nonce && dev.session == image[..bytesSent]
      invariant dev.versions == old(dev.versions) && dev.ties == old(dev.ties)
    {
      var chunkLen := Min(CHUNK_SIZE, |image| - bytesSent);
      var responseLen;
      status, responseLen := dev.Write(nonce, bytesSent == 0, image[bytesSent..bytesSent + chunkLen]);
      if status != Success {
        return;
      }
      if responseLen != 0 {
        return UnexpectedResponse;
      }
      bytesSent := bytesSent + chunkLen;
    }
    assert image[..|image|] == image;
    var _ := dev.Complete(nonce);  // the error is only printed
    status := dev.Reconnect();
  }

  /** What an installation reports that needs no fault. */
  function Verdict(v: Versions, romExt: Version, app: Version): Status {
    if app.security < v.minSecurity then SecurityVersionTooLow
    else if UpdatesAsked(v, romExt, app) == 0 && !HasBundle(v, romExt, app) then Mismatch(RomExtMismatch)
    else Success
  }

  /** The checks that the code makes, in version numbers. */
  lemma Numbers(v: Versions, romExt: Version, app: Version)
    ensures UpdateCount(v, romExt, app) == UpdatesAsked(v, romExt, app)
    ensures UpdateComplete(v, romExt, app) ==
      if HasBundle(v, romExt, app) then Complete
      else if IsApp(v.app.slotA, app) && IsApp(v.app.slotB, app) then RomExtMismatch else AppMismatch
    ensures HasBundle(v, romExt, app) <==> UpdateCount(v, romExt, app) == 0 && !StagedTooNew(v, romExt, app)
    ensures UpdateCount(v, romExt, app) == 0 && !HasBundle(v, romExt, app) ==>
      UpdateComplete(v, romExt, app) == RomExtMismatch
  {
    CountInNumbers(v, romExt, app);
    CompletionInNumbers(v, romExt, app);
    CompleteWhenCounted(v, romExt, app);
  }

  lemma NoMoreAsked(v: Versions, romExt: Version, app: Version)
    ensures HasBundle(v, romExt, app) ==> UpdatesAsked(v, romExt, app) == 0
  {
  }

  /**
   * libhoth_dfu_install_firmware. Success means that the device holds the bundle, whatever went wrong on the
   * way. Without a fault the device is updated as often as was counted, and the only errors are a security
   * version that is too low and a staged ROM_EXT that is too new; neither is updated at all.
   */
  method Install(dev: DfuDevice, image: seq<byte>) returns (status: Status)
    modifies dev
    ensures status == BadBundle <==> ExtractBundle(image).None?
    ensures status == BadBundle ==>
      dev.versions == old(dev.versions) && dev.ties == old(dev.ties) && dev.faults == old(dev.faults)
    ensures dev.versions.minSecurity == old(dev.versions.minSecurity) && old(dev.faults) <= dev.faults
    ensures ExtractBundle(image).Some? ==>
      var (romExt, app) := ExtractBundle(image).value;
      && (status == Success ==>
           HasBundle(dev.versions, romExt, app) && app.security >= dev.versions.minSecurity)
      && (status == SecurityVersionTooLow ==>
           app.security < dev.versions.minSecurity && dev.versions == old(dev.versions) && dev.ties == old(dev.ties))
      && (status == BootSlotWrong ==> !RunsBundle(dev.versions, romExt, app))
      && (status.Mismatch? ==> !HasBundle(dev.versions, romExt, app))
      && (status == Mismatch(AppMismatch) ==>
           !IsApp(dev.versions.app.slotA, app) || !IsApp(dev.versions.app.slotB, app))
      && (status == Mismatch(RomExtMismatch) ==>
           IsApp(dev.versions.app.slotA, app) && IsApp(dev.versions.app.slotB, app))
      && status != Mismatch(Complete)
      && (dev.faults == old(dev.faults) ==>
           && status == Verdict(old(dev.versions), romExt, app)
           && |dev.ties| == |old(dev.ties)| +
                if status == Success then UpdatesAsked(old(dev.versions), romExt, app) else 0)
  {
    var bundle := ExtractBundle(image);
    if bundle.None? {
      return BadBundle;
    }
    assert image != [];
    hide ExtractBundle;
    var (romExt, app) := bundle.value;
    var v;
    status, v := dev.GetVersion();
    if status != Success {
      return;
    }
    if app.security < v.minSecurity {
      return SecurityVersionTooLow;
    }
    var count := UpdateCount(v, romExt, app);
    CountRange(v, romExt, app);
    Numbers(v, romExt, app);
    hide IsApp, HasBundle, RunsBundle, UpdatesAsked;
    for i := 0 to count
      invariant v == dev.versions && status == Success && old(dev.faults) <= dev.faults
      invariant dev.faults == old(dev.faults) ==> |dev.ties| == |old(dev.ties)| + i
      invariant dev.versions.minSecurity == old(dev.versions.minSecurity)
      invariant i == 0 ==> dev.versions == old(dev.versions)
      invariant dev.faults == old(dev.faults) && i > 0 ==>
        UpdateCount(dev.versions, romExt, app) == count - i && !StagedTooNew(dev.versions, romExt, app)
    {
      hide StagedTooNew, UpdateSuccessful, UpdateComplete;
      ghost var before, ties, faults := dev.versions, dev.ties, dev.faults;
      status := Update(dev, image);
      if status != Success {
        return;
      }
      if dev.faults == faults {
        OneUpdate(before, romExt, app, dev.ties[|ties|]);
        CountRange(before, romExt, app);
      }
      status, v := dev.GetVersion();
      if status != Success {
        return;
      }
      SuccessInNumbers(v, romExt, app);
      if !UpdateSuccessful(v, romExt, app) {
        return BootSlotWrong;
      }
    }
    Numbers(v, romExt, app);
    var done := UpdateComplete(v, romExt, app);
    if done != Complete {
      return Mismatch(done);
    }
    status := Success;
  }

  /** Installing again what was installed does no further update and succeeds, unless there is a fault. */
  method InstallTwice(dev: DfuDevice, image: seq<byte>) returns (first: Status, second: Status)
    modifies dev
    ensures first == Success && dev.faults == old(dev.faults) ==>
      && second == Success && ExtractBundle(image).Some?
      && var (romExt, app) := ExtractBundle(image).value;
      |dev.ties| == |old(dev.ties)| + UpdatesAsked(old(dev.versions), romExt, app)
  {
    hide ExtractBundle, HasBundle, UpdatesAsked, RunsBundle;
    first := Install(dev, image);
    if first == Success {
      var (romExt, app) := ExtractBundle(image).value;
      NoMoreAsked(dev.versions, romExt, app);
    }
    second := Install(dev, image);
  }
}
