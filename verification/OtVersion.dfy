/** OpenTitan firmware versions, boot slots and when an update is done (protocol/opentitan_version.c). */
module OtVersion {
  import opened Bytes

  const SLOT_A: nat := 0x5f5f4141
  const SLOT_B: nat := 0x42425f5f

  /** `struct opentitan_image_version`, without the fields that no decision looks at. */
  datatype Version = Version(major: nat, minor: nat, security: nat)

  datatype BootInfo = BootInfo(slotA: Version, slotB: Version, bootedSlot: nat)

  datatype Versions = Versions(romExt: BootInfo, app: BootInfo, minSecurity: nat)

  // ---- comparisons ----

  /** libhoth_ot_app_version_cmp_for_update: the security version does not matter for applications. */
  function AppCmp(a: Version, b: Version): int {
    if a.major != b.major then if a.major > b.major then 1 else -1
    else if a.minor != b.minor then if a.minor > b.minor then 1 else -1
    else 0
  }

  /** libhoth_ot_rom_ext_version_cmp_for_update: the security version comes first. */
  function RomExtCmp(a: Version, b: Version): int {
    if a.security != b.security then if a.security > b.security then 1 else -1
    else if a.major != b.major then if a.major > b.major then 1 else -1
    else if a.minor != b.minor then if a.minor > b.minor then 1 else -1
    else 0
  }

  // ---- slots ----

  /** bootslot_int: a code that is neither slot's counts as A. */
  function BootsB(info: BootInfo): bool {
    info.bootedSlot != SLOT_A && info.bootedSlot == SLOT_B
  }

  function Booted(info: BootInfo): Version {
    if BootsB(info) then info.slotB else info.slotA
  }

  function Staged(info: BootInfo): Version {
    if BootsB(info) then info.slotA else info.slotB
  }

  /** libhoth_ot_check_update_successful */
  predicate UpdateSuccessful(v: Versions, romExt: Version, app: Version) {
    AppCmp(Booted(v.app), app) == 0 && RomExtCmp(Booted(v.romExt), romExt) >= 0
  }

  datatype Completion = Complete | AppMismatch | RomExtMismatch

  /** libhoth_update_complete */
  function UpdateComplete(v: Versions, romExt: Version, app: Version): Completion {
    if AppCmp(Booted(v.app), app) != 0 || AppCmp(Staged(v.app), app) != 0 then AppMismatch
    else if RomExtCmp(Booted(v.romExt), romExt) < 0 || RomExtCmp(Staged(v.romExt), romExt) != 0 then RomExtMismatch
    else Complete
  }

  /** dfu_update_count */
  function UpdateCount(v: Versions, romExt: Version, app: Version): nat {
    if AppCmp(Booted(v.app), app) != 0 || RomExtCmp(Booted(v.romExt), romExt) < 0 then 2
    else if AppCmp(Staged(v.app), app) != 0 || RomExtCmp(Staged(v.romExt), romExt) < 0 then 1
    else 0
  }

  // ---- the same in terms of version numbers ----

  /** An application is the wanted one if its two version numbers are; the security version is not looked at. */
  predicate IsApp(v: Version, app: Version) {
    v.major == app.major && v.minor == app.minor
  }

  predicate IsRomExt(v: Version, romExt: Version) {
    v.security == romExt.security && v.major == romExt.major && v.minor == romExt.minor
  }

  /** Lexicographic order on security version, major and minor. */
  predicate Older(v: Version, romExt: Version) {
    || v.security < romExt.security
    || (v.security == romExt.security && v.major < romExt.major)
    || (v.security == romExt.security && v.major == romExt.major && v.minor < romExt.minor)
  }

  /** The device runs the bundle: its application, and its ROM_EXT or a newer one. Unknown slot codes mean A. */
  predicate RunsBundle(v: Versions, romExt: Version, app: Version) {
    && IsApp(if v.app.bootedSlot == 0x42425f5f then v.app.slotB else v.app.slotA, app)
    && !Older(if v.romExt.bootedSlot == 0x42425f5f then v.romExt.slotB else v.romExt.slotA, romExt)
  }

  /** It runs the bundle and has it in the slots not booted, where the ROM_EXT is exactly the bundle's. */
  predicate HasBundle(v: Versions, romExt: Version, app: Version) {
    && IsApp(v.app.slotA, app) && IsApp(v.app.slotB, app)
    && if v.romExt.bootedSlot == 0x42425f5f
       then !Older(v.romExt.slotB, romExt) && IsRomExt(v.romExt.slotA, romExt)
       else !Older(v.romExt.slotA, romExt) && IsRomExt(v.romExt.slotB, romExt)
  }

  /** How many updates are asked for: two to run the bundle, one if only the slots not booted are behind it. */
  function UpdatesAsked(v: Versions, romExt: Version, app: Version): nat {
    if !RunsBundle(v, romExt, app) then 2
    else if IsApp(v.app.slotA, app) && IsApp(v.app.slotB, app)
      && !Older(v.romExt.slotA, romExt) && !Older(v.romExt.slotB, romExt) then 0
    else 1
  }

  lemma Comparisons(a: Version, b: Version)
    ensures AppCmp(a, b) == 0 <==> IsApp(a, b)
    ensures AppCmp(a, b) > 0 <==> a.major > b.major || (a.major == b.major && a.minor > b.minor)
    ensures RomExtCmp(a, b) == 0 <==> IsRomExt(a, b)
    ensures RomExtCmp(a, b) < 0 <==> Older(a, b)
    ensures RomExtCmp(a, b) > 0 <==> Older(b, a)
  {
  }

  /** The check after an update. */
  lemma SuccessInNumbers(v: Versions, romExt: Version, app: Version)
    ensures UpdateSuccessful(v, romExt, app) <==> RunsBundle(v, romExt, app)
  {
  }

  /** The completion check, which looks at the applications first. */
  lemma CompletionInNumbers(v: Versions, romExt: Version, app: Version)
    ensures UpdateComplete(v, romExt, app) ==
      if HasBundle(v, romExt, app) then Complete
      else if IsApp(v.app.slotA, app) && IsApp(v.app.slotB, app) then RomExtMismatch else AppMismatch
  {
  }

  lemma CountInNumbers(v: Versions, romExt: Version, app: Version)
    ensures UpdateCount(v, romExt, app) == UpdatesAsked(v, romExt, app)
  {
  }

  lemma StagedTooNewInNumbers(v: Versions, romExt: Version, app: Version)
    ensures StagedTooNew(v, romExt, app) <==>
      && UpdatesAsked(v, romExt, app) == 0
      && Older(romExt, if v.romExt.bootedSlot == 0x42425f5f then v.romExt.slotA else v.romExt.slotB)
  {
  }

  // ---- what one update does to a device ----

  function WriteStaged(info: BootInfo, v: Version): BootInfo {
    if BootsB(info) then info.(slotA := v) else info.(slotB := v)
  }

  function BootOther(info: BootInfo): BootInfo {
    info.(bootedSlot := if BootsB(info) then SLOT_A else SLOT_B)
  }

  /**
   * The application goes to the other slot, which is booted; the ROM_EXT goes to the other slot, and the
   * greater of the two is booted. `tie` is what the device does when they are equal.
   */
  function Updated(v: Versions, romExt: Version, app: Version, tie: bool): Versions {
    var written := WriteStaged(v.romExt, romExt);
    var cmp := RomExtCmp(romExt, Booted(v.romExt));
    v.(app := BootOther(WriteStaged(v.app, app)),
       romExt := if cmp > 0 || (cmp == 0 && tie) then BootOther(written) else written)
  }

  function AllUpdated(v: Versions, romExt: Version, app: Version, ties: seq<bool>): Versions
    decreases |ties|
  {
    if ties == [] then v else AllUpdated(Updated(v, romExt, app, ties[0]), romExt, app, ties[1..])
  }

  /** The start states that the count misjudges: up to date but for a staged ROM_EXT that is too new. */
  predicate StagedTooNew(v: Versions, romExt: Version, app: Version) {
    && AppCmp(Booted(v.app), app) == 0 && AppCmp(Staged(v.app), app) == 0
    && RomExtCmp(Booted(v.romExt), romExt) >= 0 && RomExtCmp(Staged(v.romExt), romExt) > 0
  }

  lemma OneUpdate(v: Versions, romExt: Version, app: Version, tie: bool)
    ensures
      var v' := Updated(v, romExt, app, tie);
      && UpdateSuccessful(v', romExt, app)
      && UpdateCount(v', romExt, app) == (if UpdateCount(v, romExt, app) == 2 then 1 else 0)
      && !StagedTooNew(v', romExt, app)
  {
  }

  lemma CompleteWhenCounted(v: Versions, romExt: Version, app: Version)
    ensures UpdateComplete(v, romExt, app).Complete? <==>
      UpdateCount(v, romExt, app) == 0 && !StagedTooNew(v, romExt, app)
  {
  }

  /**
   * The updates that complete a device are exactly those at least as many as the count, and in the
   * misjudged states those at least one, whatever the device does on ties.
   */
  lemma {:induction false} CountIsExact(v: Versions, romExt: Version, app: Version, ties: seq<bool>)
    ensures UpdateComplete(AllUpdated(v, romExt, app, ties), romExt, app).Complete? <==>
      |ties| >= if StagedTooNew(v, romExt, app) then 1 else UpdateCount(v, romExt, app)
    decreases |ties|
  {
    hide Updated, UpdateCount, StagedTooNew, UpdateComplete;
    CompleteWhenCounted(v, romExt, app);
    CountRange(v, romExt, app);
    if ties != [] {
      OneUpdate(v, romExt, app, ties[0]);
      CountIsExact(Updated(v, romExt, app, ties[0]), romExt, app, ties[1..]);
    }
  }

  /** In numbers: a device that has the bundle needs no update, and any other at least one and as many as asked. */
  lemma UpdatesGiveBundle(v: Versions, romExt: Version, app: Version, ties: seq<bool>)
    ensures HasBundle(AllUpdated(v, romExt, app, ties), romExt, app) <==>
      |ties| >= if UpdatesAsked(v, romExt, app) == 0 && !HasBundle(v, romExt, app) then 1
                else UpdatesAsked(v, romExt, app)
  {
    hide *;
    CountIsExact(v, romExt, app, ties);
    CountInNumbers(v, romExt, app);
    CompleteWhenCounted(v, romExt, app);
    CompletionInNumbers(v, romExt, app);
    CompletionInNumbers(AllUpdated(v, romExt, app, ties), romExt, app);
    CountRange(v, romExt, app);
  }

  lemma CountRange(v: Versions, romExt: Version, app: Version)
    ensures UpdateCount(v, romExt, app) <= 2
    ensures StagedTooNew(v, romExt, app) ==> UpdateCount(v, romExt, app) == 0
  {
  }

  /** The count is the least number of updates that completes the device unless the staged ROM_EXT is too new. */
  lemma CountIsLeast(v: Versions, romExt: Version, app: Version)
    ensures !StagedTooNew(v, romExt, app) <==>
      forall ties: seq<bool> ::
        UpdateComplete(AllUpdated(v, romExt, app, ties), romExt, app).Complete?
        <==> |ties| >= UpdateCount(v, romExt, app)
  {
    hide UpdateCount, StagedTooNew, UpdateComplete, AllUpdated;
    forall ties: seq<bool>
      ensures UpdateComplete(AllUpdated(v, romExt, app, ties), romExt, app).Complete? <==>
        |ties| >= if StagedTooNew(v, romExt, app) then 1 else UpdateCount(v, romExt, app)
    {
      CountIsExact(v, romExt, app, ties);
    }
    CountRange(v, romExt, app);
    var none: seq<bool> := [];
    assert UpdateComplete(AllUpdated(v, romExt, app, none), romExt, app).Complete? <==>
      |none| >= if StagedTooNew(v, romExt, app) then 1 else UpdateCount(v, romExt, app);
  }

  // ---- the bundle ----

  function Le32At(image: seq<byte>, at: nat): nat
    requires at + 4 <= |image|
  {
    Join(Join(Join(image[at + 3], image[at + 2]), image[at + 1]), image[at])
  }

  function VersionAt(image: seq<byte>, offset: nat): Version
    requires offset + 848 <= |image|
  {
    Version(Le32At(image, offset + 836), Le32At(image, offset + 840), Le32At(image, offset + 844))
  }

  /** "_OTFWUPDATE_" */
  const MAGIC: seq<byte> := [95, 79, 84, 70, 87, 85, 80, 68, 65, 84, 69, 95]

  lemma MagicIs()
    ensures |MAGIC| == 12 && forall i :: 0 <= i < 12 ==> MAGIC[i] == "_OTFWUPDATE_"[i] as int
  {
  }

  /** libhoth_extract_ot_bundle: the ROM_EXT and application versions; the sums are 32 bits wide. */
  function ExtractBundle(image: seq<byte>): Option<(Version, Version)> {
    if |image| < 65536 + 64 then None
    else if image[..12] != MAGIC then None
    else
      var offset := Le32At(image, 36);
      var end := (offset + 65536 + 844 + 4) % 0x1_0000_0000;
      if end > |image| || end < offset then None
      else Some((VersionAt(image, offset), VersionAt(image, offset + 65536)))
  }

  /** A 32-bit integer, least significant byte first. */
  function Le32(n: nat): (s: seq<byte>)
    ensures |s| == 4
  {
    Le16(n % 0x1_0000) + Le16(n / 0x1_0000)
  }

  /** A version stands in an image as `struct opentitan_image_version` says. */
  predicate Holds(image: seq<byte>, at: nat, v: Version) {
    && at + 848 <= |image|
    && v.major < 0x1_0000_0000 && v.minor < 0x1_0000_0000 && v.security < 0x1_0000_0000
    && image[at + 836..at + 840] == Le32(v.major)
    && image[at + 840..at + 844] == Le32(v.minor)
    && image[at + 844..at + 848] == Le32(v.security)
  }

  lemma Le32Read(image: seq<byte>, at: nat, n: nat)
    requires at + 4 <= |image| && n < 0x1_0000_0000 && image[at..at + 4] == Le32(n)
    ensures Le32At(image, at) == n
  {
    var s := image[at..at + 4];
    assert s[0] == image[at] && s[1] == image[at + 1] && s[2] == image[at + 2] && s[3] == image[at + 3];
    Le32Bytes(n);
    FourDigits(n);
    hide Le32;
  }

  lemma Le32Bytes(n: nat)
    requires n < 0x1_0000_0000
    ensures
      var s := Le32(n);
      && s[0] == n % 0x1_0000 % 256 && s[1] == n % 0x1_0000 / 256 % 256
      && s[2] == n / 0x1_0000 % 256 && s[3] == n / 0x1_0000 / 256 % 256
  {
  }

  lemma FourDigits(n: nat)
    requires n < 0x1_0000_0000
    ensures
      var lo, hi := n % 0x1_0000, n / 0x1_0000;
      Join(Join(Join(hi / 256 % 256, hi % 256), lo / 256 % 256), lo % 256) == n
  {
    TwoDigits(n % 0x1_0000);
    TwoDigits(n / 0x1_0000);
  }

  lemma TwoDigits(n: nat)
    requires n < 0x1_0000
    ensures Join(n / 256 % 256, n % 256) == n
  {
  }

  /** A bundle laid out at some offset, with the offset in its header, is read as it was laid out. */
  lemma BundleIsRead(image: seq<byte>, offset: nat, romExt: Version, app: Version)
    requires |image| >= 65600 && image[..12] == MAGIC && image[36..40] == Le32(offset)
    requires offset + 66384 < 0x1_0000_0000 && Holds(image, offset, romExt) && Holds(image, offset + 65536, app)
    ensures ExtractBundle(image) == Some((romExt, app))
  {
    hide Le32;
    Le32Read(image, 36, offset);
    Le32Read(image, offset + 836, romExt.major);
    Le32Read(image, offset + 840, romExt.minor);
    Le32Read(image, offset + 844, romExt.security);
    Le32Read(image, offset + 65536 + 836, app.major);
    Le32Read(image, offset + 65536 + 840, app.minor);
    Le32Read(image, offset + 65536 + 844, app.security);
    hide Le32At;
  }

  /**
   * A bundle is found exactly in an image that is long enough for the header, starts with the magic, and has
   * both version fields inside; so the two checks on the wrapping sum are the right ones.
   */
  lemma BundleBounds(image: seq<byte>)
    ensures ExtractBundle(image).Some? <==>
      && |image| >= 65600 && image[..12] == MAGIC
      && Le32At(image, 36) + 66384 <= |image| && Le32At(image, 36) + 66384 < 0x1_0000_0000
  {
  }
}
