/**
 * The part of the installer's kickstart configuration this spoke reads and
 * writes: `clearpart`, `autopart` and `bootloader`, the spoke's `status` and
 * `completed` properties over it, and what `apply` writes into it.
 */
module Config {
  /** The `CLEARPART_TYPE_*` constants the spoke uses. */
  datatype ClearPartType = ClearLinux | ClearAll | ClearNone

  /** The `AUTOPART_TYPE_*` constants. */
  datatype AutoPartType = AutoPartPlain | AutoPartLvm

  datatype ClearPart = ClearPart(drives: seq<string>, kind: ClearPartType)
  datatype AutoPart = AutoPart(enabled: bool, kind: AutoPartType)
  /** `bootDrive` is the empty string while it is unset. */
  datatype Bootloader = Bootloader(location: string, bootDrive: string)
  datatype KsData = KsData(clearpart: ClearPart, autopart: AutoPart, bootloader: Bootloader)

  /** The status line of the spoke; `plural` is the plural form of "%d disk(s) selected". */
  datatype StatusMessage =
    | NoDisksSelected
    | DisksSelected(count: nat, plural: bool)
    | AutomaticPartitioningSelected

  /** The `status` property. */
  function Status(data: KsData): (msg: StatusMessage)
    ensures msg == NoDisksSelected <==> data.clearpart.drives == []
    ensures msg == AutomaticPartitioningSelected <==> data.clearpart.drives != [] && data.autopart.enabled
    ensures msg.DisksSelected? ==>
      msg.count == |data.clearpart.drives| && (msg.plural <==> msg.count != 1) && !data.autopart.enabled
  {
    var n := |data.clearpart.drives|;
    if n == 0 then NoDisksSelected
    else if data.autopart.enabled then AutomaticPartitioningSelected
    else DisksSelected(n, n != 1)
  }

  /** The `completed` property: the status is not "No disks selected". */
  function Completed(data: KsData): (done: bool)
    ensures done <==> data.clearpart.drives != []
  {
    Status(data) != NoDisksSelected
  }

  /** The clearpart type `apply` picks: clear everything for autopart, nothing otherwise. */
  function ClearPartTypeFor(autopart: bool): ClearPartType {
    if autopart then ClearAll else ClearNone
  }

  /**
   * What `apply` leaves in the configuration, and whether it stops with an
   * `IndexError` because the boot drive is unset and the bootloader knows no
   * disk. The writes made before that point are kept.
   */
  datatype Applied = Applied(data: KsData, raised: bool)

  /**
   * The configuration after `apply` with the spoke's `selected` disks,
   * its `autopart` flag and the names of the bootloader's disks.
   */
  function ApplySelection(data: KsData, selected: seq<string>, autopart: bool, bootDisks: seq<string>): (r: Applied)
    ensures r.data.clearpart.drives == selected
    ensures r.data.clearpart.kind == (if autopart then ClearAll else ClearNone)
    ensures r.data.autopart == AutoPart(autopart, AutoPartPlain)
    ensures r.data.bootloader.location == "mbr"
    ensures data.bootloader.bootDrive != "" ==> r.data.bootloader.bootDrive == data.bootloader.bootDrive
    ensures data.bootloader.bootDrive == "" && bootDisks != [] ==> r.data.bootloader.bootDrive == bootDisks[0]
    ensures r.raised <==> data.bootloader.bootDrive == "" && bootDisks == []
    ensures r.raised ==> r.data.bootloader.bootDrive == ""
  {
    var written := KsData(
      ClearPart(selected, ClearPartTypeFor(autopart)),
      AutoPart(autopart, AutoPartPlain),
      data.bootloader.(location := "mbr"));
    if data.bootloader.bootDrive != "" then Applied(written, false)
    else if bootDisks == [] then Applied(written, true)
    else Applied(written.(bootloader := written.bootloader.(bootDrive := bootDisks[0])), false)
  }

  /** Applying a second time writes nothing new. */
  lemma ApplyIdempotent(data: KsData, selected: seq<string>, autopart: bool, bootDisks: seq<string>)
    ensures var once := ApplySelection(data, selected, autopart, bootDisks);
      ApplySelection(once.data, selected, autopart, bootDisks) == once
  {
  }

  /**
   * Once the selection is applied, the spoke reports completion exactly when
   * a disk was selected, and automatic partitioning exactly when it was also
   * chosen.
   */
  lemma StatusAfterApply(data: KsData, selected: seq<string>, autopart: bool, bootDisks: seq<string>)
    ensures var after := ApplySelection(data, selected, autopart, bootDisks).data;
      && (Completed(after) <==> selected != [])
      && (Status(after) == AutomaticPartitioningSelected <==> selected != [] && autopart)
  {
  }
}
