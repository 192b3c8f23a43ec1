/**
 * The installation options dialogs of `on_continue_clicked`: which of the
 * three dialogs the space figures call for, and what the dialog's response
 * does to the spoke.
 */
module Options {
  import opened Wrappers

  /** `InstallOptions1Dialog`, `InstallOptions2Dialog`, `InstallOptions3Dialog`. */
  datatype OptionsDialog =
    | PlentyOfSpace      // dialog 1: the software fits in the free space
    | ReclaimSpace       // dialog 2: it fits on the disks once space is reclaimed
    | InsufficientSpace  // dialog 3: it does not fit even on the whole disks

  /** How far the dialogs escalate: 1, 2 or 3. */
  function Level(dialog: OptionsDialog): nat {
    match dialog
    case PlentyOfSpace => 1
    case ReclaimSpace => 2
    case InsufficientSpace => 3
  }

  /**
   * The choice of dialog from the space the software needs, the free disk
   * space and the total size of the selected disks.
   */
  function ChooseDialog(required: nat, diskFree: nat, capacity: nat): (dialog: OptionsDialog)
    ensures dialog == PlentyOfSpace <==> diskFree >= required
    ensures dialog == ReclaimSpace <==> diskFree < required <= capacity
    ensures dialog == InsufficientSpace <==> diskFree < required && capacity < required
  {
    if diskFree >= required then PlentyOfSpace
    else if capacity >= required then ReclaimSpace
    else InsufficientSpace
  }

  /** More free space or bigger disks never call for a more severe dialog. */
  lemma MoreSpaceNeverEscalates(required: nat, free1: nat, cap1: nat, free2: nat, cap2: nat)
    requires free1 <= free2 && cap1 <= cap2
    ensures Level(ChooseDialog(required, free2, cap2)) <= Level(ChooseDialog(required, free1, cap1))
  {
  }

  /** A larger software selection never calls for a milder dialog. */
  lemma LargerSelectionNeverRelaxes(req1: nat, req2: nat, diskFree: nat, capacity: nat)
    requires req1 <= req2
    ensures Level(ChooseDialog(req1, diskFree, capacity)) <= Level(ChooseDialog(req2, diskFree, capacity))
  {
  }

  /** The dialog response codes. */
  const ResponseCancel := 0
  const ResponseContinue := 1
  const ResponseModifySw := 2
  const ResponseReclaim := 3
  const ResponseQuit := 4

  /** The spoke the hub is told to go to for custom partitioning. */
  const CustomPartitioningSpoke := "CustomPartitioningSpoke"

  /** Where the user goes after the dialog. */
  datatype Navigation =
    | Back   // `on_back_clicked`: leave the spoke
    | Stay   // stay on the spoke (cancel, modify software, or any other code)
    | Quit   // `SystemExit("user-selected exit")`

  /** The spoke state the response can change. */
  datatype Choice = Choice(autopart: bool, skipTo: Option<string>)

  datatype Outcome = Outcome(choice: Choice, nav: Navigation)

  /**
   * What the response `rc` does, given the dialog's custom-partitioning
   * checkbox `custom`.
   */
  function Respond(rc: int, custom: bool, before: Choice): (r: Outcome)
    ensures rc == ResponseContinue ==> r.choice.autopart == !custom
    ensures rc != ResponseContinue ==> r.choice.autopart == before.autopart
    ensures rc == ResponseContinue || rc == ResponseReclaim ==>
      (r.choice.skipTo == Some(CustomPartitioningSpoke) <==> custom || before.skipTo == Some(CustomPartitioningSpoke))
    ensures rc == ResponseContinue || rc == ResponseReclaim ==>
      (!custom ==> r.choice.skipTo == before.skipTo)
    ensures rc != ResponseContinue && rc != ResponseReclaim ==> r.choice == before
    ensures r.nav == Back <==> rc == ResponseContinue || rc == ResponseReclaim
    ensures r.nav == Quit <==> rc == ResponseQuit
  {
    if rc == ResponseContinue then
      Outcome(Choice(!custom, if custom then Some(CustomPartitioningSpoke) else before.skipTo), Back)
    else if rc == ResponseReclaim then
      Outcome(Choice(before.autopart, if custom then Some(CustomPartitioningSpoke) else before.skipTo), Back)
    else if rc == ResponseQuit then
      Outcome(before, Quit)
    else
      Outcome(before, Stay)
  }

  /**
   * After "continue" the spoke either uses automatic partitioning or sends
   * the user on to custom partitioning.
   */
  lemma ContinueAlwaysPartitions(custom: bool, before: Choice)
    ensures var c := Respond(ResponseContinue, custom, before).choice;
      c.autopart || c.skipTo == Some(CustomPartitioningSpoke)
  {
  }

  /** Giving the same response twice does what giving it once does. */
  lemma RespondIdempotent(rc: int, custom: bool, before: Choice)
    ensures var once := Respond(rc, custom, before);
      Respond(rc, custom, once.choice) == once
  {
  }
}
