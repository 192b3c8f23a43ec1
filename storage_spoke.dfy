/**
 * The storage spoke ("INSTALLATION DESTINATION") with its widgets replaced
 * by plain data: the disk overview rows, the summary line and the state of
 * its buttons.
 */
module Storage {
  import opened Wrappers
  import opened Popup
  import opened DiskList
  import opened Disks
  import opened Options
  import opened Config

  /** One disk overview widget: its popup string and whether it is chosen. */
  datatype Overview = Overview(popup: string, chosen: bool)

  /** The row the synchronisation sees: the name parsed from the popup string. */
  function RowOf(o: Overview): Row {
    Row(PopupName(o.popup), o.chosen)
  }

  /** The rows the synchronisation sees, one per overview. */
  function Rows(overviews: seq<Overview>): seq<Row> {
    seq(|overviews|, i requires 0 <= i < |overviews| => RowOf(overviews[i]))
  }

  /** `overview.set_chosen(name in selected)`. */
  function MarkedOne(o: Overview, selected: seq<string>): Overview {
    o.(chosen := PopupName(o.popup) in selected)
  }

  /** `overview.set_chosen(name in selected)` on every overview. */
  function Marked(overviews: seq<Overview>, selected: seq<string>): seq<Overview> {
    seq(|overviews|, i requires 0 <= i < |overviews| => MarkedOne(overviews[i], selected))
  }

  /** The overview `_initialize` packs for one disk. */
  function OverviewFor(d: Device, selected: seq<string>): Overview {
    Overview(PopupInfo(d.name, d.serial), d.name in selected)
  }

  /** The overviews `_initialize` packs for `disks`, one per disk, in order. */
  function OverviewsOf(disks: seq<Device>, selected: seq<string>): (r: seq<Overview>)
    ensures |r| == |disks|
  {
    if disks == [] then []
    else OverviewsOf(disks[..|disks| - 1], selected) + [OverviewFor(disks[|disks| - 1], selected)]
  }

  /** The `i`-th packed overview is the one for the `i`-th disk. */
  lemma {:induction false} OverviewsOfAt(disks: seq<Device>, selected: seq<string>, i: int)
    requires 0 <= i < |disks|
    ensures OverviewsOf(disks, selected)[i] == OverviewFor(disks[i], selected)
  {
    var prefix := disks[..|disks| - 1];
    if i < |disks| - 1 {
      assert prefix[i] == disks[i];
      OverviewsOfAt(prefix, selected, i);
    }
  }

  /** The summary line and the buttons it governs. */
  datatype SummaryView = SummaryView(
    totals: Totals,
    warning: bool,           // "No disks selected; please select at least one disk to install to."
    continueSensitive: bool,
    summarySensitive: bool)

  function ViewOf(t: Totals): SummaryView {
    SummaryView(t, t.count == 0, t.count > 0, t.count > 0)
  }

  /** The summary after `_update_summary`; unchanged when it raised `KeyError`. */
  function SummaryAfter(disks: seq<Device>, selected: seq<string>, freeSpace: map<string, FreeSpace>,
                        before: Option<SummaryView>): Option<SummaryView>
  {
    var s := SelectedOf(disks, selected);
    if FreeKnown(s, freeSpace) then Some(ViewOf(Totals(|s|, SumSizes(s), SumFree(s, freeSpace))))
    else before
  }

  /**
   * The continue and summary buttons are enabled, and the warning hidden,
   * exactly when some offered disk is selected.
   */
  lemma SummaryGatesContinue(disks: seq<Device>, selected: seq<string>,
                             freeSpace: map<string, FreeSpace>, before: Option<SummaryView>)
    requires FreeKnown(SelectedOf(disks, selected), freeSpace)
    ensures var view := SummaryAfter(disks, selected, freeSpace, before);
      && view.Some?
      && (view.value.continueSensitive <==> exists d :: d in disks && d.name in selected)
      && (view.value.summarySensitive <==> view.value.continueSensitive)
      && (view.value.warning <==> !view.value.continueSensitive)
  {
    SelectionGatesContinue(disks, selected);
  }

  class StorageSpoke {
    var data: KsData
    var selectedDisks: seq<string>
    var autopart: bool
    var clearPartType: ClearPartType
    var skipTo: Option<string>
    var disks: seq<Device>
    var overviews: seq<Overview>
    var summary: Option<SummaryView>
    var ready: bool

    /**
     * `__init__`: the selection starts from the configured drives, and an
     * interactive install turns automatic partitioning on.
     */
    constructor (ksdata: KsData, automatedInstall: bool)
      ensures data == if automatedInstall then ksdata else ksdata.(autopart := ksdata.autopart.(enabled := true))
      ensures selectedDisks == ksdata.clearpart.drives
      ensures autopart == data.autopart.enabled
      ensures clearPartType == ClearLinux
      ensures skipTo == None && disks == [] && overviews == [] && summary == None && !ready
    {
      var conf := ksdata;
      selectedDisks := conf.clearpart.drives;
      if !automatedInstall {
        conf := conf.(autopart := conf.autopart.(enabled := true));
      }
      data := conf;
      autopart := conf.autopart.enabled;
      clearPartType := ClearLinux;
      skipTo := None;
      disks := [];
      overviews := [];
      summary := None;
      ready := false;
    }

    /** `_update_summary`, given `getFreeSpace(clearPartType=...)` as `freeSpace`. */
    method UpdateSummary(freeSpace: map<string, FreeSpace>) returns (ok: bool)
      modifies this`summary
      ensures ok <==> FreeKnown(SelectedOf(disks, selectedDisks), freeSpace)
      ensures summary == SummaryAfter(disks, selectedDisks, freeSpace, old(summary))
    {
      var selected := SelectedOf(disks, selectedDisks);
      var totals := Tally(selected, freeSpace);
      if totals.None? {
        return false;
      }
      summary := Some(ViewOf(totals.value));
      return true;
    }

    /**
     * The part of `_initialize` after the storage probe: offer the disks and
     * pack one overview per disk, chosen when its name is selected.
     */
    method Populate(devices: seq<Device>, freeSpace: map<string, FreeSpace>) returns (ok: bool)
      modifies this`disks, this`overviews, this`summary, this`ready
      ensures disks == GetDisks(devices)
      ensures overviews == old(overviews) + OverviewsOf(disks, selectedDisks)
      ensures ok <==> FreeKnown(SelectedOf(disks, selectedDisks), freeSpace)
      ensures summary == SummaryAfter(disks, selectedDisks, freeSpace, old(summary))
      ensures ready == (ok || old(ready))
    {
      disks := GetDisks(devices);
      PackOverviews();
      ok := UpdateSummary(freeSpace);
      if ok {
        ready := true;
      }
    }

    /** The loop of `_initialize` that packs one overview per disk. */
    method PackOverviews()
      modifies this`overviews
      ensures overviews == old(overviews) + OverviewsOf(disks, selectedDisks)
    {
      ghost var before := overviews;
      for i := 0 to |disks|
        invariant overviews == before + OverviewsOf(disks[..i], selectedDisks)
      {
        var d := disks[i];
        assert disks[..i + 1][..i] == disks[..i] && disks[..i + 1][i] == d;
        overviews := overviews + [Overview(PopupInfo(d.name, d.serial), d.name in selectedDisks)];
      }
      assert disks[..|disks|] == disks;
    }

    /** `_update_disk_list`: read the overviews' chosen flags into the selection. */
    method UpdateDiskList()
      modifies this`selectedDisks
      ensures selectedDisks == UpdatedSelection(Rows(overviews), old(selectedDisks))
    {
      var children := overviews;
      ghost var rows := Rows(children);
      for i := 0 to |children|
        invariant selectedDisks == UpdatedSelection(rows[..i], old(selectedDisks))
      {
        var name := PopupName(children[i].popup);
        var selected := children[i].chosen;
        SyncRow(name, selected);
        LoopStep(rows, i, old(selectedDisks));
      }
      assert rows[..|children|] == rows;
    }

    /** The body of the loop of `_update_disk_list`, for the row `name` with flag `selected`. */
    method SyncRow(name: string, selected: bool)
      modifies this`selectedDisks
      ensures selectedDisks == Step(old(selectedDisks), Row(name, selected))
    {
      if selected && name !in selectedDisks {
        selectedDisks := selectedDisks + [name];
      }
      if !selected && name in selectedDisks {
        selectedDisks := Remove(selectedDisks, name);
      }
    }

    /** The loop shared by `refresh` and `on_summary_clicked`. */
    method MarkOverviews()
      modifies this`overviews
      ensures overviews == Marked(old(overviews), selectedDisks)
    {
      ghost var before := overviews;
      for i := 0 to |overviews|
        invariant |overviews| == |before|
        invariant forall k :: 0 <= k < i ==> overviews[k] == MarkedOne(before[k], selectedDisks)
        invariant forall k :: i <= k < |overviews| ==> overviews[k] == before[k]
      {
        var name := PopupName(overviews[i].popup);
        overviews := overviews[i := overviews[i].(chosen := name in selectedDisks)];
        assert overviews[i] == MarkedOne(before[i], selectedDisks);
      }
    }

    /** A disk overview was clicked with an activating event. */
    method OnDiskClicked(freeSpace: map<string, FreeSpace>) returns (ok: bool)
      modifies this`selectedDisks, this`summary
      ensures selectedDisks == UpdatedSelection(Rows(overviews), old(selectedDisks))
      ensures ok <==> FreeKnown(SelectedOf(disks, selectedDisks), freeSpace)
      ensures summary == SummaryAfter(disks, selectedDisks, freeSpace, old(summary))
    {
      UpdateDiskList();
      ok := UpdateSummary(freeSpace);
    }

    /** `refresh`: reload the selection from the configuration and mark the overviews. */
    method Refresh(freeSpace: map<string, FreeSpace>) returns (ok: bool)
      modifies this`selectedDisks, this`autopart, this`overviews, this`summary
      ensures selectedDisks == data.clearpart.drives
      ensures autopart == data.autopart.enabled
      ensures overviews == Marked(old(overviews), selectedDisks)
      ensures ok <==> FreeKnown(SelectedOf(disks, selectedDisks), freeSpace)
      ensures summary == SummaryAfter(disks, selectedDisks, freeSpace, old(summary))
    {
      selectedDisks := data.clearpart.drives;
      autopart := data.autopart.enabled;
      MarkOverviews();
      ok := UpdateSummary(freeSpace);
    }

    /**
     * `on_summary_clicked`: the selected-disks dialog may remove disks;
     * `remaining` is what it leaves.
     */
    method OnSummaryClicked(remaining: seq<Device>, freeSpace: map<string, FreeSpace>) returns (ok: bool)
      modifies this`selectedDisks, this`overviews, this`summary
      ensures selectedDisks == NamesOf(remaining)
      ensures overviews == Marked(old(overviews), selectedDisks)
      ensures ok <==> FreeKnown(SelectedOf(disks, selectedDisks), freeSpace)
      ensures summary == SummaryAfter(disks, selectedDisks, freeSpace, old(summary))
    {
      selectedDisks := NamesOf(remaining);
      MarkOverviews();
      ok := UpdateSummary(freeSpace);
    }

    /**
     * `on_continue_clicked`: `freeSpace` holds the values of
     * `getFreeSpace(disks=...)` for the selected disks, `required` the
     * payload's `spaceRequired`, `rc` the dialog's response and `custom` its
     * custom-partitioning checkbox.
     */
    method OnContinueClicked(required: nat, freeSpace: seq<FreeSpace>, rc: int, custom: bool)
      returns (dialog: OptionsDialog, nav: Navigation)
      modifies this`autopart, this`skipTo
      ensures dialog == ChooseDialog(required, SumDiskFree(freeSpace), SumSizes(SelectedOf(disks, selectedDisks)))
      ensures Outcome(Choice(autopart, skipTo), nav) == Respond(rc, custom, Choice(old(autopart), old(skipTo)))
    {
      var chosen := SelectedOf(disks, selectedDisks);
      var diskFree := SumDiskFree(freeSpace);
      if diskFree >= required {
        dialog := PlentyOfSpace;
      } else if SumSizes(chosen) >= required {
        dialog := ReclaimSpace;
      } else {
        dialog := InsufficientSpace;
      }
      nav := Stay;
      if rc == ResponseContinue {
        autopart := !custom;
        if custom {
          skipTo := Some(CustomPartitioningSpoke);
        }
        nav := Back;
      } else if rc == ResponseReclaim {
        if custom {
          skipTo := Some(CustomPartitioningSpoke);
        }
        nav := Back;
      } else if rc == ResponseQuit {
        nav := Quit;
      }
    }

    /**
     * `apply`: write the selection back into the configuration.
     * `bootDisks` names the bootloader's disks; `ok` is false when
     * `bootDisks[0]` raises `IndexError`.
     */
    method Apply(bootDisks: seq<string>) returns (ok: bool)
      modifies this`data, this`clearPartType
      ensures data == ApplySelection(old(data), selectedDisks, autopart, bootDisks).data
      ensures ok == !ApplySelection(old(data), selectedDisks, autopart, bootDisks).raised
      ensures clearPartType == ClearPartTypeFor(autopart)
    {
      data := data.(clearpart := data.clearpart.(drives := selectedDisks));
      data := data.(autopart := data.autopart.(enabled := autopart));
      data := data.(autopart := data.autopart.(kind := AutoPartPlain));
      if autopart {
        clearPartType := ClearAll;
      } else {
        clearPartType := ClearNone;
      }
      data := data.(bootloader := data.bootloader.(location := "mbr"));
      data := data.(clearpart := data.clearpart.(kind := clearPartType));
      if data.bootloader.bootDrive == "" {
        if bootDisks == [] {
          return false;
        }
        data := data.(bootloader := data.bootloader.(bootDrive := bootDisks[0]));
      }
      return true;
    }
  }

  /** One pass of the loop of `_update_disk_list` extends the processed prefix by one row. */
  lemma LoopStep(rows: seq<Row>, i: int, start: seq<string>)
    requires 0 <= i < |rows|
    ensures UpdatedSelection(rows[..i + 1], start) == Step(UpdatedSelection(rows[..i], start), rows[i])
  {
    assert rows[..i + 1][..i] == rows[..i] && rows[..i + 1][i] == rows[i];
  }

  /** A disk name a popup string carries back unchanged. */
  predicate PlainName(name: string) {
    '|' !in name && Stripped(name)
  }

  /** The overviews `_initialize` packs stand for their disks' names. */
  lemma OverviewsStandForDisks(disks: seq<Device>, selected: seq<string>)
    requires forall d :: d in disks ==> PlainName(d.name)
    ensures forall i :: 0 <= i < |disks| ==>
      Rows(OverviewsOf(disks, selected))[i] == Row(disks[i].name, disks[i].name in selected)
  {
    forall i | 0 <= i < |disks|
      ensures Rows(OverviewsOf(disks, selected))[i] == Row(disks[i].name, disks[i].name in selected)
    {
      assert disks[i] in disks;
      OverviewsOfAt(disks, selected, i);
      PopupNameRoundTrip(disks[i].name, disks[i].serial);
    }
  }

  /** Freshly packed overviews already agree with the selection. */
  lemma PopulatedOverviewsInSync(disks: seq<Device>, selected: seq<string>)
    requires forall d :: d in disks ==> PlainName(d.name)
    ensures UpdatedSelection(Rows(OverviewsOf(disks, selected)), selected) == selected
  {
    OverviewsStandForDisks(disks, selected);
    MirroredRowsKeepSelection(Rows(OverviewsOf(disks, selected)), selected);
  }

  /**
   * Marking the overviews from a list of names and then reading their rows
   * gives the rows read before, marked from the same list: the parsed names
   * are untouched and only the flags follow the list.
   */
  lemma MarkedRows(overviews: seq<Overview>, selected: seq<string>)
    ensures Rows(Marked(overviews, selected)) == MarkChosen(Rows(overviews), selected)
  {
    var l, r := Rows(Marked(overviews, selected)), MarkChosen(Rows(overviews), selected);
    assert |l| == |r|;
    forall i | 0 <= i < |l| ensures l[i] == r[i] {
      assert Marked(overviews, selected)[i] == MarkedOne(overviews[i], selected);
    }
  }

  /** Marking the overviews then reading them back changes no selection. */
  lemma RefreshThenUpdate(overviews: seq<Overview>, selected: seq<string>)
    ensures UpdatedSelection(Rows(Marked(overviews, selected)), selected) == selected
  {
    MarkedRows(overviews, selected);
    SyncIdempotent(Rows(overviews), selected);
  }

  /**
   * Reading the overviews into a duplicate-free selection and marking them
   * back leaves the overviews as they were, when no two overviews share a name.
   */
  lemma UpdateThenMark(overviews: seq<Overview>, selected: seq<string>)
    requires NoDup(selected) && DistinctNames(Rows(overviews))
    ensures Marked(overviews, UpdatedSelection(Rows(overviews), selected)) == overviews
  {
    var rows := Rows(overviews);
    var after := UpdatedSelection(rows, selected);
    forall i | 0 <= i < |overviews| ensures Marked(overviews, after)[i] == overviews[i] {
      UpdateMembership(rows, selected, i);
      assert rows[i] == RowOf(overviews[i]);
    }

  }
}
