# Installation destination spoke: a Dafny model

This project models the decision and bookkeeping rules of Anaconda's GTK
storage spoke, "INSTALLATION DESTINATION" (`pyanaconda/ui/gui/spokes/storage.py`).
The widgets become plain data:

- each disk overview is an `Overview(popup, chosen)`;
- the spoke's list of selected disk names is a `seq<string>`;
- the kickstart sections the spoke touches (`clearpart`, `autopart`, `bootloader`) are a `KsData` record.

The model has seven modules, one file each:

- `Wrappers` holds `Option`.
- `Popup` covers the popup string `"name | serial"` and the parse that reads the name back (`partition("|")[0].strip()`).
- `DiskList` is the pure specification of the two synchronisation directions between the rows and the selection, with its properties.
- `Disks` covers the `getDisks` filter, selecting disks by name, and the counting loop of `_update_summary`.
- `Options` covers the choice among the three installation-options dialogs and what the dialog's response does.
- `Config` covers the `status` and `completed` properties and the configuration `apply` writes.
- `Storage` holds the class `StorageSpoke`. Its fields are the ones the spoke updates in place. Its methods are proved against the specification functions above.

Inputs the spoke obtains from other subsystems are parameters:

- the storage device tree is a `seq<Device>`;
- `getFreeSpace` is a map from disk name to `FreeSpace` in `_update_summary`, and the sequence of the dictionary's values in `on_continue_clicked`;
- `payload.spaceRequired` is `required`;
- the options dialog's response code and custom-partitioning checkbox are `rc` and `custom`;
- the disks the selected-disks dialog leaves are `remaining`;
- the bootloader's disks are `bootDisks`;
- `flags.automatedInstall` is a constructor argument.

Sizes and free space are whole numbers in one unit (see "Left out").

Some source behaviour needs spelling out:

- Python's `list.remove` drops only the first occurrence. `Remove` does the same, and `RemoveAt` proves it.
- Python 2's `str.strip()` removes space and `\t`..`\r`.
- `"%s" % None` prints `None`, so a missing serial becomes the text "None".
- A disk missing from the free-space dictionary makes `_update_summary` raise `KeyError` after it has touched only local counters. The model returns `None` and leaves the summary as it was.
- In `apply`, `storage.bootloader.disks[0]` raises `IndexError` when the boot drive is unset and the bootloader knows no disk. `ApplySelection` records this as `raised`, keeps the writes made before it, and `Apply` returns `false`.

## Model

| member | source | states |
|---|---|---|
| Popup.PopupName | pyanaconda/ui/gui/spokes/storage.py:433 | the parsed name holds no pipe character, has no surrounding whitespace and is no longer than the popup string |
| Popup.Strip | pyanaconda/ui/gui/spokes/storage.py:433 | `strip()` leaves no whitespace at either end |
| Popup.StripLeftDrops | pyanaconda/ui/gui/spokes/storage.py:433 | stripping the left removes a leading run of whitespace, keeps the rest as a suffix, and stops at a non-space |
| Popup.StripRightDrops | pyanaconda/ui/gui/spokes/storage.py:433 | stripping the right removes a trailing run of whitespace, keeps the rest as a prefix, and stops at a non-space |
| Popup.StripIsSlice | pyanaconda/ui/gui/spokes/storage.py:433 | the stripped text is a slice of the input with only whitespace outside it |
| Popup.Head | pyanaconda/ui/gui/spokes/storage.py:433 | `partition` at the pipe character is a prefix holding no pipe character, followed by a pipe whenever it is shorter than the input |
| Popup.StrippedIsFixed | pyanaconda/ui/gui/spokes/storage.py:433 | stripping an already stripped string changes nothing |
| Popup.StripTrailingSpace | pyanaconda/ui/gui/spokes/storage.py:377 | stripping a stripped name followed by a space gives the name back |
| Popup.HeadOfJoin | pyanaconda/ui/gui/spokes/storage.py:377 | the text before the first separator of `a + sep + b` is `a` when `a` holds no separator |
| Popup.PopupNameRoundTrip | pyanaconda/ui/gui/spokes/storage.py:377 | parsing the popup string of a disk gives back `name` when the name holds no pipe character and no surrounding whitespace |
| DiskList.IndexOf | pyanaconda/ui/gui/spokes/storage.py:440 | the index of the first occurrence: it holds `x` and nothing before it does |
| DiskList.RemoveAt | pyanaconda/ui/gui/spokes/storage.py:440 | `list.remove` cuts out exactly the first occurrence of the name |
| DiskList.RemoveNoDup | pyanaconda/ui/gui/spokes/storage.py:440 | removing from a duplicate-free list leaves it duplicate-free and without the name |
| DiskList.RemoveKeepsOthers | pyanaconda/ui/gui/spokes/storage.py:440 | removing one name leaves the membership of every other name unchanged |
| DiskList.UpdateKeepsChosen | pyanaconda/ui/gui/spokes/storage.py:436-440 | every chosen row's name is in the list afterwards, for any starting list, when the row names are distinct |
| DiskList.UpdateDropsUnchosen | pyanaconda/ui/gui/spokes/storage.py:436-440 | no unchosen row's name is in the list afterwards, when the list started without duplicates and the row names are distinct |
| DiskList.UpdateMembership | pyanaconda/ui/gui/spokes/storage.py:431-440 | after `_update_disk_list` a row's name is selected exactly when the row is chosen |
| DiskList.UpdateNoDup | pyanaconda/ui/gui/spokes/storage.py:436-440 | a duplicate-free selection stays duplicate-free |
| DiskList.UpdateKeepsOthers | pyanaconda/ui/gui/spokes/storage.py:431-440 | names that belong to no row stay, in their relative order |
| DiskList.UpdateClosedForm | pyanaconda/ui/gui/spokes/storage.py:431-440 | the new selection is the old one without the unchosen rows' names, in its old order, followed by the newly chosen names in row order |
| DiskList.DuplicateOutlivesRemove | pyanaconda/ui/gui/spokes/storage.py:439-440 | with a name listed twice, unchoosing its row leaves one copy selected |
| DiskList.LaterRowDecides | pyanaconda/ui/gui/spokes/storage.py:431-440 | of two rows with one name, the later row's flag decides |
| DiskList.MirroredRowsKeepSelection | pyanaconda/ui/gui/spokes/storage.py:431-440 | rows whose flags already mirror the selection leave it unchanged |
| DiskList.SyncIdempotent | pyanaconda/ui/gui/spokes/storage.py:452-456 | marking the rows from the selection and reading them back leaves the selection unchanged |
| DiskList.MarkAfterUpdate | pyanaconda/ui/gui/spokes/storage.py:431-440 | reading the rows into the selection and marking them back leaves the rows unchanged |
| Disks.GetDisks | pyanaconda/ui/gui/spokes/storage.py:84-89 | a device is offered exactly when it is in the tree, is a disk, is not hidden and is not a protected removable one |
| Disks.GetDisksConcat | pyanaconda/ui/gui/spokes/storage.py:84-89 | the filter works device by device and keeps the device-tree order |
| Disks.GetDisksIdempotent | pyanaconda/ui/gui/spokes/storage.py:84-89 | filtering the offered disks again changes nothing |
| Disks.SelectedOf | pyanaconda/ui/gui/spokes/storage.py:406 | a disk is picked exactly when it is offered and its name is selected |
| Disks.SelectedOfConcat | pyanaconda/ui/gui/spokes/storage.py:406 | the comprehension picks disk by disk, keeping the disks' order and every copy |
| Disks.NamesOf | pyanaconda/ui/gui/spokes/storage.py:449 | the names of the remaining disks, one per disk, in order |
| Disks.Tally | pyanaconda/ui/gui/spokes/storage.py:398-411 | the loop succeeds exactly when every selected disk has free-space data; then count, capacity and free are the number of disks, the sum of their sizes and the sum of their free disk space |
| Disks.SelectionGatesContinue | pyanaconda/ui/gui/spokes/storage.py:420-426 | the count is positive exactly when some offered disk is selected |
| Options.ChooseDialog | pyanaconda/ui/gui/spokes/storage.py:473-478 | dialog 1 iff the free space covers the requirement, dialog 2 iff only the disks' capacity does, dialog 3 iff neither does |
| Options.MoreSpaceNeverEscalates | pyanaconda/ui/gui/spokes/storage.py:473-478 | more free space or capacity never calls for a more severe dialog |
| Options.LargerSelectionNeverRelaxes | pyanaconda/ui/gui/spokes/storage.py:473-478 | a larger requirement never calls for a milder dialog |
| Options.Respond | pyanaconda/ui/gui/spokes/storage.py:482-505 | continue sets `autopart` to `not custom`; continue and reclaim set `skipTo` to the custom partitioning spoke iff custom, and otherwise keep it; any other response changes nothing; continue and reclaim go back, quit exits |
| Options.ContinueAlwaysPartitions | pyanaconda/ui/gui/spokes/storage.py:482-489 | after continue either automatic partitioning is on or the custom partitioning spoke is next |
| Options.RespondIdempotent | pyanaconda/ui/gui/spokes/storage.py:482-505 | giving the same response twice does what giving it once does |
| Config.Status | pyanaconda/ui/gui/spokes/storage.py:294-308 | "No disks selected" iff no drives; "Automatic partitioning selected" iff drives and autopart; otherwise the drive count, plural unless it is 1 |
| Config.Completed | pyanaconda/ui/gui/spokes/storage.py:284-286 | the spoke is complete iff some drive is configured |
| Config.ApplySelection | pyanaconda/ui/gui/spokes/storage.py:254-277 | drives copied, clearpart type ALL or NONE by autopart, autopart PLAIN, location "mbr", boot drive kept when set, else the first bootloader disk, raising exactly when there is none |
| Config.ApplyIdempotent | pyanaconda/ui/gui/spokes/storage.py:254-277 | applying a second time writes nothing new |
| Config.StatusAfterApply | pyanaconda/ui/gui/spokes/storage.py:254-308 | after apply the spoke is complete iff a disk was selected, and reports automatic partitioning iff autopart was also chosen |
| Storage.OverviewsOf | pyanaconda/ui/gui/spokes/storage.py:370-391 | one overview per offered disk |
| Storage.OverviewsOfAt | pyanaconda/ui/gui/spokes/storage.py:370-391 | the i-th overview carries the i-th disk's popup string and is chosen iff its name is selected |
| Storage.MarkedRows | pyanaconda/ui/gui/spokes/storage.py:331-334 | marking the overviews (also done at lines 452-456) and then reading them gives the rows read before, marked from the same list: the parsed names stay and only the flags follow the list |
| Storage.SummaryGatesContinue | pyanaconda/ui/gui/spokes/storage.py:420-426 | with free-space data for every selected disk, the continue and summary buttons are enabled, and the warning hidden, exactly when some offered disk is selected |
| Storage.StorageSpoke.constructor | pyanaconda/ui/gui/spokes/storage.py:240-252 | the selection starts from the configured drives; an interactive install turns autopart on; clearpart type LINUX |
| Storage.StorageSpoke.UpdateSummary | pyanaconda/ui/gui/spokes/storage.py:398-426 | the summary shows the totals of the selected disks, or is left as it was on a KeyError |
| Storage.StorageSpoke.Populate | pyanaconda/ui/gui/spokes/storage.py:366-395 | the offered disks are stored, one overview is packed per disk, the summary is updated, and the spoke becomes ready when that succeeds |
| Storage.StorageSpoke.PackOverviews | pyanaconda/ui/gui/spokes/storage.py:370-391 | the packed overviews are appended after the existing ones, in disk order |
| Storage.StorageSpoke.UpdateDiskList | pyanaconda/ui/gui/spokes/storage.py:428-440 | the selection becomes `UpdatedSelection` of the overviews' rows, whose properties are the DiskList lemmas |
| Storage.StorageSpoke.SyncRow | pyanaconda/ui/gui/spokes/storage.py:433-440 | one pass of the loop: append a chosen missing name, remove an unchosen present one |
| Storage.StorageSpoke.MarkOverviews | pyanaconda/ui/gui/spokes/storage.py:331-334 | every overview is chosen exactly when its parsed name is selected, and nothing else about it changes |
| Storage.StorageSpoke.OnDiskClicked | pyanaconda/ui/gui/spokes/storage.py:322-323 | an activating click reads the overviews into the selection and updates the summary |
| Storage.StorageSpoke.Refresh | pyanaconda/ui/gui/spokes/storage.py:325-336 | the selection and autopart are reloaded from the configuration, the overviews marked and the summary updated |
| Storage.StorageSpoke.OnSummaryClicked | pyanaconda/ui/gui/spokes/storage.py:443-457 | the selection becomes the names the dialog leaves, the overviews are marked from it and the summary updated |
| Storage.StorageSpoke.OnContinueClicked | pyanaconda/ui/gui/spokes/storage.py:465-505 | the dialog follows `ChooseDialog` of the summed free space and selected capacity; autopart, skipTo and navigation follow `Respond` |
| Storage.StorageSpoke.Apply | pyanaconda/ui/gui/spokes/storage.py:254-282 | the configuration and clearpart type become what `ApplySelection` gives; success exactly when no IndexError is raised |
| Storage.LoopStep | pyanaconda/ui/gui/spokes/storage.py:432-440 | one more pass of the `_update_disk_list` loop is one more `Step` |
| Storage.OverviewsStandForDisks | pyanaconda/ui/gui/spokes/storage.py:376-388 | for plain disk names, each packed overview reads back as its disk's name and selection |
| Storage.PopulatedOverviewsInSync | pyanaconda/ui/gui/spokes/storage.py:370-391 | clicking right after packing leaves the selection unchanged |
| Storage.RefreshThenUpdate | pyanaconda/ui/gui/spokes/storage.py:325-336 | after `refresh` or `on_summary_clicked`, reading the overviews back leaves the selection unchanged |
| Storage.UpdateThenMark | pyanaconda/ui/gui/spokes/storage.py:443-457 | reading the overviews into the selection and marking them back leaves the overviews unchanged |

## Left out

- The GTK widgets, markup, label texts, the warning text, the lightbox and the dialogs' own `refresh`, labels and button sensitivity are left out. Overviews are plain `(popup, chosen)` values, and the summary is a record of totals and button states.
- `_on_disk_clicked` event filtering by event type and key is left out. `OnDiskClicked` models only the activating case.
- `initialize` and `_initialize` are modelled only from `getDisks` onwards, as `Populate`. Thread start-up, joining the storage thread, `gdk_threaded` and the `communication` messages are concurrency and I/O.
- The overview widgets are objects mutated in place. The model holds them as a sequence of values, so aliasing between widgets is not modelled.
- `size_str` and `Size` are left out, and the free filesystem space (`fs_free`) feeds only dialog labels.
- Units are not modelled. The source mixes two forms: `capacity` is a plain megabyte count, wrapped as `Size(spec="%s MB" % capacity)` only for display (storage.py:415), while `free` is a `Size` that starts from `Size(bytes=0)` and adds the `getFreeSpace` values (storage.py:403, 410). In `on_continue_clicked`, `required_space` is compared with the free-space sum (storage.py:473) and with the plain sum of disk sizes (storage.py:475). If the two sums are in different units, one of those comparisons mixes units. The model puts every size in one unit and so cannot show this. `Size` and `spaceRequired` are not part of this model, so which comparison is off, if either, is not settled here.
- `__init__` never sets `self.disks`; only `_initialize` does (storage.py:366). In the source, `_update_summary` or `on_continue_clicked` before `_initialize` raises `AttributeError`. The constructor instead starts with `disks == []`, so the model computes over no disks there.
- `storage.getFreeSpace`, `payload.spaceRequired`, `SelectedDisksDialog`, the options dialogs' `run` and the user's toggling of the custom checkbox are calls into subsystems this model cannot see. Their results are parameters.
- `clearpart.execute`, `bootloader.execute` and `autopart.execute` are not modelled.
- gettext is left out. Only the singular/plural choice survives, as `plural`.
- The `print` debug output is not modelled.
- `SystemExit` on quit is modelled as the navigation `Quit`.
- `on_back_clicked` is modelled as the navigation `Back`.
- `on_add_disk_clicked` only prints.
- `FakeDisk`, `FakeDiskLabel` and the `fake=True` branch of `getDisks` are test fixtures.
- The `KsData` object is shared with other spokes. The model copies it by value.
- DiskList.UpdateMembership: requires a duplicate-free selection and distinct row names, which the source does not check. Without them the property fails, as `DuplicateOutlivesRemove` and `LaterRowDecides` show. Only the half about unchosen rows, `UpdateDropsUnchosen`, needs the duplicate-free selection. `UpdateKeepsChosen` needs only distinct names. The same hypotheses hold for `MarkAfterUpdate` and `Storage.UpdateThenMark`.
- DiskList.UpdateClosedForm: needs the same two hypotheses.
- Storage.OverviewsStandForDisks: holds only for disk names without '|' and without surrounding whitespace. For other names the popup parse does not give the name back. The same holds for `Storage.PopulatedOverviewsInSync`.
