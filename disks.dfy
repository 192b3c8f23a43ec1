/**
 * The disks the spoke offers (`getDisks`), the disks picked out by the
 * list of selected names, and the totals `_update_summary` shows for them.
 * Sizes are plain whole numbers of megabytes.
 */
module Disks {
  import opened Wrappers

  /** What the spoke reads of a device of the storage device tree. */
  datatype Device = Device(
    name: string,
    size: nat,
    serial: Option<string>,
    isDisk: bool,
    formatHidden: bool,
    isProtected: bool,
    removable: bool)

  /** A device `getDisks` keeps: a disk, not hidden, not a protected removable one. */
  predicate Offered(d: Device) {
    d.isDisk && !d.formatHidden && !(d.isProtected && d.removable)
  }

  /** `getDisks(devicetree)`: the offered devices, in device-tree order. */
  function GetDisks(devices: seq<Device>): (disks: seq<Device>)
    ensures forall d :: d in disks <==> d in devices && Offered(d)
    ensures |disks| <= |devices|
  {
    if devices == [] then []
    else (if Offered(devices[0]) then [devices[0]] else []) + GetDisks(devices[1..])
  }

  /** The filter works device by device, so it keeps the device-tree order. */
  lemma {:induction false} GetDisksConcat(a: seq<Device>, b: seq<Device>)
    ensures GetDisks(a + b) == GetDisks(a) + GetDisks(b)
  {
    if a == [] {
      assert a + b == b;
    } else {
      assert (a + b)[0] == a[0] && (a + b)[1..] == a[1..] + b;
      GetDisksConcat(a[1..], b);
    }
  }

  /** Filtering the disks again changes nothing. */
  lemma {:induction false} GetDisksIdempotent(devices: seq<Device>)
    ensures GetDisks(GetDisks(devices)) == GetDisks(devices)
  {
    if devices != [] {
      GetDisksIdempotent(devices[1..]);
      var rest := GetDisks(devices[1..]);
      if Offered(devices[0]) {
        assert ([devices[0]] + rest)[0] == devices[0] && ([devices[0]] + rest)[1..] == rest;
      } else {
        assert GetDisks(devices) == rest;
      }
    }
  }

  /** `[d for d in disks if d.name in selected]`. */
  function SelectedOf(disks: seq<Device>, selected: seq<string>): (r: seq<Device>)
    ensures forall d :: d in r <==> d in disks && d.name in selected
    ensures |r| <= |disks|
  {
    if disks == [] then []
    else (if disks[0].name in selected then [disks[0]] else []) + SelectedOf(disks[1..], selected)
  }

  /**
   * The comprehension picks disk by disk, so it keeps the disks' order and
   * every copy of a disk whose name is selected.
   */
  lemma {:induction false} SelectedOfConcat(a: seq<Device>, b: seq<Device>, selected: seq<string>)
    ensures SelectedOf(a + b, selected) == SelectedOf(a, selected) + SelectedOf(b, selected)
  {
    if a == [] {
      assert a + b == b;
    } else {
      assert (a + b)[0] == a[0] && (a + b)[1..] == a[1..] + b;
      SelectedOfConcat(a[1..], b, selected);
    }
  }

  /** The names `[d.name for d in disks]`. */
  function NamesOf(disks: seq<Device>): (names: seq<string>)
    ensures |names| == |disks|
    ensures forall i :: 0 <= i < |disks| ==> names[i] == disks[i].name
  {
    if disks == [] then [] else [disks[0].name] + NamesOf(disks[1..])
  }

  /** One value of the free-space dictionary: free disk space and free filesystem space. */
  datatype FreeSpace = FreeSpace(diskFree: nat, fsFree: nat)

  /** `sum([d.size for d in disks])`. */
  function SumSizes(disks: seq<Device>): nat {
    if disks == [] then 0 else SumSizes(disks[..|disks| - 1]) + disks[|disks| - 1].size
  }

  /** `sum([f[0] for f in free_space.itervalues()])`. */
  function SumDiskFree(values: seq<FreeSpace>): nat {
    if values == [] then 0 else SumDiskFree(values[..|values| - 1]) + values[|values| - 1].diskFree
  }

  /** Every disk has an entry in the free-space dictionary. */
  predicate FreeKnown(disks: seq<Device>, freeSpace: map<string, FreeSpace>) {
    forall d :: d in disks ==> d.name in freeSpace
  }

  /** The free disk space of `disks`, looked up by name. */
  function SumFree(disks: seq<Device>, freeSpace: map<string, FreeSpace>): nat
    requires FreeKnown(disks, freeSpace)
  {
    if disks == [] then 0
    else SumFree(disks[..|disks| - 1], freeSpace) + freeSpace[disks[|disks| - 1].name].diskFree
  }

  /** What the summary line reports. */
  datatype Totals = Totals(count: nat, capacity: nat, free: nat)

  /**
   * The loop of `_update_summary` over the selected disks. A disk without an
   * entry in `freeSpace` makes the lookup raise `KeyError`, modelled as `None`.
   */
  method Tally(selected: seq<Device>, freeSpace: map<string, FreeSpace>) returns (r: Option<Totals>)
    ensures r.Some? <==> FreeKnown(selected, freeSpace)
    ensures r.Some? ==> r.value.count == |selected|
    ensures r.Some? ==> r.value.capacity == SumSizes(selected)
    ensures r.Some? ==> r.value.free == SumFree(selected, freeSpace)
  {
    var count, capacity, free := 0, 0, 0;
    for i := 0 to |selected|
      invariant FreeKnown(selected[..i], freeSpace)
      invariant count == i
      invariant capacity == SumSizes(selected[..i])
      invariant free == SumFree(selected[..i], freeSpace)
    {
      var d := selected[i];
      assert selected[..i + 1][..i] == selected[..i] && selected[..i + 1][i] == d;
      capacity := capacity + d.size;
      if d.name !in freeSpace {
        return None;
      }
      free := free + freeSpace[d.name].diskFree;
      count := count + 1;
    }
    assert selected[..|selected|] == selected;
    return Some(Totals(count, capacity, free));
  }

  /** The continue and summary buttons are enabled exactly when a disk is selected. */
  lemma SelectionGatesContinue(disks: seq<Device>, selected: seq<string>)
    ensures |SelectedOf(disks, selected)| > 0 <==> exists d :: d in disks && d.name in selected
  {
    var s := SelectedOf(disks, selected);
    if |s| > 0 {
      assert s[0] in s;
    }
  }
}
