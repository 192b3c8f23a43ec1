/**
 * The two directions of synchronisation between the disk overview rows and
 * the spoke's list of selected disk names: `_update_disk_list` reads the
 * rows' chosen flags into the list, and `refresh` / `on_summary_clicked`
 * write the list back into the rows.
 */
module DiskList {
  /**
   * One disk overview row as the synchronisation sees it: the disk name
   * parsed from its popup string, and whether the row is chosen.
   */
  datatype Row = Row(name: string, chosen: bool)

  predicate NoDup(s: seq<string>) {
    forall i, j :: 0 <= i < j < |s| ==> s[i] != s[j]
  }

  /** No two rows stand for the same disk name. */
  predicate DistinctNames(rows: seq<Row>) {
    forall i, j :: 0 <= i < j < |rows| ==> rows[i].name != rows[j].name
  }

  /** The position of the first `x` in `s`. */
  function IndexOf(s: seq<string>, x: string): (i: nat)
    requires x in s
    ensures i < |s| && s[i] == x && x !in s[..i]
  {
    if s[0] == x then 0 else 1 + IndexOf(s[1..], x)
  }

  /** Python's `s.remove(x)`: drop the first occurrence of `x`. */
  function Remove(s: seq<string>, x: string): seq<string>
    requires x in s
  {
    if s[0] == x then s[1..] else [s[0]] + Remove(s[1..], x)
  }

  /** `Remove` cuts out exactly the first occurrence. */
  lemma {:induction false} RemoveAt(s: seq<string>, x: string)
    requires x in s
    ensures Remove(s, x) == s[..IndexOf(s, x)] + s[IndexOf(s, x) + 1..]
  {
    if s[0] != x {
      var t := s[1..];
      RemoveAt(t, x);
      var j := IndexOf(t, x);
      assert IndexOf(s, x) == j + 1;
      assert s[..j + 1] == [s[0]] + t[..j];
      assert s[j + 2..] == t[j + 1..];
      assert Remove(s, x) == [s[0]] + (t[..j] + t[j + 1..]);
    }
  }

  /** One iteration of the loop in `_update_disk_list`. */
  function Step(sel: seq<string>, o: Row): seq<string> {
    var name := o.name;
    if o.chosen && name !in sel then sel + [name]
    else if !o.chosen && name in sel then Remove(sel, name)
    else sel
  }

  /** The selection `_update_disk_list` leaves after visiting `rows` in order. */
  function UpdatedSelection(rows: seq<Row>, sel: seq<string>): seq<string> {
    if rows == [] then sel
    else Step(UpdatedSelection(rows[..|rows| - 1], sel), rows[|rows| - 1])
  }

  /** What `refresh` and `on_summary_clicked` do to the rows. */
  function MarkChosen(rows: seq<Row>, sel: seq<string>): seq<Row> {
    seq(|rows|, i requires 0 <= i < |rows| => rows[i].(chosen := rows[i].name in sel))
  }

  /** The elements of `s` outside `d`, in their order in `s`. */
  function Without(s: seq<string>, d: set<string>): (r: seq<string>)
    ensures forall x :: x in r <==> x in s && x !in d
    ensures |r| <= |s|
  {
    if s == [] then []
    else (if s[0] in d then [] else [s[0]]) + Without(s[1..], d)
  }

  /** The disk names the rows stand for. */
  function Names(rows: seq<Row>): (r: set<string>)
    ensures forall i :: 0 <= i < |rows| ==> rows[i].name in r
    ensures forall x :: x in r ==> exists i :: 0 <= i < |rows| && rows[i].name == x
  {
    if rows == [] then {}
    else Names(rows[..|rows| - 1]) + {rows[|rows| - 1].name}
  }

  /** The names of the rows that are not chosen. */
  function Unchosen(rows: seq<Row>): (r: set<string>)
    ensures r <= Names(rows)
  {
    if rows == [] then {}
    else
      var last := rows[|rows| - 1];
      Unchosen(rows[..|rows| - 1]) + (if last.chosen then {} else {last.name})
  }

  /** The names of chosen rows missing from `sel`, in row order. */
  function Added(rows: seq<Row>, sel: seq<string>): (r: seq<string>)
    ensures forall x :: x in r ==> x in Names(rows) && x !in sel
  {
    if rows == [] then []
    else
      var last := rows[|rows| - 1];
      Added(rows[..|rows| - 1], sel) + (if last.chosen && last.name !in sel then [last.name] else [])
  }

  // ---------------------------------------------------------------------
  // Facts about Remove and Without

  /** The tail of a list without duplicates has none and does not hold the head. */
  lemma NoDupTail(s: seq<string>)
    requires NoDup(s) && s != []
    ensures NoDup(s[1..]) && s[0] !in s[1..]
  {
    var t := s[1..];
    forall a, b | 0 <= a < b < |t| ensures t[a] != t[b] {
      assert t[a] == s[a + 1] && t[b] == s[b + 1];
    }
    forall k | 0 <= k < |t| ensures t[k] != s[0] {
      assert t[k] == s[k + 1];
    }
  }

  /** A new name in front of a list without duplicates adds none. */
  lemma NoDupCons(h: string, r: seq<string>)
    requires NoDup(r) && h !in r
    ensures NoDup([h] + r)
  {
    var s := [h] + r;
    forall a, b | 0 <= a < b < |s| ensures s[a] != s[b] {
      assert s[b] == r[b - 1];
      if a > 0 {
        assert s[a] == r[a - 1];
      }
    }
  }

  lemma {:induction false} RemoveNoDup(s: seq<string>, x: string)
    requires NoDup(s) && x in s
    ensures NoDup(Remove(s, x)) && x !in Remove(s, x)
  {
    var t := s[1..];
    NoDupTail(s);
    if s[0] != x {
      RemoveNoDup(t, x);
      RemoveKeepsOthers(t, x, s[0]);
      NoDupCons(s[0], Remove(t, x));
    }
  }

  /** Removing `x` leaves every other name where it was. */
  lemma {:induction false} RemoveKeepsOthers(s: seq<string>, x: string, y: string)
    requires x in s && y != x
    ensures y in Remove(s, x) <==> y in s
  {
    var t := s[1..];
    assert s == [s[0]] + t;
    if s[0] != x {
      RemoveKeepsOthers(t, x, y);
      assert Remove(s, x) == [s[0]] + Remove(t, x);
    }
  }

  lemma {:induction false} WithoutConcat(a: seq<string>, b: seq<string>, d: set<string>)
    ensures Without(a + b, d) == Without(a, d) + Without(b, d)
  {
    if a == [] {
      assert a + b == b;
    } else {
      assert (a + b)[0] == a[0] && (a + b)[1..] == a[1..] + b;
      WithoutConcat(a[1..], b, d);
    }
  }

  lemma {:induction false} WithoutRemove(s: seq<string>, x: string, d: set<string>)
    requires x in s && x in d
    ensures Without(Remove(s, x), d) == Without(s, d)
  {
    if s[0] != x {
      WithoutRemove(s[1..], x, d);
      assert Remove(s, x) == [s[0]] + Remove(s[1..], x);
      assert ([s[0]] + Remove(s[1..], x))[1..] == Remove(s[1..], x);
    }
  }

  /** Without a duplicate, removing `x` from a filtered list filters `x` too. */
  lemma {:induction false} RemoveFromWithout(s: seq<string>, d: set<string>, x: string)
    requires NoDup(s) && x in s && x !in d
    ensures x in Without(s, d)
    ensures Remove(Without(s, d), x) == Without(s, d + {x})
  {
    var t := s[1..];
    NoDupTail(s);
    if s[0] == x {
      assert Without(s, d) == [x] + Without(t, d);
      assert Without(s, d + {x}) == Without(t, d + {x});
      NotInWithout(t, d, x);
    } else {
      RemoveFromWithout(t, d, x);
      if s[0] in d {
        assert Without(s, d) == Without(t, d);
        assert Without(s, d + {x}) == Without(t, d + {x});
      } else {
        var w := Without(t, d);
        assert Without(s, d) == [s[0]] + w;
        assert Without(s, d + {x}) == [s[0]] + Without(t, d + {x});
        assert ([s[0]] + w)[0] == s[0] && ([s[0]] + w)[1..] == w;
      }
    }
  }

  /** A name absent from `s` makes no difference to what is filtered out. */
  lemma {:induction false} NotInWithout(s: seq<string>, d: set<string>, x: string)
    requires x !in s
    ensures Without(s, d + {x}) == Without(s, d)
  {
    if s != [] {
      NotInWithout(s[1..], d, x);
    }
  }

  // ---------------------------------------------------------------------
  // Properties of _update_disk_list

  /** Every chosen row's name ends up in the list, whatever the list held. */
  lemma {:induction false} UpdateKeepsChosen(rows: seq<Row>, sel: seq<string>, i: int)
    requires DistinctNames(rows) && 0 <= i < |rows| && rows[i].chosen
    ensures rows[i].name in UpdatedSelection(rows, sel)
  {
    var n := |rows|;
    var prefix := rows[..n - 1];
    var last := rows[n - 1];
    var cur := UpdatedSelection(prefix, sel);
    if i < n - 1 {
      assert prefix[i] == rows[i];
      DistinctPrefix(rows);
      UpdateKeepsChosen(prefix, sel, i);
      if !last.chosen && last.name in cur {
        RemoveKeepsOthers(cur, last.name, rows[i].name);
      }
    }
  }

  /** No unchosen row's name is left in a list that started without duplicates. */
  lemma {:induction false} UpdateDropsUnchosen(rows: seq<Row>, sel: seq<string>, i: int)
    requires NoDup(sel) && DistinctNames(rows) && 0 <= i < |rows| && !rows[i].chosen
    ensures rows[i].name !in UpdatedSelection(rows, sel)
  {
    var n := |rows|;
    var prefix := rows[..n - 1];
    var last := rows[n - 1];
    var cur := UpdatedSelection(prefix, sel);
    UpdateNoDup(prefix, sel);
    if i < n - 1 {
      assert prefix[i] == rows[i];
      DistinctPrefix(rows);
      UpdateDropsUnchosen(prefix, sel, i);
      if !last.chosen && last.name in cur {
        RemoveKeepsOthers(cur, last.name, rows[i].name);
      }
    } else if last.name in cur {
      RemoveNoDup(cur, last.name);
    }
  }

  /** Every chosen row's name and no unchosen row's name ends up in the list. */
  lemma UpdateMembership(rows: seq<Row>, sel: seq<string>, i: int)
    requires NoDup(sel) && DistinctNames(rows) && 0 <= i < |rows|
    ensures rows[i].name in UpdatedSelection(rows, sel) <==> rows[i].chosen
  {
    if rows[i].chosen {
      UpdateKeepsChosen(rows, sel, i);
    } else {
      UpdateDropsUnchosen(rows, sel, i);
    }
  }

  /**
   * Why the list must start without duplicates: `remove` drops only the
   * first copy, so an unchosen row's name can stay selected.
   */
  lemma DuplicateOutlivesRemove()
    ensures "sda" in UpdatedSelection([Row("sda", false)], ["sda", "sda"])
  {
    assert UpdatedSelection([Row("sda", false)], ["sda", "sda"]) == Remove(["sda", "sda"], "sda");
  }

  /** Why the row names must be distinct: of two rows with one name, the later one decides. */
  lemma LaterRowDecides()
    ensures "sda" !in UpdatedSelection([Row("sda", true), Row("sda", false)], [])
  {
    var rows := [Row("sda", true), Row("sda", false)];
    assert rows[..1] == [Row("sda", true)];
    assert UpdatedSelection(rows[..1], []) == ["sda"];
  }

  /** A list without duplicates keeps none. */
  lemma {:induction false} UpdateNoDup(rows: seq<Row>, sel: seq<string>)
    requires NoDup(sel)
    ensures NoDup(UpdatedSelection(rows, sel))
  {
    if rows != [] {
      var cur := UpdatedSelection(rows[..|rows| - 1], sel);
      UpdateNoDup(rows[..|rows| - 1], sel);
      var o := rows[|rows| - 1];
      if !o.chosen && o.name in cur {
        RemoveNoDup(cur, o.name);
      }
    }
  }

  /**
   * Names that belong to no row (outside `d`, which holds every row's name)
   * are left untouched, and so is their relative order.
   */
  lemma {:induction false} UpdateKeepsOthers(rows: seq<Row>, sel: seq<string>, d: set<string>)
    requires forall i :: 0 <= i < |rows| ==> rows[i].name in d
    ensures Without(UpdatedSelection(rows, sel), d) == Without(sel, d)
  {
    if rows != [] {
      var prefix := rows[..|rows| - 1];
      var cur := UpdatedSelection(prefix, sel);
      assert forall i :: 0 <= i < |prefix| ==> prefix[i] == rows[i];
      UpdateKeepsOthers(prefix, sel, d);
      var o := rows[|rows| - 1];
      var name := o.name;
      if o.chosen && name !in cur {
        WithoutConcat(cur, [name], d);
      } else if !o.chosen && name in cur {
        WithoutRemove(cur, name, d);
      }
    }
  }

  /**
   * The whole effect of `_update_disk_list`: the names of unchosen rows are
   * dropped, everything else keeps its order, and the newly chosen names
   * follow at the end in row order.
   */
  lemma {:induction false} UpdateClosedForm(rows: seq<Row>, sel: seq<string>)
    requires NoDup(sel) && DistinctNames(rows)
    ensures UpdatedSelection(rows, sel) == Without(sel, Unchosen(rows)) + Added(rows, sel)
  {
    if rows == [] {
      assert Without(sel, {}) == sel by { WithoutNothing(sel); }
    } else {
      var prefix, o := rows[..|rows| - 1], rows[|rows| - 1];
      assert rows == prefix + [o];
      DistinctPrefix(rows);
      UpdateClosedForm(prefix, sel);
      ExtendClosedForm(prefix, o, sel);
    }
  }

  /** One more row, whose name is new, keeps the closed form. */
  lemma ExtendClosedForm(prefix: seq<Row>, o: Row, sel: seq<string>)
    requires NoDup(sel) && o.name !in Names(prefix)
    requires UpdatedSelection(prefix, sel) == Without(sel, Unchosen(prefix)) + Added(prefix, sel)
    ensures UpdatedSelection(prefix + [o], sel)
      == Without(sel, Unchosen(prefix + [o])) + Added(prefix + [o], sel)
  {
    var rows := prefix + [o];
    assert rows[..|rows| - 1] == prefix && rows[|rows| - 1] == o;
    var u, a := Unchosen(prefix), Added(prefix, sel);
    assert o.name in Without(sel, u) + a <==> o.name in sel;
    var cur := UpdatedSelection(prefix, sel);
    assert UpdatedSelection(rows, sel) == Step(cur, o);
    assert Unchosen(rows) == u + (if o.chosen then {} else {o.name});
    assert Added(rows, sel) == a + (if o.chosen && o.name !in sel then [o.name] else []);
    ClosedFormStep(sel, u, a, o);
  }

  /** The step itself, on the closed form of the rows before. */
  lemma ClosedFormStep(sel: seq<string>, u: set<string>, a: seq<string>, o: Row)
    requires NoDup(sel) && o.name !in u && o.name !in a
    requires o.name in Without(sel, u) + a <==> o.name in sel
    ensures Step(Without(sel, u) + a, o)
      == Without(sel, u + (if o.chosen then {} else {o.name}))
         + (a + (if o.chosen && o.name !in sel then [o.name] else []))
  {
    if o.chosen && o.name !in sel {
      assert u + {} == u;
      assert Step(Without(sel, u) + a, o) == Without(sel, u) + a + [o.name];
      assert Without(sel, u) + a + [o.name] == Without(sel, u) + (a + [o.name]);
    } else if o.chosen {
      assert u + {} == u && a + [] == a;
    } else if o.name in sel {
      RemoveStep(sel, u, a, o.name);
    } else {
      NotInWithout(sel, u, o.name);
      assert a + [] == a;
    }
  }

  /** Dropping the last row keeps the names distinct, and the last name is new. */
  lemma DistinctPrefix(rows: seq<Row>)
    requires DistinctNames(rows) && rows != []
    ensures DistinctNames(rows[..|rows| - 1])
    ensures rows[|rows| - 1].name !in Names(rows[..|rows| - 1])
    ensures rows[|rows| - 1].name !in Unchosen(rows[..|rows| - 1])
  {
    var prefix := rows[..|rows| - 1];
    forall a, b | 0 <= a < b < |prefix| ensures prefix[a].name != prefix[b].name {
      assert prefix[a] == rows[a] && prefix[b] == rows[b];
    }
  }

  lemma RemoveStep(sel: seq<string>, u: set<string>, a: seq<string>, x: string)
    requires NoDup(sel) && x in sel && x !in u && x !in a
    ensures Remove(Without(sel, u) + a, x) == Without(sel, u + {x}) + (a + [])
  {
    assert a + [] == a;
    RemoveFromWithout(sel, u, x);
    RemoveInFront(Without(sel, u), a, x);
  }

  lemma {:induction false} WithoutNothing(s: seq<string>)
    ensures Without(s, {}) == s
  {
    if s != [] {
      WithoutNothing(s[1..]);
    }
  }

  lemma {:induction false} RemoveInFront(a: seq<string>, b: seq<string>, x: string)
    requires x in a
    ensures Remove(a + b, x) == Remove(a, x) + b
  {
    if a[0] != x {
      assert (a + b)[1..] == a[1..] + b;
      RemoveInFront(a[1..], b, x);
    }
  }

  /** When the rows already mirror the list, it comes back unchanged. */
  lemma {:induction false} MirroredRowsKeepSelection(rows: seq<Row>, sel: seq<string>)
    requires forall i :: 0 <= i < |rows| ==> (rows[i].chosen <==> rows[i].name in sel)
    ensures UpdatedSelection(rows, sel) == sel
  {
    if rows != [] {
      var prefix := rows[..|rows| - 1];
      assert forall i :: 0 <= i < |prefix| ==> prefix[i] == rows[i];
      MirroredRowsKeepSelection(prefix, sel);
    }
  }

  /**
   * Marking the rows from the list (`refresh`, `on_summary_clicked`) and
   * reading them back (`_update_disk_list`) leaves the list unchanged.
   */
  lemma SyncIdempotent(rows: seq<Row>, sel: seq<string>)
    ensures UpdatedSelection(MarkChosen(rows, sel), sel) == sel
  {
    MirroredRowsKeepSelection(MarkChosen(rows, sel), sel);
  }

  /**
   * Reading the rows into the list and marking them back from it leaves the
   * rows unchanged.
   */
  lemma MarkAfterUpdate(rows: seq<Row>, sel: seq<string>)
    requires NoDup(sel) && DistinctNames(rows)
    ensures MarkChosen(rows, UpdatedSelection(rows, sel)) == rows
  {
    forall i | 0 <= i < |rows| ensures MarkChosen(rows, UpdatedSelection(rows, sel))[i] == rows[i] {
      UpdateMembership(rows, sel, i);
    }
  }
}
