/**
 * The popup string of a disk overview, "name | serial", and the way the
 * storage spoke recovers the disk name from it: the text before the first
 * '|' (Python's `str.partition`), with surrounding whitespace removed
 * (Python 2's `str.strip()` with no argument).
 */
module Popup {
  import opened Wrappers

  /** The characters `str.strip()` removes: space, \t, \n, \v, \f and \r. */
  predicate IsSpace(c: char) {
    c == ' ' || '\t' <= c <= '\r'
  }

  /** Neither end of `s` is whitespace. */
  predicate Stripped(s: string) {
    s == [] || (!IsSpace(s[0]) && !IsSpace(s[|s| - 1]))
  }

  /** `s` without its leading whitespace. */
  function StripLeft(s: string): string {
    if s != [] && IsSpace(s[0]) then StripLeft(s[1..]) else s
  }

  /** `s` without its trailing whitespace. */
  function StripRight(s: string): string {
    if s != [] && IsSpace(s[|s| - 1]) then StripRight(s[..|s| - 1]) else s
  }

  /** `StripLeft` drops a leading run of whitespace and stops at the first other character. */
  lemma {:induction false} StripLeftDrops(s: string)
    ensures var r := StripLeft(s);
      && |r| <= |s| && r == s[|s| - |r|..]
      && (forall i :: 0 <= i < |s| - |r| ==> IsSpace(s[i]))
      && (r != [] ==> !IsSpace(r[0]))
  {
    if s != [] && IsSpace(s[0]) {
      var t := s[1..];
      StripLeftDrops(t);
      var r := StripLeft(t);
      assert StripLeft(s) == r;
      assert t[|t| - |r|..] == s[|s| - |r|..];
      forall i | 0 <= i < |s| - |r| ensures IsSpace(s[i]) {
        if i > 0 {
          assert s[i] == t[i - 1];
        }
      }
    }
  }

  /** `StripRight` drops a trailing run of whitespace and stops at the last other character. */
  lemma {:induction false} StripRightDrops(s: string)
    ensures var r := StripRight(s);
      && |r| <= |s| && r == s[..|r|]
      && (forall i :: |r| <= i < |s| ==> IsSpace(s[i]))
      && (r != [] ==> !IsSpace(r[|r| - 1]))
  {
    if s != [] && IsSpace(s[|s| - 1]) {
      var t := s[..|s| - 1];
      StripRightDrops(t);
      var r := StripRight(t);
      assert StripRight(s) == r;
      assert t[..|r|] == s[..|r|];
      forall i | |r| <= i < |s| ensures IsSpace(s[i]) {
        if i < |s| - 1 {
          assert s[i] == t[i];
        }
      }
    }
  }

  /** Python's `s.strip()`. */
  function Strip(s: string): (r: string)
    ensures Stripped(r)
  {
    StripRightDrops(s);
    StripLeftDrops(StripRight(s));
    StripLeft(StripRight(s))
  }

  /**
   * `Strip` takes out a slice of `s`, and what lies outside the slice on
   * either side is whitespace.
   */
  lemma StripIsSlice(s: string)
    ensures exists a :: TrimmedAt(s, a, Strip(s))
  {
    var t := StripRight(s);
    var r := StripLeft(t);
    StripRightDrops(s);
    StripLeftDrops(t);
    assert r == Strip(s);
    assert r == s[|t| - |r|..|t|];
    assert TrimmedAt(s, |t| - |r|, Strip(s));
  }

  /** `r` is the slice of `s` at `a`, and everything outside it is whitespace. */
  predicate TrimmedAt(s: string, a: int, r: string) {
    && 0 <= a <= |s| - |r|
    && r == s[a..a + |r|]
    && (forall i :: 0 <= i < a ==> IsSpace(s[i]))
    && (forall i :: a + |r| <= i < |s| ==> IsSpace(s[i]))
  }

  /** `s.partition(sep)[0]`: the text before the first `sep`, or all of `s`. */
  function Head(s: string, sep: char): (r: string)
    ensures sep !in r
    ensures |r| <= |s| && r == s[..|r|]
    ensures |r| < |s| ==> s[|r|] == sep
  {
    if s == [] || s[0] == sep then [] else [s[0]] + Head(s[1..], sep)
  }

  /** The disk name the spoke reads back from an overview's popup string. */
  function PopupName(info: string): (name: string)
    ensures '|' !in name
    ensures Stripped(name)
    ensures |name| <= |info|
  {
    var h := Head(info, '|');
    StripIsSlice(h);
    var name := Strip(h);
    assert forall k :: 0 <= k < |name| ==> name[k] in h;
    name
  }

  /** What `"%s" % serial` gives: Python prints a missing serial as "None". */
  function SerialText(serial: Option<string>): string {
    match serial
    case None => "None"
    case Some(s) => s
  }

  /** The popup string `"%s | %s" % (name, serial)` built for each disk. */
  function PopupInfo(name: string, serial: Option<string>): string {
    name + " | " + SerialText(serial)
  }

  /** A stripped string is its own strip. */
  lemma StrippedIsFixed(s: string)
    requires Stripped(s)
    ensures Strip(s) == s
  {
  }

  /** Whitespace after a stripped string is all that `Strip` drops. */
  lemma StripTrailingSpace(s: string, c: char)
    requires Stripped(s) && IsSpace(c)
    ensures Strip(s + [c]) == s
  {
    assert (s + [c])[..|s|] == s;
    assert StripRight(s + [c]) == StripRight(s);
  }

  /** The text before the first separator when `a` holds none. */
  lemma {:induction false} HeadOfJoin(a: string, sep: char, b: string)
    requires sep !in a
    ensures Head(a + [sep] + b, sep) == a
  {
    if a != [] {
      assert (a + [sep] + b)[1..] == a[1..] + [sep] + b;
      HeadOfJoin(a[1..], sep, b);
    }
  }

  /**
   * Parsing the popup string of a disk gives back its name whenever the
   * name holds no '|' and no surrounding whitespace.
   */
  lemma PopupNameRoundTrip(name: string, serial: Option<string>)
    requires '|' !in name && Stripped(name)
    ensures PopupName(PopupInfo(name, serial)) == name
  {
    var info := PopupInfo(name, serial);
    assert info == (name + [' ']) + ['|'] + (" " + SerialText(serial));
    assert '|' !in name + [' '];
    HeadOfJoin(name + [' '], '|', " " + SerialText(serial));
    StripTrailingSpace(name, ' ');
  }
}
