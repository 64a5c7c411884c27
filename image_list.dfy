/**
 * Reading the image-id list: every whitespace character is removed from each
 * line, lines that become empty are dropped, and the remaining ids keep the
 * order of their lines.
 */
module ImageList {

  /** `isspace` in the C locale: space, tab, newline, vertical tab, form feed, carriage return. */
  predicate IsSpace(c: char) {
    c == ' ' || c == '\t' || c == '\n' || c == '\U{B}' || c == '\U{C}' || c == '\r'
  }

  /** A line with every whitespace character taken out. */
  function Strip(s: string): (r: string) {
    if s == [] then [] else Strip(s[..|s| - 1]) + (if IsSpace(s[|s| - 1]) then [] else [s[|s| - 1]])
  }

  /** A stripped line holds no whitespace and is never longer than the line. */
  lemma {:induction false} StripNoSpace(s: string)
    ensures |Strip(s)| <= |s|
    ensures forall i | 0 <= i < |Strip(s)| :: !IsSpace(Strip(s)[i])
  {
    if s != [] {
      StripNoSpace(s[..|s| - 1]);
    }
  }

  /** Stripping works piecewise and keeps the order of the characters it keeps. */
  lemma {:induction false} StripConcat(a: string, b: string)
    ensures Strip(a + b) == Strip(a) + Strip(b)
    decreases |b|
  {
    if b == [] {
      assert a + b == a;
    } else {
      var b' := b[..|b| - 1];
      assert (a + b)[..|a + b| - 1] == a + b';
      StripConcat(a, b');
    }
  }

  /** A line is left unchanged exactly when it holds no whitespace. */
  lemma {:induction false} StripFixed(s: string)
    ensures Strip(s) == s <==> forall i | 0 <= i < |s| :: !IsSpace(s[i])
  {
    if s != [] {
      var s' := s[..|s| - 1];
      StripFixed(s');
      StripNoSpace(s');
      if forall i | 0 <= i < |s| :: !IsSpace(s[i]) {
        assert forall i | 0 <= i < |s'| :: !IsSpace(s'[i]) by {
          forall i | 0 <= i < |s'| ensures !IsSpace(s'[i]) { assert s'[i] == s[i]; }
        }
        assert s == s' + [s[|s| - 1]];
      } else if Strip(s) == s {
        StripNoSpace(s);
      }
    }
  }

  /** Stripping a line one character longer. */
  lemma StripSnoc(s: string, c: char)
    ensures Strip(s + [c]) == Strip(s) + (if IsSpace(c) then [] else [c])
  {
    assert (s + [c])[..|s|] == s;
  }

  /** Stripping one more character of a line. */
  lemma StripPrefix(line: string, i: nat)
    requires i < |line|
    ensures Strip(line[..i + 1]) == Strip(line[..i]) + (if IsSpace(line[i]) then [] else [line[i]])
  {
    assert line[..i + 1] == line[..i] + [line[i]];
    StripSnoc(line[..i], line[i]);
  }

  /** Stripping twice is stripping once. */
  lemma StripIdempotent(s: string)
    ensures Strip(Strip(s)) == Strip(s)
  {
    StripNoSpace(s);
    StripFixed(Strip(s));
  }

  /**
   * `remove_if(..., isspace)` followed by `erase`: the non-whitespace characters
   * are moved to the front of the buffer in order; the line is the first `len` of them.
   */
  method RemoveSpaces(a: array<char>) returns (len: nat)
    modifies a
    ensures len <= a.Length
    ensures a[..len] == Strip(old(a[..]))
  {
    ghost var line := a[..];
    ghost var out: string := [];  // the line stripped so far
    len := 0;
    var i := 0;
    while i < a.Length
      invariant len <= i <= a.Length && a.Length == |line|
      invariant out == Strip(line[..i]) && |out| == len
      invariant forall j | 0 <= j < len :: a[j] == out[j]
      invariant forall j | i <= j < a.Length :: a[j] == line[j]
    {
      var c := a[i];
      StripPrefix(line, i);
      if !IsSpace(c) {
        a[len] := c;
        out := out + [c];
        len := len + 1;
      }
      i := i + 1;
    }
    assert line[..a.Length] == line;
    assert a[..len] == out;
  }

  /** The ids the list contributes: each line stripped, empty results dropped. */
  function CleanIds(lines: seq<string>): (ids: seq<string>) {
    if lines == [] then []
    else
      var id := Strip(lines[|lines| - 1]);
      CleanIds(lines[..|lines| - 1]) + (if id == [] then [] else [id])
  }

  /** Every id is non-empty and free of whitespace, and there is at most one per line. */
  lemma {:induction false} CleanIdsWellFormed(lines: seq<string>)
    ensures |CleanIds(lines)| <= |lines|
    ensures forall j | 0 <= j < |CleanIds(lines)| ::
              CleanIds(lines)[j] != [] && forall k | 0 <= k < |CleanIds(lines)[j]| :: !IsSpace(CleanIds(lines)[j][k])
  {
    if lines != [] {
      CleanIdsWellFormed(lines[..|lines| - 1]);
      StripNoSpace(lines[|lines| - 1]);
    }
  }

  /** The list reads piecewise: the ids of two parts of the file follow each other. */
  lemma {:induction false} CleanIdsConcat(a: seq<string>, b: seq<string>)
    ensures CleanIds(a + b) == CleanIds(a) + CleanIds(b)
    decreases |b|
  {
    if b == [] {
      assert a + b == a;
    } else {
      var b' := b[..|b| - 1];
      assert (a + b)[..|a + b| - 1] == a + b';
      CleanIdsConcat(a, b');
    }
  }

  /** The list yields no id exactly when every line is blank. */
  lemma {:induction false} CleanIdsEmpty(lines: seq<string>)
    ensures CleanIds(lines) == [] <==> forall i | 0 <= i < |lines| :: Strip(lines[i]) == []
  {
    if lines != [] {
      var init := lines[..|lines| - 1];
      CleanIdsEmpty(init);
      assert forall i | 0 <= i < |init| :: init[i] == lines[i];
    }
  }

  /**
   * Where each id comes from: `src[j]` is the line of the j-th id; the lines are
   * strictly increasing, each id is its line stripped, and every other line is blank.
   */
  lemma {:induction false} CleanIdsOrigin(lines: seq<string>) returns (src: seq<nat>)
    ensures Origin(lines, CleanIds(lines), src)
  {
    if lines == [] {
      src := [];
    } else {
      var n := |lines| - 1;
      var prev := CleanIdsOrigin(lines[..n]);
      src := OriginStep(lines, CleanIds(lines[..n]), prev);
    }
  }

  /**
   * `src[j]` is the line of `ids[j]`: the lines are strictly increasing, each
   * id is its line stripped, and every other line is blank.
   */
  ghost predicate Origin(lines: seq<string>, ids: seq<string>, src: seq<nat>) {
    && |src| == |ids|
    && (forall j | 0 <= j < |src| :: src[j] < |lines| && ids[j] == Strip(lines[src[j]]))
    && (forall j, j' | 0 <= j < j' < |src| :: src[j] < src[j'])
    && (forall i | 0 <= i < |lines| && i !in src :: Strip(lines[i]) == [])
  }

  /** The origins of the ids extend by the last line, if it is not blank. */
  lemma OriginStep(lines: seq<string>, ids: seq<string>, prev: seq<nat>) returns (src: seq<nat>)
    requires lines != [] && Origin(lines[..|lines| - 1], ids, prev)
    ensures var id := Strip(lines[|lines| - 1]);
            Origin(lines, ids + (if id == [] then [] else [id]), src)
  {
    var n := |lines| - 1;
    var init, id := lines[..n], Strip(lines[n]);
    assert forall i | 0 <= i < n :: init[i] == lines[i];
    if id == [] {
      src := prev;
      assert ids + [] == ids;
      forall j | 0 <= j < |src| ensures src[j] < |lines| && ids[j] == Strip(lines[src[j]]) {
        assert init[prev[j]] == lines[prev[j]];
      }
    } else {
      src := prev + [n];
      var ids' := ids + [id];
      forall j | 0 <= j < |src| ensures src[j] < |lines| && ids'[j] == Strip(lines[src[j]]) {
        if j < |prev| {
          assert src[j] == prev[j] && ids'[j] == ids[j] && init[prev[j]] == lines[prev[j]];
        }
      }
      forall j, j' | 0 <= j < j' < |src| ensures src[j] < src[j'] {
        assert src[j] == prev[j] < n;
        if j' < |prev| {
          assert src[j'] == prev[j'];
        }
      }
      forall i | 0 <= i < |lines| && i !in src ensures Strip(lines[i]) == [] {
        assert i != n && i !in prev;
      }
    }
  }

  /** The `getline` loop: clean every line in place and keep the non-empty ones. */
  method ReadIds(lines: seq<string>) returns (ids: seq<string>)
    ensures ids == CleanIds(lines)
  {
    ids := [];
    var n := 0;
    while n < |lines|
      invariant n <= |lines|
      invariant ids == CleanIds(lines[..n])
    {
      var line := lines[n];
      var buf := new char[|line|](i requires 0 <= i < |line| => line[i]);
      assert buf[..] == line;
      var len := RemoveSpaces(buf);
      var id := buf[..len];
      if id != [] {
        ids := ids + [id];
      }
      assert lines[..n + 1][..n] == lines[..n];
      n := n + 1;
    }
    assert lines[..n] == lines;
  }
}
