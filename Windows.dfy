/** The window registry: parsing the lines `wmctrl -l` prints into a snapshot keyed by
    window id (getWindowList), matching a window to a file by its title
    (findWindowByFileName) and preferring a window that appeared during the launch
    (selectWindowByFileName). */
module Windows {
  import opened Outcomes
  import opened Text
  import opened Paths

  /** The characters trim() removes by default: space, tab, newline, carriage return, NUL
      and vertical tab. */
  const TrimmedChars: set<char> := {' ', '\t', '\n', '\r', '\0', '\U{000B}'}

  /** The characters \s matches under the `u` modifier, with which PCRE also takes Unicode
      character properties: a separator of Unicode category Z (Zs, Zl, Zp), a horizontal
      space of \h or a vertical space of \v. These are tab, newline, vertical tab, form
      feed, carriage return, NEL, the Mongolian vowel separator and the Z separators. */
  const SpaceChars: set<char> := {
    '\t', '\n', '\U{000B}', '\U{000C}', '\r', '\U{0085}', '\U{180E}',
    ' ', '\U{00A0}', '\U{1680}', '\U{2000}', '\U{2001}', '\U{2002}', '\U{2003}', '\U{2004}',
    '\U{2005}', '\U{2006}', '\U{2007}', '\U{2008}', '\U{2009}', '\U{200A}', '\U{2028}',
    '\U{2029}', '\U{202F}', '\U{205F}', '\U{3000}'}

  /** One line of `wmctrl -l`, under the four keys the handler gives its fields. */
  datatype Window = Window(id: string, desktop: string, machine: string, title: string)

  /** A PHP array keyed by window id, as the association list of its entries in order. */
  type Snapshot = seq<Window>

  function Ids(s: Snapshot): (ids: seq<string>)
    ensures |ids| == |s| && forall k :: 0 <= k < |s| ==> ids[k] == s[k].id
  {
    if s == [] then [] else [s[0].id] + Ids(s[1..])
  }

  /** No id is the key of two entries. */
  predicate UniqueIds(s: Snapshot)
  {
    forall i, j :: 0 <= i < j < |s| ==> s[i].id != s[j].id
  }

  /** `$windows[$id] ?? null`. */
  function Lookup(s: Snapshot, id: string): (r: Option<Window>)
    ensures r.None? <==> id !in Ids(s)
    ensures r.Some? ==> r.value in s && r.value.id == id
  {
    if s == [] then None else if s[0].id == id then Some(s[0]) else Lookup(s[1..], id)
  }

  /** `$windows[$w['windowId']] = $w`: an existing key keeps its place and takes the new
      value, a new key goes to the end. */
  function Put(s: Snapshot, w: Window): (r: Snapshot)
    ensures Ids(r) == if w.id in Ids(s) then Ids(s) else Ids(s) + [w.id]
  {
    if s == [] then [w]
    else if s[0].id == w.id then [w] + s[1..]
    else
      var r := [s[0]] + Put(s[1..], w);
      assert r[1..] == Put(s[1..], w);
      assert Ids(s) == [s[0].id] + Ids(s[1..]);
      r
  }

  /** After the assignment the key holds the new window and every other key what it held. */
  lemma {:induction false} PutLookup(s: Snapshot, w: Window, id: string)
    ensures Lookup(Put(s, w), id) == if id == w.id then Some(w) else Lookup(s, id)
    decreases |s|
  {
    if s != [] && s[0].id != w.id {
      var r := Put(s, w);
      assert r[0] == s[0] && r[1..] == Put(s[1..], w);
      PutLookup(s[1..], w, id);
    }
  }

  /** Assignment never makes two entries share a key. */
  lemma PutUnique(s: Snapshot, w: Window)
    requires UniqueIds(s)
    ensures UniqueIds(Put(s, w))
  {
    var r := Put(s, w);
    forall i, j | 0 <= i < j < |r| ensures r[i].id != r[j].id {
      assert r[i].id == Ids(r)[i] && r[j].id == Ids(r)[j];
      if j < |s| {
        assert Ids(r)[i] == Ids(s)[i] == s[i].id && Ids(r)[j] == Ids(s)[j] == s[j].id;
      } else {
        assert w.id !in Ids(s) && Ids(r)[j] == w.id && Ids(r)[i] == Ids(s)[i];
      }
    }
  }

  /** What one output line contributes. */
  datatype Line = Blank | Malformed(fields: nat) | Entry(window: Window)

  /** One line of the parsing loop: trim it, skip it when it is falsy ("" or "0"), else split
      it at whitespace into at most four fields; array_combine with four keys throws when
      fewer than four came out. */
  function ParseLine(raw: string): Line
  {
    var line := Trim(raw, TrimmedChars);
    if line == "" || line == "0" then Blank
    else
      var parts := SplitRuns(line, SpaceChars, 4);
      if |parts| < 4 then Malformed(|parts|) else Entry(Window(parts[0], parts[1], parts[2], parts[3]))
  }

  /** An entry's fields are the trimmed line cut at its first three whitespace runs: the id,
      desktop and machine hold no whitespace, desktop and machine are not empty (each cut
      takes a whole run), and the title is all the rest of the line. */
  lemma ParseLineFields(raw: string)
    requires ParseLine(raw).Entry?
    ensures var w := ParseLine(raw).window;
      && NoneIn(w.id, SpaceChars) && NoneIn(w.desktop, SpaceChars) && NoneIn(w.machine, SpaceChars)
      && |w.desktop| > 0 && |w.machine| > 0
      && (w.title == [] || w.title[0] !in SpaceChars)
      && exists s1, s2, s3 :: |s1| > 0 && |s2| > 0 && |s3| > 0
           && AllIn(s1, SpaceChars) && AllIn(s2, SpaceChars) && AllIn(s3, SpaceChars)
           && Trim(raw, TrimmedChars) == w.id + s1 + w.desktop + s2 + w.machine + s3 + w.title
  {
    var line := Trim(raw, TrimmedChars);
    var parts := SplitRuns(line, SpaceChars, 4);
    SplitRunsPieces(line, SpaceChars, 4);
    var seps := SplitRunsGlue(line, SpaceChars, 4);
    assert |parts| == 4;
    GlueFour(parts, seps);
    assert seps[0] in seps && seps[1] in seps && seps[2] in seps;
  }

  /** A NEL (U+0085) is not trimmed but does separate fields: a line ending in one after
      three fields is an entry with an empty title. */
  lemma TrailingNelEndsFields()
    ensures ParseLine("0x1 0 host\U{0085}") == Entry(Window("0x1", "0", "host", ""))
  {
    NelLineKept();
    NelLineSplit();
    EntryOfLine("0x1 0 host\U{0085}", "0x1 0 host\U{0085}", ["0x1", "0", "host", ""]);
  }

  /** A raw line whose trimmed form is neither empty nor "0" and splits into four pieces is
      the entry of those pieces. */
  lemma EntryOfLine(raw: string, line: string, parts: seq<string>)
    requires Trim(raw, TrimmedChars) == line && |line| > 1
    requires SplitRuns(line, SpaceChars, 4) == parts && |parts| == 4
    ensures ParseLine(raw) == Entry(Window(parts[0], parts[1], parts[2], parts[3]))
  {
  }

  lemma NelLineKept()
    ensures Trim("0x1 0 host\U{0085}", TrimmedChars) == "0x1 0 host\U{0085}"
  {
    var line := "0x1 0 host\U{0085}";
    assert line[0] !in TrimmedChars;
    assert TrimLeft(line, TrimmedChars) == line;
    assert line[|line| - 1] !in TrimmedChars;
    assert TrimRight(line, TrimmedChars) == line;
  }

  lemma NelLineSplit()
    ensures SplitRuns("0x1 0 host\U{0085}", SpaceChars, 4) == ["0x1", "0", "host", ""]
  {
    var line := "0x1 0 host\U{0085}";
    NelLineRuns();
    assert |line| == 11 && line[0..3] == "0x1" && line[4..5] == "0" && line[6..10] == "host";
    assert line[11..] == [];
    assert SplitFrom(line, SpaceChars, 11, 1) == [[]];
    assert SplitFrom(line, SpaceChars, 6, 2) == ["host", ""];
    assert SplitFrom(line, SpaceChars, 4, 3) == ["0", "host", ""];
  }

  /** Where the whitespace runs of that line start and end. */
  lemma NelLineRuns()
    ensures var line := "0x1 0 host\U{0085}";
      && SeekRun(line, SpaceChars, 0) == 3 && SkipRun(line, SpaceChars, 3) == 4
      && SeekRun(line, SpaceChars, 4) == 5 && SkipRun(line, SpaceChars, 5) == 6
      && SeekRun(line, SpaceChars, 6) == 10 && SkipRun(line, SpaceChars, 10) == 11
  {
    var line := "0x1 0 host\U{0085}";
    assert SeekRun(line, SpaceChars, 3) == 3;
    assert SeekRun(line, SpaceChars, 2) == 3;
    assert SeekRun(line, SpaceChars, 1) == 3;
    assert SeekRun(line, SpaceChars, 0) == 3;
    assert SkipRun(line, SpaceChars, 3) == 4;
    assert SeekRun(line, SpaceChars, 4) == 5;
    assert SkipRun(line, SpaceChars, 5) == 6;
    assert SeekRun(line, SpaceChars, 10) == 10;
    assert SeekRun(line, SpaceChars, 9) == 10;
    assert SeekRun(line, SpaceChars, 8) == 10;
    assert SeekRun(line, SpaceChars, 7) == 10;
    assert SeekRun(line, SpaceChars, 6) == 10;
    assert SkipRun(line, SpaceChars, 10) == 11;
  }

  lemma GlueFour(parts: seq<string>, seps: seq<string>)
    requires |parts| == 4 && |seps| == 3
    ensures Glue(parts, seps) == parts[0] + seps[0] + parts[1] + seps[1] + parts[2] + seps[2] + parts[3]
  {
    var p1, s1 := parts[1..], seps[1..];
    var p2, s2 := p1[1..], s1[1..];
    assert Glue(p2, s2) == p2[0] + s2[0] + Glue(p2[1..], s2[1..]);
    assert Glue(p2[1..], s2[1..]) == parts[3];
    assert Glue(p1, s1) == p1[0] + s1[0] + Glue(p2, s2);
  }

  /** The output lines, each parsed on its own. */
  function ParseLines(lines: seq<string>): (ls: seq<Line>)
    ensures |ls| == |lines| && forall i :: 0 <= i < |lines| ==> ls[i] == ParseLine(lines[i])
  {
    seq(|lines|, i requires 0 <= i < |lines| => ParseLine(lines[i]))
  }

  /** One turn of the loop: a blank line adds nothing, a malformed one throws, an entry is
      stored under its id. */
  function Absorb(s: Snapshot, l: Line): Result<Snapshot>
  {
    match l
    case Blank => Success(s)
    case Malformed(_) => Failure(ValueError)
    case Entry(w) => Success(Put(s, w))
  }

  /** The loop of getWindowList over the parsed lines, as a fold that stops at the first
      failure. */
  function Fold(ls: seq<Line>): Result<Snapshot>
    decreases |ls|
  {
    if ls == [] then Success([])
    else match Fold(ls[..|ls| - 1])
      case Failure(e) => Failure(e)
      case Success(s) => Absorb(s, ls[|ls| - 1])
  }

  /** The map getWindowList builds from the output lines. */
  function Collect(lines: seq<string>): Result<Snapshot>
  {
    Fold(ParseLines(lines))
  }

  /** getWindowList once `wmctrl -l` has run: a failed query gives no windows. */
  function WindowList(exitCode: int, lines: seq<string>): Result<Snapshot>
  {
    if exitCode != 0 then Success([]) else Collect(lines)
  }

  /** The entry the last line carrying `id` made, if any line did. */
  function LastEntry(ls: seq<Line>, id: string): Option<Window>
    decreases |ls|
  {
    if ls == [] then None
    else
      var l := ls[|ls| - 1];
      if l.Entry? && l.window.id == id then Some(l.window) else LastEntry(ls[..|ls| - 1], id)
  }

  /** The fold fails exactly when some line is malformed, and then with ValueError. */
  lemma {:induction false} FoldFails(ls: seq<Line>)
    ensures Fold(ls).Failure? <==> exists i :: 0 <= i < |ls| && ls[i].Malformed?
    ensures Fold(ls).Failure? ==> Fold(ls).error == ValueError
    decreases |ls|
  {
    if ls != [] {
      var init, last := ls[..|ls| - 1], ls[|ls| - 1];
      FoldFails(init);
      assert Fold(ls) == if Fold(init).Failure? then Fold(init) else Absorb(Fold(init).value, last);
      if Fold(init).Failure? {
        var i :| 0 <= i < |init| && init[i].Malformed?;
        assert ls[i] == init[i];
      } else if last.Malformed? {
        assert ls[|ls| - 1].Malformed?;
      } else {
        forall i | 0 <= i < |ls| ensures !ls[i].Malformed? {
          if i < |init| {
            assert init[i] == ls[i];
          }
        }
      }
    }
  }

  /** Parsing fails exactly when some line is malformed, and then always with ValueError. */
  lemma CollectFails(lines: seq<string>)
    ensures Collect(lines).Failure? <==> exists i :: 0 <= i < |lines| && ParseLine(lines[i]).Malformed?
    ensures Collect(lines).Failure? ==> Collect(lines).error == ValueError
  {
    var ls := ParseLines(lines);
    FoldFails(ls);
    if exists i :: 0 <= i < |lines| && ParseLine(lines[i]).Malformed? {
      var i :| 0 <= i < |lines| && ParseLine(lines[i]).Malformed?;
      assert ls[i].Malformed?;
    }
  }

  /** The ids of the entry lines in the order they first appear, each once. */
  function FirstIds(ls: seq<Line>): seq<string>
    decreases |ls|
  {
    if ls == [] then []
    else
      var ids := FirstIds(ls[..|ls| - 1]);
      var l := ls[|ls| - 1];
      if l.Entry? && l.window.id !in ids then ids + [l.window.id] else ids
  }

  /** FirstIds lists exactly the ids some entry line carries. */
  lemma {:induction false} FirstIdsCarried(ls: seq<Line>, id: string)
    ensures id in FirstIds(ls) <==> exists i :: 0 <= i < |ls| && ls[i].Entry? && ls[i].window.id == id
    decreases |ls|
  {
    if ls != [] {
      var init, last := ls[..|ls| - 1], ls[|ls| - 1];
      FirstIdsCarried(init, id);
      if exists i :: 0 <= i < |ls| && ls[i].Entry? && ls[i].window.id == id {
        var i :| 0 <= i < |ls| && ls[i].Entry? && ls[i].window.id == id;
        if i < |init| {
          assert init[i] == ls[i];
        }
      }
      if exists i :: 0 <= i < |init| && init[i].Entry? && init[i].window.id == id {
        var i :| 0 <= i < |init| && init[i].Entry? && init[i].window.id == id;
        assert ls[i] == init[i];
      }
    }
  }

  /** A successful fold has one entry per id, and the entry of an id is the one its last
      line made: later lines overwrite earlier ones, blank lines add nothing. The keys are
      in the order their ids first appear. */
  lemma {:induction false} FoldEntries(ls: seq<Line>)
    requires Fold(ls).Success?
    ensures UniqueIds(Fold(ls).value)
    ensures forall id :: Lookup(Fold(ls).value, id) == LastEntry(ls, id)
    ensures Ids(Fold(ls).value) == FirstIds(ls)
    decreases |ls|
  {
    if ls != [] {
      var init := ls[..|ls| - 1];
      FoldEntries(init);
      var s := Fold(init).value;
      match ls[|ls| - 1]
      case Blank =>
      case Entry(w) =>
        PutUnique(s, w);
        forall id ensures Lookup(Put(s, w), id) == LastEntry(ls, id) {
          PutLookup(s, w, id);
        }
    }
  }

  /** The windows parsed from the output: one per id, the one the last line with that id
      describes, keyed in the order the ids first appear. */
  lemma CollectEntries(lines: seq<string>)
    requires Collect(lines).Success?
    ensures UniqueIds(Collect(lines).value)
    ensures forall id :: Lookup(Collect(lines).value, id) == LastEntry(ParseLines(lines), id)
    ensures Ids(Collect(lines).value) == FirstIds(ParseLines(lines))
  {
    FoldEntries(ParseLines(lines));
  }

  /** getWindowList's parsing loop, filling the map line by line. */
  method GetWindowList(exitCode: int, output: seq<string>) returns (r: Result<Snapshot>)
    ensures r == WindowList(exitCode, output)
  {
    if exitCode != 0 {
      return Success([]);
    }
    var ls := ParseLines(output);
    var windows: Snapshot := [];
    for i := 0 to |ls|
      invariant Fold(ls[..i]) == Success(windows)
    {
      assert ls[..i + 1][..i] == ls[..i];
      match ls[i]
      case Blank =>
      case Malformed(_) =>
        FoldFails(ls);
        return Failure(ValueError);
      case Entry(w) =>
        windows := Put(windows, w);
    }
    assert ls[..|ls|] == ls;
    r := Success(windows);
  }

  /** The en dash editors put between the parts of a window title. */
  const Dash: string := " \U{2013} "

  /** The title fragments that identify the file, most specific first. */
  function Needles(file: string): seq<string>
  {
    var base := Basename(file);
    [base + Dash + file, base + Dash + base, Dash + file, Dash + base]
  }

  predicate Hit(w: Window, needle: string)
  {
    Contains(w.title, needle)
  }

  /** The first window at or after `from` whose title contains the needle. */
  function FirstHit(windows: Snapshot, needle: string, from: nat): (r: Option<nat>)
    requires from <= |windows|
    ensures r.None? <==> forall i :: from <= i < |windows| ==> !Hit(windows[i], needle)
    ensures r.Some? ==> from <= r.value < |windows| && Hit(windows[r.value], needle)
    ensures r.Some? ==> forall i :: from <= i < r.value ==> !Hit(windows[i], needle)
    decreases |windows| - from
  {
    if from == |windows| then None
    else if Hit(windows[from], needle) then Some(from)
    else FirstHit(windows, needle, from + 1)
  }

  /** Which needle matched, and which window. */
  datatype Found = Found(needle: nat, index: nat)

  /** Needles in priority order from `from` on, each tried against every window before the
      next needle is tried. */
  function FirstFound(needles: seq<string>, windows: Snapshot, from: nat): (r: Option<Found>)
    requires from <= |needles|
    ensures r.None? <==> forall n, i :: from <= n < |needles| && 0 <= i < |windows| ==> !Hit(windows[i], needles[n])
    ensures r.Some? ==> from <= r.value.needle < |needles| && r.value.index < |windows|
                        && Hit(windows[r.value.index], needles[r.value.needle])
    ensures r.Some? ==> forall n, i :: from <= n < r.value.needle && 0 <= i < |windows| ==> !Hit(windows[i], needles[n])
    ensures r.Some? ==> forall i :: 0 <= i < r.value.index ==> !Hit(windows[i], needles[r.value.needle])
    decreases |needles| - from
  {
    if from == |needles| then None
    else match FirstHit(windows, needles[from], 0)
      case Some(i) => Some(Found(from, i))
      case None => FirstFound(needles, windows, from + 1)
  }

  /** The window FirstFound picks. */
  function FirstMatch(needles: seq<string>, windows: Snapshot): (r: Option<Window>)
    ensures r.Some? ==> r.value in windows
    ensures r.None? <==> forall n, i :: 0 <= n < |needles| && 0 <= i < |windows| ==> !Hit(windows[i], needles[n])
  {
    match FirstFound(needles, windows, 0)
    case None => None
    case Some(f) => Some(windows[f.index])
  }

  /** findWindowByFileName: the first window, needle by needle, whose title names the file. */
  function MatchByFileName(file: string, windows: Snapshot): Option<Window>
  {
    FirstMatch(Needles(file), windows)
  }

  /** The window picked contains the most specific needle any window contains, and is the
      first window in iteration order that contains it. */
  lemma MatchPriority(needles: seq<string>, windows: Snapshot) returns (n: nat, i: nat)
    requires FirstMatch(needles, windows).Some?
    ensures n < |needles| && i < |windows| && FirstMatch(needles, windows) == Some(windows[i])
    ensures Hit(windows[i], needles[n])
    ensures forall m, j :: 0 <= m < n && 0 <= j < |windows| ==> !Hit(windows[j], needles[m])
    ensures forall j :: 0 <= j < i ==> !Hit(windows[j], needles[n])
  {
    var f := FirstFound(needles, windows, 0).value;
    n, i := f.needle, f.index;
  }

  /** The loops of findWindowByFileName: for each needle in turn, scan the windows and
      return the first whose title contains it. */
  method SearchNeedles(needles: seq<string>, windows: Snapshot) returns (r: Option<Window>)
    ensures r == FirstMatch(needles, windows)
  {
    for n := 0 to |needles|
      invariant forall m, i :: 0 <= m < n && 0 <= i < |windows| ==> !Hit(windows[i], needles[m])
    {
      for i := 0 to |windows|
        invariant forall j :: 0 <= j < i ==> !Hit(windows[j], needles[n])
      {
        if Hit(windows[i], needles[n]) {
          FoundAt(needles, windows, n, i);
          return Some(windows[i]);
        }
      }
    }
    return None;
  }

  /** findWindowByFileName: build the needles for the file and search for them. */
  method FindWindowByFileName(file: string, windows: Snapshot) returns (r: Option<Window>)
    ensures r == MatchByFileName(file, windows)
  {
    var needles := Needles(file);
    r := SearchNeedles(needles, windows);
  }

  /** A hit for needle `n` at window `i`, with no hit for an earlier needle anywhere nor for
      needle `n` before `i`, is what FirstFound reports. */
  lemma FoundAt(needles: seq<string>, windows: Snapshot, n: nat, i: nat)
    requires n < |needles| && i < |windows| && Hit(windows[i], needles[n])
    requires forall m, j :: 0 <= m < n && 0 <= j < |windows| ==> !Hit(windows[j], needles[m])
    requires forall j :: 0 <= j < i ==> !Hit(windows[j], needles[n])
    ensures FirstFound(needles, windows, 0) == Some(Found(n, i))
  {
    SkippedNeedles(needles, windows, n);
  }

  /** When no window contains any of the first `n` needles, the search starts afresh at n. */
  lemma {:induction false} SkippedNeedles(needles: seq<string>, windows: Snapshot, n: nat)
    requires n <= |needles|
    requires forall m, i :: 0 <= m < n && 0 <= i < |windows| ==> !Hit(windows[i], needles[m])
    ensures FirstFound(needles, windows, 0) == FirstFound(needles, windows, n)
    decreases n
  {
    if n > 0 {
      SkippedNeedles(needles, windows, n - 1);
      assert FirstHit(windows, needles[n - 1], 0).None?;
    }
  }

  /** array_diff_key($after, $before): the entries of `after` whose id `before` lacks, in
      the order of `after`. */
  function NewWindows(before: Snapshot, after: Snapshot): (r: Snapshot)
    ensures forall w :: w in r <==> w in after && w.id !in Ids(before)
  {
    if after == [] then []
    else (if after[0].id in Ids(before) then [] else [after[0]]) + NewWindows(before, after[1..])
  }

  /** array_diff_key keeps the order of `after`: the new windows are the entries of `after`
      at a strictly increasing run of positions, which holds every position whose id
      `before` lacks. */
  lemma {:induction false} NewWindowsInOrder(before: Snapshot, after: Snapshot) returns (f: seq<nat>)
    ensures Positions(f, after, NewWindows(before, after))
    ensures forall i :: 0 <= i < |after| && after[i].id !in Ids(before) ==> i in f
    decreases |after|
  {
    if after == [] {
      f := [];
    } else {
      var g := NewWindowsInOrder(before, after[1..]);
      var keep := after[0].id !in Ids(before);
      assert NewWindows(before, after) == (if keep then [after[0]] else []) + NewWindows(before, after[1..]);
      f := ConsPositions(after, NewWindows(before, after[1..]), g, keep, Ids(before));
    }
  }

  /** `f` lists, in increasing order, positions of `s` whose entries make up `r`. */
  predicate Positions(f: seq<nat>, s: Snapshot, r: Snapshot)
  {
    && |f| == |r|
    && (forall k :: 0 <= k < |f| ==> f[k] < |s| && s[f[k]] == r[k])
    && (forall k, l :: 0 <= k < l < |f| ==> f[k] < f[l])
  }

  /** The positions for `after[1..]`, moved up by one and preceded by 0 when the first entry
      is kept, are the positions for `after`. */
  lemma ConsPositions(after: Snapshot, rest: Snapshot, g: seq<nat>, keep: bool, ids: seq<string>)
    returns (f: seq<nat>)
    requires |after| > 0 && (keep <==> after[0].id !in ids)
    requires Positions(g, after[1..], rest)
    requires forall i :: 0 <= i < |after| - 1 && after[1..][i].id !in ids ==> i in g
    ensures Positions(f, after, (if keep then [after[0]] else []) + rest)
    ensures forall i :: 0 <= i < |after| && after[i].id !in ids ==> i in f
  {
    var h := ShiftPositions(after, rest, g);
    if keep {
      f := [0] + h;
      KeepFirst(after, rest, h);
    } else {
      f := h;
      assert [] + rest == rest;
    }
    ConsCovers(after, g, h, f, keep, ids);
  }

  /** Every kept index of `after` is among the positions built by `ConsPositions`. */
  lemma ConsCovers(after: Snapshot, g: seq<nat>, h: seq<nat>, f: seq<nat>, keep: bool, ids: seq<string>)
    requires |after| > 0 && (keep <==> after[0].id !in ids)
    requires |h| == |g| && forall k :: 0 <= k < |g| ==> h[k] == g[k] + 1
    requires f == if keep then [0] + h else h
    requires forall i :: 0 <= i < |after| - 1 && after[1..][i].id !in ids ==> i in g
    ensures forall i :: 0 <= i < |after| && after[i].id !in ids ==> i in f
  {
    forall i | 0 <= i < |after| && after[i].id !in ids ensures i in f {
      if i == 0 {
        assert f[0] == 0;
      } else {
        assert after[1..][i - 1] == after[i];
        var k :| 0 <= k < |g| && g[k] == i - 1;
        if keep {
          assert f[k + 1] == h[k] == i;
        } else {
          assert f[k] == h[k] == i;
        }
      }
    }
  }

  /** Moving every position up by one turns positions in `after[1..]` into positions in
      `after`. */
  lemma ShiftPositions(after: Snapshot, rest: Snapshot, g: seq<nat>) returns (h: seq<nat>)
    requires |after| > 0 && Positions(g, after[1..], rest)
    ensures Positions(h, after, rest)
    ensures |h| == |g| && forall k :: 0 <= k < |g| ==> h[k] == g[k] + 1
  {
    h := seq(|g|, k requires 0 <= k < |g| => g[k] + 1);
    forall k | 0 <= k < |h| ensures h[k] < |after| && after[h[k]] == rest[k] {
      assert after[h[k]] == after[1..][g[k]];
    }
  }

  /** Keeping the first entry puts position 0 in front. */
  lemma KeepFirst(after: Snapshot, rest: Snapshot, h: seq<nat>)
    requires |after| > 0 && Positions(h, after, rest)
    requires forall k :: 0 <= k < |h| ==> h[k] > 0
    ensures Positions([0] + h, after, [after[0]] + rest)
  {
    var f, r := [0] + h, [after[0]] + rest;
    forall k | 0 < k < |f| ensures f[k] == h[k - 1] && r[k] == rest[k - 1] {
    }
  }

  /** array_reverse. */
  function Reverse(s: Snapshot): (r: Snapshot)
    ensures |r| == |s| && forall k :: 0 <= k < |s| ==> r[k] == s[|s| - 1 - k]
  {
    if s == [] then [] else Reverse(s[1..]) + [s[0]]
  }

  /** selectWindowByFileName: search the new windows, newest first; failing that, every
      window of the second snapshot. */
  function SelectWindowByFileName(file: string, before: Snapshot, after: Snapshot): (r: Option<Window>)
    ensures r.Some? ==> r.value in after
    ensures r.None? <==> forall n, i :: 0 <= n < 4 && 0 <= i < |after| ==> !Hit(after[i], Needles(file)[n])
    ensures MatchByFileName(file, Reverse(NewWindows(before, after))).Some? ==>
              r == MatchByFileName(file, Reverse(NewWindows(before, after))) && r.value.id !in Ids(before)
    ensures MatchByFileName(file, Reverse(NewWindows(before, after))).None? ==>
              r == MatchByFileName(file, after)
  {
    var newest := Reverse(NewWindows(before, after));
    match MatchByFileName(file, newest)
    case Some(w) =>
      assert w in NewWindows(before, after);
      Some(w)
    case None => MatchByFileName(file, after)
  }

  /** A window that appeared during the launch and matches the file is preferred over any
      window that was there before. */
  lemma PrefersNewWindow(file: string, before: Snapshot, after: Snapshot, k: nat, n: nat)
    requires k < |after| && n < 4
    requires after[k].id !in Ids(before) && Hit(after[k], Needles(file)[n])
    ensures SelectWindowByFileName(file, before, after).Some?
    ensures SelectWindowByFileName(file, before, after).value.id !in Ids(before)
  {
    var newest := Reverse(NewWindows(before, after));
    assert after[k] in NewWindows(before, after);
    var j :| 0 <= j < |NewWindows(before, after)| && NewWindows(before, after)[j] == after[k];
    assert newest[|newest| - 1 - j] == after[k];
    assert Hit(newest[|newest| - 1 - j], Needles(file)[n]);
  }
}
