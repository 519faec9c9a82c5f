/** String helpers standing for the PHP library calls the handler uses: trim, mb_strpos,
    explode with a limit, preg_split with a limit, and implode. Strings are sequences of
    characters; no encoding is modelled. */
module Text {
  import opened Outcomes

  /** Every character of `s` belongs to `cs`. */
  predicate AllIn(s: string, cs: set<char>)
  {
    forall k :: 0 <= k < |s| ==> s[k] in cs
  }

  /** No character of `s` belongs to `cs`. */
  predicate NoneIn(s: string, cs: set<char>)
  {
    forall k :: 0 <= k < |s| ==> s[k] !in cs
  }

  predicate StartsWith(s: string, prefix: string)
  {
    |prefix| <= |s| && s[..|prefix|] == prefix
  }

  predicate OccursAt(s: string, needle: string, i: nat)
  {
    i + |needle| <= |s| && s[i..i + |needle|] == needle
  }

  /** `mb_strpos($s, $needle, $from) !== false`: scanning from `from`, the needle is found. */
  predicate ContainsFrom(s: string, needle: string, from: nat)
    decreases |s| - from
  {
    from + |needle| <= |s| && (OccursAt(s, needle, from) || ContainsFrom(s, needle, from + 1))
  }

  /** `mb_strpos($s, $needle) !== false`. */
  predicate Contains(s: string, needle: string)
  {
    ContainsFrom(s, needle, 0)
  }

  /** The scan finds the needle exactly when it occurs somewhere in `s`. */
  lemma ContainsOccurs(s: string, needle: string)
    ensures Contains(s, needle) <==> exists i :: 0 <= i <= |s| && OccursAt(s, needle, i)
  {
    ContainsFromOccurs(s, needle, 0);
  }

  lemma {:induction false} ContainsFromOccurs(s: string, needle: string, from: nat)
    ensures ContainsFrom(s, needle, from) <==> exists i :: from <= i <= |s| && OccursAt(s, needle, i)
    decreases |s| - from
  {
    if from + |needle| <= |s| {
      ContainsFromOccurs(s, needle, from + 1);
      if exists i :: from <= i <= |s| && OccursAt(s, needle, i) {
        var i :| from <= i <= |s| && OccursAt(s, needle, i);
        assert i == from || (from + 1 <= i <= |s| && OccursAt(s, needle, i));
      }
    }
  }

  /** Removes the leading characters that belong to `cut`. */
  function TrimLeft(s: string, cut: set<char>): (r: string)
    ensures |r| <= |s| && r == s[|s| - |r|..]
    ensures AllIn(s[..|s| - |r|], cut)
    ensures r == [] || r[0] !in cut
  {
    if |s| > 0 && s[0] in cut then TrimLeft(s[1..], cut) else s
  }

  /** Removes the trailing characters that belong to `cut`. */
  function TrimRight(s: string, cut: set<char>): (r: string)
    ensures |r| <= |s| && r == s[..|r|]
    ensures AllIn(s[|r|..], cut)
    ensures r == [] || r[|r| - 1] !in cut
  {
    if |s| > 0 && s[|s| - 1] in cut then TrimRight(s[..|s| - 1], cut) else s
  }

  /** PHP trim($s, $characters): the slice of `s` left after dropping characters of `cut`
      from both ends; what is left neither starts nor ends with one of them. */
  function Trim(s: string, cut: set<char>): (r: string)
    ensures r == [] || (r[0] !in cut && r[|r| - 1] !in cut)
    ensures exists i, j :: 0 <= i <= j <= |s| && r == s[i..j] && AllIn(s[..i], cut) && AllIn(s[j..], cut)
  {
    var left := TrimLeft(s, cut);
    var r := TrimRight(left, cut);
    var i := |s| - |left|;
    var j := i + |r|;
    assert r == s[i..j];
    assert AllIn(s[..i], cut);
    assert s[j..] == left[|r|..];
    assert AllIn(s[j..], cut);
    r
  }

  /** The first position of `c` in `s`, as mb_strpos reports it (None standing for false). */
  function IndexOf(s: string, c: char): (r: Option<nat>)
    ensures r.None? <==> c !in s
    ensures r.Some? ==> r.value < |s| && s[r.value] == c && c !in s[..r.value]
  {
    if |s| == 0 then None
    else if s[0] == c then Some(0)
    else match IndexOf(s[1..], c)
      case None => None
      case Some(k) =>
        assert s[1..][..k] == s[1..k + 1];
        Some(k + 1)
  }

  /** explode($sep, $s, 2) for a one-character separator present in `s`: the part before
      the first separator and the part after it. */
  function SplitAtFirst(s: string, c: char): (parts: (string, string))
    requires c in s
    ensures s == parts.0 + [c] + parts.1
    ensures c !in parts.0
  {
    var i := IndexOf(s, c).value;
    assert s == s[..i] + [c] + s[i + 1..];
    (s[..i], s[i + 1..])
  }

  /** The first index at or after `from` whose character is outside `cs`, or |s|. */
  function SkipRun(s: string, cs: set<char>, from: nat): (j: nat)
    requires from <= |s|
    ensures from <= j <= |s|
    ensures forall k :: from <= k < j ==> s[k] in cs
    ensures j == |s| || s[j] !in cs
    decreases |s| - from
  {
    if from < |s| && s[from] in cs then SkipRun(s, cs, from + 1) else from
  }

  /** The first index at or after `from` whose character belongs to `cs`, or |s|. */
  function SeekRun(s: string, cs: set<char>, from: nat): (i: nat)
    requires from <= |s|
    ensures from <= i <= |s|
    ensures forall k :: from <= k < i ==> s[k] !in cs
    ensures i == |s| || s[i] in cs
    decreases |s| - from
  {
    if from < |s| && s[from] !in cs then SeekRun(s, cs, from + 1) else from
  }

  /** preg_split('/[cs]+/', $s, $limit): cut `s` at the leftmost maximal runs of characters
      of `cs`, into at most `limit` pieces, the last one holding the rest of the string. */
  function SplitRuns(s: string, cs: set<char>, limit: nat): (parts: seq<string>)
    requires limit >= 1
    ensures 1 <= |parts| <= limit
  {
    SplitFrom(s, cs, 0, limit)
  }

  /** SplitRuns applied to the suffix of `s` that starts at `from`. */
  function SplitFrom(s: string, cs: set<char>, from: nat, limit: nat): (parts: seq<string>)
    requires from <= |s| && limit >= 1
    ensures 1 <= |parts| <= limit
    decreases limit
  {
    var i := SeekRun(s, cs, from);
    if limit == 1 || i == |s| then [s[from..]]
    else [s[from..i]] + SplitFrom(s, cs, SkipRun(s, cs, i), limit - 1)
  }

  /** Every piece but the last is free of `cs`, and so is the last when fewer than `limit`
      pieces came out; the pieces between the first and the last are never empty, since a
      cut takes a whole run; a last piece after a cut never starts inside a run. */
  lemma SplitRunsPieces(s: string, cs: set<char>, limit: nat)
    requires limit >= 1
    ensures var parts := SplitRuns(s, cs, limit);
      && (forall k :: 0 <= k < |parts| - 1 ==> NoneIn(parts[k], cs))
      && (forall k :: 0 < k < |parts| - 1 ==> parts[k] != [])
      && (|parts| < limit ==> NoneIn(parts[|parts| - 1], cs))
      && (|parts| > 1 ==> parts[|parts| - 1] == [] || parts[|parts| - 1][0] !in cs)
  {
    SplitFromPieces(s, cs, 0, limit);
  }

  lemma {:induction false} SplitFromPieces(s: string, cs: set<char>, from: nat, limit: nat)
    requires from <= |s| && limit >= 1
    ensures var parts := SplitFrom(s, cs, from, limit);
      && (forall k :: 0 <= k < |parts| - 1 ==> NoneIn(parts[k], cs))
      && (forall k :: 0 < k < |parts| - 1 ==> parts[k] != [])
      && ((from == |s| || s[from] !in cs) && |parts| > 1 ==> parts[0] != [])
      && (|parts| < limit ==> NoneIn(parts[|parts| - 1], cs))
      && (|parts| > 1 ==> parts[|parts| - 1] == [] || parts[|parts| - 1][0] !in cs)
    decreases limit
  {
    var parts := SplitFrom(s, cs, from, limit);
    var i := SeekRun(s, cs, from);
    if limit > 1 && i < |s| {
      var j := SkipRun(s, cs, i);
      var rest := SplitFrom(s, cs, j, limit - 1);
      SplitFromPieces(s, cs, j, limit - 1);
      assert parts == [s[from..i]] + rest;
      assert NoneIn(s[from..i], cs);
      forall k | 0 <= k < |parts| - 1 ensures NoneIn(parts[k], cs) {
        if k > 0 { assert parts[k] == rest[k - 1]; }
      }
      forall k | 0 < k < |parts| - 1 ensures parts[k] != [] {
        assert parts[k] == rest[k - 1];
      }
      if |rest| == 1 {
        assert rest[0] == s[j..];
      }
    } else {
      assert parts == [s[from..]];
    }
  }

  /** parts[0] + seps[0] + parts[1] + ... + parts[n]. */
  function Glue(parts: seq<string>, seps: seq<string>): string
    requires |seps| + 1 == |parts|
    decreases |seps|
  {
    if |seps| == 0 then parts[0] else parts[0] + seps[0] + Glue(parts[1..], seps[1..])
  }

  /** Each separator is a non-empty run of characters of `cs`. */
  predicate Runs(seps: seq<string>, cs: set<char>)
  {
    forall k :: 0 <= k < |seps| ==> |seps[k]| > 0 && AllIn(seps[k], cs)
  }

  /** The pieces of SplitRuns, put back together with the runs they were cut at, give the
      original string: splitting loses only the separating runs. */
  lemma SplitRunsGlue(s: string, cs: set<char>, limit: nat) returns (seps: seq<string>)
    requires limit >= 1
    ensures |seps| + 1 == |SplitRuns(s, cs, limit)| && Runs(seps, cs)
    ensures Glue(SplitRuns(s, cs, limit), seps) == s
  {
    seps := SplitFromGlue(s, cs, 0, limit);
  }

  lemma {:induction false} SplitFromGlue(s: string, cs: set<char>, from: nat, limit: nat) returns (seps: seq<string>)
    requires from <= |s| && limit >= 1
    ensures |seps| + 1 == |SplitFrom(s, cs, from, limit)| && Runs(seps, cs)
    ensures Glue(SplitFrom(s, cs, from, limit), seps) == s[from..]
    decreases limit
  {
    var parts := SplitFrom(s, cs, from, limit);
    var i := SeekRun(s, cs, from);
    if limit == 1 || i == |s| {
      seps := [];
    } else {
      var j := SkipRun(s, cs, i);
      var rest := SplitFrom(s, cs, j, limit - 1);
      assert parts == [s[from..i]] + rest;
      var seps' := SplitFromGlue(s, cs, j, limit - 1);
      seps := [s[i..j]] + seps';
      GlueStep(s, from, i, j, rest, seps');
      assert AllIn(s[i..j], cs);
      RunsCons(s[i..j], seps', cs);
    }
  }

  lemma GlueStep(s: string, from: nat, i: nat, j: nat, parts: seq<string>, seps: seq<string>)
    requires from <= i <= j <= |s| && |seps| + 1 == |parts|
    requires Glue(parts, seps) == s[j..]
    ensures Glue([s[from..i]] + parts, [s[i..j]] + seps) == s[from..]
  {
    GlueCons(s[from..i], s[i..j], parts, seps);
    SliceThree(s, from, i, j);
  }

  lemma GlueCons(first: string, sep: string, parts: seq<string>, seps: seq<string>)
    requires |seps| + 1 == |parts|
    ensures Glue([first] + parts, [sep] + seps) == first + sep + Glue(parts, seps)
  {
    assert ([first] + parts)[1..] == parts;
    assert ([sep] + seps)[1..] == seps;
  }

  lemma SliceThree(s: string, from: nat, i: nat, j: nat)
    requires from <= i <= j <= |s|
    ensures s[from..] == s[from..i] + s[i..j] + s[j..]
  {
  }

  lemma RunsCons(run: string, seps: seq<string>, cs: set<char>)
    requires |run| > 0 && AllIn(run, cs) && Runs(seps, cs)
    ensures Runs([run] + seps, cs)
  {
    forall k | 0 <= k < |seps| + 1 ensures |([run] + seps)[k]| > 0 && AllIn(([run] + seps)[k], cs) {
      if k > 0 { assert ([run] + seps)[k] == seps[k - 1]; }
    }
  }

  /** implode($sep, $pieces). */
  function Implode(sep: string, pieces: seq<string>): string
  {
    if |pieces| == 0 then ""
    else if |pieces| == 1 then pieces[0]
    else pieces[0] + sep + Implode(sep, pieces[1..])
  }
}
