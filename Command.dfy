/** The editor command (actionOpenBuildCommand) and the shell quoting it uses. */
module Command {
  import opened Text
  import opened Request

  const Env: string := "/usr/bin/env"
  const Editor: string := "phpstorm"
  const DiscardStdout: string := "1>/dev/null"
  const DiscardStderr: string := "2>/dev/null"

  /** The body of escapeshellarg: every single quote becomes '\'' (close the quoted
      string, an escaped quote, reopen it). */
  function EscapeQuotes(s: string): string
  {
    if s == [] then [] else Escaped(s[0]) + EscapeQuotes(s[1..])
  }

  function Escaped(c: char): string
  {
    if c == '\'' then "'\\''" else [c]
  }

  /** escapeshellarg: the argument between single quotes, its own quotes escaped. */
  function EscapeShellArg(s: string): (r: string)
    ensures |r| >= 2 && r[0] == '\'' && r[|r| - 1] == '\''
  {
    "'" + EscapeQuotes(s) + "'"
  }

  /** Quoting never merges two arguments: different arguments give different words. */
  lemma EscapeShellArgInjective(s: string, t: string)
    requires EscapeShellArg(s) == EscapeShellArg(t)
    ensures s == t
  {
    var es, et := EscapeQuotes(s), EscapeQuotes(t);
    assert es == EscapeShellArg(s)[1..|EscapeShellArg(s)| - 1];
    assert et == EscapeShellArg(t)[1..|EscapeShellArg(t)| - 1];
    EscapeQuotesInjective(s, t);
  }

  lemma {:induction false} EscapeQuotesInjective(s: string, t: string)
    requires EscapeQuotes(s) == EscapeQuotes(t)
    ensures s == t
    decreases |s|
  {
    if s == [] || t == [] {
      EscapeQuotesEmpty(s);
      EscapeQuotesEmpty(t);
    } else {
      var e := EscapeQuotes(s);
      assert e == Escaped(s[0]) + EscapeQuotes(s[1..]);
      assert e == Escaped(t[0]) + EscapeQuotes(t[1..]);
      // the first character of the escape tells whether a quote was escaped
      assert e[0] == Escaped(s[0])[0] && e[0] == Escaped(t[0])[0];
      assert s[0] == t[0];
      var n := |Escaped(s[0])|;
      assert EscapeQuotes(s[1..]) == e[n..] == EscapeQuotes(t[1..]);
      EscapeQuotesInjective(s[1..], t[1..]);
      assert s == [s[0]] + s[1..] && t == [t[0]] + t[1..];
    }
  }

  lemma EscapeQuotesEmpty(s: string)
    ensures EscapeQuotes(s) == [] <==> s == []
  {
    if s != [] {
      assert EscapeQuotes(s) == Escaped(s[0]) + EscapeQuotes(s[1..]);
    }
  }

  /** The flags for a line and a column: the column only ever comes with a line. */
  function PositionFlags(args: OpenArgs): seq<string>
  {
    if args.line == "" then []
    else ["--line", EscapeShellArg(args.line)]
         + (if args.column == "" then [] else ["--column", EscapeShellArg(args.column)])
  }

  /** The words of the command: `/usr/bin/env phpstorm [--line L [--column C]] 'file'`
      with both output streams discarded. */
  function CommandWords(args: OpenArgs): (words: seq<string>)
    ensures |words| == 5 + (if args.line == "" then 0 else if args.column == "" then 2 else 4)
    ensures words[..2] == [Env, Editor]
    ensures words[|words| - 3..] == [EscapeShellArg(args.file), DiscardStdout, DiscardStderr]
    ensures args.line != "" ==> words[2..4] == ["--line", EscapeShellArg(args.line)]
    ensures args.line != "" && args.column != "" ==> words[4..6] == ["--column", EscapeShellArg(args.column)]
  {
    [Env, Editor] + PositionFlags(args) + [EscapeShellArg(args.file), DiscardStdout, DiscardStderr]
  }

  /** The line flag appears exactly when a line was given, the column flag exactly when a
      line and a column were; every other word is a fixed word or a quoted argument. */
  lemma CommandFlags(args: OpenArgs)
    ensures "--line" in CommandWords(args) <==> args.line != ""
    ensures "--column" in CommandWords(args) <==> args.line != "" && args.column != ""
  {
    var words := CommandWords(args);
    var file, line, column := EscapeShellArg(args.file), EscapeShellArg(args.line), EscapeShellArg(args.column);
    assert file[0] == '\'' && line[0] == '\'' && column[0] == '\'';
    if args.line == "" {
      assert words == [Env, Editor, file, DiscardStdout, DiscardStderr];
    } else if args.column == "" {
      assert words == [Env, Editor, "--line", line, file, DiscardStdout, DiscardStderr];
    } else {
      assert words == [Env, Editor, "--line", line, "--column", column, file, DiscardStdout, DiscardStderr];
    }
  }

  /** The command line handed to the shell: the words joined by single spaces. */
  function CommandLine(args: OpenArgs): string
  {
    Implode(" ", CommandWords(args))
  }

  /** actionOpenBuildCommand: append the words one by one, then join them. */
  method BuildCommand(args: OpenArgs) returns (command: string)
    ensures command == CommandLine(args)
  {
    var words := [Env, Editor];
    if args.line != "" {
      words := words + ["--line"];
      words := words + [EscapeShellArg(args.line)];
      if args.column != "" {
        words := words + ["--column"];
        words := words + [EscapeShellArg(args.column)];
      }
    }
    words := words + [EscapeShellArg(args.file)];
    words := words + [DiscardStdout];
    words := words + [DiscardStderr];
    assert words == [Env, Editor] + PositionFlags(args) + [EscapeShellArg(args.file), DiscardStdout, DiscardStderr];
    command := Implode(" ", words);
  }

  /** A column given without a line is dropped: no column flag, no column value. */
  lemma ColumnNeedsLine(file: string, column: string)
    ensures CommandWords(OpenArgs(file, "", column)) == [Env, Editor, EscapeShellArg(file), DiscardStdout, DiscardStderr]
  {
  }
}
