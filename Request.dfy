/** The request gate and the resolution of the `open` action's arguments
    (validateInput, actionOpenParseArguments, actionOpenValidate). The URI itself is taken
    as already split into scheme, host and the flat query map that parse_str produces. */
module Request {
  import opened Outcomes
  import opened Text

  /** The one protocol the handler answers to. */
  const Protocol: string := "phpstorm"

  /** The actions the handler supports, in the order the error message lists them. */
  const SupportedActions: seq<string> := ["open"]

  /** The parts of the URI the handler reads; a missing component is the empty string and a
      missing query is the empty map. */
  datatype Input = Input(scheme: string, host: string, query: map<string, string>)

  /** The arguments of the `open` action. Line and column are free-form text. */
  datatype OpenArgs = OpenArgs(file: string, line: string, column: string)

  /** validateInput: the scheme is checked first (code 2), then the action (code 3). */
  function ValidateInput(input: Input): (r: Result<()>)
    ensures input.scheme != Protocol ==> r == Failure(ProtocolMismatch(input.scheme))
    ensures input.scheme == Protocol && input.host !in SupportedActions ==> r == Failure(UnsupportedAction(input.host))
    ensures r.Success? <==> input.scheme == "phpstorm" && input.host == "open"
    ensures r.Failure? ==> Code(r.error) == (if input.scheme != "phpstorm" then 2 else 3)
  {
    if input.scheme != Protocol then Failure(ProtocolMismatch(input.scheme))
    else if input.host !in SupportedActions then Failure(UnsupportedAction(input.host))
    else Success(())
  }

  /** `$query[$key] ?? $default`: the default only when the key is absent. */
  function Get(query: map<string, string>, key: string, default: string): string
  {
    if key in query then query[key] else default
  }

  /** mb_strpos($s, $c) used as a condition: false when absent, and also when found at 0. */
  predicate StrPosTruthy(s: string, c: char)
  {
    match IndexOf(s, c)
    case None => false
    case Some(k) => k != 0
  }

  /** Once leading colons are trimmed, the truthiness test of mb_strpos is "contains a colon". */
  lemma TrimmedStrPosTruthy(raw: string)
    ensures StrPosTruthy(Trim(raw, {':'}), ':') <==> ':' in Trim(raw, {':'})
  {
    var line := Trim(raw, {':'});
    if ':' in line {
      assert line[0] != ':';
    }
  }

  /** The line and column part of actionOpenParseArguments, from the raw `line` and
      `column` values: colons are trimmed off both ends of the line, and when no column
      came the line is split at its first colon, if it has one. */
  function ResolveLineColumn(rawLine: string, rawColumn: string): (r: (string, string))
    // a column given on its own is kept and the line is only trimmed
    ensures rawColumn != "" ==> r == (Trim(rawLine, {':'}), rawColumn)
    // otherwise a colon inside the trimmed line separates line from column
    ensures rawColumn == "" && ':' in Trim(rawLine, {':'}) ==>
              Trim(rawLine, {':'}) == r.0 + ":" + r.1 && ':' !in r.0
    ensures rawColumn == "" && ':' !in Trim(rawLine, {':'}) ==> r == (Trim(rawLine, {':'}), "")
    // the resolved line never starts or ends with a colon
    ensures r.0 == "" || (r.0[0] != ':' && r.0[|r.0| - 1] != ':')
  {
    var line := Trim(rawLine, {':'});
    TrimmedStrPosTruthy(rawLine);
    if rawColumn == "" && StrPosTruthy(line, ':') then
      var parts := SplitAtFirst(line, ':');
      assert parts.0 == [] || parts.0[|parts.0| - 1] in line;
      parts
    else
      (line, rawColumn)
  }

  /** actionOpenParseArguments: `url` wins whenever that key is present, even with an empty
      value (`??` only skips absent keys), then `file`, then the empty string. */
  function ParseArguments(query: map<string, string>): (args: OpenArgs)
    ensures "url" in query ==> args.file == query["url"]
    ensures "url" !in query && "file" in query ==> args.file == query["file"]
    ensures "url" !in query && "file" !in query ==> args.file == ""
    ensures (args.line, args.column) == ResolveLineColumn(Get(query, "line", ""), Get(query, "column", ""))
  {
    var file := Get(query, "url", Get(query, "file", ""));
    var (line, column) := ResolveLineColumn(Get(query, "line", ""), Get(query, "column", ""));
    OpenArgs(file, line, column)
  }

  /** A line carrying the column after a colon is split in two ("10:5" gives line "10" and
      column "5"), whenever the line part has no colon and neither end is a colon. */
  lemma LineWithColumn(line: string, column: string)
    requires line != "" && ':' !in line
    requires column != "" && column[|column| - 1] != ':'
    ensures ResolveLineColumn(line + ":" + column, "") == (line, column)
  {
    var raw := line + ":" + column;
    assert raw[0] == line[0] && raw[|raw| - 1] == column[|column| - 1];
    assert TrimLeft(raw, {':'}) == raw;
    assert TrimRight(raw, {':'}) == raw;
    assert raw[|line|] == ':';
    var r := ResolveLineColumn(raw, "");
    ColonSplitUnique(r.0, r.1, line, column);
  }

  /** A line and a column glued by a colon come apart in one way only when the line part
      holds no colon. */
  lemma ColonSplitUnique(line: string, column: string, line': string, column': string)
    requires line + ":" + column == line' + ":" + column'
    requires ':' !in line && ':' !in line'
    ensures line == line' && column == column'
  {
    var s := line + ":" + column;
    assert s[|line|] == ':';
    assert s[|line'|] == ':';
    assert line == s[..|line|] && line' == s[..|line'|];
    assert column == s[|line| + 1..] && column' == s[|line'| + 1..];
  }

  /** A leading colon is trimmed away and no column appears (":20" gives line "20"). */
  lemma LeadingColon(line: string)
    requires ':' !in line
    ensures ResolveLineColumn(":" + line, "") == (line, "")
  {
    var raw := ":" + line;
    assert raw[1..] == line;
    assert TrimLeft(raw, {':'}) == line by {
      assert line == [] || line[0] != ':';
    }
    assert TrimRight(line, {':'}) == line by {
      assert line == [] || line[|line| - 1] != ':';
    }
  }

  /** An empty `url` does not fall back to `file`. */
  lemma EmptyUrlWins(file: string)
    ensures ParseArguments(map["url" := "", "file" := file]).file == ""
  {
  }

  /** actionOpenValidate: fails with code 4 exactly when no file was resolved. */
  function ValidateOpenArgs(args: OpenArgs): (r: Result<()>)
    ensures r.Failure? <==> args.file == ""
    ensures r.Failure? ==> r.error == MissingParameter("file") && Code(r.error) == 4
  {
    if args.file == "" then Failure(MissingParameter("file")) else Success(())
  }
}
