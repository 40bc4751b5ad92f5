/**
 * The MCP server's `tools/call` handler for its three fixed tools: `govc`
 * (any subcommand), `govc_commands` (the command list from `govc -h`) and
 * `govc_help` (`govc <subcommand> -h`).
 */
module Server {
  import opened Wrappers
  import opened Text
  import opened GovcProcess

  // ---- The `govc` tool's reply --------------------------------------------------

  /** The two streams, joined by a newline when both have text. */
  function Streams(stdout: string, stderr: string): string {
    if stdout != "" && stderr != "" then stdout + "\n" + stderr else stdout + stderr
  }

  function CompletedMessage(exitCode: int): string {
    "Command completed with exit code " + IntToString(exitCode) + "."
  }

  function ExitCodeNote(exitCode: int): string {
    "\nExit code: " + IntToString(exitCode)
  }

  /**
   * The reply text: the output streams (or a completion message when both are
   * empty), and the exit code when the run failed without saying why.
   */
  function ReplyText(stdout: string, stderr: string, exitCode: int): string {
    var body := Streams(stdout, stderr);
    (if body == "" then CompletedMessage(exitCode) else body)
    + (if exitCode != 0 && stderr == "" then ExitCodeNote(exitCode) else "")
  }

  /** The text accumulation of the `govc` case. */
  method GovcReplyText(stdout: string, stderr: string, exitCode: int) returns (text: string)
    ensures text == ReplyText(stdout, stderr, exitCode)
  {
    text := "";
    if stdout != "" {
      text := text + stdout;
    }
    if stderr != "" {
      text := text + (if text != "" then "\n" else "") + stderr;
    }
    assert text == Streams(stdout, stderr);
    if text == "" {
      text := CompletedMessage(exitCode);
    }
    if exitCode != 0 && stderr == "" {
      text := text + ExitCodeNote(exitCode);
    }
  }

  /** The reply is never empty and opens with standard output, verbatim. */
  lemma ReplyStartsWithStdout(stdout: string, stderr: string, exitCode: int)
    ensures ReplyText(stdout, stderr, exitCode) != ""
    ensures StartsWith(ReplyText(stdout, stderr, exitCode), stdout)
  {
    var body := Streams(stdout, stderr);
    var head := if body == "" then CompletedMessage(exitCode) else body;
    var tail := if exitCode != 0 && stderr == "" then ExitCodeNote(exitCode) else "";
    assert ReplyText(stdout, stderr, exitCode) == head + tail;
    if stdout != "" {
      assert body == stdout + (if stderr != "" then "\n" + stderr else "");
      assert (head + tail)[..|stdout|] == stdout;
    }
  }

  /** When standard error has text, the reply ends with it and carries no exit-code note. */
  lemma ReplyEndsWithStderr(stdout: string, stderr: string, exitCode: int)
    requires stderr != ""
    ensures EndsWith(ReplyText(stdout, stderr, exitCode), stderr)
    ensures ReplyText(stdout, stderr, exitCode) == if stdout != "" then stdout + "\n" + stderr else stderr
  {
    var r := ReplyText(stdout, stderr, exitCode);
    if stdout != "" {
      assert r == stdout + "\n" + stderr;
      assert r[|r| - |stderr|..] == stderr;
    } else {
      assert r == stderr;
    }
  }

  /** A failure with nothing on standard error reports its exit code at the end. */
  lemma SilentFailureShowsExitCode(stdout: string, exitCode: int)
    requires exitCode != 0
    ensures ReplyText(stdout, "", exitCode) ==
      (if stdout != "" then stdout else CompletedMessage(exitCode)) + ExitCodeNote(exitCode)
    ensures EndsWith(ReplyText(stdout, "", exitCode), ExitCodeNote(exitCode))
  {
    var head := if stdout != "" then stdout else CompletedMessage(exitCode);
    assert Streams(stdout, "") == stdout;
    var r := head + ExitCodeNote(exitCode);
    assert r[|r| - |ExitCodeNote(exitCode)|..] == ExitCodeNote(exitCode);
  }

  /** A successful run that printed nothing says only that it completed with code 0. */
  lemma QuietSuccess()
    ensures ReplyText("", "", 0) == "Command completed with exit code 0."
  {
    assert IntToString(0) == "0";
  }

  // ---- The `govc_commands` tool ------------------------------------------------

  /** A line that opens the command list. */
  predicate IsHeader(t: string) {
    t == "Available commands:" || StartsWith(t, "Commands:")
  }

  /** A line that ends the command list. */
  predicate IsStop(t: string) {
    t == "" || StartsWith(t, "Use ") || StartsWith(t, "Flags:")
  }

  /** The trimmed lines collected before any header has been seen. */
  function Scan(ts: seq<string>): seq<string>
    decreases |ts|, 1
  {
    if ts == [] then []
    else if IsHeader(ts[0]) then Listed(ts[1..])
    else Scan(ts[1..])
  }

  /** The trimmed lines collected once inside the list. */
  function Listed(ts: seq<string>): seq<string>
    decreases |ts|, 0
  {
    if ts == [] then []
    else if IsHeader(ts[0]) then Listed(ts[1..])
    else if IsStop(ts[0]) then []
    else [ts[0]] + Listed(ts[1..])
  }

  /** Each line of `split('\n')`, trimmed. */
  function Trimmed(lines: seq<string>): (ts: seq<string>)
    ensures |ts| == |lines| && forall j :: 0 <= j < |lines| ==> ts[j] == Trim(lines[j])
  {
    seq(|lines|, j requires 0 <= j < |lines| => Trim(lines[j]))
  }

  /** The lines still to be collected, inside the list or not. */
  function Remaining(inCommands: bool, ts: seq<string>): seq<string> {
    if inCommands then Listed(ts) else Scan(ts)
  }

  /** The body of the `govc_commands` loop for the trimmed line `ts[0]`; `stop` is its `break`. */
  method ParseLine(commands: seq<string>, inCommands: bool, trimmed: string, ghost ts: seq<string>)
    returns (commands': seq<string>, inCommands': bool, stop: bool)
    requires ts != [] && ts[0] == trimmed
    ensures stop ==> commands' == commands + Remaining(inCommands, ts)
    ensures !stop ==> commands' + Remaining(inCommands', ts[1..]) == commands + Remaining(inCommands, ts)
  {
    commands', inCommands', stop := commands, inCommands, false;
    if trimmed == "Available commands:" || StartsWith(trimmed, "Commands:") {
      inCommands' := true;
      return;
    }
    if inCommands {
      if trimmed == "" || StartsWith(trimmed, "Use ") || StartsWith(trimmed, "Flags:") {
        assert commands + [] == commands;
        stop := true;
        return;
      }
      if trimmed != "" {
        assert (commands + [trimmed]) + Listed(ts[1..]) == commands + ([trimmed] + Listed(ts[1..]));
        commands' := commands + [trimmed];
      }
    }
  }

  /** `lines[i].trim()`: the head of the trimmed lines still to be read. */
  method TrimLine(lines: seq<string>, i: nat, ghost ts: seq<string>) returns (trimmed: string)
    requires i < |lines| && ts == Trimmed(lines)
    ensures ts[i..] != [] && ts[i..][0] == trimmed && ts[i..][1..] == ts[i + 1..]
  {
    trimmed := Trim(lines[i]);
  }

  /** The loop of the `govc_commands` case over the lines of the help output. */
  method ParseCommandList(output: string) returns (commands: seq<string>)
    ensures commands == Scan(Trimmed(SplitOn(output, '\n')))
  {
    var lines := SplitOn(output, '\n');
    ghost var ts := Trimmed(lines);
    commands := [];
    var inCommands := false;
    for i := 0 to |lines|
      invariant commands + Remaining(inCommands, ts[i..]) == Scan(ts)
    {
      var trimmed := TrimLine(lines, i, ts);
      var stop;
      commands, inCommands, stop := ParseLine(commands, inCommands, trimmed, ts[i..]);
      if stop {
        return;
      }
    }
    assert ts[|lines|..] == [];
    assert commands + [] == commands;
  }

  /** The lines that are not headers, in order. */
  function NonHeaders(ts: seq<string>): seq<string> {
    if ts == [] then [] else (if IsHeader(ts[0]) then [] else [ts[0]]) + NonHeaders(ts[1..])
  }

  /** Output without a header line yields no commands. */
  lemma {:induction false} NoHeaderNoCommands(ts: seq<string>)
    requires forall j :: 0 <= j < |ts| ==> !IsHeader(ts[j])
    ensures Scan(ts) == []
    decreases |ts|
  {
    if ts != [] {
      NoHeaderNoCommands(ts[1..]);
    }
  }

  /** Collection starts after the first header line. */
  lemma {:induction false} ScanFromFirstHeader(ts: seq<string>, h: nat)
    requires h < |ts| && IsHeader(ts[h])
    requires forall j :: 0 <= j < h ==> !IsHeader(ts[j])
    ensures Scan(ts) == Listed(ts[h + 1..])
    decreases h
  {
    if h > 0 {
      var rest := ts[1..];
      assert !IsHeader(ts[0]);
      ScanFromFirstHeader(rest, h - 1);
      assert rest[h..] == ts[h + 1..];
    }
  }

  /**
   * Inside the list: the lines before the first stop line that is not a
   * header (blank, `Use …`, `Flags:…`), except further header lines, in order.
   */
  lemma {:induction false} ListedUpToStop(ts: seq<string>, s: nat)
    requires s <= |ts|
    requires forall j :: 0 <= j < s ==> IsHeader(ts[j]) || !IsStop(ts[j])
    requires s < |ts| ==> !IsHeader(ts[s]) && IsStop(ts[s])
    ensures Listed(ts) == NonHeaders(ts[..s])
    decreases s
  {
    if s > 0 {
      var rest := ts[1..];
      assert IsHeader(ts[0]) || !IsStop(ts[0]);
      ListedUpToStop(rest, s - 1);
      assert ts[..s][0] == ts[0] && ts[..s][1..] == rest[..s - 1];
    }
  }

  /** Every collected entry is one of the lines, and neither opens nor closes the list. */
  lemma {:induction false} ListedEntries(ts: seq<string>)
    ensures forall c :: c in Listed(ts) ==> c in ts && !IsHeader(c) && !IsStop(c)
    decreases |ts|
  {
    if ts != [] {
      ListedEntries(ts[1..]);
      if !IsHeader(ts[0]) && !IsStop(ts[0]) {
        assert Listed(ts) == [ts[0]] + Listed(ts[1..]);
      }
    }
  }

  /** The collected commands are non-empty trimmed lines of the output, in order of appearance. */
  lemma CommandsAreTrimmedLines(output: string)
    ensures forall c :: c in Scan(Trimmed(SplitOn(output, '\n'))) ==>
      c != "" && Trim(c) == c && !IsHeader(c) && c in Trimmed(SplitOn(output, '\n'))
  {
    var ts := Trimmed(SplitOn(output, '\n'));
    forall c | c in Scan(ts)
      ensures c != "" && Trim(c) == c && !IsHeader(c) && c in ts
    {
      ScanWithin(ts, c);
      var j :| 0 <= j < |ts| && ts[j] == c;
      TrimIdempotent(SplitOn(output, '\n')[j]);
    }
  }

  /** Whatever `Scan` collects, `Listed` collected from some suffix. */
  lemma {:induction false} ScanWithin(ts: seq<string>, c: string)
    requires c in Scan(ts)
    ensures c in ts && !IsHeader(c) && !IsStop(c)
    decreases |ts|
  {
    if IsHeader(ts[0]) {
      ListedEntries(ts[1..]);
    } else {
      ScanWithin(ts[1..], c);
    }
  }

  /** `stderr || stdout`: govc prints its usage on standard error. */
  function HelpOutput(stdout: string, stderr: string): (r: string)
    ensures r == "" <==> stdout == "" && stderr == ""
    ensures stderr != "" ==> r == stderr
    ensures r == stderr || r == stdout
  {
    if stderr != "" then stderr else stdout
  }

  /** No collected command contains a line break: each is a trimmed piece of one line. */
  lemma CommandsHaveNoNewline(output: string, commands: seq<string>)
    requires commands == Scan(Trimmed(SplitOn(output, '\n')))
    ensures forall k :: 0 <= k < |commands| ==> '\n' !in commands[k]
  {
    var lines := SplitOn(output, '\n');
    var ts := Trimmed(lines);
    forall k | 0 <= k < |commands| ensures '\n' !in commands[k] {
      ScanWithin(ts, commands[k]);
      var j :| 0 <= j < |ts| && ts[j] == commands[k];
      SliceKeepsAbsent(lines[j], LeadingSpace(lines[j]), ts[j], '\n');
    }
  }

  /**
   * The `govc_commands` reply: the collected commands one per line, or the raw
   * help output when none was found. Splitting the reply at line breaks gives
   * back exactly the collected commands.
   */
  function CommandsText(output: string): (r: string)
    ensures var commands := Scan(Trimmed(SplitOn(output, '\n')));
      && (commands == [] ==> r == output)
      && (commands != [] ==> SplitOn(r, '\n') == commands)
  {
    var commands := Scan(Trimmed(SplitOn(output, '\n')));
    if |commands| > 0 then
      CommandsHaveNoNewline(output, commands);
      SplitJoin(commands, '\n');
      JoinWith(commands, "\n")
    else output
  }

  /** Help output without a recognised list is returned unchanged. */
  lemma CommandsFallback(output: string)
    requires forall j :: 0 <= j < |SplitOn(output, '\n')| ==> !IsHeader(Trim(SplitOn(output, '\n')[j]))
    ensures CommandsText(output) == output
  {
    NoHeaderNoCommands(Trimmed(SplitOn(output, '\n')));
  }

  // ---- The handler -------------------------------------------------------------

  /** `govc_help`'s reply: the help text, or a note naming the subcommand. */
  function HelpReplyText(subcommand: string, stdout: string, stderr: string): (t: string)
    ensures t != ""
    ensures stderr == "" && stdout == "" ==> t == "No help available for \"" + subcommand + "\"."
    ensures stderr != "" || stdout != "" ==> t == HelpOutput(stdout, stderr)
  {
    if stderr != "" then stderr
    else if stdout != "" then stdout
    else "No help available for \"" + subcommand + "\"."
  }

  /** What a call produces: a text reply, or the rejection of `execGovc` propagating. */
  datatype Outcome = Text(text: string) | Thrown(message: string)

  const MissingSubcommand := "Error: subcommand is required."

  /** `!subcommand`. */
  predicate Missing(subcommand: Option<string>) {
    subcommand.None? || subcommand.value == ""
  }

  /** The reply built from a settled `execGovc`. */
  function AfterRun(s: Settled, reply: (string, string, int) -> string): Outcome {
    match s
    case Rejected(m) => Thrown(m)
    case Resolved(out, err, code) => Text(reply(out, err, code))
  }

  predicate IsKnownTool(name: string) {
    name == "govc" || name == "govc_commands" || name == "govc_help"
  }

  /** Whether a call reaches `execGovc`: `govc_commands` always, the other two tools with a subcommand. */
  predicate Runs(name: string, subcommand: Option<string>) {
    name == "govc_commands" || ((name == "govc" || name == "govc_help") && !Missing(subcommand))
  }

  /** The argument vector each tool hands to `execGovc`. */
  function Argv(name: string, subcommand: Option<string>, args: Option<seq<string>>): seq<string>
    requires Runs(name, subcommand)
  {
    if name == "govc_commands" then ["-h"]
    else if name == "govc" then [subcommand.value] + args.GetOr([])
    else [subcommand.value, "-h"]
  }

  /**
   * `tools/call` for tool `name`; `exec` stands for `execGovc` with its
   * default timeout. A call that does not run govc replies with a fixed text;
   * one that does runs exactly `Argv` once, and throws exactly when that run
   * rejects, with the rejection's message.
   */
  function CallTool(
    name: string, subcommand: Option<string>, args: Option<seq<string>>,
    exec: seq<string> -> Settled): (r: Outcome)
    ensures !Runs(name, subcommand) ==>
      r == Text(if IsKnownTool(name) then MissingSubcommand else "Unknown tool: " + name)
    ensures Runs(name, subcommand) ==>
      var s := exec(Argv(name, subcommand, args));
      && (r.Thrown? <==> s.Rejected?)
      && (s.Rejected? ==> r.message == s.message)
      && (name == "govc" && s.Resolved? ==> r == Text(ReplyText(s.stdout, s.stderr, s.exitCode)))
      && (name == "govc_commands" && s.Resolved? ==> r == Text(CommandsText(HelpOutput(s.stdout, s.stderr))))
      && (name == "govc_help" && s.Resolved? ==> r == Text(HelpReplyText(subcommand.value, s.stdout, s.stderr)))
  {
    if name == "govc" then
      if Missing(subcommand) then Text(MissingSubcommand)
      else AfterRun(exec([subcommand.value] + args.GetOr([])), ReplyText)
    else if name == "govc_commands" then
      AfterRun(exec(["-h"]), (out, err, code) => CommandsText(HelpOutput(out, err)))
    else if name == "govc_help" then
      if Missing(subcommand) then Text(MissingSubcommand)
      else AfterRun(exec([subcommand.value, "-h"]), (out, err, code) => HelpReplyText(subcommand.value, out, err))
    else
      Text("Unknown tool: " + name)
  }

  /** An unknown tool gets a fixed reply naming it, and govc is never run. */
  lemma UnknownToolRunsNothing(
    name: string, subcommand: Option<string>, args: Option<seq<string>>,
    exec: seq<string> -> Settled, exec': seq<string> -> Settled)
    requires !IsKnownTool(name)
    ensures CallTool(name, subcommand, args, exec) == Text("Unknown tool: " + name)
    ensures CallTool(name, subcommand, args, exec) == CallTool(name, subcommand, args, exec')
  {
  }

  /** `govc` and `govc_help` without a subcommand reply with an error and run nothing. */
  lemma MissingSubcommandRunsNothing(
    name: string, subcommand: Option<string>, args: Option<seq<string>>,
    exec: seq<string> -> Settled, exec': seq<string> -> Settled)
    requires name == "govc" || name == "govc_help"
    requires Missing(subcommand)
    ensures CallTool(name, subcommand, args, exec) == Text(MissingSubcommand)
    ensures CallTool(name, subcommand, args, exec) == CallTool(name, subcommand, args, exec')
  {
  }

  /**
   * The `govc` tool runs exactly `[subcommand, ...args]` (no arguments when
   * `args` is absent): its reply depends on that one run only.
   */
  lemma GovcRunsSubcommandAndArgs(
    subcommand: string, args: Option<seq<string>>,
    exec: seq<string> -> Settled, exec': seq<string> -> Settled)
    requires subcommand != ""
    requires exec([subcommand] + args.GetOr([])) == exec'([subcommand] + args.GetOr([]))
    ensures CallTool("govc", Some(subcommand), args, exec) == CallTool("govc", Some(subcommand), args, exec')
    ensures exec([subcommand] + args.GetOr([])).Resolved? ==>
      var r := exec([subcommand] + args.GetOr([]));
      CallTool("govc", Some(subcommand), args, exec) == Text(ReplyText(r.stdout, r.stderr, r.exitCode))
  {
  }

  /** A timed-out run is not turned into a reply: the rejection propagates. */
  lemma RejectionPropagates(
    name: string, subcommand: Option<string>, args: Option<seq<string>>,
    exec: seq<string> -> Settled, message: string)
    requires name == "govc_commands" || (IsKnownTool(name) && !Missing(subcommand))
    requires forall argv :: exec(argv) == Rejected(message)
    ensures CallTool(name, subcommand, args, exec) == Thrown(message)
  {
  }
}
