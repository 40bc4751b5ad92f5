# vmware-mcp core, modelled in Dafny

vmware-mcp is an MCP server that exposes VMware's `govc` command-line client
as tools. This project models the sequential logic around the `govc`
subprocess: how tool arguments become a command line, and how process output
becomes a tool result. It proves properties of that model.

- **Json** (`json.dfy`): parsed JSON values. JavaScript records are the list
  of their entries in `Object.entries` order. Record assignment `r[k] = v` is
  `Put`: a key already present keeps its place, a new key goes last.
- **Text** (`text.dfy`): the string operations the code relies on:
  - `trim()` with ECMAScript's whitespace set;
  - `startsWith`, `split('\n')` and `join`;
  - `String(n)` for integers.
- **Sanitizer** (`sanitizer.ts`): pruning and compaction of govc's JSON
  output. This covers noisy keys, `null`, empty arrays and objects, and
  `{type, value}` managed-object references.
- **CommandTypes** (`commands/types.ts`): flag and tool definitions, the
  `str`/`num`/`bool`/`strEnum` builders and the seven common flag groups.
- **Executor** (`executor.ts`):
  - `buildArgs`;
  - the quote-aware `splitArgs`;
  - the flag/positional partition of `makeHandler`;
  - how `execGovc` classifies a finished run.
- **Generator** (`generator.ts`): tool names and JSON schemas generated from
  tool definitions.
- **GovcProcess** (`govc.ts`):
  - the child environment (`GOVC_*`, `PATH`, `HOME`);
  - the `execFile` options;
  - the exit-code rule;
  - how the callback settles.
- **Server** (`index.ts`): the `tools/call` handler of the three fixed tools.
  This covers the reply text, the `govc -h` command-list parser, `govc_help`
  and unknown tools.
- **Registry** (`commands/index.ts`): the start-up consistency warnings
  between tool definitions and the search index.

Each loop becomes a method proved equal to a reference function: `BuildArgs`,
`SplitArgs`, `PrepareCall`, `Sanitize`, `GenerateTool`, `BuildChildEnv`,
`GovcReplyText`, `ParseCommandList` and `SyncCheck`. The properties the code
promises are lemmas about those functions.

The documentation says sanitizing twice changes nothing, but the code does
not achieve that. `{type:"A", value:"b", x:null}` sanitizes to
`{type:"A", value:"b"}`, and a second pass turns that into `"A:b"`. The model
follows the code. `Sanitizer.SecondPassCompactsPrunedReference` and
`Sanitizer.SecondPassCompactsNestedReference` exhibit the difference.
`Sanitizer.SecondPassIffNoReference` states exactly when a second pass is a
no-op.

## Model

| member | source | states |
|---|---|---|
| Sanitizer.Sanitized | src/sanitizer.ts:68-107 | Every result is clean at every depth: no null, no empty array or object, no noisy key, no duplicate key |
| Sanitizer.SanitizedElements | src/sanitizer.ts:79 | The element filter keeps at most as many elements as it is given, each one clean |
| Sanitizer.SanitizedFields | src/sanitizer.ts:89-100 | The object loop yields at most as many entries, with distinct, non-noisy keys and clean values |
| Sanitizer.Sanitize | src/sanitizer.ts:68-107 | The recursive procedure, with its object loop over `Object.entries`, returns exactly `Sanitized(v)` |
| Sanitizer.CompactAll | src/sanitizer.ts:58-76 | An all-reference array maps element by element to `type:value` strings, keeping length and order; every result is a string holding the `:` separator |
| Sanitizer.PrimitivesPassThrough | src/sanitizer.ts:69-106 | `null` becomes absent; booleans, numbers and strings, including `""`, `0` and `false`, are returned unchanged |
| Sanitizer.ReferenceCompacts | src/sanitizer.ts:40-87 | An object with exactly the string fields `type` and `value`, in either order, becomes the string `type:value` |
| Sanitizer.IsMoRef | src/sanitizer.ts:40-46 | A reference is an object with exactly two entries, keyed `type` and `value` in either order, both holding strings |
| Sanitizer.CompactMoRef | src/sanitizer.ts:58 | `type:value`: the type, a colon, then the value; when the type has no colon the first colon separates the two, so both parts can be read back |
| Sanitizer.MoRefShape | src/sanitizer.ts:40-46 | An object is a reference exactly when it has two keys, `type` and `value`, both holding strings |
| Sanitizer.ReferenceArrayCompacts | src/sanitizer.ts:51-77 | A non-empty array made only of references becomes the same-length array of compact strings, in order |
| Sanitizer.MixedArrayRecurses | src/sanitizer.ts:72-80 | Any other non-empty array is sanitized element by element with absent results dropped; it is absent when nothing survives |
| Sanitizer.ElementsAppend | src/sanitizer.ts:79 | Filtering the element results distributes over concatenation, so relative order is kept |
| Sanitizer.ElementsSingleton | src/sanitizer.ts:79 | One element contributes its sanitized value, or nothing when that is absent |
| Sanitizer.ElementsAllAbsent | src/sanitizer.ts:79-80 | Nothing survives exactly when every element sanitizes to absent |
| Sanitizer.KeptAppend | src/sanitizer.ts:92-100 | The declarative kept-fields list distributes over concatenation |
| Sanitizer.KeptKeysAreInputKeys | src/sanitizer.ts:92-99 | Every output key was an input key |
| Sanitizer.FieldsAreKept | src/sanitizer.ts:89-100 | The object loop's result equals the declarative list: input order, noisy keys and absent values dropped, values sanitized |
| Sanitizer.FieldStep | src/sanitizer.ts:92-99 | One more non-noisy entry with a present sanitized value is assigned into the result of the entries before it |
| Sanitizer.OneField | src/sanitizer.ts:92-99 | A single non-noisy entry with a present sanitized value becomes the one-entry record holding that value |
| Sanitizer.PutSecond | src/sanitizer.ts:97 | Assigning a second, different key to a one-entry record appends it after the first |
| Sanitizer.KeptMembership | src/sanitizer.ts:92-99 | An output entry `k: w` exists exactly when input key `k` is not noisy and its value sanitizes to `w` |
| Sanitizer.FieldsAllDropped | src/sanitizer.ts:93-102 | The object loop keeps nothing exactly when each field has a noisy key or a value that sanitizes to absent |
| Sanitizer.ObjectSanitizes | src/sanitizer.ts:83-102 | A non-reference object becomes its kept fields, and is absent (`hasKeys` false) exactly when no field survives |
| Sanitizer.SanitizedObject | src/sanitizer.ts:83-102 | A record that is not a reference becomes the object loop's result, or absent when that is empty |
| Sanitizer.SecondPassCompactsPrunedReference | src/sanitizer.ts:85-99 | `{type, value, k: null}` sanitizes to a reference, which a second pass compacts: sanitize is not idempotent |
| Sanitizer.SecondField | src/sanitizer.ts:92-100 | Two non-noisy entries under distinct keys, the first a fixed point, are both kept in order, the second with its sanitized value |
| Sanitizer.TwoStringFields | src/sanitizer.ts:92-100 | Two plain string entries with distinct non-noisy keys are kept unchanged |
| Sanitizer.NestedReferenceFields | src/sanitizer.ts:85-97 | A `value` that is itself a reference is compacted inside its parent |
| Sanitizer.SecondPassCompactsNestedReference | src/sanitizer.ts:85-97 | A reference nested in `value` makes its parent a reference after one pass; a second pass compacts it again |
| Sanitizer.ElementsIdentity | src/sanitizer.ts:79 | Elements that are all fixed points pass the element filter unchanged |
| Sanitizer.ElementsFixed | src/sanitizer.ts:79 | If the element filter leaves an array unchanged, every element is a fixed point |
| Sanitizer.FieldsIdentity | src/sanitizer.ts:92-100 | Non-noisy, distinct fields whose values are fixed points pass the object loop unchanged |
| Sanitizer.FieldsFixed | src/sanitizer.ts:92-100 | If the object loop leaves the fields unchanged, every value is a fixed point |
| Sanitizer.ArrayIsFixed | src/sanitizer.ts:71-80 | A non-empty, non-reference array of fixed points is itself a fixed point |
| Sanitizer.ObjectIsFixed | src/sanitizer.ts:83-102 | A non-empty, non-reference object with clean keys and fixed values is itself a fixed point |
| Sanitizer.NoReferenceIsFixed | src/sanitizer.ts:68-107 | A clean value with no reference at any depth is returned unchanged |
| Sanitizer.FixedHasNoReference | src/sanitizer.ts:68-107 | A fixed point contains no reference at any depth |
| Sanitizer.FixedPointIffNoReference | src/sanitizer.ts:68-107 | A clean value is a fixed point exactly when it holds no reference |
| Sanitizer.SecondPassIffNoReference | src/sanitizer.ts:68-107 | A second pass changes nothing exactly when the first result holds no reference |
| CommandTypes.Str | src/commands/types.ts:32-36 | `str` builds a plain string flag (no default, no `enum`) that counts as required exactly when `required` is true, so it is optional by default |
| CommandTypes.Num | src/commands/types.ts:38-42 | `num` builds a plain number flag (no default, no `enum`) that counts as required exactly when `required` is true, so it is optional by default |
| CommandTypes.Bool | src/commands/types.ts:44-47 | `bool` builds a boolean flag with no `required` field, so it never counts as required |
| CommandTypes.StrEnum | src/commands/types.ts:49-53 | `strEnum` builds a string flag whose `enum` is the values given, with no `required` field |
| CommandTypes.CommonGroupsAreOptionalStrings | src/commands/types.ts:57-63 | Each common group is a one-key record holding a non-required string flag |
| Executor.BuildArgs | src/executor.ts:21-37 | The token loop produces `-json` (if asked), then each flag's tokens in entry order, then the positional words |
| Executor.PushFlag | src/executor.ts:26-33 | One pass of the flag loop appends exactly that entry's tokens: none for `null` or `''`, `-k=v` for a boolean, `-k` and `String(v)` otherwise |
| Executor.AllFlagTokensAppend | src/executor.ts:26-33 | Flag tokens of two runs of entries are the tokens of each, one after the other |
| Executor.EntryTokensInPlace | src/executor.ts:26-33 | One entry's tokens appear exactly at its place among the others |
| Executor.EmptyFlagsOmitted | src/executor.ts:27 | A `null` or `''` value contributes no token |
| Executor.BooleanFlagsExplicit | src/executor.ts:28-29 | A boolean gives one token, `-k=true` or `-k=false`; `false` is not dropped |
| Executor.ValuedFlagsTwoTokens | src/executor.ts:30-31 | Any other value gives the two tokens `-k` and `String(v)` |
| Executor.OneValuedFlag | src/executor.ts:30-31 | A single non-empty string flag becomes exactly `-k` and its value |
| Executor.ArgTokensFrame | src/executor.ts:24-35 | Positional words end the vector verbatim; `-json` comes first when asked; no flags and no `-json` leaves just the words |
| Executor.LeadingJsonNotExclusive | src/executor.ts:24-31 | A flag named `json` can also produce a leading `-json` token, so `-json` first does not imply `json` was true |
| Executor.SplitArgs | src/executor.ts:42-65 | The character loop with `current`/`inQuote`/`args` produces exactly the reference tokenizer's words |
| Executor.SplitStep | src/executor.ts:46-61 | One character of the loop moves it to a state that still leads to the same words: emitted words plus what the rest will give are unchanged |
| Executor.PendingStep | src/executor.ts:46-61 | What the rest of the input will give, unfolded by one character: closing quote, character inside quotes, opening quote, space, plain character |
| Executor.Flush | src/executor.ts:54-63 | At most one word is emitted and it is never empty; a non-empty pending word is never lost |
| Executor.SpanBody | src/executor.ts:48-52 | A quoted span's body is a prefix of the rest without the quote character, ended by the closing quote or by the end of the input |
| Executor.LexNoEmptyWord | src/executor.ts:54-63 | No word is empty |
| Executor.LexPlainRun | src/executor.ts:58-59 | Characters other than spaces and quotes accumulate into the current word |
| Executor.WordsOfJoinedPlainWords | src/executor.ts:42-65 | Plain words joined with single spaces split back into the same words |
| Executor.QuotedSpanIsOneWord | src/executor.ts:48-52 | A quoted span is one word without its quotes; spaces and the other quote character inside it are literal |
| Executor.UnterminatedQuoteRunsToEnd | src/executor.ts:48-63 | A quote that is never closed takes the rest of the input into the word |
| Executor.PlainWordThenRest | src/executor.ts:53-57 | A plain word followed by a space is emitted as the first word |
| Executor.SplitsAroundQuotedSpan | src/executor.ts:42-65 | `a "body" d` gives the three words `a`, `body` and `d`, spaces inside the quotes kept |
| Executor.EmptyQuotesGiveNothing | src/executor.ts:49-63 | An empty quoted span gives no word: `""` yields nothing |
| Executor.VisibleAsWritten | src/executor.ts:162 | `key in def.flags` accepts every declared key and, beyond them, only `Object.prototype`'s members; `_args` is accepted exactly when declared |
| Executor.PrepareCall | src/executor.ts:155-165 | The argument loop yields the `_args` words and the declared flags, kept in argument order |
| Executor.CommandLine | src/executor.ts:76 | The spawned argv is the binary, the command, then `buildArgs`' tokens |
| Executor.HandlerCommandLine | src/executor.ts:154-167 | A handler call spawns the binary and command with `-json`, the selected flags and the `_args` words |
| Executor.SelectFlagsExact | src/executor.ts:158-165 | Each accepted key other than `_args` is forwarded with its value; every other key is dropped |
| Executor.SelectOne | src/executor.ts:162-163 | One entry is forwarded exactly when it is not `_args` and its name is accepted |
| Executor.OnlyArgsArePositional | src/executor.ts:159-161 | An entry other than `_args` contributes no positional word |
| Executor.PositionalSnoc | src/executor.ts:158-161 | Positional words grow entry by entry |
| Executor.PositionalAppend | src/executor.ts:158-161 | Positional words of two runs of entries are the words of each, in order |
| Executor.PositionalFromArgsEntry | src/executor.ts:159-161 | With one `_args` entry, the positional words are `splitArgs(String(val).trim())` |
| Executor.OnlyEntryWords | src/executor.ts:158-161 | Between entries that supply no words, one entry's words are all the positional words |
| Executor.ArgsEntryWordsOf | src/executor.ts:159-161 | The `_args` entry yields the words of its trimmed string form, none when that is empty |
| Executor.NoArgsEntryNoWords | src/executor.ts:159-161 | Without `_args` there are no positional words |
| Executor.PlainWordIsOneWord | src/executor.ts:160-161 | An unpadded plain word is its own single positional word |
| Executor.NullArgsBecomeWord | src/executor.ts:160 | `_args: null` is passed to govc as the word `null` |
| Executor.SelectFlagsAsWritten | src/executor.ts:162-163 | As written, every forwarded key is declared or inherited and never `_args`; with distinct argument names, each such key is forwarded with its own value and every other key is dropped |
| Executor.ForwardedAreVisible | src/executor.ts:162-163 | Whatever the accepted set, every forwarded key was accepted and is not `_args` |
| Executor.InheritedNameReachesGovc | src/executor.ts:162-163 | An argument named after an `Object.prototype` member reaches govc as a flag as written; the corrected filter drops it |
| Executor.UndeclaredFlagSelection | src/executor.ts:162-163 | A non-`_args` name that the filter accepts but the tool does not declare is forwarded as a flag with its value |
| Executor.ForwardedFlag | src/executor.ts:162-163 | An accepted name other than `_args` with a non-empty string value reaches govc as `-json -k value` |
| Executor.DroppedFlag | src/executor.ts:162-163 | A rejected name other than `_args` leaves only `-json` |
| Executor.ForwardedAreDeclared | src/executor.ts:162-163 | Every forwarded flag is declared in the tool definition and is not `_args` |
| Executor.OptionalText | src/executor.ts:105-121 | `s \|\| undefined`: reading an absent field as `""` gives back `s`, and a present field is never empty |
| Executor.Classify | src/executor.ts:100-128 | Outcomes: success exactly on exit 0; exit code or -1; the error text for each failure kind; `raw` as trimmed stdout or absent; structured data exactly when JSON parsing succeeded |
| Executor.ParsedData | src/executor.ts:113-115 | The data is the sanitized document, or the parsed one when sanitizing removes everything |
| Executor.UnparsableOutputIsText | src/executor.ts:111-121 | Output that does not parse is returned as text with success after a zero exit |
| Generator.ToToolName | src/generator.ts:16 | Every `.` becomes `_` and every other character is kept, so a tool name has no `.` and a dot-free command is its own tool name |
| Generator.ToolNameIdempotent | src/generator.ts:16 | Renaming a tool name again changes nothing |
| Generator.ToolNamesCanCollide | src/generator.ts:16 | `vm.info` and `vm_info` get the same tool name |
| Generator.FlagSchemaFields | src/generator.ts:18-25 | The schema (an object, as `Generator.FlagSchema` ensures) has distinct keys: `type` (`boolean`, `number` or `string`), the description, and `enum` exactly when the flag has one |
| Generator.SchemaLookups | src/generator.ts:19-23 | Lookups in a two- or three-entry record with distinct keys |
| Generator.GenerateTool | src/generator.ts:27-53 | The property/required loop and the `_args` branch build exactly the reference tool |
| Generator.CollectFlags | src/generator.ts:31-34 | The flag loop builds exactly the declarative properties record and required list |
| Generator.CollectStep | src/generator.ts:31-34 | One more flag assigns its schema under its key and appends its key to `required` exactly when it is required |
| Generator.GenerateMcpTools | src/generator.ts:55 | One tool per definition, in the same order |
| Generator.FlagPropertiesExact | src/generator.ts:31-32 | Each flag key maps to its own schema; no other key appears |
| Generator.FlagPropertiesKeys | src/generator.ts:31-32 | The property keys are the flag keys, in flag order |
| Generator.RequiredKeysExact | src/generator.ts:33 | A key is listed as required exactly when its flag has `required` true |
| Generator.ToolShape | src/generator.ts:36-45 | Name without dots; `[govc cmd] description`; each property is a flag schema or the `_args` string schema (when `positionalArgs` is non-empty); nothing else |
| Generator.PropertyOrder | src/generator.ts:31-41 | Property keys follow flag order, with `_args` last when added |
| Generator.RequiredList | src/generator.ts:33-49 | `required` is present exactly when some flag is required, and lists exactly those keys |
| Generator.BuilderFlagsNotRequired | src/generator.ts:33 | Flags built by `bool` or `strEnum` (src/commands/types.ts:44-53) are never listed as required |
| GovcProcess.BuildChildEnv | src/govc.ts:18-31 | The copy loop and the `PATH`/`HOME` assignments build the reference child environment |
| GovcProcess.GovcVarsLookup | src/govc.ts:19-23 | The loop copies exactly the defined `GOVC_*` variables, verbatim |
| GovcProcess.ChildEnvironmentLookup | src/govc.ts:18-31 | The child sees `PATH` and `HOME` when set and non-empty, each defined `GOVC_*` variable verbatim, and nothing else |
| GovcProcess.ChildEnvironmentNames | src/govc.ts:18-31 | The child environment's names are `GOVC_*`, `PATH` and `HOME` only |
| GovcProcess.ExitCodeOf | src/govc.ts:43 | No error gives 0, a numeric code gives itself, any other error gives 1; 0 exactly for no error or code 0 |
| GovcProcess.Settle | src/govc.ts:37-49 | A killed child rejects with the timeout message; otherwise it resolves with the streams (or `''`) and the exit code |
| GovcProcess.PrepareExec | src/govc.ts:16-36 | `execFile` receives `govc`, the arguments unchanged, the filtered environment, the timeout (60000 by default) and a 10 MiB buffer |
| Server.GovcReplyText | src/index.ts:75-81 | The successive appends build exactly the reference reply text |
| Server.ReplyStartsWithStdout | src/index.ts:75-78 | The reply is never empty and opens with stdout |
| Server.ReplyEndsWithStderr | src/index.ts:76-79 | With stderr present, the reply is stdout and stderr joined by a newline when both have text, with no exit-code note |
| Server.SilentFailureShowsExitCode | src/index.ts:78-81 | A failure with empty stderr ends with `\nExit code: N`, after stdout or the completion message |
| Server.QuietSuccess | src/index.ts:78 | A silent success says `Command completed with exit code 0.` |
| Server.ParseCommandList | src/index.ts:92-109 | The line loop with `inCommands` and `break` collects exactly the reference list |
| Server.ParseLine | src/index.ts:96-108 | One line of the loop keeps collected-plus-still-to-collect equal to the reference list, and `break` leaves nothing more to collect |
| Server.NoHeaderNoCommands | src/index.ts:97-101 | Without a header line nothing is collected |
| Server.ScanFromFirstHeader | src/index.ts:97-100 | Collection starts strictly after the first header |
| Server.ListedUpToStop | src/index.ts:97-107 | Inside the list: the lines before the first non-header blank/`Use `/`Flags:` line, header lines skipped, in order |
| Server.ListedEntries | src/index.ts:101-107 | Collected lines are neither headers nor stop lines |
| Server.ScanWithin | src/index.ts:95-109 | Whatever is collected is a trimmed line that is neither a header nor a stop line |
| Server.CommandsAreTrimmedLines | src/index.ts:92-107 | Collected commands are non-empty, trimmed, non-header lines of the output |
| Server.HelpOutput | src/index.ts:89 | `stderr \|\| stdout`: one of the two streams, stderr whenever it has text, empty only when both are |
| Server.CommandsHaveNoNewline | src/index.ts:92-107 | No collected command contains a line break |
| Server.CommandsText | src/index.ts:92-111 | The reply lists the collected commands one per line, splitting back into exactly that list; without commands it is the raw help output |
| Server.CallTool | src/index.ts:63-128 | Unknown tools and missing subcommands reply with fixed texts; otherwise the tool runs its argument vector once and throws exactly when that run rejects, with its message, else replies as each tool composes |
| Server.CommandsFallback | src/index.ts:111 | Help output without a recognised list is returned unchanged |
| Server.HelpReplyText | src/index.ts:121-122 | `govc_help` returns stderr, else stdout, else `No help available for "X".`; never empty |
| Server.UnknownToolRunsNothing | src/index.ts:126-127 | Any other tool name replies `Unknown tool: <name>` whatever govc would do |
| Server.MissingSubcommandRunsNothing | src/index.ts:68-120 | `govc`/`govc_help` without a subcommand reply `Error: subcommand is required.` and run nothing |
| Server.GovcRunsSubcommandAndArgs | src/index.ts:72-83 | The `govc` tool runs exactly `[subcommand, ...args]` (no args when absent) and replies with the composed text |
| Server.RejectionPropagates | src/index.ts:73-121 | A rejected `execGovc` is not turned into a reply |
| Registry.Dedup | src/commands/index.ts:22-23 | The `Set` has the same members as the list, without repetition |
| Registry.DedupOfDistinct | src/commands/index.ts:22-23 | A list without repetitions is its own `Set` order |
| Registry.Absent | src/commands/index.ts:25-35 | The names of one side missing from the other, in order |
| Registry.AbsentNoDuplicates | src/commands/index.ts:25-35 | Missing names inherit the `Set`'s lack of repetition |
| Registry.SyncCheck | src/commands/index.ts:22-35 | Composing the two loops, it emits the tool-side then the index-side warnings of the reference list |
| Registry.ToolSideCheck | src/commands/index.ts:25-29 | The first loop warns once, in order, for each tool command that has no index entry |
| Registry.IndexSideCheck | src/commands/index.ts:31-35 | The second loop warns once, in order, for each index entry that has no tool definition |
| Registry.AbsentStep | src/commands/index.ts:25-35 | One more name joins the missing list exactly when the other side lacks it |
| Registry.InBothRuns | src/commands/index.ts:25-35 | Each kind of warning names exactly the missing names of its side |
| Registry.WarningsExact | src/commands/index.ts:25-35 | A tool-side warning names a command absent from the index; an index-side warning names an entry without a tool; no others |
| Registry.InSyncIffSameCommands | src/commands/index.ts:22-35 | No warning exactly when both sides name the same set of commands |
| Registry.WarningsDistinctAndOrdered | src/commands/index.ts:22-35 | No warning repeats, and all tool-side warnings come before the index-side ones |
| Json.KeyIndex | src/sanitizer.ts:97 | Where a key sits in a record: the first matching entry, or the end when absent |
| Json.Get | src/sanitizer.ts:45-46 | Own-property lookup finds a value exactly when the key is present |
| Json.GetPair | src/sanitizer.ts:45-46 | A lookup in a two-entry record finds the first or the second entry, or nothing |
| Json.Put | src/sanitizer.ts:97 | Record assignment: the key maps to the new value; an existing key keeps its place; a new key goes last; keys stay distinct |
| Json.PutKeys | src/generator.ts:32 | Assignment leaves the keys alone or appends the new key |
| Json.PutKeepsOthers | src/generator.ts:32 | Assigning one key leaves every other key's lookup as it was |
| Json.GetSnoc | src/govc.ts:21 | Lookup in a record grown by one entry |
| Text.Trim | src/executor.ts:104 | `trim()` returns the slice of `s` that starts right after its leading whitespace and is followed only by whitespace; the slice has no whitespace at either end, and it is empty exactly when `s` is all whitespace |
| Text.LeadingSpace | src/executor.ts:104 | The length of the leading run of whitespace: everything before it is whitespace, the character at it is not |
| Text.TrailingSpace | src/executor.ts:104 | The length of the trailing run of whitespace: everything after it is whitespace, the character before it is not |
| Text.SliceKeepsAbsent | src/index.ts:96 | A slice holds no element its sequence lacks, so a trimmed line has no line break |
| Text.TrimStart | src/executor.ts:104 | The suffix left after dropping exactly the leading whitespace |
| Text.TrimEnd | src/executor.ts:104 | The prefix left after dropping exactly the trailing whitespace |
| Text.SplitOn | src/index.ts:92 | `split(c)` gives at least one piece, none containing `c` |
| Text.TrimIdempotent | src/index.ts:96 | Trimming twice is trimming once |
| Text.JoinSplit | src/index.ts:92-111 | Joining `split(c)`'s pieces with `c` gives back the string |
| Text.JoinCons | src/index.ts:111 | `join` puts the separator between the first piece and the join of the rest |
| Text.IntToString | src/index.ts:78 | `String(n)`: decimal digits denoting `n`, with `-` exactly for negatives and no leading zero |
| Text.SplitJoin | src/index.ts:92-111 | Pieces without the separator, joined with it, split back into the same pieces |
| Json.ToJsString | src/executor.ts:31 | `String(v)`: a string converts to itself, without quotes; the text is empty exactly for `""` or an array that joins to nothing |
| Json.JoinElements | src/executor.ts:160 | `a.join(",")` is empty exactly for no elements or one that renders empty (`null` included); two or more elements leave a comma |

## Left out

- Process execution. This covers `Bun.spawn`, the `Promise.race` timeout
  and `proc.kill` (src/executor.ts:76-98), and the `execFile` call itself
  (src/govc.ts:33-52). These are concurrency and I/O. A finished run enters
  `Executor.Classify` as a `Completion` value, and the `execFile` callback
  enters `GovcProcess.Settle` as its arguments. The executor's timer, which
  is never cleared, is not modelled.
- `execGovcHelp` (src/executor.ts:134-149): only process I/O with a fixed
  fallback text.
- `JSON.parse` is a parameter `parse: string -> Option<Value>`; `None`
  stands for a throw.
- Floating-point numbers: JSON numbers and flag values are integers, and
  `String(v)` is modelled for integers only.
- `undefined` as a flag or argument value. Parsed JSON never contains it. A
  record holding `undefined` is outside the model, except in the process
  environment, where `Option` models it.
- JavaScript's ordering of integer-like keys in `Object.entries`: records
  keep insertion order.
- Assignment to `__proto__` (src/executor.ts:163, src/sanitizer.ts:97,
  src/govc.ts:21) changes a prototype instead of adding a key. It is not
  modelled, and `__proto__` is not among the inherited names.
- Environment in src/executor.ts:82: that variant passes the whole
  `process.env`. Only src/govc.ts filters, and only that is modelled.
- `GOVC_BIN` and `GOVC_TIMEOUT_MS` (src/executor.ts:12-13) are parameters.
  `parseInt` yielding `NaN` is not modelled.
- `GovcProcess.Settle`: `killed` is a free input; when Node sets it is not
  modelled.
- Server.CallTool: `subcommand` and `args` are typed as the input schema
  declares. Non-string values behind the `as string` / `as string[]` casts
  (src/index.ts:68, 72, 117) are not modelled. `execGovc` is a parameter,
  and a rejection becomes `Thrown` instead of an MCP error response.
- Logging (`console.error`); `Registry.Message` gives the warning texts, but
  printing them is not modelled.
- MCP protocol plumbing (src/index.ts:1-62, 131-140).
- src/search.ts, src/formatter.ts and src/httpServer.ts are not part of this
  model. They are foreign-library wrappers and network I/O.
- The catalogue data in src/commands.ts, src/commands/commandIndex.ts and the
  tool-definition table are not part of this model. The functions over them
  take any list of definitions and entries.
- Registry.Dedup: the model states membership and absence of repetition. It
  does not state the first-occurrence order of `new Set` beyond lists that
  have no repetitions (`Registry.DedupOfDistinct`).
- The `handler` field of a generated tool (src/generator.ts:51) is the tool
  definition itself; `Executor.HandlerCommandLine` models what it does.

## Findings

| source | as written | input that shows it | evidently intended | confidence | as-written member | corrected member |
|---|---|---|---|---|---|---|
| src/executor.ts:162-163 | `key in def.flags` also accepts names inherited from `Object.prototype` | tool arguments `{ "toString": "x" }` for a tool without a `toString` flag: govc receives `-toString x` | forward only the flags the tool declares | medium, not executed; latent in this entry point, since src/index.ts registers only `govc`, `govc_commands` and `govc_help` and nothing calls `generateMCPTools` | Executor.InheritedNameReachesGovc | Executor.ForwardedAreDeclared |

The rest of the model uses the corrected partition: `Executor.PrepareCall`
and `Executor.HandlerCommandLine` forward declared flags only.
`Executor.SelectFlagsAsWritten` models the test as written.
