/**
 * The govc executor: argument building, the quote-aware splitter for free-form
 * positional arguments, the per-tool handler, and the classification of a
 * finished govc run into a result record.
 */
module Executor {
  import opened Wrappers
  import opened Json
  import opened Text
  import Sanitizer
  import opened CommandTypes

  // ---- buildArgs ------------------------------------------------------------

  /** The tokens one flag entry contributes: none, `-k=true|false`, or `-k` and `String(v)`. */
  function FlagTokens(key: string, val: Value): seq<string> {
    if val == JNull || val == JStr("") then []
    else if val.JBool? then ["-" + key + "=" + (if val.b then "true" else "false")]
    else ["-" + key, ToJsString(val)]
  }

  /** The tokens of all flag entries, in entry order. */
  function AllFlagTokens(flags: seq<Entry<Value>>): seq<string> {
    if flags == [] then []
    else AllFlagTokens(flags[..|flags| - 1]) + FlagTokens(flags[|flags| - 1].key, flags[|flags| - 1].val)
  }

  /** The argument vector after the command name. */
  function ArgTokens(flags: seq<Entry<Value>>, positional: seq<string>, json: bool): seq<string> {
    (if json then ["-json"] else []) + AllFlagTokens(flags) + positional
  }

  /** One pass of the flag loop: `null` and `''` are skipped, booleans give `-k=v`, anything else `-k` and its string. */
  method PushFlag(args: seq<string>, e: Entry<Value>) returns (args': seq<string>)
    ensures args' == args + FlagTokens(e.key, e.val)
  {
    args' := args;
    if e.val == JNull || e.val == JStr("") {
      return;
    }
    if e.val.JBool? {
      args' := args' + ["-" + e.key + "=" + (if e.val.b then "true" else "false")];
    } else {
      args' := args' + ["-" + e.key, ToJsString(e.val)];
    }
  }

  method BuildArgs(flags: seq<Entry<Value>>, positional: seq<string>, json: bool) returns (args: seq<string>)
    ensures args == ArgTokens(flags, positional, json)
  {
    args := [];
    if json {
      args := args + ["-json"];
    }
    for i := 0 to |flags|
      invariant args == (if json then ["-json"] else []) + AllFlagTokens(flags[..i])
    {
      assert AllFlagTokens(flags[..i + 1]) == AllFlagTokens(flags[..i]) + FlagTokens(flags[i].key, flags[i].val) by {
        assert flags[..i + 1][..i] == flags[..i];
      }
      ConcatAssoc(if json then ["-json"] else [], AllFlagTokens(flags[..i]), FlagTokens(flags[i].key, flags[i].val));
      args := PushFlag(args, flags[i]);
    }
    assert flags[..|flags|] == flags;
    args := args + positional;
  }

  /** The flag tokens of two runs of entries are the tokens of each, one after the other. */
  lemma {:induction false} AllFlagTokensAppend(a: seq<Entry<Value>>, b: seq<Entry<Value>>)
    ensures AllFlagTokens(a + b) == AllFlagTokens(a) + AllFlagTokens(b)
    decreases |b|
  {
    if b == [] {
      assert a + b == a;
    } else {
      var b' := b[..|b| - 1];
      var e := b[|b| - 1];
      var t := FlagTokens(e.key, e.val);
      assert (a + b)[..|a + b| - 1] == a + b' && (a + b)[|a + b| - 1] == e;
      assert AllFlagTokens(a + b) == AllFlagTokens(a + b') + t;
      assert AllFlagTokens(b) == AllFlagTokens(b') + t;
      AllFlagTokensAppend(a, b');
      ConcatAssoc(AllFlagTokens(a), AllFlagTokens(b'), t);
    }
  }

  /** The tokens contributed by one entry, wherever it sits among the others. */
  lemma EntryTokensInPlace(a: seq<Entry<Value>>, key: string, val: Value, b: seq<Entry<Value>>)
    ensures AllFlagTokens(a + [Entry(key, val)] + b) == AllFlagTokens(a) + FlagTokens(key, val) + AllFlagTokens(b)
  {
    AllFlagTokensAppend(a + [Entry(key, val)], b);
    AllFlagTokensAppend(a, [Entry(key, val)]);
    assert [Entry(key, val)][..0] == [];
  }

  /** `null` and `""` flags contribute nothing. */
  lemma EmptyFlagsOmitted(a: seq<Entry<Value>>, key: string, val: Value, b: seq<Entry<Value>>)
    requires val == JNull || val == JStr("")
    ensures AllFlagTokens(a + [Entry(key, val)] + b) == AllFlagTokens(a + b)
  {
    EntryTokensInPlace(a, key, val, b);
    AllFlagTokensAppend(a, b);
  }

  /** A boolean flag, `false` included, becomes exactly one `-key=value` token. */
  lemma BooleanFlagsExplicit(a: seq<Entry<Value>>, key: string, b: bool, rest: seq<Entry<Value>>)
    ensures AllFlagTokens(a + [Entry(key, JBool(b))] + rest)
         == AllFlagTokens(a) + ["-" + key + "=" + (if b then "true" else "false")] + AllFlagTokens(rest)
  {
    EntryTokensInPlace(a, key, JBool(b), rest);
  }

  /** Any other flag becomes the two tokens `-key` and `String(val)`. */
  lemma ValuedFlagsTwoTokens(a: seq<Entry<Value>>, key: string, val: Value, b: seq<Entry<Value>>)
    requires val != JNull && val != JStr("") && !val.JBool?
    ensures AllFlagTokens(a + [Entry(key, val)] + b)
         == AllFlagTokens(a) + ["-" + key, ToJsString(val)] + AllFlagTokens(b)
  {
    EntryTokensInPlace(a, key, val, b);
  }

  /** `-json` leads when requested, and the positional arguments always come last, untouched. */
  lemma ArgTokensFrame(flags: seq<Entry<Value>>, positional: seq<string>, json: bool)
    ensures var t := ArgTokens(flags, positional, json);
      && |t| >= |positional|
      && t[|t| - |positional|..] == positional
      && (json ==> t[0] == "-json")
      && (!json && flags == [] ==> t == positional)
  {
  }

  /** A leading `-json` does not mean JSON was requested: a flag named `json` produces one too. */
  lemma LeadingJsonNotExclusive()
    ensures ArgTokens([Entry("json", JStr("x"))], [], false) == ["-json", "x"]
  {
    var flags := [Entry("json", JStr("x"))];
    assert flags[..0] == [];
    assert "-" + "json" == "-json";
    assert FlagTokens("json", JStr("x")) == ["-json", "x"];
    assert AllFlagTokens(flags) == AllFlagTokens([]) + FlagTokens("json", JStr("x"));
  }

  // ---- splitArgs ------------------------------------------------------------

  predicate IsQuote(c: char) {
    c == '"' || c == '\''
  }

  /** The pending word, if it is not empty: no empty word is ever emitted, and no text is lost. */
  function Flush(cur: string): (ws: seq<string>)
    ensures forall w :: w in ws ==> w != [] && w == cur
    ensures cur != [] ==> cur in ws
    ensures |ws| <= 1
  {
    if cur == [] then [] else [cur]
  }

  /** The text of a quoted span, `r` starting right after the opening quote `q`. */
  function SpanBody(r: string, q: char): (body: string)
    ensures q !in body && StartsWith(r, body)
    ensures |body| < |r| ==> r[|body|] == q
  {
    r[..IndexOf(r, q)]
  }

  /** What follows the closing quote; nothing when the span is not closed. */
  function SpanRest(r: string, q: char): (rest: string)
    ensures |rest| < |r| || rest == []
  {
    var j := IndexOf(r, q);
    if j < |r| then r[j + 1..] else []
  }

  /**
   * Reference tokenizer: words are separated by spaces outside quotes; a
   * quoted span, up to the same quote character or the end of input, is
   * taken whole into the current word; empty words are dropped. `cur` is the
   * word read so far.
   */
  function Lex(s: string, cur: string): seq<string>
    decreases |s|
  {
    if s == [] then Flush(cur)
    else if s[0] == ' ' then Flush(cur) + Lex(s[1..], "")
    else if IsQuote(s[0]) then Lex(SpanRest(s[1..], s[0]), cur + SpanBody(s[1..], s[0]))
    else Lex(s[1..], cur + [s[0]])
  }

  /** The words of `s`. */
  function Words(s: string): seq<string> {
    Lex(s, "")
  }

  /** The words still to come from the splitter's state. */
  function Pending(cur: string, inQuote: Option<char>, rest: string): seq<string> {
    match inQuote
    case None => Lex(rest, cur)
    case Some(q) => Lex(SpanRest(rest, q), cur + SpanBody(rest, q))
  }

  /** One step inside a quoted span. */
  lemma SpanStep(r: string, q: char)
    requires r != []
    ensures r[0] == q ==> SpanBody(r, q) == [] && SpanRest(r, q) == r[1..]
    ensures r[0] != q ==> SpanBody(r, q) == [r[0]] + SpanBody(r[1..], q) && SpanRest(r, q) == SpanRest(r[1..], q)
  {
  }

  /** How the splitter's pending words change when it consumes one more character. */
  lemma PendingStep(cur: string, inQuote: Option<char>, rest: string)
    requires rest != []
    ensures inQuote.Some? && rest[0] == inQuote.value ==>
      Pending(cur, inQuote, rest) == Pending(cur, None, rest[1..])
    ensures inQuote.Some? && rest[0] != inQuote.value ==>
      Pending(cur, inQuote, rest) == Pending(cur + [rest[0]], inQuote, rest[1..])
    ensures inQuote.None? && IsQuote(rest[0]) ==>
      Pending(cur, None, rest) == Pending(cur, Some(rest[0]), rest[1..])
    ensures inQuote.None? && rest[0] == ' ' ==>
      Pending(cur, None, rest) == Flush(cur) + Pending("", None, rest[1..])
    ensures inQuote.None? && rest[0] != ' ' && !IsQuote(rest[0]) ==>
      Pending(cur, None, rest) == Pending(cur + [rest[0]], None, rest[1..])
  {
    if inQuote.Some? {
      var q := inQuote.value;
      SpanStep(rest, q);
      if rest[0] == q {
        assert cur + [] == cur;
      } else {
        assert cur + SpanBody(rest, q) == (cur + [rest[0]]) + SpanBody(rest[1..], q);
      }
    }
  }

  /** The body of the splitter's loop: consumes the character `rest[0]`. */
  method SplitStep(args: seq<string>, current: string, inQuote: Option<char>, rest: string)
    returns (args': seq<string>, current': string, inQuote': Option<char>)
    requires rest != []
    ensures args' + Pending(current', inQuote', rest[1..]) == args + Pending(current, inQuote, rest)
  {
    var ch := rest[0];
    PendingStep(current, inQuote, rest);
    args', current', inQuote' := args, current, inQuote;
    if inQuote.Some? {
      if ch == inQuote.value {
        inQuote' := None;
      } else {
        current' := current + [ch];
      }
    } else if ch == '"' || ch == '\'' {
      inQuote' := Some(ch);
    } else if ch == ' ' {
      ghost var tail := Pending("", None, rest[1..]);
      assert args + (Flush(current) + tail) == (args + Flush(current)) + tail;
      if current != "" {
        args' := args + [current];
        current' := "";
      }
    } else {
      current' := current + [ch];
    }
  }

  method SplitArgs(input: string) returns (args: seq<string>)
    ensures args == Words(input)
  {
    args := [];
    var current := "";
    var inQuote: Option<char> := None;
    for i := 0 to |input|
      invariant args + Pending(current, inQuote, input[i..]) == Words(input)
    {
      assert input[i..][1..] == input[i + 1..];
      args, current, inQuote := SplitStep(args, current, inQuote, input[i..]);
    }
    assert input[|input|..] == [];
    assert Pending(current, inQuote, []) == Flush(current) by {
      if inQuote.Some? {
        assert current + SpanBody([], inQuote.value) == current;
      }
    }
    if current != "" {
      args := args + [current];
    }
  }

  /** No word is empty. */
  lemma {:induction false} LexNoEmptyWord(s: string, cur: string)
    ensures forall w :: w in Lex(s, cur) ==> w != ""
    decreases |s|
  {
    if s == [] {
    } else if s[0] == ' ' {
      LexNoEmptyWord(s[1..], "");
    } else if IsQuote(s[0]) {
      LexNoEmptyWord(SpanRest(s[1..], s[0]), cur + SpanBody(s[1..], s[0]));
    } else {
      LexNoEmptyWord(s[1..], cur + [s[0]]);
    }
  }

  /** A word without spaces or quotes. */
  predicate IsPlainWord(w: string) {
    w != [] && forall i :: 0 <= i < |w| ==> w[i] != ' ' && !IsQuote(w[i])
  }

  /** Plain characters accumulate into the current word. */
  lemma {:induction false} LexPlainRun(w: string, rest: string, cur: string)
    requires forall i :: 0 <= i < |w| ==> w[i] != ' ' && !IsQuote(w[i])
    ensures Lex(w + rest, cur) == Lex(rest, cur + w)
    decreases |w|
  {
    if w == [] {
      assert w + rest == rest;
      assert cur + w == cur;
    } else {
      assert (w + rest)[0] == w[0] && (w + rest)[1..] == w[1..] + rest;
      LexPlainRun(w[1..], rest, cur + [w[0]]);
      assert cur + [w[0]] + w[1..] == cur + w;
    }
  }

  /** Plain words joined with single spaces split back into the same words. */
  lemma {:induction false} WordsOfJoinedPlainWords(ws: seq<string>)
    requires forall k :: 0 <= k < |ws| ==> IsPlainWord(ws[k])
    ensures Words(JoinWith(ws, " ")) == ws
    decreases |ws|
  {
    if |ws| == 0 {
    } else if |ws| == 1 {
      LexPlainRun(ws[0], "", "");
      assert ws[0] + "" == ws[0];
      assert "" + ws[0] == ws[0];
    } else {
      var tail := JoinWith(ws[1..], " ");
      assert JoinWith(ws, " ") == ws[0] + (" " + tail);
      LexPlainRun(ws[0], " " + tail, "");
      assert "" + ws[0] == ws[0];
      assert (" " + tail)[0] == ' ' && (" " + tail)[1..] == tail;
      WordsOfJoinedPlainWords(ws[1..]);
      assert ws == [ws[0]] + ws[1..];
    }
  }

  /** A quoted span is one word, spaces and the other quote character included. */
  lemma QuotedSpanIsOneWord(q: char, body: string, rest: string)
    requires IsQuote(q) && q !in body && body != []
    ensures Words([q] + body + [q] + (if rest == [] then [] else [' '] + rest)) == [body] + Words(rest)
  {
    var s := [q] + body + [q] + (if rest == [] then [] else [' '] + rest);
    var r := s[1..];
    assert s[0] == q;
    assert r == body + ([q] + (if rest == [] then [] else [' '] + rest));
    assert IndexOf(r, q) == |body| by {
      assert r[|body|] == q;
      assert forall k :: 0 <= k < |body| ==> r[k] == body[k];
    }
    assert SpanBody(r, q) == body;
    assert "" + body == body;
    assert Words(s) == Lex(SpanRest(r, q), body);
    if rest == [] {
      assert SpanRest(r, q) == [];
      assert Lex([], body) == [body];
      assert Words(rest) == [];
    } else {
      var after := SpanRest(r, q);
      assert after == r[|body| + 1..];
      assert after == [' '] + rest;
      assert after[0] == ' ' && after[1..] == rest;
      assert Lex(after, body) == Flush(body) + Lex(rest, "");
    }
  }

  /** A quote left open takes the rest of the input into the word. */
  lemma UnterminatedQuoteRunsToEnd(q: char, body: string)
    requires IsQuote(q) && q !in body
    ensures Words([q] + body) == Flush(body)
  {
    var s := [q] + body;
    assert s[0] == q && s[1..] == body;
    assert Words(s) == Lex(SpanRest(body, q), "" + SpanBody(body, q));
    assert IndexOf(body, q) == |body|;
    assert body[..|body|] == body;
    assert "" + body == body;
  }

  /** A plain word followed by a space is the first word. */
  lemma PlainWordThenRest(w: string, rest: string)
    requires IsPlainWord(w)
    ensures Words(w + [' '] + rest) == [w] + Words(rest)
  {
    LexPlainRun(w, [' '] + rest, "");
    assert w + [' '] + rest == w + ([' '] + rest);
    assert "" + w == w;
    var t := [' '] + rest;
    assert t[0] == ' ' && t[1..] == rest;
  }

  /** `a "body" d` gives the words `a`, `body` and `d`, spaces inside the quotes included. */
  lemma SplitsAroundQuotedSpan(a: string, body: string, d: string)
    requires IsPlainWord(a) && IsPlainWord(d) && body != [] && '"' !in body
    ensures Words(a + [' ', '"'] + body + ['"', ' '] + d) == [a, body, d]
  {
    var tail := ['"'] + body + ['"'] + ([' '] + d);
    QuotedSpanIsOneWord('"', body, d);
    LexPlainRun(d, "", "");
    assert d + "" == d && "" + d == d;
    PlainWordThenRest(a, tail);
    assert a + [' ', '"'] + body + ['"', ' '] + d == a + [' '] + tail;
  }

  /** An empty quoted span contributes no word: `""` gives nothing. */
  lemma EmptyQuotesGiveNothing(q: char)
    requires IsQuote(q)
    ensures Words([q, q]) == []
  {
    var s := [q, q];
    assert s[1..] == [q];
    assert IndexOf([q], q) == 0;
    assert SpanBody([q], q) == [] && SpanRest([q], q) == [];
    assert s[0] == q && IsQuote(s[0]);
    assert Words(s) == Lex(SpanRest(s[1..], q), "" + SpanBody(s[1..], q));
    assert "" + [] == "";
  }

  // ---- makeHandler ----------------------------------------------------------

  /**
   * Names that `key in obj` also finds on a plain object, inherited from
   * `Object.prototype` (`__proto__` left aside: assigning it does not create
   * an own key).
   */
  const InheritedNames: set<string> := {
    "constructor", "hasOwnProperty", "isPrototypeOf", "propertyIsEnumerable",
    "toLocaleString", "toString", "valueOf", "__defineGetter__",
    "__defineSetter__", "__lookupGetter__", "__lookupSetter__"
  }

  /** The declared flag names of a tool. */
  function DeclaredFlags(def: GovcToolDef): (names: set<string>)
    ensures forall k :: k in names <==> k in Keys(def.flags)
  {
    set k | k in Keys(def.flags)
  }

  /**
   * The handler's flag test as written, `key in def.flags`: own keys and
   * inherited names. It accepts every declared flag and more, but the extra
   * names never include `_args`, so `_args` is still accepted only when declared.
   */
  function VisibleAsWritten(def: GovcToolDef): (names: set<string>)
    ensures forall k :: k in names <==> k in Keys(def.flags) || k in InheritedNames
    ensures DeclaredFlags(def) <= names && names - DeclaredFlags(def) <= InheritedNames
    ensures "_args" in names <==> "_args" in Keys(def.flags)
  {
    DeclaredFlags(def) + InheritedNames
  }

  /** The flags record the handler builds, keeping the arguments whose name is in `visible`. */
  function SelectFlags(args: seq<Entry<Value>>, visible: set<string>): seq<Entry<Value>> {
    if args == [] then []
    else
      var acc := SelectFlags(args[..|args| - 1], visible);
      var e := args[|args| - 1];
      if e.key != "_args" && e.key in visible then Put(acc, e.key, e.val) else acc
  }

  /** The positional words the handler builds from an `_args` entry. */
  function ArgsEntryWords(e: Entry<Value>): seq<string> {
    if e.key == "_args" then
      var raw := Trim(ToJsString(e.val));
      if raw != "" then Words(raw) else []
    else []
  }

  function PositionalArgs(args: seq<Entry<Value>>): seq<string> {
    if args == [] then []
    else PositionalArgs(args[..|args| - 1]) + ArgsEntryWords(args[|args| - 1])
  }

  /**
   * The handler's loop over the call arguments, with the flag test made on
   * declared flags only (see the findings on `SelectFlagsAsWritten`).
   */
  method PrepareCall(def: GovcToolDef, args: seq<Entry<Value>>) returns (flags: seq<Entry<Value>>, positional: seq<string>)
    ensures flags == SelectFlags(args, DeclaredFlags(def))
    ensures positional == PositionalArgs(args)
  {
    flags := [];
    positional := [];
    for i := 0 to |args|
      invariant flags == SelectFlags(args[..i], DeclaredFlags(def))
      invariant positional == PositionalArgs(args[..i])
    {
      var e := args[i];
      assert args[..i + 1][..i] == args[..i];
      if e.key == "_args" {
        var raw := Trim(ToJsString(e.val));
        if raw != "" {
          var words := SplitArgs(raw);
          positional := positional + words;
        }
      } else if e.key in Keys(def.flags) {
        flags := Put(flags, e.key, e.val);
      }
    }
    assert args[..|args|] == args;
  }

  /** The full govc command line of a call: binary, command, then `ArgTokens`. */
  method CommandLine(bin: string, command: string, flags: seq<Entry<Value>>, positional: seq<string>, json: bool)
    returns (argv: seq<string>)
    ensures argv == [bin, command] + ArgTokens(flags, positional, json)
  {
    var tail := BuildArgs(flags, positional, json);
    argv := [bin, command] + tail;
  }

  /** What a tool handler runs: the tool's command with JSON output requested. */
  method HandlerCommandLine(bin: string, def: GovcToolDef, args: seq<Entry<Value>>) returns (argv: seq<string>)
    ensures argv == [bin, def.command] + ArgTokens(SelectFlags(args, DeclaredFlags(def)), PositionalArgs(args), true)
  {
    var flags, positional := PrepareCall(def, args);
    argv := CommandLine(bin, def.command, flags, positional, true);
  }

  /**
   * The flags record keeps exactly the declared flags among the arguments,
   * with their values; `_args` and undeclared names are dropped.
   */
  lemma {:induction false} SelectFlagsExact(args: seq<Entry<Value>>, visible: set<string>, k: string)
    requires DistinctKeys(args)
    ensures Get(SelectFlags(args, visible), k) == if k != "_args" && k in visible then Get(args, k) else None
    decreases |args|
  {
    if args != [] {
      var p := args[..|args| - 1];
      var e := args[|args| - 1];
      assert args == p + [e];
      DistinctSnoc(args);
      SelectFlagsExact(p, visible, k);
      GetSnoc(p, e, k);
      var acc := SelectFlags(p, visible);
      if e.key != "_args" && e.key in visible {
        if e.key != k {
          PutKeepsOthers(acc, e.key, e.val, k);
        }
      }
    }
  }

  lemma {:induction false} PositionalSnoc(p: seq<Entry<Value>>, e: Entry<Value>)
    ensures PositionalArgs(p + [e]) == PositionalArgs(p) + ArgsEntryWords(e)
  {
    assert (p + [e])[..|p|] == p;
  }

  lemma ConcatAssoc<T>(a: seq<T>, b: seq<T>, c: seq<T>)
    ensures a + (b + c) == (a + b) + c
  {
  }

  lemma {:induction false} PositionalAppendStep(a: seq<Entry<Value>>, b: seq<Entry<Value>>, e: Entry<Value>)
    requires PositionalArgs(a + b) == PositionalArgs(a) + PositionalArgs(b)
    ensures PositionalArgs(a + (b + [e])) == PositionalArgs(a) + PositionalArgs(b + [e])
  {
    var ab := a + b;
    assert a + (b + [e]) == ab + [e] by { ConcatAssoc(a, b, [e]); }
    assert PositionalArgs(ab + [e]) == PositionalArgs(ab) + ArgsEntryWords(e) by { PositionalSnoc(ab, e); }
    assert PositionalArgs(b + [e]) == PositionalArgs(b) + ArgsEntryWords(e) by { PositionalSnoc(b, e); }
    ConcatAssoc(PositionalArgs(a), PositionalArgs(b), ArgsEntryWords(e));
  }

  /** The positional words of two runs of arguments are those of each, in order. */
  lemma {:induction false} PositionalAppend(a: seq<Entry<Value>>, b: seq<Entry<Value>>)
    ensures PositionalArgs(a + b) == PositionalArgs(a) + PositionalArgs(b)
    decreases |b|
  {
    if b == [] {
      assert a + b == a;
    } else {
      var b' := b[..|b| - 1];
      var e := b[|b| - 1];
      assert b == b' + [e];
      PositionalAppend(a, b');
      PositionalAppendStep(a, b', e);
    }
  }

  /** Only `_args` supplies positional words: a trimmed `String(val)` split by `Words`. */
  lemma PositionalFromArgsEntry(a: seq<Entry<Value>>, val: Value, b: seq<Entry<Value>>)
    requires "_args" !in Keys(a) && "_args" !in Keys(b)
    ensures PositionalArgs(a + [Entry("_args", val)] + b) == Words(Trim(ToJsString(val)))
  {
    var e := Entry("_args", val);
    assert PositionalArgs(a + [e] + b) == ArgsEntryWords(e) by { OnlyEntryWords(a, e, b); }
    assert ArgsEntryWords(e) == Words(Trim(ToJsString(val))) by { ArgsEntryWordsOf(val); }
  }

  /** Between entries that supply no words, one entry's words are all the positional words. */
  lemma OnlyEntryWords(a: seq<Entry<Value>>, e: Entry<Value>, b: seq<Entry<Value>>)
    requires "_args" !in Keys(a) && "_args" !in Keys(b)
    ensures PositionalArgs(a + [e] + b) == ArgsEntryWords(e)
  {
    assert PositionalArgs(a + [e] + b) == PositionalArgs(a + [e]) + PositionalArgs(b) by { PositionalAppend(a + [e], b); }
    assert PositionalArgs(a + [e]) == PositionalArgs(a) + ArgsEntryWords(e) by { PositionalSnoc(a, e); }
    assert PositionalArgs(a) == [] by { NoArgsEntryNoWords(a); }
    assert PositionalArgs(b) == [] by { NoArgsEntryNoWords(b); }
  }

  /** The `_args` entry gives the words of its trimmed string form. */
  lemma ArgsEntryWordsOf(val: Value)
    ensures ArgsEntryWords(Entry("_args", val)) == Words(Trim(ToJsString(val)))
  {
    assert Words("") == [];
  }

  lemma {:induction false} NoArgsEntryNoWords(a: seq<Entry<Value>>)
    ensures "_args" !in Keys(a) ==> PositionalArgs(a) == []
    decreases |a|
  {
    if a != [] && "_args" !in Keys(a) {
      var p := a[..|a| - 1];
      assert forall j :: 0 <= j < |p| ==> Keys(p)[j] == Keys(a)[j];
      assert Keys(a)[|a| - 1] == a[|a| - 1].key;
      NoArgsEntryNoWords(p);
    }
  }

  /** A plain word with no whitespace at its ends is its own trim and its own single word. */
  lemma PlainWordIsOneWord(w: string)
    requires IsPlainWord(w) && !IsJsWhitespace(w[0]) && !IsJsWhitespace(w[|w| - 1])
    ensures Words(Trim(w)) == [w]
  {
    TrimKeepsUnpadded(w);
    LexPlainRun(w, "", "");
    assert w + "" == w;
    assert "" + w == w;
  }

  lemma NullIsPlainWord()
    ensures IsPlainWord("null") && !IsJsWhitespace('n') && !IsJsWhitespace('l')
  {
    assert "null" == ['n', 'u', 'l', 'l'];
  }

  /** `_args: null` is passed to govc as the word `null`. */
  lemma NullArgsBecomeWord()
    ensures PositionalArgs([Entry("_args", JNull)]) == ["null"]
  {
    PositionalFromArgsEntry([], JNull, []);
    assert [] + [Entry("_args", JNull)] + [] == [Entry("_args", JNull)];
    NullIsPlainWord();
    PlainWordIsOneWord("null");
  }

  // ---- Finding: the `in` test on a plain object -----------------------------

  /** The flags record exactly as the source builds it. */
  function SelectFlagsAsWritten(def: GovcToolDef, args: seq<Entry<Value>>): (flags: seq<Entry<Value>>)
    ensures flags == SelectFlags(args, VisibleAsWritten(def))
    ensures forall k :: k in Keys(flags) ==> k != "_args" && (k in Keys(def.flags) || k in InheritedNames)
    ensures DistinctKeys(args) ==> forall k ::
      Get(flags, k) == if k != "_args" && (k in Keys(def.flags) || k in InheritedNames) then Get(args, k) else None
  {
    ForwardedAreVisible(args, VisibleAsWritten(def));
    if DistinctKeys(args) then
      SelectFlagsExactAll(args, VisibleAsWritten(def));
      SelectFlags(args, VisibleAsWritten(def))
    else
      SelectFlags(args, VisibleAsWritten(def))
  }

  /** `SelectFlagsExact` for every key at once. */
  lemma SelectFlagsExactAll(args: seq<Entry<Value>>, visible: set<string>)
    requires DistinctKeys(args)
    ensures forall k :: Get(SelectFlags(args, visible), k) == if k != "_args" && k in visible then Get(args, k) else None
  {
    forall k ensures Get(SelectFlags(args, visible), k) == if k != "_args" && k in visible then Get(args, k) else None {
      SelectFlagsExact(args, visible, k);
    }
  }

  /** As written, an argument named after an inherited property reaches govc as a flag no tool declares. */
  lemma InheritedNameReachesGovc(def: GovcToolDef, k: string, s: string)
    requires k in InheritedNames && k !in Keys(def.flags) && s != ""
    ensures var args := [Entry(k, JStr(s))];
      && ArgTokens(SelectFlagsAsWritten(def, args), PositionalArgs(args), true) == ["-json", "-" + k, s]
      && ArgTokens(SelectFlags(args, DeclaredFlags(def)), PositionalArgs(args), true) == ["-json"]
  {
    InheritedNamesAreNotArgs(k);
    UndeclaredFlagSelection(DeclaredFlags(def), VisibleAsWritten(def), k, s);
  }

  /** A name one filter accepts and the other does not decides whether its flag reaches govc. */
  lemma UndeclaredFlagSelection(declared: set<string>, visible: set<string>, k: string, s: string)
    requires k != "_args" && k in visible && k !in declared && s != ""
    ensures var args := [Entry(k, JStr(s))];
      && ArgTokens(SelectFlags(args, visible), PositionalArgs(args), true) == ["-json", "-" + k, s]
      && ArgTokens(SelectFlags(args, declared), PositionalArgs(args), true) == ["-json"]
  {
    ForwardedFlag(visible, k, s);
    DroppedFlag(declared, k, s);
  }

  /** An accepted name other than `_args` holding a non-empty string reaches govc as `-k value`. */
  lemma ForwardedFlag(visible: set<string>, k: string, s: string)
    requires k != "_args" && k in visible && s != ""
    ensures var args := [Entry(k, JStr(s))];
      ArgTokens(SelectFlags(args, visible), PositionalArgs(args), true) == ["-json", "-" + k, s]
  {
    var e := Entry(k, JStr(s));
    assert SelectFlags([e], visible) == [e] by { SelectOne(e, visible); }
    assert PositionalArgs([e]) == [] by { OnlyArgsArePositional(e); }
    var t := AllFlagTokens([e]);
    assert t == ["-" + k, s] by { OneValuedFlag(k, s); }
    assert ArgTokens([e], [], true) == ["-json"] + t + [];
    Triple("-json", "-" + k, s);
  }

  lemma Triple<T>(a: T, b: T, c: T)
    ensures [a] + [b, c] + [] == [a, b, c]
  {
  }

  /** A name the filter rejects, other than `_args`, leaves only `-json`. */
  lemma DroppedFlag(visible: set<string>, k: string, s: string)
    requires k != "_args" && k !in visible
    ensures var args := [Entry(k, JStr(s))];
      ArgTokens(SelectFlags(args, visible), PositionalArgs(args), true) == ["-json"]
  {
    var e := Entry(k, JStr(s));
    SelectOne(e, visible);
    OnlyArgsArePositional(e);
    assert AllFlagTokens([]) == [];
    assert ArgTokens([], [], true) == ["-json"] + [] + [];
  }

  lemma InheritedNamesAreNotArgs(k: string)
    ensures k in InheritedNames ==> k != "_args"
  {
  }

  lemma SelectOne(e: Entry<Value>, visible: set<string>)
    ensures SelectFlags([e], visible) == if e.key != "_args" && e.key in visible then [e] else []
  {
    assert [e][..0] == [];
    assert Keys<Value>([]) == [];
  }

  lemma OneValuedFlag(k: string, s: string)
    requires s != ""
    ensures AllFlagTokens([Entry(k, JStr(s))]) == ["-" + k, s]
  {
    assert [Entry(k, JStr(s))][..0] == [];
  }

  lemma OnlyArgsArePositional(e: Entry<Value>)
    ensures e.key != "_args" ==> PositionalArgs([e]) == []
  {
    assert [e][..0] == [];
  }

  /** Every forwarded key was accepted by the filter and is not `_args`. */
  lemma {:induction false} ForwardedAreVisible(args: seq<Entry<Value>>, visible: set<string>)
    ensures forall k :: k in Keys(SelectFlags(args, visible)) ==> k in visible && k != "_args"
    decreases |args|
  {
    if args != [] {
      var p := args[..|args| - 1];
      ForwardedAreVisible(p, visible);
      var acc := SelectFlags(p, visible);
      var e := args[|args| - 1];
      if e.key != "_args" && e.key in visible {
        var r := Put(acc, e.key, e.val);
        forall k | k in Keys(r) ensures k in visible && k != "_args" {
          var j :| 0 <= j < |r| && Keys(r)[j] == k;
          assert r[j] == Entry(e.key, e.val) || r[j] in acc;
          if r[j] != Entry(e.key, e.val) {
            var m :| 0 <= m < |acc| && acc[m] == r[j];
            assert Keys(acc)[m] == k;
          }
        }
      }
    }
  }

  /** Corrected: every forwarded key is a declared flag. */
  lemma ForwardedAreDeclared(def: GovcToolDef, args: seq<Entry<Value>>)
    ensures forall k :: k in Keys(SelectFlags(args, DeclaredFlags(def))) ==> k in Keys(def.flags) && k != "_args"
  {
    ForwardedAreVisible(args, DeclaredFlags(def));
  }

  // ---- execGovc / execGovcHelp result classification --------------------------

  /** How a govc run ended: exit code and captured streams, the timeout, or a spawn failure. */
  datatype Completion =
    | Exited(code: int, stdout: string, stderr: string)
    | TimedOut
    | SpawnFailed(message: Option<string>)

  /** The `GovcResult` record: `raw`/`data`/`error` present only where set. */
  datatype GovcResult =
    | Failed(exitCode: int, error: string, raw: Option<string>)
    | Parsed(data: Value)
    | Unparsed(raw: Option<string>)
  {
    predicate Success() {
      !Failed?
    }

    function ExitCode(): int {
      if Failed? then exitCode else 0
    }
  }

  /** `s || undefined`: an absent field stands for the empty text and a present one is never empty. */
  function OptionalText(s: string): (o: Option<string>)
    ensures (if o.Some? then o.value else "") == s
    ensures o.Some? ==> o.value != ""
  {
    if s != "" then Some(s) else None
  }

  /**
   * The result record of a finished govc run; `parse` stands for `JSON.parse`
   * (`None` when it throws) and `timeoutMs` for `EXEC_TIMEOUT_MS`.
   */
  function Classify(c: Completion, json: bool, parse: string -> Option<Value>, timeoutMs: int): (r: GovcResult)
    ensures r.Success() <==> c.Exited? && c.code == 0
    ensures r.ExitCode() == if c.Exited? then c.code else -1
    ensures !c.SpawnFailed? ==> (r.Failed? ==> r.error != "")
    ensures c.Exited? && c.code != 0 ==>
      r.raw == OptionalText(Trim(c.stdout)) && (Trim(c.stderr) != "" ==> r.error == Trim(c.stderr))
    ensures c.Exited? && c.code != 0 && Trim(c.stderr) == "" ==> r.error == "govc exited with code " + IntToString(c.code)
    ensures !c.Exited? ==> r.Failed? && r.raw.None?
    ensures c.TimedOut? ==> r.error == "govc timed out after " + IntToString(timeoutMs) + "ms"
    ensures c.SpawnFailed? ==> r.error == c.message.GetOr("Unknown error spawning govc")
    ensures r.Parsed? <==> c.Exited? && c.code == 0 && json && Trim(c.stdout) != "" && parse(Trim(c.stdout)).Some?
    ensures r.Unparsed? ==> r.raw == OptionalText(Trim(c.stdout))
  {
    match c
    case TimedOut => Failed(-1, "govc timed out after " + IntToString(timeoutMs) + "ms", None)
    case SpawnFailed(m) => Failed(-1, m.GetOr("Unknown error spawning govc"), None)
    case Exited(code, out, err) =>
      if code != 0 then
        var e := Trim(err);
        Failed(code, if e != "" then e else "govc exited with code " + IntToString(code), OptionalText(Trim(out)))
      else
        var raw := Trim(out);
        if json && raw != "" && parse(raw).Some? then
          var p := parse(raw).value;
          Parsed(Sanitizer.Sanitized(p).GetOr(p))
        else Unparsed(OptionalText(raw))
  }

  /** Structured data is the sanitized document, or the parsed one when sanitizing removes everything. */
  lemma ParsedData(c: Completion, json: bool, parse: string -> Option<Value>, timeoutMs: int)
    requires Classify(c, json, parse, timeoutMs).Parsed?
    ensures var p := parse(Trim(c.stdout)).value;
      var d := Classify(c, json, parse, timeoutMs).data;
      && (Sanitizer.Sanitized(p).Some? ==> d == Sanitizer.Sanitized(p).value && Sanitizer.Clean(d) && Sanitizer.WellFormed(d))
      && (Sanitizer.Sanitized(p).None? ==> d == p)
  {
  }

  /** Output that is not JSON is never an error after a zero exit. */
  lemma UnparsableOutputIsText(out: string, err: string, parse: string -> Option<Value>, timeoutMs: int)
    requires parse(Trim(out)).None?
    ensures Classify(Exited(0, out, err), true, parse, timeoutMs) == Unparsed(OptionalText(Trim(out)))
  {
  }
}
