/**
 * The start-up consistency check between the tool definitions and the
 * search index: every tool command should have an index entry and every
 * index entry a tool definition; each mismatch is one warning.
 */
module Registry {
  import opened CommandTypes

  predicate NoDuplicates(xs: seq<string>) {
    forall i, j :: 0 <= i < j < |xs| ==> xs[i] != xs[j]
  }

  /** The iteration order of `new Set(xs)`: first occurrences, in order. */
  function Dedup(xs: seq<string>): (d: seq<string>)
    ensures forall x :: x in d <==> x in xs
    ensures NoDuplicates(d)
  {
    if xs == [] then []
    else
      var d := Dedup(xs[..|xs| - 1]);
      var x := xs[|xs| - 1];
      assert forall y :: y in xs <==> y in xs[..|xs| - 1] || y == x;
      if x in d then d else d + [x]
  }

  /** A sequence without repetitions is its own set. */
  lemma {:induction false} DedupOfDistinct(xs: seq<string>)
    requires NoDuplicates(xs)
    ensures Dedup(xs) == xs
  {
    if xs != [] {
      var p := xs[..|xs| - 1];
      assert NoDuplicates(p);
      DedupOfDistinct(p);
      assert xs[|xs| - 1] !in p;
      assert xs == p + [xs[|xs| - 1]];
    }
  }

  function Commands(defs: seq<GovcToolDef>): (cs: seq<string>)
    ensures |cs| == |defs| && forall i :: 0 <= i < |defs| ==> cs[i] == defs[i].command
  {
    seq(|defs|, i requires 0 <= i < |defs| => defs[i].command)
  }

  function Names(index: seq<GovcCommandEntry>): (ns: seq<string>)
    ensures |ns| == |index| && forall i :: 0 <= i < |index| ==> ns[i] == index[i].name
  {
    seq(|index|, i requires 0 <= i < |index| => index[i].name)
  }

  /** `toolCommands`. */
  function ToolCommands(defs: seq<GovcToolDef>): seq<string> {
    Dedup(Commands(defs))
  }

  /** `indexCommands`. */
  function IndexCommands(index: seq<GovcCommandEntry>): seq<string> {
    Dedup(Names(index))
  }

  /** One mismatch, as the check reports it. */
  datatype Warning = NoIndexEntry(command: string) | NoToolDef(command: string)

  function Message(w: Warning): string {
    match w
    case NoIndexEntry(c) => "\U{26A0} Tool \"" + c + "\" has no search index entry in GOVC_COMMAND_INDEX"
    case NoToolDef(c) => "\U{26A0} Search index entry \"" + c + "\" has no matching tool def in GOVC_TOOL_DEFS"
  }

  /** The elements of `xs` that are not in `other`, in order. */
  function Absent(xs: seq<string>, other: seq<string>): (r: seq<string>)
    ensures forall x :: x in r <==> x in xs && x !in other
  {
    if xs == [] then []
    else
      var p := Absent(xs[..|xs| - 1], other);
      var x := xs[|xs| - 1];
      assert forall y :: y in xs <==> y in xs[..|xs| - 1] || y == x;
      if x !in other then p + [x] else p
  }

  lemma {:induction false} AbsentNoDuplicates(xs: seq<string>, other: seq<string>)
    requires NoDuplicates(xs)
    ensures NoDuplicates(Absent(xs, other))
  {
    if xs != [] {
      var p := xs[..|xs| - 1];
      assert NoDuplicates(p);
      AbsentNoDuplicates(p, other);
      assert xs[|xs| - 1] !in p;
    }
  }

  function ToolWarnings(cs: seq<string>): (ws: seq<Warning>)
    ensures |ws| == |cs| && forall i :: 0 <= i < |cs| ==> ws[i] == NoIndexEntry(cs[i])
  {
    seq(|cs|, i requires 0 <= i < |cs| => NoIndexEntry(cs[i]))
  }

  function IndexWarnings(cs: seq<string>): (ws: seq<Warning>)
    ensures |ws| == |cs| && forall i :: 0 <= i < |cs| ==> ws[i] == NoToolDef(cs[i])
  {
    seq(|cs|, i requires 0 <= i < |cs| => NoToolDef(cs[i]))
  }

  /** Tool commands without an index entry, then index entries without a tool. */
  function Warnings(defs: seq<GovcToolDef>, index: seq<GovcCommandEntry>): seq<Warning> {
    var tools := ToolCommands(defs);
    var names := IndexCommands(index);
    ToolWarnings(Absent(tools, names)) + IndexWarnings(Absent(names, tools))
  }

  lemma ToolWarningsSnoc(cs: seq<string>, c: string)
    ensures ToolWarnings(cs + [c]) == ToolWarnings(cs) + [NoIndexEntry(c)]
  {
  }

  lemma IndexWarningsSnoc(cs: seq<string>, c: string)
    ensures IndexWarnings(cs + [c]) == IndexWarnings(cs) + [NoToolDef(c)]
  {
  }

  /** The missing names of a prefix grow by the next name when it is missing. */
  lemma AbsentStep(xs: seq<string>, other: seq<string>, i: nat)
    requires i < |xs|
    ensures Absent(xs[..i + 1], other) == Absent(xs[..i], other) + (if xs[i] !in other then [xs[i]] else [])
  {
    assert xs[..i + 1][..i] == xs[..i];
  }

  /** The first loop: a warning for each tool command the index lacks. */
  method ToolSideCheck(toolCommands: seq<string>, indexCommands: seq<string>) returns (warnings: seq<Warning>)
    ensures warnings == ToolWarnings(Absent(toolCommands, indexCommands))
  {
    warnings := [];
    for i := 0 to |toolCommands|
      invariant warnings == ToolWarnings(Absent(toolCommands[..i], indexCommands))
    {
      var cmd := toolCommands[i];
      AbsentStep(toolCommands, indexCommands, i);
      if cmd !in indexCommands {
        ToolWarningsSnoc(Absent(toolCommands[..i], indexCommands), cmd);
        warnings := warnings + [NoIndexEntry(cmd)];
      } else {
        assert Absent(toolCommands[..i], indexCommands) + [] == Absent(toolCommands[..i], indexCommands);
      }
    }
    assert toolCommands[..|toolCommands|] == toolCommands;
  }

  /** The second loop: a warning for each index entry no tool defines. */
  method IndexSideCheck(toolCommands: seq<string>, indexCommands: seq<string>) returns (warnings: seq<Warning>)
    ensures warnings == IndexWarnings(Absent(indexCommands, toolCommands))
  {
    warnings := [];
    for i := 0 to |indexCommands|
      invariant warnings == IndexWarnings(Absent(indexCommands[..i], toolCommands))
    {
      var cmd := indexCommands[i];
      AbsentStep(indexCommands, toolCommands, i);
      if cmd !in toolCommands {
        IndexWarningsSnoc(Absent(indexCommands[..i], toolCommands), cmd);
        warnings := warnings + [NoToolDef(cmd)];
      } else {
        assert Absent(indexCommands[..i], toolCommands) + [] == Absent(indexCommands[..i], toolCommands);
      }
    }
    assert indexCommands[..|indexCommands|] == indexCommands;
  }

  /** The start-up check: the two loops over the deduplicated command sets, in order. */
  method SyncCheck(toolDefs: seq<GovcToolDef>, index: seq<GovcCommandEntry>) returns (warnings: seq<Warning>)
    ensures warnings == Warnings(toolDefs, index)
  {
    var toolCommands := ToolCommands(toolDefs);
    var indexCommands := IndexCommands(index);
    var first := ToolSideCheck(toolCommands, indexCommands);
    var second := IndexSideCheck(toolCommands, indexCommands);
    warnings := first + second;
  }

  /** Membership in the two warning runs put together. */
  lemma InBothRuns(a: seq<string>, b: seq<string>, c: string)
    ensures NoIndexEntry(c) in ToolWarnings(a) + IndexWarnings(b) <==> c in a
    ensures NoToolDef(c) in ToolWarnings(a) + IndexWarnings(b) <==> c in b
  {
    var ws := ToolWarnings(a) + IndexWarnings(b);
    if NoIndexEntry(c) in ws {
      var i :| 0 <= i < |ws| && ws[i] == NoIndexEntry(c);
      assert i < |a| && a[i] == c;
    }
    if c in a {
      var i :| 0 <= i < |a| && a[i] == c;
      assert ws[i] == NoIndexEntry(c);
    }
    if NoToolDef(c) in ws {
      var i :| 0 <= i < |ws| && ws[i] == NoToolDef(c);
      assert i >= |a| && b[i - |a|] == c;
    }
    if c in b {
      var i :| 0 <= i < |b| && b[i] == c;
      assert ws[|a| + i] == NoToolDef(c);
    }
  }

  /** Which warnings appear: each names a command known on one side only. */
  lemma WarningsExact(defs: seq<GovcToolDef>, index: seq<GovcCommandEntry>, c: string)
    ensures NoIndexEntry(c) in Warnings(defs, index) <==> c in Commands(defs) && c !in Names(index)
    ensures NoToolDef(c) in Warnings(defs, index) <==> c in Names(index) && c !in Commands(defs)
  {
    InBothRuns(Absent(ToolCommands(defs), IndexCommands(index)), Absent(IndexCommands(index), ToolCommands(defs)), c);
  }

  /** There is no warning exactly when both sides name the same commands. */
  lemma InSyncIffSameCommands(defs: seq<GovcToolDef>, index: seq<GovcCommandEntry>)
    ensures Warnings(defs, index) == [] <==>
      (forall c :: c in Commands(defs) <==> c in Names(index))
  {
    var ws := Warnings(defs, index);
    if ws == [] {
      forall c ensures c in Commands(defs) <==> c in Names(index) {
        WarningsExact(defs, index, c);
      }
    } else {
      var c := ws[0].command;
      WarningsExact(defs, index, c);
      assert ws[0] in ws;
    }
  }

  /** No mismatch is reported twice, and the tool-side warnings come first. */
  lemma WarningsDistinctAndOrdered(defs: seq<GovcToolDef>, index: seq<GovcCommandEntry>)
    ensures forall i, j :: 0 <= i < j < |Warnings(defs, index)| ==>
      Warnings(defs, index)[i] != Warnings(defs, index)[j]
    ensures forall i, j :: 0 <= i < j < |Warnings(defs, index)| && Warnings(defs, index)[j].NoIndexEntry? ==>
      Warnings(defs, index)[i].NoIndexEntry?
  {
    var a := Absent(ToolCommands(defs), IndexCommands(index));
    var b := Absent(IndexCommands(index), ToolCommands(defs));
    AbsentNoDuplicates(ToolCommands(defs), IndexCommands(index));
    AbsentNoDuplicates(IndexCommands(index), ToolCommands(defs));
    var ws := Warnings(defs, index);
    assert forall i :: 0 <= i < |a| ==> ws[i] == NoIndexEntry(a[i]);
    assert forall i :: |a| <= i < |ws| ==> ws[i] == NoToolDef(b[i - |a|]);
  }
}
