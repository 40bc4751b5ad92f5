/** Generation of one MCP tool description per govc tool definition. */
module Generator {
  import opened Wrappers
  import opened Json
  import opened CommandTypes

  /** The `inputSchema` of a tool; its `type` is always `"object"`. */
  datatype InputSchema = InputSchema(properties: seq<Entry<Value>>, required: Option<seq<string>>)

  /** An MCP tool; its handler is the executor's handler for `def`. */
  datatype McpTool = McpTool(name: string, description: string, inputSchema: InputSchema, def: GovcToolDef)

  /**
   * `command.replace(/\./g, '_')`: every `.` becomes `_` and every other
   * character is kept, so a tool name never contains a dot and a dot-free
   * command is its own tool name.
   */
  function ToToolName(command: string): (name: string)
    ensures |name| == |command|
    ensures forall i :: 0 <= i < |command| ==> name[i] == (if command[i] == '.' then '_' else command[i])
    ensures '.' !in name
    ensures '.' !in command ==> name == command
  {
    var name := seq(|command|, i requires 0 <= i < |command| => if command[i] == '.' then '_' else command[i]);
    assert forall i :: 0 <= i < |name| ==> name[i] != '.';
    name
  }

  /** Renaming a tool name again changes nothing. */
  lemma ToolNameIdempotent(command: string)
    ensures ToToolName(ToToolName(command)) == ToToolName(command)
  {
    var n := ToToolName(command);
    assert '.' !in n;
  }

  /** Two commands differing only in `.` against `_` get the same tool name. */
  lemma ToolNamesCanCollide()
    ensures ToToolName("vm.info") == ToToolName("vm_info") == "vm_info"
  {
    assert ToToolName("vm.info") == "vm_info";
    assert ToToolName("vm_info") == "vm_info";
  }

  function TypeName(kind: FlagType): string {
    match kind
    case BooleanType => "boolean"
    case NumberType => "number"
    case StringType => "string"
  }

  function StringArray(ss: seq<string>): (a: seq<Value>)
    ensures |a| == |ss| && forall i :: 0 <= i < |ss| ==> a[i] == JStr(ss[i])
  {
    seq(|ss|, i requires 0 <= i < |ss| => JStr(ss[i]))
  }

  /** `flagToJsonSchema`: the JSON schema of one flag. */
  function FlagSchema(flag: FlagDef): (schema: Value)
    ensures schema.JObj?
  {
    JObj([Entry("type", JStr(TypeName(flag.kind))), Entry("description", JStr(flag.description))]
         + if flag.enumValues.Some? then [Entry("enum", JArr(StringArray(flag.enumValues.value)))] else [])
  }

  /** A flag's schema holds its type name and description, and its enum exactly when it has one (even an empty one). */
  lemma FlagSchemaFields(flag: FlagDef)
    ensures var fs := FlagSchema(flag).fields;
      && DistinctKeys(fs)
      && Get(fs, "type") == Some(JStr(TypeName(flag.kind)))
      && Get(fs, "description") == Some(JStr(flag.description))
      && Get(fs, "enum") == (if flag.enumValues.Some? then Some(JArr(StringArray(flag.enumValues.value))) else None)
      && |fs| == (if flag.enumValues.Some? then 3 else 2)
  {
    var t := Entry("type", JStr(TypeName(flag.kind)));
    var d := Entry("description", JStr(flag.description));
    var rest := if flag.enumValues.Some? then [Entry("enum", JArr(StringArray(flag.enumValues.value)))] else [];
    assert FlagSchema(flag).fields == [t, d] + rest;
    SchemaKeysDistinct();
    SchemaLookups(t, d, rest, "enum");
  }

  lemma SchemaKeysDistinct()
    ensures "type" != "description" && "type" != "enum" && "description" != "enum"
  {
    assert |"description"| == 11;
    assert "type"[0] == 't' && "enum"[0] == 'e';
  }

  /** Lookups in a record of two or three entries with distinct keys. */
  lemma SchemaLookups<T>(t: Entry<T>, d: Entry<T>, rest: seq<Entry<T>>, k: string)
    requires t.key != d.key && |rest| <= 1 && (rest != [] ==> rest[0].key != t.key && rest[0].key != d.key)
    ensures DistinctKeys([t, d] + rest)
    ensures Get([t, d] + rest, t.key) == Some(t.val)
    ensures Get([t, d] + rest, d.key) == Some(d.val)
    ensures k != t.key && k != d.key ==> Get([t, d] + rest, k) == if rest != [] && k == rest[0].key then Some(rest[0].val) else None
  {
    var r := [t, d] + rest;
    DistinctPrefix(t, d, rest);
    assert Get(r, t.key) == Some(t.val) by {
      assert r[0] == t;
      KeyIndexIs(r, t.key, 0);
    }
    assert Get(r, d.key) == Some(d.val) by {
      assert r[0] == t && r[1] == d;
      KeyIndexIs(r, d.key, 1);
    }
    if k != t.key && k != d.key {
      assert r[0] == t && r[1] == d && |r| == 2 + |rest|;
      if rest != [] && k == rest[0].key {
        assert r[2] == rest[0];
        KeyIndexIs(r, k, 2);
      } else {
        assert rest != [] ==> r[2] == rest[0];
        KeyIndexIs(r, k, |r|);
      }
    }
  }

  lemma DistinctPrefix<T>(t: Entry<T>, d: Entry<T>, rest: seq<Entry<T>>)
    requires t.key != d.key && |rest| <= 1 && (rest != [] ==> rest[0].key != t.key && rest[0].key != d.key)
    ensures DistinctKeys([t, d] + rest)
  {
    var r := [t, d] + rest;
    assert r[0] == t && r[1] == d && (rest != [] ==> r[2] == rest[0]);
    assert |r| == 2 + |rest|;
  }

  /** The `_args` property of a tool that takes positional arguments. */
  function ArgsSchema(positionalArgs: string): Value {
    JObj([Entry("type", JStr("string")),
          Entry("description", JStr("Positional arguments: " + positionalArgs + ". Space-separated values."))])
  }

  /** `def.positionalArgs` is truthy. */
  predicate HasPositional(def: GovcToolDef) {
    def.positionalArgs.Some? && def.positionalArgs.value != ""
  }

  /** The schemas of the flags, by record assignment in flag order. */
  function FlagProperties(flags: seq<Entry<FlagDef>>): seq<Entry<Value>> {
    if flags == [] then []
    else
      var e := flags[|flags| - 1];
      Put(FlagProperties(flags[..|flags| - 1]), e.key, FlagSchema(e.val))
  }

  /** The keys of the required flags, in flag order. */
  function RequiredKeys(flags: seq<Entry<FlagDef>>): seq<string> {
    if flags == [] then []
    else
      var e := flags[|flags| - 1];
      RequiredKeys(flags[..|flags| - 1]) + (if IsRequired(e.val) then [e.key] else [])
  }

  function Properties(def: GovcToolDef): seq<Entry<Value>> {
    var props := FlagProperties(def.flags);
    if HasPositional(def) then Put(props, "_args", ArgsSchema(def.positionalArgs.value)) else props
  }

  /** The tool generated for `def`. */
  function ToolFor(def: GovcToolDef): McpTool {
    var required := RequiredKeys(def.flags);
    McpTool(
      ToToolName(def.command),
      "[govc " + def.command + "] " + def.description,
      InputSchema(Properties(def), if |required| > 0 then Some(required) else None),
      def)
  }

  /** Both accumulations of `generateTool` after one more flag. */
  lemma CollectStep(flags: seq<Entry<FlagDef>>, i: nat)
    requires i < |flags|
    ensures FlagProperties(flags[..i + 1]) == Put(FlagProperties(flags[..i]), flags[i].key, FlagSchema(flags[i].val))
    ensures RequiredKeys(flags[..i + 1]) == RequiredKeys(flags[..i]) + (if IsRequired(flags[i].val) then [flags[i].key] else [])
  {
    assert flags[..i + 1][..i] == flags[..i];
  }

  /** The loop of `generateTool`: each flag's schema under its key, and the required keys. */
  method CollectFlags(flags: seq<Entry<FlagDef>>) returns (properties: seq<Entry<Value>>, required: seq<string>)
    ensures properties == FlagProperties(flags)
    ensures required == RequiredKeys(flags)
  {
    properties, required := [], [];
    for i := 0 to |flags|
      invariant properties == FlagProperties(flags[..i])
      invariant required == RequiredKeys(flags[..i])
    {
      var e := flags[i];
      CollectStep(flags, i);
      properties := Put(properties, e.key, FlagSchema(e.val));
      if e.val.required == Some(true) {
        required := required + [e.key];
      } else {
        assert required + [] == required;
      }
    }
    assert flags[..|flags|] == flags;
  }

  method GenerateTool(def: GovcToolDef) returns (tool: McpTool)
    ensures tool == ToolFor(def)
  {
    var properties, required := CollectFlags(def.flags);
    if def.positionalArgs.Some? && def.positionalArgs.value != "" {
      properties := Put(properties, "_args", ArgsSchema(def.positionalArgs.value));
    }
    tool := McpTool(
      ToToolName(def.command),
      "[govc " + def.command + "] " + def.description,
      InputSchema(properties, if |required| > 0 then Some(required) else None),
      def);
  }

  /** `GOVC_TOOL_DEFS.map(generateTool)`: one tool per definition, in the same order. */
  method GenerateMcpTools(defs: seq<GovcToolDef>) returns (tools: seq<McpTool>)
    ensures |tools| == |defs|
    ensures forall i :: 0 <= i < |defs| ==> tools[i] == ToolFor(defs[i])
  {
    tools := [];
    for i := 0 to |defs|
      invariant |tools| == i
      invariant forall j :: 0 <= j < i ==> tools[j] == ToolFor(defs[j])
    {
      var t := GenerateTool(defs[i]);
      MapSnoc(defs, tools, t, ToolFor);
      tools := tools + [t];
    }
  }

  /** Appending `f(xs[i])` to the images of `xs[..i]` gives the images of `xs[..i + 1]`. */
  lemma MapSnoc<A, B>(xs: seq<A>, ys: seq<B>, y: B, f: A -> B)
    requires |ys| < |xs| && (forall j :: 0 <= j < |ys| ==> ys[j] == f(xs[j])) && y == f(xs[|ys|])
    ensures forall j :: 0 <= j < |ys| + 1 ==> (ys + [y])[j] == f(xs[j])
  {
  }

  /** Each flag key maps to its own schema; no other key appears. */
  lemma {:induction false} FlagPropertiesExact(flags: seq<Entry<FlagDef>>, k: string)
    requires DistinctKeys(flags)
    ensures Get(FlagProperties(flags), k) == if k in Keys(flags) then Some(FlagSchema(Get(flags, k).value)) else None
    decreases |flags|
  {
    if flags != [] {
      var p := flags[..|flags| - 1];
      var e := flags[|flags| - 1];
      assert flags == p + [e];
      DistinctSnoc(flags);
      FlagPropertiesExact(p, k);
      GetSnoc(p, e, k);
      if e.key != k {
        PutKeepsOthers(FlagProperties(p), e.key, FlagSchema(e.val), k);
      }
    }
  }

  /** With distinct flag keys, the properties keep the flags' keys in the flags' order. */
  lemma {:induction false} FlagPropertiesKeys(flags: seq<Entry<FlagDef>>)
    requires DistinctKeys(flags)
    ensures Keys(FlagProperties(flags)) == Keys(flags)
    decreases |flags|
  {
    if flags != [] {
      var p := flags[..|flags| - 1];
      var e := flags[|flags| - 1];
      DistinctSnoc(flags);
      FlagPropertiesKeys(p);
      PutKeys(FlagProperties(p), e.key, FlagSchema(e.val));
      KeysSnoc(flags);
    }
  }

  /** A listed key is exactly the key of a required flag. */
  lemma {:induction false} RequiredKeysExact(flags: seq<Entry<FlagDef>>, k: string)
    ensures k in RequiredKeys(flags) <==> exists i :: 0 <= i < |flags| && flags[i].key == k && IsRequired(flags[i].val)
    decreases |flags|
  {
    if flags != [] {
      var p := flags[..|flags| - 1];
      RequiredKeysExact(p, k);
      if k in RequiredKeys(flags) && k !in RequiredKeys(p) {
        assert flags[|flags| - 1].key == k && IsRequired(flags[|flags| - 1].val);
      }
      if exists i :: 0 <= i < |flags| && flags[i].key == k && IsRequired(flags[i].val) {
        var i :| 0 <= i < |flags| && flags[i].key == k && IsRequired(flags[i].val);
        if i < |p| {
          assert p[i] == flags[i];
        }
      }
    }
  }

  /** The tool's name, description and properties. */
  lemma ToolShape(def: GovcToolDef, k: string)
    requires DistinctKeys(def.flags)
    ensures var t := ToolFor(def);
      && '.' !in t.name
      && t.description == "[govc " + def.command + "] " + def.description
      && Get(t.inputSchema.properties, k) ==
           if k == "_args" && HasPositional(def) then Some(ArgsSchema(def.positionalArgs.value))
           else if k in Keys(def.flags) then Some(FlagSchema(Get(def.flags, k).value))
           else None
  {
    FlagPropertiesExact(def.flags, k);
    if HasPositional(def) && k != "_args" {
      PutKeepsOthers(FlagProperties(def.flags), "_args", ArgsSchema(def.positionalArgs.value), k);
    }
  }

  /** Property order: the flags' keys, then `_args` when it is not a flag key itself. */
  lemma PropertyOrder(def: GovcToolDef)
    requires DistinctKeys(def.flags)
    ensures Keys(ToolFor(def).inputSchema.properties)
         == Keys(def.flags) + (if HasPositional(def) && "_args" !in Keys(def.flags) then ["_args"] else [])
  {
    FlagPropertiesKeys(def.flags);
    if HasPositional(def) {
      PutKeys(FlagProperties(def.flags), "_args", ArgsSchema(def.positionalArgs.value));
    }
  }

  /** `required` is present exactly when some flag is required, and then lists exactly those keys. */
  lemma RequiredList(def: GovcToolDef, k: string)
    ensures var req := ToolFor(def).inputSchema.required;
      && (req.Some? <==> exists i :: 0 <= i < |def.flags| && IsRequired(def.flags[i].val))
      && (req.Some? ==> (k in req.value <==> exists i :: 0 <= i < |def.flags| && def.flags[i].key == k && IsRequired(def.flags[i].val)))
  {
    RequiredKeysExact(def.flags, k);
    var ks := RequiredKeys(def.flags);
    if exists i :: 0 <= i < |def.flags| && IsRequired(def.flags[i].val) {
      var i :| 0 <= i < |def.flags| && IsRequired(def.flags[i].val);
      RequiredKeysExact(def.flags, def.flags[i].key);
    }
    if |ks| > 0 {
      RequiredKeysExact(def.flags, ks[0]);
    }
  }

  /** A flag built with `bool(...)` or `strEnum(...)` is never listed as required. */
  lemma BuilderFlagsNotRequired(def: GovcToolDef, k: string)
    requires forall i :: 0 <= i < |def.flags| && def.flags[i].key == k ==> def.flags[i].val.required.None?
    ensures k !in RequiredKeys(def.flags)
  {
    RequiredKeysExact(def.flags, k);
  }
}
