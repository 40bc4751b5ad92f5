/** Flag schemas and tool definitions of the command registry, with their compact builders. */
module CommandTypes {
  import opened Wrappers
  import opened Json

  datatype FlagType = StringType | NumberType | BooleanType

  datatype Scalar = SString(s: string) | SNumber(n: int) | SBoolean(b: bool)

  /** A flag's schema; absent optional fields are `None`. */
  datatype FlagDef = FlagDef(
    kind: FlagType,
    description: string,
    required: Option<bool>,
    default: Option<Scalar>,
    enumValues: Option<seq<string>>)

  /** A tool definition: the govc command, its description, its flags and its positional-argument description. */
  datatype GovcToolDef = GovcToolDef(
    command: string,
    description: string,
    flags: seq<Entry<FlagDef>>,
    positionalArgs: Option<string>)

  /** An entry of the search catalogue. */
  datatype GovcCommandEntry = GovcCommandEntry(name: string, description: string, category: string)

  /** `flag.required` is truthy. */
  predicate IsRequired(f: FlagDef) {
    f.required == Some(true)
  }

  /** `str(description, required = false)`. */
  function Str(description: string, required: bool := false): (f: FlagDef)
    ensures f.kind == StringType && f.description == description
    ensures f.required == Some(required) && f.default.None? && f.enumValues.None?
    ensures IsRequired(f) <==> required
  {
    FlagDef(StringType, description, Some(required), None, None)
  }

  /** `num(description, required = false)`. */
  function Num(description: string, required: bool := false): (f: FlagDef)
    ensures f.kind == NumberType && f.description == description
    ensures f.required == Some(required) && f.default.None? && f.enumValues.None?
    ensures IsRequired(f) <==> required
  {
    FlagDef(NumberType, description, Some(required), None, None)
  }

  /** `bool(description)`: no `required` field at all. */
  function Bool(description: string): (f: FlagDef)
    ensures f.kind == BooleanType && f.description == description
    ensures f.required.None? && !IsRequired(f) && f.default.None? && f.enumValues.None?
  {
    FlagDef(BooleanType, description, None, None, None)
  }

  /** `strEnum(description, values)`: a string flag restricted to `values`, no `required` field. */
  function StrEnum(description: string, values: seq<string>): (f: FlagDef)
    ensures f.kind == StringType && f.description == description
    ensures f.enumValues == Some(values) && f.required.None? && !IsRequired(f) && f.default.None?
  {
    FlagDef(StringType, description, None, None, Some(values))
  }

  // ---- Common flag groups ---------------------------------------------------

  const VM: seq<Entry<FlagDef>> := [Entry("vm", Str("Virtual machine [GOVC_VM]"))]
  const HOST: seq<Entry<FlagDef>> := [Entry("host", Str("Host system [GOVC_HOST]"))]
  const DS: seq<Entry<FlagDef>> := [Entry("ds", Str("Datastore [GOVC_DATASTORE]"))]
  const CLUSTER: seq<Entry<FlagDef>> := [Entry("cluster", Str("Cluster [GOVC_CLUSTER]"))]
  const FOLDER: seq<Entry<FlagDef>> := [Entry("folder", Str("Inventory folder [GOVC_FOLDER]"))]
  const POOL: seq<Entry<FlagDef>> := [Entry("pool", Str("Resource pool [GOVC_RESOURCE_POOL]"))]
  const NET: seq<Entry<FlagDef>> := [Entry("net", Str("Network [GOVC_NETWORK]"))]

  /** A one-key record holding a string flag that is explicitly not required. */
  predicate IsOptionalStringGroup(g: seq<Entry<FlagDef>>, key: string) {
    && |g| == 1
    && g[0].key == key
    && g[0].val.kind == StringType
    && g[0].val.required == Some(false)
    && g[0].val.enumValues.None?
  }

  /** Every common group is a single optional string flag under its own key. */
  lemma CommonGroupsAreOptionalStrings()
    ensures IsOptionalStringGroup(VM, "vm") && IsOptionalStringGroup(HOST, "host")
    ensures IsOptionalStringGroup(DS, "ds") && IsOptionalStringGroup(CLUSTER, "cluster")
    ensures IsOptionalStringGroup(FOLDER, "folder") && IsOptionalStringGroup(POOL, "pool")
    ensures IsOptionalStringGroup(NET, "net")
  {
  }
}
