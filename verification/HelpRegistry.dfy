/**
  The help registry of src/bot/commands/help_collector.py: JSON entries that pass field
  validation become nodes, everything else is dropped, and look-ups follow the
  space-separated parts of a command's full name.
*/
module HelpRegistry {
  import opened Wrappers
  import opened Selections
  import opened Text

  datatype Json =
    | JNull
    | JBool(b: bool)
    | JNum(n: real)
    | JStr(s: string)
    | JList(items: seq<Json>)
    | JObj(fields: map<string, Json>)
  {
    /** bool(value) */
    predicate Truthy() {
      match this
      case JNull => false
      case JBool(b) => b
      case JNum(n) => n != 0.0
      case JStr(s) => s != ""
      case JList(items) => items != []
      case JObj(fields) => fields != map[]
    }
  }

  datatype Parameter = Parameter(name: string, description: string, required: bool, kind: string)

  datatype HelpData = HelpData(name: string, description: string, category: string, parameters: seq<Parameter>,
                               permissions: seq<string>, examples: seq<string>, tags: seq<string>)

  datatype RegistryNode = RegistryNode(data: HelpData, subcommands: map<string, RegistryNode>)

  type Registry = map<string, RegistryNode>

  // ---------------------------------------------------------------- field validation

  /** entry.get(field): an absent field reads as null. */
  function Get(entry: map<string, Json>, field: string): Json {
    if field in entry then entry[field] else JNull
  }

  function RequireStr(entry: map<string, Json>, field: string): Option<string> {
    var v := Get(entry, field);
    if v.JStr? && Strip(v.s) != "" then Some(Strip(v.s)) else None
  }

  function EntryName(entry: map<string, Json>, path: seq<string>): string {
    var v := Get(entry, "name");
    if v.JStr? && Strip(v.s) != "" then Strip(v.s) else Join(path, " ")
  }

  function Strings(items: seq<Json>): seq<string> {
    if items == [] then []
    else (if items[0].JStr? && Strip(items[0].s) != "" then [Strip(items[0].s)] else []) + Strings(items[1..])
  }

  /** None is the ValueError for a value that is neither absent nor a list. */
  function StrList(v: Json): Option<seq<string>> {
    match v
    case JNull => Some([])
    case JList(items) => Some(Strings(items))
    case _ => None
  }

  function ParameterOf(v: Json): Option<Parameter> {
    if !v.JObj? then None
    else
      var name, description := RequireStr(v.fields, "name"), RequireStr(v.fields, "description");
      var kind := RequireStr(v.fields, "type");
      if name.Some? && description.Some? && kind.Some?
      then Some(Parameter(name.value, description.value, Get(v.fields, "required").Truthy(), kind.value))
      else None
  }

  function Parameters(items: seq<Json>): Option<seq<Parameter>> {
    if forall i :: 0 <= i < |items| ==> ParameterOf(items[i]).Some?
    then Some(seq(|items|, i requires 0 <= i < |items| => ParameterOf(items[i]).value))
    else None
  }

  function ValidParameters(v: Json): Option<seq<Parameter>> {
    match v
    case JNull => Some([])
    case JList(items) => Parameters(items)
    case _ => None
  }

  /** The validated fields of an entry; None when any of them raises ValueError. */
  function Validate(entry: map<string, Json>, path: seq<string>): Option<HelpData> {
    var description, category := RequireStr(entry, "description"), RequireStr(entry, "category");
    var parameters := ValidParameters(Get(entry, "parameters"));
    var permissions, examples, tags :=
      StrList(Get(entry, "permissions")), StrList(Get(entry, "examples")), StrList(Get(entry, "tags"));
    if description.Some? && category.Some? && parameters.Some? && permissions.Some? && examples.Some? && tags.Some?
    then Some(HelpData(EntryName(entry, path), description.value, category.value, parameters.value,
                       permissions.value, examples.value, tags.value))
    else None
  }

  // ---------------------------------------------------------------- building

  function BuildNode(path: seq<string>, entry: Json): Option<RegistryNode>
    decreases entry
  {
    if !entry.JObj? || Validate(entry.fields, path).None? then None
    else
      var subs := Get(entry.fields, "subcommands");
      Some(RegistryNode(Validate(entry.fields, path).value,
                        if subs.JObj? then BuildAll(path, subs) else map[]))
  }

  function BuildAll(path: seq<string>, entries: Json): Registry
    requires entries.JObj?
    decreases entries
  {
    map k | k in entries.fields && BuildNode(path + [k], entries.fields[k]).Some?
      :: BuildNode(path + [k], entries.fields[k]).value
  }

  // ---------------------------------------------------------------- the loops of the collector

  lemma {:induction false} StringsSnoc(items: seq<Json>, item: Json)
    ensures Strings(items + [item]) ==
            Strings(items) + if item.JStr? && Strip(item.s) != "" then [Strip(item.s)] else []
  {
    if items == [] {
      assert items + [item] == [item] && [item][1..] == [];
    } else {
      assert (items + [item])[1..] == items[1..] + [item];
      StringsSnoc(items[1..], item);
    }
  }

  method EnsureStrList(value: Json) returns (r: Option<seq<string>>)
    ensures r == StrList(value)
  {
    if value.JNull? {
      return Some([]);
    }
    if !value.JList? {
      return None;
    }
    var result := [];
    for i := 0 to |value.items|
      invariant result == Strings(value.items[..i])
    {
      var item := value.items[i];
      assert value.items[..i + 1] == value.items[..i] + [item];
      StringsSnoc(value.items[..i], item);
      if item.JStr? {
        var stripped := Strip(item.s);
        if stripped != "" {
          result := result + [stripped];
        }
      }
    }
    assert value.items[..|value.items|] == value.items;
    r := Some(result);
  }

  method ValidateParameters(value: Json) returns (r: Option<seq<Parameter>>)
    ensures r == ValidParameters(value)
  {
    if value.JNull? {
      return Some([]);
    }
    if !value.JList? {
      return None;
    }
    var items, params := value.items, [];
    for i := 0 to |items|
      invariant |params| == i
      invariant forall k :: 0 <= k < i ==> ParameterOf(items[k]) == Some(params[k])
    {
      var p := ParameterOf(items[i]);
      if p.None? {
        return None;
      }
      params := params + [p.value];
    }
    assert Parameters(items).Some? && Parameters(items).value == params;
    r := Some(params);
  }

  method BuildRegistryNode(path: seq<string>, entry: Json) returns (r: Option<RegistryNode>)
    requires entry.JObj?
    ensures r == BuildNode(path, entry)
    decreases entry
  {
    var description, category := RequireStr(entry.fields, "description"), RequireStr(entry.fields, "category");
    var parameters := ValidateParameters(Get(entry.fields, "parameters"));
    var permissions := EnsureStrList(Get(entry.fields, "permissions"));
    var examples := EnsureStrList(Get(entry.fields, "examples"));
    var tags := EnsureStrList(Get(entry.fields, "tags"));
    if description.None? || category.None? || parameters.None? || permissions.None? || examples.None? || tags.None? {
      return None;
    }
    var data := HelpData(EntryName(entry.fields, path), description.value, category.value, parameters.value,
                         permissions.value, examples.value, tags.value);
    var subcommands := map[];
    var raw := Get(entry.fields, "subcommands");
    if raw.JObj? {
      subcommands := BuildEntries(path, raw);
    }
    r := Some(RegistryNode(data, subcommands));
  }

  /** The loop over a JSON object, in whatever order it lists its keys. */
  method BuildEntries(path: seq<string>, raw: Json) returns (nodes: Registry)
    requires raw.JObj?
    ensures nodes == BuildAll(path, raw)
    decreases raw
  {
    nodes := map[];
    var left := raw.fields.Keys;
    while left != {}
      invariant left <= raw.fields.Keys
      invariant forall k :: k in nodes <==>
                  k in raw.fields && k !in left && BuildNode(path + [k], raw.fields[k]).Some?
      invariant forall k :: k in nodes ==> nodes[k] == BuildNode(path + [k], raw.fields[k]).value
      decreases |left|
    {
      var k :| k in left;
      left := left - {k};
      if raw.fields[k].JObj? {
        var node := BuildRegistryNode(path + [k], raw.fields[k]);
        if node.Some? {
          nodes := nodes[k := node.value];
        }
      }
    }
  }

  class HelpCollector {
    var cache: Option<Registry>

    constructor ()
      ensures cache == None
    {
      cache := None;
    }

    /** _load_registry; file is None when commands.json is missing or unreadable. */
    method LoadRegistry(file: Option<Json>) returns (registry: Registry)
      modifies this
      ensures registry == if old(cache).Some? then old(cache).value else Load(file)
      ensures cache == Some(registry)
    {
      if cache.Some? {
        return cache.value;
      }
      registry := map[];
      if file.Some? && file.value.JObj? {
        registry := BuildEntries([], file.value);
      }
      cache := Some(registry);
    }

    method GetRegistryNode(file: Option<Json>, fullName: string) returns (r: LookUpResult)
      modifies this
      ensures r == LookUp(if old(cache).Some? then old(cache).value else Load(file), fullName)
    {
      var registry := LoadRegistry(file);
      if fullName == "" {
        return Absent;
      }
      var parts := Words(fullName);
      if parts == [] {
        return IndexFailure;
      }
      var node := Child(registry, parts[0]);
      var i := 1;
      while i < |parts|
        invariant 1 <= i <= |parts|
        invariant Follow(registry, parts) == if node.None? then None else FollowFrom(node.value, parts[i..])
      {
        if node.None? {
          return Absent;
        }
        assert parts[i..][1..] == parts[i + 1..];
        node := Child(node.value.subcommands, parts[i]);
        i := i + 1;
      }
      r := if node.Some? then Found(node.value) else Absent;
    }
  }

  // ---------------------------------------------------------------- looking up

  /** IndexFailure is `parts[0]` on a name of nothing but white space. */
  datatype LookUpResult = Found(node: RegistryNode) | Absent | IndexFailure

  function Load(file: Option<Json>): Registry {
    if file.Some? && file.value.JObj? then BuildAll([], file.value) else map[]
  }

  function Child(nodes: Registry, part: string): Option<RegistryNode> {
    if part in nodes then Some(nodes[part]) else None
  }

  function FollowFrom(node: RegistryNode, parts: seq<string>): Option<RegistryNode>
    decreases |parts|
  {
    if parts == [] then Some(node) else Follow(node.subcommands, parts)
  }

  function Follow(nodes: Registry, parts: seq<string>): Option<RegistryNode>
    requires parts != []
    decreases |parts|, 0
  {
    var node := Child(nodes, parts[0]);
    if node.None? then None else FollowFrom(node.value, parts[1..])
  }

  function LookUp(registry: Registry, fullName: string): LookUpResult {
    var parts := Words(fullName);
    if fullName == "" then Absent
    else if parts == [] then IndexFailure
    else
      var node := Follow(registry, parts);
      if node.Some? then Found(node.value) else Absent
  }

  // ---------------------------------------------------------------- the registry is the valid part of the file

  /** The raw entry that the parts name, whatever it is, going down through `subcommands` objects. */
  function RawAt(entries: Json, parts: seq<string>): Option<Json>
    requires parts != []
    decreases |parts|
  {
    if !entries.JObj? || parts[0] !in entries.fields then None
    else
      var entry := entries.fields[parts[0]];
      if |parts| == 1 then Some(entry)
      else if entry.JObj? then RawAt(Get(entry.fields, "subcommands"), parts[1..])
      else None
  }

  /** The validated fields of the raw entry the parts name, if it is there, an object, and valid. */
  function ValidData(file: Json, above: seq<string>, parts: seq<string>): Option<HelpData>
    requires parts != []
  {
    var raw := RawAt(file, parts);
    if raw.Some? && raw.value.JObj? then Validate(raw.value.fields, above + parts) else None
  }

  /** Every entry on the way down is valid, the last included. */
  predicate ValidAlong(file: Json, above: seq<string>, parts: seq<string>) {
    forall i :: 1 <= i <= |parts| ==> ValidData(file, above, parts[..i]).Some?
  }

  function SubsOf(entries: Json, k: string): Json {
    if entries.JObj? && k in entries.fields && entries.fields[k].JObj?
    then Get(entries.fields[k].fields, "subcommands") else JNull
  }

  lemma ValidDataBelow(entries: Json, above: seq<string>, k: string, rest: seq<string>)
    requires rest != []
    ensures ValidData(entries, above, [k] + rest) == ValidData(SubsOf(entries, k), above + [k], rest)
  {
    assert ([k] + rest)[1..] == rest;
    assert above + ([k] + rest) == above + [k] + rest;
  }

  lemma ValidAlongBelow(entries: Json, above: seq<string>, parts: seq<string>)
    requires parts != []
    ensures ValidAlong(entries, above, parts) <==>
            ValidData(entries, above, [parts[0]]).Some? &&
              ValidAlong(SubsOf(entries, parts[0]), above + [parts[0]], parts[1..])
  {
    var k, rest := parts[0], parts[1..];
    assert parts[..1] == [k];
    forall i | 1 <= i <= |rest|
      ensures ValidData(entries, above, parts[..i + 1]) == ValidData(SubsOf(entries, k), above + [k], rest[..i])
    {
      assert parts[..i + 1] == [k] + rest[..i];
      ValidDataBelow(entries, above, k, rest[..i]);
    }
    if ValidData(entries, above, [k]).Some? && ValidAlong(SubsOf(entries, k), above + [k], rest) {
      forall i | 1 <= i <= |parts|
        ensures ValidData(entries, above, parts[..i]).Some?
      {
        if i > 1 {
          assert ValidData(entries, above, parts[..(i - 1) + 1]) ==
            ValidData(SubsOf(entries, k), above + [k], rest[..i - 1]);
        }
      }
    }
  }

  /** The nodes built from a JSON value, should it be an object. */
  ghost predicate BuiltFrom(registry: Registry, entries: Json, above: seq<string>) {
    registry == if entries.JObj? then BuildAll(above, entries) else map[]
  }

  lemma BuiltChild(registry: Registry, entries: Json, above: seq<string>, k: string)
    requires BuiltFrom(registry, entries, above)
    ensures k in registry <==> ValidData(entries, above, [k]).Some?
    ensures k in registry ==>
              && ValidData(entries, above, [k]) == Some(registry[k].data)
              && BuiltFrom(registry[k].subcommands, SubsOf(entries, k), above + [k])
  {
    if entries.JObj? && k in entries.fields {
      assert RawAt(entries, [k]) == Some(entries.fields[k]);
      assert k in registry <==> BuildNode(above + [k], entries.fields[k]).Some?;
    }
  }

  lemma FollowStep(registry: Registry, k: string, rest: seq<string>)
    ensures Follow(registry, [k] + rest) ==
            if k !in registry then None
            else if rest == [] then Some(registry[k]) else Follow(registry[k].subcommands, rest)
  {
    assert ([k] + rest)[1..] == rest;
  }

  /** ValidAlong, step by step. */
  predicate ValidDown(entries: Json, above: seq<string>, parts: seq<string>)
    decreases |parts|
  {
    parts == [] ||
    (ValidData(entries, above, [parts[0]]).Some? &&
      ValidDown(SubsOf(entries, parts[0]), above + [parts[0]], parts[1..]))
  }

  lemma {:induction false} ValidDownIsAlong(entries: Json, above: seq<string>, parts: seq<string>)
    ensures ValidDown(entries, above, parts) <==> ValidAlong(entries, above, parts)
    decreases |parts|
  {
    if parts != [] {
      ValidAlongBelow(entries, above, parts);
      ValidDownIsAlong(SubsOf(entries, parts[0]), above + [parts[0]], parts[1..]);
    }
  }

  lemma {:induction false} FollowBuilt(registry: Registry, file: Json, above: seq<string>, parts: seq<string>)
    requires parts != [] && BuiltFrom(registry, file, above)
    ensures Follow(registry, parts).Some? <==> ValidDown(file, above, parts)
    ensures Follow(registry, parts).Some? ==> ValidData(file, above, parts) == Some(Follow(registry, parts).value.data)
    decreases |parts|
  {
    var k, rest := parts[0], parts[1..];
    assert parts == [k] + rest;
    BuiltChild(registry, file, above, k);
    FollowStep(registry, k, rest);
    assert rest == [] ==> parts == [k];
    if k in registry && rest != [] {
      ValidDataBelow(file, above, k, rest);
      FollowBuilt(registry[k].subcommands, SubsOf(file, k), above + [k], rest);
    }
  }

  // ---------------------------------------------------------------- what valid entries are, and what their nodes hold

  /** The field is a string of more than white space. */
  predicate HasText(entry: map<string, Json>, field: string) {
    field in entry && entry[field].JStr? && Strip(entry[field].s) != ""
  }

  /** The field is absent, null, or a list. */
  predicate HasListOrNone(entry: map<string, Json>, field: string) {
    field in entry ==> entry[field].JNull? || entry[field].JList?
  }

  function ListOf(entry: map<string, Json>, field: string): seq<Json> {
    if field in entry && entry[field].JList? then entry[field].items else []
  }

  /** The entries the registry keeps, by their raw fields. */
  predicate ValidEntry(entry: map<string, Json>) {
    && HasText(entry, "description") && HasText(entry, "category")
    && HasListOrNone(entry, "parameters") && HasListOrNone(entry, "permissions")
    && HasListOrNone(entry, "examples") && HasListOrNone(entry, "tags")
    && forall p :: p in ListOf(entry, "parameters") ==> ValidParameter(p)
  }

  predicate IsText(v: Json) { v.JStr? && Strip(v.s) != "" }

  function TextIn(v: Json): string { if v.JStr? then Strip(v.s) else "" }

  /** The strings of the list that are not blank, stripped and in order. */
  predicate TextsOf(texts: seq<string>, items: seq<Json>) {
    Chosen(items, IsText, TextIn, texts)
  }

  predicate ValidParameter(p: Json) {
    p.JObj? && HasText(p.fields, "name") && HasText(p.fields, "description") && HasText(p.fields, "type")
  }

  /** The parameter is, field by field, what the valid raw element says. */
  predicate DescribesParameter(p: Json, d: Parameter)
    requires ValidParameter(p)
  {
    && d.name == Strip(p.fields["name"].s) && d.description == Strip(p.fields["description"].s)
    && d.kind == Strip(p.fields["type"].s)
    && d.required == ("required" in p.fields && p.fields["required"].Truthy())
  }

  predicate DescribesParameters(params: seq<Json>, ds: seq<Parameter>) {
    |ds| == |params|
    && forall i :: 0 <= i < |params| ==> ValidParameter(params[i]) && DescribesParameter(params[i], ds[i])
  }

  /** The help is, field by field, what the valid raw entry at the path says. */
  predicate Describes(entry: map<string, Json>, path: seq<string>, d: HelpData)
    requires ValidEntry(entry)
  {
    && d.name == (if HasText(entry, "name") then Strip(entry["name"].s) else Join(path, " "))
    && d.description == Strip(entry["description"].s) && d.category == Strip(entry["category"].s)
    && TextsOf(d.permissions, ListOf(entry, "permissions"))
    && TextsOf(d.examples, ListOf(entry, "examples")) && TextsOf(d.tags, ListOf(entry, "tags"))
    && DescribesParameters(ListOf(entry, "parameters"), d.parameters)
  }

  lemma {:induction false} StringsAreTexts(items: seq<Json>)
    ensures TextsOf(Strings(items), items)
  {
    if items != [] {
      var front, last := items[..|items| - 1], items[|items| - 1];
      StringsAreTexts(front);
      ChosenSnoc(front, IsText, TextIn, Strings(front), last);
      StringsSnoc(front, last);
      assert Strings(front) + [] == Strings(front);
      assert items == front + [last];
    }
  }

  lemma StrListExactly(entry: map<string, Json>, field: string)
    ensures StrList(Get(entry, field)).Some? <==> HasListOrNone(entry, field)
    ensures StrList(Get(entry, field)).Some? ==> TextsOf(StrList(Get(entry, field)).value, ListOf(entry, field))
  {
    StringsAreTexts(ListOf(entry, field));
    assert Strings([]) == [];
  }

  lemma TextExactly(entry: map<string, Json>, field: string)
    ensures RequireStr(entry, field).Some? <==> HasText(entry, field)
    ensures HasText(entry, field) ==> RequireStr(entry, field) == Some(Strip(entry[field].s))
  {
  }

  lemma ParameterExactly(p: Json)
    ensures ParameterOf(p).Some? <==> ValidParameter(p)
    ensures ValidParameter(p) ==> DescribesParameter(p, ParameterOf(p).value)
  {
    if p.JObj? {
      TextExactly(p.fields, "name");
      TextExactly(p.fields, "description");
      TextExactly(p.fields, "type");
    }
  }

  lemma ParametersExactly(entry: map<string, Json>)
    ensures
      var params, given := ListOf(entry, "parameters"), ValidParameters(Get(entry, "parameters"));
      && (given.Some? <==> HasListOrNone(entry, "parameters") && forall p :: p in params ==> ValidParameter(p))
      && (given.Some? ==> DescribesParameters(params, given.value))
  {
    var params := ListOf(entry, "parameters");
    forall i | 0 <= i < |params|
      ensures ParameterOf(params[i]).Some? <==> ValidParameter(params[i])
      ensures ValidParameter(params[i]) ==> DescribesParameter(params[i], ParameterOf(params[i]).value)
    {
      ParameterExactly(params[i]);
    }
  }

  /** An entry passes validation exactly when its raw fields are as they must be, and then the help is what they say. */
  lemma ValidateExactly(entry: map<string, Json>, path: seq<string>)
    ensures Validate(entry, path).Some? <==> ValidEntry(entry)
    ensures ValidEntry(entry) ==> Describes(entry, path, Validate(entry, path).value)
  {
    ParametersExactly(entry);
    StrListExactly(entry, "permissions");
    StrListExactly(entry, "examples");
    StrListExactly(entry, "tags");
    TextExactly(entry, "description");
    TextExactly(entry, "category");
  }

  /** Some raw entry is at every step of the path, an object with valid fields. */
  predicate ValidPath(file: Json, parts: seq<string>) {
    forall i :: 1 <= i <= |parts| ==>
      var raw := RawAt(file, parts[..i]);
      raw.Some? && raw.value.JObj? && ValidEntry(raw.value.fields)
  }

  lemma ValidAlongIsValidPath(file: Json, parts: seq<string>)
    ensures ValidAlong(file, [], parts) <==> ValidPath(file, parts)
  {
    forall i | 1 <= i <= |parts|
      ensures
        var raw := RawAt(file, parts[..i]);
        ValidData(file, [], parts[..i]).Some? <==> raw.Some? && raw.value.JObj? && ValidEntry(raw.value.fields)
    {
      var raw := RawAt(file, parts[..i]);
      if raw.Some? && raw.value.JObj? {
        ValidateExactly(raw.value.fields, [] + parts[..i]);
      }
    }
  }

  /**
    Looking up the space-joined name of a path finds a node exactly when every raw entry on
    the path is an object with valid fields, and the node says, field by field, what the last
    of them says.
   */
  lemma LookUpFindsTheValidPart(file: Json, parts: seq<string>)
    requires file.JObj? && parts != [] && forall p :: p in parts ==> p != "" && SpaceFree(p)
    ensures
      var r := LookUp(Load(Some(file)), Join(parts, " "));
      && !r.IndexFailure?
      && (r.Found? <==> ValidPath(file, parts))
      && (r.Found? ==> RawAt(file, parts).Some? && RawAt(file, parts).value.JObj?
                       && ValidEntry(RawAt(file, parts).value.fields)
                       && Describes(RawAt(file, parts).value.fields, parts, r.node.data))
  {
    LookUpFollowsValidation(file, parts);
    ValidAlongIsValidPath(file, parts);
    if ValidPath(file, parts) {
      assert parts[..|parts|] == parts && [] + parts == parts;
      ValidateExactly(RawAt(file, parts).value.fields, parts);
    }
  }

  /** The same in terms of the validation itself. */
  lemma LookUpFollowsValidation(file: Json, parts: seq<string>)
    requires file.JObj? && parts != [] && forall p :: p in parts ==> p != "" && SpaceFree(p)
    ensures
      var r := LookUp(Load(Some(file)), Join(parts, " "));
      && !r.IndexFailure?
      && (r.Found? <==> ValidAlong(file, [], parts))
      && (r.Found? ==> ValidData(file, [], parts) == Some(r.node.data))
  {
    WordsOfJoin(parts);
    assert Words("") == [];
    FollowBuilt(Load(Some(file)), file, [], parts);
    ValidDownIsAlong(file, [], parts);
    assert [] + parts == parts;
  }

  /** A missing, unreadable or non-object file gives an empty registry. */
  lemma NoObjectNoRegistry(file: Option<Json>)
    requires file.None? || !file.value.JObj?
    ensures Load(file) == map[]
  {
  }

  /** An empty name finds nothing; a name of white space only is an index error, whatever the registry. */
  lemma BlankNames(registry: Registry, name: string)
    requires Blank(name)
    ensures LookUp(registry, name) == if name == "" then Absent else IndexFailure
  {
    WordsSkipPad(name, "");
    assert name + "" == name && Words("") == [];
  }
}
