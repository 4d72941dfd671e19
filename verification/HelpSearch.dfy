/**
  Collecting a command tree (src/bot/commands/help_collector.py) and searching what was
  collected (src/bot/commands/help.py).  A Python dict is its items in insertion order.
*/
module HelpSearch {
  import opened Wrappers
  import opened Text
  import opened HelpRegistry

  /** CollectedHelpData without its subcommands; a field holds whatever the help dictionary held. */
  datatype Collected = Collected(name: string, description: Json, category: Json, parameters: Json,
                                 permissions: Json, examples: Json, tags: Json)

  datatype Entry = Entry(data: Collected, subcommands: seq<Item>)

  datatype Item = Item(key: string, entry: Entry)

  /** What get_help_data of the command's module does, if there is one: it raises, or returns any value. */
  datatype ModuleHelp = NoFunction | Raises | Returns(value: Json)

  datatype Command =
    | Leaf(name: string, description: string, help: ModuleHelp)
    | Group(name: string, description: string, help: ModuleHelp, commands: seq<Command>)

  // ---------------------------------------------------------------- help dictionaries

  function StrItems(items: seq<string>): Json {
    JList(seq(|items|, i requires 0 <= i < |items| => JStr(items[i])))
  }

  function ParameterDict(p: Parameter): Json {
    JObj(map["name" := JStr(p.name), "description" := JStr(p.description), "required" := JBool(p.required),
             "type" := JStr(p.kind)])
  }

  function ParameterDicts(ps: seq<Parameter>): Json {
    JList(seq(|ps|, i requires 0 <= i < |ps| => ParameterDict(ps[i])))
  }

  /** A HelpData, which is a dictionary like any other. */
  function HelpDict(d: HelpData): map<string, Json> {
    map["name" := JStr(d.name), "description" := JStr(d.description), "category" := JStr(d.category),
        "parameters" := ParameterDicts(d.parameters),
        "permissions" := StrItems(d.permissions), "examples" := StrItems(d.examples), "tags" := StrItems(d.tags)]
  }

  const HELP_FIELDS: set<string> :=
    {"name", "description", "category", "parameters", "permissions", "examples", "tags"}

  function GetOr(fields: map<string, Json>, field: string, default: Json): Json {
    if field in fields then fields[field] else default
  }

  /** CollectedHelpData.from_dict with a name */
  function FromDict(fields: map<string, Json>, name: string): (c: Collected)
    ensures c.name == name
  {
    Collected(name, GetOr(fields, "description", JStr("")), GetOr(fields, "category", JStr("general")),
              GetOr(fields, "parameters", JList([])), GetOr(fields, "permissions", JList([])),
              GetOr(fields, "examples", JList([])), GetOr(fields, "tags", JList([])))
  }

  /** dict(value); None is its exception. */
  function AsDict(value: Json): Option<map<string, Json>> {
    match value
    case JObj(fields) => Some(fields)
    case JStr(s) => if s == "" then Some(map[]) else None
    case JList(items) => if items == [] then Some(map[]) else None
    case _ => None
  }

  // ---------------------------------------------------------------- collecting

  function FullName(parent: string, name: string): string {
    if parent != "" then Strip(parent + " " + name) else name
  }

  /** What the module gives for the command: a dictionary is looked up, anything else stands for itself. */
  function Given(c: Command, full: string): Json {
    match c.help
    case Returns(JObj(fields)) => if Get(fields, c.name).Truthy() then fields[c.name] else Get(fields, full)
    case Returns(value) => value
    case _ => JNull
  }

  /** The command's own metadata. */
  function Metadata(c: Command): map<string, Json> {
    HelpDict(HelpData(c.name, if c.description != "" then c.description else "無描述", "general", [], [], [], []))
  }

  /** What the module gives, else the metadata. */
  function OwnDict(c: Command, full: string): Option<map<string, Json>> {
    if Given(c, full) == JNull then Some(Metadata(c)) else AsDict(Given(c, full))
  }

  /** The help dictionary, the registry first; None when looking it up or reading it raises. */
  function DictFor(c: Command, full: string, registry: Registry): Option<map<string, Json>> {
    match LookUp(registry, full)
    case Found(node) => Some(HelpDict(node.data))
    case Absent => OwnDict(c, full)
    case IndexFailure => None
  }

  /** Some command of the tree has no help to be read, which ends the collection with its exception. */
  predicate CollectRaises(c: Command, parent: string, registry: Registry)
    decreases c, 1
  {
    DictFor(c, FullName(parent, c.name), registry) == None
    || (c.Group? && AnyRaises(c.commands, FullName(parent, c.name), registry))
  }

  predicate AnyRaises(cs: seq<Command>, parent: string, registry: Registry)
    decreases cs, 0
  {
    exists i :: 0 <= i < |cs| && CollectRaises(cs[i], parent, registry)
  }

  /** What is collected of a command whose collection does not raise. */
  function DataFor(c: Command, full: string, registry: Registry): (data: Collected)
    ensures data.name == full
  {
    var dict := DictFor(c, full, registry);
    FromDict(if dict.Some? then dict.value else map[], full)
  }

  /** result[key] = entry */
  function Put(result: seq<Item>, item: Item): seq<Item> {
    if result == [] then [item]
    else if result[0].key == item.key then [item] + result[1..]
    else [result[0]] + Put(result[1..], item)
  }

  function Collect(c: Command, result: seq<Item>, parent: string, registry: Registry): seq<Item>
    decreases c, 1
  {
    var full := FullName(parent, c.name);
    var subs := if c.Group? then CollectAll(c.commands, [], full, registry) else [];
    Put(result, Item(full, Entry(DataFor(c, full, registry), subs)))
  }

  function CollectAll(cs: seq<Command>, result: seq<Item>, parent: string, registry: Registry): seq<Item>
    decreases cs, 0
  {
    if cs == [] then result
    else CollectAll(cs[1..], Collect(cs[0], result, parent, registry), parent, registry)
  }

  method CollectCommandHelp(c: Command, result: seq<Item>, parent: string, registry: Registry)
    returns (r: Option<seq<Item>>)
    ensures r == if CollectRaises(c, parent, registry) then None else Some(Collect(c, result, parent, registry))
    decreases c, 1
  {
    var full := FullName(parent, c.name);
    var dict := DictFor(c, full, registry);
    if dict.None? {
      return None;
    }
    var subs := [];
    if c.Group? {
      var collected := CollectHelpData(c.commands, full, registry);
      if collected.None? {
        return None;
      }
      subs := collected.value;
    }
    r := Some(Put(result, Item(full, Entry(FromDict(dict.value, full), subs))));
  }

  lemma CollectNext(cs: seq<Command>, i: nat, result: seq<Item>, parent: string, registry: Registry)
    requires i < |cs|
    ensures CollectAll(cs[i..], result, parent, registry) ==
            CollectAll(cs[i + 1..], Collect(cs[i], result, parent, registry), parent, registry)
  {
    assert cs[i..][1..] == cs[i + 1..];
  }

  /** None is the exception of the first command that has no help to be read. */
  method CollectHelpData(cs: seq<Command>, parent: string, registry: Registry) returns (r: Option<seq<Item>>)
    ensures r == if AnyRaises(cs, parent, registry) then None else Some(CollectAll(cs, [], parent, registry))
    decreases cs, 0
  {
    var result := [];
    var i := 0;
    while i < |cs|
      invariant 0 <= i <= |cs|
      invariant forall j :: 0 <= j < i ==> !CollectRaises(cs[j], parent, registry)
      invariant CollectAll(cs, [], parent, registry) == CollectAll(cs[i..], result, parent, registry)
    {
      CollectNext(cs, i, result, parent, registry);
      var collected := CollectCommandHelp(cs[i], result, parent, registry);
      if collected.None? {
        return None;
      }
      result := collected.value;
      i := i + 1;
    }
    r := Some(result);
  }

  /** Discord's rule for command names, and siblings that differ. */
  predicate WellNamed(c: Command)
    decreases c, 1
  {
    c.name != "" && SpaceFree(c.name) && (c.Group? ==> AllWellNamed(c.commands))
  }

  predicate AllWellNamed(cs: seq<Command>)
    decreases cs, 0
  {
    && (forall i :: 0 <= i < |cs| ==> WellNamed(cs[i]))
    && (forall i, j :: 0 <= i < j < |cs| ==> cs[i].name != cs[j].name)
  }

  function PathName(parent: string, name: string): string {
    if parent != "" then parent + " " + name else name
  }

  /**
    The item mirrors the command: keyed and named by its full path, showing the help that the
    sources have for it, one item per subcommand, in order.
   */
  predicate Mirrors(item: Item, c: Command, parent: string, registry: Registry)
    decreases c, 1
  {
    && item.key == PathName(parent, c.name)
    && item.entry.data == DataFor(c, item.key, registry)
    && (if c.Group? then AllMirror(item.entry.subcommands, c.commands, item.key, registry)
        else item.entry.subcommands == [])
  }

  predicate AllMirror(items: seq<Item>, cs: seq<Command>, parent: string, registry: Registry)
    decreases cs, 0
  {
    |items| == |cs| && forall i :: 0 <= i < |cs| ==> Mirrors(items[i], cs[i], parent, registry)
  }

  lemma {:induction false} PutNew(result: seq<Item>, item: Item)
    requires forall i :: 0 <= i < |result| ==> result[i].key != item.key
    ensures Put(result, item) == result + [item]
  {
    if result != [] {
      PutNew(result[1..], item);
    }
  }

  lemma FullNameIsPath(parent: string, name: string)
    requires name != "" && SpaceFree(name) && Trimmed(parent)
    ensures FullName(parent, name) == PathName(parent, name) && Trimmed(PathName(parent, name))
  {
    if parent != "" {
      var full := parent + " " + name;
      StripOfPadded("", full, "");
      assert "" + full + "" == full;
    }
  }

  lemma PathNameInjective(parent: string, a: string, b: string)
    requires PathName(parent, a) == PathName(parent, b)
    ensures a == b
  {
    if parent != "" {
      assert (parent + " " + a)[|parent| + 1..] == a;
      assert (parent + " " + b)[|parent| + 1..] == b;
    }
  }

  /** The items of the earlier siblings have other keys. */
  lemma KeysDiffer(all: seq<Command>, n: nat, result: seq<Item>, parent: string, registry: Registry)
    requires AllWellNamed(all) && n < |all| && AllMirror(result, all[..n], parent, registry)
    ensures forall i :: 0 <= i < |result| ==> result[i].key != PathName(parent, all[n].name)
  {
    forall i | 0 <= i < |result|
      ensures result[i].key != PathName(parent, all[n].name)
    {
      assert Mirrors(result[i], all[..n][i], parent, registry);
      if result[i].key == PathName(parent, all[n].name) {
        PathNameInjective(parent, all[i].name, all[n].name);
      }
    }
  }

  lemma {:induction false} CollectMirrors(c: Command, result: seq<Item>, parent: string, registry: Registry)
    requires WellNamed(c) && Trimmed(parent)
    requires forall i :: 0 <= i < |result| ==> result[i].key != PathName(parent, c.name)
    ensures |Collect(c, result, parent, registry)| == |result| + 1
    ensures Collect(c, result, parent, registry)[..|result|] == result
    ensures Mirrors(Collect(c, result, parent, registry)[|result|], c, parent, registry)
    decreases c, 1
  {
    var full := FullName(parent, c.name);
    FullNameIsPath(parent, c.name);
    var subs := if c.Group? then CollectAll(c.commands, [], full, registry) else [];
    PutNew(result, Item(full, Entry(DataFor(c, full, registry), subs)));
    if c.Group? {
      CollectAllMirror(c.commands, c.commands, 0, [], full, registry);
    }
  }

  lemma {:induction false} CollectAllMirror(all: seq<Command>, cs: seq<Command>, n: nat, result: seq<Item>,
                                            parent: string, registry: Registry)
    requires AllWellNamed(all) && Trimmed(parent) && n <= |all| && cs == all[n..]
    requires AllMirror(result, all[..n], parent, registry)
    ensures AllMirror(CollectAll(cs, result, parent, registry), all, parent, registry)
    decreases cs, 0
  {
    if cs == [] {
      assert all[..n] == all;
    } else {
      assert cs[0] == all[n];
      KeysDiffer(all, n, result, parent, registry);
      CollectMirrors(cs[0], result, parent, registry);
      var result' := Collect(cs[0], result, parent, registry);
      assert all[..n + 1] == all[..n] + [cs[0]];
      forall i | 0 <= i < n + 1
        ensures Mirrors(result'[i], all[..n + 1][i], parent, registry)
      {
        if i < n {
          assert result'[i] == result[i] && all[..n + 1][i] == all[..n][i];
        }
      }
      CollectAllMirror(all, cs[1..], n + 1, result', parent, registry);
    }
  }

  /** Collecting keeps the shape of every command tree, whatever the sources of help say. */
  lemma CollectingKeepsTheShape(cs: seq<Command>, registry: Registry)
    requires AllWellNamed(cs)
    ensures AllMirror(CollectAll(cs, [], "", registry), cs, "", registry)
  {
    assert AllMirror([], cs[..0], "", registry);
    CollectAllMirror(cs, cs[0..], 0, [], "", registry);
    assert cs[0..] == cs;
  }

  lemma {:induction false} JoinSnoc(parts: seq<string>, name: string)
    requires parts != []
    ensures Join(parts + [name], " ") == Join(parts, " ") + " " + name
  {
    if |parts| == 1 {
      assert (parts + [name])[1..] == [name];
    } else {
      assert (parts + [name])[1..] == parts[1..] + [name];
      JoinSnoc(parts[1..], name);
    }
  }

  lemma PathIsJoin(parts: seq<string>, name: string)
    requires forall p :: p in parts ==> p != ""
    ensures PathName(Join(parts, " "), name) == Join(parts + [name], " ")
  {
    if parts != [] {
      JoinSnoc(parts, name);
      assert parts[0] in parts;
    }
  }

  // ---------------------------------------------------------------- paths of a tree

  /** The indices lead from the top of the tree to a command. */
  predicate OnTree(cs: seq<Command>, path: seq<nat>)
    decreases |path|
  {
    && path != [] && path[0] < |cs|
    && (|path| > 1 ==> cs[path[0]].Group? && OnTree(cs[path[0]].commands, path[1..]))
  }

  function CommandAt(cs: seq<Command>, path: seq<nat>): Command
    requires OnTree(cs, path)
    decreases |path|
  {
    if |path| == 1 then cs[path[0]] else CommandAt(cs[path[0]].commands, path[1..])
  }

  /** The names on the way down. */
  function NamesAt(cs: seq<Command>, path: seq<nat>): (names: seq<string>)
    requires OnTree(cs, path)
    ensures |names| == |path|
    decreases |path|
  {
    [cs[path[0]].name] + if |path| == 1 then [] else NamesAt(cs[path[0]].commands, path[1..])
  }

  function EntryAt(items: seq<Item>, path: seq<nat>): Option<Entry>
    decreases |path|
  {
    if path == [] || path[0] >= |items| then None
    else if |path| == 1 then Some(items[path[0]].entry)
    else EntryAt(items[path[0]].entry.subcommands, path[1..])
  }

  /** The validated fields of the file's entry at the path, if every raw entry on the path is valid. */
  function FileData(file: Json, names: seq<string>): Option<HelpData>
    requires names != []
  {
    if ValidAlong(file, [], names) then ValidData(file, [], names) else None
  }

  lemma ChildMirror(items: seq<Item>, cs: seq<Command>, above: seq<string>, i: nat, registry: Registry)
    requires AllMirror(items, cs, Join(above, " "), registry) && i < |cs|
    requires forall w :: w in above ==> w != ""
    ensures i < |items|
    ensures
      var key := Join(above + [cs[i].name], " ");
      && items[i].key == key && items[i].entry.data == DataFor(cs[i], key, registry)
      && (if cs[i].Group? then AllMirror(items[i].entry.subcommands, cs[i].commands, key, registry)
          else items[i].entry.subcommands == [])
  {
    assert Mirrors(items[i], cs[i], Join(above, " "), registry);
    PathIsJoin(above, cs[i].name);
  }

  lemma {:induction false} NamesAreWords(cs: seq<Command>, path: seq<nat>)
    requires AllWellNamed(cs) && OnTree(cs, path)
    ensures forall w :: w in NamesAt(cs, path) ==> w != "" && SpaceFree(w)
    decreases |path|
  {
    assert WellNamed(cs[path[0]]);
    if |path| > 1 {
      NamesAreWords(cs[path[0]].commands, path[1..]);
    }
  }

  /** The entry shows, under the joined name, what the sources have for the command. */
  predicate ShowsHelp(entry: Option<Entry>, c: Command, names: seq<string>, registry: Registry) {
    var key := Join(names, " ");
    entry != None && entry.value.data == DataFor(c, key, registry)
  }

  lemma NamesBelow(cs: seq<Command>, above: seq<string>, path: seq<nat>)
    requires OnTree(cs, path)
    ensures
      var c := cs[path[0]];
      above + NamesAt(cs, path) ==
        if |path| == 1 then above + [c.name] else above + [c.name] + NamesAt(c.commands, path[1..])
  {
  }

  lemma NotBlank(above: seq<string>, c: Command)
    requires WellNamed(c) && forall w :: w in above ==> w != ""
    ensures forall w :: w in above + [c.name] ==> w != ""
  {
  }

  /** The entry mirrored at a path shows what the sources have for the path's command. */
  lemma {:induction false} MirroredEntry(items: seq<Item>, cs: seq<Command>, above: seq<string>, path: seq<nat>,
                                         registry: Registry)
    requires AllMirror(items, cs, Join(above, " "), registry) && AllWellNamed(cs) && OnTree(cs, path)
    requires forall w :: w in above ==> w != ""
    ensures ShowsHelp(EntryAt(items, path), CommandAt(cs, path), above + NamesAt(cs, path), registry)
    decreases |path|
  {
    var i, c := path[0], cs[path[0]];
    ChildMirror(items, cs, above, i, registry);
    NamesBelow(cs, above, path);
    assert WellNamed(c);
    if |path| > 1 {
      NotBlank(above, c);
      MirroredEntry(items[i].entry.subcommands, c.commands, above + [c.name], path[1..], registry);
    }
  }

  /**
    At every path of every command tree the collected entry shows the validated fields of the
    file's entry at that path if every raw entry on the path is valid, and otherwise the
    command's own help, under the full name.
   */
  lemma EntryComesFromTheFile(cs: seq<Command>, path: seq<nat>, file: Json)
    requires AllWellNamed(cs) && OnTree(cs, path) && file.JObj?
    requires !AnyRaises(cs, "", Load(Some(file)))
    ensures
      var names := NamesAt(cs, path);
      var entry := EntryAt(CollectAll(cs, [], "", Load(Some(file))), path);
      var key, data := Join(names, " "), FileData(file, names);
      entry != None && (data.None? ==> OwnDict(CommandAt(cs, path), key) != None)
      && var dict := if data.Some? then HelpDict(data.value) else OwnDict(CommandAt(cs, path), key).value;
         entry.value.data == FromDict(dict, key)
  {
    var registry, names := Load(Some(file)), NamesAt(cs, path);
    CollectingKeepsTheShape(cs, registry);
    MirroredEntry(CollectAll(cs, [], "", registry), cs, [], path, registry);
    assert [] + names == names;
    NamesAreWords(cs, path);
    LookUpFollowsValidation(file, names);
    NoneRaisesAt(cs, [], path, registry);
  }

  lemma {:induction false} NoneRaisesAt(cs: seq<Command>, above: seq<string>, path: seq<nat>, registry: Registry)
    requires AllWellNamed(cs) && OnTree(cs, path) && !AnyRaises(cs, Join(above, " "), registry)
    requires forall w :: w in above ==> w != "" && SpaceFree(w)
    ensures DictFor(CommandAt(cs, path), Join(above + NamesAt(cs, path), " "), registry) != None
    decreases |path|
  {
    var c := cs[path[0]];
    assert WellNamed(c) && !CollectRaises(c, Join(above, " "), registry);
    JoinedIsTrimmed(above);
    FullNameIsPath(Join(above, " "), c.name);
    PathIsJoin(above, c.name);
    NamesBelow(cs, above, path);
    if |path| > 1 {
      NotBlank(above, c);
      NoneRaisesAt(c.commands, above + [c.name], path[1..], registry);
    }
  }

  lemma {:induction false} JoinedIsTrimmed(parts: seq<string>)
    requires forall p :: p in parts ==> p != "" && SpaceFree(p)
    ensures Trimmed(Join(parts, " "))
  {
    if parts != [] {
      var front, name := parts[..|parts| - 1], parts[|parts| - 1];
      assert parts == front + [name] && name in parts && forall p :: p in front ==> p in parts;
      JoinedIsTrimmed(front);
      PathIsJoin(front, name);
      FullNameIsPath(Join(front, " "), name);
    }
  }

  /** The fields of the validated help, as the dictionary values they become. */
  predicate ShowsFields(data: Collected, d: HelpData) {
    && data.description == JStr(d.description) && data.category == JStr(d.category)
    && ShowsTexts(data.permissions, d.permissions) && ShowsTexts(data.examples, d.examples)
    && ShowsTexts(data.tags, d.tags)
    && data.parameters.JList? && |data.parameters.items| == |d.parameters|
    && forall i :: 0 <= i < |d.parameters| ==>
         data.parameters.items[i] == JObj(map["name" := JStr(d.parameters[i].name),
                                              "description" := JStr(d.parameters[i].description),
                                              "type" := JStr(d.parameters[i].kind),
                                              "required" := JBool(d.parameters[i].required)])
  }

  predicate ShowsTexts(v: Json, texts: seq<string>) {
    v.JList? && |v.items| == |texts| && forall i :: 0 <= i < |texts| ==> v.items[i] == JStr(texts[i])
  }

  lemma ValidatedFieldsAreShown(d: HelpData, name: string)
    ensures ShowsFields(FromDict(HelpDict(d), name), d)
  {
    var shown := FromDict(HelpDict(d), name);
    forall i | 0 <= i < |d.parameters|
      ensures shown.parameters.items[i] == JObj(map["name" := JStr(d.parameters[i].name),
                                                    "description" := JStr(d.parameters[i].description),
                                                    "type" := JStr(d.parameters[i].kind),
                                                    "required" := JBool(d.parameters[i].required)])
    {
      var p := d.parameters[i];
      assert map["name" := JStr(p.name), "description" := JStr(p.description), "required" := JBool(p.required),
                 "type" := JStr(p.kind)]
          == map["name" := JStr(p.name), "description" := JStr(p.description), "type" := JStr(p.kind),
                 "required" := JBool(p.required)];
    }
  }

  /** From the raw file to what is collected: at a path of valid entries each field is shown under its own name. */
  lemma FileFieldsAreShown(cs: seq<Command>, path: seq<nat>, file: Json) returns (d: HelpData)
    requires AllWellNamed(cs) && OnTree(cs, path) && file.JObj? && !AnyRaises(cs, "", Load(Some(file)))
    requires ValidPath(file, NamesAt(cs, path))
    ensures
      var names := NamesAt(cs, path);
      var raw, entry := RawAt(file, names), EntryAt(CollectAll(cs, [], "", Load(Some(file))), path);
      && raw.Some? && raw.value.JObj? && ValidEntry(raw.value.fields) && Describes(raw.value.fields, names, d)
      && entry.Some? && entry.value.data.name == Join(names, " ") && ShowsFields(entry.value.data, d)
  {
    var names := NamesAt(cs, path);
    EntryComesFromTheFile(cs, path, file);
    ValidAlongIsValidPath(file, names);
    assert names[..|names|] == names && [] + names == names;
    d := FileData(file, names).value;
    ValidateExactly(RawAt(file, names).value.fields, names);
    ValidatedFieldsAreShown(d, Join(names, " "));
  }

  /** Without help from file and module: the command's description or a stand-in, the general category, empty lists. */
  lemma MetadataIsShown(c: Command, name: string)
    ensures FromDict(Metadata(c), name) ==
            Collected(name, JStr(if c.description == "" then "無描述" else c.description), JStr("general"),
                      JList([]), JList([]), JList([]), JList([]))
  {
    assert StrItems([]) == JList([]) && ParameterDicts([]) == JList([]);
  }

  /** An empty help dictionary shows an empty description, the general category, and empty lists. */
  lemma MissingFieldsDefault(name: string)
    ensures FromDict(map[], name) ==
            Collected(name, JStr(""), JStr("general"), JList([]), JList([]), JList([]), JList([]))
  {
  }

  /** A module without the function, one that raises, and one that returns None leave the metadata. */
  lemma SilentModules(c: Command, full: string)
    requires c.help.NoFunction? || c.help.Raises? || c.help == Returns(JNull)
    ensures OwnDict(c, full) == Some(Metadata(c))
  {
  }

  /** Anything else that is no dictionary ends the collection, unless it is an empty string or list. */
  lemma UnreadableHelpRaises(c: Command, full: string, value: Json)
    requires c.help == Returns(value) && !value.JObj? && !value.JNull?
    ensures OwnDict(c, full) == if value == JStr("") || value == JList([]) then Some(map[]) else None
  {
  }

  /**
    Where the file has no valid entry, a dictionary returned by the module is shown exactly when
    it holds something true under the command's own name, or anything at all under its full
    name; otherwise the metadata is.
   */
  lemma ModuleHelpIsShownExactly(cs: seq<Command>, path: seq<nat>, file: Json, fields: map<string, Json>)
    requires AllWellNamed(cs) && OnTree(cs, path) && file.JObj? && !AnyRaises(cs, "", Load(Some(file)))
    requires FileData(file, NamesAt(cs, path)) == None && CommandAt(cs, path).help == Returns(JObj(fields))
    ensures
      var c, key := CommandAt(cs, path), Join(NamesAt(cs, path), " ");
      var entry := EntryAt(CollectAll(cs, [], "", Load(Some(file))), path);
      var own := c.name in fields && fields[c.name].Truthy();
      var shown := own || (key in fields && fields[key] != JNull);
      entry != None
      && (shown ==> AsDict(fields[if own then c.name else key]) != None
                    && entry.value.data == FromDict(AsDict(fields[if own then c.name else key]).value, key))
      && (!shown ==> entry.value.data == FromDict(Metadata(c), key))
  {
    EntryComesFromTheFile(cs, path, file);
    OwnOfReturned(CommandAt(cs, path), Join(NamesAt(cs, path), " "), fields);
  }

  lemma OwnOfReturned(c: Command, full: string, fields: map<string, Json>)
    requires c.help == Returns(JObj(fields))
    ensures
      var own := c.name in fields && fields[c.name].Truthy();
      OwnDict(c, full) ==
        if own then AsDict(fields[c.name])
        else if full in fields && fields[full] != JNull then AsDict(fields[full]) else Some(Metadata(c))
  {
  }

  /** A module that returns one HelpData is not heard: the dictionary is searched for the command instead of shown. */
  lemma SingleHelpIsIgnored(cs: seq<Command>, path: seq<nat>, file: Json, help: HelpData)
    requires AllWellNamed(cs) && OnTree(cs, path) && file.JObj? && !AnyRaises(cs, "", Load(Some(file)))
    requires FileData(file, NamesAt(cs, path)) == None && CommandAt(cs, path).help == Returns(JObj(HelpDict(help)))
    requires CommandAt(cs, path).name !in HELP_FIELDS
    ensures
      var entry := EntryAt(CollectAll(cs, [], "", Load(Some(file))), path);
      entry != None
      && entry.value.data == FromDict(Metadata(CommandAt(cs, path)), Join(NamesAt(cs, path), " "))
  {
    ModuleHelpIsShownExactly(cs, path, file, HelpDict(help));
    assert HelpDict(help).Keys == HELP_FIELDS;
    FullNameIsNoField(cs, path);
  }

  /** The full name of a command is its own name, or has a space in it. */
  lemma FullNameIsNoField(cs: seq<Command>, path: seq<nat>)
    requires AllWellNamed(cs) && OnTree(cs, path) && CommandAt(cs, path).name !in HELP_FIELDS
    ensures Join(NamesAt(cs, path), " ") !in HELP_FIELDS
  {
    var names := NamesAt(cs, path);
    if |path| > 1 {
      var key := Join(names, " ");
      assert key == names[0] + " " + Join(names[1..], " ");
      assert key[|names[0]|] == ' ';
      assert forall f :: f in HELP_FIELDS ==> ' ' !in f;
    }
  }

  /** The transfer command's module returns one HelpData: with no entry in the file its help is the metadata. */
  lemma TransferHelpIsIgnored(help: HelpData, description: string)
    ensures
      var cs := [Leaf("transfer", description, Returns(JObj(HelpDict(help))))];
      var entry := EntryAt(CollectAll(cs, [], "", Load(Some(JObj(map[])))), [0]);
      !AnyRaises(cs, "", Load(Some(JObj(map[])))) && entry != None
      && entry.value.data == FromDict(Metadata(cs[0]), "transfer")
  {
    var c := Leaf("transfer", description, Returns(JObj(HelpDict(help))));
    assert "transfer" !in HELP_FIELDS && SpaceFree("transfer");
    LoneHelpIsIgnored(c, help);
  }

  lemma LoneHelpIsIgnored(c: Command, help: HelpData)
    requires c.Leaf? && WellNamed(c) && c.name !in HELP_FIELDS && c.help == Returns(JObj(HelpDict(help)))
    ensures
      var entry := EntryAt(CollectAll([c], [], "", Load(Some(JObj(map[])))), [0]);
      !AnyRaises([c], "", Load(Some(JObj(map[])))) && entry != None
      && entry.value.data == FromDict(Metadata(c), c.name)
  {
    var cs, file := [c], JObj(map[]);
    assert NamesAt(cs, [0]) == [c.name] && Join([c.name], " ") == c.name;
    assert RawAt(file, [c.name]) == None && [c.name][..1] == [c.name];
    assert Load(Some(file)) == map[];
    assert LookUp(map[], c.name) == Absent by {
      WordsOfJoin([c.name]);
    }
    assert HelpDict(help).Keys == HELP_FIELDS;
    OwnOfReturned(c, c.name, HelpDict(help));
    SingleHelpIsIgnored(cs, [0], file, help);
  }

  // ---------------------------------------------------------------- searching

  /** IndexFailure is `cmd_parts[0]` on a blank key. */
  datatype Outcome = Match(entry: Entry) | Miss | IndexFailure

  function ExactMatch(item: Item, search: string): Outcome {
    if Lower(item.key) == search then Match(item.entry) else Miss
  }

  /** Full name, last word of a longer name, or first word of a longer search. */
  function PartialMatch(item: Item, search: string): Outcome {
    var parts, wanted := Words(Lower(item.key)), Words(search);
    if Join(parts, " ") == search then Match(item.entry)
    else if |parts| > 1 && parts[|parts| - 1] == search then Match(item.entry)
    else if |wanted| > 1 then
      if parts == [] then Outcome.IndexFailure
      else if parts[0] == wanted[0] then Match(item.entry) else Miss
    else Miss
  }

  /** _find_command: the exact pass, which searches each entry's subcommands on the way, then the partial pass. */
  function Find(items: seq<Item>, search: string): Outcome
    decreases items, 1
  {
    var found := FindExact(items, search);
    if found != Miss then found else FindPartial(items, search)
  }

  function FindExact(items: seq<Item>, search: string): Outcome
    decreases items, 0
  {
    if items == [] then Miss
    else if ExactMatch(items[0], search) != Miss then ExactMatch(items[0], search)
    else
      var below := if items[0].entry.subcommands != [] then Find(items[0].entry.subcommands, search) else Miss;
      if below != Miss then below else FindExact(items[1..], search)
  }

  function FindPartial(items: seq<Item>, search: string): Outcome {
    if items == [] then Miss
    else if PartialMatch(items[0], search) != Miss then PartialMatch(items[0], search)
    else FindPartial(items[1..], search)
  }

  // ---------------------------------------------------------------- the search is one scan

  /** One test of one entry. */
  datatype Probe = Exact(item: Item) | Partial(item: Item) {
    function Try(search: string): Outcome {
      if Exact? then ExactMatch(item, search) else PartialMatch(item, search)
    }
  }

  function PartialProbes(items: seq<Item>): seq<Probe> {
    seq(|items|, i requires 0 <= i < |items| => Partial(items[i]))
  }

  /**
    The order of the tests: an entry's exact test, then all tests of its subcommands, level by level
    closed by partial tests.
   */
  function Probes(items: seq<Item>): seq<Probe>
    decreases items, 1
  {
    ExactProbes(items) + PartialProbes(items)
  }

  function ExactProbes(items: seq<Item>): seq<Probe>
    decreases items, 0
  {
    if items == [] then []
    else [Exact(items[0])] + Probes(items[0].entry.subcommands) + ExactProbes(items[1..])
  }

  /** The first test that does not miss. */
  function FirstHit(probes: seq<Probe>, search: string): Outcome {
    if probes == [] then Miss
    else if probes[0].Try(search) != Miss then probes[0].Try(search)
    else FirstHit(probes[1..], search)
  }

  lemma {:induction false} FirstHitConcat(a: seq<Probe>, b: seq<Probe>, search: string)
    ensures FirstHit(a + b, search) == if FirstHit(a, search) != Miss then FirstHit(a, search) else FirstHit(b, search)
  {
    if a == [] {
      assert a + b == b;
    } else {
      assert (a + b)[1..] == a[1..] + b;
      FirstHitConcat(a[1..], b, search);
    }
  }

  lemma {:induction false} PartialIsScan(items: seq<Item>, search: string)
    ensures FindPartial(items, search) == FirstHit(PartialProbes(items), search)
  {
    if items != [] {
      assert PartialProbes(items)[1..] == PartialProbes(items[1..]);
      PartialIsScan(items[1..], search);
    }
  }

  /** The nested recursive search takes the first hit of one flat list of tests. */
  lemma {:induction false} FindIsScan(items: seq<Item>, search: string)
    ensures Find(items, search) == FirstHit(Probes(items), search)
    decreases items, 1
  {
    ExactIsScan(items, search);
    PartialIsScan(items, search);
    FirstHitConcat(ExactProbes(items), PartialProbes(items), search);
  }

  lemma {:induction false} ExactIsScan(items: seq<Item>, search: string)
    ensures FindExact(items, search) == FirstHit(ExactProbes(items), search)
    decreases items, 0
  {
    if items != [] {
      var subs, rest := items[0].entry.subcommands, items[1..];
      FindIsScan(subs, search);
      ExactIsScan(rest, search);
      FirstHitConcat([Exact(items[0])] + Probes(subs), ExactProbes(rest), search);
      FirstHitConcat([Exact(items[0])], Probes(subs), search);
      assert [Exact(items[0])][1..] == [];
    }
  }

  lemma {:induction false} FirstHitWhere(probes: seq<Probe>, search: string) returns (i: nat)
    ensures i <= |probes| && forall j :: 0 <= j < i ==> probes[j].Try(search) == Miss
    ensures i == |probes| ==> FirstHit(probes, search) == Miss
    ensures i < |probes| ==> FirstHit(probes, search) == probes[i].Try(search) != Miss
  {
    if probes == [] || probes[0].Try(search) != Miss {
      i := 0;
    } else {
      i := FirstHitWhere(probes[1..], search);
      i := i + 1;
    }
  }

  // ---------------------------------------------------------------- what a search finds

  /** The items at any depth. */
  function AllItems(items: seq<Item>): seq<Item>
    decreases items
  {
    if items == [] then []
    else [items[0]] + AllItems(items[0].entry.subcommands) + AllItems(items[1..])
  }

  predicate Matches(item: Item, search: string) {
    var parts, wanted := Words(Lower(item.key)), Words(search);
    || Lower(item.key) == search
    || Join(parts, " ") == search
    || (|parts| > 1 && parts[|parts| - 1] == search)
    || (|wanted| > 1 && parts != [] && parts[0] == wanted[0])
  }

  lemma {:induction false} ProbesCover(items: seq<Item>, item: Item)
    ensures item in AllItems(items) <==> Exact(item) in Probes(items)
    ensures item in AllItems(items) <==> Partial(item) in Probes(items)
    decreases items, 1
  {
    ExactProbesCover(items, item);
    assert Partial(item) in PartialProbes(items) <==> item in items by {
      if item in items {
        var i :| 0 <= i < |items| && items[i] == item;
        assert PartialProbes(items)[i] == Partial(item);
      }
    }
  }

  lemma {:induction false} ExactProbesCover(items: seq<Item>, item: Item)
    ensures item in AllItems(items) <==> Exact(item) in ExactProbes(items)
    ensures item in AllItems(items) <==> Partial(item) in ExactProbes(items) || item in items
    decreases items, 0
  {
    if items != [] {
      ProbesCover(items[0].entry.subcommands, item);
      ExactProbesCover(items[1..], item);
    }
  }

  /** A blank key that no exact match comes before makes a search of more words an index error. */
  lemma BlankKeyFails(item: Item, search: string)
    requires Words(Lower(item.key)) == [] && item.entry.subcommands == [] && |Words(search)| > 1 &&
            Lower(item.key) != search
    ensures Find([item], search) == Outcome.IndexFailure
  {
    assert [item][1..] == [];
    assert Join([], " ") != search by {
      assert Words("") == [];
    }
    assert PartialMatch(item, search) == Outcome.IndexFailure;
    assert FindExact([], search) == Miss && FindExact([item], search) == Miss;
  }

  /**
    With no blank key a search fails exactly when no item at any depth matches, and otherwise
    it returns the entry of an item that does.
   */
  lemma FindFailsExactlyWithoutMatch(items: seq<Item>, search: string)
    requires forall item :: item in AllItems(items) ==> Words(Lower(item.key)) != []
    ensures Find(items, search) == Miss <==> forall item :: item in AllItems(items) ==> !Matches(item, search)
    ensures Find(items, search) != Miss ==>
              Find(items, search).Match? && exists item :: item in AllItems(items) && Matches(item, search)
                                                           && item.entry == Find(items, search).entry
  {
    FindIsScan(items, search);
    var i := FirstHitWhere(Probes(items), search);
    if i < |Probes(items)| {
      ProbesCover(items, Probes(items)[i].item);
      assert Probes(items)[i] in Probes(items);
      assert Matches(Probes(items)[i].item, search);
    } else {
      forall item | item in AllItems(items)
        ensures !Matches(item, search)
      {
        ProbesCover(items, item);
      }
    }
  }

  // ---------------------------------------------------------------- words and tests

  predicate LowerCase(s: string) { Lower(s) == s }

  predicate Word(s: string) { s != "" && SpaceFree(s) && LowerCase(s) }

  predicate Wordy(ws: seq<string>) {
    forall w :: w in ws ==> Word(w)
  }

  lemma {:induction false} JoinIsLower(ws: seq<string>)
    requires Wordy(ws)
    ensures LowerCase(Join(ws, " "))
  {
    if |ws| == 1 {
      assert ws[0] in ws;
    } else if ws != [] {
      assert ws[0] in ws;
      JoinIsLower(ws[1..]);
      LowerConcat(ws[0], " ");
      LowerConcat(ws[0] + " ", Join(ws[1..], " "));
    }
  }

  lemma LowerConcat(a: string, b: string)
    ensures Lower(a + b) == Lower(a) + Lower(b)
  {
  }

  lemma KeyFacts(ws: seq<string>)
    requires Wordy(ws)
    ensures Lower(Join(ws, " ")) == Join(ws, " ") && Words(Join(ws, " ")) == ws
  {
    JoinIsLower(ws);
    WordsOfJoin(ws);
  }

  /** The match rules on words: the same name, the last word, or the first word of a longer search. */
  predicate Hits(q: seq<string>, w: seq<string>)
    requires q != [] && w != []
  {
    q == w || (|q| > 1 && w == [q[|q| - 1]]) || (|w| > 1 && q[0] == w[0])
  }

  lemma ItemTests(item: Item, q: seq<string>, w: seq<string>)
    requires Wordy(q) && Wordy(w) && q != [] && w != [] && item.key == Join(q, " ")
    ensures ExactMatch(item, Join(w, " ")) == if q == w then Match(item.entry) else Miss
    ensures PartialMatch(item, Join(w, " ")) == if Hits(q, w) then Match(item.entry) else Miss
    ensures Matches(item, Join(w, " ")) <==> Hits(q, w)
    ensures Words(Lower(item.key)) == q
  {
    KeyFacts(q);
    KeyFacts(w);
    var last := q[|q| - 1];
    assert Join([last], " ") == last;
    KeyFacts([last]);
  }

  // ---------------------------------------------------------------- slash command trees

  predicate LowerNames(cs: seq<Command>)
    decreases cs
  {
    forall i :: 0 <= i < |cs| ==> LowerCase(cs[i].name) && (cs[i].Group? ==> LowerNames(cs[i].commands))
  }

  /** Discord's rules for slash commands: lower-case words, distinct among siblings. */
  predicate SlashTree(cs: seq<Command>) {
    AllWellNamed(cs) && LowerNames(cs)
  }

  /** Items mirroring the commands below the given words. */
  predicate TreeBelow(items: seq<Item>, cs: seq<Command>, ws: seq<string>, registry: Registry) {
    SlashTree(cs) && Wordy(ws) && AllMirror(items, cs, Join(ws, " "), registry)
  }

  lemma ChildTree(items: seq<Item>, cs: seq<Command>, ws: seq<string>, registry: Registry, i: nat)
    requires TreeBelow(items, cs, ws, registry) && i < |cs|
    ensures i < |items| && Wordy(ws + [cs[i].name])
    ensures items[i].key == items[i].entry.data.name == Join(ws + [cs[i].name], " ")
    ensures if cs[i].Group? then TreeBelow(items[i].entry.subcommands, cs[i].commands, ws + [cs[i].name], registry)
            else items[i].entry.subcommands == []
  {
    assert Mirrors(items[i], cs[i], Join(ws, " "), registry) && WellNamed(cs[i]);
    PathIsJoin(ws, cs[i].name);
  }

  /** Some command of the tree has the name. */
  predicate NamedIn(cs: seq<Command>, name: string)
    decreases cs
  {
    exists i :: 0 <= i < |cs| && (cs[i].name == name || (cs[i].Group? && NamedIn(cs[i].commands, name)))
  }

  lemma {:induction false} AllItemsUnfold(items: seq<Item>, item: Item)
    ensures item in AllItems(items) <==>
            exists i :: 0 <= i < |items| && (item == items[i] || item in AllItems(items[i].entry.subcommands))
  {
    if items != [] {
      AllItemsUnfold(items[1..], item);
      assert forall i :: 0 < i < |items| ==> items[i] == items[1..][i - 1];
    }
  }

  /** q is the path of an item somewhere below ws. */
  predicate PathBelow(q: seq<string>, ws: seq<string>) {
    |q| > |ws| && q[..|ws|] == ws && Wordy(q)
  }

  lemma PathFurtherDown(q: seq<string>, ws: seq<string>, name: string)
    requires PathBelow(q, ws + [name])
    ensures PathBelow(q, ws)
  {
    assert q[..|ws|] == q[..|ws| + 1][..|ws|];
  }

  lemma {:induction false} ItemHasPath(items: seq<Item>, cs: seq<Command>, ws: seq<string>, registry: Registry,
                                       item: Item) returns (q: seq<string>)
    requires TreeBelow(items, cs, ws, registry) && item in AllItems(items)
    ensures PathBelow(q, ws) && item.key == item.entry.data.name == Join(q, " ")
    ensures NamedIn(cs, q[|q| - 1])
    decreases cs
  {
    AllItemsUnfold(items, item);
    var i :| 0 <= i < |items| && (item == items[i] || item in AllItems(items[i].entry.subcommands));
    ChildTree(items, cs, ws, registry, i);
    q := ws + [cs[i].name];
    if item != items[i] {
      q := ItemHasPath(items[i].entry.subcommands, cs[i].commands, q, registry, item);
      PathFurtherDown(q, ws, cs[i].name);
    }
  }

  lemma {:induction false} NameHasItem(items: seq<Item>, cs: seq<Command>, ws: seq<string>, registry: Registry,
                                       name: string) returns (item: Item, q: seq<string>)
    requires TreeBelow(items, cs, ws, registry) && NamedIn(cs, name)
    ensures item in AllItems(items) && item.key == Join(q, " ")
    ensures PathBelow(q, ws) && q[|q| - 1] == name
    decreases cs
  {
    var i :| 0 <= i < |cs| && (cs[i].name == name || (cs[i].Group? && NamedIn(cs[i].commands, name)));
    ChildTree(items, cs, ws, registry, i);
    if cs[i].name == name {
      item, q := items[i], ws + [name];
    } else {
      item, q := NameHasItem(items[i].entry.subcommands, cs[i].commands, ws + [cs[i].name], registry, name);
      PathFurtherDown(q, ws, cs[i].name);
    }
    assert item == items[i] || item in AllItems(items[i].entry.subcommands);
    AllItemsUnfold(items, item);
  }

  /** Something below a group can match: a longer search starts with the group's first word, a word names a command. */
  predicate Attracts(cs: seq<Command>, ws: seq<string>, w: seq<string>)
    requires ws != [] && w != []
  {
    if |w| > 1 then cs != [] && ws[0] == w[0] else NamedIn(cs, w[0])
  }

  lemma SomeItemHits(items: seq<Item>, cs: seq<Command>, ws: seq<string>, registry: Registry, w: seq<string>)
    requires TreeBelow(items, cs, ws, registry) && Wordy(w) && ws != [] && w != [] && Attracts(cs, ws, w)
    ensures exists item :: item in AllItems(items) && Matches(item, Join(w, " "))
  {
    if |w| > 1 {
      ChildTree(items, cs, ws, registry, 0);
      ItemTests(items[0], ws + [cs[0].name], w);
      AllItemsUnfold(items, items[0]);
      assert items[0] in AllItems(items) && Matches(items[0], Join(w, " "));
    } else {
      var item, q := NameHasItem(items, cs, ws, registry, w[0]);
      assert w == [w[0]];
      ItemTests(item, q, w);
      assert item in AllItems(items) && Matches(item, Join(w, " "));
    }
  }

  lemma NoItemHits(items: seq<Item>, cs: seq<Command>, ws: seq<string>, registry: Registry, w: seq<string>, item: Item)
    requires TreeBelow(items, cs, ws, registry) && Wordy(w) && ws != [] && w != [] && !Attracts(cs, ws, w)
    requires item in AllItems(items)
    ensures !Matches(item, Join(w, " "))
  {
    var q := ItemHasPath(items, cs, ws, registry, item);
    ItemTests(item, q, w);
    assert q[0] == q[..|ws|][0] == ws[0];
    AllItemsUnfold(items, item);
  }

  /** A search below a group succeeds exactly when something there attracts it, with an entry from below that group. */
  lemma SearchBelow(items: seq<Item>, cs: seq<Command>, ws: seq<string>, registry: Registry, w: seq<string>)
    requires TreeBelow(items, cs, ws, registry) && Wordy(w) && ws != [] && w != []
    ensures Find(items, Join(w, " ")) != Miss <==> Attracts(cs, ws, w)
    ensures Find(items, Join(w, " ")) != Miss ==>
              Find(items, Join(w, " ")).Match?
              && exists q :: PathBelow(q, ws) && Find(items, Join(w, " ")).entry.data.name == Join(q, " ")
  {
    var search := Join(w, " ");
    forall item | item in AllItems(items)
      ensures Words(Lower(item.key)) != []
    {
      var q := ItemHasPath(items, cs, ws, registry, item);
      KeyFacts(q);
    }
    FindFailsExactlyWithoutMatch(items, search);
    if Attracts(cs, ws, w) {
      SomeItemHits(items, cs, ws, registry, w);
    } else {
      forall item | item in AllItems(items) { NoItemHits(items, cs, ws, registry, w, item); }
    }
    if Find(items, search) != Miss {
      var item :| item in AllItems(items) && item.entry == Find(items, search).entry;
      var q := ItemHasPath(items, cs, ws, registry, item);
    }
  }

  // ---------------------------------------------------------------- when an own name finds its entry

  /** What the exact pass does at one item. */
  function Stop(item: Item, search: string): Outcome {
    if ExactMatch(item, search) != Miss then ExactMatch(item, search)
    else if item.entry.subcommands != [] then Find(item.entry.subcommands, search) else Miss
  }

  /** The exact pass ends at the first item where it stops. */
  lemma {:induction false} StopWhere(items: seq<Item>, search: string) returns (k: nat)
    ensures k <= |items| && forall j :: 0 <= j < k ==> Stop(items[j], search) == Miss
    ensures FindExact(items, search) == if k < |items| then Stop(items[k], search) else Miss
    ensures k < |items| ==> Stop(items[k], search) != Miss
  {
    if items == [] || Stop(items[0], search) != Miss {
      k := 0;
    } else {
      k := StopWhere(items[1..], search);
      k := k + 1;
    }
  }

  predicate HoldsCommands(c: Command) {
    c.Group? && c.commands != []
  }

  /** The exact pass at a command that is not the one searched for. */
  lemma StopElsewhere(items: seq<Item>, cs: seq<Command>, ws: seq<string>, registry: Registry, j: nat,
                      w: seq<string>)
    requires TreeBelow(items, cs, ws, registry) && j < |cs| && Wordy(w) && w != [] && ws + [cs[j].name] != w
    ensures j < |items|
    ensures
      var q, stop := ws + [cs[j].name], Stop(items[j], Join(w, " "));
      && (stop != Miss <==> HoldsCommands(cs[j]) && Attracts(cs[j].commands, q, w))
      && (HoldsCommands(cs[j]) ==> stop == Find(items[j].entry.subcommands, Join(w, " ")))
      && (stop != Miss ==> stop.Match? && exists p :: PathBelow(p, q) && stop.entry.data.name == Join(p, " "))
  {
    var q := ws + [cs[j].name];
    ChildTree(items, cs, ws, registry, j);
    ItemTests(items[j], q, w);
    if HoldsCommands(cs[j]) {
      SearchBelow(items[j].entry.subcommands, cs[j].commands, q, registry, w);
    }
  }

  /** An entry from below another command has another name. */
  lemma OtherName(name: string, q: seq<string>, w: seq<string>)
    requires Wordy(w) && q != [] && !(|w| >= |q| && w[..|q|] == q && w != q)
    requires exists p :: PathBelow(p, q) && name == Join(p, " ")
    ensures name != Join(w, " ")
  {
    var p :| PathBelow(p, q) && name == Join(p, " ");
    KeyFacts(p);
    KeyFacts(w);
  }

  /** On each level no earlier sibling is a group with commands. */
  predicate ClearBelow(cs: seq<Command>, path: seq<nat>)
    requires OnTree(cs, path)
    decreases |path|
  {
    && (forall j :: 0 <= j < path[0] ==> !HoldsCommands(cs[j]))
    && (|path| > 1 ==> ClearBelow(cs[path[0]].commands, path[1..]))
  }

  /**
    The condition on the tree.  A command below the top is found unless, on some level below
    the top, a group with commands comes before the way down; a command at the top is found
    unless an earlier group has its name further down.
   */
  predicate Clear(cs: seq<Command>, path: seq<nat>)
    requires OnTree(cs, path)
  {
    if |path| > 1 then ClearBelow(cs[path[0]].commands, path[1..])
    else forall j :: 0 <= j < path[0] && cs[j].Group? ==> !NamedIn(cs[j].commands, cs[path[0]].name)
  }

  /** The search is for this path, and finds its own entry exactly if the condition holds. */
  predicate FindsOwn(items: seq<Item>, w: seq<string>, path: seq<nat>, clear: bool) {
    EntryAt(items, path) != None && Find(items, Join(w, " ")).Match?
    && (Find(items, Join(w, " ")) == Match(EntryAt(items, path).value) <==> clear)
  }

  lemma {:induction false} NamesAreWordy(cs: seq<Command>, path: seq<nat>)
    requires SlashTree(cs) && OnTree(cs, path)
    ensures Wordy(NamesAt(cs, path))
    decreases |path|
  {
    assert WellNamed(cs[path[0]]);
    if |path| > 1 {
      NamesAreWordy(cs[path[0]].commands, path[1..]);
    }
  }

  lemma OwnEntry(items: seq<Item>, cs: seq<Command>, ws: seq<string>, registry: Registry, path: seq<nat>)
    requires TreeBelow(items, cs, ws, registry) && OnTree(cs, path)
    ensures Wordy(ws + NamesAt(cs, path)) && EntryAt(items, path) != None
    ensures EntryAt(items, path).value.data.name == Join(ws + NamesAt(cs, path), " ")
  {
    NamesAreWordy(cs, path);
    MirroredEntry(items, cs, ws, path, registry);
  }

  /** An earlier sibling of the way down is another command. */
  lemma EarlierSibling(cs: seq<Command>, ws: seq<string>, path: seq<nat>, j: nat)
    requires AllWellNamed(cs) && OnTree(cs, path) && j < path[0]
    ensures
      var q, w := ws + [cs[j].name], ws + NamesAt(cs, path);
      q != w && w[..|q|] != q
  {
    var q, w := ws + [cs[j].name], ws + NamesAt(cs, path);
    assert NamesAt(cs, path)[0] == cs[path[0]].name != cs[j].name;
    assert w[|ws|] == cs[path[0]].name && q[|ws|] == cs[j].name;
    assert w[..|q|][|ws|] == w[|ws|];
  }

  /** At an earlier sibling the exact pass goes on, or ends with an entry of another name. */
  lemma StopEarlier(items: seq<Item>, cs: seq<Command>, ws: seq<string>, registry: Registry, path: seq<nat>,
                    j: nat)
    requires TreeBelow(items, cs, ws, registry) && OnTree(cs, path) && j < path[0]
    ensures j < |items|
    ensures
      var w := ws + NamesAt(cs, path);
      var stop := Stop(items[j], Join(w, " "));
      && (stop != Miss <==> HoldsCommands(cs[j]) && Attracts(cs[j].commands, ws + [cs[j].name], w))
      && (stop != Miss ==> stop.Match? && stop.entry.data.name != Join(w, " "))
  {
    var w := ws + NamesAt(cs, path);
    OwnEntry(items, cs, ws, registry, path);
    EarlierSibling(cs, ws, path, j);
    StopElsewhere(items, cs, ws, registry, j, w);
    if Stop(items[j], Join(w, " ")) != Miss {
      OtherName(Stop(items[j], Join(w, " ")).entry.data.name, ws + [cs[j].name], w);
    }
  }

  /** The exact pass ends at the earliest sibling that attracts the search, or else on the way down. */
  lemma FirstAttraction(items: seq<Item>, cs: seq<Command>, ws: seq<string>, registry: Registry, path: seq<nat>,
                        below: bool)
    requires TreeBelow(items, cs, ws, registry) && OnTree(cs, path)
    requires |path| > 1 ==>
               path[0] < |items| && FindsOwn(items[path[0]].entry.subcommands, ws + NamesAt(cs, path), path[1..], below)
    requires |path| == 1 ==> below
    ensures
      var w := ws + NamesAt(cs, path);
      FindsOwn(items, w, path,
               below && forall j :: 0 <= j < path[0] && HoldsCommands(cs[j]) ==>
                          !Attracts(cs[j].commands, ws + [cs[j].name], w))
  {
    var w := ws + NamesAt(cs, path);
    OwnEntry(items, cs, ws, registry, path);
    ChildTree(items, cs, ws, registry, path[0]);
    forall j | 0 <= j < path[0]
      ensures
        var stop := Stop(items[j], Join(w, " "));
        && (stop != Miss <==> HoldsCommands(cs[j]) && Attracts(cs[j].commands, ws + [cs[j].name], w))
        && (stop != Miss ==> stop.Match? && stop.entry.data.name != Join(w, " "))
    {
      StopEarlier(items, cs, ws, registry, path, j);
    }
    StopOnTheWay(items, cs, ws, registry, path, below);
    var k := StopWhere(items, Join(w, " "));
  }

  lemma {:induction false} FindsOwnBelow(items: seq<Item>, cs: seq<Command>, ws: seq<string>, registry: Registry,
                                         path: seq<nat>)
    requires TreeBelow(items, cs, ws, registry) && ws != [] && OnTree(cs, path)
    ensures FindsOwn(items, ws + NamesAt(cs, path), path, ClearBelow(cs, path))
    decreases |path|
  {
    var c := cs[path[0]];
    ChildTree(items, cs, ws, registry, path[0]);
    if |path| > 1 {
      FindsOwnBelow(items[path[0]].entry.subcommands, c.commands, ws + [c.name], registry, path[1..]);
      assert ws + [c.name] + NamesAt(c.commands, path[1..]) == ws + NamesAt(cs, path);
    }
    FirstAttraction(items, cs, ws, registry, path, |path| == 1 || ClearBelow(c.commands, path[1..]));
  }

  /** The exact pass at the command on the way down, given how the search goes on below it. */
  lemma StopOnTheWay(items: seq<Item>, cs: seq<Command>, ws: seq<string>, registry: Registry, path: seq<nat>,
                     below: bool)
    requires TreeBelow(items, cs, ws, registry) && OnTree(cs, path)
    requires |path| > 1 ==>
               path[0] < |items| && FindsOwn(items[path[0]].entry.subcommands, ws + NamesAt(cs, path), path[1..], below)
    ensures EntryAt(items, path) != None
    ensures
      var stop := Stop(items[path[0]], Join(ws + NamesAt(cs, path), " "));
      stop.Match? && (stop == Match(EntryAt(items, path).value) <==> |path| == 1 || below)
  {
    var w, q := ws + NamesAt(cs, path), ws + [cs[path[0]].name];
    OwnEntry(items, cs, ws, registry, path);
    ChildTree(items, cs, ws, registry, path[0]);
    ItemTests(items[path[0]], q, w);
    if |path| == 1 {
      assert w == q;
    } else {
      assert |w| > |q|;
    }
  }

  /** At the top the attraction of earlier groups is what Clear speaks of. */
  lemma ClearAtTop(cs: seq<Command>, path: seq<nat>, below: bool)
    requires AllWellNamed(cs) && OnTree(cs, path)
    requires below == (|path| == 1 || ClearBelow(cs[path[0]].commands, path[1..]))
    ensures
      Clear(cs, path) <==>
      below && forall j :: 0 <= j < path[0] && HoldsCommands(cs[j]) ==>
                 !Attracts(cs[j].commands, [] + [cs[j].name], [] + NamesAt(cs, path))
  {
    forall j | 0 <= j < path[0] && cs[j].Group?
      ensures HoldsCommands(cs[j]) && Attracts(cs[j].commands, [] + [cs[j].name], [] + NamesAt(cs, path))
         <==> |path| == 1 && NamedIn(cs[j].commands, cs[path[0]].name)
    {
    }
  }

  /**
    In the collected help of a tree of slash commands of any depth, a command's own full name
    finds something, and finds that command's entry exactly when the tree is clear for it.
   */
  lemma OwnNameFindsTheEntry(cs: seq<Command>, registry: Registry, path: seq<nat>)
    requires SlashTree(cs) && OnTree(cs, path)
    ensures FindsOwn(CollectAll(cs, [], "", registry), NamesAt(cs, path), path, Clear(cs, path))
  {
    var items, w, c := CollectAll(cs, [], "", registry), NamesAt(cs, path), cs[path[0]];
    CollectingKeepsTheShape(cs, registry);
    assert [] + w == w && [] + [c.name] == [c.name];
    ChildTree(items, cs, [], registry, path[0]);
    if |path| > 1 {
      FindsOwnBelow(items[path[0]].entry.subcommands, c.commands, [c.name], registry, path[1..]);
    }
    FirstAttraction(items, cs, [], registry, path, |path| == 1 || ClearBelow(c.commands, path[1..]));
    ClearAtTop(cs, path, |path| == 1 || ClearBelow(c.commands, path[1..]));
  }

  /** Groups that hold no groups. */
  predicate TwoLevel(cs: seq<Command>) {
    forall i :: 0 <= i < |cs| && cs[i].Group? ==> forall j :: 0 <= j < |cs[i].commands| ==> cs[i].commands[j].Leaf?
  }

  /** In a collected two-level tree the full name of a subcommand finds exactly its entry. */
  lemma SubcommandNameFindsItsEntry(cs: seq<Command>, registry: Registry, g: nat, s: nat)
    requires SlashTree(cs) && TwoLevel(cs) && g < |cs| && cs[g].Group? && s < |cs[g].commands|
    ensures
      var items := CollectAll(cs, [], "", registry);
      && |items| == |cs| && |items[g].entry.subcommands| == |cs[g].commands|
      && Find(items, cs[g].name + " " + cs[g].commands[s].name) == Match(items[g].entry.subcommands[s].entry)
  {
    var items, path := CollectAll(cs, [], "", registry), [g, s];
    CollectingKeepsTheShape(cs, registry);
    assert Mirrors(items[g], cs[g], "", registry);
    assert AllMirror(items[g].entry.subcommands, cs[g].commands, items[g].key, registry);
    assert path[1..] == [s] && OnTree(cs[g].commands, [s]) && OnTree(cs, path);
    assert NamesAt(cs[g].commands, [s]) == [cs[g].commands[s].name];
    assert NamesAt(cs, path) == [cs[g].name, cs[g].commands[s].name];
    JoinOfTwo(cs[g].name, cs[g].commands[s].name);
    OwnNameFindsTheEntry(cs, registry, path);
    assert ClearBelow(cs[g].commands, [s]);
    assert EntryAt(items[g].entry.subcommands, [s]) == Some(items[g].entry.subcommands[s].entry);
  }

  lemma JoinOfTwo(a: string, b: string)
    ensures Join([a, b], " ") == a + " " + b
  {
    assert [a, b][1..] == [b] && Join([b], " ") == b;
  }

  // ---------------------------------------------------------------- two ways to miss the own entry

  /** A search that only the last test of a list of leaves, its first partial one, can hit. */
  lemma FirstLeafShadows(items: seq<Item>, cs: seq<Command>, ws: seq<string>, registry: Registry, w: seq<string>)
    requires TreeBelow(items, cs, ws, registry) && |cs| == 1 && cs[0].Leaf? && Wordy(w) && w != []
    requires ws + [cs[0].name] != w && Hits(ws + [cs[0].name], w)
    ensures |items| == 1 && Find(items, Join(w, " ")) == Match(items[0].entry)
  {
    ChildTree(items, cs, ws, registry, 0);
    ItemTests(items[0], ws + [cs[0].name], w);
    StopElsewhere(items, cs, ws, registry, 0, w);
    var k := StopWhere(items, Join(w, " "));
    assert FindPartial(items, Join(w, " ")) == Match(items[0].entry);
  }

  /** Two levels: `a d` hides the command `d` that comes after its group, by the last-word rule. */
  lemma TwoLevelsShadow(a: string, d: string, description: string, help: ModuleHelp, registry: Registry)
    requires Word(a) && Word(d) && a != d
    ensures
      var cs := [Group(a, description, help, [Leaf(d, description, help)]), Leaf(d, description, help)];
      var items := CollectAll(cs, [], "", registry);
      SlashTree(cs) && EntryAt(items, [0, 0]) != None && EntryAt(items, [0, 0]).value.data.name == a + " " + d
      && Find(items, d) == Match(EntryAt(items, [0, 0]).value)
  {
    var inner := [Leaf(d, description, help)];
    var cs := [Group(a, description, help, inner), Leaf(d, description, help)];
    LoneTree(inner);
    PairTree(cs);
    CollectingKeepsTheShape(cs, registry);
    LastWordShadows(CollectAll(cs, [], "", registry), cs, registry, a, d);
  }

  lemma LoneTree(cs: seq<Command>)
    requires |cs| == 1 && Word(cs[0].name) && (cs[0].Group? ==> SlashTree(cs[0].commands))
    ensures SlashTree(cs)
  {
    assert WellNamed(cs[0]);
  }

  lemma PairTree(cs: seq<Command>)
    requires |cs| == 2 && Word(cs[0].name) && Word(cs[1].name) && cs[0].name != cs[1].name
    requires cs[0].Group? && SlashTree(cs[0].commands) && cs[1].Leaf?
    ensures SlashTree(cs)
  {
    assert WellNamed(cs[0]) && WellNamed(cs[1]);
  }

  lemma LastWordShadows(items: seq<Item>, cs: seq<Command>, registry: Registry, a: string, d: string)
    requires TreeBelow(items, cs, [], registry) && Word(d) && a != d
    requires cs != [] && cs[0].Group? && cs[0].name == a && |cs[0].commands| == 1
    requires cs[0].commands[0].Leaf? && cs[0].commands[0].name == d
    ensures EntryAt(items, [0, 0]) != None && EntryAt(items, [0, 0]).value.data.name == a + " " + d
    ensures Find(items, d) == Match(EntryAt(items, [0, 0]).value)
  {
    assert [] + [a] == [a] && [a] + [d] == [a, d] && Join([d], " ") == d;
    ChildTree(items, cs, [], registry, 0);
    var subs, inner := items[0].entry.subcommands, cs[0].commands;
    FirstLeafShadows(subs, inner, [a], registry, [d]);
    ChildTree(subs, inner, [a], registry, 0);
    JoinOfTwo(a, d);
    assert [0, 0][1..] == [0] && EntryAt(subs, [0]) == Some(subs[0].entry);
    StopElsewhere(items, cs, [], registry, 0, [d]);
    var k := StopWhere(items, d);
  }

  /** Three levels: `g x y` hides `g s` when the subgroup comes first, by the first-word rule. */
  lemma ThreeLevelsShadow(g: string, x: string, y: string, s: string, description: string, help: ModuleHelp,
                          registry: Registry)
    requires Word(g) && Word(x) && Word(y) && Word(s) && x != s
    ensures
      var cs := [Group(g, description, help,
                       [Group(x, description, help, [Leaf(y, description, help)]), Leaf(s, description, help)])];
      var items := CollectAll(cs, [], "", registry);
      SlashTree(cs) && EntryAt(items, [0, 0, 0]) != None
      && EntryAt(items, [0, 0, 0]).value.data.name == g + " " + x + " " + y
      && Find(items, g + " " + s) == Match(EntryAt(items, [0, 0, 0]).value)
  {
    var leaf := [Leaf(y, description, help)];
    var inner := [Group(x, description, help, leaf), Leaf(s, description, help)];
    var cs := [Group(g, description, help, inner)];
    var items := CollectAll(cs, [], "", registry);
    LoneTree(leaf);
    PairTree(inner);
    LoneTree(cs);
    CollectingKeepsTheShape(cs, registry);
    FirstWordShadows(items, cs, registry, g, x, s, y);
  }

  lemma FirstWordShadows(items: seq<Item>, cs: seq<Command>, registry: Registry, g: string, x: string,
                         s: string, y: string)
    requires TreeBelow(items, cs, [], registry) && Word(s) && x != s
    requires cs != [] && cs[0].Group? && cs[0].name == g && cs[0].commands != []
    requires
      var c := cs[0].commands[0];
      c.Group? && c.name == x && |c.commands| == 1 && c.commands[0].Leaf? && c.commands[0].name == y
    ensures EntryAt(items, [0, 0, 0]) != None && EntryAt(items, [0, 0, 0]).value.data.name == g + " " + x + " " + y
    ensures Find(items, g + " " + s) == Match(EntryAt(items, [0, 0, 0]).value)
  {
    assert [] + [g] == [g];
    ChildTree(items, cs, [], registry, 0);
    MiddleShadow(items[0].entry.subcommands, cs[0].commands, registry, g, x, s, y);
    StopElsewhere(items, cs, [], registry, 0, [g, s]);
    JoinOfTwo(g, s);
    var k := StopWhere(items, g + " " + s);
    assert [0, 0, 0][1..] == [0, 0];
  }

  lemma MiddleShadow(items: seq<Item>, cs: seq<Command>, registry: Registry, g: string, x: string, s: string,
                     y: string)
    requires TreeBelow(items, cs, [g], registry) && Word(s) && x != s
    requires cs != [] && cs[0].Group? && cs[0].name == x && |cs[0].commands| == 1
    requires cs[0].commands[0].Leaf? && cs[0].commands[0].name == y
    ensures EntryAt(items, [0, 0]) != None && EntryAt(items, [0, 0]).value.data.name == g + " " + x + " " + y
    ensures Find(items, g + " " + s) == Match(EntryAt(items, [0, 0]).value)
  {
    ChildTree(items, cs, [g], registry, 0);
    var deep, leaf := items[0].entry.subcommands, cs[0].commands;
    assert [g] + [x] == [g, x] && [g, x] + [y] == [g, x, y];
    ChildTree(deep, leaf, [g, x], registry, 0);
    FirstLeafShadows(deep, leaf, [g, x], registry, [g, s]);
    JoinOfTwo(g, s);
    JoinOfTwo(g, x);
    JoinSnoc([g, x], y);
    assert [0, 0][1..] == [0] && EntryAt(deep, [0]) == Some(deep[0].entry);
    StopElsewhere(items, cs, [g], registry, 0, [g, s]);
    var k := StopWhere(items, g + " " + s);
  }
}
