/** Shape detection and migration of the configuration file, and the startup
    decision of `EnsureConfigExists`.

    The file is seen through its parsed JSON value: parsing itself and the
    writing of the file are outside the model. `ToJson` is the model of the
    serialiser's output with the camelCase naming policy (`games`,
    `pathsToMonitor`, `name`, `path`, `executablePath`). */
module ConfigShape {

  import opened Wrappers
  import opened Seqs
  import opened JsonValues
  import opened ConfigModel

  /** Member `key` exists (exact case) and holds a JSON string. */
  predicate IsStringAt(fields: map<string, Json>, key: string) {
    key in fields && fields[key].JString?
  }

  /** `TryGetStringProperty`: the camelCase member if it is a string, else the
      PascalCase member if that is a string, else nothing. */
  function TryGetStringProperty(fields: map<string, Json>, camel: string, pascal: string): (r: Option<string>)
    ensures r.Some? <==> IsStringAt(fields, camel) || IsStringAt(fields, pascal)
    ensures IsStringAt(fields, camel) ==> r == Some(fields[camel].str)
    ensures !IsStringAt(fields, camel) && IsStringAt(fields, pascal) ==> r == Some(fields[pascal].str)
  {
    if IsStringAt(fields, camel) then Some(fields[camel].str)
    else if IsStringAt(fields, pascal) then Some(fields[pascal].str)
    else None
  }

  /** `TryReadSingleEntry`: an object with a string name and a string path;
      the executable path is optional and defaults to "". */
  function TryReadSingleEntry(j: Json): (r: Option<Entry>)
    ensures r.Some? <==>
              && j.JObject?
              && (IsStringAt(j.fields, "name") || IsStringAt(j.fields, "Name"))
              && (IsStringAt(j.fields, "path") || IsStringAt(j.fields, "Path"))
    ensures r.Some? ==>
              && TryGetStringProperty(j.fields, "name", "Name") == Some(r.value.name)
              && TryGetStringProperty(j.fields, "path", "Path") == Some(r.value.path)
    ensures r.Some? && !IsStringAt(j.fields, "executablePath") && !IsStringAt(j.fields, "ExecutablePath")
            ==> r.value.executablePath == ""
    ensures r.Some? && (IsStringAt(j.fields, "executablePath") || IsStringAt(j.fields, "ExecutablePath"))
            ==> TryGetStringProperty(j.fields, "executablePath", "ExecutablePath") == Some(r.value.executablePath)
  {
    if !j.JObject? then None
    else
      match TryGetStringProperty(j.fields, "name", "Name")
      case None => None
      case Some(name) =>
        match TryGetStringProperty(j.fields, "path", "Path")
        case None => None
        case Some(path) =>
          Some(Entry(name, path, TryGetStringProperty(j.fields, "executablePath", "ExecutablePath").GetOr("")))
  }

  /** The all-or-nothing loop over an array of entries: every element must read. */
  function ReadEntries(items: seq<Json>): (r: Option<seq<Entry>>)
    ensures r.Some? <==> forall i :: 0 <= i < |items| ==> TryReadSingleEntry(items[i]).Some?
    ensures r.Some? ==> |r.value| == |items| &&
                        forall i :: 0 <= i < |items| ==> TryReadSingleEntry(items[i]) == Some(r.value[i])
  {
    if items == [] then Some([])
    else
      match TryReadSingleEntry(items[0])
      case None => None
      case Some(e) =>
        match ReadEntries(items[1..])
        case None =>
          assert forall i :: 0 <= i < |items[1..]| ==> items[1..][i] == items[i + 1];
          None
        case Some(es) => Some([e] + es)
  }

  /** The all-or-nothing loop over an array of monitored paths: every element must be a string. */
  function ReadStrings(items: seq<Json>): (r: Option<seq<string>>)
    ensures r.Some? <==> forall i :: 0 <= i < |items| ==> items[i].JString?
    ensures r.Some? ==> |r.value| == |items| && forall i :: 0 <= i < |items| ==> items[i] == JString(r.value[i])
  {
    if items == [] then Some([])
    else if !items[0].JString? then None
    else
      match ReadStrings(items[1..])
      case None => None
      case Some(ss) => Some([items[0].str] + ss)
  }

  /** Member `key` exists (exact case) and holds an array. */
  predicate IsArrayAt(fields: map<string, Json>, key: string) {
    key in fields && fields[key].JArray?
  }

  /** `IsValidConfigObject`: the current shape. */
  function IsValidConfigObject(root: Json): (ok: bool)
    ensures ok <==>
              && root.JObject?
              && IsArrayAt(root.fields, "games")
              && (forall i :: 0 <= i < |root.fields["games"].items| ==> TryReadSingleEntry(root.fields["games"].items[i]).Some?)
              && IsArrayAt(root.fields, "pathsToMonitor")
              && (forall i :: 0 <= i < |root.fields["pathsToMonitor"].items| ==> root.fields["pathsToMonitor"].items[i].JString?)
  {
    && root.JObject?
    && IsArrayAt(root.fields, "games")
    && ReadEntries(root.fields["games"].items).Some?
    && IsArrayAt(root.fields, "pathsToMonitor")
    && ReadStrings(root.fields["pathsToMonitor"].items).Some?
  }

  /** The partial-object reading of one optional list: absent or not an array
      means empty; an array must read completely. */
  function ReadOptionalGames(fields: map<string, Json>): Option<seq<Entry>> {
    if IsArrayAt(fields, "games") then ReadEntries(fields["games"].items) else Some([])
  }

  function ReadOptionalPaths(fields: map<string, Json>): Option<seq<string>> {
    if IsArrayAt(fields, "pathsToMonitor") then ReadStrings(fields["pathsToMonitor"].items) else Some([])
  }

  /** `TryReadConfigFromOldFormats`: a top-level array of entries, then a single
      entry object, then an object carrying at least one non-empty list. */
  function TryReadConfigFromOldFormats(root: Json): (r: Option<Config>)
    // Array root: all-or-nothing, entries in order, no monitored paths.
    ensures root.JArray? ==>
              (r.Some? <==> forall i :: 0 <= i < |root.items| ==> TryReadSingleEntry(root.items[i]).Some?)
    ensures root.JArray? && r.Some? ==>
              && r.value.pathsToMonitor == []
              && |r.value.games| == |root.items|
              && forall i :: 0 <= i < |root.items| ==> TryReadSingleEntry(root.items[i]) == Some(r.value.games[i])
    // A root that reads as one entry wins over everything else it carries.
    ensures !root.JArray? && TryReadSingleEntry(root).Some? ==> r == Some(Config([TryReadSingleEntry(root).value], []))
    // Only arrays and objects migrate, and an object never migrates to the empty configuration.
    ensures r.Some? ==> root.JArray? || root.JObject?
    ensures r.Some? && root.JObject? ==> r.value != Empty
    // Any other object migrates to its readable lists, a missing or non-array
    // side counting as empty, provided one of them is non-empty.
    ensures root.JObject? && TryReadSingleEntry(root).None? &&
            ReadOptionalGames(root.fields).Some? && ReadOptionalPaths(root.fields).Some? ==>
              var games := ReadOptionalGames(root.fields).value;
              var paths := ReadOptionalPaths(root.fields).value;
              r == if games == [] && paths == [] then None else Some(Config(games, paths))
  {
    if root.JArray? then
      match ReadEntries(root.items)
      case None => None
      case Some(entries) => Some(Config(entries, []))
    else
      match TryReadSingleEntry(root)
      case Some(e) => Some(Config([e], []))
      case None =>
        if !root.JObject? then None
        else
          match ReadOptionalGames(root.fields)
          case None => None
          case Some(games) =>
            match ReadOptionalPaths(root.fields)
            case None => None
            case Some(paths) =>
              if |games| > 0 || |paths| > 0 then Some(Config(games, paths)) else None
  }

  /** `[]` migrates to the empty configuration. */
  lemma EmptyArrayMigrates()
    ensures TryReadConfigFromOldFormats(JArray([])) == Some(Empty)
  {
  }

  /** A partial object with an unreadable `games` array or a non-string path
      does not migrate. */
  lemma PartialObjectFailsOnBadList(fields: map<string, Json>)
    requires TryReadSingleEntry(JObject(fields)).None?
    requires (IsArrayAt(fields, "games") && exists i :: 0 <= i < |fields["games"].items| && TryReadSingleEntry(fields["games"].items[i]).None?)
          || (IsArrayAt(fields, "pathsToMonitor") && exists i :: 0 <= i < |fields["pathsToMonitor"].items| && !fields["pathsToMonitor"].items[i].JString?)
    ensures TryReadConfigFromOldFormats(JObject(fields)).None?
  {
  }

  /** A `games` member that is not an array is ignored: the object migrates
      exactly as if the member were absent. */
  lemma PartialObjectIgnoresNonArrayGames(fields: map<string, Json>)
    requires "games" in fields && !fields["games"].JArray?
    ensures TryReadConfigFromOldFormats(JObject(fields)) == TryReadConfigFromOldFormats(JObject(fields - {"games"}))
  {
    var f' := fields - {"games"};
    assert forall k :: k != "games" ==> (k in fields <==> k in f') && (k in f' ==> f'[k] == fields[k]);
    assert TryReadSingleEntry(JObject(fields)) == TryReadSingleEntry(JObject(f'));
    assert ReadOptionalPaths(fields) == ReadOptionalPaths(f');
  }

  /** Likewise for a `pathsToMonitor` member that is not an array. */
  lemma PartialObjectIgnoresNonArrayPaths(fields: map<string, Json>)
    requires "pathsToMonitor" in fields && !fields["pathsToMonitor"].JArray?
    ensures TryReadConfigFromOldFormats(JObject(fields)) == TryReadConfigFromOldFormats(JObject(fields - {"pathsToMonitor"}))
  {
    var f' := fields - {"pathsToMonitor"};
    assert forall k :: k != "pathsToMonitor" ==> (k in fields <==> k in f') && (k in f' ==> f'[k] == fields[k]);
    assert TryReadSingleEntry(JObject(fields)) == TryReadSingleEntry(JObject(f'));
    assert ReadOptionalGames(fields) == ReadOptionalGames(f');
  }

  /** `{"pathsToMonitor": ["C:\x"]}` migrates to no games and that one path. */
  lemma PathsOnlyObjectMigrates()
    ensures TryReadConfigFromOldFormats(JObject(map["pathsToMonitor" := JArray([JString("C:\\x")])]))
            == Some(Config([], ["C:\\x"]))
  {
    var fields := map["pathsToMonitor" := JArray([JString("C:\\x")])];
    assert !IsStringAt(fields, "name") && !IsStringAt(fields, "Name");
    assert !IsArrayAt(fields, "games");
    var r := ReadStrings([JString("C:\\x")]);
    assert r.Some? && |r.value| == 1 && r.value[0] == "C:\\x";
    assert r.value == ["C:\\x"];
  }

  /** The legacy document `[{"Name":"Foo","Path":"C:\Games\Foo"}]` becomes one
      game with an empty executable path and no monitored paths. */
  lemma LegacyArrayExample()
    ensures TryReadConfigFromOldFormats(JArray([JObject(map["Name" := JString("Foo"), "Path" := JString("C:\\Games\\Foo")])]))
            == Some(Config([Entry("Foo", "C:\\Games\\Foo", "")], []))
  {
    var item := JObject(map["Name" := JString("Foo"), "Path" := JString("C:\\Games\\Foo")]);
    assert !IsStringAt(item.fields, "name") && !IsStringAt(item.fields, "path");
    assert !IsStringAt(item.fields, "executablePath") && !IsStringAt(item.fields, "ExecutablePath");
    assert TryReadSingleEntry(item) == Some(Entry("Foo", "C:\\Games\\Foo", ""));
    var r := ReadEntries([item]);
    assert r.Some? && |r.value| == 1 && r.value[0] == Entry("Foo", "C:\\Games\\Foo", "");
    assert r.value == [Entry("Foo", "C:\\Games\\Foo", "")];
  }

  /** The serialised form of one entry. */
  function EntryToJson(e: Entry): (j: Json)
    ensures j.JObject? && |j.fields| == 3
    ensures IsStringAt(j.fields, "name") && IsStringAt(j.fields, "path") && IsStringAt(j.fields, "executablePath")
  {
    JObject(map["name" := JString(e.name), "path" := JString(e.path), "executablePath" := JString(e.executablePath)])
  }

  /** `JsonSerializer.Serialize` with the camelCase naming policy, as a value. */
  function ToJson(c: Config): (j: Json)
    ensures j.JObject? && |j.fields| == 2
    ensures IsArrayAt(j.fields, "games") && |j.fields["games"].items| == |c.games|
    ensures IsArrayAt(j.fields, "pathsToMonitor") && |j.fields["pathsToMonitor"].items| == |c.pathsToMonitor|
  {
    JObject(map[
      "games" := JArray(Map(EntryToJson, c.games)),
      "pathsToMonitor" := JArray(Map((p: string) => JString(p), c.pathsToMonitor))])
  }

  /** The entry reader recovers every serialised entry exactly. */
  lemma EntryRoundTrip(e: Entry)
    ensures TryReadSingleEntry(EntryToJson(e)) == Some(e)
  {
    var f := EntryToJson(e).fields;
    assert IsStringAt(f, "name") && IsStringAt(f, "path") && IsStringAt(f, "executablePath");
  }

  lemma ReadEntriesRoundTrip(games: seq<Entry>)
    ensures ReadEntries(Map(EntryToJson, games)) == Some(games)
  {
    var items := Map(EntryToJson, games);
    forall i | 0 <= i < |items|
      ensures TryReadSingleEntry(items[i]) == Some(games[i])
    {
      EntryRoundTrip(games[i]);
    }
    var r := ReadEntries(items);
    assert r.value == games;
  }

  lemma ReadStringsRoundTrip(paths: seq<string>)
    ensures ReadStrings(Map((p: string) => JString(p), paths)) == Some(paths)
  {
    var r := ReadStrings(Map((p: string) => JString(p), paths));
    assert r.value == paths;
  }

  /** Whatever the store writes is in the current shape. */
  lemma ToJsonIsCurrentShape(c: Config)
    ensures IsValidConfigObject(ToJson(c))
  {
    ReadEntriesRoundTrip(c.games);
    ReadStringsRoundTrip(c.pathsToMonitor);
  }

  /** The readers give back every field of a written configuration: the
      partial-object reading of `ToJson(c)` is `c` itself, unless `c` is empty. */
  lemma ToJsonReadsBack(c: Config)
    ensures TryReadConfigFromOldFormats(ToJson(c)) == if c == Empty then None else Some(c)
  {
    var f := ToJson(c).fields;
    assert !IsStringAt(f, "name") && !IsStringAt(f, "Name");
    ReadEntriesRoundTrip(c.games);
    ReadStringsRoundTrip(c.pathsToMonitor);
    assert ReadOptionalGames(f) == Some(c.games);
    assert ReadOptionalPaths(f) == Some(c.pathsToMonitor);
  }

  /** What `EnsureConfigExists` finds at the configuration path. */
  datatype FileState = Missing | Unparsable | Parsed(root: Json)

  /** Which write `EnsureConfigExists` performs. */
  datatype Write = NoWrite | WriteMigrated(config: Config) | WriteDefault

  /** The decision of `EnsureConfigExists`: leave a current-shape file alone,
      rewrite a migratable one, and replace anything else by the empty configuration. */
  function EnsureConfigExists(file: FileState): (w: Write)
    ensures w.NoWrite? <==> file.Parsed? && IsValidConfigObject(file.root)
    ensures w.WriteMigrated? <==>
              file.Parsed? && !IsValidConfigObject(file.root) && TryReadConfigFromOldFormats(file.root).Some?
    ensures w.WriteMigrated? ==> Some(w.config) == TryReadConfigFromOldFormats(file.root)
    ensures file.Missing? || file.Unparsable? ==> w == WriteDefault
  {
    match file
    case Parsed(root) =>
      if IsValidConfigObject(root) then NoWrite
      else (
        match TryReadConfigFromOldFormats(root)
        case Some(c) => WriteMigrated(c)
        case None => WriteDefault)
    case Missing => WriteDefault
    case Unparsable => WriteDefault
  }

  /** The file after a write, assuming the write succeeds and the parser reads
      back what the serialiser wrote. */
  function AfterWrite(file: FileState, w: Write): FileState {
    match w
    case NoWrite => file
    case WriteMigrated(c) => Parsed(ToJson(c))
    case WriteDefault => Parsed(ToJson(Empty))
  }

  /** Afterwards the file always holds the current shape, so a second call
      writes nothing. */
  lemma EnsureConfigExistsIdempotent(file: FileState)
    ensures var after := AfterWrite(file, EnsureConfigExists(file));
            after.Parsed? && IsValidConfigObject(after.root)
    ensures EnsureConfigExists(AfterWrite(file, EnsureConfigExists(file))) == NoWrite
  {
    match EnsureConfigExists(file)
    case NoWrite =>
    case WriteMigrated(c) => ToJsonIsCurrentShape(c);
    case WriteDefault => ToJsonIsCurrentShape(Empty);
  }
}
