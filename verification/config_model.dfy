/** The persisted configuration (`ClgConfig`, `ClgEntry`) and the null-cleaning
    step `Load` applies after deserialisation. */
module ConfigModel {

  import opened Wrappers
  import opened Seqs

  /** One game: display name, folder, and launchable executable ("" = not chosen yet). */
  datatype Entry = Entry(name: string, path: string, executablePath: string)

  /** The configuration: games and monitored directories, both ordered, duplicates allowed. */
  datatype Config = Config(games: seq<Entry>, pathsToMonitor: seq<string>)

  /** The configuration with no games and no monitored paths. */
  const Empty: Config := Config([], [])

  /** What deserialisation may hand over: every reference may be null (`None`). */
  datatype RawEntry = RawEntry(name: Option<string>, path: Option<string>, executablePath: Option<string>)

  datatype RawConfig = RawConfig(games: Option<seq<Option<RawEntry>>>, pathsToMonitor: Option<seq<Option<string>>>)

  /** A null field becomes the empty string. */
  function NormalizeEntry(e: RawEntry): Entry {
    Entry(e.name.GetOr(""), e.path.GetOr(""), e.executablePath.GetOr(""))
  }

  function EntryOrBlank(o: Option<RawEntry>): Entry {
    NormalizeEntry(o.GetOr(RawEntry(None, None, None)))
  }

  /** The entry is not null. */
  predicate Present(o: Option<RawEntry>) {
    o.Some?
  }

  /** The `foreach`/`continue` loop over games: null entries are skipped, the
      rest are cleaned in order. */
  function NormalizeGames(games: seq<Option<RawEntry>>): (r: seq<Entry>)
    ensures |r| <= |games|
  {
    if games == [] then []
    else
      var rest := NormalizeGames(games[1..]);
      match games[0]
      case None => rest
      case Some(e) => [NormalizeEntry(e)] + rest
  }

  /** The loop agrees with the LINQ reading `Where(e => e != null).Select(NormalizeEntry)`. */
  lemma {:induction false} NormalizeGamesIsWhereSelect(games: seq<Option<RawEntry>>)
    ensures NormalizeGames(games) == Map(EntryOrBlank, Filter(Present, games))
  {
    if games != [] {
      NormalizeGamesIsWhereSelect(games[1..]);
      var h := if games[0].Some? then [games[0]] else [];
      var tail := Filter(Present, games[1..]);
      assert Filter(Present, games) == h + tail;
      MapAppend(EntryOrBlank, h, tail);
      if games[0].Some? {
        assert Map(EntryOrBlank, h) == [NormalizeEntry(games[0].value)];
      } else {
        assert Map(EntryOrBlank, h) == [];
      }
    }
  }

  /** The loop over monitored paths: one output per input, null becomes "". */
  function NormalizePaths(paths: seq<Option<string>>): (r: seq<string>)
    ensures |r| == |paths|
    ensures forall i :: 0 <= i < |paths| ==> r[i] == paths[i].GetOr("")
  {
    if paths == [] then [] else [paths[0].GetOr("")] + NormalizePaths(paths[1..])
  }

  /** `Normalize`: a null configuration or null list becomes empty. */
  function Normalize(raw: Option<RawConfig>): (r: Config)
    ensures raw.None? ==> r == Empty
    ensures raw.Some? ==> r.games == Map(EntryOrBlank, Filter(Present, raw.value.games.GetOr([])))
    ensures raw.Some? ==> var paths := raw.value.pathsToMonitor.GetOr([]);
              |r.pathsToMonitor| == |paths| && forall i :: 0 <= i < |paths| ==> r.pathsToMonitor[i] == paths[i].GetOr("")
  {
    match raw
    case None => Empty
    case Some(c) =>
      NormalizeGamesIsWhereSelect(c.games.GetOr([]));
      Config(NormalizeGames(c.games.GetOr([])), NormalizePaths(c.pathsToMonitor.GetOr([])))
  }

  /** `Load`: `stored` is `None` when reading or deserialising threw, otherwise
      the deserialised (possibly null) configuration. */
  function Load(stored: Option<Option<RawConfig>>): (r: Config)
    ensures stored.None? ==> r == Empty
    ensures stored.Some? ==> r == Normalize(stored.value)
  {
    match stored
    case None => Empty
    case Some(raw) => Normalize(raw)
  }

  /** A configuration seen as deserialiser output with nothing null. */
  function Lift(c: Config): RawConfig {
    RawConfig(
      Some(Map((e: Entry) => Some(RawEntry(Some(e.name), Some(e.path), Some(e.executablePath))), c.games)),
      Some(Map((p: string) => Some(p), c.pathsToMonitor)))
  }

  /** Normalising a configuration that has no nulls gives it back unchanged. */
  lemma NormalizeLift(c: Config)
    ensures Normalize(Some(Lift(c))) == c
  {
    var gs := Map((e: Entry) => Some(RawEntry(Some(e.name), Some(e.path), Some(e.executablePath))), c.games);
    FilterAllSome(gs);
    assert Map(EntryOrBlank, gs) == c.games;
  }

  /** Saving and loading again gives back the saved configuration (assuming the
      deserialiser hands back what was written, with nothing null); a failed
      read and a null document both load as the empty configuration. */
  lemma LoadRoundTrip(c: Config)
    ensures Load(Some(Some(Lift(c)))) == c
    ensures Load(None) == Empty && Load(Some(None)) == Empty
  {
    NormalizeLift(c);
  }

  lemma {:induction false} FilterAllSome(xs: seq<Option<RawEntry>>)
    requires forall i :: 0 <= i < |xs| ==> xs[i].Some?
    ensures Filter(Present, xs) == xs
  {
    if xs != [] {
      FilterAllSome(xs[1..]);
      assert xs == [xs[0]] + xs[1..];
    }
  }
}
