/** `PopulateGamesFromMonitoredPaths`: prune games whose folder vanished and
    discover new game folders under the monitored paths.

    The filesystem is an oracle passed in as a value. Reading and saving the
    file are outside the model: the function takes the loaded configuration
    and returns the new one together with the "changed" flag, which is also
    the decision to save. */
module Reconcile {

  import opened Wrappers
  import opened Seqs
  import opened Text
  import opened ConfigModel

  /** What the reconciliation asks of the filesystem and the path library. */
  datatype FileSystem = FileSystem(
    dirExists: string -> bool,                // Directory.Exists
    children: string -> Option<seq<string>>,  // Directory.GetDirectories; None when it throws
    fullPath: string -> string,               // Path.GetFullPath
    fileName: string -> string,               // Path.GetFileName
    separator: char,                          // Path.DirectorySeparatorChar
    altSeparator: char)                       // Path.AltDirectorySeparatorChar

  /** The outcome: the new configuration and whether anything was pruned or
      added, which is exactly when the configuration is saved. */
  datatype Reconciled = Reconciled(config: Config, changed: bool)

  /** A game survives pruning when its path is blank or names an existing
      directory, as stored or with '\' turned into the host separator. */
  predicate Survives(fs: FileSystem, g: Entry) {
    || IsBlank(g.path)
    || fs.dirExists(g.path)
    || fs.dirExists(Replace(g.path, '\\', fs.separator))
  }

  function Survivor(fs: FileSystem): Entry -> bool {
    g => Survives(fs, g)
  }

  /** The pruning loop as written: walk a snapshot of the games and call
      `Remove(g)` (drop the first equal entry) on the live list for every game
      that does not survive. Returns the live list and `removedAny`. */
  function PruneLoop(fs: FileSystem, live: seq<Entry>, snapshot: seq<Entry>, removedAny: bool): (r: (seq<Entry>, bool))
    ensures |r.0| <= |live|
    ensures removedAny ==> r.1
    ensures !r.1 ==> r.0 == live
    decreases |snapshot|
  {
    if snapshot == [] then (live, removedAny)
    else if Survives(fs, snapshot[0]) then PruneLoop(fs, live, snapshot[1..], removedAny)
    else
      RemoveFirstLength(live, snapshot[0]);
      PruneLoop(fs, RemoveFirst(live, snapshot[0]), snapshot[1..], true)
  }

  /** Some game in `games` has vanished. */
  predicate AnyVanished(fs: FileSystem, games: seq<Entry>) {
    exists i :: 0 <= i < |games| && !Survives(fs, games[i])
  }

  lemma AnyVanishedCons(fs: FileSystem, games: seq<Entry>)
    requires games != []
    ensures AnyVanished(fs, games) <==> !Survives(fs, games[0]) || AnyVanished(fs, games[1..])
  {
    if AnyVanished(fs, games) {
      var i :| 0 <= i < |games| && !Survives(fs, games[i]);
      if i > 0 {
        assert games[1..][i - 1] == games[i];
      }
    }
    if AnyVanished(fs, games[1..]) {
      var i :| 0 <= i < |games[1..]| && !Survives(fs, games[1..][i]);
      assert games[i + 1] == games[1..][i];
    }
  }

  /** Removing-while-walking equals filtering: entries are values, so every copy
      of a vanished game is removed by its own turn of the loop. */
  lemma {:induction false} PruneLoopFilters(fs: FileSystem, done: seq<Entry>, rest: seq<Entry>, removedAny: bool)
    ensures PruneLoop(fs, Filter(Survivor(fs), done) + rest, rest, removedAny)
            == (Filter(Survivor(fs), done + rest), removedAny || AnyVanished(fs, rest))
    decreases |rest|
  {
    if rest == [] {
      assert done + rest == done;
      assert Filter(Survivor(fs), done) + rest == Filter(Survivor(fs), done);
    } else {
      var g := rest[0];
      AnyVanishedCons(fs, rest);
      assert done + rest == (done + [g]) + rest[1..];
      if Survives(fs, g) {
        PruneTurnKeeps(fs, done, rest, removedAny);
        PruneLoopFilters(fs, done + [g], rest[1..], removedAny);
      } else {
        PruneTurnRemoves(fs, done, rest, removedAny);
        PruneLoopFilters(fs, done + [g], rest[1..], true);
      }
    }
  }

  /** A surviving game's turn leaves the live list alone. */
  lemma PruneTurnKeeps(fs: FileSystem, done: seq<Entry>, rest: seq<Entry>, removedAny: bool)
    requires rest != [] && Survives(fs, rest[0])
    ensures PruneLoop(fs, Filter(Survivor(fs), done) + rest, rest, removedAny)
            == PruneLoop(fs, Filter(Survivor(fs), done + [rest[0]]) + rest[1..], rest[1..], removedAny)
  {
    var S := Survivor(fs);
    FilterAppend(S, done, [rest[0]]);
    assert Filter(S, [rest[0]]) == [rest[0]];
    assert Filter(S, done) + rest == Filter(S, done + [rest[0]]) + rest[1..];
  }

  /** A vanished game's turn removes its copy, which sits right after the
      survivors so far, and raises the flag. */
  lemma PruneTurnRemoves(fs: FileSystem, done: seq<Entry>, rest: seq<Entry>, removedAny: bool)
    requires rest != [] && !Survives(fs, rest[0])
    ensures PruneLoop(fs, Filter(Survivor(fs), done) + rest, rest, removedAny)
            == PruneLoop(fs, Filter(Survivor(fs), done + [rest[0]]) + rest[1..], rest[1..], true)
  {
    var S := Survivor(fs);
    var kept := Filter(S, done);
    var g := rest[0];
    FilterAppend(S, done, [g]);
    assert Filter(S, [g]) == [];
    FilterMembers(S, done, g);
    assert Filter(S, done + [g]) == kept;
    assert kept + rest == kept + [g] + rest[1..];
    RemoveFirstAfter(kept, g, rest[1..]);
    assert PruneLoop(fs, kept + rest, rest, removedAny) == PruneLoop(fs, RemoveFirst(kept + rest, g), rest[1..], true);
  }

  /** The base name of a child directory: trailing separators trimmed, then `GetFileName`. */
  function ChildName(fs: FileSystem, dir: string): string {
    fs.fileName(TrimEndChars(dir, fs.separator, fs.altSeparator))
  }

  /** The entry recorded for a discovered folder: its full path with '/' turned into '\'. */
  function Discovered(fs: FileSystem, dir: string): Entry {
    Entry(ChildName(fs, dir), Replace(fs.fullPath(dir), '/', '\\'), "")
  }

  /** The state carried through discovery: the live game list, the case-folded
      known names and the `added` flag. */
  datatype Scan = Scan(games: seq<Entry>, known: set<string>, added: bool)

  /** The inner loop over one monitored directory's children. */
  function ScanChildren(fs: FileSystem, dirs: seq<string>, s: Scan): (r: Scan)
    ensures |r.games| >= |s.games| && r.games[..|s.games|] == s.games
    ensures s.known <= r.known
    ensures r.added <==> s.added || |r.games| > |s.games|
  {
    if dirs == [] then s
    else
      var name := ChildName(fs, dirs[0]);
      if IsBlank(name) || Fold(name) in s.known then ScanChildren(fs, dirs[1..], s)
      else ScanChildren(fs, dirs[1..], Scan(s.games + [Discovered(fs, dirs[0])], s.known + {Fold(name)}, true))
  }

  /** The outer loop over monitored paths: blank and missing paths are skipped,
      and so is a path whose listing throws. */
  function ScanRoots(fs: FileSystem, roots: seq<string>, s: Scan): (r: Scan)
    ensures |r.games| >= |s.games| && r.games[..|s.games|] == s.games
    ensures s.known <= r.known
    ensures r.added <==> s.added || |r.games| > |s.games|
  {
    if roots == [] then s
    else
      var root := roots[0];
      var next :=
        if IsBlank(root) || !fs.dirExists(root) then s
        else match fs.children(root)
             case None => s
             case Some(dirs) => ScanChildren(fs, dirs, s);
      ScanRoots(fs, roots[1..], next)
  }

  /** The case-folded names of a game list. */
  function KnownNames(games: seq<Entry>): set<string> {
    set g | g in games :: Fold(g.name)
  }

  /** `PopulateGamesFromMonitoredPaths` on an already loaded configuration. The
      known-name set is taken from the list BEFORE pruning. */
  function PopulateGamesFromMonitoredPaths(fs: FileSystem, c: Config): (r: Reconciled)
    ensures r.config.pathsToMonitor == c.pathsToMonitor
    ensures !r.changed ==> r.config == c
  {
    var known := KnownNames(c.games);
    var pruned := PruneLoop(fs, c.games, c.games, false);
    var scan := ScanRoots(fs, c.pathsToMonitor, Scan(pruned.0, known, false));
    Reconciled(Config(scan.games, c.pathsToMonitor), scan.added || pruned.1)
  }

  // ---------------------------------------------------------------------------
  // Reference definitions: what discovery finds, with no running state.

  /** The children a monitored path contributes: none when it is blank, missing
      or unreadable. */
  function Listing(fs: FileSystem, root: string): seq<string> {
    if IsBlank(root) || !fs.dirExists(root) then [] else fs.children(root).GetOr([])
  }

  /** All children of all monitored paths, in monitored-path order, then listing order. */
  function Candidates(fs: FileSystem, roots: seq<string>): seq<string> {
    if roots == [] then [] else Listing(fs, roots[0]) + Candidates(fs, roots[1..])
  }

  // The three closures below spell `ChildName` out, because closures that
  // call it directly are costly for the verifier; `ClosuresAgree` ties them
  // back to `ChildName` and `Discovered`.

  function Named(fs: FileSystem): string -> bool {
    dir => !IsBlank(fs.fileName(TrimEndChars(dir, fs.separator, fs.altSeparator)))
  }

  function NameKey(fs: FileSystem): string -> string {
    dir => Fold(fs.fileName(TrimEndChars(dir, fs.separator, fs.altSeparator)))
  }

  function DiscoveredBy(fs: FileSystem): string -> Entry {
    dir => Entry(fs.fileName(TrimEndChars(dir, fs.separator, fs.altSeparator)), Replace(fs.fullPath(dir), '/', '\\'), "")
  }

  /** The closures agree with `ChildName` and `Discovered` on every folder. */
  lemma ClosuresAgree(fs: FileSystem, dir: string)
    ensures Named(fs)(dir) <==> !IsBlank(ChildName(fs, dir))
    ensures NameKey(fs)(dir) == Fold(ChildName(fs, dir))
    ensures DiscoveredBy(fs)(dir) == Discovered(fs, dir)
  {
  }

  /** The folders discovery keeps: the named candidates whose folded name is
      neither known beforehand nor taken by an earlier candidate. */
  function Fresh(fs: FileSystem, roots: seq<string>, known: set<string>): seq<string> {
    KeptChildren(fs, Candidates(fs, roots), known)
  }

  /** The entries discovery appends. */
  function Discoveries(fs: FileSystem, roots: seq<string>, known: set<string>): seq<Entry> {
    Map(DiscoveredBy(fs), Fresh(fs, roots, known))
  }

  // ---------------------------------------------------------------------------
  // The loops against the reference.

  lemma {:induction false} ScanChildrenAppend(fs: FileSystem, a: seq<string>, b: seq<string>, s: Scan)
    ensures ScanChildren(fs, a + b, s) == ScanChildren(fs, b, ScanChildren(fs, a, s))
    decreases |a|
  {
    if a == [] {
      assert a + b == b;
    } else {
      assert (a + b)[0] == a[0] && (a + b)[1..] == a[1..] + b;
      var name := ChildName(fs, a[0]);
      if IsBlank(name) || Fold(name) in s.known {
        ScanChildrenAppend(fs, a[1..], b, s);
      } else {
        ScanChildrenAppend(fs, a[1..], b, Scan(s.games + [Discovered(fs, a[0])], s.known + {Fold(name)}, true));
      }
    }
  }

  /** The nested loops are one loop over the flattened candidate list. */
  lemma {:induction false} ScanRootsFlat(fs: FileSystem, roots: seq<string>, s: Scan)
    ensures ScanRoots(fs, roots, s) == ScanChildren(fs, Candidates(fs, roots), s)
    decreases |roots|
  {
    if roots != [] {
      var root := roots[0];
      var next := ScanChildren(fs, Listing(fs, root), s);
      assert ScanChildren(fs, [], s) == s;
      ScanRootsFlat(fs, roots[1..], next);
      ScanChildrenAppend(fs, Listing(fs, root), Candidates(fs, roots[1..]), s);
    }
  }

  /** The children the inner loop keeps, by the reference definition. */
  function KeptChildren(fs: FileSystem, dirs: seq<string>, known: set<string>): seq<string> {
    Keep(Filter(Named(fs), dirs), NameKey(fs), known)
  }

  /** One step of the reference: how the first child decides what is kept. */
  lemma KeptChildrenStep(fs: FileSystem, dirs: seq<string>, known: set<string>)
    requires dirs != []
    ensures var name := ChildName(fs, dirs[0]);
            KeptChildren(fs, dirs, known) ==
              if IsBlank(name) || Fold(name) in known then KeptChildren(fs, dirs[1..], known)
              else [dirs[0]] + KeptChildren(fs, dirs[1..], known + {Fold(name)})
  {
    var d := dirs[0];
    var name := ChildName(fs, d);
    assert NameKey(fs)(d) == Fold(name);
    assert Named(fs)(d) == !IsBlank(name);
    assert dirs == [d] + dirs[1..];
    FilterAppend(Named(fs), [d], dirs[1..]);
    var rest := Filter(Named(fs), dirs[1..]);
    if !IsBlank(name) {
      assert Filter(Named(fs), dirs) == [d] + rest;
      assert ([d] + rest)[0] == d && ([d] + rest)[1..] == rest;
      if Fold(name) in known {
        assert Keep([d] + rest, NameKey(fs), known) == Keep(rest, NameKey(fs), known);
      } else {
        assert Keep([d] + rest, NameKey(fs), known) == [d] + Keep(rest, NameKey(fs), known + {Fold(name)});
      }
    } else {
      assert Filter(Named(fs), dirs) == rest;
    }
  }

  /** The inner loop appends exactly the kept children, and raises the flag
      exactly when it appends something. */
  lemma {:induction false} ScanChildrenKeeps(fs: FileSystem, dirs: seq<string>, games: seq<Entry>, known: set<string>, added: bool)
    ensures ScanChildren(fs, dirs, Scan(games, known, added)).games == games + Map(DiscoveredBy(fs), KeptChildren(fs, dirs, known))
    ensures ScanChildren(fs, dirs, Scan(games, known, added)).added == (added || KeptChildren(fs, dirs, known) != [])
    decreases |dirs|
  {
    if dirs != [] {
      var d := dirs[0];
      var name := ChildName(fs, d);
      ScanTurn(fs, dirs, Scan(games, known, added));
      KeptChildrenStep(fs, dirs, known);
      if IsBlank(name) || Fold(name) in known {
        ScanChildrenKeeps(fs, dirs[1..], games, known, added);
      } else {
        var known' := known + {Fold(name)};
        ScanChildrenKeeps(fs, dirs[1..], games + [Discovered(fs, d)], known', true);
        assert DiscoveredBy(fs)(d) == Discovered(fs, d);
        MapAfterCons(DiscoveredBy(fs), games, d, KeptChildren(fs, dirs[1..], known'));
      }
    }
  }

  /** One turn of the inner loop. */
  lemma ScanTurn(fs: FileSystem, dirs: seq<string>, s: Scan)
    requires dirs != []
    ensures var name := ChildName(fs, dirs[0]);
            ScanChildren(fs, dirs, s) ==
              if IsBlank(name) || Fold(name) in s.known then ScanChildren(fs, dirs[1..], s)
              else ScanChildren(fs, dirs[1..], Scan(s.games + [Discovered(fs, dirs[0])], s.known + {Fold(name)}, true))
  {
  }

  /** The whole reconciliation, stated against the reference: survivors of
      pruning in their original order, followed by the discoveries; monitored
      paths untouched; changed exactly when something was pruned or added. */
  lemma PopulateShape(fs: FileSystem, c: Config)
    ensures var r := PopulateGamesFromMonitoredPaths(fs, c);
            var survivors := Filter(Survivor(fs), c.games);
            var found := Discoveries(fs, c.pathsToMonitor, KnownNames(c.games));
            && r.config.games == survivors + found
            && r.config.pathsToMonitor == c.pathsToMonitor
            && (r.changed <==> |survivors| < |c.games| || found != [])
  {
    var S := Survivor(fs);
    PruneLoopFilters(fs, [], c.games, false);
    assert Filter(S, []) + c.games == c.games;
    assert [] + c.games == c.games;
    var pruned := PruneLoop(fs, c.games, c.games, false);
    var known := KnownNames(c.games);
    ScanRootsFlat(fs, c.pathsToMonitor, Scan(pruned.0, known, false));
    ScanChildrenKeeps(fs, Candidates(fs, c.pathsToMonitor), pruned.0, known, false);
    FilterShrinks(S, c.games);
  }

  /** The flag is exactly "the configuration differs from the loaded one", so
      the store saves exactly when there is something new to save. */
  lemma ChangedIffDifferent(fs: FileSystem, c: Config)
    ensures var r := PopulateGamesFromMonitoredPaths(fs, c);
            r.changed <==> r.config != c
  {
    PopulateShape(fs, c);
    var r := PopulateGamesFromMonitoredPaths(fs, c);
    var S := Survivor(fs);
    var survivors := Filter(S, c.games);
    var known := KnownNames(c.games);
    var kept := Fresh(fs, c.pathsToMonitor, known);
    var found := Discoveries(fs, c.pathsToMonitor, known);
    FilterShrinks(S, c.games);
    if found != [] {
      KeepSound(Filter(Named(fs), Candidates(fs, c.pathsToMonitor)), NameKey(fs), known);
      var last := |found| - 1;
      assert NameKey(fs)(kept[last]) !in known;
      var e := found[last];
      assert e == Discovered(fs, kept[last]);
      assert Fold(e.name) !in known;
      assert r.config.games[|r.config.games| - 1] == e;
      forall g | g in c.games
        ensures Fold(g.name) in known
      {
      }
      assert e !in c.games;
      assert e in r.config.games;
      assert r.config.games != c.games;
    }
  }

  /** The folders discovery keeps are named, unknown beforehand, listed under
      a monitored path, and pairwise different up to case. */
  lemma FreshFacts(fs: FileSystem, roots: seq<string>, known: set<string>)
    ensures var kept := Fresh(fs, roots, known);
            forall k :: 0 <= k < |kept| ==>
              && kept[k] in Candidates(fs, roots)
              && !IsBlank(ChildName(fs, kept[k]))
              && Fold(ChildName(fs, kept[k])) !in known
    ensures DistinctKeys(Fresh(fs, roots, known), NameKey(fs))
  {
    var cands := Candidates(fs, roots);
    var named := Filter(Named(fs), cands);
    var kept := Fresh(fs, roots, known);
    KeepSound(named, NameKey(fs), known);
    KeepDistinct(named, NameKey(fs), known);
    forall k | 0 <= k < |kept|
      ensures kept[k] in cands && !IsBlank(ChildName(fs, kept[k])) && Fold(ChildName(fs, kept[k])) !in known
    {
      var j :| 0 <= j < |named| && named[j] == kept[k];
      FilterMembers(Named(fs), cands, kept[k]);
      assert Named(fs)(kept[k]);
      assert NameKey(fs)(kept[k]) !in known;
    }
  }

  /** What every discovered entry satisfies: empty executable, non-blank name,
      a name unknown before pruning (so a pruned game is not rediscovered in the
      same pass), a name unlike any other discovery, and a path that is the
      '\'-normalised full path of a listed child of a monitored path. */
  lemma DiscoveriesFacts(fs: FileSystem, roots: seq<string>, known: set<string>)
    ensures var found := Discoveries(fs, roots, known);
            && (forall k :: 0 <= k < |found| ==>
                  && found[k].executablePath == ""
                  && !IsBlank(found[k].name)
                  && Fold(found[k].name) !in known
                  && exists d :: d in Candidates(fs, roots) && found[k] == Discovered(fs, d))
            && (forall k, l :: 0 <= k < l < |found| ==> !EqIC(found[k].name, found[l].name))
  {
    var kept := Fresh(fs, roots, known);
    var found := Discoveries(fs, roots, known);
    FreshFacts(fs, roots, known);
    forall k | 0 <= k < |found|
      ensures found[k] == Discovered(fs, kept[k])
    {
    }
    forall k, l | 0 <= k < l < |found|
      ensures !EqIC(found[k].name, found[l].name)
    {
      assert NameKey(fs)(kept[k]) != NameKey(fs)(kept[l]);
    }
  }

  /** The known names are taken before pruning, so a game pruned in this pass
      is not rediscovered in the same pass: the only entries left with its name
      (ignoring case) are surviving entries of the original list. */
  lemma PrunedNameBlocksRediscovery(fs: FileSystem, c: Config, i: nat)
    requires i < |c.games| && !Survives(fs, c.games[i])
    ensures var r := PopulateGamesFromMonitoredPaths(fs, c);
            forall e :: e in r.config.games && EqIC(e.name, c.games[i].name) ==> e in c.games && Survives(fs, e)
  {
    var known := KnownNames(c.games);
    var survivors := Filter(Survivor(fs), c.games);
    var found := Discoveries(fs, c.pathsToMonitor, known);
    PopulateShape(fs, c);
    DiscoveriesFacts(fs, c.pathsToMonitor, known);
    assert Fold(c.games[i].name) in known;
    AppendedNamesAvoid(survivors, found, known, c.games[i].name);
    forall e | e in survivors
      ensures e in c.games && Survives(fs, e)
    {
      FilterMembers(Survivor(fs), c.games, e);
    }
  }

  /** Entries appended with unknown names never match a known name. */
  lemma AppendedNamesAvoid(survivors: seq<Entry>, found: seq<Entry>, known: set<string>, n: string)
    requires Fold(n) in known
    requires forall k :: 0 <= k < |found| ==> Fold(found[k].name) !in known
    ensures forall e :: e in survivors + found && EqIC(e.name, n) ==> e in survivors
  {
  }

  /** Every named child of a readable monitored path is accounted for: its
      folded name was known before, or some discovery carries it. */
  lemma DiscoveriesComplete(fs: FileSystem, roots: seq<string>, known: set<string>, i: nat)
    requires i < |Candidates(fs, roots)| && !IsBlank(ChildName(fs, Candidates(fs, roots)[i]))
    ensures var name := ChildName(fs, Candidates(fs, roots)[i]);
            Fold(name) in known || exists e :: e in Discoveries(fs, roots, known) && EqIC(e.name, name)
  {
    var cands := Candidates(fs, roots);
    var named := Filter(Named(fs), cands);
    var kept := Fresh(fs, roots, known);
    KeepComplete(named, NameKey(fs), known);
    assert Named(fs)(cands[i]);
    FilterMembers(Named(fs), cands, cands[i]);
    assert cands[i] in named;
    var j :| 0 <= j < |named| && named[j] == cands[i];
    if Fold(ChildName(fs, cands[i])) !in known {
      assert NameKey(fs)(named[j]) !in known;
      var k :| 0 <= k < |kept| && NameKey(fs)(kept[k]) == NameKey(fs)(named[j]);
      var e := Discoveries(fs, roots, known)[k];
      assert e == Discovered(fs, kept[k]);
      assert EqIC(e.name, ChildName(fs, cands[i]));
    }
  }

  lemma {:induction false} CandidatesAppend(fs: FileSystem, a: seq<string>, b: seq<string>)
    ensures Candidates(fs, a + b) == Candidates(fs, a) + Candidates(fs, b)
    decreases |a|
  {
    if a == [] {
      assert a + b == b;
    } else {
      assert (a + b)[0] == a[0] && (a + b)[1..] == a[1..] + b;
      CandidatesAppend(fs, a[1..], b);
    }
  }

  /** A blank, missing or unreadable monitored path lists no candidates. */
  lemma {:induction false} SkippedRootNoCandidates(fs: FileSystem, before: seq<string>, root: string, after: seq<string>)
    requires IsBlank(root) || !fs.dirExists(root) || fs.children(root).None?
    ensures Candidates(fs, before + [root] + after) == Candidates(fs, before + after)
    decreases |before|
  {
    if before == [] {
      CandidatesCons(fs, root, after, before + [root] + after);
      assert before + after == after;
    } else {
      var rest := before[1..];
      SkippedRootNoCandidates(fs, rest, root, after);
      assert before + [root] + after == [before[0]] + (rest + [root] + after);
      assert before + after == [before[0]] + (rest + after);
      CandidatesCons(fs, before[0], rest + [root] + after, before + [root] + after);
      CandidatesCons(fs, before[0], rest + after, before + after);
    }
  }

  /** One unfolding of `Candidates`. */
  lemma CandidatesCons(fs: FileSystem, x: string, rest: seq<string>, whole: seq<string>)
    requires whole == [x] + rest
    ensures Candidates(fs, whole) == Listing(fs, x) + Candidates(fs, rest)
  {
    assert whole[0] == x && whole[1..] == rest;
  }

  /** A blank, missing or unreadable monitored path contributes nothing: the
      reconciliation is as if it were not listed. */
  lemma SkippedRootAddsNothing(fs: FileSystem, before: seq<string>, root: string, after: seq<string>, known: set<string>)
    requires IsBlank(root) || !fs.dirExists(root) || fs.children(root).None?
    ensures Discoveries(fs, before + [root] + after, known) == Discoveries(fs, before + after, known)
  {
    SkippedRootNoCandidates(fs, before, root, after);
  }
}
