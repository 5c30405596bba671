/** The Games screen: the menu it builds from the configuration and the rule
    that leaves it. The screen only reads the configuration; selecting a game
    keeps the screen open and changes nothing. */
module GamesScreen {

  import opened Wrappers
  import opened Seqs
  import opened Text
  import opened ConfigModel

  const BackOption := "Back"

  predicate HasText(n: string) {
    !IsBlank(n)
  }

  function EntryName(g: Entry): string {
    g.name
  }

  /** The game names worth showing: non-blank ones, in list order. */
  function ShownNames(games: seq<Entry>): seq<string> {
    Filter(HasText, Map(EntryName, games))
  }

  /** The menu: distinct (ignoring case) non-blank game names, each under the
      spelling that occurs first, then "Back". */
  function GameOptions(c: Config): (r: seq<string>)
    ensures |r| >= 1 && r[|r| - 1] == BackOption
  {
    Keep(ShownNames(c.games), Fold, {}) + [BackOption]
  }

  /** The screen is left when the prompt is cancelled or the selected option
      is spelled exactly "Back"; the comparison is ordinal and case-sensitive. */
  predicate Exits(selected: Option<string>) {
    selected.None? || selected.value == BackOption
  }

  lemma ShownNamesMembers(games: seq<Entry>, n: string)
    ensures n in ShownNames(games) <==> !IsBlank(n) && exists i :: 0 <= i < |games| && games[i].name == n
  {
    FilterMembers(HasText, Map(EntryName, games), n);
    if n in Map(EntryName, games) {
      var i :| 0 <= i < |games| && Map(EntryName, games)[i] == n;
    }
  }

  /** Every option before "Back" is the non-blank name of some game, and no two
      of them are equal ignoring case. */
  lemma OptionsAreDistinctGameNames(c: Config)
    ensures var r := GameOptions(c);
            && (forall k :: 0 <= k < |r| - 1 ==> !IsBlank(r[k]) && exists i :: 0 <= i < |c.games| && c.games[i].name == r[k])
            && (forall k, l :: 0 <= k < l < |r| - 1 ==> !EqIC(r[k], r[l]))
  {
    var names := ShownNames(c.games);
    var kept := Keep(names, Fold, {});
    var r := GameOptions(c);
    KeepSound(names, Fold, {});
    KeepDistinct(names, Fold, {});
    forall k | 0 <= k < |r| - 1
      ensures !IsBlank(r[k]) && exists i :: 0 <= i < |c.games| && c.games[i].name == r[k]
    {
      assert r[k] == kept[k];
      var j :| 0 <= j < |names| && names[j] == kept[k];
      ShownNamesMembers(c.games, r[k]);
    }
    forall k, l | 0 <= k < l < |r| - 1
      ensures !EqIC(r[k], r[l])
    {
      assert r[k] == kept[k] && r[l] == kept[l];
    }
  }

  /** Every non-blank game name is represented, ignoring case, by an option
      before "Back". */
  lemma EveryGameRepresented(c: Config, i: nat)
    requires i < |c.games| && !IsBlank(c.games[i].name)
    ensures var r := GameOptions(c);
            exists k :: 0 <= k < |r| - 1 && EqIC(r[k], c.games[i].name)
  {
    var names := ShownNames(c.games);
    var kept := Keep(names, Fold, {});
    var r := GameOptions(c);
    ShownNamesMembers(c.games, c.games[i].name);
    var j :| 0 <= j < |names| && names[j] == c.games[i].name;
    KeepComplete(names, Fold, {});
    var k :| 0 <= k < |kept| && Fold(kept[k]) == Fold(names[j]);
    assert r[k] == kept[k];
  }

  /** The options before "Back" are exactly the names that no earlier shown name
      matches ignoring case, in their original order. */
  lemma OptionsAreFirstOccurrences(c: Config)
    ensures GameOptions(c) == Firsts(ShownNames(c.games), Fold, {}, 0) + [BackOption]
  {
    KeepIsFirsts(ShownNames(c.games), Fold, {});
  }

  /** The last option always leaves the screen, and so does cancelling. */
  lemma BackLeaves(c: Config)
    ensures var r := GameOptions(c);
            Exits(Some(r[|r| - 1])) && Exits(None)
  {
  }
}
