/** The Paths-to-monitor screen, one menu step at a time: the options it shows,
    what a selection leads to, the delete step and the add step. Prompts are
    inputs (`None` when the user cancels), and the `saved` flags and `Added`
    outcomes say when the configuration is written. */
module PathsScreen {

  import opened Wrappers
  import opened Seqs
  import opened Text
  import opened PathValidator

  const AddOption := "Add new path"
  const BackOption := "Back"

  /** The values the validator refuses because the menu uses them. */
  const MenuLabels: seq<string> := [AddOption, BackOption]

  /** The menu: the monitored paths in order, then the two fixed options. */
  function PathOptions(paths: seq<string>): (r: seq<string>)
    ensures |r| == |paths| + 2 && r[..|paths|] == paths
    ensures r[|paths|] == AddOption && r[|paths| + 1] == BackOption
  {
    paths + MenuLabels
  }

  /** Where a selection leads. */
  datatype Action = Leave | AskNewPath | AskDelete(target: string)

  /** Cancel and "Back" leave, "Add new path" asks for a path, anything else
      asks to delete that string. Selections are compared exactly. */
  function Choose(selected: Option<string>): (a: Action)
    ensures a == Leave <==> selected.None? || selected.value == BackOption
    ensures a == AskNewPath <==> selected == Some(AddOption)
    ensures a.AskDelete? ==> selected == Some(a.target)
  {
    match selected
    case None => Leave
    case Some(s) =>
      if s == BackOption then Leave
      else if s == AddOption then AskNewPath
      else AskDelete(s)
  }

  /** The list after a delete step and whether it was saved. */
  datatype Deleted = Deleted(paths: seq<string>, saved: bool)

  /** The delete step: `confirm` is the answer to "Delete '...'?" (`None` when
      cancelled). A confirmed delete removes the first occurrence of the
      target and saves when something was removed. */
  function DeleteStep(paths: seq<string>, target: string, confirm: Option<bool>): (r: Deleted)
    ensures confirm != Some(true) ==> r == Deleted(paths, false)
    ensures confirm == Some(true) ==> (r.saved <==> target in paths)
    ensures confirm == Some(true) && target !in paths ==> r.paths == paths
  {
    if confirm != Some(true) then Deleted(paths, false)
    else
      var after := RemoveFirst(paths, target);
      RemoveFirstLength(paths, target);
      Deleted(after, |after| < |paths|)
  }

  /** A confirmed delete takes exactly one copy of the target out of the list. */
  lemma DeleteRemovesOneCopy(paths: seq<string>, target: string)
    requires target in paths
    ensures var i := IndexOf(paths, target);
            DeleteStep(paths, target, Some(true)).paths == paths[..i] + paths[i + 1..]
    ensures multiset(DeleteStep(paths, target, Some(true)).paths) == multiset(paths) - multiset{target}
    ensures |DeleteStep(paths, target, Some(true)).paths| == |paths| - 1
  {
    RemoveFirstSplices(paths, target);
    RemoveFirstMultiset(paths, target);
  }

  /** Selecting a listed path that is not spelled like a menu option asks to
      delete it, and confirming removes it and saves. */
  lemma SelectedPathIsDeleted(paths: seq<string>, i: nat)
    requires i < |paths| && paths[i] != AddOption && paths[i] != BackOption
    ensures Choose(Some(PathOptions(paths)[i])) == AskDelete(paths[i])
    ensures DeleteStep(paths, paths[i], Some(true)).saved
  {
    assert PathOptions(paths)[i] == paths[i];
  }

  /** The outcome of one add-path prompt. */
  datatype Added = Cancelled | Invalid(error: string) | Appended(paths: seq<string>)

  /** The add step: `input` is the prompt's answer (`None` when cancelled,
      read as ""). The answer is trimmed; blank or "Back" (ignoring case)
      cancels; a path the validator rejects leaves the list as it is and
      reports the error; an accepted path is appended and saved. */
  function AddStep(paths: seq<string>, input: Option<string>): (r: Added)
    ensures var p := Trim(input.GetOr(""));
            r.Cancelled? <==> IsBlank(p) || EqIC(p, BackOption)
    ensures !r.Cancelled? ==> (r.Appended? <==> IsValidWindowsPath(Trim(input.GetOr("")), MenuLabels) == Accepted)
    ensures r.Invalid? ==> r.error != "" && IsValidWindowsPath(Trim(input.GetOr("")), MenuLabels) == Rejected(r.error)
    ensures r.Appended? ==> var p := Trim(input.GetOr(""));
              && |r.paths| == |paths| + 1 && r.paths[..|paths|] == paths && r.paths[|paths|] == p
              && IsValidWindowsPath(p, MenuLabels) == Accepted && !MatchesReserved(p, MenuLabels)
  {
    var p := Trim(input.GetOr(""));
    if IsBlank(p) || EqIC(p, BackOption) then Cancelled
    else match IsValidWindowsPath(p, MenuLabels)
         case Rejected(e) => Invalid(e)
         case Accepted => Appended(paths + [p])
  }

  /** An appended path is never blank, never a menu label (ignoring case), and
      carries no surrounding whitespace; so the menu always offers it for deletion. */
  lemma AppendedPathIsDeletable(paths: seq<string>, input: Option<string>, after: seq<string>)
    requires AddStep(paths, input) == Appended(after)
    ensures var p := after[|paths|];
            && !IsBlank(p) && !IsWhite(p[0]) && !IsWhite(p[|p| - 1])
            && !EqIC(p, AddOption) && !EqIC(p, BackOption)
            && Choose(Some(PathOptions(after)[|paths|])) == AskDelete(p)
  {
    AnswerDeletable(paths, after, input.GetOr(""));
  }

  /** The facts behind `AppendedPathIsDeletable`, for an appended answer `s`. */
  lemma AnswerDeletable(paths: seq<string>, after: seq<string>, s: string)
    requires |after| == |paths| + 1 && after[|paths|] == Trim(s)
    requires !IsBlank(Trim(s)) && !MatchesReserved(Trim(s), MenuLabels)
    ensures var p := after[|paths|];
            && !IsWhite(p[0]) && !IsWhite(p[|p| - 1])
            && !EqIC(p, AddOption) && !EqIC(p, BackOption)
            && Choose(Some(PathOptions(after)[|paths|])) == AskDelete(p)
  {
    NotMenuLabel(Trim(s));
    TrimEnds(s);
    assert PathOptions(after)[|paths|] == after[|paths|];
  }

  /** A value that matches no menu label, ignoring case, is spelled like neither. */
  lemma NotMenuLabel(p: string)
    requires !MatchesReserved(p, MenuLabels)
    ensures !EqIC(p, AddOption) && !EqIC(p, BackOption)
    ensures p != AddOption && p != BackOption
  {
    assert AddOption in MenuLabels && BackOption in MenuLabels;
  }

  /** Adding and then deleting the added path gives back the same paths, up to
      order when the path was listed already. */
  lemma AddThenDelete(paths: seq<string>, input: Option<string>, after: seq<string>)
    requires AddStep(paths, input) == Appended(after)
    ensures var back := DeleteStep(after, after[|paths|], Some(true));
            && back.saved
            && multiset(back.paths) == multiset(paths)
            && (after[|paths|] !in paths ==> back.paths == paths)
  {
    assert after == paths + [after[|paths|]];
    DeleteLast(paths, after[|paths|]);
  }

  /** Deleting a path just appended to `paths`. */
  lemma DeleteLast(paths: seq<string>, p: string)
    ensures var back := DeleteStep(paths + [p], p, Some(true));
            && back.saved
            && multiset(back.paths) == multiset(paths)
            && (p !in paths ==> back.paths == paths)
  {
    var after := paths + [p];
    assert p in after;
    RemoveFirstMultiset(after, p);
    assert multiset(after) == multiset(paths) + multiset{p};
    if p !in paths {
      RemoveFirstAfter(paths, p, []);
      assert paths + [p] + [] == after;
    }
  }
}
