/** `WindowsPathValidator`: purely syntactic validation of a monitored path.

    The input is checked against an ordered list of rejection rules; the first
    rule that fires decides the message. An accepted input has one of three
    forms (UNC `\\server\share\...`, drive-absolute `X:\...`, rooted `\...`),
    and every backslash-separated segment after the form's prefix must obey
    the segment grammar of `IsValidWindowsPathSegment`. */
module PathValidator {

  import opened Wrappers
  import opened Seqs
  import opened Text

  /** The `bool` result together with the `out string error`: `Accepted` carries
      the empty error string. */
  datatype Verdict = Accepted | Rejected(message: string) {

    /** The value of the `error` out-parameter. */
    function Error(): string {
      if Accepted? then "" else message
    }
  }

  const PathRequired := "Path is required."
  const ReservedForMenu := "That value is reserved for the menu; choose a different path."
  const SlashSeparator := "Invalid Windows path: use \\\\ as the separator (not /)."
  const ControlCharacters := "Invalid Windows path: contains control characters."
  const UncForm := "Invalid UNC path: expected \\\\server\\share\\..."
  const RootWithoutFolder := "Invalid Windows path: path root must be followed by a folder name."
  const UnknownForm := "Invalid Windows path: must start with a drive (e.g. C:\\Games\\...) or UNC (e.g. \\\\server\\share\\...)."
  const EmptySegment := "Invalid Windows path: contains an empty path segment (double \\\\)."
  const TrailingSpaceOrDot := "Invalid Windows path: folder/file names cannot end with a space or dot."
  const MisplacedColon := "Invalid Windows path: ':' is only allowed after the drive letter (e.g. C:\\...)."

  /** The device names Windows reserves, whatever the extension. */
  const DeviceNames: set<string> := {
    "CON", "PRN", "AUX", "NUL",
    "COM1", "COM2", "COM3", "COM4", "COM5", "COM6", "COM7", "COM8", "COM9",
    "LPT1", "LPT2", "LPT3", "LPT4", "LPT5", "LPT6", "LPT7", "LPT8", "LPT9"
  }

  function ReservedNameMessage(baseName: string): string {
    "Invalid Windows path: '" + baseName + "' is a reserved name."
  }

  function InvalidCharacterMessage(c: char): string {
    "Invalid Windows path: contains invalid character '" + [c] + "'."
  }

  /** Characters a segment may never contain, each with its own message. */
  predicate IsInvalidChar(c: char) {
    c == '<' || c == '>' || c == '"' || c == '|' || c == '?' || c == '*'
  }

  /** Characters the segment scan stops at: the invalid ones and ':'. */
  predicate IsBadChar(c: char) {
    IsInvalidChar(c) || c == ':'
  }

  /** The position of the first character the scan stops at, if any. */
  function FirstBadIndex(s: string): (r: Option<nat>)
    ensures r.None? <==> forall i :: 0 <= i < |s| ==> !IsBadChar(s[i])
    ensures r.Some? ==> r.value < |s| && IsBadChar(s[r.value]) && forall j :: 0 <= j < r.value ==> !IsBadChar(s[j])
  {
    if s == [] then None
    else if IsBadChar(s[0]) then Some(0)
    else match FirstBadIndex(s[1..])
         case None => None
         case Some(i) => Some(i + 1)
  }

  /** `segment.Split('.', 2)[0]`: the segment up to its first dot. */
  function BaseName(seg: string): string {
    Split(seg, '.')[0]
  }

  /** The base name is the longest dot-free prefix of the segment. */
  lemma BaseNameIsDotFreePrefix(seg: string)
    ensures var b := BaseName(seg);
            && |b| <= |seg| && seg[..|b|] == b && '.' !in b
            && (|b| == |seg| || seg[|b|] == '.')
  {
    var i := Find(seg, '.');
    FindFacts(seg, '.');
    if i < |seg| {
      assert Split(seg, '.')[0] == seg[..i];
    }
  }

  /** The segment grammar, stated rule by rule. */
  predicate ValidSegment(seg: string) {
    && |seg| > 0
    && seg[|seg| - 1] != ' ' && seg[|seg| - 1] != '.'
    && Fold(BaseName(seg)) !in DeviceNames
    && NoBadChar(seg)
  }

  /** No character the segment scan stops at. */
  predicate NoBadChar(seg: string) {
    forall i :: 0 <= i < |seg| ==> !IsBadChar(seg[i])
  }

  /** `IsValidWindowsPathSegment`: the first failing rule gives the message. */
  function CheckSegment(seg: string): (r: Verdict)
    ensures r.Accepted? <==> ValidSegment(seg)
    ensures r.Rejected? ==> r.message != ""
    ensures |seg| == 0 ==> r == Rejected(EmptySegment)
    ensures |seg| > 0 && (seg[|seg| - 1] == ' ' || seg[|seg| - 1] == '.') ==> r == Rejected(TrailingSpaceOrDot)
    ensures (|seg| > 0 && seg[|seg| - 1] != ' ' && seg[|seg| - 1] != '.' && Fold(BaseName(seg)) in DeviceNames)
            ==> r == Rejected(ReservedNameMessage(BaseName(seg)))
    ensures (|seg| > 0 && seg[|seg| - 1] != ' ' && seg[|seg| - 1] != '.' && Fold(BaseName(seg)) !in DeviceNames
             && FirstBadIndex(seg).Some?)
            ==> var i := FirstBadIndex(seg).value;
                r == Rejected(if seg[i] == ':' then MisplacedColon else InvalidCharacterMessage(seg[i]))
  {
    if |seg| == 0 then Rejected(EmptySegment)
    else if seg[|seg| - 1] == ' ' || seg[|seg| - 1] == '.' then Rejected(TrailingSpaceOrDot)
    else if Fold(BaseName(seg)) in DeviceNames then Rejected(ReservedNameMessage(BaseName(seg)))
    else match FirstBadIndex(seg)
         case None => Accepted
         case Some(i) => Rejected(if seg[i] == ':' then MisplacedColon else InvalidCharacterMessage(seg[i]))
  }

  /** The loop over segments: stops at the first invalid one and reports its message. */
  function CheckSegments(parts: seq<string>): (r: Verdict)
    ensures r.Accepted? <==> forall k :: 0 <= k < |parts| ==> ValidSegment(parts[k])
    ensures r.Rejected? ==> r.message != ""
  {
    if parts == [] then Accepted
    else if CheckSegment(parts[0]).Rejected? then CheckSegment(parts[0])
    else CheckSegments(parts[1..])
  }

  /** A rejection carries the message of the first invalid segment. */
  lemma {:induction false} CheckSegmentsFirstFailure(parts: seq<string>)
    requires CheckSegments(parts).Rejected?
    ensures exists k :: 0 <= k < |parts| && CheckSegments(parts) == CheckSegment(parts[k])
                        && forall j :: 0 <= j < k ==> ValidSegment(parts[j])
  {
    if CheckSegment(parts[0]).Accepted? {
      CheckSegmentsFirstFailure(parts[1..]);
      var k :| 0 <= k < |parts[1..]| && CheckSegments(parts[1..]) == CheckSegment(parts[1..][k])
               && forall j :: 0 <= j < k ==> ValidSegment(parts[1..][j]);
      assert CheckSegments(parts) == CheckSegment(parts[k + 1]);
      forall j | 0 <= j < k + 1
        ensures ValidSegment(parts[j])
      {
        if j > 0 {
          assert parts[j] == parts[1..][j - 1];
        }
      }
    } else {
      assert CheckSegments(parts) == CheckSegment(parts[0]);
    }
  }

  predicate HasControlChar(s: string) {
    exists i :: 0 <= i < |s| && (s[i] as int) < 32
  }

  predicate MatchesReserved(input: string, reserved: seq<string>) {
    exists v :: v in reserved && EqIC(input, v)
  }

  /** `\\` at the start. */
  predicate IsUncForm(s: string) {
    |s| >= 2 && s[0] == '\\' && s[1] == '\\'
  }

  /** A letter, ':' and '\' at the start. */
  predicate IsDriveForm(s: string) {
    |s| >= 3 && IsAsciiLetter(s[0]) && s[1] == ':' && s[2] == '\\'
  }

  /** `\` at the start (which includes the UNC prefix). */
  predicate IsRootedForm(s: string) {
    |s| >= 1 && s[0] == '\\'
  }

  /** `IsValidWindowsPath(input, reservedValues, out error)`. */
  function IsValidWindowsPath(input: string, reserved: seq<string>): (r: Verdict)
    ensures r.Rejected? ==> r.message != ""
    ensures IsBlank(input) ==> r == Rejected(PathRequired)
    ensures !IsBlank(input) && MatchesReserved(input, reserved) ==> r == Rejected(ReservedForMenu)
    ensures !IsBlank(input) && !MatchesReserved(input, reserved) && '/' in input ==> r == Rejected(SlashSeparator)
    ensures !IsBlank(input) && !MatchesReserved(input, reserved) && '/' !in input && HasControlChar(input)
            ==> r == Rejected(ControlCharacters)
    ensures (!IsBlank(input) && !MatchesReserved(input, reserved) && '/' !in input && !HasControlChar(input)
             && !IsUncForm(input) && !IsDriveForm(input) && !IsRootedForm(input))
            ==> r == Rejected(UnknownForm)
  {
    if IsBlank(input) then Rejected(PathRequired)
    else if MatchesReserved(input, reserved) then Rejected(ReservedForMenu)
    else if '/' in input then Rejected(SlashSeparator)
    else if HasControlChar(input) then Rejected(ControlCharacters)
    else if IsUncForm(input) then
      var parts := Split(input[2..], '\\');
      if |parts| < 2 || IsBlank(parts[0]) || IsBlank(parts[1]) then Rejected(UncForm)
      else CheckSegments(parts)
    else if IsDriveForm(input) then
      if |input| == 3 then Accepted else CheckSegments(Split(input[3..], '\\'))
    else if IsRootedForm(input) then
      if |input| == 1 then Rejected(RootWithoutFolder) else CheckSegments(Split(input[1..], '\\'))
    else Rejected(UnknownForm)
  }

  /** The boolean result and the error string agree: true exactly when the error is empty. */
  lemma ResultIffNoError(input: string, reserved: seq<string>)
    ensures IsValidWindowsPath(input, reserved).Accepted? <==> IsValidWindowsPath(input, reserved).Error() == ""
  {
  }

  // ---------------------------------------------------------------------------
  // What acceptance guarantees, character by character.

  /** The character-level consequences of a remainder whose segments are all valid. */
  predicate CleanRemainder(rem: string) {
    && |rem| > 0 && rem[0] != '\\' && rem[|rem| - 1] != '\\'
    && rem[|rem| - 1] != ' ' && rem[|rem| - 1] != '.'
    && (forall i :: 0 <= i < |rem| ==> !IsBadChar(rem[i]))
    && (forall j :: 0 <= j < |rem| - 1 ==> !(rem[j] == '\\' && rem[j + 1] == '\\'))
  }

  lemma SegmentsClean(rem: string)
    requires forall k :: 0 <= k < |Split(rem, '\\')| ==> ValidSegment(Split(rem, '\\')[k])
    ensures CleanRemainder(rem)
  {
    var parts := Split(rem, '\\');
    SplitNoEmptyPart(rem, '\\');
    forall k | 0 <= k < |parts|
      ensures NoBadChar(parts[k])
    {
      assert ValidSegment(parts[k]);
    }
    SegmentCharsClean(rem, parts);
    SplitLastIsSuffix(rem, '\\');
    LastSegmentClean(rem, parts);
  }

  /** Every character of the remainder is a separator or lies in a valid segment. */
  lemma SegmentCharsClean(rem: string, parts: seq<string>)
    requires parts == Split(rem, '\\')
    requires forall k :: 0 <= k < |parts| ==> NoBadChar(parts[k])
    ensures forall i :: 0 <= i < |rem| ==> !IsBadChar(rem[i])
  {
    forall i | 0 <= i < |rem|
      ensures !IsBadChar(rem[i])
    {
      if rem[i] != '\\' {
        SplitCovers(rem, '\\', i);
        var k, m :| 0 <= k < |parts| && 0 <= m < |parts[k]| && parts[k][m] == rem[i];
        assert NoBadChar(parts[k]);
      }
    }
  }

  /** The remainder ends like its last segment. */
  lemma LastSegmentClean(rem: string, parts: seq<string>)
    requires |parts| >= 1 && IsSuffix(parts[|parts| - 1], rem)
    requires ValidSegment(parts[|parts| - 1])
    ensures |rem| > 0 && rem[|rem| - 1] != ' ' && rem[|rem| - 1] != '.'
  {
    var last := parts[|parts| - 1];
    assert rem[|rem| - 1] == last[|last| - 1];
  }

  /** The remainder after a form's prefix, when the form needs one. */
  predicate AcceptedRemainder(input: string, start: nat)
  {
    start < |input| && CleanRemainder(input[start..])
  }

  /** An accepted path is in one of the three forms, and a bare `\` is not accepted. */
  lemma AcceptedForms(input: string, reserved: seq<string>)
    requires IsValidWindowsPath(input, reserved).Accepted?
    ensures !IsBlank(input) && !MatchesReserved(input, reserved)
    ensures '/' !in input && !HasControlChar(input)
    ensures IsUncForm(input) || IsDriveForm(input) || IsRootedForm(input)
    ensures input != "\\"
    ensures IsUncForm(input) ==> var parts := Split(input[2..], '\\');
                                 |parts| >= 2 && !IsBlank(parts[0]) && !IsBlank(parts[1])
  {
  }

  /** Which remainder an accepted path leaves clean, form by form. */
  lemma AcceptedRemainderClean(input: string, reserved: seq<string>)
    requires IsValidWindowsPath(input, reserved).Accepted?
    ensures IsUncForm(input) ==> AcceptedRemainder(input, 2)
    ensures !IsUncForm(input) && IsDriveForm(input) ==> |input| == 3 || AcceptedRemainder(input, 3)
    ensures !IsUncForm(input) && !IsDriveForm(input) ==> IsRootedForm(input) && AcceptedRemainder(input, 1)
  {
    if IsUncForm(input) {
      SegmentsClean(input[2..]);
    } else if IsDriveForm(input) {
      if |input| > 3 {
        SegmentsClean(input[3..]);
      }
    } else {
      SegmentsClean(input[1..]);
    }
  }

  /** Every segment after an accepted path's prefix obeys the segment grammar,
      in all three forms: device names and trailing spaces or dots are refused
      in every segment, not only the last. */
  lemma AcceptedSegments(input: string, reserved: seq<string>)
    requires IsValidWindowsPath(input, reserved).Accepted?
    ensures IsUncForm(input) ==>
              forall k :: 0 <= k < |Split(input[2..], '\\')| ==> ValidSegment(Split(input[2..], '\\')[k])
    ensures !IsUncForm(input) && IsDriveForm(input) && |input| > 3 ==>
              forall k :: 0 <= k < |Split(input[3..], '\\')| ==> ValidSegment(Split(input[3..], '\\')[k])
    ensures !IsUncForm(input) && !IsDriveForm(input) ==>
              && IsRootedForm(input) && |input| > 1
              && forall k :: 0 <= k < |Split(input[1..], '\\')| ==> ValidSegment(Split(input[1..], '\\')[k])
  {
  }

  /** The characters after a clean remainder's start are those of the remainder. */
  lemma CleanTail(input: string, start: nat)
    requires AcceptedRemainder(input, start)
    ensures forall i :: start <= i < |input| ==> !IsBadChar(input[i])
    ensures forall j :: start <= j < |input| - 1 ==> !(input[j] == '\\' && input[j + 1] == '\\')
    ensures input[start] != '\\'
    ensures input[|input| - 1] != '\\' && input[|input| - 1] != ' ' && input[|input| - 1] != '.'
  {
    var rem := input[start..];
    forall i | start <= i < |input|
      ensures input[i] == rem[i - start]
    {
    }
  }

  /** The character-level guarantees, from the form's prefix and a clean remainder. */
  lemma FormCharacters(input: string, start: nat)
    requires || (start == 2 && IsUncForm(input) && AcceptedRemainder(input, 2))
             || (start == 3 && !IsUncForm(input) && IsDriveForm(input) && (|input| == 3 || AcceptedRemainder(input, 3)))
             || (start == 1 && !IsUncForm(input) && !IsDriveForm(input) && IsRootedForm(input) && AcceptedRemainder(input, 1))
    ensures forall i :: 0 <= i < |input| ==> !IsInvalidChar(input[i])
    ensures forall i :: 0 <= i < |input| && input[i] == ':' ==> i == 1 && IsDriveForm(input)
    ensures forall j :: 1 <= j < |input| - 1 ==> !(input[j] == '\\' && input[j + 1] == '\\')
    ensures input[|input| - 1] == '\\' ==> IsDriveForm(input) && |input| == 3
    ensures input[|input| - 1] != ' ' && input[|input| - 1] != '.'
  {
    if start < |input| {
      CleanTail(input, start);
    }
  }

  /** An accepted path contains none of `<>"|?*`, has ':' only right after a
      drive letter, has no doubled '\' except the UNC prefix, ends in '\' only
      when it is a bare drive root, and never ends in a space or a dot. */
  lemma AcceptedCharacters(input: string, reserved: seq<string>)
    requires IsValidWindowsPath(input, reserved).Accepted?
    ensures forall i :: 0 <= i < |input| ==> !IsInvalidChar(input[i])
    ensures forall i :: 0 <= i < |input| && input[i] == ':' ==> i == 1 && IsDriveForm(input)
    ensures forall j :: 1 <= j < |input| - 1 ==> !(input[j] == '\\' && input[j + 1] == '\\')
    ensures input[|input| - 1] == '\\' ==> IsDriveForm(input) && |input| == 3
    ensures input[|input| - 1] != ' ' && input[|input| - 1] != '.'
  {
    AcceptedForms(input, reserved);
    AcceptedRemainderClean(input, reserved);
    FormCharacters(input, if IsUncForm(input) then 2 else if IsDriveForm(input) then 3 else 1);
  }

  // ---------------------------------------------------------------------------
  // Acceptance, the other way round.

  /** A bare drive root is accepted unless it matches a reserved value. */
  lemma DriveRootAccepted(letter: char, reserved: seq<string>)
    requires IsAsciiLetter(letter) && !MatchesReserved([letter, ':', '\\'], reserved)
    ensures IsValidWindowsPath([letter, ':', '\\'], reserved) == Accepted
  {
    var input := [letter, ':', '\\'];
    assert !IsBlank(input) by {
      assert !IsWhite(input[0]);
    }
    assert !HasControlChar(input);
  }

  /** A drive path whose text after `X:\` is separator-free segments joined
      with '\', each passing the segment check, is accepted, provided it
      contains neither '/' nor a control character and matches no reserved value. */
  lemma DrivePathAccepted(input: string, segs: seq<string>, reserved: seq<string>)
    requires IsDriveForm(input) && |segs| >= 1 && input[3..] == Join(segs, '\\')
    requires CheckSegments(segs) == Accepted && forall k :: 0 <= k < |segs| ==> '\\' !in segs[k]
    requires '/' !in input && !HasControlChar(input) && !MatchesReserved(input, reserved)
    ensures IsValidWindowsPath(input, reserved) == Accepted
  {
    JoinLength(segs, '\\');
    SplitJoin(segs, '\\');
    DriveReachesSegments(input, reserved);
  }

  /** Past the common checks, a drive path with a non-empty remainder is
      decided by its segments alone. */
  lemma DriveReachesSegments(input: string, reserved: seq<string>)
    requires IsDriveForm(input) && |input| > 3
    requires '/' !in input && !HasControlChar(input) && !MatchesReserved(input, reserved)
    ensures IsValidWindowsPath(input, reserved) == CheckSegments(Split(input[3..], '\\'))
  {
    assert !IsWhite(input[0]);
  }

  /** Past the common checks, a UNC path is rejected when its server or share
      is missing or blank, and is otherwise decided by its segments alone. */
  lemma UncReachesSegments(input: string, reserved: seq<string>)
    requires IsUncForm(input)
    requires '/' !in input && !HasControlChar(input) && !MatchesReserved(input, reserved)
    ensures var parts := Split(input[2..], '\\');
            |parts| < 2 || IsBlank(parts[0]) || IsBlank(parts[1]) ==> IsValidWindowsPath(input, reserved) == Rejected(UncForm)
    ensures var parts := Split(input[2..], '\\');
            |parts| >= 2 && !IsBlank(parts[0]) && !IsBlank(parts[1]) ==> IsValidWindowsPath(input, reserved) == CheckSegments(parts)
  {
    assert !IsWhite(input[0]);
  }

  /** Past the common checks, a rooted path that is not UNC is rejected when
      nothing follows its `\`, and is otherwise decided by its segments alone. */
  lemma RootedReachesSegments(input: string, reserved: seq<string>)
    requires IsRootedForm(input) && !IsUncForm(input)
    requires '/' !in input && !HasControlChar(input) && !MatchesReserved(input, reserved)
    ensures |input| == 1 ==> IsValidWindowsPath(input, reserved) == Rejected(RootWithoutFolder)
    ensures |input| > 1 ==> IsValidWindowsPath(input, reserved) == CheckSegments(Split(input[1..], '\\'))
  {
    assert !IsWhite(input[0]);
    assert !IsDriveForm(input);
  }

  /** A UNC path whose text after `\\` is separator-free segments joined with
      '\', with a non-blank server and share and each segment passing the
      segment check, is accepted, provided it contains neither '/' nor a
      control character and matches no reserved value. */
  lemma UncPathAccepted(input: string, segs: seq<string>, reserved: seq<string>)
    requires IsUncForm(input) && |segs| >= 2 && input[2..] == Join(segs, '\\')
    requires !IsBlank(segs[0]) && !IsBlank(segs[1])
    requires CheckSegments(segs) == Accepted && forall k :: 0 <= k < |segs| ==> '\\' !in segs[k]
    requires '/' !in input && !HasControlChar(input) && !MatchesReserved(input, reserved)
    ensures IsValidWindowsPath(input, reserved) == Accepted
  {
    SplitJoin(segs, '\\');
    UncReachesSegments(input, reserved);
  }

  /** A rooted path whose text after `\` is separator-free segments joined
      with '\', each passing the segment check, is accepted under the same
      proviso. */
  lemma RootedPathAccepted(input: string, segs: seq<string>, reserved: seq<string>)
    requires IsRootedForm(input) && |segs| >= 1 && input[1..] == Join(segs, '\\')
    requires CheckSegments(segs) == Accepted && forall k :: 0 <= k < |segs| ==> '\\' !in segs[k]
    requires '/' !in input && !HasControlChar(input) && !MatchesReserved(input, reserved)
    ensures IsValidWindowsPath(input, reserved) == Accepted
  {
    assert ValidSegment(segs[0]);
    JoinedRootNotUnc(input, segs);
    SplitJoin(segs, '\\');
    RootedReachesSegments(input, reserved);
  }

  /** A rooted path whose remainder starts with a non-empty separator-free
      segment is not a UNC path. */
  lemma JoinedRootNotUnc(input: string, segs: seq<string>)
    requires IsRootedForm(input) && |segs| >= 1 && input[1..] == Join(segs, '\\')
    requires |segs[0]| > 0 && '\\' !in segs[0]
    ensures !IsUncForm(input)
  {
    JoinFirst(segs, '\\');
    assert input[1] == input[1..][0];
  }

  /** A join whose first part is non-empty starts with that part's first character. */
  lemma JoinFirst(parts: seq<string>, sep: char)
    requires |parts| >= 1 && |parts[0]| > 0
    ensures |Join(parts, sep)| > 0 && Join(parts, sep)[0] == parts[0][0]
  {
  }

  /** A device name is refused after a rooted prefix too: `\CON`. */
  lemma RootedDeviceNameRejected(reserved: seq<string>)
    requires !MatchesReserved("\\CON", reserved)
    ensures IsValidWindowsPath("\\CON", reserved) == Rejected(ReservedNameMessage("CON"))
  {
    var input := "\\CON";
    assert !HasControlChar(input) && '/' !in input;
    assert !IsUncForm(input);
    RootedReachesSegments(input, reserved);
    assert input[1..] == "CON";
    ConSegments();
  }

  lemma ConSegments()
    ensures CheckSegments(Split("CON", '\\')) == Rejected(ReservedNameMessage("CON"))
  {
    var seg := "CON";
    FindFacts(seg, '\\');
    FindFacts(seg, '.');
    assert seg[0] != '\\' && seg[1] != '\\' && seg[2] != '\\';
    assert seg[0] != '.' && seg[1] != '.' && seg[2] != '.';
    assert Split(seg, '\\') == [seg];
    assert BaseName(seg) == seg;
    assert Fold(seg) == seg;
    assert CheckSegment(seg) == Rejected(ReservedNameMessage("CON"));
  }

  /** So is a trailing dot in a segment that is not the last: `\foo.\bar`. */
  lemma InteriorTrailingDotRejected(reserved: seq<string>)
    requires !MatchesReserved("\\foo.\\bar", reserved)
    ensures IsValidWindowsPath("\\foo.\\bar", reserved) == Rejected(TrailingSpaceOrDot)
  {
    var input := "\\foo.\\bar";
    assert !HasControlChar(input) && '/' !in input;
    assert !IsUncForm(input);
    RootedReachesSegments(input, reserved);
    assert input[1..] == "foo.\\bar";
    FooDotSegments();
  }

  lemma FooDotSegments()
    ensures CheckSegments(Split("foo.\\bar", '\\')) == Rejected(TrailingSpaceOrDot)
  {
    var rem := "foo.\\bar";
    FindFacts(rem, '\\');
    assert rem[0] != '\\' && rem[1] != '\\' && rem[2] != '\\' && rem[3] != '\\' && rem[4] == '\\';
    assert Find(rem, '\\') == 4;
    var parts := Split(rem, '\\');
    assert parts[0] == rem[..4] == "foo.";
    assert CheckSegment(parts[0]) == Rejected(TrailingSpaceOrDot);
  }

  /** A join is at least as long as its first part. */
  lemma {:induction false} JoinLength(parts: seq<string>, sep: char)
    requires |parts| >= 1
    ensures |Join(parts, sep)| >= |parts[0]|
  {
  }

  /** A path that ends in '\' (the `C:\Games\` mistake) leaves an empty last
      segment, so it is rejected with the empty-segment message. */
  lemma TrailingBackslashRejected(reserved: seq<string>)
    requires !MatchesReserved("C:\\Games\\", reserved)
    ensures IsValidWindowsPath("C:\\Games\\", reserved) == Rejected(EmptySegment)
  {
    DriveExampleReachesSegments(reserved);
    TrailingEmptySegment();
  }

  lemma TrailingEmptySegment()
    ensures CheckSegments(Split("Games\\", '\\')) == Rejected(EmptySegment)
  {
    var parts := Split("Games\\", '\\');
    TrailingSplit();
    GamesSegmentValid();
    assert CheckSegment(parts[0]).Accepted?;
    assert CheckSegments(parts) == CheckSegments(parts[1..]);
    assert parts[1..] == [""];
    assert CheckSegments([""]) == CheckSegment("");
  }

  lemma TrailingSplit()
    ensures Split("Games\\", '\\') == ["Games", ""]
  {
    var rem := "Games\\";
    assert Find(rem, '\\') == 5;
    assert rem[..5] == "Games" && rem[6..] == "";
  }

  lemma GamesSegmentValid()
    ensures ValidSegment("Games")
  {
    assert '.' !in "Games";
    assert BaseName("Games") == "Games";
    assert |Fold("Games")| == 5;
  }

  lemma DriveExampleReachesSegments(reserved: seq<string>)
    requires !MatchesReserved("C:\\Games\\", reserved)
    ensures IsValidWindowsPath("C:\\Games\\", reserved) == CheckSegments(Split("Games\\", '\\'))
  {
    var input := "C:\\Games\\";
    assert !IsWhite(input[0]);
    assert '/' !in input;
    assert !HasControlChar(input);
    assert !IsUncForm(input) && IsDriveForm(input);
    assert input[3..] == "Games\\";
  }

  /** The part before the first dot decides: `con.txt` is a device name. */
  lemma DeviceNameWithExtensionRejected()
    ensures CheckSegment("con.txt") == Rejected(ReservedNameMessage("con"))
  {
    assert Find("con.txt", '.') == 3;
    assert BaseName("con.txt") == "con" by {
      assert "con.txt"[..3] == "con";
    }
    assert Fold("con") == "CON";
  }

  /** Only the whole base name counts: `CONSOLE` is not a device name. */
  lemma LongerNameAccepted()
    ensures CheckSegment("CONSOLE") == Accepted
  {
    var seg := "CONSOLE";
    assert '.' !in seg;
    assert BaseName(seg) == seg;
    assert |Fold(seg)| == 7;
    assert Fold(seg) !in DeviceNames;
    assert forall i :: 0 <= i < |seg| ==> !IsBadChar(seg[i]);
    assert ValidSegment(seg);
  }
}
