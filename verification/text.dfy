/** Character and string helpers shared by the whole model.

    The launcher relies on .NET's culture-invariant, Unicode-aware predicates:
    `char.IsWhiteSpace` (through `string.IsNullOrWhiteSpace` and `Trim`),
    `char.IsLetter`, `ToUpperInvariant` and `StringComparer.OrdinalIgnoreCase`.
    The helpers below APPROXIMATE these at the ASCII level: only the ASCII
    whitespace characters count as whitespace, only `A`-`Z`/`a`-`z` count as
    letters and change case, and every other character compares by exact
    code point. */
module Text {

  import opened Seqs

  /** ASCII whitespace: space, tab, line feed, vertical tab, form feed, carriage return. */
  predicate IsWhite(c: char) {
    c == ' ' || '\t' <= c <= '\r'
  }

  /** `string.IsNullOrWhiteSpace` on a non-null string: empty or whitespace only. */
  predicate IsBlank(s: string) {
    forall i :: 0 <= i < |s| ==> IsWhite(s[i])
  }

  /** `char.IsLetter`, restricted to ASCII. */
  predicate IsAsciiLetter(c: char) {
    'A' <= c <= 'Z' || 'a' <= c <= 'z'
  }

  /** `char.ToUpperInvariant`, restricted to ASCII. */
  function UpperChar(c: char): char {
    if 'a' <= c <= 'z' then (c as int - 32) as char else c
  }

  /** `ToUpperInvariant`; two strings are equal under OrdinalIgnoreCase exactly
      when their folds are equal. */
  function Fold(s: string): (r: string)
    ensures |r| == |s|
  {
    seq(|s|, i requires 0 <= i < |s| => UpperChar(s[i]))
  }

  /** `string.Equals(a, b, StringComparison.OrdinalIgnoreCase)`. */
  predicate EqIC(a: string, b: string) {
    Fold(a) == Fold(b)
  }

  /** `TrimStart()`: drops the leading whitespace, and only that. */
  function TrimStart(s: string): (r: string)
    ensures |r| <= |s| && r == s[|s| - |r|..]
    ensures forall i :: 0 <= i < |s| - |r| ==> IsWhite(s[i])
    ensures |r| > 0 ==> !IsWhite(r[0])
  {
    if |s| > 0 && IsWhite(s[0]) then TrimStart(s[1..]) else s
  }

  /** `TrimEnd()`: drops the trailing whitespace, and only that. */
  function TrimEnd(s: string): (r: string)
    ensures |r| <= |s| && r == s[..|r|]
    ensures forall i :: |r| <= i < |s| ==> IsWhite(s[i])
    ensures |r| > 0 ==> !IsWhite(r[|r| - 1])
  {
    if |s| > 0 && IsWhite(s[|s| - 1]) then TrimEnd(s[..|s| - 1]) else s
  }

  /** `Trim()`. */
  function Trim(s: string): string {
    TrimEnd(TrimStart(s))
  }

  lemma {:induction false} TrimStartBlank(s: string)
    ensures IsBlank(TrimStart(s)) <==> IsBlank(s)
  {
    if |s| > 0 && IsWhite(s[0]) {
      TrimStartBlank(s[1..]);
      BlankTail(s);
    }
  }

  lemma {:induction false} TrimEndBlank(s: string)
    ensures IsBlank(TrimEnd(s)) <==> IsBlank(s)
  {
    if |s| > 0 && IsWhite(s[|s| - 1]) {
      TrimEndBlank(s[..|s| - 1]);
      BlankInit(s);
    }
  }

  /** A string that starts with whitespace is blank exactly when its tail is. */
  lemma BlankTail(s: string)
    requires |s| > 0 && IsWhite(s[0])
    ensures IsBlank(s) <==> IsBlank(s[1..])
  {
    if IsBlank(s[1..]) {
      forall i | 0 < i < |s|
        ensures IsWhite(s[i])
      {
        assert s[i] == s[1..][i - 1];
      }
    }
  }

  /** A string that ends with whitespace is blank exactly when the rest is. */
  lemma BlankInit(s: string)
    requires |s| > 0 && IsWhite(s[|s| - 1])
    ensures IsBlank(s) <==> IsBlank(s[..|s| - 1])
  {
    if IsBlank(s[..|s| - 1]) {
      forall i | 0 <= i < |s| - 1
        ensures IsWhite(s[i])
      {
        assert s[i] == s[..|s| - 1][i];
      }
    }
  }

  /** A non-empty trimmed string starts and ends with a non-whitespace character. */
  lemma TrimEnds(s: string)
    ensures var p := Trim(s);
            |p| > 0 ==> !IsWhite(p[0]) && !IsWhite(p[|p| - 1])
  {
    var t := TrimStart(s);
    var p := TrimEnd(t);
    if |p| > 0 {
      assert p[0] == t[0];
    }
  }

  /** Trimming never turns a blank string into a non-blank one or back. */
  lemma TrimBlank(s: string)
    ensures IsBlank(Trim(s)) <==> IsBlank(s)
  {
    TrimStartBlank(s);
    TrimEndBlank(TrimStart(s));
  }

  /** `TrimEnd(a, b)`: drops every trailing character equal to `a` or `b`. */
  function TrimEndChars(s: string, a: char, b: char): string
  {
    if |s| > 0 && (s[|s| - 1] == a || s[|s| - 1] == b) then TrimEndChars(s[..|s| - 1], a, b) else s
  }

  /** `TrimEndChars` removes a suffix made only of `a`s and `b`s, and the
      longest such suffix. */
  lemma {:induction false} TrimEndCharsFacts(s: string, a: char, b: char)
    ensures var r := TrimEndChars(s, a, b);
            && |r| <= |s| && r == s[..|r|]
            && (forall i :: |r| <= i < |s| ==> s[i] == a || s[i] == b)
            && (|r| > 0 ==> r[|r| - 1] != a && r[|r| - 1] != b)
  {
    if |s| > 0 && (s[|s| - 1] == a || s[|s| - 1] == b) {
      TrimEndCharsFacts(s[..|s| - 1], a, b);
    }
  }

  /** `s.Replace(from, to)` on characters. */
  function Replace(s: string, from: char, to: char): (r: string)
    ensures |r| == |s|
    ensures from != to ==> from !in r
  {
    seq(|s|, i requires 0 <= i < |s| => if s[i] == from then to else s[i])
  }

  /** `new string(' ', n)`. */
  function Spaces(n: nat): (r: string)
    ensures |r| == n && forall i :: 0 <= i < n ==> r[i] == ' '
  {
    seq(n, _ => ' ')
  }

  /** `s.IndexOf(c)`, with `|s|` standing for -1. */
  function Find(s: string, c: char): (i: nat)
    ensures i <= |s|
  {
    FindFrom(s, c, 0)
  }

  /** The scan behind `Find`, from position `k` on. */
  function FindFrom(s: string, c: char, k: nat): (i: nat)
    requires k <= |s|
    ensures k <= i <= |s|
    decreases |s| - k
  {
    if k == |s| || s[k] == c then k else FindFrom(s, c, k + 1)
  }

  lemma {:induction false} FindFromFacts(s: string, c: char, k: nat)
    requires k <= |s|
    ensures var i := FindFrom(s, c, k);
            && (i < |s| ==> s[i] == c)
            && forall j :: k <= j < i ==> s[j] != c
    decreases |s| - k
  {
    if k < |s| && s[k] != c {
      FindFromFacts(s, c, k + 1);
    }
  }

  /** `Find` gives the first position holding `c`, or `|s|` when there is none. */
  lemma FindFacts(s: string, c: char)
    ensures var i := Find(s, c);
            && (i < |s| ==> s[i] == c)
            && forall j :: 0 <= j < i ==> s[j] != c
  {
    FindFromFacts(s, c, 0);
  }

  /** Joins parts with one separator between neighbours; the inverse of `Split`. */
  function Join(parts: seq<string>, sep: char): string
    requires |parts| >= 1
  {
    if |parts| == 1 then parts[0] else parts[0] + [sep] + Join(parts[1..], sep)
  }

  /** `s.Split(sep, StringSplitOptions.None)`: the maximal separator-free pieces
      between separators, empty pieces included, so `n` separators give `n + 1`
      parts and joining them back yields `s`. */
  function Split(s: string, sep: char): (parts: seq<string>)
    ensures |parts| >= 1
    decreases |s|
  {
    var i := Find(s, sep);
    if i == |s| then [s] else [s[..i]] + Split(s[i + 1..], sep)
  }

  /** Joining the parts gives back the string. */
  lemma {:induction false} JoinSplit(s: string, sep: char)
    ensures Join(Split(s, sep), sep) == s
    decreases |s|
  {
    var i := Find(s, sep);
    FindFacts(s, sep);
    if i < |s| {
      var tail := Split(s[i + 1..], sep);
      JoinSplit(s[i + 1..], sep);
      var parts := [s[..i]] + tail;
      assert Split(s, sep) == parts;
      assert parts[1..] == tail;
      assert Join(parts, sep) == s[..i] + [sep] + Join(tail, sep);
      assert s == s[..i] + [sep] + s[i + 1..];
    }
  }

  /** No part contains the separator. */
  lemma {:induction false} SplitPartsSepFree(s: string, sep: char, k: nat, m: nat)
    requires k < |Split(s, sep)| && m < |Split(s, sep)[k]|
    ensures Split(s, sep)[k][m] != sep
    decreases |s|
  {
    var parts := Split(s, sep);
    var i := Find(s, sep);
    FindFacts(s, sep);
    if i < |s| {
      var tail := Split(s[i + 1..], sep);
      assert parts == [s[..i]] + tail;
      if k == 0 {
        assert parts[0][m] == s[m];
      } else {
        assert parts[k] == tail[k - 1];
        SplitPartsSepFree(s[i + 1..], sep, k - 1, m);
      }
    } else {
      assert parts == [s];
    }
  }

  /** Splitting undoes joining when no part contains the separator. */
  lemma {:induction false} SplitJoin(parts: seq<string>, sep: char)
    requires |parts| >= 1 && forall k :: 0 <= k < |parts| ==> sep !in parts[k]
    ensures Split(Join(parts, sep), sep) == parts
    decreases |parts|
  {
    var s := Join(parts, sep);
    if |parts| > 1 {
      var p := parts[0];
      assert s == p + [sep] + Join(parts[1..], sep);
      assert s[|p|] == sep;
      assert Find(s, sep) == |p| by {
        FindFacts(s, sep);
        forall j | 0 <= j < |p|
          ensures s[j] != sep
        {
          assert s[j] == p[j];
        }
      }
      assert s[..|p|] == p;
      assert s[|p| + 1..] == Join(parts[1..], sep);
      SplitJoin(parts[1..], sep);
      assert parts == [p] + parts[1..];
    } else {
      FindFacts(s, sep);
      assert Find(s, sep) == |s|;
    }
  }

  /** Every non-separator character of `s` lies in some part. */
  lemma {:induction false} SplitCovers(s: string, sep: char, j: nat)
    requires j < |s| && s[j] != sep
    ensures exists k, m :: 0 <= k < |Split(s, sep)| && 0 <= m < |Split(s, sep)[k]| && Split(s, sep)[k][m] == s[j]
    decreases |s|
  {
    var parts := Split(s, sep);
    var i := Find(s, sep);
    FindFacts(s, sep);
    if i < |s| {
      var rest := s[i + 1..];
      var tail := Split(rest, sep);
      assert parts == [s[..i]] + tail;
      if j < i {
        assert parts[0][j] == s[j];
      } else {
        assert j != i && rest[j - i - 1] == s[j];
        SplitCovers(rest, sep, j - i - 1);
        var k, m :| 0 <= k < |tail| && 0 <= m < |tail[k]| && tail[k][m] == rest[j - i - 1];
        assert parts[k + 1] == tail[k];
      }
    } else {
      assert parts == [s];
      assert parts[0][j] == s[j];
    }
  }

  /** The last part is a suffix of `s`. */
  lemma {:induction false} SplitLastIsSuffix(s: string, sep: char)
    ensures var parts := Split(s, sep);
            IsSuffix(parts[|parts| - 1], s)
    decreases |s|
  {
    var i := Find(s, sep);
    if i < |s| {
      var tail := Split(s[i + 1..], sep);
      SplitLastIsSuffix(s[i + 1..], sep);
      SplitLastStep(s, sep, i, Split(s, sep), tail);
    }
  }

  /** One step of `SplitLastIsSuffix`: the suffix of the rest is one of `s`. */
  lemma SplitLastStep(s: string, sep: char, i: nat, parts: seq<string>, tail: seq<string>)
    requires i == Find(s, sep) && i < |s| && parts == Split(s, sep) && tail == Split(s[i + 1..], sep)
    requires IsSuffix(tail[|tail| - 1], s[i + 1..])
    ensures IsSuffix(parts[|parts| - 1], s)
  {
    SplitLastOfRest(s, sep, i, parts, tail);
    SuffixOfDrop(tail[|tail| - 1], s, i + 1);
  }

  /** `a` is `s`'s last `|a|` characters. */
  predicate IsSuffix(a: string, s: string) {
    |a| <= |s| && forall j :: 0 <= j < |a| ==> a[j] == s[|s| - |a| + j]
  }

  lemma SuffixOfDrop(a: string, s: string, k: nat)
    requires k <= |s| && IsSuffix(a, s[k..])
    ensures IsSuffix(a, s)
  {
    forall j | 0 <= j < |a|
      ensures a[j] == s[|s| - |a| + j]
    {
      assert a[j] == s[k..][|s| - k - |a| + j];
    }
  }

  /** Past the first separator, the last part is the rest's last part. */
  lemma SplitLastOfRest(s: string, sep: char, i: nat, parts: seq<string>, tail: seq<string>)
    requires i == Find(s, sep) && i < |s| && parts == Split(s, sep) && tail == Split(s[i + 1..], sep)
    ensures parts[|parts| - 1] == tail[|tail| - 1]
  {
  }

  /** When no part is empty, `s` neither starts nor ends with the separator and
      never holds two separators in a row. */
  lemma {:induction false} SplitNoEmptyPart(s: string, sep: char)
    requires forall k :: 0 <= k < |Split(s, sep)| ==> |Split(s, sep)[k]| > 0
    ensures |s| > 0 && s[0] != sep && s[|s| - 1] != sep
    ensures forall j :: 0 <= j < |s| - 1 ==> !(s[j] == sep && s[j + 1] == sep)
    decreases |s|
  {
    var parts := Split(s, sep);
    var i := Find(s, sep);
    FindFacts(s, sep);
    if i == |s| {
      assert |parts[0]| > 0;
    } else {
      var rest := s[i + 1..];
      assert |parts[0]| > 0 && parts[0] == s[..i];
      assert s[0] == s[..i][0];
      forall k | 0 <= k < |Split(rest, sep)|
        ensures |Split(rest, sep)[k]| > 0
      {
        assert Split(rest, sep)[k] == parts[k + 1];
      }
      SplitNoEmptyPart(rest, sep);
      forall j | 0 <= j < |s| - 1
        ensures !(s[j] == sep && s[j + 1] == sep)
      {
        if j < i {
          assert s[j] == s[..i][j];
        } else if j > i {
          assert s[j] == rest[j - i - 1] && s[j + 1] == rest[j - i];
        }
      }
    }
  }
}
