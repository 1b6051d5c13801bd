/**
 * `split_by_description`: the window text is cut into records at every
 * delimiter, and the records are repaired by a fixed chain of passes:
 *
 *   1. split at the delimiter, drop blank pieces, cut the rest into lines;
 *   2. merge the first two groups when the first is short;
 *   3. move each group's last line (the seam) to the front of the next group;
 *   4. drop "Select" lines and restore "If description" on line 1;
 *   5. collapse a "Rename" instruction spread over several lines;
 *   6. merge the lines of a condition split before a later "If " line.
 *
 * Every loop of the script is a method proved equal to a function of its
 * input; the properties of the passes are lemmas about those functions.
 */
module Segmenter {
  import opened Wrappers
  import opened Text
  import Delimiter

  /** A record under construction: its lines in reading order. */
  type Group = seq<string>

  /** The exception the script can raise: `cleaned_group[1]` on a group of fewer than two lines. */
  datatype Error = IndexError

  /** The delimiter text put back on line 1 (`delimiter`). */
  const Restored: string := "If description"
  /** The UI button text removed from every record (`actions_to_remove`). */
  const Removed: string := "Select"
  const RenamePrefix: string := "Rename"
  const ConditionPrefix: string := "If "

  function Last(g: Group): string
    requires g != []
  {
    g[|g| - 1]
  }

  /** All lines of all groups, in order. */
  function Flatten(groups: seq<Group>): seq<string> {
    if groups == [] then [] else groups[0] + Flatten(groups[1..])
  }

  lemma {:induction false} FlattenConcat(a: seq<Group>, b: seq<Group>)
    ensures Flatten(a + b) == Flatten(a) + Flatten(b)
  {
    if a == [] {
      assert a + b == b;
    } else {
      assert (a + b)[1..] == a[1..] + b;
      FlattenConcat(a[1..], b);
      assert Flatten(a + b) == a[0] + (Flatten(a[1..]) + Flatten(b));
    }
  }

  lemma TakeOneMore<T>(s: seq<T>, k: nat)
    requires 1 <= k <= |s|
    ensures s[..k] == s[..k - 1] + [s[k - 1]]
  {
  }

  lemma FlattenAppend(a: seq<Group>, g: Group)
    ensures Flatten(a + [g]) == Flatten(a) + g
  {
    FlattenConcat(a, [g]);
    assert Flatten([g]) == g + Flatten([]);
  }

  // ---------------------------------------------------------------------------
  // Pass 1: split on the delimiter (ocr.py:51-52)

  /** Every raw group: at least one line, no line holding a newline, and non-blank stripped text. */
  predicate RawShape(g: Group) {
    && |g| >= 1
    && (forall i :: 0 <= i < |g| ==> '\n' !in g[i])
    && var t := Join("\n", g); t != "" && !IsSpace(t[0]) && !IsSpace(t[|t| - 1])
  }

  /** One piece through `if group.strip()`: its stripped text, or nothing when blank. */
  function KeptPiece(piece: string): seq<string> {
    var t := Strip(piece);
    if t == "" then [] else [t]
  }

  /** The stripped pieces that are not blank, in order. */
  function NonBlank(pieces: seq<string>): seq<string> {
    if pieces == [] then [] else KeptPiece(pieces[0]) + NonBlank(pieces[1..])
  }

  /** The filter works piece by piece: it distributes over concatenation. */
  lemma {:induction false} NonBlankConcat(a: seq<string>, b: seq<string>)
    ensures NonBlank(a + b) == NonBlank(a) + NonBlank(b)
  {
    if a != [] {
      assert (a + b)[0] == a[0] && (a + b)[1..] == a[1..] + b;
      NonBlankConcat(a[1..], b);
    } else {
      assert a + b == b;
    }
  }

  /** `[group.strip().split("\n") for group in pieces if group.strip()]` */
  function KeepNonBlank(pieces: seq<string>): (groups: seq<Group>)
    ensures |groups| == |NonBlank(pieces)| <= |pieces|
    ensures forall i :: 0 <= i < |groups| ==> RawShape(groups[i]) && Join("\n", groups[i]) == NonBlank(pieces)[i]
  {
    if pieces == [] then []
    else
      var stripped := Strip(pieces[0]);
      var rest := KeepNonBlank(pieces[1..]);
      if stripped == "" then rest
      else
        var g := SplitLines(stripped);
        StrippedLinesShape(pieces[0]);
        ConsShape(g, rest, stripped, NonBlank(pieces[1..]));
        [g] + rest
  }

  lemma StrippedLinesShape(piece: string)
    requires Strip(piece) != ""
    ensures RawShape(SplitLines(Strip(piece)))
  {
  }

  lemma ConsShape(g: Group, rest: seq<Group>, t: string, texts: seq<string>)
    requires RawShape(g) && Join("\n", g) == t && |rest| == |texts|
    requires forall i :: 0 <= i < |rest| ==> RawShape(rest[i]) && Join("\n", rest[i]) == texts[i]
    ensures forall i :: 0 <= i < |[g] + rest| ==> RawShape(([g] + rest)[i]) && Join("\n", ([g] + rest)[i]) == ([t] + texts)[i]
  {
    forall i | 0 <= i < |[g] + rest| ensures RawShape(([g] + rest)[i]) && Join("\n", ([g] + rest)[i]) == ([t] + texts)[i] {
      if i > 0 { assert ([g] + rest)[i] == rest[i - 1] && ([t] + texts)[i] == texts[i - 1]; }
    }
  }

  /** Group i holds exactly the lines of the i-th non-blank stripped piece. */
  lemma KeepNonBlankLines(pieces: seq<string>)
    ensures |KeepNonBlank(pieces)| == |NonBlank(pieces)|
    ensures forall i :: 0 <= i < |KeepNonBlank(pieces)| ==> KeepNonBlank(pieces)[i] == SplitLines(NonBlank(pieces)[i])
  {
    var groups := KeepNonBlank(pieces);
    forall i | 0 <= i < |groups| ensures groups[i] == SplitLines(NonBlank(pieces)[i]) {
      SplitJoinedLines(groups[i]);
    }
  }

  /** The raw groups of a window text. */
  function RawGroups(text: string): seq<Group> {
    KeepNonBlank(Delimiter.Split(text))
  }

  /** Empty or blank text gives no group at all. */
  lemma BlankTextNoGroups(text: string)
    requires AllSpace(text)
    ensures RawGroups(text) == []
  {
    Delimiter.BlankSplitsToItself(text);
    assert Strip(text) == "" && [text][1..] == [];
  }

  /** Text with no delimiter in it is one group: its stripped lines. */
  lemma UndelimitedTextOneGroup(text: string)
    requires Delimiter.NoDelimiterIn(text) && !AllSpace(text)
    ensures RawGroups(text) == [SplitLines(Strip(text))]
  {
    Delimiter.SplitWithoutDelimiter(text);
    assert KeepNonBlank([text]) == [SplitLines(Strip(text))] + KeepNonBlank([]);
  }

  // ---------------------------------------------------------------------------
  // Pass 2: merge a short first group into the second (ocr.py:55-56)

  function MergeFirst(groups: seq<Group>): (merged: seq<Group>)
    ensures |merged| == |groups| - 1 <==> |groups| > 1 && |groups[0]| < 3
    ensures |merged| != |groups| - 1 ==> merged == groups
    ensures Flatten(merged) == Flatten(groups)
    ensures |groups| >= 2 ==> merged[|merged| - (|groups| - 2)..] == groups[2..]
    ensures (forall i :: 0 <= i < |groups| ==> groups[i] != []) ==> forall i :: 0 <= i < |merged| ==> merged[i] != []
  {
    if |groups| > 1 && |groups[0]| < 3 then
      var merged := [groups[0] + groups[1]] + groups[2..];
      assert Flatten(merged) == Flatten(groups) by {
        assert groups == [groups[0], groups[1]] + groups[2..];
        FlattenConcat([groups[0], groups[1]], groups[2..]);
        FlattenConcat([groups[0] + groups[1]], groups[2..]);
        assert Flatten([groups[0], groups[1]]) == groups[0] + (groups[1] + Flatten([]));
      }
      merged
    else
      groups
  }

  // ---------------------------------------------------------------------------
  // Pass 3: reattach the seam lines (ocr.py:58-63)

  /** Python's `g[:-1]`. */
  function DropLast(g: Group): Group {
    if g == [] then [] else g[..|g| - 1]
  }

  /** Group i is the last line of group i - 1, then its own lines but the last. */
  function Reattached(groups: seq<Group>): (structured: seq<Group>)
    requires forall i :: 0 <= i < |groups| - 1 ==> groups[i] != []
  {
    seq(|groups|, i requires 0 <= i < |groups| =>
      if i == 0 then DropLast(groups[0]) else [Last(groups[i - 1])] + DropLast(groups[i]))
  }

  method ReattachSeams(groups: seq<Group>) returns (structured: seq<Group>)
    requires forall i :: 0 <= i < |groups| - 1 ==> groups[i] != []
    ensures structured == Reattached(groups)
  {
    ghost var r := Reattached(groups);
    assert |r| == |groups|;
    structured := [];
    var i := 0;
    while i < |groups|
      invariant i <= |groups|
      invariant structured == r[..i]
    {
      TakeOneMore(r, i + 1);
      if i == 0 {
        assert r[i] == DropLast(groups[i]);
        structured := structured + [DropLast(groups[i])];
      } else {
        assert r[i] == [Last(groups[i - 1])] + DropLast(groups[i]);
        structured := structured + [[Last(groups[i - 1])] + DropLast(groups[i])];
      }
      i := i + 1;
    }
    assert r[..|groups|] == r;
  }

  /** One record per group; each record after the first starts with the seam and keeps its group's length. */
  lemma ReattachedShape(groups: seq<Group>)
    requires forall i :: 0 <= i < |groups| ==> groups[i] != []
    ensures |Reattached(groups)| == |groups|
    ensures |groups| > 0 ==> |Reattached(groups)[0]| == |groups[0]| - 1
    ensures forall i :: 0 < i < |groups| ==>
      |Reattached(groups)[i]| == |groups[i]| && Reattached(groups)[i][0] == Last(groups[i - 1])
  {
  }

  /** One more group: its record is the previous seam and its lines but the last. */
  lemma ReattachedStep(r: seq<Group>, groups: seq<Group>, k: nat)
    requires 2 <= k <= |groups| == |r|
    requires groups[k - 2] != [] && groups[k - 1] != []
    requires r[k - 1] == [Last(groups[k - 2])] + DropLast(groups[k - 1])
    requires Flatten(r[..k - 1]) + [Last(groups[k - 2])] == Flatten(groups[..k - 1])
    ensures Flatten(r[..k]) + [Last(groups[k - 1])] == Flatten(groups[..k])
  {
    var g, seam := groups[k - 1], Last(groups[k - 2]);
    TakeOneMore(r, k);
    TakeOneMore(groups, k);
    assert g == DropLast(g) + [Last(g)];
    calc {
      Flatten(r[..k]) + [Last(g)];
      { FlattenAppend(r[..k - 1], r[k - 1]); }
      Flatten(r[..k - 1]) + ([seam] + DropLast(g)) + [Last(g)];
      (Flatten(r[..k - 1]) + [seam]) + (DropLast(g) + [Last(g)]);
      Flatten(groups[..k - 1]) + g;
      { FlattenAppend(groups[..k - 1], g); }
      Flatten(groups[..k]);
    }
  }

  lemma {:induction false} ReattachedPrefix(groups: seq<Group>, k: nat)
    requires 1 <= k <= |groups|
    requires forall i :: 0 <= i < |groups| ==> groups[i] != []
    ensures Flatten(Reattached(groups)[..k]) + [Last(groups[k - 1])] == Flatten(groups[..k])
  {
    var r := Reattached(groups);
    if k == 1 {
      TakeOneMore(r, 1);
      TakeOneMore(groups, 1);
      FlattenAppend([], r[0]);
      FlattenAppend([], groups[0]);
      assert groups[0] == DropLast(groups[0]) + [Last(groups[0])];
    } else {
      ReattachedPrefix(groups, k - 1);
      ReattachedStep(r, groups, k);
    }
  }

  /**
   * Reattaching only moves lines across group borders: read in order, the
   * records are the groups' lines without the very last one.
   */
  lemma ReattachedKeepsLines(groups: seq<Group>)
    requires groups != []
    requires forall i :: 0 <= i < |groups| ==> groups[i] != []
    ensures Flatten(Reattached(groups)) + [Last(groups[|groups| - 1])] == Flatten(groups)
  {
    ReattachedPrefix(groups, |groups|);
    assert Reattached(groups)[..|groups|] == Reattached(groups);
    assert groups[..|groups|] == groups;
  }

  // ---------------------------------------------------------------------------
  // Pass 4: drop "Select" lines, restore the delimiter on line 1 (ocr.py:65-71)

  /** `[line for line in group if line not in actions_to_remove]` */
  function RemoveSelect(group: Group): (kept: Group)
    ensures Removed !in kept
    ensures Removed !in group ==> kept == group
  {
    if group == [] then []
    else (if group[0] == Removed then [] else [group[0]]) + RemoveSelect(group[1..])
  }

  /** The filter works line by line, so the kept lines stay in their order. */
  lemma {:induction false} RemoveSelectConcat(a: Group, b: Group)
    ensures RemoveSelect(a + b) == RemoveSelect(a) + RemoveSelect(b)
  {
    if a != [] {
      var h := if a[0] == Removed then [] else [a[0]];
      assert (a + b)[0] == a[0] && (a + b)[1..] == a[1..] + b;
      assert RemoveSelect(a + b) == h + RemoveSelect(a[1..] + b);
      RemoveSelectConcat(a[1..], b);
    } else {
      assert a + b == b;
    }
  }

  /** Removal keeps every other line as often as it occurs. */
  lemma {:induction false} RemoveSelectKeepsOthers(group: Group)
    ensures forall line :: line != Removed ==> multiset(RemoveSelect(group))[line] == multiset(group)[line]
  {
    if group != [] {
      RemoveSelectKeepsOthers(group[1..]);
      assert group == [group[0]] + group[1..];
    }
  }

  /** `cleaned_group[1] = delimiter + cleaned_group[1]` */
  function Restore(kept: Group): Group
    requires |kept| >= 2
  {
    kept[1 := Restored + kept[1]]
  }

  /** The group keeps two lines or more once "Select" is gone, so `cleaned_group[1]` exists. */
  predicate Cleanable(g: Group) {
    |RemoveSelect(g)| >= 2
  }

  /** One group through the body of the cleaning loop. */
  function CleanedGroup(g: Group): Group
    requires Cleanable(g)
  {
    Restore(RemoveSelect(g))
  }

  /** A record fit for the repair passes: two lines or more, line 1 restored, no "Select". */
  predicate Restored1(g: Group) {
    |g| >= 2 && StartsWith(g[1], Restored) && Removed !in g
  }

  /** Some group keeps fewer than two lines once "Select" is gone: `cleaned_group[1]` fails. */
  predicate HasShortGroup(structured: seq<Group>) {
    exists i :: 0 <= i < |structured| && !Cleanable(structured[i])
  }

  /** The cleaned groups, or the IndexError of a group left with fewer than two lines. */
  function Cleaned(structured: seq<Group>): Result<seq<Group>, Error> {
    if HasShortGroup(structured) then Failure(IndexError)
    else Success(seq(|structured|, i requires 0 <= i < |structured| => CleanedGroup(structured[i])))
  }

  /**
   * A cleaned group has two lines or more, no "Select", and the delimiter
   * glued to its old line 1; every other line is the filtered group's.
   */
  lemma CleanedGroupSpec(g: Group)
    requires Cleanable(g)
    ensures Restored1(CleanedGroup(g)) && CleanedGroup(g)[1] == Restored + RemoveSelect(g)[1]
    ensures |CleanedGroup(g)| == |RemoveSelect(g)|
    ensures forall j :: 0 <= j < |RemoveSelect(g)| && j != 1 ==> CleanedGroup(g)[j] == RemoveSelect(g)[j]
  {
    var kept, c := RemoveSelect(g), CleanedGroup(g);
    assert c[1][..|Restored|] == Restored;
    assert forall j :: 0 <= j < |kept| && j != 1 ==> c[j] == kept[j];
    assert |c[1]| != |Removed|;
  }

  /**
   * Cleaning fails exactly on a short group; otherwise every record has two
   * lines or more, no "Select", and line 1 is the delimiter glued to the old
   * line 1, the other lines being those of the filtered group.
   */
  lemma CleanedSpec(structured: seq<Group>)
    ensures Cleaned(structured).Failure? <==> HasShortGroup(structured)
    ensures Cleaned(structured).Success? ==> |Cleaned(structured).value| == |structured|
    ensures Cleaned(structured).Success? ==> forall i :: 0 <= i < |structured| ==>
      Restored1(Cleaned(structured).value[i])
      && Cleaned(structured).value[i][1] == Restored + RemoveSelect(structured[i])[1]
      && |Cleaned(structured).value[i]| == |RemoveSelect(structured[i])|
      && forall j :: 0 <= j < |RemoveSelect(structured[i])| && j != 1 ==>
        Cleaned(structured).value[i][j] == RemoveSelect(structured[i])[j]
  {
    if !HasShortGroup(structured) {
      forall i | 0 <= i < |structured|
        ensures Restored1(CleanedGroup(structured[i]))
        ensures CleanedGroup(structured[i])[1] == Restored + RemoveSelect(structured[i])[1]
        ensures |CleanedGroup(structured[i])| == |RemoveSelect(structured[i])|
        ensures forall j :: 0 <= j < |RemoveSelect(structured[i])| && j != 1 ==>
          CleanedGroup(structured[i])[j] == RemoveSelect(structured[i])[j]
      {
        CleanedGroupSpec(structured[i]);
      }
    }
  }

  lemma CleanedSuccess(structured: seq<Group>, cleaned: seq<Group>)
    requires |cleaned| == |structured|
    requires forall j :: 0 <= j < |structured| ==> Cleanable(structured[j]) && cleaned[j] == CleanedGroup(structured[j])
    ensures Cleaned(structured) == Success(cleaned)
  {
    assert !HasShortGroup(structured);
    var r := Cleaned(structured).value;
    assert forall j :: 0 <= j < |structured| ==> r[j] == cleaned[j];
    assert r == cleaned;
  }

  lemma CleanedFailure(structured: seq<Group>, i: nat)
    requires i < |structured| && !Cleanable(structured[i])
    ensures Cleaned(structured) == Failure(IndexError)
  {
  }

  method CleanGroups(structured: seq<Group>) returns (result: Result<seq<Group>, Error>)
    ensures result == Cleaned(structured)
  {
    var cleanedGroups: seq<Group> := [];
    var i := 0;
    while i < |structured|
      invariant i <= |structured|
      invariant |cleanedGroups| == i
      invariant forall j :: 0 <= j < i ==> Cleanable(structured[j]) && cleanedGroups[j] == CleanedGroup(structured[j])
    {
      var cleanedGroup := RemoveSelect(structured[i]);
      if |cleanedGroup| < 2 {
        CleanedFailure(structured, i);
        return Failure(IndexError);
      }
      cleanedGroup := cleanedGroup[1 := Restored + cleanedGroup[1]];
      cleanedGroups := cleanedGroups + [cleanedGroup];
      i := i + 1;
    }
    CleanedSuccess(structured, cleanedGroups);
    result := Success(cleanedGroups);
  }

  // ---------------------------------------------------------------------------
  // Pass 5: collapse a "Rename" instruction (ocr.py:74-81)

  /** Line i starts with "Rename" and has at least two lines after it. */
  predicate RenameAt(group: Group, i: nat) {
    i < |group| && StartsWith(group[i], RenamePrefix) && |group| - i > 2
  }

  /** The last index below n where a "Rename" collapse applies. */
  function LastRename(group: Group, n: nat): (r: Option<nat>)
    requires n <= |group|
    ensures r.None? ==> forall i :: 0 <= i < n ==> !RenameAt(group, i)
    ensures r.Some? ==> r.value < n && RenameAt(group, r.value)
    ensures r.Some? ==> forall j :: r.value < j < n ==> !RenameAt(group, j)
  {
    if n == 0 then None
    else if RenameAt(group, n - 1) then Some(n - 1)
    else LastRename(group, n - 1)
  }

  /** `group[:i] + [" ".join(group[i:-1])] + [group[-1]]` */
  function CollapseAt(group: Group, i: nat): Group
    requires RenameAt(group, i)
  {
    group[..i] + [Join(" ", group[i..|group| - 1])] + [Last(group)]
  }

  /** The group after the loop has looked at its first n lines: the last collapse seen wins. */
  function RenameCollapsedUpTo(group: Group, n: nat): Group
    requires n <= |group|
  {
    match LastRename(group, n)
    case None => group
    case Some(i) => CollapseAt(group, i)
  }

  function RenameCollapsed(group: Group): Group {
    RenameCollapsedUpTo(group, |group|)
  }

  /** The loop over one group: every qualifying line rebuilds `new_group` from the original group. */
  method CollapseRename(group: Group) returns (newGroup: Group)
    ensures newGroup == RenameCollapsed(group)
  {
    newGroup := group;
    var i := 0;
    while i < |group|
      invariant i <= |group|
      invariant newGroup == RenameCollapsedUpTo(group, i)
    {
      if StartsWith(group[i], RenamePrefix) && |group[i..]| > 2 {
        newGroup := group[..i] + [Join(" ", group[i..|group| - 1])] + [group[|group| - 1]];
      }
      i := i + 1;
    }
  }

  method CollapseRenames(cleaned: seq<Group>) returns (processed: seq<Group>)
    ensures |processed| == |cleaned|
    ensures forall i :: 0 <= i < |cleaned| ==> processed[i] == RenameCollapsed(cleaned[i])
  {
    processed := [];
    var i := 0;
    while i < |cleaned|
      invariant i <= |cleaned| && |processed| == i
      invariant forall j :: 0 <= j < i ==> processed[j] == RenameCollapsed(cleaned[j])
    {
      var newGroup := CollapseRename(cleaned[i]);
      processed := processed + [newGroup];
      i := i + 1;
    }
  }

  /**
   * Without a qualifying "Rename" line the group is unchanged; otherwise the
   * last qualifying line i and everything after it but the final line become
   * one space-joined line, the final line stays, and the group has i + 2 lines.
   */
  lemma RenameCollapsedSpec(group: Group)
    ensures (forall i :: 0 <= i < |group| ==> !RenameAt(group, i)) ==> RenameCollapsed(group) == group
    ensures forall i: nat :: RenameAt(group, i) && (forall j :: i < j < |group| ==> !RenameAt(group, j)) ==>
      var r := RenameCollapsed(group);
      && r == group[..i] + [Join(" ", group[i..|group| - 1])] + [group[|group| - 1]]
      && |r| == i + 2 && r[i + 1] == group[|group| - 1]
  {
    var m := LastRename(group, |group|);
    forall i: nat | RenameAt(group, i) && (forall j :: i < j < |group| ==> !RenameAt(group, j))
      ensures m == Some(i)
    {
    }
  }

  /** The collapse keeps two lines or more and brings no "Select" line in. */
  lemma RenameCollapsedKeepsShape(group: Group)
    requires |group| >= 2 && Removed !in group
    ensures |RenameCollapsed(group)| >= 2 && Removed !in RenameCollapsed(group)
  {
    match LastRename(group, |group|)
    case None =>
    case Some(i) =>
      var parts := group[i..|group| - 1];
      assert Removed !in parts by {
        forall j | 0 <= j < |parts| ensures parts[j] != Removed { assert parts[j] == group[i + j]; }
      }
      SpaceJoinAvoids(parts, Removed);
  }

  /**
   * With at most one "Rename" line, collapsing twice is collapsing once.
   * With two, a second run can collapse again at the earlier one: see
   * RenameCollapseNotIdempotent.
   */
  lemma RenameCollapseSettles(group: Group)
    requires forall i, j :: 0 <= i < j < |group| ==> !(StartsWith(group[i], RenamePrefix) && StartsWith(group[j], RenamePrefix))
    ensures RenameCollapsed(RenameCollapsed(group)) == RenameCollapsed(group)
  {
    var r := RenameCollapsed(group);
    match LastRename(group, |group|)
    case None =>
    case Some(i) =>
      assert |r| == i + 2;
      forall j | 0 <= j < |r| ensures !RenameAt(r, j) {
        if j < i {
          assert r[j] == group[j];
        } else if j == i + 1 {
          assert r[j] == group[|group| - 1];
        }
      }
      assert LastRename(r, |r|).None?;
  }

  /** Two qualifying "Rename" lines: the second run collapses again, at the earlier one. */
  lemma RenameCollapseNotIdempotent()
    ensures var g := ["Rename a", "Rename b", "c", "d"];
      && RenameCollapsed(g) == ["Rename a", "Rename b" + " " + "c", "d"]
      && RenameCollapsed(RenameCollapsed(g)) == ["Rename a" + " " + ("Rename b" + " " + "c"), "d"]
  {
    var g := ["Rename a", "Rename b", "c", "d"];
    assert StartsWith(g[1], RenamePrefix) && StartsWith(g[0], RenamePrefix);
    assert LastRename(g, 4) == Some(1);
    assert g[1..3] == ["Rename b", "c"] && g[..1] == ["Rename a"];
    assert Join(" ", ["Rename b", "c"]) == "Rename b" + " " + Join(" ", ["c"]);
    var r := ["Rename a", "Rename b" + " " + "c", "d"];
    assert CollapseAt(g, 1) == r;
    assert StartsWith(r[0], RenamePrefix);
    assert !RenameAt(r, 2) && !RenameAt(r, 1);
    assert LastRename(r, 1) == Some(0);
    assert LastRename(r, 3) == Some(0);
    assert r[0..2] == ["Rename a", "Rename b" + " " + "c"] && r[..0] == [];
    assert Join(" ", r[0..2]) == "Rename a" + " " + Join(" ", ["Rename b" + " " + "c"]);
    assert CollapseAt(r, 0) == ["Rename a" + " " + ("Rename b" + " " + "c"), "d"];
  }

  // ---------------------------------------------------------------------------
  // Pass 6: merge the lines of a condition split before a later "If " line (ocr.py:84-94)

  /** Python's `s[:n]`, which stops at the end of s. */
  function Take(s: Group, n: nat): Group {
    if n <= |s| then s[..n] else s
  }

  /** Python's `s[n:]`, empty past the end of s. */
  function Drop(s: Group, n: nat): Group {
    if n <= |s| then s[n..] else []
  }

  /** The first index of a line starting with "If ". */
  function FirstCondition(sub: Group): (k: Option<nat>)
    ensures k.None? ==> forall j :: 0 <= j < |sub| ==> !StartsWith(sub[j], ConditionPrefix)
    ensures k.Some? ==> k.value < |sub| && StartsWith(sub[k.value], ConditionPrefix)
    ensures k.Some? ==> forall j :: 0 <= j < k.value ==> !StartsWith(sub[j], ConditionPrefix)
  {
    if sub == [] then None
    else if StartsWith(sub[0], ConditionPrefix) then Some(0)
    else match FirstCondition(sub[1..])
      case None => None
      case Some(k) => Some(k + 1)
  }

  /**
   * One turn of the outer loop, at index i of the original group whose line
   * is `line`, on the current `new_group`.
   */
  function ConditionStep(current: Group, line: string, i: nat): Group {
    if !StartsWith(line, ConditionPrefix) then current
    else
      var sub := Take(current, i);
      match FirstCondition(sub)
      case None => current
      case Some(k) => [Join(" ", sub[..k]), Join(" ", sub[k..])] + Drop(current, i)
  }

  /** `new_group` after the outer loop has looked at the first n lines of the group. */
  function ConditionsMergedUpTo(group: Group, n: nat): Group
    requires n <= |group|
  {
    if n == 0 then group
    else ConditionStep(ConditionsMergedUpTo(group, n - 1), group[n - 1], n - 1)
  }

  function ConditionsMerged(group: Group): Group {
    ConditionsMergedUpTo(group, |group|)
  }

  /** The first "If " line found by a scan that saw none before k. */
  lemma FirstConditionAt(sub: Group, k: nat)
    requires k <= |sub| && forall j :: 0 <= j < k ==> !StartsWith(sub[j], ConditionPrefix)
    ensures k < |sub| && StartsWith(sub[k], ConditionPrefix) ==> FirstCondition(sub) == Some(k)
    ensures k == |sub| ==> FirstCondition(sub).None?
  {
  }

  /** The step of the outer loop in the three cases of its body. */
  lemma ConditionStepCases(current: Group, line: string, i: nat)
    ensures !StartsWith(line, ConditionPrefix) ==> ConditionStep(current, line, i) == current
    ensures FirstCondition(Take(current, i)).None? ==> ConditionStep(current, line, i) == current
    ensures StartsWith(line, ConditionPrefix) && FirstCondition(Take(current, i)).Some? ==>
      var sub, k := Take(current, i), FirstCondition(Take(current, i)).value;
      ConditionStep(current, line, i) == [Join(" ", sub[..k])] + [Join(" ", sub[k..])] + Drop(current, i)
  {
  }

  /** The nested loops over one group; the inner search stops at its first hit. */
  method MergeConditions(group: Group) returns (newGroup: Group)
    ensures newGroup == ConditionsMerged(group)
  {
    newGroup := group;
    var i := 0;
    while i < |group|
      invariant i <= |group|
      invariant newGroup == ConditionsMergedUpTo(group, i)
    {
      ghost var current := newGroup;
      if StartsWith(group[i], ConditionPrefix) {
        var sub := Take(newGroup, i);
        var k := 0;
        while k < |sub|
          invariant k <= |sub|
          invariant forall j :: 0 <= j < k ==> !StartsWith(sub[j], ConditionPrefix)
          invariant newGroup == current
        {
          if StartsWith(sub[k], ConditionPrefix) {
            FirstConditionAt(sub, k);
            ConditionStepCases(current, group[i], i);
            newGroup := [Join(" ", sub[..k])] + [Join(" ", sub[k..])] + Drop(newGroup, i);
            assert newGroup == ConditionStep(current, group[i], i);
            break;
          }
          k := k + 1;
        }
        if k == |sub| {
          FirstConditionAt(sub, k);
          ConditionStepCases(current, group[i], i);
          assert newGroup == ConditionStep(current, group[i], i);
        }
      }
      assert newGroup == ConditionStep(current, group[i], i);
      i := i + 1;
    }
  }

  method MergeAllConditions(processed: seq<Group>) returns (final: seq<Group>)
    ensures |final| == |processed|
    ensures forall i :: 0 <= i < |processed| ==> final[i] == ConditionsMerged(processed[i])
  {
    final := [];
    var i := 0;
    while i < |processed|
      invariant i <= |processed| && |final| == i
      invariant forall j :: 0 <= j < i ==> final[j] == ConditionsMerged(processed[j])
    {
      var newGroup := MergeConditions(processed[i]);
      final := final + [newGroup];
      i := i + 1;
    }
  }

  /** At most one line of the group starts with "If ". */
  predicate AtMostOneCondition(group: Group) {
    forall i, j :: 0 <= i < j < |group| ==>
      !(StartsWith(group[i], ConditionPrefix) && StartsWith(group[j], ConditionPrefix))
  }

  /** A group with at most one "If " line goes through unchanged. */
  lemma {:induction false} SingleConditionUnchanged(group: Group, n: nat)
    requires n <= |group| && AtMostOneCondition(group)
    ensures ConditionsMergedUpTo(group, n) == group
  {
    if n > 0 {
      SingleConditionUnchanged(group, n - 1);
      var line := group[n - 1];
      if StartsWith(line, ConditionPrefix) {
        var sub := Take(group, n - 1);
        forall j | 0 <= j < |sub| ensures !StartsWith(sub[j], ConditionPrefix) {
          assert sub[j] == group[j];
        }
      }
    }
  }

  /** A merge at index i keeps the current group from i on, after two joined lines. */
  lemma ConditionMergeKeepsSuffix(current: Group, line: string, i: nat)
    requires StartsWith(line, ConditionPrefix) && FirstCondition(Take(current, i)).Some?
    ensures var r := ConditionStep(current, line, i);
      |r| >= 2 && r[2..] == Drop(current, i)
  {
  }

  /**
   * Merging goes on after the first merge, on the shrunk `new_group` but at the
   * original indices: here the "If c" line that triggers the second merge is
   * itself joined into line 1.
   */
  lemma ConditionMergeChains()
    ensures ConditionsMerged(["x", "If a", "y", "If b", "If c"])
      == ["x", ("If a" + " " + "y") + " " + ("If b" + " " + "If c")]
  {
    var g := ["x", "If a", "y", "If b", "If c"];
    assert StartsWith(g[1], ConditionPrefix) && StartsWith(g[3], ConditionPrefix) && StartsWith(g[4], ConditionPrefix);
    assert !StartsWith(g[0], ConditionPrefix) && !StartsWith(g[2], ConditionPrefix);
    assert ConditionsMergedUpTo(g, 1) == g;
    assert FirstCondition(["x"]) == None;
    assert ConditionsMergedUpTo(g, 2) == g;
    assert ConditionsMergedUpTo(g, 3) == g;
    assert Take(g, 3) == ["x", "If a", "y"];
    assert FirstCondition(["x", "If a", "y"]) == Some(1);
    assert Join(" ", ["If a", "y"]) == "If a" + " " + Join(" ", ["y"]);
    var c := ["x", "If a" + " " + "y", "If b", "If c"];
    assert ConditionsMergedUpTo(g, 4) == c;
    assert StartsWith(c[1], ConditionPrefix);
    assert FirstCondition(c) == Some(1);
    assert Join(" ", ["If b", "If c"]) == "If b" + " " + Join(" ", ["If c"]);
    assert Take(c, 4) == c && Drop(c, 4) == [] && c[..1] == ["x"];
    assert Join(" ", c[1..]) == ("If a" + " " + "y") + " " + Join(" ", ["If b", "If c"]);
    assert ConditionsMergedUpTo(g, 5) == ConditionStep(c, g[4], 4);
  }

  /** One merge keeps two lines or more and brings no "Select" line in. */
  lemma MergeKeepsShape(current: Group, line: string, i: nat)
    requires |current| >= 2 && Removed !in current
    requires StartsWith(line, ConditionPrefix) && FirstCondition(Take(current, i)).Some?
    ensures |ConditionStep(current, line, i)| >= 2 && Removed !in ConditionStep(current, line, i)
  {
    var sub := Take(current, i);
    var k := FirstCondition(sub).value;
    assert Removed !in sub[..k] && Removed !in sub[k..] by {
      assert forall x :: x in sub[..k] || x in sub[k..] ==> x in sub;
      assert forall x :: x in sub ==> x in current;
    }
    SpaceJoinAvoids(sub[..k], Removed);
    SpaceJoinAvoids(sub[k..], Removed);
    assert forall x :: x in Drop(current, i) ==> x in current;
  }

  /** The pass keeps two lines or more and brings no "Select" line in. */
  lemma {:induction false} ConditionsMergedKeepShape(group: Group, n: nat)
    requires n <= |group| && |group| >= 2 && Removed !in group
    ensures |ConditionsMergedUpTo(group, n)| >= 2 && Removed !in ConditionsMergedUpTo(group, n)
  {
    if n > 0 {
      ConditionsMergedKeepShape(group, n - 1);
      var current := ConditionsMergedUpTo(group, n - 1);
      if StartsWith(group[n - 1], ConditionPrefix) && FirstCondition(Take(current, n - 1)).Some? {
        MergeKeepsShape(current, group[n - 1], n - 1);
      } else {
        ConditionStepCases(current, group[n - 1], n - 1);
      }
    }
  }

  /** "If description..." starts with "If ". */
  lemma RestoredIsCondition(line: string)
    requires StartsWith(line, Restored)
    ensures StartsWith(line, ConditionPrefix)
  {
    assert line[..|ConditionPrefix|] == line[..|Restored|][..|ConditionPrefix|];
  }

  lemma StartsWithTrans(a: string, b: string, c: string)
    requires StartsWith(a, b) && StartsWith(b, c)
    ensures StartsWith(a, c)
  {
    assert a[..|c|] == a[..|b|][..|c|];
  }

  /**
   * When line 0 is not a condition and line 1 carries the restored delimiter,
   * the pass keeps line 0 and line 1 still starts with "If description":
   * every merge then joins from line 1 on.
   */
  lemma {:induction false} ConditionsMergedKeepDelimiter(group: Group, n: nat)
    requires n <= |group| && |group| >= 2
    requires !StartsWith(group[0], ConditionPrefix) && StartsWith(group[1], Restored)
    ensures var r := ConditionsMergedUpTo(group, n);
      |r| >= 2 && r[0] == group[0] && StartsWith(r[1], Restored)
  {
    if n > 0 {
      ConditionsMergedKeepDelimiter(group, n - 1);
      var current := ConditionsMergedUpTo(group, n - 1);
      var sub := Take(current, n - 1);
      ConditionStepCases(current, group[n - 1], n - 1);
      if StartsWith(group[n - 1], ConditionPrefix) && FirstCondition(sub).Some? {
        var k := FirstCondition(sub).value;
        assert sub[0] == current[0];
        assert |sub| >= 2;
        RestoredIsCondition(current[1]);
        assert k == 1;
        assert sub[..1] == [current[0]];
        JoinStartsWithFirst(" ", sub[1..]);
        StartsWithTrans(Join(" ", sub[1..]), current[1], Restored);
      }
    }
  }

  // ---------------------------------------------------------------------------
  // The whole of split_by_description

  /** Passes 2 to 6 applied to the raw groups. */
  function Repair(groups: seq<Group>): (r: Result<seq<Group>, Error>)
    requires forall i :: 0 <= i < |groups| ==> groups[i] != []
  {
    var structured := Reattached(MergeFirst(groups));
    match Cleaned(structured)
    case Failure(e) => Failure(e)
    case Success(cleaned) =>
      Success(seq(|cleaned|, i requires 0 <= i < |cleaned| => ConditionsMerged(RenameCollapsed(cleaned[i]))))
  }

  function Segmented(text: string): Result<seq<Group>, Error> {
    Repair(RawGroups(text))
  }

  /** `split_by_description(text)`; the IndexError of ocr.py:70 becomes a Failure. */
  method SplitByDescription(text: string) returns (result: Result<seq<Group>, Error>)
    ensures result == Segmented(text)
  {
    var groups := RawGroups(text);
    groups := MergeFirst(groups);
    var structured := ReattachSeams(groups);
    var cleaned := CleanGroups(structured);
    if cleaned.Failure? {
      return Failure(cleaned.error);
    }
    var processed := CollapseRenames(cleaned.value);
    var final := MergeAllConditions(processed);
    assert final == Segmented(text).value;
    result := Success(final);
  }

  // ---------------------------------------------------------------------------
  // Properties of the whole pass chain

  /** Empty or blank text gives no record and no error. */
  lemma BlankTextNoRecords(text: string)
    requires AllSpace(text)
    ensures Segmented(text) == Success([])
  {
    BlankTextNoGroups(text);
    assert MergeFirst([]) == [] && Reattached([]) == [];
    CleanedSuccess([], []);
    var none: seq<Group> := [];
    assert seq(0, i requires 0 <= i < |none| => ConditionsMerged(RenameCollapsed(none[i]))) == [];
  }

  /** The script fails exactly when a reattached group keeps fewer than two lines without "Select". */
  lemma RepairFailsOnShortGroup(groups: seq<Group>)
    requires forall i :: 0 <= i < |groups| ==> groups[i] != []
    ensures Repair(groups).Failure? <==> HasShortGroup(Reattached(MergeFirst(groups)))
  {
    CleanedSpec(Reattached(MergeFirst(groups)));
  }

  /**
   * One record per merged raw group; every record has two lines or more and
   * none of its lines is "Select".
   */
  lemma RepairedRecordsShape(groups: seq<Group>)
    requires forall i :: 0 <= i < |groups| ==> groups[i] != []
    requires Repair(groups).Success?
    ensures |Repair(groups).value| == |MergeFirst(groups)|
    ensures forall i :: 0 <= i < |Repair(groups).value| ==>
      |Repair(groups).value[i]| >= 2 && Removed !in Repair(groups).value[i]
  {
    CleanedSpec(Reattached(MergeFirst(groups)));
    var cleaned := Cleaned(Reattached(MergeFirst(groups))).value;
    forall i | 0 <= i < |cleaned|
      ensures |ConditionsMerged(RenameCollapsed(cleaned[i]))| >= 2
      ensures Removed !in ConditionsMerged(RenameCollapsed(cleaned[i]))
    {
      RenameCollapsedKeepsShape(cleaned[i]);
      var g := RenameCollapsed(cleaned[i]);
      ConditionsMergedKeepShape(g, |g|);
    }
  }

  /** The shape of every record of split_by_description's result. */
  lemma SegmentedRecordsShape(text: string)
    requires Segmented(text).Success?
    ensures forall i :: 0 <= i < |Segmented(text).value| ==>
      |Segmented(text).value[i]| >= 2 && Removed !in Segmented(text).value[i]
  {
    RepairedRecordsShape(RawGroups(text));
  }

  /**
   * Line 1 of a record starts with "If description" whenever the record's
   * first line starts with neither "Rename" nor "If ".
   */
  lemma {:induction false} RepairKeepsDelimiter(cleaned: Group)
    requires Restored1(cleaned)
    requires !StartsWith(cleaned[0], RenamePrefix) && !StartsWith(cleaned[0], ConditionPrefix)
    ensures |ConditionsMerged(RenameCollapsed(cleaned))| >= 2
    ensures StartsWith(ConditionsMerged(RenameCollapsed(cleaned))[1], Restored)
  {
    var r := RenameCollapsed(cleaned);
    match LastRename(cleaned, |cleaned|) {
      case None =>
      case Some(i) =>
        assert i >= 1;
        if i == 1 {
          assert r[1] == Join(" ", cleaned[1..|cleaned| - 1]);
          JoinStartsWithFirst(" ", cleaned[1..|cleaned| - 1]);
          StartsWithTrans(r[1], cleaned[1], Restored);
        } else {
          assert r[1] == cleaned[1];
        }
        assert r[0] == cleaned[0];
    }
    ConditionsMergedKeepDelimiter(r, |r|);
  }

  /** A record whose first line is a multi-line "Rename" loses the restored delimiter from line 1. */
  lemma LeadingRenameSwallowsDelimiter()
    ensures var g := ["Rename A", Restored + "x", "y", "z"];
      && Restored1(g)
      && RenameCollapsed(g) == ["Rename A" + " " + ((Restored + "x") + " " + "y"), "z"]
  {
    var g := ["Rename A", Restored + "x", "y", "z"];
    assert g[1][..|Restored|] == Restored;
    assert g[1][0] == 'I';
    assert |g[1]| != |Removed|;
    assert StartsWith(g[0], RenamePrefix);
    assert !RenameAt(g, 3) && !RenameAt(g, 2) && !RenameAt(g, 1);
    assert LastRename(g, 1) == Some(0);
    assert LastRename(g, 4) == Some(0);
    assert g[0..3] == ["Rename A", Restored + "x", "y"];
    assert g[..0] == [];
    assert Join(" ", ["y"]) == "y";
    assert Join(" ", [Restored + "x", "y"]) == (Restored + "x") + " " + "y";
    assert Join(" ", g[0..3]) == "Rename A" + " " + ((Restored + "x") + " " + "y");
    assert CollapseAt(g, 0) == ["Rename A" + " " + ((Restored + "x") + " " + "y"), "z"];
  }

  /**
   * When a merged group ends in "Select" and the next one keeps fewer than two
   * lines besides "Select" once its own last line goes, the seam moves "Select"
   * to the front of that next record, removal leaves it short, and the whole
   * call fails.
   */
  lemma SelectSeamFailsWhen(groups: seq<Group>, i: nat)
    requires forall j :: 0 <= j < |groups| ==> groups[j] != []
    requires 0 < i < |MergeFirst(groups)|
    requires Last(MergeFirst(groups)[i - 1]) == Removed
    requires |RemoveSelect(DropLast(MergeFirst(groups)[i]))| < 2
    ensures Repair(groups) == Failure(IndexError)
  {
    var merged := MergeFirst(groups);
    var structured := Reattached(merged);
    assert structured[i] == [Removed] + DropLast(merged[i]);
    RemoveSelectConcat([Removed], DropLast(merged[i]));
    assert RemoveSelect([Removed]) == [] + RemoveSelect([]);
    assert !Cleanable(structured[i]);
    assert HasShortGroup(structured);
  }

  /**
   * Raw groups whose middle group ends in "Select" and whose last group has
   * two lines: the seam moves "Select" to the front of the last record,
   * removal leaves that record one line, and the whole call fails.
   */
  lemma SelectSeamFails()
    ensures Repair([["Header", "Junk"], [": X is true", "Rename A to B", "Extra", "Select"], [": Y is false", "Final"]])
      == Failure(IndexError)
  {
    var groups := [["Header", "Junk"], [": X is true", "Rename A to B", "Extra", "Select"], [": Y is false", "Final"]];
    var merged := [["Header", "Junk", ": X is true", "Rename A to B", "Extra", "Select"], [": Y is false", "Final"]];
    assert groups[0] + groups[1] == merged[0] && groups[2..] == [merged[1]];
    assert MergeFirst(groups) == merged;
    var structured := Reattached(merged);
    assert structured[1] == ["Select", ": Y is false"];
    assert RemoveSelect(["Select", ": Y is false"]) == [] + RemoveSelect([": Y is false"]);
    assert RemoveSelect([": Y is false"]) == [": Y is false"] + RemoveSelect([]);
    assert HasShortGroup(structured);
  }

  /** A short first group is merged into the second: three raw groups give two records. */
  lemma ShortFirstGroupMerged()
    ensures Repair([["A", "B"], ["If description C"], ["D", "E", "F"]])
      == Success([["A", Restored + "B"], ["", "If description C", Restored + "D", "E"]])
  {
    var groups := [["A", "B"], ["If description C"], ["D", "E", "F"]];
    var g0 := ["A", Restored + "B"];
    var g1 := ["If description C", Restored + "D", "E"];
    var r1 := ["", "If description C", Restored + "D", "E"];
    ShortFirstGroupStructured();
    ShortFirstGroupCleaned();
    ShortFirstGroupRecord0(g0);
    ShortFirstGroupRecord1(g1);
    var cleaned := [g0, g1];
    var records := seq(|cleaned|, i requires 0 <= i < |cleaned| => ConditionsMerged(RenameCollapsed(cleaned[i])));
    assert records[0] == g0 && records[1] == r1;
    assert records == [g0, r1];
    assert Cleaned(Reattached(MergeFirst(groups))) == Success(cleaned);
  }

  lemma ShortFirstGroupStructured()
    ensures Reattached(MergeFirst([["A", "B"], ["If description C"], ["D", "E", "F"]]))
      == [["A", "B"], ["If description C", "D", "E"]]
  {
    var groups := [["A", "B"], ["If description C"], ["D", "E", "F"]];
    var merged := [["A", "B", "If description C"], ["D", "E", "F"]];
    assert groups[0] + groups[1] == merged[0] && groups[2..] == [merged[1]];
    assert MergeFirst(groups) == merged;
    var structured := Reattached(merged);
    assert DropLast(merged[0]) == ["A", "B"] && DropLast(merged[1]) == ["D", "E"];
    assert structured[0] == ["A", "B"];
    assert structured[1] == ["If description C"] + ["D", "E"] == ["If description C", "D", "E"];
    assert |structured| == 2;
  }

  lemma ShortFirstGroupCleaned()
    ensures Cleaned([["A", "B"], ["If description C", "D", "E"]])
      == Success([["A", Restored + "B"], ["If description C", Restored + "D", "E"]])
  {
    var structured := [["A", "B"], ["If description C", "D", "E"]];
    assert RemoveSelect(["A", "B"]) == ["A", "B"] by {
      assert RemoveSelect(["A", "B"]) == ["A"] + RemoveSelect(["B"]);
      assert RemoveSelect(["B"]) == ["B"] + RemoveSelect([]);
    }
    assert RemoveSelect(["If description C", "D", "E"]) == ["If description C", "D", "E"] by {
      assert RemoveSelect(["If description C", "D", "E"]) == ["If description C"] + RemoveSelect(["D", "E"]);
      assert RemoveSelect(["D", "E"]) == ["D"] + RemoveSelect(["E"]);
      assert RemoveSelect(["E"]) == ["E"] + RemoveSelect([]);
    }
    CleanedSuccess(structured, [["A", Restored + "B"], ["If description C", Restored + "D", "E"]]);
  }

  lemma ShortFirstGroupRecord0(g: Group)
    requires g == ["A", Restored + "B"]
    ensures ConditionsMerged(RenameCollapsed(g)) == g
  {
    assert LastRename(g, 2).None?;
    assert g[0][0] == 'A';
    SingleConditionUnchanged(g, 2);
  }

  lemma ShortFirstGroupRecord1(g: Group)
    requires g == ["If description C", Restored + "D", "E"]
    ensures ConditionsMerged(RenameCollapsed(g)) == ["", "If description C", Restored + "D", "E"]
  {
    assert g[0][0] == 'I' && g[2][0] == 'E';
    assert LastRename(g, 3).None?;
    assert g[0][..3] == ConditionPrefix && g[1][..3] == ConditionPrefix;
    assert ConditionsMergedUpTo(g, 1) == g;
    assert Take(g, 1) == ["If description C"] && Drop(g, 1) == [Restored + "D", "E"];
    assert FirstCondition(["If description C"]) == Some(0);
    assert Join(" ", ["If description C"]) == "If description C";
    var r := ["", "If description C", Restored + "D", "E"];
    assert ConditionsMergedUpTo(g, 2) == r;
    assert ConditionsMergedUpTo(g, 3) == r;
  }
}
