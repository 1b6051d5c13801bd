/**
 * The record delimiter of the OCR script: the regular expression
 * `I?f?\s*?description` matched case-insensitively, and `re.split` on it.
 *
 * The matcher is written out as the backtracking order of Python's `re`:
 * the optional `I` is tried taken before skipped, then the optional `f`,
 * then the lazy `\s*?` tries the word before consuming one more blank.
 * Case folding covers the ASCII letters only.
 */
module Delimiter {
  import opened Wrappers
  import opened Text

  const Word: string := "description"

  /** ASCII lower-casing, the only case folding the model knows. */
  function Lower(c: char): char {
    if 'A' <= c <= 'Z' then (c as int + 32) as char else c
  }

  /** t spells the lower-case w in any letter case. */
  predicate LowersTo(t: string, w: string) {
    |t| == |w| && (t == [] || (Lower(t[0]) == w[0] && LowersTo(t[1..], w[1..])))
  }

  /** `description`, in any letter case, occupies s[q..q + 11]. */
  predicate WordAt(s: string, q: nat) {
    q + |Word| <= |s| && LowersTo(s[q..q + |Word|], Word)
  }

  // ---------------------------------------------------------------------------
  // Declarative reading of the pattern

  /** What may precede the word: `I?f?` (either letter case) and then blanks only. */
  predicate IfPrefix(x: string) {
    || AllSpace(x)
    || (|x| >= 1 && (Lower(x[0]) == 'i' || Lower(x[0]) == 'f') && AllSpace(x[1..]))
    || (|x| >= 2 && Lower(x[0]) == 'i' && Lower(x[1]) == 'f' && AllSpace(x[2..]))
  }

  /** `d` is a whole match of `I?f?\s*?description` under re.I. */
  predicate IsDelimiter(d: string) {
    |d| >= |Word| && WordAt(d, |d| - |Word|) && IfPrefix(d[..|d| - |Word|])
  }

  /** No part of `s` is a match of the pattern. */
  predicate NoDelimiterIn(s: string) {
    forall i, j :: 0 <= i <= j <= |s| ==> !IsDelimiter(s[i..j])
  }

  // ---------------------------------------------------------------------------
  // The backtracking matcher

  /** `\s*?description` tried at q: first the word, then one more blank and retry. */
  function SpacesThenWord(s: string, q: nat): (e: Option<nat>)
    requires q <= |s|
    ensures e.Some? ==> q + |Word| <= e.value <= |s|
    ensures e.Some? ==> AllSpace(s[q..e.value - |Word|]) && WordAt(s, e.value - |Word|)
    decreases |s| - q
  {
    if WordAt(s, q) then Some(q + |Word|)
    else if q < |s| && IsSpace(s[q]) then
      var e := SpacesThenWord(s, q + 1);
      if e.Some? then AllSpaceCons(s, q, e.value - |Word|); e else e
    else None
  }

  /** `f?\s*?description` at q, the `f` tried taken first. */
  function OptionalF(s: string, q: nat): (e: Option<nat>)
    requires q <= |s|
  {
    var taken := if q < |s| && Lower(s[q]) == 'f' then SpacesThenWord(s, q + 1) else None;
    if taken.Some? then taken else SpacesThenWord(s, q)
  }

  /** The end of the match of `I?f?\s*?description` that starts at p, if any. */
  function MatchAt(s: string, p: nat): (e: Option<nat>)
    requires p <= |s|
    ensures e.Some? ==> p < e.value <= |s|
  {
    var taken := if p < |s| && Lower(s[p]) == 'i' then OptionalF(s, p + 1) else None;
    if taken.Some? then taken else OptionalF(s, p)
  }

  lemma WordNotBlank(s: string, q: nat)
    requires WordAt(s, q)
    ensures q < |s| && !IsSpace(s[q]) && Lower(s[q]) != 'i' && Lower(s[q]) != 'f'
  {
    assert s[q..q + |Word|][0] == s[q];
  }

  /** Blanks from q up to a word at w: the lazy loop stops exactly at w. */
  lemma {:induction false} SpacesThenWordFinds(s: string, q: nat, w: nat)
    requires q <= w && WordAt(s, w) && AllSpace(s[q..w])
    ensures SpacesThenWord(s, q) == Some(w + |Word|)
    decreases w - q
  {
    if q < w {
      assert s[q..w][0] == s[q];
      if WordAt(s, q) { WordNotBlank(s, q); }
      assert s[q + 1..w] == s[q..w][1..];
      SpacesThenWordFinds(s, q + 1, w);
    }
  }

  /** The word at the end of s[p..e] is the word at e - 11 in s. */
  lemma WordAtSlice(s: string, p: nat, e: nat)
    requires p + |Word| <= e <= |s|
    ensures WordAt(s[p..e], e - p - |Word|) <==> WordAt(s, e - |Word|)
  {
    SliceOfSlice(s, p, e, e - p - |Word|, e - p);
  }

  /** A delimiter from its two parts: an `I?f?` blank prefix s[p..w] and the word at w. */
  lemma DelimiterOfParts(s: string, p: nat, w: nat)
    requires p <= w && WordAt(s, w) && IfPrefix(s[p..w])
    ensures IsDelimiter(s[p..w + |Word|])
  {
    WordAtSlice(s, p, w + |Word|);
    assert s[p..w + |Word|][..w - p] == s[p..w];
  }

  /** s[p..w] is `I?f?` in the first k characters followed by blanks. */
  lemma IfPrefixOf(s: string, p: nat, k: nat, w: nat)
    requires p + k <= w <= |s| && k <= 2 && AllSpace(s[p + k..w])
    requires k >= 1 ==> Lower(s[p]) == 'i' || (k == 1 && Lower(s[p]) == 'f')
    requires k == 2 ==> Lower(s[p + 1]) == 'f'
    ensures IfPrefix(s[p..w])
  {
    assert s[p..w][k..] == s[p + k..w];
  }

  /** A match found by the lazy blank loop after k prefix letters is a delimiter. */
  lemma LazyMatchIsDelimiter(s: string, p: nat, k: nat, e: nat)
    requires p + k <= |s| && k <= 2 && SpacesThenWord(s, p + k) == Some(e)
    requires k >= 1 ==> Lower(s[p]) == 'i' || (k == 1 && Lower(s[p]) == 'f')
    requires k == 2 ==> Lower(s[p + 1]) == 'f'
    ensures IsDelimiter(s[p..e])
  {
    var w := e - |Word|;
    IfPrefixOf(s, p, k, w);
    DelimiterOfParts(s, p, w);
  }

  lemma MatchIsDelimiter(s: string, p: nat)
    requires p <= |s| && MatchAt(s, p).Some?
    ensures IsDelimiter(s[p..MatchAt(s, p).value])
  {
    var e := MatchAt(s, p).value;
    var i := p < |s| && Lower(s[p]) == 'i';
    var f0 := p < |s| && Lower(s[p]) == 'f';
    var f1 := p + 1 < |s| && Lower(s[p + 1]) == 'f';
    if i && OptionalF(s, p + 1).Some? {
      if f1 && SpacesThenWord(s, p + 2).Some? {
        LazyMatchIsDelimiter(s, p, 2, e);
      } else {
        LazyMatchIsDelimiter(s, p, 1, e);
      }
    } else if f0 && SpacesThenWord(s, p + 1).Some? {
      LazyMatchIsDelimiter(s, p, 1, e);
    } else {
      LazyMatchIsDelimiter(s, p, 0, e);
    }
  }

  lemma DelimiterIsMatch(s: string, p: nat, e: nat)
    requires p <= e <= |s| && IsDelimiter(s[p..e])
    ensures MatchAt(s, p) == Some(e)
  {
    var w := e - |Word|;
    var x := s[p..w];
    assert s[p..e][..|s[p..e]| - |Word|] == x;
    WordAtSlice(s, p, e);
    WordNotBlank(s, w);
    if AllSpace(x) {
      SpacesThenWordFinds(s, p, w);
      if p < w { assert s[p] == x[0]; }
    } else if |x| >= 2 && Lower(x[0]) == 'i' && Lower(x[1]) == 'f' && AllSpace(x[2..]) {
      assert s[p + 2..w] == x[2..];
      SpacesThenWordFinds(s, p + 2, w);
    } else if Lower(x[0]) == 'i' {
      assert s[p + 1..w] == x[1..];
      SpacesThenWordFinds(s, p + 1, w);
      if p + 1 < w { assert s[p + 1] == x[1]; }
    } else {
      assert s[p + 1..w] == x[1..];
      SpacesThenWordFinds(s, p + 1, w);
    }
  }

  /** The matcher agrees with the pattern: a match from p ends at e exactly when s[p..e] is a delimiter. */
  lemma MatchAtIffDelimiter(s: string, p: nat, e: nat)
    requires p <= |s|
    ensures MatchAt(s, p) == Some(e) <==> (p <= e <= |s| && IsDelimiter(s[p..e]))
  {
    if MatchAt(s, p) == Some(e) { MatchIsDelimiter(s, p); }
    if p <= e <= |s| && IsDelimiter(s[p..e]) { DelimiterIsMatch(s, p, e); }
  }

  // ---------------------------------------------------------------------------
  // re.split

  /** The leftmost match starting at or after `from`, as (start, end). */
  function FindMatch(s: string, from: nat): (m: Option<(nat, nat)>)
    requires from <= |s|
    ensures m.Some? ==> from <= m.value.0 < m.value.1 <= |s|
    decreases |s| - from
  {
    match MatchAt(s, from)
    case Some(e) => Some((from, e))
    case None => if from == |s| then None else FindMatch(s, from + 1)
  }

  /** The search returns the first position holding a match, and that match. */
  lemma {:induction false} FindMatchIsLeftmost(s: string, from: nat)
    requires from <= |s|
    ensures FindMatch(s, from).Some? ==> MatchAt(s, FindMatch(s, from).value.0) == Some(FindMatch(s, from).value.1)
    ensures FindMatch(s, from).Some? ==> forall p :: from <= p < FindMatch(s, from).value.0 ==> MatchAt(s, p).None?
    ensures FindMatch(s, from).None? ==> forall p :: from <= p <= |s| ==> MatchAt(s, p).None?
    decreases |s| - from
  {
    if MatchAt(s, from).None? && from < |s| {
      var m := FindMatch(s, from + 1);
      assert FindMatch(s, from) == m;
      FindMatchIsLeftmost(s, from + 1);
      if m.Some? {
        assert forall p :: from + 1 <= p < m.value.0 ==> MatchAt(s, p).None?;
      } else {
        assert forall p :: from + 1 <= p <= |s| ==> MatchAt(s, p).None?;
      }
    }
  }

  /** `re.split(pattern, s[from..], flags=re.I)`: the pieces between successive leftmost matches. */
  function SplitFrom(s: string, from: nat): (pieces: seq<string>)
    requires from <= |s|
    decreases |s| - from
  {
    match FindMatch(s, from)
    case None => [s[from..]]
    case Some((b, e)) => [s[from..b]] + SplitFrom(s, e)
  }

  /** The delimiter texts that `SplitFrom` consumes, in order. */
  function DelimitersFrom(s: string, from: nat): (delims: seq<string>)
    requires from <= |s|
    decreases |s| - from
  {
    match FindMatch(s, from)
    case None => []
    case Some((b, e)) => [s[b..e]] + DelimitersFrom(s, e)
  }

  function Split(s: string): seq<string> {
    SplitFrom(s, 0)
  }

  function Delimiters(s: string): seq<string> {
    DelimitersFrom(s, 0)
  }

  /** pieces[0] + delims[0] + pieces[1] + ... + pieces[n] */
  function Interleave(pieces: seq<string>, delims: seq<string>): string
    requires |pieces| == |delims| + 1
  {
    if delims == [] then pieces[0]
    else pieces[0] + delims[0] + Interleave(pieces[1..], delims[1..])
  }

  /** A stretch of s where no match starts holds no delimiter. */
  lemma NoMatchNoDelimiter(s: string, from: nat, to: nat)
    requires from <= to <= |s|
    requires forall p :: from <= p < to ==> MatchAt(s, p).None?
    ensures NoDelimiterIn(s[from..to])
  {
    var piece := s[from..to];
    forall i, j | 0 <= i <= j <= |piece| ensures !IsDelimiter(piece[i..j]) {
      SliceOfSlice(s, from, to, i, j);
      MatchAtIffDelimiter(s, from + i, from + j);
    }
  }

  lemma InterleaveCons(piece: string, delim: string, pieces: seq<string>, delims: seq<string>)
    requires |pieces| == |delims| + 1
    ensures Interleave([piece] + pieces, [delim] + delims) == piece + delim + Interleave(pieces, delims)
  {
    assert ([piece] + pieces)[1..] == pieces;
    assert ([delim] + delims)[1..] == delims;
  }

  /** One step of `re.split`: the piece before the leftmost match, the match, and the rest split on. */
  lemma SplitFromStep(s: string, from: nat)
    requires from <= |s| && FindMatch(s, from).Some?
    ensures var (b, e) := FindMatch(s, from).value;
      && SplitFrom(s, from) == [s[from..b]] + SplitFrom(s, e)
      && DelimitersFrom(s, from) == [s[b..e]] + DelimitersFrom(s, e)
  {
  }

  /** `SplitFromStep` for a search known to stop at (b, e). */
  lemma SplitFromCut(s: string, from: nat, b: nat, e: nat)
    requires from <= |s| && FindMatch(s, from) == Some((b, e))
    ensures SplitFrom(s, from) == [s[from..b]] + SplitFrom(s, e)
    ensures DelimitersFrom(s, from) == [s[b..e]] + DelimitersFrom(s, e)
  {
  }

  lemma ThreeSlices(s: string, a: nat, b: nat, c: nat)
    requires a <= b <= c <= |s|
    ensures s[a..] == s[a..b] + s[b..c] + s[c..]
  {
  }

  /** Putting the consumed delimiters back between the pieces gives the text. */
  lemma {:induction false} SplitFromRoundTrip(s: string, from: nat)
    requires from <= |s|
    ensures |SplitFrom(s, from)| == |DelimitersFrom(s, from)| + 1
    ensures Interleave(SplitFrom(s, from), DelimitersFrom(s, from)) == s[from..]
    decreases |s| - from
  {
    var m := FindMatch(s, from);
    if m.Some? {
      var b, e := m.value.0, m.value.1;
      SplitFromStep(s, from);
      SplitFromRoundTrip(s, e);
      InterleaveCons(s[from..b], s[b..e], SplitFrom(s, e), DelimitersFrom(s, e));
      ThreeSlices(s, from, b, e);
    } else {
      assert SplitFrom(s, from) == [s[from..]] && DelimitersFrom(s, from) == [];
    }
  }

  /** Every consumed delimiter is a match of the pattern. */
  lemma {:induction false} DelimitersFromMatch(s: string, from: nat)
    requires from <= |s|
    ensures forall d :: d in DelimitersFrom(s, from) ==> IsDelimiter(d)
    decreases |s| - from
  {
    var m := FindMatch(s, from);
    if m.Some? {
      var (b, e) := m.value;
      DelimitersFromMatch(s, e);
      FindMatchIsLeftmost(s, from);
      MatchIsDelimiter(s, b);
      assert DelimitersFrom(s, from) == [s[b..e]] + DelimitersFrom(s, e);
    }
  }

  /** No piece holds a match of the pattern: the matches are leftmost. */
  lemma {:induction false} PiecesFromHoldNoDelimiter(s: string, from: nat)
    requires from <= |s|
    ensures forall piece :: piece in SplitFrom(s, from) ==> NoDelimiterIn(piece)
    decreases |s| - from
  {
    var m := FindMatch(s, from);
    if m.Some? {
      var (b, e) := m.value;
      assert SplitFrom(s, from) == [s[from..b]] + SplitFrom(s, e);
      PiecesFromHoldNoDelimiter(s, e);
      FindMatchIsLeftmost(s, from);
      NoMatchNoDelimiter(s, from, b);
    } else {
      assert SplitFrom(s, from) == [s[from..]];
      assert s[from..] == s[from..|s|];
      FindMatchIsLeftmost(s, from);
      NoMatchNoDelimiter(s, from, |s|);
    }
  }

  /** No match of the pattern starts at an index below n of t. */
  predicate NoMatchStartsBefore(t: string, n: nat) {
    forall i, e {:trigger IsDelimiter(t[i..e])} :: 0 <= i < n && i <= e <= |t| ==> !IsDelimiter(t[i..e])
  }

  /**
   * Every cut is leftmost: no match of the pattern starts inside a piece,
   * even one that would run on past the piece's end.
   */
  predicate CutsLeftmost(pieces: seq<string>, delims: seq<string>)
    requires |pieces| == |delims| + 1
  {
    && NoMatchStartsBefore(Interleave(pieces, delims), |pieces[0]|)
    && (delims != [] ==> CutsLeftmost(pieces[1..], delims[1..]))
  }

  /** No match starts in s[from..to] exactly when the text s[from..] has none starting before to - from. */
  lemma NoMatchStartIff(s: string, from: nat, to: nat)
    requires from <= to <= |s|
    ensures NoMatchStartsBefore(s[from..], to - from) <==> forall p :: from <= p < to ==> MatchAt(s, p).None?
  {
    if forall p :: from <= p < to ==> MatchAt(s, p).None? {
      NoMatchNoStart(s, from, to);
    }
    if NoMatchStartsBefore(s[from..], to - from) {
      NoStartNoMatch(s, from, to);
    }
  }

  lemma NoMatchNoStart(s: string, from: nat, to: nat)
    requires from <= to <= |s|
    requires forall p :: from <= p < to ==> MatchAt(s, p).None?
    ensures NoMatchStartsBefore(s[from..], to - from)
  {
    forall i, e | 0 <= i < to - from && i <= e <= |s| - from ensures !IsDelimiter(s[from..][i..e]) {
      assert s[from..][i..e] == s[from + i..from + e];
      MatchAtIffDelimiter(s, from + i, from + e);
    }
  }

  lemma NoStartNoMatch(s: string, from: nat, to: nat)
    requires from <= to <= |s|
    requires NoMatchStartsBefore(s[from..], to - from)
    ensures forall p :: from <= p < to ==> MatchAt(s, p).None?
  {
    forall p | from <= p < to ensures MatchAt(s, p).None? {
      if MatchAt(s, p).Some? {
        var e := MatchAt(s, p).value;
        assert s[from..][p - from..e - from] == s[p..e];
        MatchIsDelimiter(s, p);
      }
    }
  }

  lemma {:induction false} SplitFromLeftmost(s: string, from: nat)
    requires from <= |s|
    ensures |SplitFrom(s, from)| == |DelimitersFrom(s, from)| + 1
    ensures CutsLeftmost(SplitFrom(s, from), DelimitersFrom(s, from))
    decreases |s| - from
  {
    SplitFromRoundTrip(s, from);
    FindMatchIsLeftmost(s, from);
    var m := FindMatch(s, from);
    if m.Some? {
      var b, e := m.value.0, m.value.1;
      SplitFromStep(s, from);
      SplitFromLeftmost(s, e);
      NoMatchStartIff(s, from, b);
      assert SplitFrom(s, from)[1..] == SplitFrom(s, e);
      assert DelimitersFrom(s, from)[1..] == DelimitersFrom(s, e);
    } else {
      NoMatchStartIff(s, from, |s|);
    }
  }

  /** With no match starting in s[from..to] and one at to, the search finds that one. */
  lemma {:induction false} FindMatchAt(s: string, from: nat, to: nat)
    requires from <= to <= |s| && MatchAt(s, to).Some?
    requires forall p :: from <= p < to ==> MatchAt(s, p).None?
    ensures FindMatch(s, from) == Some((to, MatchAt(s, to).value))
    decreases |s| - from
  {
    if from < to {
      FindMatchAt(s, from + 1, to);
    }
  }

  /** A search from `from` that sees no match at all finds none. */
  lemma FindNoMatch(s: string, from: nat)
    requires from <= |s|
    requires forall p :: from <= p <= |s| ==> MatchAt(s, p).None?
    ensures FindMatch(s, from).None?
  {
    FindMatchIsLeftmost(s, from);
  }

  /** Cutting s[from..] = piece + delim + rest. */
  lemma CutParts(s: string, from: nat, piece: string, delim: string, rest: string)
    requires from <= |s| && s[from..] == piece + delim + rest
    ensures from + |piece| + |delim| <= |s|
    ensures s[from..from + |piece|] == piece
    ensures s[from + |piece|..from + |piece| + |delim|] == delim
    ensures s[from + |piece| + |delim|..] == rest
  {
    var b := from + |piece|;
    assert s[from..b] == s[from..][..|piece|];
    assert s[b..b + |delim|] == s[from..][|piece|..|piece| + |delim|];
    assert s[b + |delim|..] == s[from..][|piece| + |delim|..];
  }

  /** A leftmost cut of s[from..] leaves no match starting inside its first piece. */
  lemma FirstPieceNoMatch(s: string, from: nat, pieces: seq<string>, delims: seq<string>)
    requires from <= |s| && |pieces| == |delims| + 1
    requires Interleave(pieces, delims) == s[from..]
    requires CutsLeftmost(pieces, delims)
    ensures from + |pieces[0]| <= |s|
    ensures forall p :: from <= p < from + |pieces[0]| ==> MatchAt(s, p).None?
  {
    if delims != [] {
      assert Interleave(pieces, delims) == pieces[0] + (delims[0] + Interleave(pieces[1..], delims[1..]));
    }
    assert NoMatchStartsBefore(s[from..], |pieces[0]|);
    NoMatchStartIff(s, from, from + |pieces[0]|);
  }

  /** A leftmost cut of s[from..] without delimiters: no match at all from `from` on. */
  lemma LastPieceNoMatch(s: string, from: nat, piece: string)
    requires from <= |s| && s[from..] == piece
    requires forall p :: from <= p < from + |piece| ==> MatchAt(s, p).None?
    ensures FindMatch(s, from).None?
  {
    forall p | from <= p <= |s| ensures MatchAt(s, p).None? {
      if p == |s| && MatchAt(s, p).Some? { assert false; }
    }
    FindNoMatch(s, from);
  }

  /** Cutting s[from..] at the first match, pieces[0] then delims[0], is the first step of `re.split`. */
  lemma FirstMatchCut(s: string, from: nat, pieces: seq<string>, delims: seq<string>)
    requires pieces != [] && delims != []
    requires from + |pieces[0]| + |delims[0]| <= |s|
    requires s[from..from + |pieces[0]|] == pieces[0]
    requires s[from + |pieces[0]|..from + |pieces[0]| + |delims[0]|] == delims[0]
    requires IsDelimiter(delims[0])
    requires forall p :: from <= p < from + |pieces[0]| ==> MatchAt(s, p).None?
    ensures SplitFrom(s, from) == [pieces[0]] + SplitFrom(s, from + |pieces[0]| + |delims[0]|)
    ensures DelimitersFrom(s, from) == [delims[0]] + DelimitersFrom(s, from + |pieces[0]| + |delims[0]|)
  {
    var b := from + |pieces[0]|;
    var e := b + |delims[0]|;
    MatchAtIffDelimiter(s, b, e);
    FindMatchAt(s, from, b);
    SplitFromCut(s, from, b, e);
  }

  /**
   * The first cut of a leftmost cut of s[from..] is the first step of
   * `re.split`, and what follows it is a leftmost cut of s[e..].
   */
  lemma LeftmostCutStep(s: string, from: nat, pieces: seq<string>, delims: seq<string>) returns (e: nat)
    requires from <= |s| && |pieces| == |delims| + 1 && delims != []
    requires Interleave(pieces, delims) == s[from..]
    requires forall j :: 0 <= j < |delims| ==> IsDelimiter(delims[j])
    requires CutsLeftmost(pieces, delims)
    ensures e <= |s| && Interleave(pieces[1..], delims[1..]) == s[e..]
    ensures forall j :: 0 <= j < |delims[1..]| ==> IsDelimiter(delims[1..][j])
    ensures CutsLeftmost(pieces[1..], delims[1..])
    ensures SplitFrom(s, from) == [pieces[0]] + SplitFrom(s, e)
    ensures DelimitersFrom(s, from) == [delims[0]] + DelimitersFrom(s, e)
  {
    FirstPieceNoMatch(s, from, pieces, delims);
    CutParts(s, from, pieces[0], delims[0], Interleave(pieces[1..], delims[1..]));
    FirstMatchCut(s, from, pieces, delims);
    e := from + |pieces[0]| + |delims[0]|;
    forall j | 0 <= j < |delims[1..]| ensures IsDelimiter(delims[1..][j]) {
      assert delims[1..][j] == delims[j + 1];
    }
  }

  /** A sequence is its head followed by its tail. */
  lemma HeadTail<T>(x: seq<T>, tail: seq<T>, y: seq<T>)
    requires x != [] && x[1..] == tail && y == [x[0]] + tail
    ensures x == y
  {
  }

  /**
   * Any cut of s[from..] into pieces around delimiters that is leftmost is
   * the one `re.split` makes.
   */
  lemma {:induction false} LeftmostCutIsSplit(s: string, from: nat, pieces: seq<string>, delims: seq<string>)
    requires from <= |s| && |pieces| == |delims| + 1
    requires Interleave(pieces, delims) == s[from..]
    requires forall j :: 0 <= j < |delims| ==> IsDelimiter(delims[j])
    requires CutsLeftmost(pieces, delims)
    ensures pieces == SplitFrom(s, from) && delims == DelimitersFrom(s, from)
    decreases |delims|
  {
    if delims == [] {
      FirstPieceNoMatch(s, from, pieces, delims);
      assert pieces[0] == Interleave(pieces, delims) == s[from..];
      LastPieceNoMatch(s, from, pieces[0]);
      assert SplitFrom(s, from) == [s[from..]] && DelimitersFrom(s, from) == [];
      assert pieces == [pieces[0]];
    } else {
      var e := LeftmostCutStep(s, from, pieces, delims);
      LeftmostCutIsSplit(s, e, pieces[1..], delims[1..]);
      HeadTail(pieces, SplitFrom(s, e), SplitFrom(s, from));
      HeadTail(delims, DelimitersFrom(s, e), DelimitersFrom(s, from));
    }
  }

  /**
   * `re.split` cuts the text into pieces around delimiters: putting the
   * delimiters back gives the text, every cut is a match of the pattern,
   * every cut is the leftmost match, and no piece holds a match.
   */
  lemma SplitSpec(s: string)
    ensures |Split(s)| == |Delimiters(s)| + 1
    ensures Interleave(Split(s), Delimiters(s)) == s
    ensures forall d :: d in Delimiters(s) ==> IsDelimiter(d)
    ensures CutsLeftmost(Split(s), Delimiters(s))
    ensures forall piece :: piece in Split(s) ==> NoDelimiterIn(piece)
  {
    SplitFromRoundTrip(s, 0);
    DelimitersFromMatch(s, 0);
    PiecesFromHoldNoDelimiter(s, 0);
    SplitFromLeftmost(s, 0);
    assert s[0..] == s;
  }

  /** The properties of `SplitSpec` single out `re.split`: no other cut has them. */
  lemma SplitUnique(s: string, pieces: seq<string>, delims: seq<string>)
    requires |pieces| == |delims| + 1
    requires Interleave(pieces, delims) == s
    requires forall d :: d in delims ==> IsDelimiter(d)
    requires CutsLeftmost(pieces, delims)
    ensures pieces == Split(s) && delims == Delimiters(s)
  {
    assert s[0..] == s;
    LeftmostCutIsSplit(s, 0, pieces, delims);
  }

  /** Text without upper-case letters spells itself. */
  lemma LowersToItself(w: string)
    requires forall i :: 0 <= i < |w| ==> !('A' <= w[i] <= 'Z')
    ensures LowersTo(w, w)
  {
    if w != [] {
      LowersToItself(w[1..]);
    }
  }

  /** The leftmost match of "idescription" starts at the `I?`: nothing is left before it. */
  lemma SplitTakesLeadingI()
    ensures Split("i" + Word) == ["", ""] && Delimiters("i" + Word) == ["i" + Word]
  {
    var d := "i" + Word;
    IPrefixedWord();
    assert Interleave(["", ""], [d]) == "" + d + "";
    SplitUnique(d, ["", ""], [d]);
  }

  lemma IPrefixedWord()
    ensures IsDelimiter("i" + Word)
  {
    var d := "i" + Word;
    assert |d| == 12 && d[1..12] == Word;
    LowersToItself(Word);
    assert WordAt(d, 1);
    var x := d[..1];
    assert x == ['i'] && x[1..] == [];
    assert IfPrefix(x);
  }

  /** Text without any match splits into one piece, itself. */
  lemma SplitWithoutDelimiter(s: string)
    requires NoDelimiterIn(s)
    ensures Split(s) == [s]
  {
    if FindMatch(s, 0).Some? {
      var (b, e) := FindMatch(s, 0).value;
      FindMatchIsLeftmost(s, 0);
      MatchIsDelimiter(s, b);
      assert false;
    }
  }

  /** Blank text holds no match: every match contains the word. */
  lemma BlankHasNoDelimiter(s: string)
    requires AllSpace(s)
    ensures NoDelimiterIn(s)
  {
    forall i, j | 0 <= i <= j <= |s| ensures !IsDelimiter(s[i..j]) {
      var d := s[i..j];
      if IsDelimiter(d) {
        WordNotBlank(d, |d| - |Word|);
        assert false;
      }
    }
  }

  /** Blank text splits into one piece, itself. */
  lemma BlankSplitsToItself(s: string)
    requires AllSpace(s)
    ensures Split(s) == [s]
  {
    BlankHasNoDelimiter(s);
    SplitWithoutDelimiter(s);
  }
}
