/**
 * The Python string operations the OCR script relies on, restricted to ASCII:
 * `str.isspace`, `str.strip()`, `str.split("\n")`, `sep.join(parts)` and
 * `str.startswith(prefix)`. Strings are sequences of characters.
 */
module Text {

  /** `c.isspace()` for the ASCII characters: blank, \t, \n, \v, \f, \r and the separators \x1c-\x1f. */
  predicate IsSpace(c: char) {
    c == ' ' || c == '\t' || c == '\n' || c == '\r' || c == '\U{0B}' || c == '\U{0C}'
    || ('\U{1C}' <= c <= '\U{1F}')
  }

  predicate AllSpace(s: string) {
    forall i {:trigger IsSpace(s[i])} :: 0 <= i < |s| ==> IsSpace(s[i])
  }

  /** One more blank in front of a blank stretch. */
  lemma AllSpaceCons(s: string, q: nat, r: nat)
    requires q < r <= |s| && IsSpace(s[q]) && AllSpace(s[q + 1..r])
    ensures AllSpace(s[q..r])
  {
    forall i | 0 <= i < r - q ensures IsSpace(s[q..r][i]) {
      if i > 0 { assert s[q..r][i] == s[q + 1..r][i - 1]; }
    }
  }

  /** `s.startswith(prefix)` */
  predicate StartsWith(s: string, prefix: string) {
    |prefix| <= |s| && s[..|prefix|] == prefix
  }

  /** Taking a slice of a slice. */
  lemma SliceOfSlice(s: string, lo: nat, hi: nat, i: nat, j: nat)
    requires lo <= hi <= |s| && i <= j <= hi - lo
    ensures s[lo..hi][i..j] == s[lo + i..lo + j]
  {
    var a, b := s[lo..hi][i..j], s[lo + i..lo + j];
    assert forall k :: 0 <= k < |a| ==> a[k] == b[k];
  }

  /** `sep.join(parts)` */
  function Join(sep: string, parts: seq<string>): string {
    if |parts| == 0 then ""
    else if |parts| == 1 then parts[0]
    else parts[0] + sep + Join(sep, parts[1..])
  }

  /** A join begins with its first part. */
  lemma JoinStartsWithFirst(sep: string, parts: seq<string>)
    requires |parts| >= 1
    ensures StartsWith(Join(sep, parts), parts[0])
  {
    var j := Join(sep, parts);
    if |parts| > 1 {
      assert j == parts[0] + (sep + Join(sep, parts[1..]));
    }
    assert j[..|parts[0]|] == parts[0];
  }

  /** A join of two or more parts holds the separator right after its first part. */
  lemma JoinHasSeparator(sep: string, parts: seq<string>)
    requires |parts| >= 2
    ensures |parts[0]| + |sep| <= |Join(sep, parts)|
    ensures Join(sep, parts)[|parts[0]|..|parts[0]| + |sep|] == sep
  {
    var j := Join(sep, parts);
    assert j == parts[0] + sep + Join(sep, parts[1..]);
  }

  /**
   * A space-join never produces `word` when no part is `word` and `word`
   * holds no blank: zero parts give "", one part gives itself, more give a blank.
   */
  lemma SpaceJoinAvoids(parts: seq<string>, word: string)
    requires word != "" && ' ' !in word
    requires word !in parts
    ensures Join(" ", parts) != word
  {
    if |parts| >= 2 {
      JoinHasSeparator(" ", parts);
    }
  }

  /** The index of the first occurrence of `c` in `s`. */
  function IndexOf(s: string, c: char): (i: nat)
    requires c in s
    ensures i < |s| && s[i] == c && c !in s[..i]
  {
    if s[0] == c then 0 else 1 + IndexOf(s[1..], c)
  }

  /** `s.split("\n")`: the pieces between newlines; never empty ("" gives [""]). */
  function SplitLines(s: string): (lines: seq<string>)
    ensures |lines| >= 1
    ensures forall i :: 0 <= i < |lines| ==> '\n' !in lines[i]
    ensures Join("\n", lines) == s
    decreases |s|
  {
    if '\n' !in s then [s]
    else
      var i := IndexOf(s, '\n');
      var rest := SplitLines(s[i + 1..]);
      assert s == s[..i] + "\n" + s[i + 1..];
      [s[..i]] + rest
  }

  /** Splitting a newline-join of newline-free lines gives the lines back. */
  lemma {:induction false} SplitJoinedLines(lines: seq<string>)
    requires |lines| >= 1
    requires forall i :: 0 <= i < |lines| ==> '\n' !in lines[i]
    ensures SplitLines(Join("\n", lines)) == lines
  {
    if |lines| > 1 {
      var tail := Join("\n", lines[1..]);
      var s := Join("\n", lines);
      assert s == lines[0] + "\n" + tail;
      assert s[|lines[0]|] == '\n';
      assert s[..|lines[0]|] == lines[0];
      assert '\n' !in s[..|lines[0]|];
      assert IndexOf(s, '\n') == |lines[0]|;
      assert s[|lines[0]| + 1..] == tail;
      SplitJoinedLines(lines[1..]);
      assert SplitLines(s) == [lines[0]] + lines[1..];
    } else {
      assert Join("\n", lines) == lines[0];
    }
  }

  /** `s.lstrip()` */
  function TrimLeft(s: string): (r: string)
    ensures |r| <= |s| && r == s[|s| - |r|..]
    ensures AllSpace(s[..|s| - |r|])
    ensures r != "" ==> !IsSpace(r[0])
  {
    if |s| > 0 && IsSpace(s[0]) then
      var r := TrimLeft(s[1..]);
      TrimLeftStep(s, r);
      r
    else s
  }

  /** One leading blank more in front of what `lstrip` drops from s[1..]. */
  lemma TrimLeftStep(s: string, r: string)
    requires |s| > 0 && IsSpace(s[0]) && |r| <= |s| - 1
    requires r == s[1..][|s| - 1 - |r|..] && AllSpace(s[1..][..|s| - 1 - |r|])
    ensures r == s[|s| - |r|..] && AllSpace(s[..|s| - |r|])
  {
    var k := |s| - |r|;
    assert s[1..][..k - 1] == s[1..k];
    assert s[..k] == s[0..k];
    AllSpaceCons(s, 0, k);
  }

  /** `s.rstrip()` */
  function TrimRight(s: string): (r: string)
    ensures |r| <= |s| && r == s[..|r|]
    ensures AllSpace(s[|r|..])
    ensures r != "" ==> !IsSpace(r[|r| - 1])
  {
    if |s| > 0 && IsSpace(s[|s| - 1]) then
      var r := TrimRight(s[..|s| - 1]);
      TrimRightStep(s, r);
      r
    else s
  }

  /** One trailing blank more after what `rstrip` drops from s[..|s| - 1]. */
  lemma TrimRightStep(s: string, r: string)
    requires |s| > 0 && IsSpace(s[|s| - 1]) && |r| <= |s| - 1
    requires r == s[..|s| - 1][..|r|] && AllSpace(s[..|s| - 1][|r|..])
    ensures r == s[..|r|] && AllSpace(s[|r|..])
  {
    var t := s[|r|..];
    assert t == s[..|s| - 1][|r|..] + [s[|s| - 1]];
    forall i | 0 <= i < |t| ensures IsSpace(t[i]) {
      if i < |t| - 1 { assert t[i] == s[..|s| - 1][|r|..][i]; }
    }
  }

  /** s is r at index a with only whitespace around it. */
  predicate PaddedAt(s: string, a: nat, r: string) {
    && a + |r| <= |s| && r == s[a..a + |r|]
    && AllSpace(s[..a]) && AllSpace(s[a + |r|..])
  }

  /**
   * `s.strip()`: the text between the leading and the trailing whitespace.
   * It sits in s right after the whitespace that `lstrip` drops.
   */
  function Strip(s: string): (r: string)
    ensures r == "" <==> AllSpace(s)
    ensures r != "" ==> !IsSpace(r[0]) && !IsSpace(r[|r| - 1])
    ensures PaddedAt(s, |s| - |TrimLeft(s)|, r)
  {
    var l := TrimLeft(s);
    var r := TrimRight(l);
    StripParts(s, l, r);
    r
  }

  /** l is s without leading whitespace and r is l without trailing whitespace. */
  lemma StripParts(s: string, l: string, r: string)
    requires |l| <= |s| && l == s[|s| - |l|..] && AllSpace(s[..|s| - |l|])
    requires l != "" ==> !IsSpace(l[0])
    requires |r| <= |l| && r == l[..|r|] && AllSpace(l[|r|..])
    ensures r == "" <==> AllSpace(s)
    ensures r != "" ==> !IsSpace(r[0])
    ensures PaddedAt(s, |s| - |l|, r)
  {
    var a := |s| - |l|;
    assert l == s[a..];
    assert r == s[a..a + |r|] by {
      assert r == l[..|r|];
    }
    assert l[|r|..] == s[a + |r|..];
    if r == "" {
      assert s == s[..a] + l;
      forall i | 0 <= i < |s| ensures IsSpace(s[i]) {
        assert s[i] == s[..a][i];
      }
    } else {
      assert r[0] == l[0];
    }
  }
}
