/** The two Python string operations the payload extraction relies on:
    str.split with a separator and str.strip with no arguments. */
module Text {
  import opened Wrappers

  /** Python's str.isspace for one code point. */
  predicate IsSpace(c: char) {
    var n := c as int;
    || (9 <= n <= 13) || (28 <= n <= 32) || n == 0x85 || n == 0xA0 || n == 0x1680
    || (0x2000 <= n <= 0x200A) || n == 0x2028 || n == 0x2029 || n == 0x202F
    || n == 0x205F || n == 0x3000
  }

  predicate AllSpace(s: string) {
    forall i :: 0 <= i < |s| ==> IsSpace(s[i])
  }

  /** Neither end of s is whitespace. */
  predicate IsTrimmed(s: string) {
    |s| == 0 || (!IsSpace(s[0]) && !IsSpace(s[|s| - 1]))
  }

  /** r occurs in s at offset a with nothing but whitespace around it. */
  predicate FramedAt(s: string, a: int, r: string) {
    && 0 <= a && a + |r| <= |s|
    && s[a..a + |r|] == r
    && AllSpace(s[..a])
    && AllSpace(s[a + |r|..])
  }

  /** r is what remains of s once its surrounding whitespace is removed. */
  ghost predicate Trims(s: string, r: string) {
    IsTrimmed(r) && exists a :: FramedAt(s, a, r)
  }

  function LeadingSpaces(s: string): (n: nat)
    ensures n <= |s|
    ensures AllSpace(s[..n])
    ensures n < |s| ==> !IsSpace(s[n])
  {
    if |s| == 0 || !IsSpace(s[0]) then 0
    else
      var m := LeadingSpaces(s[1..]);
      assert forall i :: 0 < i < 1 + m ==> s[i] == s[1..][..m][i - 1];
      1 + m
  }

  function TrailingSpaces(s: string): (n: nat)
    ensures n <= |s|
    ensures AllSpace(s[|s| - n..])
    ensures n < |s| ==> !IsSpace(s[|s| - n - 1])
  {
    if |s| == 0 || !IsSpace(s[|s| - 1]) then 0
    else
      var t := s[..|s| - 1];
      var m := TrailingSpaces(t);
      assert forall i :: |s| - 1 - m <= i < |s| - 1 ==> s[i] == t[|t| - m..][i - (|s| - 1 - m)];
      1 + m
  }

  /** Python's s.strip(). */
  function Strip(s: string): (r: string)
    ensures |r| <= |s|
    ensures Trims(s, r)
  {
    var a := LeadingSpaces(s);
    var t := s[a..];
    var n := TrailingSpaces(t);
    var r := s[a..|s| - n];
    assert t[|t| - n..] == s[|s| - n..];
    assert |r| > 0 ==> r[0] == s[a] && r[|r| - 1] == t[|t| - n - 1];
    assert FramedAt(s, a, r);
    r
  }

  /** Every character of s before index a is whitespace. */
  lemma SpacesBefore(s: string, a: int)
    requires 0 <= a <= |s| && AllSpace(s[..a])
    ensures forall i :: 0 <= i < a ==> IsSpace(s[i])
  {
    forall i | 0 <= i < a ensures IsSpace(s[i]) {
      assert s[..a][i] == s[i];
    }
  }

  /** Every character of s from index b on is whitespace. */
  lemma SpacesFrom(s: string, b: int)
    requires 0 <= b <= |s| && AllSpace(s[b..])
    ensures forall i :: b <= i < |s| ==> IsSpace(s[i])
  {
    forall i | b <= i < |s| ensures IsSpace(s[i]) {
      assert s[b..][i - b] == s[i];
    }
  }

  /** The first and last characters of a non-empty trimmed string framed at a. */
  lemma FramedEnds(s: string, a: int, r: string)
    requires FramedAt(s, a, r) && IsTrimmed(r) && |r| > 0
    ensures !IsSpace(s[a]) && !IsSpace(s[a + |r| - 1])
  {
    assert s[a..a + |r|][0] == s[a];
    assert s[a..a + |r|][|r| - 1] == s[a + |r| - 1];
  }

  /** A non-empty trimmed string framed in s pins down where it starts and ends. */
  lemma FramedBounds(s: string, a1: int, r1: string, a2: int, r2: string)
    requires FramedAt(s, a1, r1) && FramedAt(s, a2, r2)
    requires IsTrimmed(r1) && IsTrimmed(r2) && |r1| > 0 && |r2| > 0
    ensures a1 == a2 && |r1| == |r2|
  {
    FramedEnds(s, a1, r1);
    FramedEnds(s, a2, r2);
    SpacesBefore(s, a1);
    SpacesBefore(s, a2);
    SpacesFrom(s, a1 + |r1|);
    SpacesFrom(s, a2 + |r2|);
  }

  /** A trimmed string framed in s is non-empty exactly when s has a
      character that is not whitespace. */
  lemma FramedEmpty(s: string, a: int, r: string)
    requires FramedAt(s, a, r) && IsTrimmed(r)
    ensures |r| == 0 <==> AllSpace(s)
  {
    if |r| == 0 {
      forall i | 0 <= i < |s| ensures IsSpace(s[i]) {
        if i < a { assert s[..a][i] == s[i]; } else { assert s[a..][i - a] == s[i]; }
      }
    } else {
      assert s[a] == r[0];
    }
  }

  /** Stripping has exactly one possible answer. */
  lemma TrimsUnique(s: string, r1: string, r2: string)
    requires Trims(s, r1) && Trims(s, r2)
    ensures r1 == r2
  {
    var a1 :| FramedAt(s, a1, r1);
    var a2 :| FramedAt(s, a2, r2);
    FramedEmpty(s, a1, r1);
    FramedEmpty(s, a2, r2);
    if |r1| > 0 {
      FramedBounds(s, a1, r1, a2, r2);
    }
  }

  /** Strip removes exactly the surrounding whitespace: any trimmed r framed
      by whitespace in s is Strip(s). */
  lemma StripCharacterized(s: string, a: int, r: string)
    requires FramedAt(s, a, r) && IsTrimmed(r)
    ensures Strip(s) == r
  {
    TrimsUnique(s, Strip(s), r);
  }

  lemma StripIdempotent(s: string)
    ensures Strip(Strip(s)) == Strip(s)
  {
    var r := Strip(s);
    assert FramedAt(r, 0, r);
    StripCharacterized(r, 0, r);
  }

  /** sep occurs in s starting at index i. */
  predicate OccursAt(s: string, i: int, sep: string) {
    0 <= i && i + |sep| <= |s| && s[i..i + |sep|] == sep
  }

  ghost predicate Contains(s: string, sep: string) {
    exists i :: OccursAt(s, i, sep)
  }

  lemma OccursInSuffix(s: string, k: nat, i: nat, sep: string)
    requires k <= |s|
    ensures OccursAt(s[k..], i, sep) <==> OccursAt(s, i + k, sep)
  {
    if i + |sep| <= |s| - k {
      assert s[k..][i..i + |sep|] == s[i + k..i + k + |sep|];
    }
  }

  lemma OccursInPrefix(s: string, k: nat, i: int, sep: string)
    requires k <= |s| && OccursAt(s[..k], i, sep)
    ensures OccursAt(s, i, sep)
  {
    assert s[..k][i..i + |sep|] == s[i..i + |sep|];
  }

  /** Index of the first occurrence of sep in s, as Python's str.find. */
  function Find(s: string, sep: string): (r: Option<nat>)
    ensures r.Some? ==> OccursAt(s, r.value, sep)
    ensures r.Some? ==> forall j :: 0 <= j < r.value ==> !OccursAt(s, j, sep)
    ensures r.None? ==> forall j :: !OccursAt(s, j, sep)
    decreases |s|
  {
    if |s| < |sep| then None
    else if s[..|sep|] == sep then Some(0)
    else
      var rest := Find(s[1..], sep);
      assert forall j :: 1 <= j ==> (OccursAt(s, j, sep) <==> OccursAt(s[1..], j - 1, sep)) by {
        forall j | 1 <= j
          ensures OccursAt(s, j, sep) <==> OccursAt(s[1..], j - 1, sep)
        {
          OccursInSuffix(s, 1, j - 1, sep);
        }
      }
      assert !OccursAt(s, 0, sep);
      match rest
      case None => None
      case Some(i) => Some(i + 1)
  }

  /** The parts joined back with sep between them, as Python's sep.join. */
  function Join(parts: seq<string>, sep: string): string {
    if |parts| == 0 then ""
    else if |parts| == 1 then parts[0]
    else parts[0] + sep + Join(parts[1..], sep)
  }

  /** Python's s.split(sep) for a non-empty separator (Python raises
      ValueError for an empty one). */
  function Split(s: string, sep: string): (parts: seq<string>)
    requires |sep| > 0
    ensures |parts| >= 1
    ensures Join(parts, sep) == s
    ensures forall k :: 0 <= k < |parts| ==> !Contains(parts[k], sep)
    ensures |parts| >= 2 <==> Contains(s, sep)
    decreases |s|
  {
    match Find(s, sep)
    case None => [s]
    case Some(i) =>
      var head := s[..i];
      var tail := Split(s[i + |sep|..], sep);
      assert !Contains(head, sep) by {
        forall j | OccursAt(head, j, sep) ensures false {
          OccursInPrefix(s, i, j, sep);
        }
      }
      assert s == head + sep + s[i + |sep|..];
      [head] + tail
  }

  /** Splitting where sep first occurs at i takes s[..i] as the first part
      and splits the rest after that occurrence. */
  lemma SplitAtFirst(s: string, sep: string, i: nat)
    requires |sep| > 0 && OccursAt(s, i, sep)
    requires forall j :: 0 <= j < i ==> !OccursAt(s, j, sep)
    ensures Split(s, sep) == [s[..i]] + Split(s[i + |sep|..], sep)
  {
    assert Find(s, sep) == Some(i);
  }

  /** A string without sep splits into itself alone. */
  lemma SplitWithout(s: string, sep: string)
    requires |sep| > 0 && forall j :: !OccursAt(s, j, sep)
    ensures Split(s, sep) == [s]
  {
    assert Find(s, sep) == None;
  }
}
