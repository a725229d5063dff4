/**
 * The java.lang.String operations the client relies on, as functions over `seq<char>`:
 * `indexOf`, `contains`, `endsWith`, `trim`, `replace(target, "")`, ASCII case mapping,
 * and splitting on / joining with line feeds.
 */
module Text {

  /** `pat` occurs in `s` starting at index `i`. */
  predicate OccursAt(s: string, pat: string, i: int) {
    0 <= i && i + |pat| <= |s| && s[i..i + |pat|] == pat
  }

  /** One character that differs from the pattern rules out an occurrence there. */
  lemma MismatchAt(s: string, pat: string, i: int, k: int)
    requires 0 <= i && i + |pat| <= |s| && 0 <= k < |pat| && s[i + k] != pat[k]
    ensures !OccursAt(s, pat, i)
  {
    assert s[i..i + |pat|][k] == s[i + k];
  }

  /** `s.indexOf(pat, from)`: the first index at or after `from` where `pat` occurs, or -1. */
  function IndexOf(s: string, pat: string, from: nat): (r: int)
    ensures r == -1 || (from <= r && OccursAt(s, pat, r))
    ensures forall j :: from <= j && (r == -1 || j < r) ==> !OccursAt(s, pat, j)
    decreases |s| - from
  {
    if from + |pat| > |s| then -1
    else if s[from..from + |pat|] == pat then from
    else IndexOf(s, pat, from + 1)
  }

  /** `s.indexOf(c, from)` for a one-character pattern: the first index at or after `from` holding `c`, or -1. */
  function IndexOfChar(s: string, c: char, from: nat): (r: int)
    ensures r == -1 || (from <= r < |s| && s[r] == c)
    ensures forall j :: from <= j < |s| && (r == -1 || j < r) ==> s[j] != c
    decreases |s| - from
  {
    if from >= |s| then -1
    else if s[from] == c then from
    else IndexOfChar(s, c, from + 1)
  }

  /** The first index holding `c` is `i` when `s[i]` is `c` and no index before it from `from` on is. */
  lemma {:induction false} IndexOfCharAt(s: string, c: char, from: nat, i: nat)
    requires from <= i < |s| && s[i] == c
    requires forall j :: from <= j < i ==> s[j] != c
    ensures IndexOfChar(s, c, from) == i
    decreases i - from
  {
    if from < i {
      IndexOfCharAt(s, c, from + 1, i);
    }
  }

  /** `s.contains(pat)`. */
  function Contains(s: string, pat: string): (b: bool)
    ensures b <==> exists i :: OccursAt(s, pat, i)
  {
    IndexOf(s, pat, 0) >= 0
  }

  /** `s.endsWith(suffix)`. */
  predicate EndsWith(s: string, suffix: string) {
    |suffix| <= |s| && s[|s| - |suffix|..] == suffix
  }

  /** The characters `String.trim` strips: every code point up to and including the space. */
  predicate IsTrimmable(c: char) {
    c <= ' '
  }

  predicate AllTrimmable(s: string) {
    forall i :: 0 <= i < |s| ==> IsTrimmable(s[i])
  }

  /** The first index at or after `i` holding a non-trimmable character, or `|s|`. */
  function TrimStart(s: string, i: nat): (n: nat)
    requires i <= |s|
    ensures i <= n <= |s|
    ensures forall j :: i <= j < n ==> IsTrimmable(s[j])
    ensures n < |s| ==> !IsTrimmable(s[n])
    decreases |s| - i
  {
    if i < |s| && IsTrimmable(s[i]) then TrimStart(s, i + 1) else i
  }

  /** The end index after stripping trimmable characters off `s[st..len]` from the back. */
  function TrimEnd(s: string, st: nat, len: nat): (e: nat)
    requires st <= len <= |s|
    ensures st <= e <= len
    ensures forall j :: e <= j < len ==> IsTrimmable(s[j])
    ensures e > st ==> !IsTrimmable(s[e - 1])
    decreases len
  {
    if len > st && IsTrimmable(s[len - 1]) then TrimEnd(s, st, len - 1) else len
  }

  /** Number of trimmable characters at the front of `s`. */
  function LeadingTrimmable(s: string): (n: nat)
    ensures n <= |s|
  {
    TrimStart(s, 0)
  }

  /**
   * `s.trim()`: the front index moves past trimmable characters first, then the end
   * index moves back over trimmable characters, but not past the front, exactly as the
   * two loops of String.trim do.
   */
  function Trim(s: string): (r: string)
    ensures |r| <= |s|
    ensures r == [] || (!IsTrimmable(r[0]) && !IsTrimmable(r[|r| - 1]))
  {
    var st := TrimStart(s, 0);
    s[st..TrimEnd(s, st, |s|)]
  }

  /** The trim is the slice of `s` between a trimmable front and a trimmable back. */
  lemma TrimShape(s: string)
    ensures Trim(s) == [] ==> AllTrimmable(s)
    ensures LeadingTrimmable(s) + |Trim(s)| <= |s|
    ensures Trim(s) == s[LeadingTrimmable(s)..LeadingTrimmable(s) + |Trim(s)|]
    ensures forall j :: 0 <= j < LeadingTrimmable(s) ==> IsTrimmable(s[j])
    ensures forall j :: LeadingTrimmable(s) + |Trim(s)| <= j < |s| ==> IsTrimmable(s[j])
  {
    var st := TrimStart(s, 0);
    var e := TrimEnd(s, st, |s|);
    assert Trim(s) == s[st..e];
    assert st + |Trim(s)| == e;
  }

  /** A string with nothing to trim is its own trim. */
  lemma TrimUntrimmed(s: string)
    requires s == [] || (!IsTrimmable(s[0]) && !IsTrimmable(s[|s| - 1]))
    ensures Trim(s) == s
  {
  }

  /** Trimming twice is trimming once. */
  lemma TrimIdempotent(s: string)
    ensures Trim(Trim(s)) == Trim(s)
  {
    TrimUntrimmed(Trim(s));
  }

  /**
   * `s.replace(target, "")`: scans left to right and deletes each occurrence of `target`
   * that does not overlap an occurrence already deleted.  This is one pass: deleting can
   * join two halves into a new occurrence, which is kept.
   */
  function RemoveAll(s: string, target: string): (r: string)
    requires |target| > 0
    ensures |r| <= |s|
    decreases |s|
  {
    if |s| < |target| then s
    else if s[..|target|] == target then RemoveAll(s[|target|..], target)
    else [s[0]] + RemoveAll(s[1..], target)
  }

  /** Deleting changes the string exactly when the target occurs in it. */
  lemma {:induction false} RemoveAllUnchangedIff(s: string, target: string)
    requires |target| > 0
    ensures RemoveAll(s, target) == s <==> !Contains(s, target)
    decreases |s|
  {
    if Contains(s, target) {
      RemoveAllShrinks(s, target);
    } else if |s| >= |target| {
      assert !OccursAt(s, target, 0);
      forall i | OccursAt(s[1..], target, i) ensures false {
        assert s[1..][i..i + |target|] == s[i + 1..i + 1 + |target|];
        assert OccursAt(s, target, i + 1);
      }
      RemoveAllUnchangedIff(s[1..], target);
      assert s == [s[0]] + s[1..];
    }
  }

  /** When the target occurs, the pass deletes at least one whole copy of it. */
  lemma {:induction false} RemoveAllShrinks(s: string, target: string)
    requires |target| > 0 && Contains(s, target)
    ensures |RemoveAll(s, target)| + |target| <= |s|
    decreases |s|
  {
    var i :| OccursAt(s, target, i);
    if s[..|target|] != target {
      assert i != 0;
      assert s[1..][i - 1..i - 1 + |target|] == s[i..i + |target|];
      assert OccursAt(s[1..], target, i - 1);
      RemoveAllShrinks(s[1..], target);
    }
  }

  function LowerChar(c: char): char {
    if 'A' <= c <= 'Z' then (c as int + 32) as char else c
  }

  function UpperChar(c: char): char {
    if 'a' <= c <= 'z' then (c as int - 32) as char else c
  }

  /** `s.toLowerCase()`, restricted to the ASCII letters. */
  function ToLower(s: string): (r: string)
    ensures |r| == |s|
    ensures forall i :: 0 <= i < |s| ==> r[i] == LowerChar(s[i])
  {
    seq(|s|, i requires 0 <= i < |s| => LowerChar(s[i]))
  }

  /** `s.toUpperCase()`, restricted to the ASCII letters. */
  function ToUpper(s: string): (r: string)
    ensures |r| == |s|
    ensures forall i :: 0 <= i < |s| ==> r[i] == UpperChar(s[i])
  {
    seq(|s|, i requires 0 <= i < |s| => UpperChar(s[i]))
  }

  /**
   * The pieces of `s` between line feeds, in order: a string with k line feeds has k + 1
   * pieces, some possibly empty.  (`String.split("\n")` additionally drops trailing empty
   * pieces; see ResponseParser for why that makes no difference where it is used.)
   */
  function Lines(s: string): (r: seq<string>)
    ensures |r| >= 1
    ensures forall k :: 0 <= k < |r| ==> '\n' !in r[k]
    decreases |s|
  {
    if s == [] then [[]]
    else
      var rest := Lines(s[1..]);
      if s[0] == '\n' then [[]] + rest
      else [[s[0]] + rest[0]] + rest[1..]
  }

  /** The pieces joined with line feeds between them. */
  function JoinLines(ls: seq<string>): string
    requires |ls| >= 1
  {
    if |ls| == 1 then ls[0] else ls[0] + "\n" + JoinLines(ls[1..])
  }

  /** Appending a piece adds a line feed and the piece at the end. */
  lemma {:induction false} JoinLinesSnoc(ls: seq<string>, x: string)
    requires |ls| >= 1
    ensures JoinLines(ls + [x]) == JoinLines(ls) + "\n" + x
    decreases |ls|
  {
    if |ls| > 1 {
      assert (ls + [x])[1..] == ls[1..] + [x];
      JoinLinesSnoc(ls[1..], x);
    }
  }

  /** Splitting and then joining gives the string back. */
  lemma {:induction false} JoinLinesOfLines(s: string)
    ensures JoinLines(Lines(s)) == s
    decreases |s|
  {
    if s != [] {
      var rest := Lines(s[1..]);
      JoinLinesOfLines(s[1..]);
      if s[0] == '\n' {
        assert s == "\n" + s[1..];
      } else if |rest| == 1 {
        assert s == [s[0]] + s[1..];
      } else {
        assert rest == [rest[0]] + rest[1..];
        assert JoinLines(rest) == rest[0] + "\n" + JoinLines(rest[1..]);
        assert s == [s[0]] + s[1..];
      }
    }
  }

  lemma {:induction false} LinesWithoutFeed(a: string)
    requires '\n' !in a
    ensures Lines(a) == [a]
    decreases |a|
  {
    if a != [] {
      LinesWithoutFeed(a[1..]);
      assert a == [a[0]] + a[1..];
    }
  }

  lemma {:induction false} LinesAfterFeed(a: string, b: string)
    requires '\n' !in a
    ensures Lines(a + "\n" + b) == [a] + Lines(b)
    decreases |a|
  {
    var s := a + "\n" + b;
    if a == [] {
      assert s[1..] == b;
    } else {
      assert s[1..] == a[1..] + "\n" + b;
      LinesAfterFeed(a[1..], b);
      assert a == [a[0]] + a[1..];
    }
  }

  /** Joining pieces that hold no line feed and splitting again gives the pieces back. */
  lemma {:induction false} LinesOfJoinLines(ls: seq<string>)
    requires |ls| >= 1
    requires forall k :: 0 <= k < |ls| ==> '\n' !in ls[k]
    ensures Lines(JoinLines(ls)) == ls
    decreases |ls|
  {
    if |ls| == 1 {
      LinesWithoutFeed(ls[0]);
    } else {
      LinesOfJoinLines(ls[1..]);
      LinesAfterFeed(ls[0], JoinLines(ls[1..]));
    }
  }

  /** The first index where `pat` occurs is `i` when it occurs there and nowhere before. */
  lemma IndexOfAt(s: string, pat: string, from: nat, i: nat)
    requires from <= i && OccursAt(s, pat, i)
    requires forall j :: from <= j < i ==> !OccursAt(s, pat, j)
    ensures IndexOf(s, pat, from) == i
  {
  }

  /** Trimming keeps every occurrence of a pattern that starts and ends in non-trimmable characters. */
  lemma TrimKeepsOccurrence(s: string, pat: string, i: int)
    requires |pat| > 0 && !IsTrimmable(pat[0]) && !IsTrimmable(pat[|pat| - 1])
    requires OccursAt(s, pat, i)
    ensures OccursAt(Trim(s), pat, i - LeadingTrimmable(s))
  {
    var n, r := LeadingTrimmable(s), Trim(s);
    var e := i + |pat| - 1;
    TrimShape(s);
    assert s[i..i + |pat|][0] == s[i] && s[i..i + |pat|][|pat| - 1] == s[e];
    assert !IsTrimmable(s[i]) && !IsTrimmable(s[e]);
    assert n <= i && e < n + |r|;
    SliceOfSlice(s, n, n + |r|, i - n, e + 1 - n);
  }

  lemma AppendAssoc(a: string, b: string, c: string)
    ensures a + (b + c) == (a + b) + c
  {
  }

  /** A slice of a slice is a slice. */
  lemma SliceOfSlice(s: string, a: nat, b: nat, c: nat, d: nat)
    requires a <= b <= |s| && c <= d <= b - a
    ensures s[a..b][c..d] == s[a + c..a + d]
  {
    var t := s[a..b];
    assert forall k :: 0 <= k < d - c ==> t[c..d][k] == t[c + k] == s[a + c + k];
  }

  /** A character absent from `s` is absent from its trim. */
  lemma TrimKeepsAbsent(s: string, c: char)
    requires c !in s
    ensures c !in Trim(s)
  {
    var n, r := LeadingTrimmable(s), Trim(s);
    TrimShape(s);
    assert forall k :: 0 <= k < |r| ==> r[k] == s[n + k];
  }
}
