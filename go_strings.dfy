/**
 * The parts of Go's `strings` package that main.go uses: Index, Split, Join
 * and ReplaceAll, with a separator that is never empty (every call in main.go
 * passes a literal, non-empty separator).
 *
 * Substitute is an independent, character-by-character reference definition;
 * the lemmas show that Join(Split(s, [c]), r) and ReplaceAll(s, [c], r) both
 * equal it.
 */
module GoStrings {

  /** `sep` occurs in `s` starting at position `k`. */
  predicate OccursAt(s: string, sep: string, k: int)
  {
    0 <= k && k + |sep| <= |s| && s[k..k + |sep|] == sep
  }

  /** `sep` occurs nowhere in `s`. */
  predicate Free(s: string, sep: string)
  {
    forall k :: 0 <= k <= |s| ==> !OccursAt(s, sep, k)
  }

  lemma OccursAtShift(s: string, sep: string)
    requires |s| > 0
    ensures forall k :: 1 <= k ==> (OccursAt(s, sep, k) <==> OccursAt(s[1..], sep, k - 1))
  {
  }

  /** strings.Index: the position of the first occurrence of `sep` in `s`, or -1. */
  function Index(s: string, sep: string): (r: int)
    ensures -1 <= r
    ensures r >= 0 ==> OccursAt(s, sep, r)
    ensures forall k :: (r < 0 || k < r) ==> !OccursAt(s, sep, k)
    decreases |s|
  {
    if |s| < |sep| then -1
    else if s[..|sep|] == sep then 0
    else
      OccursAtShift(s, sep);
      var r := Index(s[1..], sep);
      if r < 0 then -1 else r + 1
  }

  /**
   * strings.Split: the pieces of `s` around every non-overlapping occurrence
   * of `sep`, scanning from the left; a string without `sep` gives [s].
   */
  function Split(s: string, sep: string): (parts: seq<string>)
    requires |sep| > 0
    ensures |parts| >= 1
    decreases |s|
  {
    var i := Index(s, sep);
    if i < 0 then [s] else [s[..i]] + Split(s[i + |sep|..], sep)
  }

  /** strings.Join: the pieces with `sep` between consecutive ones. */
  function Join(parts: seq<string>, sep: string): (s: string)
    ensures |parts| > 0 ==> parts[0] <= s
  {
    if |parts| == 0 then ""
    else if |parts| == 1 then parts[0]
    else parts[0] + sep + Join(parts[1..], sep)
  }

  /**
   * strings.ReplaceAll: `s` with every non-overlapping occurrence of `target`,
   * found from the left, replaced by `repl`.
   */
  function ReplaceAll(s: string, target: string, repl: string): (r: string)
    requires |target| > 0
    ensures |target| == |repl| ==> |r| == |s|
    ensures Free(s, target) ==> r == s
    decreases |s|
  {
    var i := Index(s, target);
    if i < 0 then s else s[..i] + repl + ReplaceAll(s[i + |target|..], target, repl)
  }

  /** Reference definition: every character `c` of `s` replaced by the string `r`. */
  function Substitute(s: string, c: char, r: string): (t: string)
  {
    if s == [] then [] else (if s[0] == c then r else [s[0]]) + Substitute(s[1..], c, r)
  }

  /** The text of `s` before the first `sep`; all of `s` when there is none. */
  function BeforeFirst(s: string, sep: string): (t: string)
    requires |sep| > 0
    ensures t <= s
    ensures Free(t, sep)
  {
    var i := Index(s, sep);
    if i < 0 then s
    else
      assert forall k :: OccursAt(s[..i], sep, k) ==> OccursAt(s, sep, k) by {
        forall k | OccursAt(s[..i], sep, k) ensures OccursAt(s, sep, k) {
          assert s[..i][k..k + |sep|] == s[k..k + |sep|];
        }
      }
      s[..i]
  }

  /** The text of `s` after the first `sep`; empty when there is none. */
  function AfterFirst(s: string, sep: string): (t: string)
    requires |sep| > 0
    ensures |t| <= |s|
    ensures forall ch :: ch in t ==> ch in s
  {
    var i := Index(s, sep);
    if i < 0 then "" else s[i + |sep|..]
  }

  /** Splitting and joining back with the same separator gives the string back. */
  lemma {:induction false} JoinSplit(s: string, sep: string)
    requires |sep| > 0
    ensures Join(Split(s, sep), sep) == s
    decreases |s|
  {
    var i := Index(s, sep);
    if i >= 0 {
      var rest := s[i + |sep|..];
      JoinSplit(rest, sep);
      assert Split(s, sep) == [s[..i]] + Split(rest, sep);
      JoinCons(s[..i], Split(rest, sep), sep);
      assert s == s[..i] + s[i..i + |sep|] + rest;
    }
  }

  /** No piece of a split contains the separator. */
  lemma {:induction false} SplitPiecesFree(s: string, sep: string)
    requires |sep| > 0
    ensures forall j :: 0 <= j < |Split(s, sep)| ==> Free(Split(s, sep)[j], sep)
    decreases |s|
  {
    var i := Index(s, sep);
    if i >= 0 {
      var rest := s[i + |sep|..];
      SplitPiecesFree(rest, sep);
      assert Split(s, sep)[0] == BeforeFirst(s, sep);
      assert forall j :: 1 <= j < |Split(s, sep)| ==> Split(s, sep)[j] == Split(rest, sep)[j - 1];
    }
  }

  /** The first piece is the text before the first separator. */
  lemma SplitFirst(s: string, sep: string)
    requires |sep| > 0
    ensures Split(s, sep)[0] == BeforeFirst(s, sep)
  {
  }

  /** Joining all pieces but the first gives the text after the first separator. */
  lemma SplitRest(s: string, sep: string)
    requires |sep| > 0
    ensures Join(Split(s, sep)[1..], sep) == AfterFirst(s, sep)
    ensures |Split(s, sep)| > 1 <==> Index(s, sep) >= 0
    ensures |Split(s, sep)| > 1 ==> Split(s, sep)[1] == BeforeFirst(AfterFirst(s, sep), sep)
  {
    var i := Index(s, sep);
    if i >= 0 {
      var rest := s[i + |sep|..];
      assert Split(s, sep)[1..] == Split(rest, sep);
      JoinSplit(rest, sep);
    }
  }

  lemma {:induction false} SubstituteAppend(a: string, b: string, c: char, r: string)
    ensures Substitute(a + b, c, r) == Substitute(a, c, r) + Substitute(b, c, r)
  {
    if a == [] {
      assert a + b == b;
    } else {
      assert (a + b)[0] == a[0];
      assert (a + b)[1..] == a[1..] + b;
      SubstituteAppend(a[1..], b, c, r);
    }
  }

  lemma {:induction false} SubstituteAbsent(s: string, c: char, r: string)
    requires c !in s
    ensures Substitute(s, c, r) == s
  {
    if s != [] {
      SubstituteAbsent(s[1..], c, r);
    }
  }

  /** Splitting on one character and joining with `r` substitutes `r` for that character. */
  lemma {:induction false} JoinSplitChar(s: string, c: char, r: string)
    ensures Join(Split(s, [c]), r) == Substitute(s, c, r)
    decreases |s|
  {
    var i := Index(s, [c]);
    CharFreeBefore(s, c);
    if i < 0 {
      SubstituteAbsent(s, c, r);
    } else {
      var rest := s[i + 1..];
      JoinSplitChar(rest, c, r);
      JoinCons(s[..i], Split(rest, [c]), r);
      SubstituteAtFirst(s, c, r, i);
    }
  }

  lemma JoinCons(first: string, parts: seq<string>, sep: string)
    requires |parts| >= 1
    ensures Join([first] + parts, sep) == first + sep + Join(parts, sep)
  {
  }

  /** Substitution around the first `c` of `s`, at position `i`. */
  lemma SubstituteAtFirst(s: string, c: char, r: string, i: int)
    requires 0 <= i < |s| && s[i] == c && c !in s[..i]
    ensures Substitute(s, c, r) == s[..i] + r + Substitute(s[i + 1..], c, r)
  {
    var pre, rest := s[..i], s[i + 1..];
    SubstituteAbsent(pre, c, r);
    assert s == pre + ([c] + rest);
    SubstituteAppend(pre, [c] + rest, c, r);
    assert ([c] + rest)[1..] == rest;
  }

  /** No `c` comes before the first `c`; none at all when Index finds none. */
  lemma CharFreeBefore(s: string, c: char)
    ensures Index(s, [c]) < 0 ==> c !in s
    ensures Index(s, [c]) >= 0 ==> c !in s[..Index(s, [c])]
  {
  }

  /** ReplaceAll agrees with splitting on `target` and joining with `repl`. */
  lemma {:induction false} ReplaceAllIsJoinSplit(s: string, target: string, repl: string)
    requires |target| > 0
    ensures ReplaceAll(s, target, repl) == Join(Split(s, target), repl)
    decreases |s|
  {
    var i := Index(s, target);
    if i >= 0 {
      var rest := s[i + |target|..];
      ReplaceAllIsJoinSplit(rest, target, repl);
      assert Split(s, target) == [s[..i]] + Split(rest, target);
      JoinCons(s[..i], Split(rest, target), repl);
    }
  }

  /** Substituting one character for another keeps the length and touches nothing else. */
  lemma {:induction false} SubstituteCharAt(s: string, c: char, d: char)
    ensures |Substitute(s, c, [d])| == |s|
    ensures forall k :: 0 <= k < |s| ==> Substitute(s, c, [d])[k] == if s[k] == c then d else s[k]
  {
    if s != [] {
      SubstituteCharAt(s[1..], c, d);
    }
  }

  /** Substituting the empty string for a character removes every occurrence of it. */
  lemma {:induction false} SubstituteDeletes(s: string, c: char)
    ensures c !in Substitute(s, c, "")
    ensures |Substitute(s, c, "")| <= |s|
  {
    if s != [] {
      SubstituteDeletes(s[1..], c);
    }
  }

  /** Replacing every `c` by `d` (c != d) with strings.ReplaceAll, character by character. */
  lemma ReplaceCharAt(s: string, c: char, d: char)
    ensures |ReplaceAll(s, [c], [d])| == |s|
    ensures forall k :: 0 <= k < |s| ==> ReplaceAll(s, [c], [d])[k] == if s[k] == c then d else s[k]
  {
    ReplaceAllIsJoinSplit(s, [c], [d]);
    JoinSplitChar(s, c, [d]);
    SubstituteCharAt(s, c, d);
  }

  /** A piece cut out of a string that does not contain `sep` does not contain it either. */
  lemma SliceFree(s: string, sep: string, a: int, b: int)
    requires 0 <= a <= b <= |s|
    requires Free(s, sep)
    ensures Free(s[a..b], sep)
  {
    forall k ensures !OccursAt(s[a..b], sep, k) {
      if OccursAt(s[a..b], sep, k) {
        var w := s[a + k..a + k + |sep|];
        forall j | 0 <= j < |sep| ensures w[j] == sep[j] {
          assert sep[j] == s[a..b][k + j];
        }
        assert w == sep;
        assert OccursAt(s, sep, a + k);
      }
    }
  }

  /** Cutting at a separator keeps a string free of any text it was free of. */
  lemma PiecesFree(s: string, sep: string, x: string)
    requires |sep| > 0
    requires Free(s, x)
    ensures Free(BeforeFirst(s, sep), x) && Free(AfterFirst(s, sep), x)
  {
    var i := Index(s, sep);
    if i >= 0 {
      SliceFree(s, x, 0, i);
      assert s[0..i] == s[..i];
      SliceFree(s, x, i + |sep|, |s|);
      assert s[i + |sep|..|s|] == s[i + |sep|..];
    }
  }
}
