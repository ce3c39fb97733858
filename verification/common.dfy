/**
  Shared vocabulary for the shell model: an `Option` type, a few sequence
  relations, and the JavaScript string operations the shell code relies on
  (`split`, `join`, `indexOf`, `replace` with a string pattern, trimming and
  splitting on `\s`).
 */
module Common {

  datatype Option<+T> = None | Some(value: T)

  // ---------------------------------------------------------------------------
  // Sequences
  // ---------------------------------------------------------------------------

  /** `a` is obtained from `b` by deleting elements, so it keeps `b`'s relative order. */
  predicate IsSubsequence<T(==)>(a: seq<T>, b: seq<T>)
    decreases |b|
  {
    |a| == 0 ||
    (|b| > 0 && ((a[0] == b[0] && IsSubsequence(a[1..], b[1..])) || IsSubsequence(a, b[1..])))
  }

  lemma {:induction false} SubsequenceReflexive<T>(s: seq<T>)
    ensures IsSubsequence(s, s)
    decreases |s|
  {
    if |s| > 0 {
      SubsequenceReflexive(s[1..]);
    }
  }

  lemma {:induction false} SubsequenceTransitive<T>(a: seq<T>, b: seq<T>, c: seq<T>)
    requires IsSubsequence(a, b) && IsSubsequence(b, c)
    ensures IsSubsequence(a, c)
    decreases |c|
  {
    if |a| > 0 {
      if IsSubsequence(b, c[1..]) {
        SubsequenceTransitive(a, b, c[1..]);
      } else {
        assert b[0] == c[0] && IsSubsequence(b[1..], c[1..]);
        if a[0] == b[0] && IsSubsequence(a[1..], b[1..]) {
          SubsequenceTransitive(a[1..], b[1..], c[1..]);
        } else {
          SubsequenceTransitive(a, b[1..], c[1..]);
        }
      }
    }
  }

  /** Every element of a subsequence comes from the longer sequence. */
  lemma {:induction false} SubsequenceMembers<T>(a: seq<T>, b: seq<T>)
    requires IsSubsequence(a, b)
    ensures forall x :: x in a ==> x in b
    decreases |b|
  {
    if |a| > 0 {
      if a[0] == b[0] && IsSubsequence(a[1..], b[1..]) {
        SubsequenceMembers(a[1..], b[1..]);
        assert a == [a[0]] + a[1..];
        assert b == [b[0]] + b[1..];
      } else {
        SubsequenceMembers(a, b[1..]);
        assert b == [b[0]] + b[1..];
      }
    }
  }

  /** `s` without the element at position `i` (JavaScript `s.splice(i, 1)`). */
  function RemoveAt<T>(s: seq<T>, i: nat): (r: seq<T>)
    requires i < |s|
    ensures |r| == |s| - 1
    ensures multiset(r) + multiset{s[i]} == multiset(s)
    ensures forall k :: 0 <= k < i ==> r[k] == s[k]
    ensures forall k :: i <= k < |r| ==> r[k] == s[k + 1]
  {
    assert s == s[..i] + [s[i]] + s[i + 1..];
    s[..i] + s[i + 1..]
  }

  lemma {:induction false} RemoveAtIsSubsequence<T>(s: seq<T>, i: nat)
    requires i < |s|
    ensures IsSubsequence(RemoveAt(s, i), s)
    decreases i
  {
    var r := RemoveAt(s, i);
    if i == 0 {
      assert r == s[1..];
      SubsequenceReflexive(s[1..]);
    } else {
      var t := s[1..];
      RemoveAtIsSubsequence(t, i - 1);
      assert r[1..] == RemoveAt(t, i - 1);
      SubsequenceStep(r, s);
    }
  }

  /** Equal first elements followed by a subsequence make a subsequence. */
  lemma SubsequenceStep<T>(a: seq<T>, b: seq<T>)
    requires |a| > 0 && |b| > 0 && a[0] == b[0] && IsSubsequence(a[1..], b[1..])
    ensures IsSubsequence(a, b)
  {
  }

  /** The elements of `s` that `keep` accepts, in their original order (JavaScript `filter`). */
  function Filter<T>(s: seq<T>, keep: T -> bool): (r: seq<T>)
    ensures |r| <= |s|
    ensures forall i :: 0 <= i < |r| ==> keep(r[i])
    ensures forall i :: 0 <= i < |s| && keep(s[i]) ==> s[i] in r
  {
    if |s| == 0 then []
    else
      var rest := Filter(s[1..], keep);
      assert s == [s[0]] + s[1..];
      if keep(s[0]) then [s[0]] + rest else rest
  }

  /** Filtering only deletes elements. */
  lemma {:induction false} FilterIsSubsequence<T>(s: seq<T>, keep: T -> bool)
    ensures IsSubsequence(Filter(s, keep), s)
    decreases |s|
  {
    if |s| > 0 {
      FilterIsSubsequence(s[1..], keep);
      if keep(s[0]) {
        assert Filter(s, keep)[1..] == Filter(s[1..], keep);
      }
    }
  }

  /** What filtering keeps: exactly the accepted elements. */
  lemma FilterMembers<T>(s: seq<T>, keep: T -> bool)
    ensures forall x :: x in Filter(s, keep) <==> x in s && keep(x)
  {
    FilterIsSubsequence(s, keep);
    SubsequenceMembers(Filter(s, keep), s);
  }

  lemma {:induction false} FilterAppend<T>(a: seq<T>, b: seq<T>, keep: T -> bool)
    ensures Filter(a + b, keep) == Filter(a, keep) + Filter(b, keep)
    decreases |a|
  {
    if |a| == 0 {
      assert a + b == b;
    } else {
      FilterAppend(a[1..], b, keep);
      assert (a + b)[1..] == a[1..] + b;
    }
  }

  /** Filtering keeps a list whole exactly when every element is accepted. */
  lemma {:induction false} FilterKeepsAll<T>(a: seq<T>, keep: T -> bool)
    requires forall i :: 0 <= i < |a| ==> keep(a[i])
    ensures Filter(a, keep) == a
    decreases |a|
  {
    if |a| > 0 {
      FilterKeepsAll(a[1..], keep);
    }
  }

  /** Filtering leaves nothing exactly when no element is accepted. */
  lemma {:induction false} FilterEmpty<T>(a: seq<T>, keep: T -> bool)
    ensures Filter(a, keep) == [] <==> forall i :: 0 <= i < |a| ==> !keep(a[i])
    decreases |a|
  {
    if |a| > 0 {
      FilterEmpty(a[1..], keep);
      assert forall i :: 1 <= i < |a| ==> a[i] == a[1..][i - 1];
    }
  }

  /** No element occurs twice. */
  predicate Distinct<T(==)>(s: seq<T>) {
    forall i :: 0 <= i < |s| ==> multiset(s)[s[i]] <= 1
  }

  lemma DistinctIndices<T>(s: seq<T>, i: nat, j: nat)
    requires Distinct(s) && i < |s| && j < |s| && i != j
    ensures s[i] != s[j]
  {
    var lo, hi := if i < j then i else j, if i < j then j else i;
    assert s == s[..hi] + s[hi..];
    assert s[..hi][lo] == s[lo] && s[hi..][0] == s[hi];
    assert multiset(s[..hi])[s[lo]] >= 1 && multiset(s[hi..])[s[hi]] >= 1;
    assert multiset(s) == multiset(s[..hi]) + multiset(s[hi..]);
  }

  /** Taking elements out of a list without repeats leaves a list without repeats. */
  lemma DistinctSubMultiset<T>(a: seq<T>, b: seq<T>)
    requires multiset(a) <= multiset(b) && Distinct(b)
    ensures Distinct(a)
  {
    forall i | 0 <= i < |a|
      ensures multiset(a)[a[i]] <= 1
    {
      assert a[i] in multiset(b);
      var j :| 0 <= j < |b| && b[j] == a[i];
    }
  }

  /** A listed element of a repeat-free list occurs exactly once. */
  lemma DistinctOnce<T>(s: seq<T>, x: T)
    requires Distinct(s) && x in s
    ensures multiset(s)[x] == 1
  {
    var j :| 0 <= j < |s| && s[j] == x;
  }

  /** Pairwise different positions hold different elements, so nothing occurs twice. */
  lemma {:induction false} DistinctFromIndices<T>(s: seq<T>)
    requires forall i, j :: 0 <= i < j < |s| ==> s[i] != s[j]
    ensures Distinct(s)
    decreases |s|
  {
    if |s| > 0 {
      var tail := s[1..];
      assert forall i, j :: 0 <= i < j < |tail| ==> tail[i] == s[i + 1] && tail[j] == s[j + 1];
      DistinctFromIndices(tail);
      assert s[0] !in tail by {
        forall k | 0 <= k < |tail| ensures tail[k] != s[0] {
          assert tail[k] == s[k + 1];
        }
      }
      DistinctCons(s[0], tail);
      assert s == [s[0]] + tail;
    }
  }

  /** Appending an element keeps a list repeat-free exactly when the element is new. */
  lemma DistinctSnoc<T>(s: seq<T>, x: T)
    ensures Distinct(s + [x]) <==> Distinct(s) && x !in s
  {
    var t := s + [x];
    assert multiset(t) == multiset(s) + multiset{x};
    if Distinct(t) {
      forall i | 0 <= i < |s| ensures multiset(s)[s[i]] <= 1 {
        assert t[i] == s[i];
      }
      assert t[|s|] == x;
    }
    if Distinct(s) && x !in s {
      forall i | 0 <= i < |t| ensures multiset(t)[t[i]] <= 1 {
        if i < |s| {
          assert t[i] == s[i];
        }
      }
    }
  }

  /** Putting an element in front keeps a list repeat-free exactly when the element is new. */
  lemma DistinctCons<T>(x: T, s: seq<T>)
    ensures Distinct([x] + s) <==> Distinct(s) && x !in s
  {
    var t := [x] + s;
    assert multiset(t) == multiset(s) + multiset{x};
    if Distinct(t) {
      forall i | 0 <= i < |s| ensures multiset(s)[s[i]] <= 1 {
        assert t[i + 1] == s[i];
      }
      assert t[0] == x;
    }
    if Distinct(s) && x !in s {
      forall i | 0 <= i < |t| ensures multiset(t)[t[i]] <= 1 {
        if i > 0 {
          assert t[i] == s[i - 1];
        }
      }
    }
  }

  /** Number of occurrences of `x` in `s`. */
  function Count<T(==)>(s: seq<T>, x: T): (n: nat)
    ensures n == multiset(s)[x]
  {
    if |s| == 0 then 0
    else
      assert s == [s[0]] + s[1..];
      (if s[0] == x then 1 else 0) + Count(s[1..], x)
  }

  // ---------------------------------------------------------------------------
  // Strings
  // ---------------------------------------------------------------------------

  predicate IsPrefix(p: string, s: string) {
    |p| <= |s| && s[..|p|] == p
  }

  /** `p` occurs in `s` starting at position `j`. */
  predicate OccursAt(s: string, p: string, j: nat) {
    j + |p| <= |s| && s[j..j + |p|] == p
  }

  /** JavaScript `s.indexOf(p)`: the first position at which `p` occurs in `s`. */
  function Find(s: string, p: string): (r: Option<nat>)
    ensures r.Some? ==> OccursAt(s, p, r.value)
    ensures r.Some? ==> forall j :: 0 <= j < r.value ==> !OccursAt(s, p, j)
    ensures r.None? ==> forall j :: 0 <= j ==> !OccursAt(s, p, j)
    decreases |s|
  {
    if IsPrefix(p, s) then Some(0)
    else if |s| == 0 then None
    else
      var rest := Find(s[1..], p);
      assert forall j: nat :: 1 <= j ==> (OccursAt(s, p, j) <==> OccursAt(s[1..], p, j - 1));
      match rest
      case None => None
      case Some(i) => Some(i + 1)
  }

  predicate Contains(s: string, p: string) {
    Find(s, p).Some?
  }

  /** `indexOf(p) == 0` is exactly "`p` is a prefix". */
  lemma FindZeroIsPrefix(s: string, p: string)
    ensures Find(s, p) == Some(0) <==> IsPrefix(p, s)
  {
  }

  /**
    A pattern whose first character does not occur before it is found where it
    was placed.
   */
  lemma FindAfterPrefix(pre: string, pat: string, post: string)
    requires |pat| > 0 && pat[0] !in pre
    ensures Find(pre + pat + post, pat) == Some(|pre|)
  {
    var s := pre + pat + post;
    assert OccursAt(s, pat, |pre|) by {
      assert s[|pre|..|pre| + |pat|] == pat;
    }
    forall j | 0 <= j < |pre|
      ensures !OccursAt(s, pat, j)
    {
      assert s[j] == pre[j];
    }
  }

  /** JavaScript `s.replace(pat, rep)` with a string pattern: only the first occurrence is replaced. */
  function ReplaceFirst(s: string, pat: string, rep: string): string {
    match Find(s, pat)
    case None => s
    case Some(i) => s[..i] + rep + s[i + |pat|..]
  }

  lemma ReplaceFirstAfterPrefix(pre: string, pat: string, post: string, rep: string)
    requires |pat| > 0 && pat[0] !in pre
    ensures ReplaceFirst(pre + pat + post, pat, rep) == pre + rep + post
  {
    FindAfterPrefix(pre, pat, post);
    var s := pre + pat + post;
    assert s[..|pre|] == pre;
    assert s[|pre| + |pat|..] == post;
  }

  /** JavaScript `parts.join(sep)`. */
  function Join(parts: seq<string>, sep: string): string {
    if |parts| == 0 then ""
    else if |parts| == 1 then parts[0]
    else parts[0] + sep + Join(parts[1..], sep)
  }

  /** JavaScript `s.split(sep)` for a one-character separator. */
  function Split(s: string, sep: char): (parts: seq<string>)
    ensures |parts| >= 1
    ensures forall i :: 0 <= i < |parts| ==> sep !in parts[i]
    ensures Join(parts, [sep]) == s
    decreases |s|
  {
    if |s| == 0 then [""]
    else
      var rest := Split(s[1..], sep);
      if s[0] == sep then
        assert ([""] + rest)[1..] == rest;
        [""] + rest
      else
        var parts := [[s[0]] + rest[0]] + rest[1..];
        assert parts[1..] == rest[1..];
        assert |rest| > 1 ==> Join(rest, [sep]) == rest[0] + [sep] + Join(rest[1..], [sep]);
        parts
  }

  lemma {:induction false} SplitWithoutSeparator(a: string, sep: char)
    requires sep !in a
    ensures Split(a, sep) == [a]
    decreases |a|
  {
    if |a| > 0 {
      SplitWithoutSeparator(a[1..], sep);
      assert [a[0]] + a[1..] == a;
    }
  }

  lemma {:induction false} SplitAtSeparator(a: string, sep: char, b: string)
    requires sep !in a
    ensures Split(a + [sep] + b, sep) == [a] + Split(b, sep)
    decreases |a|
  {
    var s := a + [sep] + b;
    if |a| == 0 {
      assert s[1..] == b;
    } else {
      assert s[1..] == a[1..] + [sep] + b;
      SplitAtSeparator(a[1..], sep, b);
      assert [a[0]] + a[1..] == a;
    }
  }

  /** Splitting a joined list gives the list back when no part holds the separator. */
  lemma {:induction false} SplitJoin(parts: seq<string>, sep: char)
    requires |parts| >= 1
    requires forall i :: 0 <= i < |parts| ==> sep !in parts[i]
    ensures Split(Join(parts, [sep]), sep) == parts
    decreases |parts|
  {
    if |parts| == 1 {
      SplitWithoutSeparator(parts[0], sep);
    } else {
      SplitJoin(parts[1..], sep);
      SplitAtSeparator(parts[0], sep, Join(parts[1..], [sep]));
      assert [parts[0]] + parts[1..] == parts;
    }
  }

  /** The characters JavaScript's `\s` matches (WhiteSpace and LineTerminator of ECMA-262). */
  predicate IsWhitespace(c: char) {
    c == '\t' || c == '\n' || c == '\U{000B}' || c == '\U{000C}' || c == '\r' || c == ' ' ||
    c == '\U{00A0}' || c == '\U{1680}' || ('\U{2000}' <= c <= '\U{200A}') ||
    c == '\U{2028}' || c == '\U{2029}' || c == '\U{202F}' || c == '\U{205F}' ||
    c == '\U{3000}' || c == '\U{FEFF}'
  }

  predicate AllWhitespace(s: string) {
    forall i :: 0 <= i < |s| ==> IsWhitespace(s[i])
  }

  predicate NoWhitespace(s: string) {
    forall i :: 0 <= i < |s| ==> !IsWhitespace(s[i])
  }

  /** `s` with every whitespace character deleted. */
  function DropWhitespace(s: string): string {
    if |s| == 0 then ""
    else if IsWhitespace(s[0]) then DropWhitespace(s[1..])
    else [s[0]] + DropWhitespace(s[1..])
  }

  function Concat(parts: seq<string>): string {
    if |parts| == 0 then "" else parts[0] + Concat(parts[1..])
  }

  /** Length of the whitespace run at the start of `s` (what `/^\s+/` removes). */
  function LeadingWhitespace(s: string): (n: nat)
    ensures n <= |s| && AllWhitespace(s[..n])
    ensures n == |s| || !IsWhitespace(s[n])
  {
    if |s| > 0 && IsWhitespace(s[0]) then
      var k := LeadingWhitespace(s[1..]);
      assert s[..k + 1] == [s[0]] + s[1..][..k];
      k + 1
    else 0
  }

  /** Where the whitespace run at the end of `s` starts (what `/\s+$/` removes). */
  function TrailingStart(s: string): (n: nat)
    ensures n <= |s| && AllWhitespace(s[n..])
    ensures n == 0 || !IsWhitespace(s[n - 1])
  {
    if |s| > 0 && IsWhitespace(s[|s| - 1]) then
      var k := TrailingStart(s[..|s| - 1]);
      assert s[k..] == s[..|s| - 1][k..] + [s[|s| - 1]];
      k
    else |s|
  }

  /**
    `s.replace(/^\s+/g, '').replace(/\s+$/g, '')`: the part of `s` between a
    whitespace-only head and a whitespace-only tail (`TrimCut`); it neither
    starts nor ends with whitespace, and it is empty exactly when `s` is all
    whitespace.
   */
  function Trim(s: string): (r: string)
    ensures |r| == 0 || (!IsWhitespace(r[0]) && !IsWhitespace(r[|r| - 1]))
    ensures |r| == 0 <==> AllWhitespace(s)
  {
    var i := LeadingWhitespace(s);
    var j := i + TrailingStart(s[i..]);
    TrimCut(s, i, j);
    TrimEmpty(s, i, j);
    TrimEnds(s, i, j);
    s[i..j]
  }

  /** The part `Trim` keeps neither starts nor ends with whitespace. */
  lemma TrimEnds(s: string, i: nat, j: nat)
    requires i == LeadingWhitespace(s) && j == i + TrailingStart(s[i..])
    ensures var r := s[i..j]; |r| == 0 || (!IsWhitespace(r[0]) && !IsWhitespace(r[|r| - 1]))
  {
    if i < j {
      assert s[i..j][0] == s[i];
      assert s[i..j][j - i - 1] == s[i..][j - i - 1];
    }
  }

  /** A whitespace head meeting a whitespace tail leaves only whitespace; a non-whitespace start rules that out. */
  lemma TrimEmpty(s: string, i: nat, j: nat)
    requires i <= j <= |s| && AllWhitespace(s[..i]) && AllWhitespace(s[j..])
    requires i == |s| || !IsWhitespace(s[i])
    ensures i == j <==> AllWhitespace(s)
  {
    if i == j {
      forall k | 0 <= k < |s| ensures IsWhitespace(s[k]) {
        if k < i { assert s[k] == s[..i][k]; } else { assert s[k] == s[j..][k - j]; }
      }
    }
  }

  /** Words of the kind `split(/\s+/)` yields from a trimmed, non-empty string. */
  predicate Words(terms: seq<string>) {
    |terms| >= 1 && forall i :: 0 <= i < |terms| ==> |terms[i]| > 0 && NoWhitespace(terms[i])
  }

  /**
    JavaScript `s.split(/\s+/)`: runs of whitespace separate the parts. The
    lemmas below state what the parts are.
   */
  function SplitWhitespace(s: string): (parts: seq<string>)
    ensures |parts| >= 1
    decreases |s|
  {
    if |s| == 0 then [""]
    else
      var rest := SplitWhitespace(s[1..]);
      if IsWhitespace(s[0]) then
        if |s| > 1 && IsWhitespace(s[1]) then rest else [""] + rest
      else [[s[0]] + rest[0]] + rest[1..]
  }

  /** No part holds whitespace. */
  lemma {:induction false} SplitWhitespaceParts(s: string)
    ensures forall i :: 0 <= i < |SplitWhitespace(s)| ==> NoWhitespace(SplitWhitespace(s)[i])
    decreases |s|
  {
    if |s| > 0 {
      SplitWhitespaceParts(s[1..]);
      var rest := SplitWhitespace(s[1..]);
      if !IsWhitespace(s[0]) {
        assert NoWhitespace([s[0]] + rest[0]);
      }
    }
  }

  /** The parts put together are the string without its whitespace. */
  lemma {:induction false} SplitWhitespaceConcat(s: string)
    ensures Concat(SplitWhitespace(s)) == DropWhitespace(s)
    decreases |s|
  {
    if |s| > 0 {
      SplitWhitespaceConcat(s[1..]);
      var rest := SplitWhitespace(s[1..]);
      var parts := SplitWhitespace(s);
      if IsWhitespace(s[0]) {
        if !(|s| > 1 && IsWhitespace(s[1])) {
          assert parts[1..] == rest;
        }
      } else {
        assert parts[1..] == rest[1..];
        assert Concat(rest) == rest[0] + Concat(rest[1..]);
      }
    }
  }

  /** There is a single part exactly when there is no whitespace. */
  lemma {:induction false} SplitWhitespaceSingle(s: string)
    ensures |SplitWhitespace(s)| == 1 <==> NoWhitespace(s)
    decreases |s|
  {
    if |s| > 0 {
      SplitWhitespaceSingle(s[1..]);
      assert NoWhitespace(s) <==> !IsWhitespace(s[0]) && NoWhitespace(s[1..]) by {
        assert forall i :: 1 <= i < |s| ==> s[i] == s[1..][i - 1];
      }
    }
  }

  /** The first part is empty exactly when the string is empty or starts with whitespace. */
  lemma {:induction false} SplitWhitespaceFirst(s: string)
    ensures SplitWhitespace(s)[0] == "" <==> (|s| == 0 || IsWhitespace(s[0]))
    decreases |s|
  {
    if |s| > 0 {
      SplitWhitespaceFirst(s[1..]);
    }
  }

  /** The last part is empty exactly when the string is empty or ends with whitespace. */
  lemma {:induction false} SplitWhitespaceLast(s: string)
    ensures var parts := SplitWhitespace(s);
      parts[|parts| - 1] == "" <==> (|s| == 0 || IsWhitespace(s[|s| - 1]))
    decreases |s|
  {
    if |s| > 0 {
      var t := s[1..];
      SplitWhitespaceLast(t);
      SplitWhitespaceSingle(t);
      SplitWhitespaceFirst(t);
      assert |t| > 0 ==> s[|s| - 1] == t[|t| - 1];
    }
  }

  /** Only the first and the last part can be empty. */
  lemma {:induction false} SplitWhitespaceInner(s: string)
    ensures var parts := SplitWhitespace(s); forall i :: 0 < i < |parts| - 1 ==> parts[i] != ""
    decreases |s|
  {
    if |s| > 0 {
      SplitWhitespaceInner(s[1..]);
      SplitWhitespaceFirst(s[1..]);
      var rest := SplitWhitespace(s[1..]);
      var parts := SplitWhitespace(s);
      if IsWhitespace(s[0]) && !(|s| > 1 && IsWhitespace(s[1])) {
        assert forall i :: 0 < i < |parts| ==> parts[i] == rest[i - 1];
      } else if !IsWhitespace(s[0]) {
        assert forall i :: 0 < i < |parts| ==> parts[i] == rest[i];
      }
    }
  }

  /** A string that neither starts nor ends with whitespace splits into non-empty, whitespace-free parts. */
  lemma {:induction false} SplitWhitespaceNonEmpty(s: string)
    requires |s| > 0 && !IsWhitespace(s[0]) && !IsWhitespace(s[|s| - 1])
    ensures Words(SplitWhitespace(s))
  {
    var parts := SplitWhitespace(s);
    SplitWhitespaceParts(s);
    SplitWhitespaceFirst(s);
    SplitWhitespaceLast(s);
    SplitWhitespaceInner(s);
    forall i | 0 <= i < |parts| ensures |parts[i]| > 0 {
      if i == 0 {
        assert parts[0] != "";
      } else if i == |parts| - 1 {
        assert parts[|parts| - 1] != "";
      } else {
        assert parts[i] != "";
      }
    }
  }

  /** `s` with every maximal run of whitespace replaced by a single space. */
  function Collapse(s: string): (r: string)
    ensures |r| <= |s|
  {
    if |s| == 0 then ""
    else if IsWhitespace(s[0]) then
      if |s| > 1 && IsWhitespace(s[1]) then Collapse(s[1..]) else " " + Collapse(s[1..])
    else [s[0]] + Collapse(s[1..])
  }

  /** Joining the parts with single spaces gives the string with each whitespace run collapsed to one space. */
  lemma {:induction false} SplitWhitespaceCollapse(s: string)
    ensures Join(SplitWhitespace(s), " ") == Collapse(s)
    decreases |s|
  {
    if |s| > 0 {
      SplitWhitespaceCollapse(s[1..]);
      var rest := SplitWhitespace(s[1..]);
      if IsWhitespace(s[0]) {
        if !(|s| > 1 && IsWhitespace(s[1])) {
          assert ([""] + rest)[1..] == rest;
        }
      } else {
        JoinPrepend([s[0]], rest, " ");
      }
    }
  }

  /** Prefixing the first part prefixes the joined string. */
  lemma JoinPrepend(x: string, parts: seq<string>, sep: string)
    requires |parts| >= 1
    ensures Join([x + parts[0]] + parts[1..], sep) == x + Join(parts, sep)
  {
    var ps := [x + parts[0]] + parts[1..];
    assert ps[1..] == parts[1..];
    if |parts| > 1 {
      assert Join(ps, sep) == (x + parts[0]) + sep + Join(parts[1..], sep);
    }
  }

  /**
    A string that neither starts nor ends with whitespace splits into words
    that, joined by single spaces, give the string with each whitespace run
    collapsed: the parts are cut exactly at the whitespace runs.
   */
  lemma SplitWhitespaceWords(s: string)
    requires |s| > 0 && !IsWhitespace(s[0]) && !IsWhitespace(s[|s| - 1])
    ensures Words(SplitWhitespace(s))
    ensures Join(SplitWhitespace(s), " ") == Collapse(s)
    ensures Concat(SplitWhitespace(s)) == DropWhitespace(s)
  {
    SplitWhitespaceNonEmpty(s);
    SplitWhitespaceCollapse(s);
    SplitWhitespaceConcat(s);
  }

  /** Words are determined by their space-joined form: joining loses nothing. */
  lemma WordsJoinInjective(a: seq<string>, b: seq<string>)
    requires Words(a) && Words(b) && Join(a, " ") == Join(b, " ")
    ensures a == b
  {
    SplitWhitespaceJoin(a);
    SplitWhitespaceJoin(b);
  }

  /** A string without whitespace splits into itself alone. */
  lemma {:induction false} SplitWhitespaceWithout(a: string)
    requires NoWhitespace(a)
    ensures SplitWhitespace(a) == [a]
    decreases |a|
  {
    if |a| > 0 {
      SplitWhitespaceWithout(a[1..]);
      assert [a[0]] + a[1..] == a;
    }
  }

  /** A single space after a whitespace-free part separates it from the rest. */
  lemma {:induction false} SplitWhitespaceAtSpace(a: string, b: string)
    requires NoWhitespace(a) && |b| > 0 && !IsWhitespace(b[0])
    ensures SplitWhitespace(a + " " + b) == [a] + SplitWhitespace(b)
    decreases |a|
  {
    var s := a + " " + b;
    if |a| == 0 {
      assert s[1..] == b;
    } else {
      assert s[1..] == a[1..] + " " + b;
      SplitWhitespaceAtSpace(a[1..], b);
      assert [a[0]] + a[1..] == a;
    }
  }

  lemma {:induction false} DropWhitespaceAppend(a: string, b: string)
    ensures DropWhitespace(a + b) == DropWhitespace(a) + DropWhitespace(b)
    decreases |a|
  {
    if |a| == 0 {
      assert a + b == b;
    } else {
      DropWhitespaceAppend(a[1..], b);
      assert (a + b)[0] == a[0] && (a + b)[1..] == a[1..] + b;
    }
  }

  lemma {:induction false} DropAllWhitespace(a: string)
    requires AllWhitespace(a)
    ensures DropWhitespace(a) == ""
    decreases |a|
  {
    if |a| > 0 {
      DropAllWhitespace(a[1..]);
    }
  }

  /** Trimming removes only whitespace. */
  lemma {:induction false} TrimKeepsText(s: string)
    ensures DropWhitespace(Trim(s)) == DropWhitespace(s)
  {
    var i := LeadingWhitespace(s);
    var j := i + TrailingStart(s[i..]);
    TrimCut(s, i, j);
    TrimIsCut(s, i, j);
    DropWhitespaceAround(s, s[..i], s[i..j], s[j..]);
  }

  lemma {:induction false} TrimIsCut(s: string, i: nat, j: nat)
    requires i == LeadingWhitespace(s) && j == i + TrailingStart(s[i..])
    ensures i <= j <= |s| && Trim(s) == s[i..j]
  {
  }

  /** Whitespace around a string does not change what is left once whitespace is dropped. */
  lemma DropWhitespaceAround(s: string, head: string, mid: string, tail: string)
    requires s == head + (mid + tail) && AllWhitespace(head) && AllWhitespace(tail)
    ensures DropWhitespace(s) == DropWhitespace(mid)
  {
    DropWhitespaceAppend(head, mid + tail);
    DropWhitespaceAppend(mid, tail);
    DropAllWhitespace(head);
    DropAllWhitespace(tail);
  }

  /** The cut `Trim` makes: the head and the tail around `s[i..j]` are whitespace. */
  lemma {:induction false} TrimCut(s: string, i: nat, j: nat)
    requires i == LeadingWhitespace(s) && j == i + TrailingStart(s[i..])
    ensures j <= |s| && s == s[..i] + (s[i..j] + s[j..])
    ensures AllWhitespace(s[..i]) && AllWhitespace(s[j..])
  {
    var t := s[i..];
    var k := TrailingStart(t);
    assert t[k..] == s[j..];
    ThreeParts(s, i, j);
  }

  lemma ThreeParts<T>(s: seq<T>, i: nat, j: nat)
    requires i <= j <= |s|
    ensures s == s[..i] + (s[i..j] + s[j..])
  {
  }

  /** A string with no whitespace at either end is its own trim. */
  lemma TrimUntrimmed(s: string)
    requires |s| > 0 && !IsWhitespace(s[0]) && !IsWhitespace(s[|s| - 1])
    ensures Trim(s) == s
  {
    assert LeadingWhitespace(s) == 0;
    assert s[0..] == s;
    assert TrailingStart(s) == |s|;
  }

  /** A joined list of non-empty parts starts with the first part's first character and ends with the last part's last. */
  lemma {:induction false} JoinEnds(parts: seq<string>, sep: string)
    requires |parts| >= 1 && forall i :: 0 <= i < |parts| ==> |parts[i]| > 0
    ensures var j := Join(parts, sep); var last := parts[|parts| - 1];
      |j| > 0 && j[0] == parts[0][0] && j[|j| - 1] == last[|last| - 1]
    decreases |parts|
  {
    if |parts| > 1 {
      JoinEnds(parts[1..], sep);
    }
  }

  /** Splitting words joined by single spaces gives the words back. */
  lemma {:induction false} SplitWhitespaceJoin(terms: seq<string>)
    requires Words(terms)
    ensures SplitWhitespace(Join(terms, " ")) == terms
    decreases |terms|
  {
    if |terms| == 1 {
      SplitWhitespaceWithout(terms[0]);
    } else {
      var rest := terms[1..];
      assert Words(rest) by {
        forall i | 0 <= i < |rest| ensures |rest[i]| > 0 && NoWhitespace(rest[i]) {
          assert rest[i] == terms[i + 1];
        }
      }
      var tail := Join(rest, " ");
      JoinEnds(rest, " ");
      assert !IsWhitespace(tail[0]) by {
        assert tail[0] == rest[0][0];
      }
      assert Join(terms, " ") == terms[0] + " " + tail;
      SplitWhitespaceJoin(rest);
      SplitWhitespaceAtSpace(terms[0], tail);
      assert [terms[0]] + rest == terms;
    }
  }

  /** ASCII-only lower-casing of one character. */
  function LowerChar(c: char): char {
    if 'A' <= c <= 'Z' then (c as int + 32) as char else c
  }

  function ToLower(s: string): string {
    seq(|s|, i requires 0 <= i < |s| => LowerChar(s[i]))
  }

  /** `s.split(sep, 1)[0]`: the text before the first `sep`, or all of `s`. */
  function BeforeFirst(s: string, sep: char): (r: string)
    ensures IsPrefix(r, s) && sep !in r
    ensures |r| == |s| || s[|r|] == sep
  {
    Split(s, sep)[0]
  }

  // ---------------------------------------------------------------------------
  // Arithmetic
  // ---------------------------------------------------------------------------

  lemma MulAtLeast(d: int, n: int)
    requires d >= 1 && n > 0
    ensures d * n >= n
  {
    assert d * n == (d - 1) * n + n;
    assert (d - 1) * n >= 0;
  }

  /** The remainder is the unique r in [0, n) with x == q * n + r. */
  lemma ModUnique(x: int, n: int, q: int, r: int)
    requires n > 0 && x == q * n + r && 0 <= r < n
    ensures x % n == r
  {
    var q', r' := x / n, x % n;
    assert x == q' * n + r';
    assert (q - q') * n == r' - r;
    if q - q' >= 1 {
      MulAtLeast(q - q', n);
    } else if q' - q >= 1 {
      MulAtLeast(q' - q, n);
    }
  }

  /** Stepping one past a remainder, modulo n, is the remainder of the successor. */
  lemma ModSucc(x: nat, n: nat)
    requires n > 0
    ensures (x % n + 1) % n == (x + 1) % n
  {
    var q, r := x / n, x % n;
    assert x == q * n + r;
    if r + 1 < n {
      ModUnique(x + 1, n, q, r + 1);
      ModUnique(r + 1, n, 0, r + 1);
    } else {
      assert x + 1 == (q + 1) * n;
      ModUnique(x + 1, n, q + 1, 0);
      ModUnique(r + 1, n, 1, 0);
    }
  }
}
