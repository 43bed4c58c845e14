/**
  The .NET string operations the proxy relies on, over Dafny strings:
  `Split(char)` (empty pieces kept), `string.Join`, `TrimEnd(char)`,
  `string.IsNullOrWhiteSpace` and the ordinal case-insensitive comparison
  used by the allow-list's hash set.
*/
module Text {

  /** Position of the first occurrence of `c` in `s`. */
  function IndexOf(s: string, c: char): (i: nat)
    requires c in s
    ensures i < |s| && s[i] == c
    ensures c !in s[..i]
  {
    if s[0] == c then 0
    else
      assert c in s[1..] by {
        var k :| 0 <= k < |s| && s[k] == c;
        assert s[1..][k - 1] == c;
      }
      var i := 1 + IndexOf(s[1..], c);
      assert s[..i] == [s[0]] + s[1..][..i - 1];
      i
  }

  /** The first occurrence is the only position with `c` and no `c` before it. */
  lemma IndexOfUnique(s: string, c: char, i: nat)
    requires i < |s| && s[i] == c && c !in s[..i]
    ensures c in s && IndexOf(s, c) == i
  {
  }

  /** `string.Join(c, parts)`: the pieces with one `c` between neighbours. */
  function Join(parts: seq<string>, c: char): string
  {
    if |parts| == 0 then ""
    else if |parts| == 1 then parts[0]
    else parts[0] + [c] + Join(parts[1..], c)
  }

  /** `s.Split(c)`: the maximal `c`-free pieces between separators, empty pieces kept. */
  function Split(s: string, c: char): (parts: seq<string>)
    ensures |parts| >= 1
    ensures forall k :: 0 <= k < |parts| ==> c !in parts[k]
    ensures Join(parts, c) == s
    decreases |s|
  {
    if c in s then
      var i := IndexOf(s, c);
      var rest := Split(s[i + 1..], c);
      var parts := [s[..i]] + rest;
      assert parts[1..] == rest;
      assert s == s[..i] + [c] + s[i + 1..];
      parts
    else
      [s]
  }

  /** Splitting undoes joining when no piece holds the separator. */
  lemma {:induction false} SplitJoin(parts: seq<string>, c: char)
    requires |parts| >= 1
    requires forall k :: 0 <= k < |parts| ==> c !in parts[k]
    ensures Split(Join(parts, c), c) == parts
  {
    if |parts| > 1 {
      var s := Join(parts, c);
      var tail := Join(parts[1..], c);
      assert s == parts[0] + [c] + tail;
      assert s[..|parts[0]|] == parts[0];
      IndexOfUnique(s, c, |parts[0]|);
      assert s[|parts[0]| + 1..] == tail;
      SplitJoin(parts[1..], c);
      assert Split(s, c) == [parts[0]] + parts[1..];
    }
  }

  /** A character other than the separator, in no piece, is not in the join. */
  lemma {:induction false} JoinAvoids(parts: seq<string>, c: char, x: char)
    requires x != c
    requires forall k :: 0 <= k < |parts| ==> x !in parts[k]
    ensures x !in Join(parts, c)
    decreases |parts|
  {
    if |parts| > 1 {
      JoinAvoids(parts[1..], c, x);
    }
  }

  /** Joining one more piece appends the separator and that piece. */
  lemma {:induction false} JoinAppend(parts: seq<string>, last: string, c: char)
    requires |parts| >= 1
    ensures Join(parts + [last], c) == Join(parts, c) + [c] + last
    decreases |parts|
  {
    if |parts| > 1 {
      assert (parts + [last])[1..] == parts[1..] + [last];
      JoinAppend(parts[1..], last, c);
    }
  }

  /** Joining two runs of pieces puts one separator between their joins. */
  lemma {:induction false} JoinConcat(x: seq<string>, y: seq<string>, c: char)
    requires |x| >= 1 && |y| >= 1
    ensures Join(x + y, c) == Join(x, c) + [c] + Join(y, c)
    decreases |x|
  {
    assert (x + y)[1..] == x[1..] + y;
    if |x| > 1 {
      JoinConcat(x[1..], y, c);
    }
  }

  /** The pieces of a string holding the separator: the part before its first occurrence, then the pieces after it. */
  lemma SplitAtFirst(s: string, c: char)
    requires c in s
    ensures |Split(s, c)| >= 2
    ensures Split(s, c)[1..] == Split(s[IndexOf(s, c) + 1..], c)
  {
    var parts := [s[..IndexOf(s, c)]] + Split(s[IndexOf(s, c) + 1..], c);
    assert parts[1..] == Split(s[IndexOf(s, c) + 1..], c);
  }

  /** The join of at least two pieces is the first piece, a separator, and the join of the rest. */
  lemma JoinFirst(parts: seq<string>, c: char)
    requires |parts| >= 2
    ensures Join(parts, c) == parts[0] + [c] + Join(parts[1..], c)
    ensures |Join(parts, c)| == |parts[0]| + 1 + |Join(parts[1..], c)|
  {
  }

  /** Every tail of the pieces, from the second on, is joined right after some separator of the whole join. */
  lemma {:induction false} JoinTailAfterSeparator(parts: seq<string>, c: char, i: nat) returns (k: nat)
    requires 1 <= i < |parts|
    ensures k < |Join(parts, c)| && Join(parts, c)[k] == c
    ensures Join(parts, c)[k + 1..] == Join(parts[i..], c)
    decreases |parts|
  {
    var s, first, rest := Join(parts, c), parts[0], Join(parts[1..], c);
    JoinFirst(parts, c);
    if i == 1 {
      k := |first|;
      assert s[k + 1..] == rest;
    } else {
      var k' := JoinTailAfterSeparator(parts[1..], c, i - 1);
      k := |first| + 1 + k';
      assert s[k] == rest[k'];
      assert s[k + 1..] == rest[k' + 1..];
      assert parts[1..][i - 1..] == parts[i..];
    }
  }

  /** Conversely, when no piece holds the separator, what follows any separator of the join is the join of a tail. */
  lemma {:induction false} SeparatorBeforeJoinTail(parts: seq<string>, c: char, k: nat) returns (i: nat)
    requires forall p :: 0 <= p < |parts| ==> c !in parts[p]
    requires k < |Join(parts, c)| && Join(parts, c)[k] == c
    ensures 1 <= i < |parts|
    ensures Join(parts[i..], c) == Join(parts, c)[k + 1..]
    decreases |parts|
  {
    if |parts| < 2 {
      assert false;
    }
    var s, first, rest := Join(parts, c), parts[0], Join(parts[1..], c);
    JoinFirst(parts, c);
    if k < |first| {
      assert false;
    } else if k == |first| {
      i := 1;
      assert s[k + 1..] == rest;
    } else {
      var k' := k - |first| - 1;
      assert rest[k'] == s[k];
      var i' := SeparatorBeforeJoinTail(parts[1..], c, k');
      i := i' + 1;
      assert s[k + 1..] == rest[k' + 1..];
      assert parts[1..][i'..] == parts[i..];
    }
  }

  /**
    Every tail of a split, from the second piece on, joined back together,
    is what follows some separator in the original string.
  */
  lemma JoinedTailFollowsSeparator(s: string, c: char, i: nat) returns (k: nat)
    requires 1 <= i < |Split(s, c)|
    ensures k < |s| && s[k] == c
    ensures s[k + 1..] == Join(Split(s, c)[i..], c)
  {
    k := JoinTailAfterSeparator(Split(s, c), c, i);
  }

  /** Conversely, what follows any separator is the join of a tail of the split. */
  lemma SeparatorStartsJoinedTail(s: string, c: char, k: nat) returns (i: nat)
    requires k < |s| && s[k] == c
    ensures 1 <= i < |Split(s, c)|
    ensures Join(Split(s, c)[i..], c) == s[k + 1..]
  {
    i := SeparatorBeforeJoinTail(Split(s, c), c, k);
  }

  /** `s.TrimEnd(c)`: every trailing `c` removed. */
  function TrimEnd(s: string, c: char): (t: string)
    ensures t <= s
    ensures |t| == 0 || t[|t| - 1] != c
    ensures forall k :: |t| <= k < |s| ==> s[k] == c
  {
    if |s| > 0 && s[|s| - 1] == c then TrimEnd(s[..|s| - 1], c) else s
  }

  /** `char.IsWhiteSpace`: the Unicode space separators plus the line and paragraph separators and the C0/C1 controls U+0009..U+000D and U+0085. */
  predicate IsWhiteSpace(ch: char)
  {
    || ch == ' ' || ('\t' <= ch <= '\r') || ch == '\U{85}' || ch == '\U{A0}'
    || ch == '\U{1680}' || ('\U{2000}' <= ch <= '\U{200A}') || ch == '\U{2028}' || ch == '\U{2029}'
    || ch == '\U{202F}' || ch == '\U{205F}' || ch == '\U{3000}'
  }

  /** `string.IsNullOrWhiteSpace`: empty, or white space only. */
  predicate IsBlank(s: string)
  {
    forall k :: 0 <= k < |s| ==> IsWhiteSpace(s[k])
  }

  /** Case folding of the ordinal ignore-case comparison, on the ASCII letters. */
  function FoldChar(ch: char): char
  {
    if 'a' <= ch <= 'z' then (ch as int - 32) as char else ch
  }

  /** Characters that compare equal ignoring case: equal, or one ASCII letter in two cases. */
  lemma FoldCharCases(x: char, y: char)
    requires FoldChar(x) == FoldChar(y)
    ensures x == y || (('a' <= x <= 'z' || 'A' <= x <= 'Z') && ('a' <= y <= 'z' || 'A' <= y <= 'Z'))
  {
  }

  /** The string as the ignore-case comparer sees it. */
  function Fold(s: string): string
  {
    seq(|s|, k requires 0 <= k < |s| => FoldChar(s[k]))
  }

  /** Ordinal ignore-case equality. */
  predicate EqualsIgnoreCase(a: string, b: string)
  {
    Fold(a) == Fold(b)
  }

  /** Two characters the ordinal ignore-case comparison treats alike: equal, or one ASCII letter in its two cases. */
  predicate CaseVariants(x: char, y: char)
  {
    || x == y
    || ('a' <= x <= 'z' && y as int == x as int - 32)
    || ('A' <= x <= 'Z' && y as int == x as int + 32)
  }

  /** Folding identifies exactly the case variants. */
  lemma FoldCharIdentifies(x: char, y: char)
    ensures FoldChar(x) == FoldChar(y) <==> CaseVariants(x, y)
  {
  }

  /**
    Ignore-case equality without folding: the same length, and at every
    position the same character or the same ASCII letter in the other case.
  */
  lemma EqualsIgnoreCaseCharacterized(a: string, b: string)
    ensures EqualsIgnoreCase(a, b) <==> |a| == |b| && forall k :: 0 <= k < |a| ==> CaseVariants(a[k], b[k])
  {
    if EqualsIgnoreCase(a, b) {
      assert |a| == |Fold(a)| == |Fold(b)| == |b|;
      forall k | 0 <= k < |a|
        ensures CaseVariants(a[k], b[k])
      {
        assert Fold(a)[k] == Fold(b)[k];
        FoldCharIdentifies(a[k], b[k]);
      }
    }
    if |a| == |b| && forall k :: 0 <= k < |a| ==> CaseVariants(a[k], b[k]) {
      forall k | 0 <= k < |a|
        ensures Fold(a)[k] == Fold(b)[k]
      {
        FoldCharIdentifies(a[k], b[k]);
      }
    }
  }

  /** A character that is not an ASCII letter is ignore-case equal only to itself. */
  predicate Caseless(c: char)
  {
    !('a' <= c <= 'z') && !('A' <= c <= 'Z')
  }

  /** Ignore-case equal strings are equal ignoring case from any position on. */
  lemma FoldDrop(a: string, b: string, k: nat)
    requires EqualsIgnoreCase(a, b) && k <= |a|
    ensures EqualsIgnoreCase(a[k..], b[k..])
  {
    assert |a| == |Fold(a)| == |Fold(b)| == |b|;
    forall i | 0 <= i < |a| - k
      ensures Fold(a[k..])[i] == Fold(b[k..])[i]
    {
      assert Fold(a)[k + i] == Fold(b)[k + i];
    }
  }

  /** A common prefix keeps ignore-case equality. */
  lemma FoldPrepend(prefix: string, a: string, b: string)
    requires EqualsIgnoreCase(a, b)
    ensures EqualsIgnoreCase(prefix + a, prefix + b)
  {
    assert |a| == |Fold(a)| == |Fold(b)| == |b|;
    forall i | 0 <= i < |prefix| + |a|
      ensures Fold(prefix + a)[i] == Fold(prefix + b)[i]
    {
      if i >= |prefix| {
        assert Fold(a)[i - |prefix|] == Fold(b)[i - |prefix|];
      }
    }
  }

  /** Ignore-case equal strings are blank together. */
  lemma BlankIgnoresCase(a: string, b: string)
    requires EqualsIgnoreCase(a, b)
    ensures IsBlank(a) <==> IsBlank(b)
  {
    assert |a| == |Fold(a)| == |Fold(b)| == |b|;
    forall k | 0 <= k < |a|
      ensures IsWhiteSpace(a[k]) <==> IsWhiteSpace(b[k])
    {
      assert Fold(a)[k] == Fold(b)[k];
      FoldCharCases(a[k], b[k]);
    }
  }

  /** Ignore-case equal strings are equal ignoring case up to any position. */
  lemma FoldTake(a: string, b: string, n: nat)
    requires EqualsIgnoreCase(a, b) && n <= |a|
    ensures EqualsIgnoreCase(a[..n], b[..n])
  {
    assert |a| == |Fold(a)| == |Fold(b)| == |b|;
    forall i | 0 <= i < n
      ensures Fold(a[..n])[i] == Fold(b[..n])[i]
    {
      assert Fold(a)[i] == Fold(b)[i];
    }
  }

  /** Ignore-case equal strings agree on where a caseless character stands. */
  lemma CaselessAt(a: string, b: string, k: nat, c: char)
    requires EqualsIgnoreCase(a, b) && Caseless(c) && k < |a|
    ensures k < |b| && (a[k] == c <==> b[k] == c)
  {
    assert |a| == |Fold(a)| == |Fold(b)| == |b|;
    assert Fold(a)[k] == Fold(b)[k];
    FoldCharCases(a[k], b[k]);
  }

  /** Trimming a caseless character commutes with ignore-case equality. */
  lemma {:induction false} TrimEndIgnoresCase(a: string, b: string, c: char)
    requires EqualsIgnoreCase(a, b) && Caseless(c)
    ensures |TrimEnd(a, c)| == |TrimEnd(b, c)|
    ensures EqualsIgnoreCase(TrimEnd(a, c), TrimEnd(b, c))
    decreases |a|
  {
    assert |a| == |Fold(a)| == |Fold(b)| == |b|;
    if |a| > 0 {
      var n := |a| - 1;
      CaselessAt(a, b, n, c);
      if a[n] == c {
        FoldTake(a, b, n);
        TrimEndIgnoresCase(a[..n], b[..n], c);
      }
    }
  }
}
