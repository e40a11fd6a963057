/** The Kotlin standard-library string operations the converter relies on,
    written out as explicit character scans: `trim`, `toUpperCase`,
    `substringBefore`, `substringAfter`, `startsWith`, `contains`,
    `replace`, `equals(ignoreCase = true)` and `split` on the literal
    two-character separator "][". */
module Text {
  import opened Wrappers

  /** Kotlin's `Char.isWhitespace` on the JVM: Java whitespace plus the
      Unicode space separators. */
  predicate IsWhitespace(c: char) {
    c == ' ' || c == '\t' || c == '\n' || c == '\U{000B}' || c == '\U{000C}' || c == '\r'
    || ('\U{001C}' <= c <= '\U{001F}')
    || c == '\U{00A0}' || c == '\U{1680}' || ('\U{2000}' <= c <= '\U{200A}')
    || c == '\U{2028}' || c == '\U{2029}' || c == '\U{202F}' || c == '\U{205F}' || c == '\U{3000}'
  }

  predicate AllWhitespace(s: string) {
    forall i :: 0 <= i < |s| ==> IsWhitespace(s[i])
  }

  /** Neither end of `s` is a whitespace character. */
  predicate IsTrimmed(s: string) {
    s == [] || (!IsWhitespace(s[0]) && !IsWhitespace(s[|s| - 1]))
  }

  function TrimStart(s: string): (r: string)
    ensures |r| <= |s| && r == s[|s| - |r|..]
    ensures r == [] || !IsWhitespace(r[0])
  {
    if s == [] || !IsWhitespace(s[0]) then s else TrimStart(s[1..])
  }

  function TrimEnd(s: string): (r: string)
    ensures |r| <= |s| && r == s[..|r|]
    ensures r == [] || !IsWhitespace(r[|r| - 1])
  {
    if s == [] || !IsWhitespace(s[|s| - 1]) then s else TrimEnd(s[..|s| - 1])
  }

  /** What `TrimStart` cuts off is whitespace only. */
  lemma {:induction false} TrimStartCutsWhitespace(s: string)
    ensures AllWhitespace(s[..|s| - |TrimStart(s)|])
  {
    if s != [] && IsWhitespace(s[0]) {
      var r := TrimStart(s[1..]);
      TrimStartCutsWhitespace(s[1..]);
      forall i | 0 <= i < |s| - |r| ensures IsWhitespace(s[i]) {
        if i > 0 {
          assert s[1..][..|s| - 1 - |r|][i - 1] == s[i];
        }
      }
    }
  }

  /** What `TrimEnd` cuts off is whitespace only. */
  lemma {:induction false} TrimEndCutsWhitespace(s: string)
    ensures AllWhitespace(s[|TrimEnd(s)|..])
  {
    if s != [] && IsWhitespace(s[|s| - 1]) {
      var r := TrimEnd(s[..|s| - 1]);
      TrimEndCutsWhitespace(s[..|s| - 1]);
      forall i | |r| <= i < |s| ensures IsWhitespace(s[i]) {
        if i < |s| - 1 {
          assert s[..|s| - 1][|r|..][i - |r|] == s[i];
        }
      }
    }
  }

  /** `String.trim()`: whitespace cut from both ends. */
  function Trim(s: string): (r: string)
    ensures IsTrimmed(r)
    ensures |r| <= |s|
  {
    var a := TrimStart(s);
    var r := TrimEnd(a);
    assert r != [] ==> r[0] == a[0];
    r
  }

  /** `Trim` keeps only characters of its input. */
  lemma TrimSubset(s: string, c: char)
    requires c !in s
    ensures c !in Trim(s)
  {
    var a := TrimStart(s);
    SliceLacks(s, |s| - |a|, |s|, c);
    var r := TrimEnd(a);
    SliceLacks(a, 0, |r|, c);
    assert Trim(s) == r;
  }

  lemma SliceLacks<T>(s: seq<T>, i: nat, j: nat, c: T)
    requires i <= j <= |s| && c !in s
    ensures c !in s[i..j]
  {
    assert forall k :: 0 <= k < j - i ==> s[i..j][k] == s[i + k];
  }

  lemma {:induction false} TrimStartOfTrimmed(s: string)
    requires s == [] || !IsWhitespace(s[0])
    ensures TrimStart(s) == s
  {
  }

  /** Trimming text that has no whitespace at its ends changes nothing. */
  lemma TrimOfTrimmed(s: string)
    requires IsTrimmed(s)
    ensures Trim(s) == s
  {
    TrimStartOfTrimmed(s);
  }

  /** Kotlin `Char.uppercaseChar` on ASCII letters; every other character,
      including non-ASCII letters, is kept as it is. */
  function ToUpperChar(c: char): (u: char)
    ensures ('a' <= c <= 'z') ==> u as int == c as int - 32
    ensures !('a' <= c <= 'z') ==> u == c
  {
    if 'a' <= c <= 'z' then (c as int - 32) as char else c
  }

  /** `String.toUpperCase()` character by character. */
  function ToUpper(s: string): (r: string)
    ensures |r| == |s|
    ensures forall i :: 0 <= i < |s| ==> r[i] == ToUpperChar(s[i])
  {
    if s == [] then [] else [ToUpperChar(s[0])] + ToUpper(s[1..])
  }

  predicate NoLower(s: string) {
    forall i :: 0 <= i < |s| ==> !('a' <= s[i] <= 'z')
  }

  lemma UpperOfUpper(s: string)
    requires NoLower(s)
    ensures ToUpper(s) == s
  {
  }

  /** Upper-casing keeps whitespace where it is, so it preserves trimmedness. */
  lemma UpperKeepsTrimmed(s: string)
    requires IsTrimmed(s)
    ensures IsTrimmed(ToUpper(s))
  {
    if s != [] {
      UpperCharWhitespace(s[0]);
      UpperCharWhitespace(s[|s| - 1]);
    }
  }

  /** A letter is no whitespace before or after upper-casing; anything else is unchanged. */
  lemma UpperCharWhitespace(c: char)
    ensures IsWhitespace(ToUpperChar(c)) == IsWhitespace(c)
  {
    if 'a' <= c <= 'z' {
      assert 'A' <= ToUpperChar(c) <= 'Z';
    }
  }

  lemma UpperIsNoLower(s: string)
    ensures NoLower(ToUpper(s))
  {
  }

  /** Index of the first `c` in `s`, or `|s|` when there is none. */
  function IndexOf(s: string, c: char): (i: nat)
    ensures i <= |s|
    ensures c !in s[..i]
    ensures i < |s| <==> c in s
    ensures i < |s| ==> s[i] == c
  {
    if s == [] then 0
    else if s[0] == c then 0
    else
      var j := IndexOf(s[1..], c);
      assert s[..j + 1] == [s[0]] + s[1..][..j];
      j + 1
  }

  /** `substringBefore(c)`: the text before the first `c`, all of `s` when
      there is none. */
  function SubstringBefore(s: string, c: char): (r: string)
    ensures c !in r
    ensures |r| <= |s| && r == s[..|r|]
    ensures c in s ==> |r| < |s| && s[|r|] == c
    ensures c !in s ==> r == s
  {
    s[..IndexOf(s, c)]
  }

  /** `substringAfter(c)`: the text after the first `c`; all of `s` (the
      missing-delimiter value) when there is none. */
  function SubstringAfter(s: string, c: char): (r: string)
    ensures c in s ==> s == SubstringBefore(s, c) + [c] + r
    ensures c !in s ==> r == s
  {
    if c in s then
      var i := IndexOf(s, c);
      assert s == s[..i] + [c] + s[i + 1..];
      s[i + 1..]
    else s
  }

  lemma {:induction false} IndexOfSplit(a: string, c: char, b: string)
    requires c !in a
    ensures IndexOf(a + [c] + b, c) == |a|
  {
    if a != [] {
      assert (a + [c] + b)[1..] == a[1..] + [c] + b;
      IndexOfSplit(a[1..], c, b);
    }
  }

  /** Splitting a text at its first `c` gives back the two pieces. */
  lemma SubstringsAtFirst(a: string, c: char, b: string)
    requires c !in a
    ensures SubstringBefore(a + [c] + b, c) == a
    ensures SubstringAfter(a + [c] + b, c) == b
  {
    IndexOfSplit(a, c, b);
    var s := a + [c] + b;
    assert s[..|a|] == a;
    assert s[|a| + 1..] == b;
  }

  predicate StartsWith(s: string, p: string) {
    |p| <= |s| && s[..|p|] == p
  }

  /** Position of the first occurrence of `t` in `s`. */
  function IndexOfString(s: string, t: string): (r: Option<nat>)
    ensures r.Some? ==> r.value + |t| <= |s| && s[r.value..r.value + |t|] == t
    ensures r.Some? ==> forall j :: 0 <= j < r.value ==> !StartsWith(s[j..], t)
    ensures r.None? ==> forall j :: 0 <= j <= |s| ==> !StartsWith(s[j..], t)
    decreases |s|
  {
    if StartsWith(s, t) then Some(0)
    else if s == [] then None
    else
      match IndexOfString(s[1..], t)
      case None =>
        assert forall j :: 1 <= j <= |s| ==> s[j..] == s[1..][j - 1..];
        None
      case Some(j) =>
        assert forall k :: 1 <= k <= |s| ==> s[k..] == s[1..][k - 1..];
        Some(j + 1)
  }

  /** `substringAfter(t)` for a string delimiter. */
  function SubstringAfterString(s: string, t: string): (r: string)
    ensures StartsWith(s, t) ==> r == s[|t|..]
    ensures IndexOfString(s, t).None? ==> r == s
  {
    match IndexOfString(s, t)
    case Some(i) => s[i + |t|..]
    case None => s
  }

  /** `replace(c.toString(), "")`: every `c` removed. */
  function RemoveChar(s: string, c: char): (r: string)
    ensures c !in r
    ensures |r| <= |s|
    ensures forall x :: x in r ==> x in s
    ensures c !in s ==> r == s
  {
    if s == [] then []
    else if s[0] == c then RemoveChar(s[1..], c)
    else [s[0]] + RemoveChar(s[1..], c)
  }

  /** `equals(other, ignoreCase = true)` with the ASCII case mapping. */
  predicate EqualsIgnoreCase(a: string, b: string) {
    |a| == |b| && forall i :: 0 <= i < |a| ==> ToUpperChar(a[i]) == ToUpperChar(b[i])
  }

  /** Number of non-overlapping occurrences of "][" in `s`. */
  function CountSeparators(s: string): nat {
    if |s| < 2 then 0
    else if s[0] == ']' && s[1] == '[' then 1 + CountSeparators(s[2..])
    else CountSeparators(s[1..])
  }

  /** `split(Regex("]\\["))`: the pieces between successive occurrences of
      "][", trailing empty pieces kept; `cur` is the piece being read. */
  function SplitFrom(s: string, cur: string): (r: seq<string>)
    ensures |r| >= 1
    decreases |s|
  {
    if |s| < 2 then [cur + s]
    else if s[0] == ']' && s[1] == '[' then [cur] + SplitFrom(s[2..], [])
    else SplitFrom(s[1..], cur + [s[0]])
  }

  function SplitOnSeparators(s: string): (r: seq<string>)
    ensures |r| >= 1
  {
    SplitFrom(s, [])
  }

  /** Each occurrence of "][" starts one more piece. */
  lemma {:induction false} SplitFromCount(s: string, cur: string)
    ensures |SplitFrom(s, cur)| == CountSeparators(s) + 1
    decreases |s|
  {
    if |s| >= 2 {
      if s[0] == ']' && s[1] == '[' {
        SplitFromCount(s[2..], []);
      } else {
        SplitFromCount(s[1..], cur + [s[0]]);
      }
    }
  }

  lemma {:induction false} SplitJoin(a: string, b: string)
    requires forall i :: 0 <= i < |a| - 1 ==> !(a[i] == ']' && a[i + 1] == '[')
    requires a != [] ==> a[|a| - 1] != ']'
    ensures SplitOnSeparators(a + "][" + b) == [a] + SplitOnSeparators(b)
  {
    SplitFromJoin([], a, b);
    assert [] + a == a;
  }

  lemma {:induction false} SplitFromJoin(cur: string, a: string, b: string)
    requires forall i :: 0 <= i < |a| - 1 ==> !(a[i] == ']' && a[i + 1] == '[')
    requires a != [] ==> a[|a| - 1] != ']'
    ensures SplitFrom(a + "][" + b, cur) == [cur + a] + SplitFrom(b, [])
    decreases |a|
  {
    var s := a + "][" + b;
    if a == [] {
      assert s[2..] == b;
      assert cur + a == cur;
    } else {
      assert s[0] == a[0];
      assert |s| >= 2;
      if |a| >= 2 {
        assert !(a[0] == ']' && a[1] == '[');
        assert s[1] == a[1];
      } else {
        assert s[1] == ']';
      }
      assert s[1..] == a[1..] + "][" + b;
      SplitFromJoin(cur + [a[0]], a[1..], b);
      assert cur + [a[0]] + a[1..] == cur + a;
    }
  }

  lemma SplitNoSeparator(s: string)
    requires forall i :: 0 <= i < |s| - 1 ==> !(s[i] == ']' && s[i + 1] == '[')
    ensures SplitOnSeparators(s) == [s]
  {
    SplitFromNoSeparator([], s);
    assert [] + s == s;
  }

  lemma {:induction false} SplitFromNoSeparator(cur: string, s: string)
    requires forall i :: 0 <= i < |s| - 1 ==> !(s[i] == ']' && s[i + 1] == '[')
    ensures SplitFrom(s, cur) == [cur + s]
    decreases |s|
  {
    if |s| >= 2 {
      assert !(s[0] == ']' && s[1] == '[');
      SplitFromNoSeparator(cur + [s[0]], s[1..]);
      assert cur + [s[0]] + s[1..] == cur + s;
    }
  }
}
