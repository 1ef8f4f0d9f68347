/**
 The part of Go's `strings` package that the checker relies on, over Dafny
 strings (sequences of Unicode scalar values): Index, Contains, HasPrefix,
 ToLower (ASCII letters only), TrimSpace, Split on one separator character,
 and ReplaceAll with an empty replacement.
 */
module Strings {

  /* ---------------------------------------------------------------------- */
  /* Searching                                                               */
  /* ---------------------------------------------------------------------- */

  /** `sub` occurs in `s` starting at index `i`. */
  predicate OccursAt(s: string, sub: string, i: int) {
    0 <= i && i + |sub| <= |s| && s[i..i + |sub|] == sub
  }

  /** Shifting the search one character to the right. */
  lemma OccursAtTail(s: string, sub: string, j: int)
    requires |s| > 0 && 0 <= j
    ensures OccursAt(s[1..], sub, j) <==> OccursAt(s, sub, j + 1)
  {
    if j + |sub| <= |s| - 1 {
      assert s[1..][j..j + |sub|] == s[j + 1..j + 1 + |sub|];
    }
  }

  /** Go's `strings.Index`: the index of the first occurrence of `sub` in `s`, or -1. */
  function Index(s: string, sub: string): (r: int)
    ensures -1 <= r <= |s|
    ensures r >= 0 ==> OccursAt(s, sub, r)
    ensures r >= 0 ==> forall j :: 0 <= j < r ==> !OccursAt(s, sub, j)
    ensures r == -1 <==> forall j :: !OccursAt(s, sub, j)
    decreases |s|
  {
    if |s| < |sub| then -1
    else if s[..|sub|] == sub then
      assert OccursAt(s, sub, 0);
      0
    else
      var k := Index(s[1..], sub);
      assert forall j :: 0 <= j ==> (OccursAt(s[1..], sub, j) <==> OccursAt(s, sub, j + 1)) by {
        forall j | 0 <= j
          ensures OccursAt(s[1..], sub, j) <==> OccursAt(s, sub, j + 1)
        {
          OccursAtTail(s, sub, j);
        }
      }
      if k < 0 then
        assert forall j :: !OccursAt(s, sub, j) by {
          forall j ensures !OccursAt(s, sub, j) {
            if j >= 1 {
              assert !OccursAt(s[1..], sub, j - 1);
            }
          }
        }
        -1
      else
        assert !OccursAt(s, sub, 0);
        assert forall j :: 1 <= j < k + 1 ==> !OccursAt(s, sub, j) by {
          forall j | 1 <= j < k + 1 ensures !OccursAt(s, sub, j) {
            assert !OccursAt(s[1..], sub, j - 1);
          }
        }
        k + 1
  }

  /** Go's `strings.Contains`: `sub` occurs somewhere in `s`. */
  function Contains(s: string, sub: string): (r: bool)
    ensures r <==> exists j :: OccursAt(s, sub, j)
  {
    Index(s, sub) >= 0
  }

  /** A one-character pattern occurs exactly where that character does. */
  lemma OccursAtChar(s: string, c: char, i: int)
    ensures OccursAt(s, [c], i) <==> 0 <= i < |s| && s[i] == c
  {
    if 0 <= i < |s| {
      assert s[i..i + 1] == [s[i]];
    }
  }

  /** `strings.Contains(s, "+")` is character membership. */
  lemma ContainsChar(s: string, c: char)
    ensures Contains(s, [c]) <==> c in s
  {
    if c in s {
      var i :| 0 <= i < |s| && s[i] == c;
      OccursAtChar(s, c, i);
    }
    if Contains(s, [c]) {
      var j :| OccursAt(s, [c], j);
      OccursAtChar(s, c, j);
    }
  }

  /** An occurrence of `w` carries every piece of `w` along with it. */
  lemma OccursPiece(s: string, w: string, piece: string, at: int, j: int)
    requires OccursAt(w, piece, at)
    requires OccursAt(s, w, j)
    ensures OccursAt(s, piece, j + at)
  {
    forall k | 0 <= k < |piece| ensures s[j + at + k] == piece[k] {
      assert s[j..j + |w|][at + k] == w[at + k];
      assert w[at..at + |piece|][k] == piece[k];
    }
    assert s[j + at..j + at + |piece|] == piece;
  }

  /** A string that never contains a piece of `w` does not contain `w`. */
  lemma PieceAbsent(s: string, w: string, piece: string, at: int)
    requires OccursAt(w, piece, at)
    requires forall j :: !OccursAt(s, piece, j)
    ensures !Contains(s, w)
  {
    forall j | OccursAt(s, w, j) ensures OccursAt(s, piece, j + at) {
      OccursPiece(s, w, piece, at, j);
    }
  }

  /** A string missing one character of `w` does not contain `w`. */
  lemma CharAbsent(s: string, w: string, at: int)
    requires 0 <= at < |w|
    requires w[at] !in s
    ensures !Contains(s, w)
  {
    assert OccursAt(w, [w[at]], at) by {
      assert w[at..at + 1] == [w[at]];
    }
    forall j ensures !OccursAt(s, [w[at]], j) {
      OccursAtChar(s, w[at], j);
    }
    PieceAbsent(s, w, [w[at]], at);
  }

  /** An occurrence inside a slice is an occurrence in the whole string. */
  lemma OccursInSlice(s: string, lo: int, hi: int, sub: string, j: int)
    requires 0 <= lo <= hi <= |s|
    requires OccursAt(s[lo..hi], sub, j)
    ensures OccursAt(s, sub, lo + j)
  {
    var t := s[lo..hi];
    forall k | 0 <= k < |sub|
      ensures s[lo + j + k] == sub[k]
    {
      assert t[j..j + |sub|][k] == sub[k];
      assert t[j + k] == s[lo + j + k];
    }
    assert s[lo + j..lo + j + |sub|] == sub;
  }

  /** Go's `strings.HasPrefix`. */
  predicate HasPrefix(s: string, prefix: string) {
    |prefix| <= |s| && s[..|prefix|] == prefix
  }

  /* ---------------------------------------------------------------------- */
  /* Case and white space                                                    */
  /* ---------------------------------------------------------------------- */

  predicate IsUpperAscii(c: char) {
    'A' <= c <= 'Z'
  }

  predicate IsLowerAscii(c: char) {
    'a' <= c <= 'z'
  }

  function LowerChar(c: char): (r: char)
    ensures !IsUpperAscii(r)
    ensures IsUpperAscii(c) ==> r as int == c as int + 32
    ensures !IsUpperAscii(c) ==> r == c
  {
    if IsUpperAscii(c) then (c as int + 32) as char else c
  }

  function UpperChar(c: char): (r: char)
    ensures !IsLowerAscii(r)
    ensures IsLowerAscii(c) ==> r as int == c as int - 32
    ensures !IsLowerAscii(c) ==> r == c
  {
    if IsLowerAscii(c) then (c as int - 32) as char else c
  }

  /** Go's `strings.ToLower`, restricted to the ASCII letters. */
  function ToLower(s: string): (r: string)
    ensures |r| == |s|
    ensures forall i :: 0 <= i < |s| ==> r[i] == LowerChar(s[i])
  {
    seq(|s|, i requires 0 <= i < |s| => LowerChar(s[i]))
  }

  /** Go's `strings.ToUpper`, restricted to the ASCII letters. */
  function ToUpper(s: string): (r: string)
    ensures |r| == |s|
    ensures forall i :: 0 <= i < |s| ==> r[i] == UpperChar(s[i])
  {
    seq(|s|, i requires 0 <= i < |s| => UpperChar(s[i]))
  }

  /** Lower-casing an upper-cased string gives the lower-cased original. */
  lemma LowerOfUpper(s: string)
    ensures ToLower(ToUpper(s)) == ToLower(s)
  {
    forall i | 0 <= i < |s|
      ensures ToLower(ToUpper(s))[i] == ToLower(s)[i]
    {
      var c := s[i];
      if IsLowerAscii(c) {
        assert UpperChar(c) as int == c as int - 32;
      } else if IsUpperAscii(c) {
        assert UpperChar(c) == c;
      }
    }
  }

  lemma LowerConcat(a: string, b: string)
    ensures ToLower(a + b) == ToLower(a) + ToLower(b)
  {
  }

  /** Go's `unicode.IsSpace`: the Unicode White_Space characters. */
  predicate IsSpace(c: char) {
    var n := c as int;
    (9 <= n <= 13) || n == 0x20 || n == 0x85 || n == 0xA0 || n == 0x1680
    || (0x2000 <= n <= 0x200A) || n == 0x2028 || n == 0x2029 || n == 0x202F
    || n == 0x205F || n == 0x3000
  }

  predicate AllSpace(s: string) {
    forall i :: 0 <= i < |s| ==> IsSpace(s[i])
  }

  /** Neither end of `s` is white space. */
  predicate Trimmed(s: string) {
    s == [] || (!IsSpace(s[0]) && !IsSpace(s[|s| - 1]))
  }

  /** Drops the leading white space of `s`. */
  function TrimLeft(s: string): (r: string)
    ensures |r| <= |s|
    ensures r == [] || !IsSpace(r[0])
    decreases |s|
  {
    if |s| > 0 && IsSpace(s[0]) then TrimLeft(s[1..]) else s
  }

  /** What TrimLeft drops is white space, and what it keeps is the rest of `s`. */
  lemma {:induction false} TrimLeftSuffix(s: string)
    ensures TrimLeft(s) == s[|s| - |TrimLeft(s)|..]
    ensures AllSpace(s[..|s| - |TrimLeft(s)|])
    decreases |s|
  {
    if |s| > 0 && IsSpace(s[0]) {
      TrimLeftSuffix(s[1..]);
      var k := |s| - |TrimLeft(s)|;
      assert s[1..][k - 1..] == s[k..];
      assert forall i :: 1 <= i < k ==> s[..k][i] == s[1..][..k - 1][i - 1];
    }
  }

  /** Drops the trailing white space of `s`. */
  function TrimRight(s: string): (r: string)
    ensures |r| <= |s|
    ensures r == [] || !IsSpace(r[|r| - 1])
    decreases |s|
  {
    if |s| > 0 && IsSpace(s[|s| - 1]) then TrimRight(s[..|s| - 1]) else s
  }

  /** What TrimRight drops is white space, and what it keeps is the start of `s`. */
  lemma {:induction false} TrimRightPrefix(s: string)
    ensures TrimRight(s) == s[..|TrimRight(s)|]
    ensures AllSpace(s[|TrimRight(s)|..])
    decreases |s|
  {
    if |s| > 0 && IsSpace(s[|s| - 1]) {
      var t := s[..|s| - 1];
      TrimRightPrefix(t);
      var k := |TrimRight(s)|;
      assert t[..k] == s[..k];
      assert forall i :: 0 <= i < |s| - k - 1 ==> s[k..][i] == t[k..][i];
    }
  }

  /** Go's `strings.TrimSpace`: `s` without its leading and trailing white space. */
  function TrimSpace(s: string): (r: string)
    ensures |r| <= |s|
    ensures Trimmed(r)
  {
    TrimRightPrefix(TrimLeft(s));
    TrimRight(TrimLeft(s))
  }

  lemma {:induction false} TrimLeftSpaces(a: string, x: string)
    requires AllSpace(a)
    ensures TrimLeft(a + x) == TrimLeft(x)
    decreases |a|
  {
    if |a| > 0 {
      assert (a + x)[1..] == a[1..] + x;
      TrimLeftSpaces(a[1..], x);
    } else {
      assert a + x == x;
    }
  }

  lemma {:induction false} TrimRightSpaces(x: string, b: string)
    requires AllSpace(b)
    ensures TrimRight(x + b) == TrimRight(x)
    decreases |b|
  {
    if |b| > 0 {
      assert (x + b)[..|x + b| - 1] == x + b[..|b| - 1];
      TrimRightSpaces(x, b[..|b| - 1]);
    } else {
      assert x + b == x;
    }
  }

  /** The trimmed core of a string is unique: padding a trimmed string with
      white space on either side and trimming again gives it back. */
  lemma TrimSpaceUnique(a: string, t: string, b: string)
    requires AllSpace(a) && AllSpace(b) && Trimmed(t)
    ensures TrimSpace(a + t + b) == t
  {
    assert a + t + b == a + (t + b);
    TrimLeftSpaces(a, t + b);
    if t == [] {
      assert t + b == b;
      assert TrimLeft(b) == [] by {
        TrimLeftSpaces(b, []);
        assert b + [] == b;
      }
    } else {
      assert TrimLeft(t + b) == t + b;
      TrimRightSpaces(t, b);
    }
  }

  /** TrimSpace is idempotent. */
  lemma TrimSpaceIdempotent(s: string)
    ensures TrimSpace(TrimSpace(s)) == TrimSpace(s)
  {
    var t := TrimSpace(s);
    TrimSpaceUnique([], t, []);
    assert [] + t + [] == t;
  }

  /** Appending white space moves past the leading white space unchanged. */
  lemma {:induction false} TrimLeftAppend(s: string, b: string)
    requires AllSpace(b)
    ensures TrimLeft(s + b) == if TrimLeft(s) == [] then [] else TrimLeft(s) + b
    decreases |s|
  {
    if |s| == 0 {
      assert s + b == b + [];
      TrimLeftSpaces(b, []);
    } else if IsSpace(s[0]) {
      assert (s + b)[1..] == s[1..] + b;
      TrimLeftAppend(s[1..], b);
    }
  }

  /** Padding with white space does not change the trimmed form. */
  lemma TrimSpacePadded(a: string, s: string, b: string)
    requires AllSpace(a) && AllSpace(b)
    ensures TrimSpace(a + s + b) == TrimSpace(s)
  {
    assert a + s + b == a + (s + b);
    TrimLeftSpaces(a, s + b);
    TrimLeftAppend(s, b);
    if TrimLeft(s) != [] {
      TrimRightSpaces(TrimLeft(s), b);
    }
  }

  /** A word that starts with a non-space character survives dropping the leading white space. */
  lemma {:induction false} OccursTrimLeft(s: string, w: string, j: int)
    requires |w| > 0 && !IsSpace(w[0])
    requires OccursAt(s, w, j)
    ensures OccursAt(TrimLeft(s), w, j - (|s| - |TrimLeft(s)|))
    decreases |s|
  {
    if IsSpace(s[0]) {
      assert s[j..j + |w|][0] == s[j];
      assert j > 0;
      OccursAtTail(s, w, j - 1);
      OccursTrimLeft(s[1..], w, j - 1);
    }
  }

  /** A word that ends with a non-space character survives dropping the trailing white space. */
  lemma {:induction false} OccursTrimRight(s: string, w: string, j: int)
    requires |w| > 0 && !IsSpace(w[|w| - 1])
    requires OccursAt(s, w, j)
    ensures OccursAt(TrimRight(s), w, j)
    decreases |s|
  {
    if IsSpace(s[|s| - 1]) {
      assert s[j..j + |w|][|w| - 1] == s[j + |w| - 1];
      assert j + |w| < |s|;
      assert s[..|s| - 1][j..j + |w|] == s[j..j + |w|];
      OccursTrimRight(s[..|s| - 1], w, j);
    }
  }

  /** A word with non-space ends that occurs in `s` also occurs in the trimmed form of `s`. */
  lemma TrimKeepsWord(s: string, w: string, j: int)
    requires |w| > 0 && !IsSpace(w[0]) && !IsSpace(w[|w| - 1])
    requires OccursAt(s, w, j)
    ensures exists k :: OccursAt(TrimSpace(s), w, k)
  {
    var k := j - (|s| - |TrimLeft(s)|);
    OccursTrimLeft(s, w, j);
    OccursTrimRight(TrimLeft(s), w, k);
    assert TrimSpace(s) == TrimRight(TrimLeft(s));
    assert OccursAt(TrimSpace(s), w, k);
  }

  /** A prefix of `s` that starts and ends with a non-space character survives trimming. */
  lemma TrimKeepsPrefix(s: string, p: string)
    requires |p| > 0 && !IsSpace(p[0]) && !IsSpace(p[|p| - 1])
    requires HasPrefix(s, p)
    ensures HasPrefix(TrimSpace(s), p)
  {
    assert s[0] == p[0];
    assert TrimLeft(s) == s;
    assert OccursAt(s, p, 0);
    OccursTrimRight(s, p, 0);
    assert TrimSpace(s) == TrimRight(s);
    assert TrimSpace(s)[0..|p|] == p;
  }

  /* ---------------------------------------------------------------------- */
  /* Splitting into lines                                                    */
  /* ---------------------------------------------------------------------- */

  /** Go's `strings.Join` with a one-character separator. */
  function Join(parts: seq<string>, sep: char): string
    requires |parts| >= 1
  {
    if |parts| == 1 then parts[0] else parts[0] + [sep] + Join(parts[1..], sep)
  }

  /** Go's `strings.Split` with a one-character separator: the maximal
      separator-free pieces, which joined again give `s` back. */
  function Split(s: string, sep: char): (parts: seq<string>)
    ensures |parts| >= 1
    ensures forall i :: 0 <= i < |parts| ==> sep !in parts[i]
    ensures Join(parts, sep) == s
    decreases |s|
  {
    if |s| == 0 then [""]
    else
      var rest := Split(s[1..], sep);
      if s[0] == sep then
        [""] + rest
      else
        var parts := [[s[0]] + rest[0]] + rest[1..];
        assert parts[1..] == rest[1..];
        parts
  }

  lemma {:induction false} SplitNoSeparator(a: string, sep: char)
    requires sep !in a
    ensures Split(a, sep) == [a]
    decreases |a|
  {
    if |a| > 0 {
      SplitNoSeparator(a[1..], sep);
      assert [a[0]] + a[1..] == a;
    }
  }

  /** Splitting a piece off the front. */
  lemma {:induction false} SplitCons(a: string, sep: char, b: string)
    requires sep !in a
    ensures Split(a + [sep] + b, sep) == [a] + Split(b, sep)
    decreases |a|
  {
    var s := a + [sep] + b;
    if |a| == 0 {
      assert s[1..] == b;
    } else {
      assert s[1..] == a[1..] + [sep] + b;
      SplitCons(a[1..], sep, b);
      assert [a[0]] + a[1..] == a;
    }
  }

  /** Split undoes Join when no part holds the separator. */
  lemma {:induction false} SplitJoin(parts: seq<string>, sep: char)
    requires |parts| >= 1
    requires forall i :: 0 <= i < |parts| ==> sep !in parts[i]
    ensures Split(Join(parts, sep), sep) == parts
    decreases |parts|
  {
    if |parts| == 1 {
      SplitNoSeparator(parts[0], sep);
    } else {
      SplitJoin(parts[1..], sep);
      SplitCons(parts[0], sep, Join(parts[1..], sep));
      assert [parts[0]] + parts[1..] == parts;
    }
  }

  /* ---------------------------------------------------------------------- */
  /* Deleting every occurrence of a pattern                                  */
  /* ---------------------------------------------------------------------- */

  /** Go's `strings.ReplaceAll(s, pat, "")`, written the way Go computes it:
      find the first occurrence with Index, cut it out, continue after it.
      Go returns `s` unchanged when old and new are both empty. */
  function DeleteAll(s: string, pat: string): (r: string)
    ensures |r| <= |s|
    ensures (forall j :: !OccursAt(s, pat, j)) ==> r == s
    decreases |s|
  {
    if |pat| == 0 then s
    else
      var i := Index(s, pat);
      if i < 0 then s else s[..i] + DeleteAll(s[i + |pat|..], pat)
  }

  /** An independent left-to-right reading of the same operation: at each
      position, skip the pattern if it starts here, else keep one character. */
  function DeleteAllScan(s: string, pat: string): string
    decreases |s|
  {
    if |pat| == 0 || |s| == 0 then s
    else if HasPrefix(s, pat) then DeleteAllScan(s[|pat|..], pat)
    else [s[0]] + DeleteAllScan(s[1..], pat)
  }

  /** Scanning over a stretch with no occurrence keeps it verbatim. */
  lemma {:induction false} ScanSkipsPrefix(s: string, pat: string, k: nat)
    requires |pat| > 0 && k <= |s|
    requires forall j :: 0 <= j < k ==> !OccursAt(s, pat, j)
    ensures DeleteAllScan(s, pat) == s[..k] + DeleteAllScan(s[k..], pat)
    decreases k
  {
    if k > 0 {
      assert !OccursAt(s, pat, 0);
      assert !HasPrefix(s, pat);
      forall j | 0 <= j < k - 1
        ensures !OccursAt(s[1..], pat, j)
      {
        OccursAtTail(s, pat, j);
      }
      ScanSkipsPrefix(s[1..], pat, k - 1);
      assert s[1..][k - 1..] == s[k..];
      assert [s[0]] + s[1..][..k - 1] == s[..k];
    }
  }

  /** Go's Index-driven ReplaceAll agrees with the left-to-right scan. */
  lemma {:induction false} DeleteAllMatchesScan(s: string, pat: string)
    ensures DeleteAll(s, pat) == DeleteAllScan(s, pat)
    decreases |s|
  {
    if |pat| > 0 {
      var i := Index(s, pat);
      if i < 0 {
        ScanSkipsPrefix(s, pat, |s|);
        assert s[|s|..] == [];
        assert s[..|s|] == s;
      } else {
        ScanSkipsPrefix(s, pat, i);
        assert HasPrefix(s[i..], pat);
        assert s[i..][|pat|..] == s[i + |pat|..];
        DeleteAllMatchesScan(s[i + |pat|..], pat);
      }
    }
  }

  /** A leading occurrence is deleted and the rest is processed as before. */
  lemma DeleteAllLeading(pat: string, x: string)
    requires |pat| > 0
    ensures DeleteAll(pat + x, pat) == DeleteAll(x, pat)
  {
    assert OccursAt(pat + x, pat, 0);
    assert (pat + x)[|pat|..] == x;
  }
}
