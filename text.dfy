/** Stand-ins for the Go `strings` and `strconv` functions the scrapers rely on.
    A string is a sequence of characters; for ASCII text this is Go's byte view,
    so byte offsets and character offsets agree. */
module Text {

  /** `pat` occurs in `s` starting at index `i`. */
  predicate OccursAt(s: string, pat: string, i: nat) {
    i + |pat| <= |s| && s[i..i + |pat|] == pat
  }

  /** strings.Index: the first index at which `pat` occurs in `s`, or -1. */
  function IndexOf(s: string, pat: string): (r: int)
    ensures r == -1 || (0 <= r && OccursAt(s, pat, r))
    ensures r >= 0 ==> forall j :: 0 <= j < r ==> !OccursAt(s, pat, j)
    ensures r == -1 ==> forall j: nat :: !OccursAt(s, pat, j)
  {
    IndexFrom(s, pat, 0)
  }

  /** The scan behind IndexOf, started at `i` once no earlier occurrence exists. */
  function IndexFrom(s: string, pat: string, i: nat): (r: int)
    requires forall j :: 0 <= j < i ==> !OccursAt(s, pat, j)
    ensures r == -1 || (i <= r && OccursAt(s, pat, r))
    ensures r >= 0 ==> forall j :: 0 <= j < r ==> !OccursAt(s, pat, j)
    ensures r == -1 ==> forall j: nat :: !OccursAt(s, pat, j)
    decreases |s| - i
  {
    if i + |pat| > |s| then -1
    else if s[i..i + |pat|] == pat then i
    else IndexFrom(s, pat, i + 1)
  }

  /** strings.Contains: `pat` occurs somewhere in `s` (strings.Index(s, pat) >= 0,
      see ContainsIffIndexFound). */
  predicate Contains(s: string, pat: string) {
    exists j: nat | j <= |s| - |pat| :: OccursAt(s, pat, j)
  }

  /** Contains agrees with IndexOf finding an occurrence. */
  lemma ContainsIffIndexFound(s: string, pat: string)
    ensures Contains(s, pat) <==> IndexOf(s, pat) >= 0
  {
  }

  /** A witnessed occurrence makes Contains true. */
  lemma OccurrenceContains(s: string, pat: string, j: nat)
    requires OccursAt(s, pat, j)
    ensures Contains(s, pat)
  {
  }

  /** A prefix that ends before every occurrence of `pat` does not contain `pat`. */
  lemma PrefixBeforeFirst(s: string, pat: string, n: nat)
    requires pat != [] && n <= |s|
    requires forall j :: 0 <= j < n ==> !OccursAt(s, pat, j)
    ensures !Contains(s[..n], pat)
  {
    forall j: nat ensures !OccursAt(s[..n], pat, j) {
      if j + |pat| <= n {
        assert s[..n][j..j + |pat|] == s[j..j + |pat|];
        assert !OccursAt(s, pat, j);
      }
    }
  }

  /** A pattern whose first character is absent from `s` does not occur in it. */
  lemma FirstCharAbsent(s: string, pat: string)
    requires |pat| > 0 && pat[0] !in s
    ensures !Contains(s, pat)
  {
  }

  /** strings.IndexAny: the first index of a character of `chars` in `s`, or -1. */
  function IndexAny(s: string, chars: string): (r: int)
    ensures r == -1 || (0 <= r < |s| && s[r] in chars)
    ensures r >= 0 ==> forall j :: 0 <= j < r ==> s[j] !in chars
    ensures r == -1 ==> forall j :: 0 <= j < |s| ==> s[j] !in chars
  {
    if |s| == 0 then -1
    else if s[0] in chars then 0
    else
      var k := IndexAny(s[1..], chars);
      if k == -1 then -1 else k + 1
  }

  /** strings.LastIndex with a one-character pattern: the last index of `c` in `s`, or -1. */
  function LastIndexOf(s: string, c: char): (r: int)
    ensures r == -1 || (0 <= r < |s| && s[r] == c)
    ensures forall j :: r < j < |s| ==> s[j] != c
  {
    if |s| == 0 then -1
    else if s[|s| - 1] == c then |s| - 1
    else LastIndexOf(s[..|s| - 1], c)
  }

  /** strings.ReplaceAll(s, [c], [d]) for one-character patterns. */
  function ReplaceChar(s: string, c: char, d: char): (r: string)
    ensures |r| == |s|
    ensures forall i :: 0 <= i < |s| ==> r[i] == if s[i] == c then d else s[i]
  {
    if |s| == 0 then [] else [if s[0] == c then d else s[0]] + ReplaceChar(s[1..], c, d)
  }

  /** strings.ReplaceAll(s, [c], ""): `s` with every `c` removed. */
  function RemoveChar(s: string, c: char): (r: string)
    ensures |r| <= |s|
    ensures c !in r
    ensures c !in s ==> r == s
    ensures forall x :: x in r ==> x in s
  {
    if |s| == 0 then []
    else if s[0] == c then RemoveChar(s[1..], c)
    else [s[0]] + RemoveChar(s[1..], c)
  }

  /** Removing a character from a concatenation removes it from each part. */
  lemma {:induction false} RemoveCharAppend(a: string, b: string, c: char)
    ensures RemoveChar(a + b, c) == RemoveChar(a, c) + RemoveChar(b, c)
  {
    if |a| > 0 {
      assert (a + b)[1..] == a[1..] + b;
      RemoveCharAppend(a[1..], b, c);
    } else {
      assert a + b == b;
    }
  }

  /** What follows a prefix of a concatenation is the rest. */
  lemma DropPrefix<T>(a: seq<T>, b: seq<T>)
    ensures (a + b)[|a|..] == b
  {
  }

  /** The first |a| elements of a concatenation are `a`. */
  lemma TakePrefix<T>(a: seq<T>, b: seq<T>)
    ensures (a + b)[..|a|] == a
  {
  }

  /** A non-empty sequence is its head followed by its tail. */
  lemma HeadTail<T>(s: seq<T>)
    requires |s| > 0
    ensures s == [s[0]] + s[1..]
  {
  }

  /** A slice is the concatenation of its two halves around `j`. */
  lemma SliceSplit<T>(s: seq<T>, i: nat, j: nat, k: nat)
    requires i <= j <= k <= |s|
    ensures s[i..k] == s[i..j] + s[j..k]
  {
  }

  /** A slice of a suffix is a slice of the whole. */
  lemma SliceOfSuffix<T>(s: seq<T>, a: nat, b: nat, c: nat)
    requires b <= c && a + c <= |s|
    ensures s[a..][b..c] == s[a + b..a + c]
    ensures s[a..][..c] == s[a..a + c]
  {
  }

  /** strings.TrimPrefix. */
  function TrimPrefix(s: string, prefix: string): (r: string)
    ensures (|prefix| <= |s| && s[..|prefix|] == prefix) ==> s == prefix + r
    ensures !(|prefix| <= |s| && s[..|prefix|] == prefix) ==> r == s
  {
    if |prefix| <= |s| && s[..|prefix|] == prefix then s[|prefix|..] else s
  }

  /** strings.TrimLeft(s, cut): `s` without its leading characters from `cut`. */
  function TrimLeftSet(s: string, cut: string): (r: string)
    ensures |r| <= |s| && r == s[|s| - |r|..]
    ensures r != [] ==> r[0] !in cut
    ensures forall j :: 0 <= j < |s| - |r| ==> s[j] in cut
  {
    if |s| == 0 || s[0] !in cut then s else TrimLeftSet(s[1..], cut)
  }

  /** strings.TrimRight(s, cut): `s` without its trailing characters from `cut`. */
  function TrimRightSet(s: string, cut: string): (r: string)
    ensures |r| <= |s| && r == s[..|r|]
    ensures r != [] ==> r[|r| - 1] !in cut
    ensures forall j :: |r| <= j < |s| ==> s[j] in cut
  {
    if |s| == 0 || s[|s| - 1] !in cut then s else TrimRightSet(s[..|s| - 1], cut)
  }

  /** strings.Trim(s, cut): both ends trimmed. */
  function Trim(s: string, cut: string): string {
    TrimRightSet(TrimLeftSet(s, cut), cut)
  }

  /** Trimming a string that has no character of the cutset changes nothing. */
  lemma TrimClean(s: string, cut: string)
    requires forall j :: 0 <= j < |s| ==> s[j] !in cut
    ensures Trim(s, cut) == s
  {
    assert TrimLeftSet(s, cut) == s;
  }

  /** No character of `w` is a separator. */
  predicate NoSep(w: string, sep: char -> bool) {
    forall i :: 0 <= i < |w| ==> !sep(w[i])
  }

  /** strings.FieldsFunc(s, sep): the maximal non-empty runs of non-separators of `s`. */
  function FieldsFunc(s: string, sep: char -> bool): (r: seq<string>)
    ensures forall k :: 0 <= k < |r| ==> r[k] != [] && NoSep(r[k], sep)
  {
    FieldsAfter(s, sep, [])
  }

  /** The word just begun, when there is one. */
  function Pending(cur: string): seq<string> {
    if cur == [] then [] else [cur]
  }

  /** The fields of `s` when the word `cur` was begun before it. */
  function FieldsAfter(s: string, sep: char -> bool, cur: string): (r: seq<string>)
    requires NoSep(cur, sep)
    ensures forall k :: 0 <= k < |r| ==> r[k] != [] && NoSep(r[k], sep)
    decreases |s|
  {
    if |s| == 0 then Pending(cur)
    else if sep(s[0]) then Pending(cur) + FieldsAfter(s[1..], sep, [])
    else FieldsAfter(s[1..], sep, cur + [s[0]])
  }

  /** A non-empty string without separators is a single field. */
  lemma FieldsOfWord(s: string, sep: char -> bool)
    requires s != [] && NoSep(s, sep)
    ensures FieldsFunc(s, sep) == [s]
  {
    FieldsAfterWord(s, sep, []);
    assert [] + s == s;
  }

  lemma {:induction false} FieldsAfterWord(s: string, sep: char -> bool, cur: string)
    requires NoSep(cur, sep) && NoSep(s, sep)
    ensures FieldsAfter(s, sep, cur) == Pending(cur + s)
    decreases |s|
  {
    if |s| == 0 {
      assert cur + s == cur;
    } else {
      assert NoSep(cur + [s[0]], sep) by {
        forall i | 0 <= i < |cur| + 1 ensures !sep((cur + [s[0]])[i]) {
          if i < |cur| { assert (cur + [s[0]])[i] == cur[i]; }
        }
      }
      assert NoSep(s[1..], sep) by {
        forall i | 0 <= i < |s| - 1 ensures !sep(s[1..][i]) { assert s[1..][i] == s[i + 1]; }
      }
      FieldsAfterWord(s[1..], sep, cur + [s[0]]);
      assert cur + [s[0]] + s[1..] == cur + s;
    }
  }

  /** A separator splits the fields: those before it, then those after it. */
  lemma FieldsSplit(a: string, c: char, b: string, sep: char -> bool)
    requires sep(c)
    ensures FieldsFunc(a + [c] + b, sep) == FieldsFunc(a, sep) + FieldsFunc(b, sep)
  {
    FieldsAfterSplit(a, c, b, sep, []);
  }

  lemma {:induction false} FieldsAfterSplit(a: string, c: char, b: string, sep: char -> bool, cur: string)
    requires sep(c) && NoSep(cur, sep)
    ensures FieldsAfter(a + [c] + b, sep, cur) == FieldsAfter(a, sep, cur) + FieldsAfter(b, sep, [])
    decreases |a|
  {
    var s := a + [c] + b;
    if |a| == 0 {
      assert s[0] == c && s[1..] == b;
    } else {
      assert s[0] == a[0] && s[1..] == a[1..] + [c] + b;
      if sep(a[0]) {
        FieldsAfterSplit(a[1..], c, b, sep, []);
      } else {
        assert NoSep(cur + [a[0]], sep) by {
          forall i | 0 <= i < |cur| + 1 ensures !sep((cur + [a[0]])[i]) {
            if i < |cur| { assert (cur + [a[0]])[i] == cur[i]; }
          }
        }
        FieldsAfterSplit(a[1..], c, b, sep, cur + [a[0]]);
      }
    }
  }

  /** The first occurrence of `t` after a prefix `w` that cannot start one is right after `w`. */
  lemma IndexAfterPrefix(w: string, t: string, rest: string)
    requires t != [] && forall j :: 0 <= j < |w| ==> w[j] != t[0]
    ensures IndexOf(w + t + rest, t) == |w|
  {
    var s := w + t + rest;
    assert s[|w|..|w| + |t|] == t;
    assert OccursAt(s, t, |w|);
    forall j | 0 <= j < |w| ensures !OccursAt(s, t, j) {
      assert s[j] == w[j];
      if j + |t| <= |s| { assert s[j..j + |t|][0] == s[j]; }
    }
  }

  /** Lower-casing of one character; only ASCII letters change. */
  function LowerChar(c: char): char {
    if 'A' <= c <= 'Z' then (c as int + 32) as char else c
  }

  /** Upper-casing of one character; only ASCII letters change. */
  function UpperChar(c: char): char {
    if 'a' <= c <= 'z' then (c as int - 32) as char else c
  }

  /** strings.ToLower, restricted to ASCII case mapping. */
  function ToLower(s: string): (r: string)
    ensures |r| == |s|
    ensures forall i :: 0 <= i < |s| ==> r[i] == LowerChar(s[i])
  {
    if |s| == 0 then [] else [LowerChar(s[0])] + ToLower(s[1..])
  }

  /** The separator test of strings.Title for ASCII characters: everything except
      letters, digits and '_' separates words. Other characters are treated as letters. */
  predicate TitleSeparator(c: char) {
    c < 128 as char && !('a' <= c <= 'z' || 'A' <= c <= 'Z' || '0' <= c <= '9' || c == '_')
  }

  /** strings.Title: upper-case every character that follows a separator (or starts `s`). */
  function Title(s: string): (r: string)
    ensures |r| == |s|
    ensures |s| > 0 ==> r[0] == UpperChar(s[0])
    ensures forall i :: 0 < i < |s| ==> r[i] == if TitleSeparator(s[i - 1]) then UpperChar(s[i]) else s[i]
  {
    TitleAfter(s, ' ')
  }

  /** strings.Title on `s` when the character before it was `prev`. */
  function TitleAfter(s: string, prev: char): (r: string)
    ensures |r| == |s|
    ensures |s| > 0 ==> r[0] == if TitleSeparator(prev) then UpperChar(s[0]) else s[0]
    ensures forall i :: 0 < i < |s| ==> r[i] == if TitleSeparator(s[i - 1]) then UpperChar(s[i]) else s[i]
  {
    if |s| == 0 then []
    else
      var rest := TitleAfter(s[1..], s[0]);
      [if TitleSeparator(prev) then UpperChar(s[0]) else s[0]] + rest
  }

  function DigitChar(d: nat): char
    requires d < 10
  {
    ('0' as int + d) as char
  }

  /** strconv.Itoa / fmt's %d for a natural number: its decimal digits, no leading zeros. */
  function NatToString(n: nat): (r: string)
    ensures |r| >= 1
    ensures forall i :: 0 <= i < |r| ==> '0' <= r[i] <= '9'
    ensures n < 10 ==> r == [DigitChar(n)]
  {
    if n < 10 then [DigitChar(n)] else NatToString(n / 10) + [DigitChar(n % 10)]
  }

  /** Exactly the numbers below ten are written with one digit. */
  lemma NatToStringOneDigit(n: nat)
    ensures |NatToString(n)| == 1 <==> n < 10
  {
  }

  /** Different numbers are written differently. */
  lemma {:induction false} NatToStringInjective(a: nat, b: nat)
    ensures NatToString(a) == NatToString(b) ==> a == b
  {
    if NatToString(a) == NatToString(b) {
      NatToStringOneDigit(a);
      NatToStringOneDigit(b);
      if a >= 10 {
        var s := NatToString(a);
        assert s[..|s| - 1] == NatToString(a / 10) && s[..|s| - 1] == NatToString(b / 10);
        NatToStringInjective(a / 10, b / 10);
        assert s[|s| - 1] == DigitChar(a % 10) && s[|s| - 1] == DigitChar(b % 10);
      } else {
        assert NatToString(a)[0] == DigitChar(a) && NatToString(b)[0] == DigitChar(b);
      }
    }
  }
}
