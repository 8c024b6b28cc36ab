/** The JavaScript string operations the models and routers rely on:
    `trim`, `toLowerCase`, `includes`/`indexOf`, `replace` of the first
    occurrence, and `split` on a one-character separator. */
module Strings {
  import opened Common

  /** The characters `String.prototype.trim` removes: WhiteSpace (tab, vertical
      tab, form feed, the space separators, no-break space, byte-order mark)
      and LineTerminator. */
  predicate IsSpace(c: char) {
    || c == '\t' || c == '\n' || c == '\U{000B}' || c == '\U{000C}' || c == '\r'
    || c == ' ' || c == '\U{00A0}' || c == '\U{1680}'
    || ('\U{2000}' <= c <= '\U{200A}')
    || c == '\U{2028}' || c == '\U{2029}' || c == '\U{202F}' || c == '\U{205F}'
    || c == '\U{3000}' || c == '\U{FEFF}'
  }

  /** Drops the leading white space: what is dropped is all white space, and
      what is kept is a suffix that does not start with white space. */
  function TrimStart(s: string): (r: string)
    ensures |r| <= |s| && r == s[|s| - |r|..]
    ensures forall k :: 0 <= k < |s| - |r| ==> IsSpace(s[k])
    ensures r == [] || !IsSpace(r[0])
  {
    if s == [] || !IsSpace(s[0]) then s else TrimStart(s[1..])
  }

  /** Drops the trailing white space. */
  function TrimEnd(s: string): (r: string)
    ensures |r| <= |s| && r == s[..|r|]
    ensures forall k :: |r| <= k < |s| ==> IsSpace(s[k])
    ensures r == [] || !IsSpace(r[|r| - 1])
  {
    if s == [] || !IsSpace(s[|s| - 1]) then s else TrimEnd(s[..|s| - 1])
  }

  /** `r` is the slice of `s` starting at `a`, and everything of `s` outside
      that slice is white space. */
  predicate TrimmedAt(s: string, r: string, a: nat) {
    && a + |r| <= |s|
    && r == s[a..a + |r|]
    && (forall k :: 0 <= k < a ==> IsSpace(s[k]))
    && (forall k :: a + |r| <= k < |s| ==> IsSpace(s[k]))
  }

  /** `s.trim()`: the middle of `s` with the white space at both ends removed,
      and no white space left at either end. */
  function Trim(s: string): (r: string)
    ensures TrimmedAt(s, r, |s| - |TrimStart(s)|)
    ensures exists a: nat :: TrimmedAt(s, r, a)
    ensures r == [] || (!IsSpace(r[0]) && !IsSpace(r[|r| - 1]))
    ensures |r| <= |s|
  {
    var t := TrimStart(s);
    var kept := TrimEnd(t);
    TrimmedBothEnds(s, t, kept);
    kept
  }

  /** Dropping white space at the front of `s` (giving `t`), then at the back
      of `t` (giving `kept`), keeps a slice of `s`. */
  lemma TrimmedBothEnds(s: string, t: string, kept: string)
    requires |t| <= |s| && t == s[|s| - |t|..] && forall k :: 0 <= k < |s| - |t| ==> IsSpace(s[k])
    requires |kept| <= |t| && kept == t[..|kept|] && forall k :: |kept| <= k < |t| ==> IsSpace(t[k])
    ensures TrimmedAt(s, kept, |s| - |t|)
  {
    var a := |s| - |t|;
    assert s[a..a + |kept|] == t[..|kept|];
    forall k | a + |kept| <= k < |s|
      ensures IsSpace(s[k])
    {
      assert s[k] == t[k - a];
    }
  }

  /** A string that neither starts nor ends with white space is its own trim. */
  lemma TrimOfTrimmed(s: string)
    requires s == [] || (!IsSpace(s[0]) && !IsSpace(s[|s| - 1]))
    ensures Trim(s) == s
  {
    assert TrimStart(s) == s;
    assert TrimEnd(s) == s;
  }

  /** Trimming twice is trimming once. */
  lemma TrimIdempotent(s: string)
    ensures Trim(Trim(s)) == Trim(s)
  {
    var t := Trim(s);
    assert t == [] || (!IsSpace(t[0]) && !IsSpace(t[|t| - 1]));
    TrimOfTrimmed(t);
  }

  /** A string of white space only trims to the empty string. */
  lemma {:induction false} BlankTrimsToEmpty(s: string)
    requires forall k :: 0 <= k < |s| ==> IsSpace(s[k])
    ensures Trim(s) == []
  {
    if s != [] {
      BlankTrimsToEmpty(s[1..]);
    }
  }

  /** `toLowerCase` on one character; only the ASCII letters are mapped. */
  function LowerChar(c: char): char {
    if 'A' <= c <= 'Z' then (c as int + 32) as char else c
  }

  /** `s.toLowerCase()`, character by character. */
  function Lower(s: string): (r: string)
    ensures |r| == |s|
    ensures forall i :: 0 <= i < |s| ==> r[i] == LowerChar(s[i])
  {
    if s == [] then [] else [LowerChar(s[0])] + Lower(s[1..])
  }

  /** Lower-casing a lower-cased string changes nothing. */
  lemma LowerIdempotent(s: string)
    ensures Lower(Lower(s)) == Lower(s)
  {
    assert forall i :: 0 <= i < |s| ==> LowerChar(LowerChar(s[i])) == LowerChar(s[i]);
  }

  /** Lower-casing a slice is slicing the lower-cased string. */
  lemma LowerSlice(s: string, i: nat, j: nat)
    requires i <= j <= |s|
    ensures Lower(s)[i..j] == Lower(s[i..j])
  {
    var whole, part := Lower(s)[i..j], Lower(s[i..j]);
    forall k | 0 <= k < j - i
      ensures whole[k] == part[k]
    {
      assert whole[k] == Lower(s)[i + k] == LowerChar(s[i + k]);
      assert part[k] == LowerChar(s[i..j][k]);
    }
    SameCharacters(whole, part);
  }

  /** Two strings of one length that agree at every index are equal. */
  lemma SameCharacters(a: string, b: string)
    requires |a| == |b|
    requires forall k :: 0 <= k < |a| ==> a[k] == b[k]
    ensures a == b
  {
  }

  /** A lower-cased string holds no upper-case ASCII letter. */
  lemma LowerHasNoUpper(t: string)
    ensures forall i :: 0 <= i < |Lower(t)| ==> !('A' <= Lower(t)[i] <= 'Z')
  {
    var r := Lower(t);
    forall i | 0 <= i < |r|
      ensures !('A' <= r[i] <= 'Z')
    {
      assert r[i] == LowerChar(t[i]);
    }
  }

  /** Lower-casing a string and its slice keeps the slice in place, with
      only white space outside it. */
  lemma LowerKeepsTrimmedAt(s: string, r: string, a: nat)
    requires TrimmedAt(s, r, a)
    ensures TrimmedAt(Lower(s), Lower(r), a)
  {
    LowerSlice(s, a, a + |r|);
    var low := Lower(s);
    forall k | 0 <= k < |s| && !(a <= k < a + |r|)
      ensures IsSpace(low[k])
    {
      LowerKeepsSpace(s[k]);
    }
  }

  /** Lower-casing keeps white space and non-white space apart. */
  lemma LowerKeepsSpace(c: char)
    ensures IsSpace(LowerChar(c)) <==> IsSpace(c)
  {
  }

  /** Lower-casing a string without white space at its ends keeps it so. */
  lemma LowerOfTrimmed(t: string)
    requires t == [] || (!IsSpace(t[0]) && !IsSpace(t[|t| - 1]))
    ensures Lower(t) == [] || (!IsSpace(Lower(t)[0]) && !IsSpace(Lower(t)[|t| - 1]))
    ensures Trim(Lower(t)) == Lower(t)
  {
    if t != [] {
      LowerKeepsSpace(t[0]);
      LowerKeepsSpace(t[|t| - 1]);
    }
    TrimOfTrimmed(Lower(t));
  }

  /** Lower-casing commutes with dropping leading white space. */
  lemma {:induction false} LowerTrimStart(s: string)
    ensures TrimStart(Lower(s)) == Lower(TrimStart(s))
  {
    if s != [] {
      LowerKeepsSpace(s[0]);
      assert Lower(s)[1..] == Lower(s[1..]);
      LowerTrimStart(s[1..]);
    }
  }

  /** Lower-casing commutes with dropping trailing white space. */
  lemma {:induction false} LowerTrimEnd(s: string)
    ensures TrimEnd(Lower(s)) == Lower(TrimEnd(s))
  {
    if s != [] {
      LowerKeepsSpace(s[|s| - 1]);
      assert Lower(s)[..|s| - 1] == Lower(s[..|s| - 1]);
      LowerTrimEnd(s[..|s| - 1]);
    }
  }

  /** Lower-casing commutes with trimming. */
  lemma TrimLowerCommute(s: string)
    ensures Trim(Lower(s)) == Lower(Trim(s))
  {
    LowerTrimStart(s);
    LowerTrimEnd(TrimStart(s));
  }

  /** JavaScript's `length` of `s`: its UTF-16 code units, one for a character
      of the Basic Multilingual Plane and two (a surrogate pair) for any other. */
  function Utf16Length(s: string): (n: nat)
    ensures |s| <= n <= 2 * |s|
    ensures n == |s| <==> forall i :: 0 <= i < |s| ==> s[i] <= '\U{FFFF}'
    ensures |s| == 1 ==> n == (if s[0] <= '\U{FFFF}' then 1 else 2)
  {
    if s == [] then 0
    else (if s[0] <= '\U{FFFF}' then 1 else 2) + Utf16Length(s[1..])
  }

  /** The code units of a concatenation are those of its parts; with the
      one-character case this fixes the count of every string. */
  lemma {:induction false} Utf16Additive(a: string, b: string)
    ensures Utf16Length(a + b) == Utf16Length(a) + Utf16Length(b)
  {
    if a != [] {
      assert (a + b)[1..] == a[1..] + b;
      Utf16Additive(a[1..], b);
    } else {
      assert a + b == b;
    }
  }

  /** `p` occurs in `s` starting at index `i`. */
  predicate MatchAt(s: string, p: string, i: int) {
    0 <= i && i + |p| <= |s| && s[i..i + |p|] == p
  }

  /** `s.indexOf(p)`: the first index at which `p` occurs, if any. */
  function IndexOf(s: string, p: string): (r: Option<nat>)
    ensures r.Some? ==> MatchAt(s, p, r.value) && forall j :: 0 <= j < r.value ==> !MatchAt(s, p, j)
    ensures r.None? ==> forall j :: !MatchAt(s, p, j)
    decreases |s|
  {
    if |s| < |p| then None
    else if s[..|p|] == p then Some(0)
    else
      ShiftMatch(s, p);
      match IndexOf(s[1..], p)
      case None => None
      case Some(i) => Some(i + 1)
  }

  /** A match in the tail of `s` is a match in `s` one place further on. */
  lemma ShiftMatch(s: string, p: string)
    requires s != []
    ensures forall j :: 1 <= j ==> (MatchAt(s, p, j) <==> MatchAt(s[1..], p, j - 1))
  {
    forall j | 1 <= j ensures MatchAt(s, p, j) <==> MatchAt(s[1..], p, j - 1) {
      if j + |p| <= |s| {
        assert s[1..][j - 1..j - 1 + |p|] == s[j..j + |p|];
      }
    }
  }

  /** `s.includes(p)`. */
  function Includes(s: string, p: string): (r: bool)
    ensures r <==> exists i :: MatchAt(s, p, i)
  {
    IndexOf(s, p).Some?
  }

  /** `s.replace(p, replacement)` with a string pattern: only the first occurrence is replaced. */
  function ReplaceFirst(s: string, p: string, replacement: string): (r: string)
    ensures (forall i :: !MatchAt(s, p, i)) ==> r == s
    ensures forall i :: MatchAt(s, p, i) && (forall j :: 0 <= j < i ==> !MatchAt(s, p, j))
                        ==> r == s[..i] + replacement + s[i + |p|..]
  {
    match IndexOf(s, p)
    case None => s
    case Some(i) => s[..i] + replacement + s[i + |p|..]
  }

  /** Removing a pattern that the string starts with leaves the rest of the string. */
  lemma ReplacePrefix(p: string, t: string)
    ensures ReplaceFirst(p + t, p, "") == t
  {
    assert (p + t)[..|p|] == p;
    assert MatchAt(p + t, p, 0);
  }

  /** Replacing a pattern that does not occur changes nothing. */
  lemma ReplaceAbsent(s: string, p: string, replacement: string)
    requires forall i :: !MatchAt(s, p, i)
    ensures ReplaceFirst(s, p, replacement) == s
  {
  }

  /** The pieces of a split, glued back together with the separator. */
  function Join(parts: seq<string>, sep: char): string
    requires |parts| >= 1
  {
    if |parts| == 1 then parts[0] else parts[0] + [sep] + Join(parts[1..], sep)
  }

  /** `s.split(sep)` for a one-character separator: at least one piece, no
      piece holds the separator, and joining the pieces gives `s` back. */
  function Split(s: string, sep: char): (r: seq<string>)
    ensures |r| >= 1
    ensures forall i :: 0 <= i < |r| ==> sep !in r[i]
    ensures Join(r, sep) == s
  {
    if s == [] then [[]]
    else
      var rest := Split(s[1..], sep);
      if s[0] == sep then
        assert Join([[]] + rest, sep) == [sep] + Join(rest, sep);
        [[]] + rest
      else
        var r := [[s[0]] + rest[0]] + rest[1..];
        assert r[1..] == rest[1..];
        assert Join(r, sep) == [s[0]] + Join(rest, sep);
        r
  }

  /** A string without the separator is one piece. */
  lemma {:induction false} SplitNoSeparator(s: string, sep: char)
    requires sep !in s
    ensures Split(s, sep) == [s]
  {
    if s != [] {
      SplitNoSeparator(s[1..], sep);
    }
  }

  /** When there is more than one piece, the first ends at a separator and
      the other pieces are the split of what follows that separator. */
  lemma SplitRest(s: string, sep: char)
    requires |Split(s, sep)| > 1
    ensures var p := Split(s, sep);
      && |p[0]| < |s| && s[|p[0]|] == sep
      && p[1..] == Split(s[|p[0]| + 1..], sep)
  {
    var p := Split(s, sep);
    var tail := Join(p[1..], sep);
    assert s == p[0] + [sep] + tail;
    SplitAtFirst(p[0], sep, tail);
    assert s[|p[0]| + 1..] == tail;
  }

  /** A separator-free head `f` followed by the separator splits off as the first piece. */
  lemma {:induction false} SplitAtFirst(f: string, sep: char, d: string)
    requires sep !in f
    ensures Split(f + [sep] + d, sep) == [f] + Split(d, sep)
  {
    if f == [] {
      assert ([] + [sep] + d)[1..] == d;
    } else {
      SplitAtFirst(f[1..], sep, d);
      assert (f + [sep] + d)[1..] == f[1..] + [sep] + d;
      var rest := Split(f[1..] + [sep] + d, sep);
      assert rest[0] == f[1..] && rest[1..] == Split(d, sep);
      assert [f[0]] + f[1..] == f;
    }
  }
}
