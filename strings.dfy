/** The JavaScript string operations the application relies on, stated on
    `seq<char>`: `split(c)` followed by `pop()`, `toLowerCase`/`toUpperCase`,
    `startsWith`, `endsWith`, `includes`, `lastIndexOf`, `trim` and the
    decimal rendering of a non-negative integer. */
module Strings {

  // ---------------------------------------------------------------------
  // Case mapping (the ASCII letters; see README for the rest of Unicode)
  // ---------------------------------------------------------------------

  function LowerChar(c: char): char {
    if 'A' <= c <= 'Z' then (c as int + 32) as char else c
  }

  function UpperChar(c: char): char {
    if 'a' <= c <= 'z' then (c as int - 32) as char else c
  }

  /** `s.toLowerCase()` */
  function Lower(s: string): (r: string)
    ensures |r| == |s|
    ensures forall i :: 0 <= i < |s| ==> r[i] == LowerChar(s[i])
  {
    seq(|s|, i requires 0 <= i < |s| => LowerChar(s[i]))
  }

  /** `s.toUpperCase()` */
  function Upper(s: string): (r: string)
    ensures |r| == |s|
    ensures forall i :: 0 <= i < |s| ==> r[i] == UpperChar(s[i])
  {
    seq(|s|, i requires 0 <= i < |s| => UpperChar(s[i]))
  }

  /** Lower-casing is idempotent, and lower-casing an upper-cased string
      gives the same as lower-casing the original. */
  lemma LowerOfLower(s: string)
    ensures Lower(Lower(s)) == Lower(s)
    ensures Lower(Upper(s)) == Lower(s)
  {
  }

  /** Upper-casing is idempotent. */
  lemma UpperOfUpper(s: string)
    ensures Upper(Upper(s)) == Upper(s)
  {
  }

  // ---------------------------------------------------------------------
  // split(sep) and pop()
  // ---------------------------------------------------------------------

  /** `s.split(sep)`: the maximal separator-free pieces, in order. Defined
      from the end of the string so that the last piece, the one `pop()`
      returns, is easy to reason about. */
  function Split(s: string, sep: char): (parts: seq<string>)
    ensures |parts| >= 1
    decreases |s|
  {
    if s == [] then [""]
    else
      var init := Split(s[..|s| - 1], sep);
      var c := s[|s| - 1];
      if c == sep then init + [""]
      else init[..|init| - 1] + [init[|init| - 1] + [c]]
  }

  /** `parts.join(sep)` */
  function Join(parts: seq<string>, sep: char): string
  {
    if parts == [] then ""
    else if |parts| == 1 then parts[0]
    else Join(parts[..|parts| - 1], sep) + [sep] + parts[|parts| - 1]
  }

  /** `s.split(sep).pop()`: the piece after the last separator, or the
      whole string when there is none (`LastPieceOfSplit`). */
  function LastPiece(s: string, sep: char): (r: string)
    ensures |r| <= |s|
    decreases |s|
  {
    if s == [] then []
    else if s[|s| - 1] == sep then []
    else LastPiece(s[..|s| - 1], sep) + [s[|s| - 1]]
  }

  /** No piece of `split(sep)` holds the separator. */
  lemma {:induction false} SplitPiecesSeparatorFree(s: string, sep: char)
    ensures forall i :: 0 <= i < |Split(s, sep)| ==> sep !in Split(s, sep)[i]
    decreases |s|
  {
    if s != [] {
      var u := s[..|s| - 1];
      var c := s[|s| - 1];
      SplitPiecesSeparatorFree(u, sep);
      var init := Split(u, sep);
      if c != sep {
        var k := |init| - 1;
        assert Split(s, sep) == init[..k] + [init[k] + [c]];
        assert sep !in init[k] + [c];
      }
    }
  }

  /** Splitting loses nothing: joining the pieces back with the separator
      gives the original string. */
  lemma {:induction false} JoinSplit(s: string, sep: char)
    ensures Join(Split(s, sep), sep) == s
    decreases |s|
  {
    if s != [] {
      var u, c := s[..|s| - 1], s[|s| - 1];
      JoinSplit(u, sep);
      var parts := Split(u, sep);
      assert s == u + [c];
      if c == sep {
        assert Split(s, sep) == parts + [""];
        JoinAppendEmpty(parts, sep);
      } else {
        assert Split(s, sep) == parts[..|parts| - 1] + [parts[|parts| - 1] + [c]];
        JoinExtendLast(parts, c, sep);
      }
    }
  }

  lemma JoinAppendEmpty(parts: seq<string>, sep: char)
    requires parts != []
    ensures Join(parts + [""], sep) == Join(parts, sep) + [sep]
  {
    assert (parts + [""])[..|parts|] == parts;
  }

  lemma JoinExtendLast(parts: seq<string>, c: char, sep: char)
    requires parts != []
    ensures Join(parts[..|parts| - 1] + [parts[|parts| - 1] + [c]], sep) == Join(parts, sep) + [c]
  {
    var k := |parts| - 1;
    var q := parts[..k] + [parts[k] + [c]];
    if k > 0 {
      assert q[..k] == parts[..k];
    }
  }

  /** The string has more than one piece exactly when it contains the
      separator. */
  lemma {:induction false} SplitLengthAboveOne(s: string, sep: char)
    ensures |Split(s, sep)| > 1 <==> sep in s
    decreases |s|
  {
    if s != [] {
      var u := s[..|s| - 1];
      SplitLengthAboveOne(u, sep);
      assert s == u + [s[|s| - 1]];
    }
  }

  /** `LastPiece` is what `pop()` returns after `split(sep)`. */
  lemma {:induction false} LastPieceOfSplit(s: string, sep: char)
    ensures LastPiece(s, sep) == Split(s, sep)[|Split(s, sep)| - 1]
    decreases |s|
  {
    if s != [] {
      LastPieceOfSplit(s[..|s| - 1], sep);
    }
  }

  /** The last piece is the suffix after the last separator, or the whole
      string when there is none. */
  lemma {:induction false} LastPieceIsSuffix(s: string, sep: char)
    ensures s[|s| - |LastPiece(s, sep)|..] == LastPiece(s, sep)
    ensures sep !in LastPiece(s, sep)
    ensures sep in s ==> s[|s| - |LastPiece(s, sep)| - 1] == sep
    ensures sep !in s ==> LastPiece(s, sep) == s
    decreases |s|
  {
    if s != [] {
      var u, c := s[..|s| - 1], s[|s| - 1];
      assert s == u + [c];
      if c != sep {
        LastPieceIsSuffix(u, sep);
        var p := LastPiece(u, sep);
        assert LastPiece(s, sep) == p + [c];
        SuffixSnoc(u, c, |p|);
        assert sep in s <==> sep in u;
        if sep in u {
          assert s[|s| - |p| - 2] == u[|u| - |p| - 1];
        }
      }
    }
  }

  lemma SuffixSnoc(u: string, c: char, n: nat)
    requires n <= |u|
    ensures (u + [c])[|u| - n..] == u[|u| - n..] + [c]
  {
  }

  /** Lower-casing keeps every `.` where it was and commutes with taking
      the last `.` piece. */
  lemma {:induction false} LastPieceLower(s: string)
    ensures ('.' in Lower(s)) == ('.' in s)
    ensures LastPiece(Lower(s), '.') == Lower(LastPiece(s, '.'))
    decreases |s|
  {
    if s != [] {
      var u, c := s[..|s| - 1], s[|s| - 1];
      var ls := Lower(s);
      LastPieceLower(u);
      assert s == u + [c];
      assert ls == Lower(u) + [LowerChar(c)];
      assert LowerChar(c) == '.' <==> c == '.';
      if c != '.' {
        assert Lower(LastPiece(u, '.') + [c]) == Lower(LastPiece(u, '.')) + [LowerChar(c)];
      }
    }
  }

  /** The piece after an explicit final separator is the text after it. */
  lemma LastPieceAfterSeparator(stem: string, tail: string, sep: char)
    requires sep !in tail
    ensures LastPiece(stem + [sep] + tail, sep) == tail
  {
    var s := stem + [sep] + tail;
    assert s[|stem|] == sep;
    LastPieceIsSuffix(s, sep);
    assert LastPiece(s, sep) == s[|s| - |tail|..] == tail;
  }

  // ---------------------------------------------------------------------
  // Prefixes, suffixes, substrings, last index
  // ---------------------------------------------------------------------

  /** `s.startsWith(prefix)` */
  predicate StartsWith(s: string, prefix: string) {
    |prefix| <= |s| && s[..|prefix|] == prefix
  }

  /** `s.endsWith(c)` for a one-character suffix. */
  predicate EndsWithChar(s: string, c: char) {
    |s| > 0 && s[|s| - 1] == c
  }

  /** `s.includes(sub)` */
  predicate Contains(s: string, sub: string) {
    exists i | 0 <= i <= |s| - |sub| :: OccursAt(s, sub, i)
  }

  predicate OccursAt(s: string, sub: string, i: int)
    requires 0 <= i <= |s| - |sub|
  {
    s[i..i + |sub|] == sub
  }

  /** Every string includes the empty string. */
  lemma ContainsEmpty(s: string)
    ensures Contains(s, "")
  {
    assert OccursAt(s, "", 0);
  }

  /** `s.lastIndexOf(c)`: the index of the last occurrence, or -1. */
  function LastIndexOf(s: string, c: char): (r: int)
    ensures -1 <= r < |s|
    ensures r == -1 <==> c !in s
    ensures r >= 0 ==> s[r] == c && c !in s[r + 1..]
    decreases |s|
  {
    if s == [] then -1
    else if s[|s| - 1] == c then |s| - 1
    else
      var r := LastIndexOf(s[..|s| - 1], c);
      assert s[..|s| - 1] + [s[|s| - 1]] == s;
      if r >= 0 then
        assert s[r + 1..] == s[..|s| - 1][r + 1..] + [s[|s| - 1]];
        r
      else r
  }

  // ---------------------------------------------------------------------
  // trim()
  // ---------------------------------------------------------------------

  /** The characters `String.prototype.trim` removes: the ECMAScript
      WhiteSpace and LineTerminator code points. */
  predicate IsWhiteSpace(c: char) {
    c == '\t' || c == '\n' || c == '\U{B}' || c == '\U{C}' || c == '\r' || c == ' '
    || c == '\U{A0}' || c == '\U{1680}' || ('\U{2000}' <= c <= '\U{200A}')
    || c == '\U{2028}' || c == '\U{2029}' || c == '\U{202F}' || c == '\U{205F}'
    || c == '\U{3000}' || c == '\U{FEFF}'
  }

  function TrimStart(s: string): (r: string)
    ensures r == [] || !IsWhiteSpace(r[0])
    decreases |s|
  {
    if s != [] && IsWhiteSpace(s[0]) then TrimStart(s[1..]) else s
  }

  function TrimEnd(s: string): string
    decreases |s|
  {
    if s != [] && IsWhiteSpace(s[|s| - 1]) then TrimEnd(s[..|s| - 1]) else s
  }

  /** `s.trim()` */
  function Trim(s: string): string {
    TrimEnd(TrimStart(s))
  }

  /** A string is blank when every character is white space. */
  predicate IsBlank(s: string) {
    forall i :: 0 <= i < |s| ==> IsWhiteSpace(s[i])
  }

  lemma {:induction false} TrimStartEmpty(s: string)
    ensures TrimStart(s) == "" <==> IsBlank(s)
    decreases |s|
  {
    if s != [] {
      TrimStartEmpty(s[1..]);
      if IsWhiteSpace(s[0]) {
        assert IsBlank(s) <==> IsBlank(s[1..]) by {
          if IsBlank(s[1..]) {
            forall i | 0 <= i < |s| ensures IsWhiteSpace(s[i]) {
              if i > 0 { assert s[i] == s[1..][i - 1]; }
            }
          }
        }
      }
    }
  }

  lemma {:induction false} TrimEndEmpty(s: string)
    ensures TrimEnd(s) == "" <==> IsBlank(s)
    decreases |s|
  {
    if s != [] {
      TrimEndEmpty(s[..|s| - 1]);
    }
  }

  /** `s.trim()` is empty exactly when the string is blank: what the
      application's `!text.trim()` and `text.trim() === ''` tests mean. */
  lemma TrimEmptyIffBlank(s: string)
    ensures Trim(s) == "" <==> IsBlank(s)
  {
    TrimStartEmpty(s);
    var t := TrimStart(s);
    TrimEndEmpty(t);
    if t != "" {
      assert !IsWhiteSpace(t[0]);
      TrimEndNonEmpty(t);
    }
  }

  lemma {:induction false} TrimEndNonEmpty(s: string)
    requires !IsBlank(s)
    ensures TrimEnd(s) != ""
    decreases |s|
  {
    TrimEndEmpty(s);
  }

  // ---------------------------------------------------------------------
  // Number.prototype.toString() for non-negative integers
  // ---------------------------------------------------------------------

  function DigitChar(d: nat): (c: char)
    requires d < 10
    ensures '0' <= c <= '9'
  {
    ('0' as int + d) as char
  }

  /** The decimal rendering of `n`, without leading zeros. */
  function NatToString(n: nat): (r: string)
    ensures |r| >= 1
    ensures forall i :: 0 <= i < |r| ==> '0' <= r[i] <= '9'
    ensures n >= 10 ==> |r| >= 2
    decreases n
  {
    if n < 10 then [DigitChar(n)] else NatToString(n / 10) + [DigitChar(n % 10)]
  }

  /** Distinct numbers render to distinct strings. */
  lemma {:induction false} NatToStringInjective(a: nat, b: nat)
    requires NatToString(a) == NatToString(b)
    ensures a == b
    decreases a
  {
    if a >= 10 && b >= 10 {
      var ra, rb := NatToString(a), NatToString(b);
      assert ra[|ra| - 1] == rb[|rb| - 1];
      assert ra[..|ra| - 1] == NatToString(a / 10);
      assert rb[..|rb| - 1] == NatToString(b / 10);
      NatToStringInjective(a / 10, b / 10);
    }
  }
}
