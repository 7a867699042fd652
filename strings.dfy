/** The few Python string operations the Markdown pipeline relies on, with the
    facts about them that the pipeline's proofs use. Strings are `seq<char>`. */
module Strings {

  /** Python's `s.startswith(prefix)`. */
  predicate StartsWith(s: string, prefix: string) {
    |prefix| <= |s| && s[..|prefix|] == prefix
  }

  /** Python's `s[i:i + len(pat)] == pat` for a non-negative `i`. */
  predicate MatchAt(s: string, i: nat, pat: string) {
    i + |pat| <= |s| && s[i..i + |pat|] == pat
  }

  /** Python's `pat in s`. */
  predicate Occurs(s: string, pat: string) {
    exists i: nat | i <= |s| :: MatchAt(s, i, pat)
  }

  /** Python's slice `s[lo:hi]` for non-negative bounds: out-of-range bounds are
      clamped and a reversed range is empty. */
  function PySlice(s: string, lo: nat, hi: nat): (r: string)
    ensures lo <= hi <= |s| ==> r == s[lo..hi]
    ensures hi <= lo ==> r == ""
  {
    var h := if hi <= |s| then hi else |s|;
    if lo < h then s[lo..h] else ""
  }

  /** Python's `s.replace(pat, "", 1)`: the first occurrence of `pat` is removed. */
  function ReplaceFirst(s: string, pat: string): string
    requires |pat| > 0
    decreases |s|
  {
    if |s| < |pat| then s
    else if MatchAt(s, 0, pat) then s[|pat|..]
    else [s[0]] + ReplaceFirst(s[1..], pat)
  }

  /** Without an occurrence nothing is removed; with one, exactly `|pat|`
      characters are. */
  lemma {:induction false} ReplaceFirstSound(s: string, pat: string)
    requires |pat| > 0
    ensures !Occurs(s, pat) ==> ReplaceFirst(s, pat) == s
    ensures Occurs(s, pat) ==> |ReplaceFirst(s, pat)| == |s| - |pat|
    decreases |s|
  {
    if |s| < |pat| {
      assert !Occurs(s, pat);
    } else if !MatchAt(s, 0, pat) {
      ReplaceFirstSound(s[1..], pat);
      ReplaceFirstStep(s, pat);
      OccursTail(s, pat);
    } else {
      assert MatchAt(s, 0, pat);
    }
  }

  /** Past a start that does not match, `pat` occurs exactly when it occurs in the
      rest. */
  lemma OccursTail(s: string, pat: string)
    requires |s| > 0 && !MatchAt(s, 0, pat)
    ensures Occurs(s, pat) <==> Occurs(s[1..], pat)
  {
    var t := s[1..];
    if Occurs(s, pat) {
      var i: nat :| i <= |s| && MatchAt(s, i, pat);
      assert t[i - 1..i - 1 + |pat|] == s[i..i + |pat|];
      assert MatchAt(t, i - 1, pat);
    }
    if Occurs(t, pat) {
      var i: nat :| i <= |t| && MatchAt(t, i, pat);
      assert s[i + 1..i + 1 + |pat|] == t[i..i + |pat|];
      assert MatchAt(s, i + 1, pat);
    }
  }

  /** Removal takes out the first occurrence: when `pat` matches at `i` and at no
      earlier index, removing it joins what stands before and after. */
  lemma {:induction false} ReplaceFirstAt(s: string, pat: string, i: nat)
    requires |pat| > 0 && MatchAt(s, i, pat)
    requires forall k: nat | k < i :: !MatchAt(s, k, pat)
    ensures ReplaceFirst(s, pat) == s[..i] + s[i + |pat|..]
    decreases i
  {
    if i == 0 {
      assert s[..0] == [];
    } else {
      var t := s[1..];
      MatchTail(s, i - 1, pat);
      NoMatchBeforeTail(s, pat, i);
      ReplaceFirstAt(t, pat, i - 1);
      ReplaceFirstJoin(s, pat, i);
    }
  }

  /** The removal in `s` is its first character, then the removal in the rest. */
  lemma ReplaceFirstJoin(s: string, pat: string, i: nat)
    requires |pat| > 0 && 0 < i && i + |pat| <= |s| && !MatchAt(s, 0, pat)
    requires ReplaceFirst(s[1..], pat) == s[1..][..i - 1] + s[1..][i - 1 + |pat|..]
    ensures ReplaceFirst(s, pat) == s[..i] + s[i + |pat|..]
  {
    ReplaceFirstStep(s, pat);
    HeadCut(s, i, i + |pat|);
  }

  /** No match before `i` in `s` leaves no match before `i - 1` past its first character. */
  lemma NoMatchBeforeTail(s: string, pat: string, i: nat)
    requires 0 < i <= |s| && forall k: nat | k < i :: !MatchAt(s, k, pat)
    ensures forall k: nat | k < i - 1 :: !MatchAt(s[1..], k, pat)
  {
    forall k: nat | k < i - 1
      ensures !MatchAt(s[1..], k, pat)
    {
      MatchTail(s, k, pat);
    }
  }

  /** A match past the first character is a match one index further in `s`. */
  lemma MatchTail(s: string, k: nat, pat: string)
    requires |s| > 0
    ensures MatchAt(s[1..], k, pat) <==> MatchAt(s, k + 1, pat)
  {
    if k + |pat| <= |s| - 1 {
      assert s[k + 1..k + 1 + |pat|] == s[1..][k..k + |pat|];
    }
  }

  /** Cutting `s[i..j]` out of `s` after its first character. */
  lemma HeadCut(s: string, i: nat, j: nat)
    requires 0 < i <= j <= |s|
    ensures [s[0]] + (s[1..][..i - 1] + s[1..][j - 1..]) == s[..i] + s[j..]
  {
    assert s[..i] == [s[0]] + s[1..][..i - 1];
    assert s[j..] == s[1..][j - 1..];
  }

  /** Past a start that does not match, the removal keeps the first character. */
  lemma ReplaceFirstStep(s: string, pat: string)
    requires |pat| > 0 && |pat| <= |s| && !MatchAt(s, 0, pat)
    ensures ReplaceFirst(s, pat) == [s[0]] + ReplaceFirst(s[1..], pat)
  {
  }

  /** A match starts with the pattern's first character. */
  lemma FirstCharOfMatch(s: string, k: nat, pat: string)
    requires |pat| > 0
    ensures MatchAt(s, k, pat) ==> s[k] == pat[0]
  {
    if MatchAt(s, k, pat) {
      assert s[k..k + |pat|][0] == s[k];
    }
  }

  /** The first occurrence of `pat` is the one right after a stretch that does not
      hold its first character. */
  lemma ReplaceFirstAfter(x: string, pat: string, y: string)
    requires |pat| > 0 && pat[0] !in x
    ensures ReplaceFirst(x + pat + y, pat) == x + y
  {
    var s := x + pat + y;
    assert MatchAt(s, |x|, pat) by {
      assert s[|x|..|x| + |pat|] == pat;
    }
    forall k: nat | k < |x|
      ensures !MatchAt(s, k, pat)
    {
      FirstCharOfMatch(s, k, pat);
      assert s[k] == x[k];
    }
    ReplaceFirstAt(s, pat, |x|);
    assert s[..|x|] == x && s[|x| + |pat|..] == y;
  }

  /** The characters Python's `str.isspace` accepts, which `str.strip()` removes. */
  predicate IsSpace(c: char) {
    || ('\t' <= c <= '\r') || ('\U{1c}' <= c <= '\U{1f}') || c == ' '
    || c == '\U{85}' || c == '\U{a0}' || c == '\U{1680}'
    || ('\U{2000}' <= c <= '\U{200a}') || c == '\U{2028}' || c == '\U{2029}'
    || c == '\U{202f}' || c == '\U{205f}' || c == '\U{3000}'
  }

  predicate AllSpace(s: string) {
    forall k :: 0 <= k < |s| ==> IsSpace(s[k])
  }

  /** `s` has nothing for `strip()` to remove. */
  predicate Stripped(s: string) {
    s == [] || (!IsSpace(s[0]) && !IsSpace(s[|s| - 1]))
  }

  /** Python's `s.lstrip()`: the longest suffix not starting with whitespace. */
  function TrimStart(s: string): (r: string)
    ensures |r| <= |s| && r == s[|s| - |r|..]
    ensures AllSpace(s[..|s| - |r|])
    ensures r == [] || !IsSpace(r[0])
  {
    if s != [] && IsSpace(s[0]) then
      var t := s[1..];
      var r := TrimStart(t);
      assert r == s[|s| - |r|..] by {
        assert t[|t| - |r|..] == s[|s| - |r|..];
      }
      var lead := s[..|s| - |r|];
      assert AllSpace(lead) by {
        forall k | 0 <= k < |lead|
          ensures IsSpace(lead[k])
        {
          var head := t[..|t| - |r|];
          if k > 0 {
            assert lead[k] == s[k] == t[k - 1] == head[k - 1];
            assert IsSpace(head[k - 1]);
          } else {
            assert lead[k] == s[0];
          }
        }
      }
      r
    else
      assert s[..0] == [];
      s
  }

  /** Python's `s.rstrip()`: the longest prefix not ending with whitespace. */
  function TrimEnd(s: string): (r: string)
    ensures |r| <= |s| && r == s[..|r|]
    ensures AllSpace(s[|r|..])
    ensures r == [] || !IsSpace(r[|r| - 1])
  {
    if s != [] && IsSpace(s[|s| - 1]) then
      var t := s[..|s| - 1];
      var r := TrimEnd(t);
      assert r == s[..|r|] by {
        assert t[..|r|] == s[..|r|];
      }
      var trail := s[|r|..];
      assert AllSpace(trail) by {
        forall k | 0 <= k < |trail|
          ensures IsSpace(trail[k])
        {
          var tail := t[|r|..];
          if k < |tail| {
            assert trail[k] == s[|r| + k] == t[|r| + k] == tail[k];
            assert IsSpace(tail[k]);
          } else {
            assert trail[k] == s[|s| - 1];
          }
        }
      }
      r
    else
      assert s[|s|..] == [];
      s
  }

  /** Python's `s.strip()`. */
  function Strip(s: string): (r: string)
    ensures Stripped(r)
    ensures |r| <= |s|
  {
    TrimEnd(TrimStart(s))
  }

  /** `strip()` leaves nothing exactly when the string is all whitespace. */
  lemma StripEmptyIff(s: string)
    ensures Strip(s) == "" <==> AllSpace(s)
  {
    var x := TrimStart(s);
    if Strip(s) == "" {
      assert AllSpace(x[0..]);
      assert s == s[..|s| - |x|] + x;
    }
    if AllSpace(s) {
      TrimStartAllSpace(s);
    }
  }

  /** `lstrip()` of all whitespace is empty. */
  lemma {:induction false} TrimStartAllSpace(s: string)
    requires AllSpace(s)
    ensures TrimStart(s) == ""
  {
    if s != [] {
      assert IsSpace(s[0]);
      TrimStartAllSpace(s[1..]);
    }
  }

  /** A string holding a non-space character is not all whitespace, whatever is
      added around it. */
  lemma NotAllSpaceConcat(a: string, b: string)
    requires !AllSpace(a) || !AllSpace(b)
    ensures !AllSpace(a + b)
  {
    if !AllSpace(a) {
      var k :| 0 <= k < |a| && !IsSpace(a[k]);
      assert (a + b)[k] == a[k];
    } else {
      var k :| 0 <= k < |b| && !IsSpace(b[k]);
      assert (a + b)[|a| + k] == b[k];
    }
  }

  /** A string with nothing to strip is its own strip. */
  lemma StripStripped(s: string)
    requires Stripped(s)
    ensures Strip(s) == s
  {
  }

  /** `strip()` is idempotent. */
  lemma StripIdempotent(s: string)
    ensures Strip(Strip(s)) == Strip(s)
  {
    StripStripped(Strip(s));
  }

  /** Stripping a string with nothing to strip, followed by whitespace, drops the whitespace. */
  lemma StripTrailingSpace(s: string, w: string)
    requires Stripped(s) && s != []
    requires AllSpace(w)
    ensures Strip(s + w) == s
  {
    assert TrimStart(s + w) == s + w by {
      assert (s + w)[0] == s[0];
    }
    TrimEndTrailing(s, w);
  }

  /** `rstrip()` drops whitespace after a character that is not whitespace. */
  lemma {:induction false} TrimEndTrailing(s: string, w: string)
    requires s != [] && !IsSpace(s[|s| - 1])
    requires AllSpace(w)
    ensures TrimEnd(s + w) == s
    decreases |w|
  {
    if w == [] {
      assert s + w == s;
    } else {
      var v := w[..|w| - 1];
      assert (s + w)[|s + w| - 1] == w[|w| - 1];
      assert (s + w)[..|s + w| - 1] == s + v;
      assert AllSpace(v) by {
        forall k | 0 <= k < |v|
          ensures IsSpace(v[k])
        {
          assert v[k] == w[k];
        }
      }
      TrimEndTrailing(s, v);
    }
  }

  /** Python's `s.split(sep)` for a one-character separator: never empty, and no
      piece contains the separator. */
  function Split(s: string, sep: char): (r: seq<string>)
    ensures |r| > 0
    ensures forall k :: 0 <= k < |r| ==> sep !in r[k]
  {
    if s == [] then [""]
    else
      var rest := Split(s[1..], sep);
      if s[0] == sep then [""] + rest
      else [[s[0]] + rest[0]] + rest[1..]
  }

  /** Python's `sep.join(parts)`. */
  function Join(parts: seq<string>, sep: string): string {
    if parts == [] then ""
    else if |parts| == 1 then parts[0]
    else parts[0] + sep + Join(parts[1..], sep)
  }

  /** Joining the pieces of a split with the separator gives the string back. */
  lemma {:induction false} JoinSplit(s: string, sep: char)
    ensures Join(Split(s, sep), [sep]) == s
  {
    if s != [] {
      var rest := Split(s[1..], sep);
      JoinSplit(s[1..], sep);
      if s[0] == sep {
        assert Split(s, sep)[1..] == rest;
      } else if |rest| > 1 {
        assert Split(s, sep)[1..] == rest[1..];
        assert Join(rest, [sep]) == rest[0] + [sep] + Join(rest[1..], [sep]);
      }
    }
  }

  /** A string free of the separator splits into itself alone. */
  lemma {:induction false} SplitWithoutSep(a: string, sep: char)
    requires sep !in a
    ensures Split(a, sep) == [a]
  {
    if a != [] {
      SplitWithoutSep(a[1..], sep);
      assert a[0] != sep;
      assert [a[0]] + a[1..] == a;
    }
  }

  /** Splitting at a separator that follows a separator-free piece. */
  lemma {:induction false} SplitAfterPiece(a: string, sep: char, b: string)
    requires sep !in a
    ensures Split(a + [sep] + b, sep) == [a] + Split(b, sep)
  {
    if a == [] {
      assert a + [sep] + b == [sep] + b;
      assert ([sep] + b)[1..] == b;
    } else {
      assert (a + [sep] + b)[1..] == a[1..] + [sep] + b;
      SplitAfterPiece(a[1..], sep, b);
      assert [a[0]] + a[1..] == a;
    }
  }

  /** Splitting a join of separator-free pieces gives the pieces back. */
  lemma {:induction false} SplitJoin(parts: seq<string>, sep: char)
    requires |parts| > 0
    requires forall k :: 0 <= k < |parts| ==> sep !in parts[k]
    ensures Split(Join(parts, [sep]), sep) == parts
  {
    if |parts| == 1 {
      SplitWithoutSep(parts[0], sep);
    } else {
      SplitJoin(parts[1..], sep);
      SplitAfterPiece(parts[0], sep, Join(parts[1..], [sep]));
    }
  }

  /** Splitting at a separator between two strings splits each of them. */
  lemma {:induction false} SplitConcat(a: string, sep: char, b: string)
    ensures Split(a + [sep] + b, sep) == Split(a, sep) + Split(b, sep)
  {
    if a == [] {
      assert a + [sep] + b == [sep] + b;
      assert ([sep] + b)[1..] == b;
    } else {
      assert (a + [sep] + b)[1..] == a[1..] + [sep] + b;
      SplitConcat(a[1..], sep, b);
    }
  }

  /** The first piece of a split starts with any separator-free prefix of the string. */
  lemma {:induction false} SplitHead(s: string, sep: char, p: string)
    requires StartsWith(s, p) && sep !in p
    ensures StartsWith(Split(s, sep)[0], p)
  {
    if p != [] {
      assert s[1..][..|p| - 1] == p[1..];
      SplitHead(s[1..], sep, p[1..]);
      assert p == [p[0]] + p[1..];
    }
  }

  /** Python's `s.splitlines()` with "\n" as the only line break: an empty string
      has no lines and a final line break does not start another line. */
  function SplitLines(s: string): (r: seq<string>)
    ensures forall k :: 0 <= k < |r| ==> '\n' !in r[k]
    ensures s != [] ==> |r| > 0
  {
    if s == [] then []
    else
      var pieces := Split(s, '\n');
      if s[|s| - 1] == '\n' then
        assert pieces[..|pieces| - 1] != [] by { LastPieceEmpty(s); }
        pieces[..|pieces| - 1]
      else pieces
  }

  /** The last piece of a split is what follows the last separator; it is empty
      exactly when the string ends with the separator, and it is the only piece when
      there is no separator. */
  lemma {:induction false} LastPieceEmpty(s: string)
    requires s != [] && s[|s| - 1] == '\n'
    ensures |Split(s, '\n')| >= 2 && Split(s, '\n')[|Split(s, '\n')| - 1] == ""
  {
    if |s| == 1 {
      assert Split(s[1..], '\n') == [""];
    } else {
      LastPieceEmpty(s[1..]);
    }
  }

  /** A decimal digit character. */
  function DigitChar(d: nat): char
    requires d < 10
  {
    "0123456789"[d]
  }

  /** Python's `str(n)` for a natural number. */
  function Decimal(n: nat): (r: string)
    ensures |r| > 0
    ensures forall k :: 0 <= k < |r| ==> '0' <= r[k] <= '9'
  {
    if n < 10 then [DigitChar(n)] else Decimal(n / 10) + [DigitChar(n % 10)]
  }

  /** Python's `a < b` on strings: lexicographic by code point. */
  predicate StrLt(a: string, b: string) {
    if a == [] then b != []
    else if b == [] then false
    else if a[0] != b[0] then a[0] < b[0]
    else StrLt(a[1..], b[1..])
  }

  /** Python's string order is total: of two different strings one is smaller. */
  lemma {:induction false} StrLtTotal(a: string, b: string)
    ensures a == b || StrLt(a, b) || StrLt(b, a)
  {
    if a != [] && b != [] && a[0] == b[0] {
      StrLtTotal(a[1..], b[1..]);
      assert a == [a[0]] + a[1..] && b == [b[0]] + b[1..];
    }
  }
}
