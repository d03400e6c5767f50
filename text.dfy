/** The few Python `str` operations the mapping compiler and the helpers rely on. */
module Text {

  /** `s.startswith(prefix)` */
  predicate StartsWith(s: string, prefix: string) {
    |prefix| <= |s| && s[..|prefix|] == prefix
  }

  /** Prefixes compose. */
  lemma StartsWithTrans(a: string, b: string, c: string)
    requires StartsWith(a, b) && StartsWith(b, c)
    ensures StartsWith(a, c)
  {
    assert a[..|c|] == a[..|b|][..|c|];
  }

  /** `s.endswith(suffix)` */
  predicate EndsWith(s: string, suffix: string) {
    |suffix| <= |s| && s[|s| - |suffix|..] == suffix
  }

  /** `s.split(sep)` for a one-character separator: never empty, and no part holds `sep`. */
  function Split(s: string, sep: char): (parts: seq<string>)
    ensures |parts| >= 1
    ensures forall i :: 0 <= i < |parts| ==> sep !in parts[i]
  {
    if s == [] then [""]
    else
      var rest := Split(s[1..], sep);
      if s[0] == sep then [""] + rest
      else [[s[0]] + rest[0]] + rest[1..]
  }

  /** `sep.join(parts)` */
  function Join(parts: seq<string>, sep: char): string
  {
    if parts == [] then ""
    else if |parts| == 1 then parts[0]
    else parts[0] + [sep] + Join(parts[1..], sep)
  }

  /** The text after the first separator, with that separator; empty when `s` has none. */
  function Tail(parts: seq<string>, sep: char): string
    requires |parts| >= 1
  {
    if |parts| == 1 then "" else [sep] + Join(parts[1..], sep)
  }

  lemma JoinFirst(parts: seq<string>, sep: char)
    requires |parts| >= 1
    ensures Join(parts, sep) == parts[0] + Tail(parts, sep)
  {
  }

  /** Joining the parts of a split gives back the string. */
  lemma {:induction false} JoinSplit(s: string, sep: char)
    ensures Join(Split(s, sep), sep) == s
  {
    if s != [] {
      var rest := Split(s[1..], sep);
      JoinSplit(s[1..], sep);
      assert Join(rest, sep) == rest[0] + Tail(rest, sep) by {
        JoinFirst(rest, sep);
      }
      if s[0] == sep {
        var parts := [""] + rest;
        assert parts[1..] == rest;
        assert Join(parts, sep) == [sep] + Join(rest, sep);
      } else {
        var parts := [[s[0]] + rest[0]] + rest[1..];
        assert Join(parts, sep) == parts[0] + Tail(parts, sep) by {
          JoinFirst(parts, sep);
        }
        assert Tail(parts, sep) == Tail(rest, sep) by {
          assert parts[1..] == rest[1..];
        }
        assert s == [s[0]] + s[1..];
      }
    }
  }

  /** A separator-free prefix fuses with the first part of what follows it. */
  lemma {:induction false} SplitPrefix(a: string, b: string, sep: char)
    requires sep !in a
    ensures Split(a + b, sep) == [a + Split(b, sep)[0]] + Split(b, sep)[1..]
  {
    if a == [] {
      assert a + b == b;
      assert a + Split(b, sep)[0] == Split(b, sep)[0];
    } else {
      assert (a + b)[1..] == a[1..] + b;
      SplitPrefix(a[1..], b, sep);
      assert [a[0]] + (a[1..] + Split(b, sep)[0]) == a + Split(b, sep)[0];
    }
  }

  /** Splitting a join of separator-free parts gives back the parts. */
  lemma {:induction false} SplitJoin(parts: seq<string>, sep: char)
    requires |parts| >= 1
    requires forall i :: 0 <= i < |parts| ==> sep !in parts[i]
    ensures Split(Join(parts, sep), sep) == parts
  {
    if |parts| == 1 {
      SplitPrefix(parts[0], "", sep);
      assert parts[0] + "" == parts[0];
    } else {
      var j := Join(parts[1..], sep);
      SplitJoin(parts[1..], sep);
      assert Split([sep] + j, sep) == [""] + parts[1..] by {
        assert ([sep] + j)[1..] == j;
      }
      assert parts[0] + [sep] + j == parts[0] + ([sep] + j);
      SplitPrefix(parts[0], [sep] + j, sep);
      assert parts[0] + "" == parts[0];
    }
  }

  /** `s.split(sep)[-1]` */
  function LastSegment(s: string, sep: char): string
  {
    var parts := Split(s, sep);
    parts[|parts| - 1]
  }

  /** Joining two or more parts is joining all but the last, then the separator and the last. */
  lemma {:induction false} JoinSnoc(parts: seq<string>, sep: char)
    requires |parts| > 1
    ensures Join(parts, sep) == Join(parts[..|parts| - 1], sep) + [sep] + parts[|parts| - 1]
  {
    var n := |parts|;
    var rest := parts[1..];
    if n > 2 {
      JoinSnoc(rest, sep);
      assert parts[..n - 1][1..] == rest[..|rest| - 1];
      assert rest[|rest| - 1] == parts[n - 1];
      var init := Join(rest[..|rest| - 1], sep);
      assert parts[0] + [sep] + (init + [sep] + parts[n - 1]) == parts[0] + [sep] + init + [sep] + parts[n - 1];
    } else {
      assert parts[..n - 1] == [parts[0]];
      assert rest == [parts[1]];
    }
  }

  /** A join ends with its last part, preceded by the separator when there are several parts. */
  lemma JoinEndsWithLast(parts: seq<string>, sep: char)
    requires |parts| >= 1
    ensures EndsWith(Join(parts, sep), parts[|parts| - 1])
    ensures |parts| > 1 ==>
      var j := Join(parts, sep); var l := parts[|parts| - 1];
      |l| < |j| && j[|j| - |l| - 1] == sep
  {
    var l := parts[|parts| - 1];
    if |parts| > 1 {
      JoinSnoc(parts, sep);
      var p := Join(parts[..|parts| - 1], sep) + [sep];
      AppendSuffix(p, l, |l|);
      assert (p + l)[|p| - 1] == sep;
    } else {
      assert l[|l| - |l|..] == l;
    }
  }

  lemma AppendSuffix(a: string, b: string, n: nat)
    requires n <= |b|
    ensures (a + b)[|a| + |b| - n..] == b[|b| - n..]
  {
  }

  /** The last segment of a path holds no separator and is what follows the path's last separator. */
  lemma LastSegmentIsSuffix(s: string, sep: char)
    ensures var r := LastSegment(s, sep);
      sep !in r && EndsWith(s, r) && (|r| == |s| || s[|s| - |r| - 1] == sep)
  {
    var parts := Split(s, sep);
    JoinSplit(s, sep);
    JoinEndsWithLast(parts, sep);
    if |parts| == 1 {
      assert Join(parts, sep) == parts[0];
    }
  }

  /** Whether `pat` occurs in `s` (`pat in s` for strings). */
  predicate Contains(s: string, pat: string) {
    |pat| <= |s| && (s[..|pat|] == pat || (s != [] && Contains(s[1..], pat)))
  }

  /** `s.replace(pat, rep)`: every occurrence, left to right, without overlaps. */
  function ReplaceAll(s: string, pat: string, rep: string): string
    requires pat != []
    decreases |s|
  {
    if |s| < |pat| then s
    else if s[..|pat|] == pat then rep + ReplaceAll(s[|pat|..], pat, rep)
    else [s[0]] + ReplaceAll(s[1..], pat, rep)
  }

  /** An occurrence of `pat` starts at position `k` of `s`. */
  predicate MatchAt(s: string, pat: string, k: nat) {
    k + |pat| <= |s| && s[k..k + |pat|] == pat
  }

  /** No occurrence of `pat` starts before position `n` of `s`. */
  predicate NoMatchBefore(s: string, pat: string, n: nat) {
    forall k :: 0 <= k < n ==> !MatchAt(s, pat, k)
  }

  lemma MatchAtStart(s: string, pat: string)
    ensures MatchAt(s, pat, 0) <==> |pat| <= |s| && s[..|pat|] == pat
  {
    if |pat| <= |s| {
      assert s[0..|pat|] == s[..|pat|];
    }
  }

  lemma MatchAtTail(s: string, pat: string, k: nat)
    requires s != []
    ensures MatchAt(s[1..], pat, k) <==> MatchAt(s, pat, k + 1)
  {
    if k + 1 + |pat| <= |s| {
      assert s[1..][k..k + |pat|] == s[k + 1..k + 1 + |pat|];
    }
  }

  /** `replace` copies the text before the first occurrence unchanged. */
  lemma {:induction false} ReplaceAllSkips(s: string, pat: string, rep: string, n: nat)
    requires pat != [] && n <= |s| && NoMatchBefore(s, pat, n)
    ensures ReplaceAll(s, pat, rep) == s[..n] + ReplaceAll(s[n..], pat, rep)
    decreases n
  {
    if n == 0 {
      assert s[..0] + s[0..] == s;
    } else if |s| < |pat| {
      assert s[..n] + s[n..] == s;
    } else {
      MatchAtStart(s, pat);
      assert !MatchAt(s, pat, 0);
      var t := s[1..];
      assert ReplaceAll(s, pat, rep) == [s[0]] + ReplaceAll(t, pat, rep);
      forall k | 0 <= k < n - 1 ensures !MatchAt(t, pat, k) {
        MatchAtTail(s, pat, k);
      }
      ReplaceAllSkips(t, pat, rep, n - 1);
      assert t[n - 1..] == s[n..];
      assert [s[0]] + t[..n - 1] == s[..n];
    }
  }

  /** Without an occurrence, `replace` changes nothing. */
  lemma ReplaceAllNone(s: string, pat: string, rep: string)
    requires pat != [] && NoMatchBefore(s, pat, |s|)
    ensures ReplaceAll(s, pat, rep) == s
  {
    ReplaceAllSkips(s, pat, rep, |s|);
    assert s[..|s|] == s && s[|s|..] == [];
  }

  /**
   * `replace` works left to right without overlaps: the first occurrence is replaced and
   * the search goes on after it.
   */
  lemma ReplaceAllFirst(s: string, pat: string, rep: string, n: nat)
    requires pat != [] && MatchAt(s, pat, n) && NoMatchBefore(s, pat, n)
    ensures ReplaceAll(s, pat, rep) == s[..n] + rep + ReplaceAll(s[n + |pat|..], pat, rep)
  {
    ReplaceAllSkips(s, pat, rep, n);
    MatchAtDrop(s, pat, n);
    ReplaceAllAtMatch(s[n..], pat, rep);
    ConcatAssoc(s[..n], rep, ReplaceAll(s[n + |pat|..], pat, rep));
  }

  lemma ConcatAssoc(a: string, b: string, c: string)
    ensures a + (b + c) == a + b + c
  {
  }

  lemma MatchAtDrop(s: string, pat: string, n: nat)
    requires MatchAt(s, pat, n)
    ensures MatchAt(s[n..], pat, 0) && s[n..][|pat|..] == s[n + |pat|..]
  {
    assert s[n..][0..|pat|] == s[n..n + |pat|];
  }

  lemma ReplaceAllAtMatch(t: string, pat: string, rep: string)
    requires pat != [] && MatchAt(t, pat, 0)
    ensures ReplaceAll(t, pat, rep) == rep + ReplaceAll(t[|pat|..], pat, rep)
  {
    MatchAtStart(t, pat);
  }

  /** Index of the first `c` in `s`. */
  function IndexOf(s: string, c: char): (i: nat)
    requires c in s
    ensures i < |s| && s[i] == c && c !in s[..i]
  {
    if s[0] == c then 0 else 1 + IndexOf(s[1..], c)
  }

  /** The characters Python's `str.isspace` accepts. */
  predicate IsSpace(c: char) {
    || c == ' '
    || ('\t' <= c <= '\r')
    || ('\U{1C}' <= c <= '\U{1F}')
    || c == '\U{85}' || c == '\U{A0}' || c == '\U{1680}'
    || ('\U{2000}' <= c <= '\U{200A}')
    || c == '\U{2028}' || c == '\U{2029}' || c == '\U{202F}' || c == '\U{205F}' || c == '\U{3000}'
  }

  /** `s.lstrip()`: the suffix of `s` after its leading whitespace. */
  function TrimStart(s: string): string
  {
    if s != [] && IsSpace(s[0]) then TrimStart(s[1..]) else s
  }

  /** `s.rstrip()`: the prefix of `s` before its trailing whitespace. */
  function TrimEnd(s: string): string
  {
    if s != [] && IsSpace(s[|s| - 1]) then TrimEnd(s[..|s| - 1]) else s
  }

  /** `lstrip` removes exactly the leading whitespace. */
  lemma {:induction false} TrimStartSpec(s: string)
    ensures EndsWith(s, TrimStart(s))
    ensures TrimStart(s) == [] || !IsSpace(TrimStart(s)[0])
    ensures forall k :: 0 <= k < |s| - |TrimStart(s)| ==> IsSpace(s[k])
  {
    if s != [] && IsSpace(s[0]) {
      TrimStartSpec(s[1..]);
      forall k | 1 <= k < |s| - |TrimStart(s)| ensures IsSpace(s[k]) {
        assert s[k] == s[1..][k - 1];
      }
    }
  }

  /** `rstrip` removes exactly the trailing whitespace. */
  lemma {:induction false} TrimEndSpec(s: string)
    ensures StartsWith(s, TrimEnd(s))
    ensures TrimEnd(s) == [] || !IsSpace(TrimEnd(s)[|TrimEnd(s)| - 1])
    ensures forall k :: |TrimEnd(s)| <= k < |s| ==> IsSpace(s[k])
  {
    if s != [] && IsSpace(s[|s| - 1]) {
      TrimEndSpec(s[..|s| - 1]);
    }
  }

  /** `s.strip()` */
  function Strip(s: string): string
  {
    TrimEnd(TrimStart(s))
  }

  /** Stripping leaves no whitespace at either end. */
  lemma StripTrimmed(s: string)
    ensures Strip(s) == [] || (!IsSpace(Strip(s)[0]) && !IsSpace(Strip(s)[|Strip(s)| - 1]))
  {
    var t := TrimStart(s);
    TrimStartSpec(s);
    TrimEndSpec(t);
    assert TrimEnd(t) != [] ==> TrimEnd(t)[0] == t[0];
  }

  /** Stripping leaves nothing exactly when the string is all whitespace. */
  lemma StripBlank(s: string)
    ensures Strip(s) == [] <==> forall k :: 0 <= k < |s| ==> IsSpace(s[k])
  {
    var t := TrimStart(s);
    TrimStartSpec(s);
    TrimEndSpec(t);
    assert TrimEnd(t) != [] ==> TrimEnd(t)[0] == t[0];
  }

  /** ASCII `c.lower()`. */
  function LowerChar(c: char): char {
    if 'A' <= c <= 'Z' then (c as int + 32) as char else c
  }

  /** ASCII `c.upper()`. */
  function UpperChar(c: char): char {
    if 'a' <= c <= 'z' then (c as int - 32) as char else c
  }

  /** `s.lower()`, ASCII letters only. */
  function Lower(s: string): string {
    seq(|s|, i requires 0 <= i < |s| => LowerChar(s[i]))
  }

  /** `s.lower().startswith(w)` for a lower-case `w`, compared one character at a time. */
  predicate LowerStartsWith(s: string, w: string)
    decreases |w|
  {
    |w| == 0 || (|s| > 0 && LowerChar(s[0]) == w[0] && LowerStartsWith(s[1..], w[1..]))
  }

  /** The character-wise comparison is the prefix test on the lowered string. */
  lemma {:induction false} LowerStartsWithSpec(s: string, w: string)
    ensures LowerStartsWith(s, w) <==> StartsWith(Lower(s), w)
    decreases |w|
  {
    if |w| > 0 && |s| > 0 {
      LowerStartsWithSpec(s[1..], w[1..]);
      assert Lower(s)[1..] == Lower(s[1..]);
      if StartsWith(Lower(s), w) {
        assert Lower(s)[..|w|][0] == w[0];
        assert Lower(s[1..])[..|w| - 1] == Lower(s)[..|w|][1..];
      }
      if LowerStartsWith(s, w) {
        assert Lower(s)[..|w|] == [Lower(s)[0]] + Lower(s[1..])[..|w| - 1];
        assert w == [w[0]] + w[1..];
      }
    }
  }

  /** `s[0].upper() + s[1:]` */
  function Capitalize(s: string): (r: string)
    requires s != []
    ensures |r| == |s| && r[1..] == s[1..]
    ensures 'a' <= s[0] <= 'z' ==> 'A' <= r[0] <= 'Z' && LowerChar(r[0]) == s[0]
    ensures !('a' <= s[0] <= 'z') ==> r == s
  {
    [UpperChar(s[0])] + s[1..]
  }
}
