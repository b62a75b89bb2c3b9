/**
 * The Python string operations the application relies on, on `seq<char>`:
 * `sep.join(parts)`, `s.split(sep)`, `s.strip()`, `s.replace('. ', '.<br>')`
 * and `str(n)` for a natural number.
 */
module Strings {

  /** `pat` occurs in `s` starting at index `i`. */
  predicate OccursAt(s: string, pat: string, i: int)
  {
    0 <= i && i + |pat| <= |s| && s[i..i + |pat|] == pat
  }

  /** Python's `pat in s`. */
  predicate Contains(s: string, pat: string)
  {
    exists i :: 0 <= i <= |s| - |pat| && OccursAt(s, pat, i)
  }

  /** An occurrence spells out `pat` character by character. */
  lemma OccurrenceChars(s: string, pat: string, i: int)
    requires OccursAt(s, pat, i)
    ensures forall k :: 0 <= k < |pat| ==> s[i + k] == pat[k]
  {
    forall k | 0 <= k < |pat| ensures s[i + k] == pat[k] {
      assert s[i..i + |pat|][k] == s[i + k];
    }
  }

  /** An occurrence past a prefix `x` is an occurrence in what follows `x`. */
  lemma OccursInTail(x: string, rest: string, pat: string, i: int)
    requires OccursAt(x + rest, pat, i) && i >= |x|
    ensures OccursAt(rest, pat, i - |x|)
  {
    assert (x + rest)[i..i + |pat|] == rest[i - |x|..i - |x| + |pat|];
  }

  /** An occurrence in a tail of `s` is an occurrence in `s`. */
  lemma OccursInWhole(s: string, d: nat, pat: string, i: int)
    requires d <= |s| && OccursAt(s[d..], pat, i)
    ensures OccursAt(s, pat, i + d)
  {
    assert s[i + d..i + d + |pat|] == s[d..][i..i + |pat|];
  }

  // ---------------------------------------------------------------- join

  /** Python's `sep.join(parts)`: the parts in order, `sep` between neighbours. */
  function Join(parts: seq<string>, sep: string): string
    decreases |parts|
  {
    if |parts| == 0 then ""
    else if |parts| == 1 then parts[0]
    else parts[0] + sep + Join(parts[1..], sep)
  }

  function TotalLength(parts: seq<string>): nat
  {
    if |parts| == 0 then 0 else |parts[0]| + TotalLength(parts[1..])
  }

  /** A join is as long as its parts plus one separator between each neighbouring pair. */
  lemma {:induction false} JoinLength(parts: seq<string>, sep: string)
    requires |parts| >= 1
    ensures |Join(parts, sep)| == TotalLength(parts) + (|parts| - 1) * |sep|
    decreases |parts|
  {
    if |parts| > 1 {
      JoinLength(parts[1..], sep);
    }
  }

  // ---------------------------------------------------------------- split

  /**
   * Python's `s.split(sep)` for a non-empty separator: the pieces between the
   * occurrences of `sep` found from left to right without overlap.
   */
  function Split(s: string, sep: string): (parts: seq<string>)
    requires |sep| > 0
    ensures |parts| >= 1
    decreases |s|
  {
    if |s| < |sep| then [s]
    else if s[..|sep|] == sep then [""] + Split(s[|sep|..], sep)
    else
      var rest := Split(s[1..], sep);
      [[s[0]] + rest[0]] + rest[1..]
  }

  /** Python's `s.count(sep)`: occurrences found from left to right without overlap. */
  function Occurrences(s: string, sep: string): nat
    requires |sep| > 0
    decreases |s|
  {
    if |s| < |sep| then 0
    else if s[..|sep|] == sep then 1 + Occurrences(s[|sep|..], sep)
    else Occurrences(s[1..], sep)
  }

  /** Splitting yields one more piece than there are separators. */
  lemma {:induction false} SplitCount(s: string, sep: string)
    requires |sep| > 0
    ensures |Split(s, sep)| == Occurrences(s, sep) + 1
    decreases |s|
  {
    if |s| < |sep| {
    } else if s[..|sep|] == sep {
      SplitCount(s[|sep|..], sep);
    } else {
      SplitCount(s[1..], sep);
    }
  }

  /** A string with no separator in it splits into itself alone. */
  lemma {:induction false} SplitAbsent(s: string, sep: string)
    requires |sep| > 0 && !Contains(s, sep)
    ensures Split(s, sep) == [s]
    decreases |s|
  {
    if |s| < |sep| {
    } else {
      assert !OccursAt(s, sep, 0);
      assert !Contains(s[1..], sep) by {
        forall i | OccursAt(s[1..], sep, i) ensures OccursAt(s, sep, i + 1) {
          assert s[i + 1..i + 1 + |sep|] == s[1..][i..i + |sep|];
        }
      }
      SplitAbsent(s[1..], sep);
      assert [s[0]] + s[1..] == s;
    }
  }

  /** Joining the pieces back with the separator restores the string. */
  lemma {:induction false} JoinSplit(s: string, sep: string)
    requires |sep| > 0
    ensures Join(Split(s, sep), sep) == s
    decreases |s|
  {
    if |s| < |sep| {
    } else if s[..|sep|] == sep {
      var rest := Split(s[|sep|..], sep);
      JoinSplit(s[|sep|..], sep);
      assert ([""] + rest)[1..] == rest;
      assert s == s[..|sep|] + s[|sep|..];
    } else {
      JoinSplit(s[1..], sep);
      JoinGrowFirst(s[0], Split(s[1..], sep), sep);
      assert [s[0]] + s[1..] == s;
    }
  }

  /** Prepending a character to the first part prepends it to the join. */
  lemma JoinGrowFirst(ch: char, parts: seq<string>, sep: string)
    requires |parts| >= 1
    ensures Join([[ch] + parts[0]] + parts[1..], sep) == [ch] + Join(parts, sep)
  {
    var grown := [[ch] + parts[0]] + parts[1..];
    assert grown[1..] == parts[1..];
    if |parts| > 1 {
      assert Join(grown, sep) == ([ch] + parts[0]) + sep + Join(parts[1..], sep);
    }
  }

  /** The first piece is a prefix of the string. */
  lemma {:induction false} SplitFirstIsPrefix(s: string, sep: string)
    requires |sep| > 0
    ensures |Split(s, sep)[0]| <= |s| && Split(s, sep)[0] == s[..|Split(s, sep)[0]|]
    decreases |s|
  {
    if |s| < |sep| {
      assert Split(s, sep) == [s];
    } else if s[..|sep|] == sep {
      assert Split(s, sep)[0] == "";
    } else {
      var rest := Split(s[1..], sep);
      SplitFirstIsPrefix(s[1..], sep);
      var first := [s[0]] + rest[0];
      assert Split(s, sep) == [first] + rest[1..];
      assert s[..|first|] == [s[0]] + s[1..][..|rest[0]|];
    }
  }

  /** No piece contains the separator. */
  lemma {:induction false} SplitPiecesFree(s: string, sep: string)
    requires |sep| > 0
    ensures forall k :: 0 <= k < |Split(s, sep)| ==> !Contains(Split(s, sep)[k], sep)
    decreases |s|
  {
    var parts := Split(s, sep);
    if |s| < |sep| {
      assert parts == [s];
      forall i | OccursAt(s, sep, i) ensures false { }
    } else if s[..|sep|] == sep {
      SplitPiecesFree(s[|sep|..], sep);
      var rest := Split(s[|sep|..], sep);
      assert parts == [""] + rest;
      forall k | 0 <= k < |parts| ensures !Contains(parts[k], sep) {
        if k == 0 {
          forall i | OccursAt(parts[0], sep, i) ensures false { }
        } else {
          assert parts[k] == rest[k - 1];
        }
      }
    } else {
      SplitPiecesFree(s[1..], sep);
      SplitFirstIsPrefix(s[1..], sep);
      var rest := Split(s[1..], sep);
      var first := [s[0]] + rest[0];
      assert parts == [first] + rest[1..];
      assert first == s[..|first|];
      forall k | 0 <= k < |parts| ensures !Contains(parts[k], sep) {
        if k == 0 {
          forall i | OccursAt(first, sep, i) && i > 0 ensures OccursAt(rest[0], sep, i - 1) {
            OccursInTail([s[0]], rest[0], sep, i);
          }
        } else {
          assert parts[k] == rest[k];
        }
      }
    }
  }

  /**
   * No proper prefix of `sep` is also a suffix of it, so two occurrences of
   * `sep` can never overlap (`"Note Card "` and every one-character separator
   * are like this).
   */
  predicate BorderFree(sep: string)
  {
    forall k :: 0 < k < |sep| ==> sep[..k] != sep[|sep| - k..]
  }

  /** A text without the character `sep[0]` holds no occurrence of `sep`. */
  lemma AbsentWithoutFirstChar(s: string, sep: string)
    requires |sep| > 0 && sep[0] !in s
    ensures !Contains(s, sep)
  {
    forall i | 0 <= i <= |s| - |sep| ensures !OccursAt(s, sep, i) {
      assert s[i] in s;
      assert s[i] != sep[0];
    }
  }

  /** With a border-free separator, an occurrence cannot start inside a piece free of it. */
  lemma NoStraddle(p: string, sep: string, rest: string)
    requires |sep| > 0 && BorderFree(sep) && !Contains(p, sep) && |p| > 0
    ensures (p + sep + rest)[..|sep|] != sep
  {
    var s := p + sep + rest;
    if |p| >= |sep| {
      assert s[..|sep|] == p[..|sep|];
      assert !OccursAt(p, sep, 0);
    } else {
      var k := |sep| - |p|;
      assert s[..|sep|] == p + sep[..k];
      assert (p + sep[..k])[|p|..] == sep[..k];
      assert sep[|p|..] != sep[..k] by { assert |sep| - k == |p|; }
    }
  }

  /** A piece without the (border-free) separator in it is split off whole. */
  lemma {:induction false} SplitAfterPiece(p: string, sep: string, rest: string)
    requires |sep| > 0 && BorderFree(sep) && !Contains(p, sep)
    ensures Split(p + sep + rest, sep) == [p] + Split(rest, sep)
    decreases |p|
  {
    var s := p + sep + rest;
    if |p| == 0 {
      assert s[..|sep|] == sep;
      assert s[|sep|..] == rest;
    } else {
      NoStraddle(p, sep, rest);
      AbsentFromSuffix(p, 1, sep);
      assert s[1..] == p[1..] + sep + rest;
      SplitAfterPiece(p[1..], sep, rest);
      assert [p[0]] + p[1..] == p;
    }
  }

  /**
   * Splitting undoes joining a non-empty list of parts with the same
   * border-free separator, provided no part contains the separator: the parts
   * come back in their order.
   */
  lemma {:induction false} SplitJoin(parts: seq<string>, sep: string)
    requires |parts| >= 1 && |sep| > 0 && BorderFree(sep)
    requires forall k :: 0 <= k < |parts| ==> !Contains(parts[k], sep)
    ensures Split(Join(parts, sep), sep) == parts
    decreases |parts|
  {
    if |parts| == 1 {
      SplitAbsent(parts[0], sep);
    } else {
      SplitJoin(parts[1..], sep);
      SplitAfterPiece(parts[0], sep, Join(parts[1..], sep));
      assert [parts[0]] + parts[1..] == parts;
    }
  }

  // ---------------------------------------------------------------- strip

  /**
   * The characters Python's `str.strip()` removes: those for which
   * `str.isspace()` holds.
   */
  predicate IsSpace(ch: char)
  {
    ('\U{9}' <= ch <= '\U{D}') || ('\U{1C}' <= ch <= '\U{20}') ||
    ch == '\U{85}' || ch == '\U{A0}' || ch == '\U{1680}' ||
    ('\U{2000}' <= ch <= '\U{200A}') || ch == '\U{2028}' || ch == '\U{2029}' ||
    ch == '\U{202F}' || ch == '\U{205F}' || ch == '\U{3000}'
  }

  predicate AllSpace(s: string)
  {
    forall k :: 0 <= k < |s| ==> IsSpace(s[k])
  }

  /** `s` with its leading whitespace removed. */
  function TrimStart(s: string): string
    decreases |s|
  {
    if |s| > 0 && IsSpace(s[0]) then TrimStart(s[1..]) else s
  }

  /** Trimming the start removes a prefix of whitespace and leaves a text not starting with whitespace. */
  lemma {:induction false} TrimStartFacts(s: string)
    ensures var r := TrimStart(s);
      |r| <= |s| && r == s[|s| - |r|..] && AllSpace(s[..|s| - |r|]) && (|r| > 0 ==> !IsSpace(r[0]))
    decreases |s|
  {
    if |s| > 0 && IsSpace(s[0]) {
      TrimStartFacts(s[1..]);
      var r := TrimStart(s);
      assert s[1..][|s| - 1 - |r|..] == s[|s| - |r|..];
      forall k | 0 <= k < |s| - |r| ensures IsSpace(s[k]) {
        if k > 0 { assert s[k] == s[1..][..|s| - 1 - |r|][k - 1]; }
      }
    }
  }

  /** `s` with its trailing whitespace removed. */
  function TrimEnd(s: string): string
    decreases |s|
  {
    if |s| > 0 && IsSpace(s[|s| - 1]) then TrimEnd(s[..|s| - 1]) else s
  }

  /** Trimming the end removes a suffix of whitespace and leaves a text not ending with whitespace. */
  lemma {:induction false} TrimEndFacts(s: string)
    ensures var r := TrimEnd(s);
      |r| <= |s| && r == s[..|r|] && AllSpace(s[|r|..]) && (|r| > 0 ==> !IsSpace(r[|r| - 1]))
    decreases |s|
  {
    if |s| > 0 && IsSpace(s[|s| - 1]) {
      var init := s[..|s| - 1];
      TrimEndFacts(init);
      var r := TrimEnd(s);
      assert init[..|r|] == s[..|r|];
      forall k | |r| <= k < |s| ensures IsSpace(s[k]) {
        if k < |s| - 1 { assert s[k] == init[|r|..][k - |r|]; }
      }
    }
  }

  /** `r` is what is left of `s` once `s[..i]` and the tail after `r` are cut off, both all whitespace. */
  predicate StrippedAt(s: string, r: string, i: int)
  {
    0 <= i && i + |r| <= |s| && s[i..i + |r|] == r &&
    AllSpace(s[..i]) && AllSpace(s[i + |r|..])
  }

  /** Python's `s.strip()`. */
  function Strip(s: string): string
  {
    TrimEnd(TrimStart(s))
  }

  /**
   * The result of stripping is the infix of `s` between its leading and its
   * trailing whitespace; it neither begins nor ends with whitespace, and it is
   * empty exactly when `s` is all whitespace.
   */
  lemma StripFacts(s: string)
    ensures exists i :: StrippedAt(s, Strip(s), i)
    ensures |Strip(s)| > 0 ==> !IsSpace(Strip(s)[0]) && !IsSpace(Strip(s)[|Strip(s)| - 1])
    ensures Strip(s) == "" <==> AllSpace(s)
  {
    var t := TrimStart(s);
    var r := TrimEnd(t);
    TrimStartFacts(s);
    TrimEndFacts(t);
    StripWitness(s, t, r);
    assert StrippedAt(s, Strip(s), |s| - |t|);
    if |r| > 0 {
      assert r[0] == t[0];
    }
  }

  lemma StripWitness(s: string, t: string, r: string)
    requires |t| <= |s| && t == s[|s| - |t|..] && AllSpace(s[..|s| - |t|])
    requires |r| <= |t| && r == t[..|r|] && AllSpace(t[|r|..])
    requires |r| > 0 ==> !IsSpace(r[0])
    ensures StrippedAt(s, r, |s| - |t|)
    ensures r == "" <==> AllSpace(s)
  {
    var i := |s| - |t|;
    assert s[i..i + |r|] == r;
    assert s[i + |r|..] == t[|r|..];
    if r == "" {
      assert t[|r|..] == t;
      AllSpaceConcat(s[..i], t);
      assert s[..i] + t == s;
    } else {
      assert s[i] == r[0];
    }
  }

  lemma AllSpaceConcat(a: string, b: string)
    requires AllSpace(a) && AllSpace(b)
    ensures AllSpace(a + b)
  {
    forall k | 0 <= k < |a + b| ensures IsSpace((a + b)[k]) {
      if k < |a| { assert (a + b)[k] == a[k]; } else { assert (a + b)[k] == b[k - |a|]; }
    }
  }

  /** Stripping twice is stripping once. */
  lemma StripIdempotent(s: string)
    ensures Strip(Strip(s)) == Strip(s)
  {
    StripFacts(s);
    var r := Strip(s);
    if |r| > 0 {
      assert TrimStart(r) == r;
      assert TrimEnd(r) == r;
    }
  }

  // ---------------------------------------------------------------- replace

  /**
   * Python's `s.replace('. ', '.<br>')`: every full stop followed by a space, found
   * from left to right, becomes a full stop followed by a line-break tag. The
   * first character is kept, and no `". "` is left.
   */
  function BreakSentences(s: string): (r: string)
    ensures |s| == 0 <==> |r| == 0
    ensures |s| > 0 ==> r[0] == s[0]
    ensures !Contains(r, ". ")
    decreases |s|
  {
    if |s| == 0 then ""
    else if |s| >= 2 && s[0] == '.' && s[1] == ' ' then
      var rest := BreakSentences(s[2..]);
      var r := ".<br>" + rest;
      assert r[1] == '<' && r[2] == 'b' && r[3] == 'r' && r[4] == '>';
      forall i | OccursAt(r, ". ", i) ensures i >= 5 && OccursAt(rest, ". ", i - 5) {
        OccurrenceChars(r, ". ", i);
        assert i != 0 && i != 1 && i != 2 && i != 3 && i != 4;
        OccursInTail(".<br>", rest, ". ", i);
      }
      r
    else
      var rest := BreakSentences(s[1..]);
      var r := [s[0]] + rest;
      assert |rest| > 0 ==> rest[0] == s[1];
      forall i | OccursAt(r, ". ", i) ensures i >= 1 && OccursAt(rest, ". ", i - 1) {
        OccurrenceChars(r, ". ", i);
        assert |r| >= 2 ==> r[0] == s[0] && r[1] == rest[0];
        assert i != 0;
        OccursInTail([s[0]], rest, ". ", i);
      }
      r
  }

  /** Turns every `".<br>"` back into `". "`: the inverse of `BreakSentences`. */
  function JoinSentences(t: string): string
    decreases |t|
  {
    if |t| == 0 then ""
    else if |t| >= 5 && t[..5] == ".<br>" then ". " + JoinSentences(t[5..])
    else [t[0]] + JoinSentences(t[1..])
  }

  /** A prefix without a full stop in the result was already in the input. */
  lemma {:induction false} BreakSentencesKeepsPrefix(t: string, p: string)
    requires '.' !in p
    requires |p| <= |BreakSentences(t)| && BreakSentences(t)[..|p|] == p
    ensures |p| <= |t| && t[..|p|] == p
    decreases |p|
  {
    if |p| > 0 {
      var b := BreakSentences(t);
      assert b[0] == p[0];
      assert t[0] != '.';
      assert b == [t[0]] + BreakSentences(t[1..]);
      assert BreakSentences(t[1..])[..|p| - 1] == b[1..|p|] == p[1..];
      BreakSentencesKeepsPrefix(t[1..], p[1..]);
      assert t[..|p|] == [t[0]] + t[1..][..|p| - 1];
    }
  }

  /** Where no `". "` starts the text, a `".<br>"` can start its replacement only if it started the text. */
  lemma TagComesFromInput(s: string)
    requires |s| >= 1 && !(|s| >= 2 && s[0] == '.' && s[1] == ' ')
    ensures var b := BreakSentences(s);
      |b| >= 5 && b[..5] == ".<br>" ==> OccursAt(s, ".<br>", 0)
  {
    var b := BreakSentences(s);
    var rest := BreakSentences(s[1..]);
    assert b == [s[0]] + rest;
    if |b| >= 5 && b[..5] == ".<br>" {
      assert rest[..4] == b[1..5];
      BreakSentencesKeepsPrefix(s[1..], "<br>");
      assert s[..5] == [s[0]] + s[1..][..4];
    }
  }

  /** A text free of `pat` has every suffix free of it. */
  lemma AbsentFromSuffix(s: string, d: nat, pat: string)
    requires d <= |s| && !Contains(s, pat)
    ensures !Contains(s[d..], pat)
  {
    forall i | 0 <= i <= |s[d..]| - |pat| && OccursAt(s[d..], pat, i) ensures OccursAt(s, pat, i + d) {
      OccursInWhole(s, d, pat, i);
    }
  }

  /** A leading tag turns back into a leading `". "`. */
  lemma JoinSentencesTag(rest: string)
    ensures JoinSentences(".<br>" + rest) == ". " + JoinSentences(rest)
  {
    var t := ".<br>" + rest;
    assert t[..5] == ".<br>" && t[5..] == rest;
  }

  /** A leading character that does not start a tag is kept. */
  lemma JoinSentencesPlain(c: char, rest: string)
    requires !(|[c] + rest| >= 5 && ([c] + rest)[..5] == ".<br>")
    ensures JoinSentences([c] + rest) == [c] + JoinSentences(rest)
  {
    assert ([c] + rest)[1..] == rest;
  }

  /**
   * Replacing `". "` by `".<br>"` loses nothing when the text held no `".<br>"`
   * of its own: turning the tags back recovers it.
   */
  lemma {:induction false} BreakSentencesRoundTrip(s: string)
    requires !Contains(s, ".<br>")
    ensures JoinSentences(BreakSentences(s)) == s
    decreases |s|
  {
    if |s| == 0 {
    } else if |s| >= 2 && s[0] == '.' && s[1] == ' ' {
      AbsentFromSuffix(s, 2, ".<br>");
      BreakSentencesRoundTrip(s[2..]);
      JoinSentencesTag(BreakSentences(s[2..]));
      assert s == ". " + s[2..];
    } else {
      AbsentFromSuffix(s, 1, ".<br>");
      BreakSentencesRoundTrip(s[1..]);
      TagComesFromInput(s);
      assert !OccursAt(s, ".<br>", 0);
      assert BreakSentences(s) == [s[0]] + BreakSentences(s[1..]);
      JoinSentencesPlain(s[0], BreakSentences(s[1..]));
      assert s == [s[0]] + s[1..];
    }
  }

  // ---------------------------------------------------------------- numbers

  predicate IsDigit(ch: char)
  {
    '0' <= ch <= '9'
  }

  function DigitChar(d: nat): (ch: char)
    requires d < 10
    ensures IsDigit(ch)
  {
    ('0' as int + d) as char
  }

  /** Python's `str(n)` for a natural number: its decimal digits, most significant first. */
  function NatToString(n: nat): (r: string)
    ensures |r| >= 1
    ensures forall k :: 0 <= k < |r| ==> IsDigit(r[k])
    ensures |r| == 1 || r[0] != '0'
    ensures n > 0 ==> r[0] != '0'
    decreases n
  {
    if n < 10 then [DigitChar(n)] else NatToString(n / 10) + [DigitChar(n % 10)]
  }

  /** The value of a string of decimal digits. */
  function DecimalValue(s: string): int
    requires forall k :: 0 <= k < |s| ==> IsDigit(s[k])
    decreases |s|
  {
    if |s| == 0 then 0
    else DecimalValue(s[..|s| - 1]) * 10 + ((s[|s| - 1] as int) - ('0' as int))
  }

  /** Reading the decimal rendering of `n` back yields `n`. */
  lemma {:induction false} NatToStringRoundTrip(n: nat)
    ensures DecimalValue(NatToString(n)) == n
    decreases n
  {
    var r := NatToString(n);
    if n >= 10 {
      NatToStringRoundTrip(n / 10);
      assert r[..|r| - 1] == NatToString(n / 10);
    }
  }
}
