/**
 * The few Python string operations the log analyser relies on, written out
 * over `string` (a sequence of Unicode scalar values): `str.strip()`,
 * `str.upper()` (ASCII letters only), `str.split(sep, maxsplit)` for a
 * one-character separator, and the code-point order `<` of Python strings.
 */
module Text {
  import opened Seqs

  /** Python's `str.isspace()` for one character: the characters `str.strip()` removes. */
  predicate IsSpace(c: char) {
    || ('\t' <= c <= '\r')            // tab, line feed, vertical tab, form feed, carriage return
    || ('\U{1C}' <= c <= '\U{1F}')    // file, group, record and unit separators
    || c == ' '
    || c == '\U{85}' || c == '\U{A0}' || c == '\U{1680}'
    || ('\U{2000}' <= c <= '\U{200A}')
    || c == '\U{2028}' || c == '\U{2029}' || c == '\U{202F}' || c == '\U{205F}' || c == '\U{3000}'
  }

  /** Every character of `s` is whitespace (so `s.strip()` is empty). */
  predicate AllSpace(s: string) {
    forall i :: 0 <= i < |s| ==> IsSpace(s[i])
  }

  /** `s` neither starts nor ends with whitespace. */
  predicate IsStripped(s: string) {
    s == [] || (!IsSpace(s[0]) && !IsSpace(s[|s| - 1]))
  }

  /** `s.lstrip()` */
  function TrimStart(s: string): (r: string)
    ensures |r| <= |s| && r == s[|s| - |r|..]
    ensures AllSpace(s[..|s| - |r|])
    ensures r == [] || !IsSpace(r[0])
  {
    if s != [] && IsSpace(s[0]) then
      var r := TrimStart(s[1..]);
      assert s[..|s| - |r|] == [s[0]] + s[1..][..|s| - 1 - |r|];
      r
    else s
  }

  /** `s.rstrip()` */
  function TrimEnd(s: string): (r: string)
    ensures |r| <= |s| && r == s[..|r|]
    ensures AllSpace(s[|r|..])
    ensures r == [] || !IsSpace(r[|r| - 1])
  {
    if s != [] && IsSpace(s[|s| - 1]) then
      var r := TrimEnd(s[..|s| - 1]);
      assert s[|r|..] == s[..|s| - 1][|r|..] + [s[|s| - 1]];
      r
    else s
  }

  /** `s.strip()`: the result has no whitespace at either end. */
  function Strip(s: string): (r: string)
    ensures |r| <= |s| && IsStripped(r)
  {
    TrimEnd(TrimStart(s))
  }

  /** `s.strip()` removes whitespace and nothing else: `s` is the result with whitespace around it. */
  lemma StripInfix(s: string)
    ensures exists pre, post :: s == pre + Strip(s) + post && AllSpace(pre) && AllSpace(post)
  {
    var pre, post := StripPieces(s);
  }

  /** The whitespace `s.strip()` removes at the front and at the back. */
  lemma StripPieces(s: string) returns (pre: string, post: string)
    ensures s == pre + Strip(s) + post && AllSpace(pre) && AllSpace(post)
  {
    var t := TrimStart(s);
    var r := TrimEnd(t);
    pre, post := s[..|s| - |t|], t[|r|..];
    TakeDrop(s, |s| - |t|);
    TakeDrop(t, |r|);
    AppendAssoc(pre, r, post);
  }

  /** A line is blank exactly when it strips to the empty string. */
  lemma StripEmpty(s: string)
    ensures Strip(s) == [] <==> AllSpace(s)
  {
    var t := TrimStart(s);
    if Strip(s) == [] {
      assert AllSpace(t);
    }
  }

  /** Stripping a string that has no surrounding whitespace changes nothing. */
  lemma StripStripped(s: string)
    requires IsStripped(s)
    ensures Strip(s) == s
  {
  }

  /** `str.strip()` is idempotent. */
  lemma StripIdempotent(s: string)
    ensures Strip(Strip(s)) == Strip(s)
  {
    StripStripped(Strip(s));
  }

  /** Python's `str.upper()` on one character, for ASCII letters. */
  function UpperChar(c: char): char {
    if 'a' <= c <= 'z' then (c as int - 32) as char else c
  }

  /** `s.upper()`, mapping the ASCII letters only. */
  function Upper(s: string): string {
    seq(|s|, i requires 0 <= i < |s| => UpperChar(s[i]))
  }

  /** The number of occurrences of `c` in `s`. */
  function Occurrences(s: string, c: char): nat {
    if s == [] then 0 else (if s[0] == c then 1 else 0) + Occurrences(s[1..], c)
  }

  lemma {:induction false} OccurrencesAppend(a: string, b: string, c: char)
    ensures Occurrences(a + b, c) == Occurrences(a, c) + Occurrences(b, c)
  {
    if a == [] {
      assert a + b == b;
    } else {
      assert (a + b)[0] == a[0] && (a + b)[1..] == a[1..] + b;
      OccurrencesAppend(a[1..], b, c);
    }
  }

  lemma {:induction false} OccurrencesAbsent(s: string, c: char)
    requires c !in s
    ensures Occurrences(s, c) == 0
  {
    if s != [] {
      OccurrencesAbsent(s[1..], c);
    }
  }

  /** The parts joined again by `sep` (`sep.join(parts)`). */
  function Join(parts: seq<string>, sep: char): string
    requires |parts| >= 1
  {
    if |parts| == 1 then parts[0] else parts[0] + [sep] + Join(parts[1..], sep)
  }

  /**
   * `s.split(sep, maxsplit)` for a one-character separator: the string cut at
   * its first `maxsplit` separators, left to right. Read character by
   * character: a separator while cuts remain starts a new part, any other
   * character joins the current one.
   */
  function Split(s: string, sep: char, maxsplit: nat): (parts: seq<string>)
    ensures |parts| >= 1
  {
    if s == [] then [[]]
    else if s[0] == sep && maxsplit > 0 then [[]] + Split(s[1..], sep, maxsplit - 1)
    else
      var parts := Split(s[1..], sep, maxsplit);
      [[s[0]] + parts[0]] + parts[1..]
  }

  /** There is one part more than the number of cuts: `maxsplit`, or fewer when `s` has fewer separators. */
  lemma {:induction false} SplitLength(s: string, sep: char, maxsplit: nat)
    ensures |Split(s, sep, maxsplit)| == (if Occurrences(s, sep) < maxsplit then Occurrences(s, sep) else maxsplit) + 1
  {
    if s != [] {
      if s[0] == sep && maxsplit > 0 {
        SplitLength(s[1..], sep, maxsplit - 1);
      } else {
        SplitLength(s[1..], sep, maxsplit);
      }
    }
  }

  /** Joining the parts with the separator gives back the string. */
  lemma {:induction false} SplitJoin(s: string, sep: char, maxsplit: nat)
    ensures Join(Split(s, sep, maxsplit), sep) == s
  {
    if s != [] {
      if s[0] == sep && maxsplit > 0 {
        var parts := Split(s[1..], sep, maxsplit - 1);
        SplitJoin(s[1..], sep, maxsplit - 1);
        assert ([[]] + parts)[1..] == parts;
        assert s == [sep] + s[1..];
      } else {
        var parts := Split(s[1..], sep, maxsplit);
        SplitJoin(s[1..], sep, maxsplit);
        var r := [[s[0]] + parts[0]] + parts[1..];
        if |parts| == 1 {
          assert s == [s[0]] + parts[0];
        } else {
          assert r[1..] == parts[1..];
          AppendAssoc([s[0]], parts[0], [sep] + Join(parts[1..], sep));
          assert s == [s[0]] + s[1..];
        }
      }
    }
  }

  /** Every part but the last is free of the separator. */
  lemma {:induction false} SplitPartsFree(s: string, sep: char, maxsplit: nat)
    ensures forall i :: 0 <= i < |Split(s, sep, maxsplit)| - 1 ==> sep !in Split(s, sep, maxsplit)[i]
  {
    if s != [] {
      if s[0] == sep && maxsplit > 0 {
        SplitPartsFree(s[1..], sep, maxsplit - 1);
      } else {
        SplitPartsFree(s[1..], sep, maxsplit);
        SplitLength(s[1..], sep, maxsplit);
      }
    }
  }

  /** Cutting at a separator that follows a separator-free word peels off that word. */
  lemma {:induction false} SplitAfterWord(word: string, sep: char, rest: string, maxsplit: nat)
    requires sep !in word && maxsplit > 0
    ensures Split(word + [sep] + rest, sep, maxsplit) == [word] + Split(rest, sep, maxsplit - 1)
  {
    var s := word + [sep] + rest;
    if word == [] {
      assert s == [sep] + rest;
    } else {
      assert s[1..] == word[1..] + [sep] + rest;
      SplitAfterWord(word[1..], sep, rest, maxsplit);
      assert [word[0]] + word[1..] == word;
    }
  }

  /** Three separator-free words and a remainder, joined by `sep`, split back into those four parts. */
  lemma SplitThreeWords(w1: string, w2: string, w3: string, rest: string, sep: char)
    requires sep !in w1 && sep !in w2 && sep !in w3
    ensures Split(w1 + [sep] + w2 + [sep] + w3 + [sep] + rest, sep, 3) == [w1, w2, w3, rest]
  {
    var tail2 := w3 + [sep] + rest;
    var tail1 := w2 + [sep] + tail2;
    assert Split(tail2, sep, 1) == [w3, rest] by {
      SplitAfterWord(w3, sep, rest, 1);
      SplitNoCut(rest, sep);
    }
    assert Split(tail1, sep, 2) == [w2, w3, rest] by {
      SplitAfterWord(w2, sep, tail2, 2);
    }
    var line := w1 + [sep] + w2 + [sep] + w3 + [sep] + rest;
    assert line == w1 + [sep] + tail1;
    calc {
      Split(line, sep, 3);
      { SplitAfterWord(w1, sep, tail1, 3); }
      [w1] + Split(tail1, sep, 2);
      [w1] + [w2, w3, rest];
    }
  }

  /** With no cuts allowed the string is its only part. */
  lemma {:induction false} SplitNoCut(s: string, sep: char)
    ensures Split(s, sep, 0) == [s]
  {
    if s != [] {
      SplitNoCut(s[1..], sep);
      assert [s[0]] + s[1..] == s;
    }
  }

  /**
   * Python's `<` on strings: the first differing code point decides, and a
   * proper prefix comes first.
   */
  predicate LexLess(a: string, b: string)
    decreases |a|
  {
    if a == [] then b != []
    else if b == [] then false
    else if a[0] != b[0] then a[0] < b[0]
    else LexLess(a[1..], b[1..])
  }

  lemma {:induction false} LexLessIrreflexive(a: string)
    ensures !LexLess(a, a)
  {
    if a != [] {
      LexLessIrreflexive(a[1..]);
    }
  }

  lemma {:induction false} LexLessAsymmetric(a: string, b: string)
    ensures !(LexLess(a, b) && LexLess(b, a))
    decreases |a|
  {
    if a != [] && b != [] && a[0] == b[0] {
      LexLessAsymmetric(a[1..], b[1..]);
    }
  }

  /** Any two different strings are ordered one way or the other. */
  lemma {:induction false} LexLessTotal(a: string, b: string)
    ensures a == b || LexLess(a, b) || LexLess(b, a)
    decreases |a|
  {
    if a != [] && b != [] && a[0] == b[0] {
      LexLessTotal(a[1..], b[1..]);
      assert a == [a[0]] + a[1..] && b == [b[0]] + b[1..];
    }
  }

  lemma {:induction false} LexLessTransitive(a: string, b: string, c: string)
    requires LexLess(a, b) && LexLess(b, c)
    ensures LexLess(a, c)
    decreases |a|
  {
    if a != [] && a[0] == b[0] && b[0] == c[0] {
      LexLessTransitive(a[1..], b[1..], c[1..]);
    }
  }
}
