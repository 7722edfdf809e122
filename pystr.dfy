/**
 * The handful of Python string operations the ETL script relies on, with
 * Python's semantics: `sub in s`, `s.split(c)`, `s.strip()`,
 * `s.strip(chars)`, `s.replace(old, new)` (every non-overlapping occurrence,
 * scanned left to right) and pandas' whole-value `Series.replace(dict)`.
 */
module PyStr {

  /** The characters for which Python's `str.isspace` holds: what `str.strip()` removes. */
  const WHITESPACE: set<char> := {
    '\U{0009}', '\U{000A}', '\U{000B}', '\U{000C}', '\U{000D}', '\U{001C}', '\U{001D}', '\U{001E}',
    '\U{001F}', '\U{0020}', '\U{0085}', '\U{00A0}', '\U{1680}', '\U{2000}', '\U{2001}', '\U{2002}',
    '\U{2003}', '\U{2004}', '\U{2005}', '\U{2006}', '\U{2007}', '\U{2008}', '\U{2009}', '\U{200A}',
    '\U{2028}', '\U{2029}', '\U{202F}', '\U{205F}', '\U{3000}'
  }

  predicate StartsWith(s: string, prefix: string) {
    |prefix| <= |s| && s[..|prefix|] == prefix
  }

  /** Python's `sub in s`. */
  predicate Contains(s: string, sub: string)
    decreases |s|
  {
    StartsWith(s, sub) || (s != [] && Contains(s[1..], sub))
  }

  /** `Contains` finds exactly the positions where `sub` occurs. */
  lemma {:induction false} ContainsAt(s: string, sub: string, i: nat)
    requires i + |sub| <= |s|
    ensures s[i..i + |sub|] == sub ==> Contains(s, sub)
    decreases i
  {
    if i > 0 && s[i..i + |sub|] == sub {
      assert s[1..][i - 1..i - 1 + |sub|] == s[i..i + |sub|];
      ContainsAt(s[1..], sub, i - 1);
    }
  }

  lemma {:induction false} ContainsWitness(s: string, sub: string) returns (i: nat)
    requires Contains(s, sub)
    ensures i + |sub| <= |s| && s[i..i + |sub|] == sub
    decreases |s|
  {
    if StartsWith(s, sub) {
      i := 0;
    } else {
      var j := ContainsWitness(s[1..], sub);
      i := j + 1;
      assert s[1..][j..j + |sub|] == s[i..i + |sub|];
    }
  }

  /** `sub` occurs in `s` starting at position `i`. */
  predicate OccursAt(s: string, sub: string, i: nat)
  {
    i + |sub| <= |s| && s[i..i + |sub|] == sub
  }

  /** `sub` is not contained when it occurs at no position of `s`. */
  lemma {:induction false} NoWindowNoContains(s: string, sub: string)
    requires forall i: nat :: !OccursAt(s, sub, i)
    ensures !Contains(s, sub)
    decreases |s|
  {
    assert !OccursAt(s, sub, 0);
    if s != [] {
      forall i: nat
        ensures !OccursAt(s[1..], sub, i)
      {
        assert !OccursAt(s, sub, i + 1);
        if i + |sub| <= |s[1..]| {
          assert s[1..][i..i + |sub|] == s[i + 1..i + 1 + |sub|];
        }
      }
      NoWindowNoContains(s[1..], sub);
    }
  }

  /** Inverse of `Split`: the parts glued back with the separator. */
  function Join(parts: seq<string>, sep: char): string
  {
    if parts == [] then []
    else if |parts| == 1 then parts[0]
    else parts[0] + [sep] + Join(parts[1..], sep)
  }

  /** Python's `s.split(sep)` for a one-character separator: never empty, keeps empty parts. */
  function Split(s: string, sep: char): (parts: seq<string>)
    ensures |parts| >= 1
    decreases |s|
  {
    if s == [] then [[]]
    else
      var rest := Split(s[1..], sep);
      if s[0] == sep then [[]] + rest else [[s[0]] + rest[0]] + rest[1..]
  }

  /** The parts hold no separator and glue back, with it, into the string split. */
  lemma {:induction false} SplitSpec(s: string, sep: char)
    ensures forall i :: 0 <= i < |Split(s, sep)| ==> sep !in Split(s, sep)[i]
    ensures Join(Split(s, sep), sep) == s
    decreases |s|
  {
    if s != [] {
      var rest := Split(s[1..], sep);
      SplitSpec(s[1..], sep);
      if s[0] == sep {
        assert ([[]] + rest)[1..] == rest;
      } else {
        var parts := [[s[0]] + rest[0]] + rest[1..];
        assert parts[1..] == rest[1..];
        assert |rest| > 1 ==> Join(rest, sep) == rest[0] + [sep] + Join(rest[1..], sep);
        assert Join(parts, sep) == [s[0]] + Join(rest, sep);
      }
    }
  }

  lemma {:induction false} SplitNoSep(s: string, sep: char)
    requires sep !in s
    ensures Split(s, sep) == [s]
    decreases |s|
  {
    if s != [] {
      SplitNoSep(s[1..], sep);
      assert [s[0]] + s[1..] == s;
    }
  }

  lemma {:induction false} SplitAfterPart(p: string, sep: char, tail: string)
    requires sep !in p
    ensures Split(p + [sep] + tail, sep) == [p] + Split(tail, sep)
    decreases |p|
  {
    if p == [] {
      assert p + [sep] + tail == [sep] + tail;
      assert ([sep] + tail)[1..] == tail;
    } else {
      var s := p + [sep] + tail;
      assert s[1..] == p[1..] + [sep] + tail;
      SplitAfterPart(p[1..], sep, tail);
      assert [p[0]] + p[1..] == p;
    }
  }

  /** `Split` undoes `Join` when no part contains the separator. */
  lemma {:induction false} SplitJoin(parts: seq<string>, sep: char)
    requires |parts| >= 1
    requires forall i :: 0 <= i < |parts| ==> sep !in parts[i]
    ensures Split(Join(parts, sep), sep) == parts
    decreases |parts|
  {
    if |parts| == 1 {
      SplitNoSep(parts[0], sep);
    } else {
      SplitJoin(parts[1..], sep);
      SplitAfterPart(parts[0], sep, Join(parts[1..], sep));
      assert [parts[0]] + parts[1..] == parts;
    }
  }

  /** `s.split(sep)[0]` is the text before the first `sep`, or all of `s` when there is none. */
  lemma SplitHead(s: string, sep: char)
    ensures var h := Split(s, sep)[0];
      sep !in h && StartsWith(s, h) && (|h| == |s| || s[|h|] == sep)
  {
    var parts := Split(s, sep);
    SplitSpec(s, sep);
    if |parts| > 1 {
      assert s == parts[0] + [sep] + Join(parts[1..], sep);
      assert s[..|parts[0]|] == parts[0];
    }
  }

  /** Python's `s.lstrip(chars)`. */
  function LStrip(s: string, chars: set<char>): string
    decreases |s|
  {
    if s != [] && s[0] in chars then LStrip(s[1..], chars) else s
  }

  /** Python's `s.rstrip(chars)`. */
  function RStrip(s: string, chars: set<char>): string
    decreases |s|
  {
    if s != [] && s[|s| - 1] in chars then RStrip(s[..|s| - 1], chars) else s
  }

  /** `lstrip` removes a run of `chars` from the front and stops at the first other character. */
  lemma {:induction false} LStripSpec(s: string, chars: set<char>)
    ensures var r := LStrip(s, chars);
      |r| <= |s| && r == s[|s| - |r|..] && (r == [] || r[0] !in chars)
      && forall i :: 0 <= i < |s| - |r| ==> s[i] in chars
    decreases |s|
  {
    if s != [] && s[0] in chars {
      LStripSpec(s[1..], chars);
    }
  }

  /** `rstrip` removes a run of `chars` from the back and stops at the last other character. */
  lemma {:induction false} RStripSpec(s: string, chars: set<char>)
    ensures var r := RStrip(s, chars);
      |r| <= |s| && r == s[..|r|] && (r == [] || r[|r| - 1] !in chars)
      && forall i :: |r| <= i < |s| ==> s[i] in chars
    decreases |s|
  {
    if s != [] && s[|s| - 1] in chars {
      RStripSpec(s[..|s| - 1], chars);
    }
  }

  /** Python's `s.strip(chars)`: removes characters of `chars` from both ends, nothing inside. */
  function StripChars(s: string, chars: set<char>): string
  {
    RStrip(LStrip(s, chars), chars)
  }

  /** Python's `s.strip()`. */
  function Strip(s: string): string
  {
    StripChars(s, WHITESPACE)
  }

  lemma {:induction false} LStripExact(lead: string, rest: string, chars: set<char>)
    requires forall i :: 0 <= i < |lead| ==> lead[i] in chars
    requires rest == [] || rest[0] !in chars
    ensures LStrip(lead + rest, chars) == rest
    decreases |lead|
  {
    if lead == [] {
      assert lead + rest == rest;
    } else {
      assert (lead + rest)[1..] == lead[1..] + rest;
      LStripExact(lead[1..], rest, chars);
    }
  }

  lemma {:induction false} RStripExact(rest: string, trail: string, chars: set<char>)
    requires forall i :: 0 <= i < |trail| ==> trail[i] in chars
    requires rest == [] || rest[|rest| - 1] !in chars
    ensures RStrip(rest + trail, chars) == rest
    decreases |trail|
  {
    if trail == [] {
      assert rest + trail == rest;
    } else {
      var s := rest + trail;
      assert s[|s| - 1] == trail[|trail| - 1];
      assert s[..|s| - 1] == rest + trail[..|trail| - 1];
      RStripExact(rest, trail[..|trail| - 1], chars);
    }
  }

  /**
   * `StripChars` is characterised by where it cuts: once `s` is split into a
   * run of `chars`, a middle that neither starts nor ends with one of `chars`,
   * and another run of `chars`, the middle is the result.
   */
  lemma StripCharsExact(lead: string, mid: string, trail: string, chars: set<char>)
    requires forall i :: 0 <= i < |lead| ==> lead[i] in chars
    requires forall i :: 0 <= i < |trail| ==> trail[i] in chars
    requires mid == [] || (mid[0] !in chars && mid[|mid| - 1] !in chars)
    ensures StripChars(lead + mid + trail, chars) == mid
  {
    if mid == [] {
      var s := lead + trail;
      assert forall i :: 0 <= i < |s| ==> s[i] in chars by {
        forall i | 0 <= i < |s| ensures s[i] in chars {
          if i < |lead| { assert s[i] == lead[i]; } else { assert s[i] == trail[i - |lead|]; }
        }
      }
      LStripExact(s, [], chars);
      assert s + [] == lead + mid + trail;
    } else {
      LStripExact(lead, mid + trail, chars);
      assert lead + (mid + trail) == lead + mid + trail;
      RStripExact(mid, trail, chars);
    }
  }

  /** A string with no whitespace at either end is its own `strip()`. */
  lemma {:induction false} StripPlain(s: string)
    requires s != [] && s[0] !in WHITESPACE && s[|s| - 1] !in WHITESPACE
    ensures Strip(s) == s
  {
    StripCharsExact([], s, [], WHITESPACE);
    assert [] + s + [] == s;
  }

  lemma StripCharsIdempotent(s: string, chars: set<char>)
    ensures StripChars(StripChars(s, chars), chars) == StripChars(s, chars)
  {
    var r := StripChars(s, chars);
    LStripSpec(s, chars);
    RStripSpec(LStrip(s, chars), chars);
    StripCharsExact([], r, [], chars);
    assert [] + r + [] == r;
  }

  /**
   * Python's `s.replace(pat, rep)`: every non-overlapping occurrence of `pat`,
   * found scanning left to right, is replaced; text without `pat` is unchanged.
   */
  function ReplaceAll(s: string, pat: string, rep: string): (r: string)
    requires pat != []
    ensures !Contains(s, pat) ==> r == s
    decreases |s|
  {
    if |s| < |pat| then s
    else if s[..|pat|] == pat then rep + ReplaceAll(s[|pat|..], pat, rep)
    else [s[0]] + ReplaceAll(s[1..], pat, rep)
  }

  /** Text before the first character of `pat` passes through `ReplaceAll` untouched. */
  lemma {:induction false} ReplaceAllSkip(x: string, y: string, pat: string, rep: string)
    requires pat != [] && pat[0] !in x
    ensures ReplaceAll(x + y, pat, rep) == x + ReplaceAll(y, pat, rep)
    decreases |x|
  {
    if x != [] {
      var s := x + y;
      if |s| >= |pat| {
        assert s[0] == x[0] != pat[0];
        assert s[..|pat|][0] == s[0];
        assert s[1..] == x[1..] + y;
        assert ReplaceAll(s, pat, rep) == [x[0]] + ReplaceAll(x[1..] + y, pat, rep);
        ReplaceAllSkip(x[1..], y, pat, rep);
        assert [x[0]] + (x[1..] + ReplaceAll(y, pat, rep)) == x + ReplaceAll(y, pat, rep);
      } else {
        assert ReplaceAll(s, pat, rep) == s;
        assert ReplaceAll(y, pat, rep) == y;
      }
    } else {
      assert x + y == y;
    }
  }

  /** `ReplaceAll` of a pattern whose first character does not occur leaves the text unchanged. */
  lemma ReplaceAbsent(s: string, pat: string, rep: string)
    requires pat != [] && pat[0] !in s
    ensures ReplaceAll(s, pat, rep) == s
  {
    ReplaceAllSkip(s, [], pat, rep);
    assert s + [] == s;
  }

  /** A pattern at the very start is replaced, and the scan resumes after it. */
  lemma ReplaceAtStart(pat: string, y: string, rep: string)
    requires pat != []
    ensures ReplaceAll(pat + y, pat, rep) == rep + ReplaceAll(y, pat, rep)
  {
    var s := pat + y;
    assert s[..|pat|] == pat;
    assert s[|pat|..] == y;
  }

  /** Replacing a single character by text without it leaves no occurrence of that character. */
  lemma {:induction false} ReplaceCharRemovesIt(s: string, c: char, rep: string)
    requires c !in rep
    ensures c !in ReplaceAll(s, [c], rep)
    decreases |s|
  {
    if |s| >= 1 {
      ReplaceCharRemovesIt(s[1..], c, rep);
      assert s[1..] == s[|[c]|..];
    }
  }

  /** pandas' `Series.replace(table)`: a whole value found in the table is substituted, any other passes through. */
  function Recode(s: string, table: map<string, string>): string
  {
    if s in table then table[s] else s
  }
}
