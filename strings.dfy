/**
 * The Python string operations the comparator relies on: str.strip(),
 * str.replace(old, ""), str.split(sep), iteration over the lines of a text
 * file, and the ordering of strings used by sorted().
 */
module Strings {

  /** The comparator exists as a Python 2 script and as a Python 3 script;
      the two interpreters disagree on what whitespace is and on how a text
      file is cut into lines. */
  datatype Dialect = Python2 | Python3

  /** Characters removed by str.strip() with no argument.  Python 2 reads the
      file as bytes and strips the six ASCII whitespace bytes; Python 3 strips
      every character for which str.isspace() holds. */
  predicate IsSpace(d: Dialect, c: char)
  {
    var n := c as int;
    match d
    case Python2 => n == 0x20 || 0x09 <= n <= 0x0D
    case Python3 =>
      || 0x09 <= n <= 0x0D || 0x1C <= n <= 0x20
      || n == 0x85 || n == 0xA0 || n == 0x1680
      || 0x2000 <= n <= 0x200A || n == 0x2028 || n == 0x2029
      || n == 0x202F || n == 0x205F || n == 0x3000
  }

  /** Neither end of s is whitespace. */
  predicate NoEdgeSpace(d: Dialect, s: string)
  {
    s == [] || (!IsSpace(d, s[0]) && !IsSpace(d, s[|s| - 1]))
  }

  /** The number of whitespace characters s starts with. */
  function LeadingSpaces(d: Dialect, s: string): (n: nat)
    ensures n <= |s|
    ensures forall i :: 0 <= i < n ==> IsSpace(d, s[i])
    ensures n == |s| || !IsSpace(d, s[n])
  {
    if s != [] && IsSpace(d, s[0]) then 1 + LeadingSpaces(d, s[1..]) else 0
  }

  /** The number of whitespace characters s ends with. */
  function TrailingSpaces(d: Dialect, s: string): (n: nat)
    ensures n <= |s|
    ensures forall i :: |s| - n <= i < |s| ==> IsSpace(d, s[i])
    ensures n == |s| || !IsSpace(d, s[|s| - n - 1])
  {
    if s != [] && IsSpace(d, s[|s| - 1]) then 1 + TrailingSpaces(d, s[..|s| - 1]) else 0
  }

  /** str.lstrip(): drops the longest all-whitespace prefix. */
  function TrimStart(d: Dialect, s: string): (r: string)
    ensures |r| <= |s| && r == s[|s| - |r|..]
    ensures forall i :: 0 <= i < |s| - |r| ==> IsSpace(d, s[i])
    ensures r == [] || !IsSpace(d, r[0])
  {
    s[LeadingSpaces(d, s)..]
  }

  /** str.rstrip(): drops the longest all-whitespace suffix. */
  function TrimEnd(d: Dialect, s: string): (r: string)
    ensures |r| <= |s| && r == s[..|r|]
    ensures forall i :: |r| <= i < |s| ==> IsSpace(d, s[i])
    ensures r == [] || !IsSpace(d, r[|r| - 1])
  {
    s[..|s| - TrailingSpaces(d, s)]
  }

  /** str.strip(): the result is a contiguous piece of s, everything outside
      it is whitespace, and it neither starts nor ends with whitespace. */
  function Strip(d: Dialect, s: string): (r: string)
    ensures exists i :: StrippedAt(d, s, r, i)
    ensures NoEdgeSpace(d, r)
    ensures forall c :: c in r ==> c in s
  {
    StripFactsPiece(d, s);
    StripFactsEdges(d, s);
    StripChars(d, s, TrimEnd(d, TrimStart(d, s)), |s| - |TrimStart(d, s)|);
    TrimEnd(d, TrimStart(d, s))
  }

  lemma StripFactsPiece(d: Dialect, s: string)
    ensures StrippedAt(d, s, TrimEnd(d, TrimStart(d, s)), |s| - |TrimStart(d, s)|)
  {
    var t := TrimStart(d, s);
    StripPiece(d, s, t, TrimEnd(d, t));
  }

  lemma StripFactsEdges(d: Dialect, s: string)
    ensures NoEdgeSpace(d, TrimEnd(d, TrimStart(d, s)))
  {
    var t := TrimStart(d, s);
    StripEdges(d, t, TrimEnd(d, t));
  }

  /** What TrimStart and TrimEnd promise, put together: r sits in s at
      |s| - |t| with whitespace on both sides. */
  lemma StripPiece(d: Dialect, s: string, t: string, r: string)
    requires |t| <= |s| && t == s[|s| - |t|..]
    requires forall k :: 0 <= k < |s| - |t| ==> IsSpace(d, s[k])
    requires |r| <= |t| && r == t[..|r|]
    requires forall k :: |r| <= k < |t| ==> IsSpace(d, t[k])
    ensures StrippedAt(d, s, r, |s| - |t|)
  {
    var i := |s| - |t|;
    assert r == s[i..i + |r|];
    assert AllSpace(d, t[|r|..]);
    assert s[i + |r|..] == t[|r|..];
    SpaceFrom(d, s, i + |r|);
  }

  /** Every character of s is whitespace. */
  predicate AllSpace(d: Dialect, s: string)
  {
    forall k :: 0 <= k < |s| ==> IsSpace(d, s[k])
  }

  lemma SpaceFrom(d: Dialect, s: string, n: nat)
    requires n <= |s| && AllSpace(d, s[n..])
    ensures forall k :: n <= k < |s| ==> IsSpace(d, s[k])
  {
    forall k | n <= k < |s| ensures IsSpace(d, s[k]) {
      assert s[k] == s[n..][k - n];
    }
  }

  lemma StripEdges(d: Dialect, t: string, r: string)
    requires t == [] || !IsSpace(d, t[0])
    requires |r| <= |t| && r == t[..|r|]
    requires r == [] || !IsSpace(d, r[|r| - 1])
    ensures NoEdgeSpace(d, r)
  {
    if r != [] {
      assert r[0] == t[0];
    }
  }

  lemma StripChars(d: Dialect, s: string, r: string, i: int)
    requires StrippedAt(d, s, r, i)
    ensures forall c :: c in r ==> c in s
  {
    forall c | c in r ensures c in s {
      var j :| 0 <= j < |r| && r[j] == c;
      assert s[i + j] == c;
    }
  }

  /** r is the piece of s starting at index i, and all of s around it is
      whitespace. */
  predicate StrippedAt(d: Dialect, s: string, r: string, i: int)
  {
    && 0 <= i <= |s| - |r| && r == s[i..i + |r|]
    && (forall k :: 0 <= k < i ==> IsSpace(d, s[k]))
    && (forall k :: i + |r| <= k < |s| ==> IsSpace(d, s[k]))
  }

  /** Stripping twice is stripping once. */
  lemma StripIdempotent(d: Dialect, s: string)
    ensures Strip(d, Strip(d, s)) == Strip(d, s)
  {
    var r := Strip(d, s);
    assert TrimStart(d, r) == r;
    assert TrimEnd(d, r) == r;
  }

  /** Strip undoes padding: whitespace put around a text that neither starts
      nor ends with whitespace is removed again, and only that. */
  lemma StripPadded(d: Dialect, a: string, m: string, b: string)
    requires forall c :: c in a ==> IsSpace(d, c)
    requires forall c :: c in b ==> IsSpace(d, c)
    requires m != [] && NoEdgeSpace(d, m)
    ensures Strip(d, a + m + b) == m
  {
    assert a + m + b == a + (m + b);
    TrimStartPadded(d, a, m + b);
    TrimEndPadded(d, m, b);
  }

  /** A text that neither starts nor ends with whitespace is its own strip. */
  lemma StripUnpadded(d: Dialect, s: string)
    requires NoEdgeSpace(d, s)
    ensures Strip(d, s) == s
  {
  }

  lemma TrimStartPadded(d: Dialect, a: string, t: string)
    requires forall c :: c in a ==> IsSpace(d, c)
    requires t == [] || !IsSpace(d, t[0])
    ensures TrimStart(d, a + t) == t
  {
    var s := a + t;
    var r := TrimStart(d, s);
    var n := |s| - |r|;
    forall i | 0 <= i < |a| ensures IsSpace(d, s[i]) {
      assert s[i] == a[i] && a[i] in a;
    }
    assert r != [] ==> r[0] == s[n];
    assert t != [] ==> s[|a|] == t[0];
    assert n == |a|;
    assert r == s[|a|..] == t;
  }

  lemma TrimEndPadded(d: Dialect, t: string, b: string)
    requires forall c :: c in b ==> IsSpace(d, c)
    requires t == [] || !IsSpace(d, t[|t| - 1])
    ensures TrimEnd(d, t + b) == t
  {
    var s := t + b;
    var r := TrimEnd(d, s);
    forall i | |t| <= i < |s| ensures IsSpace(d, s[i]) {
      assert s[i] == b[i - |t|] && b[i - |t|] in b;
    }
    assert r != [] ==> r[|r| - 1] == s[|r| - 1];
    assert t != [] ==> s[|t| - 1] == t[|t| - 1];
    assert |r| == |t|;
    assert r == s[..|t|] == t;
  }

  /** Strip looks only at which characters are whitespace: a string on whose
      characters the two interpreters agree strips alike under both. */
  lemma {:induction false} StripDialectsAgree(s: string)
    requires forall c :: c in s ==> (IsSpace(Python2, c) <==> IsSpace(Python3, c))
    ensures Strip(Python2, s) == Strip(Python3, s)
  {
    TrimStartDialectsAgree(s);
    var t := TrimStart(Python2, s);
    assert forall c :: c in t ==> c in s;
    TrimEndDialectsAgree(t);
  }

  lemma TrimStartDialectsAgree(s: string)
    requires forall c :: c in s ==> (IsSpace(Python2, c) <==> IsSpace(Python3, c))
    ensures TrimStart(Python2, s) == TrimStart(Python3, s)
  {
    LeadingSpacesDialectsAgree(s);
  }

  lemma TrimEndDialectsAgree(s: string)
    requires forall c :: c in s ==> (IsSpace(Python2, c) <==> IsSpace(Python3, c))
    ensures TrimEnd(Python2, s) == TrimEnd(Python3, s)
  {
    TrailingSpacesDialectsAgree(s);
  }

  lemma {:induction false} LeadingSpacesDialectsAgree(s: string)
    requires forall c :: c in s ==> (IsSpace(Python2, c) <==> IsSpace(Python3, c))
    ensures LeadingSpaces(Python2, s) == LeadingSpaces(Python3, s)
  {
    if s != [] {
      assert s[0] in s;
      if IsSpace(Python2, s[0]) {
        assert forall c :: c in s[1..] ==> c in s;
        LeadingSpacesDialectsAgree(s[1..]);
      }
    }
  }

  lemma {:induction false} TrailingSpacesDialectsAgree(s: string)
    requires forall c :: c in s ==> (IsSpace(Python2, c) <==> IsSpace(Python3, c))
    ensures TrailingSpaces(Python2, s) == TrailingSpaces(Python3, s)
  {
    if s != [] {
      assert s[|s| - 1] in s;
      if IsSpace(Python2, s[|s| - 1]) {
        assert forall c :: c in s[..|s| - 1] ==> c in s;
        TrailingSpacesDialectsAgree(s[..|s| - 1]);
      }
    }
  }

  /** pat occurs in s starting at index i. */
  predicate OccursAt(pat: string, s: string, i: nat)
  {
    i + |pat| <= |s| && s[i..i + |pat|] == pat
  }

  /** s.replace(pat, ""): scans s from the left and deletes every
      non-overlapping occurrence of pat, in a single pass. */
  function RemoveAll(s: string, pat: string): (r: string)
    requires pat != []
    ensures |r| <= |s|
    ensures forall c :: c in r ==> c in s
    decreases |s|
  {
    if |s| < |pat| then s
    else if s[..|pat|] == pat then RemoveAll(s[|pat|..], pat)
    else [s[0]] + RemoveAll(s[1..], pat)
  }

  /** Where pat does not occur, nothing is removed. */
  lemma {:induction false} RemoveAllNoOccurrence(s: string, pat: string)
    requires pat != []
    requires forall i :: 0 <= i <= |s| - |pat| ==> !OccursAt(pat, s, i)
    ensures RemoveAll(s, pat) == s
    decreases |s|
  {
    if |s| >= |pat| {
      assert !OccursAt(pat, s, 0);
      assert s[..|pat|] != pat;
      forall i | 0 <= i <= |s[1..]| - |pat|
        ensures !OccursAt(pat, s[1..], i)
      {
        assert s[1..][i..i + |pat|] == s[i + 1..i + 1 + |pat|];
        assert !OccursAt(pat, s, i + 1);
      }
      RemoveAllNoOccurrence(s[1..], pat);
      assert [s[0]] + s[1..] == s;
    }
  }

  /** A leading occurrence is removed. */
  lemma RemoveAllPrefix(pat: string, b: string)
    requires pat != []
    ensures RemoveAll(pat + b, pat) == RemoveAll(b, pat)
  {
    assert (pat + b)[..|pat|] == pat;
    assert (pat + b)[|pat|..] == b;
  }

  /** An occurrence is removed wherever it stands, not only as a prefix: the
      text before it is kept when it holds no occurrence of its own. */
  lemma {:induction false} RemoveAllInfix(a: string, pat: string, b: string)
    requires pat != []
    requires forall i :: 0 <= i < |a| ==> !OccursAt(pat, a + pat + b, i)
    ensures RemoveAll(a + pat + b, pat) == a + RemoveAll(b, pat)
    decreases |a|
  {
    var s := a + pat + b;
    if a == [] {
      assert s == pat + b;
      assert s[..|pat|] == pat;
      assert s[|pat|..] == b;
    } else {
      assert s[..|pat|] != pat by { assert !OccursAt(pat, s, 0); }
      assert s[1..] == a[1..] + pat + b;
      assert RemoveAll(s, pat) == [a[0]] + RemoveAll(a[1..] + pat + b, pat);
      NoOccurrenceInTail(a, pat, b);
      RemoveAllInfix(a[1..], pat, b);
      assert [a[0]] + (a[1..] + RemoveAll(b, pat)) == a + RemoveAll(b, pat);
    }
  }

  lemma NoOccurrenceInTail(a: string, pat: string, b: string)
    requires a != []
    requires forall i :: 0 <= i < |a| ==> !OccursAt(pat, a + pat + b, i)
    ensures forall i :: 0 <= i < |a[1..]| ==> !OccursAt(pat, a[1..] + pat + b, i)
  {
    var s := a + pat + b;
    forall i | 0 <= i < |a[1..]|
      ensures !OccursAt(pat, a[1..] + pat + b, i)
    {
      assert !OccursAt(pat, s, i + 1);
      assert a[1..] + pat + b == s[1..];
    }
  }

  /** A single left-to-right pass: an occurrence that only appears once an
      inner one has been removed stays in the result. */
  lemma RemoveAllSinglePass()
    ensures RemoveAll("Integ" + "Integral of " + "ral of x", "Integral of ") == "Integ" + "ral of x"
  {
    NoOccurrenceInInteg();
    RemoveAllInfix("Integ", "Integral of ", "ral of x");
    assert RemoveAll("ral of x", "Integral of ") == "ral of x";
  }

  lemma NoOccurrenceInInteg()
    ensures forall i :: 0 <= i < 5 ==> !OccursAt("Integral of ", "Integ" + "Integral of " + "ral of x", i)
  {
    var pat := "Integral of ";
    var s := "Integ" + pat + "ral of x";
    assert s[5] == 'I' && s[1] == 'n' && s[2] == 't' && s[3] == 'e' && s[4] == 'g';
    MismatchAt(pat, s, 0, 5);
    MismatchAt(pat, s, 1, 0);
    MismatchAt(pat, s, 2, 0);
    MismatchAt(pat, s, 3, 0);
    MismatchAt(pat, s, 4, 0);
  }

  /** One differing character rules an occurrence out. */
  lemma MismatchAt(pat: string, s: string, i: nat, j: nat)
    requires j < |pat| && i + j < |s| && s[i + j] != pat[j]
    ensures !OccursAt(pat, s, i)
  {
  }

  /** Index of the first occurrence of c in s. */
  function FirstIndex(s: string, c: char): (i: nat)
    requires c in s
    ensures i < |s| && s[i] == c && c !in s[..i]
  {
    if s[0] == c then 0 else 1 + FirstIndex(s[1..], c)
  }

  /** sep.join(parts): the inverse of Split. */
  function Join(parts: seq<string>, sep: char): string
  {
    if parts == [] then []
    else if |parts| == 1 then parts[0]
    else parts[0] + [sep] + Join(parts[1..], sep)
  }

  /** s.split(sep) for a one-character separator: the pieces between
      consecutive separators, empty pieces included. */
  function Split(s: string, sep: char): (parts: seq<string>)
    ensures |parts| >= 1
    ensures forall i :: 0 <= i < |parts| ==> sep !in parts[i]
    ensures Join(parts, sep) == s
    ensures sep in s <==> |parts| >= 2
    ensures forall i, c :: 0 <= i < |parts| && c in parts[i] ==> c in s
    decreases |s|
  {
    if sep !in s then [s]
    else
      var i := FirstIndex(s, sep);
      assert s == s[..i] + [sep] + s[i + 1..];
      [s[..i]] + Split(s[i + 1..], sep)
  }

  /** Splitting a join of separator-free pieces gives those pieces back. */
  lemma {:induction false} SplitJoin(parts: seq<string>, sep: char)
    requires |parts| >= 1
    requires forall i :: 0 <= i < |parts| ==> sep !in parts[i]
    ensures Split(Join(parts, sep), sep) == parts
  {
    if |parts| > 1 {
      var s := Join(parts, sep);
      var rest := Join(parts[1..], sep);
      assert s == parts[0] + [sep] + rest;
      assert sep in s by { assert s[|parts[0]|] == sep; }
      var i := FirstIndex(s, sep);
      assert forall k :: 0 <= k < |parts[0]| ==> s[k] == parts[0][k];
      assert i == |parts[0]|;
      assert s[..i] == parts[0];
      assert s[i + 1..] == rest;
      SplitJoin(parts[1..], sep);
    }
  }

  /** The first two pieces of a split: the text before the first separator,
      and the text between the first and the second separator (or the end). */
  lemma SplitFields(s: string, sep: char)
    requires sep in s
    ensures var i := FirstIndex(s, sep);
            var rest := s[i + 1..];
            && Split(s, sep)[0] == s[..i]
            && Split(s, sep)[1] == if sep in rest then rest[..FirstIndex(rest, sep)] else rest
  {
  }

  /** Python 3 opens text files with universal newlines: "\r\n" and a lone
      "\r" both reach the program as "\n". */
  function TranslateNewlines(s: string): (r: string)
    ensures '\r' !in r
    ensures '\r' !in s ==> r == s
  {
    if s == [] then []
    else if s[0] != '\r' then [s[0]] + TranslateNewlines(s[1..])
    else if |s| > 1 && s[1] == '\n' then "\n" + TranslateNewlines(s[2..])
    else "\n" + TranslateNewlines(s[1..])
  }

  /** Concatenation of lines. */
  /** The three cases of the translation, one character or pair at a time. */
  lemma TranslatePlain(c: char, t: string)
    requires c != '\r'
    ensures TranslateNewlines([c] + t) == [c] + TranslateNewlines(t)
  {
    assert ([c] + t)[1..] == t;
  }

  lemma TranslatePair(c: char, n: char, t: string)
    requires c == '\r' && n == '\n'
    ensures TranslateNewlines([c, n] + t) == [n] + TranslateNewlines(t)
  {
    assert ([c, n] + t)[2..] == t;
  }

  lemma TranslateSingle(c: char, t: string)
    requires c == '\r' && (t == [] || t[0] != '\n')
    ensures TranslateNewlines([c] + t) == ['\n'] + TranslateNewlines(t)
  {
    assert ([c] + t)[1..] == t;
  }

  /** Translation works piece by piece, as long as the cut does not fall
      between the two characters of a `\r\n`. */
  lemma {:induction false} TranslateAppend(a: string, b: string)
    requires a == [] || a[|a| - 1] != '\r' || b == [] || b[0] != '\n'
    ensures TranslateNewlines(a + b) == TranslateNewlines(a) + TranslateNewlines(b)
    decreases |a|, 1
  {
    if a == [] {
      assert a + b == b;
    } else if a[0] != '\r' {
      TranslateAppendPlain(a, b);
    } else if |a| > 1 && a[1] == '\n' {
      TranslateAppendPair(a, b);
    } else {
      var t := a[1..];
      assert a == [a[0]] + t;
      if t == [] {
        TranslateAppendFinalCr(a[0], b);
      } else {
        assert TranslateNewlines(a) == ['\n'] + TranslateNewlines(t) by {
          TranslateSingle(a[0], t);
        }
        assert TranslateNewlines(a + b) == ['\n'] + (TranslateNewlines(t) + TranslateNewlines(b)) by {
          assert a + b == [a[0]] + (t + b);
          TranslateAppendSingle(a[0], t, b);
        }
      }
    }
  }

  lemma {:induction false} TranslateAppendPlain(a: string, b: string)
    requires a != [] && a[0] != '\r'
    requires a[|a| - 1] != '\r' || b == [] || b[0] != '\n'
    ensures TranslateNewlines(a + b) == TranslateNewlines(a) + TranslateNewlines(b)
    decreases |a|, 0
  {
    var t := a[1..];
    assert a == [a[0]] + t && a + b == [a[0]] + (t + b);
    TranslatePlain(a[0], t + b);
    TranslatePlain(a[0], t);
    TranslateAppend(t, b);
  }

  lemma {:induction false} TranslateAppendPair(a: string, b: string)
    requires |a| > 1 && a[0] == '\r' && a[1] == '\n'
    requires a[|a| - 1] != '\r' || b == [] || b[0] != '\n'
    ensures TranslateNewlines(a + b) == TranslateNewlines(a) + TranslateNewlines(b)
    decreases |a|, 0
  {
    var t := a[2..];
    assert a == [a[0], a[1]] + t && a + b == [a[0], a[1]] + (t + b);
    TranslatePair(a[0], a[1], t + b);
    TranslatePair(a[0], a[1], t);
    TranslateAppend(t, b);
  }

  lemma TranslateAppendFinalCr(c: char, b: string)
    requires c == '\r' && (b == [] || b[0] != '\n')
    ensures TranslateNewlines([c] + b) == TranslateNewlines([c]) + TranslateNewlines(b)
  {
    var n := TranslateNewlines([c]);
    assert n == ['\n'] by {
      TranslateSingle(c, []);
      assert [c] + [] == [c];
    }
    TranslateSingle(c, b);
  }

  lemma {:induction false} TranslateAppendSingle(c: char, t: string, b: string)
    requires c == '\r' && t != [] && t[0] != '\n'
    requires t[|t| - 1] != '\r' || b == [] || b[0] != '\n'
    ensures TranslateNewlines([c] + (t + b)) == ['\n'] + (TranslateNewlines(t) + TranslateNewlines(b))
    decreases |t| + 1, 0
  {
    assert (t + b)[0] == t[0];
    TranslateSingle(c, t + b);
    TranslateAppend(t, b);
  }






  /** A `\r\n` pair becomes one newline wherever it stands. */
  lemma TranslateCrLf(a: string, b: string)
    ensures TranslateNewlines(a + "\r\n" + b) == TranslateNewlines(a) + "\n" + TranslateNewlines(b)
  {
    assert a + "\r\n" + b == a + ("\r\n" + b);
    TranslateAppend(a, "\r\n" + b);
    assert "\r\n" + b == ['\r', '\n'] + b;
    TranslatePair('\r', '\n', b);
  }

  /** A carriage return not followed by a newline becomes a newline. */
  lemma TranslateLoneCr(a: string, b: string)
    requires b == [] || b[0] != '\n'
    ensures TranslateNewlines(a + "\r" + b) == TranslateNewlines(a) + "\n" + TranslateNewlines(b)
  {
    assert a + "\r" + b == a + ("\r" + b);
    TranslateAppend(a, "\r" + b);
    assert "\r" + b == ['\r'] + b;
    TranslateSingle('\r', b);
  }

  /** Every other character is kept, in place. */
  lemma TranslateOther(a: string, c: char, b: string)
    requires c != '\r' && c != '\n'
    ensures TranslateNewlines(a + [c] + b) == TranslateNewlines(a) + [c] + TranslateNewlines(b)
  {
    assert a + [c] + b == a + ([c] + b);
    TranslateAppend(a, [c] + b);
    TranslatePlain(c, b);
  }

  function Concat(lines: seq<string>): string
  {
    if lines == [] then [] else lines[0] + Concat(lines[1..])
  }

  /** `for line in f`: the file cut after every "\n", each line keeping its
      terminator; the last line may lack one, and an empty file has none. */
  function SplitLines(text: string): (lines: seq<string>)
    ensures Concat(lines) == text
    ensures forall i :: 0 <= i < |lines| ==> lines[i] != []
    ensures forall i :: 0 <= i < |lines| ==> '\n' !in lines[i][..|lines[i]| - 1]
    ensures forall i :: 0 <= i < |lines| - 1 ==> lines[i][|lines[i]| - 1] == '\n'
    decreases |text|
  {
    if text == [] then []
    else if '\n' !in text then
      SingleLine(text);
      [text]
    else
      var i := FirstIndex(text, '\n');
      var head := text[..i + 1];
      var rest := SplitLines(text[i + 1..]);
      assert text == head + text[i + 1..];
      assert head[..|head| - 1] == text[..i];
      ConsLines(head, rest);
      [head] + rest
  }

  lemma SingleLine(text: string)
    requires text != [] && '\n' !in text
    ensures Concat([text]) == text
    ensures '\n' !in text[..|text| - 1]
  {
    assert [text][1..] == [];
    assert text + [] == text;
    assert forall c :: c in text[..|text| - 1] ==> c in text;
  }

  /** A terminated line in front of well-cut lines keeps them well cut. */
  lemma ConsLines(head: string, rest: seq<string>)
    requires head != [] && '\n' !in head[..|head| - 1] && head[|head| - 1] == '\n'
    requires forall i :: 0 <= i < |rest| ==> rest[i] != []
    requires forall i :: 0 <= i < |rest| ==> '\n' !in rest[i][..|rest[i]| - 1]
    requires forall i :: 0 <= i < |rest| - 1 ==> rest[i][|rest[i]| - 1] == '\n'
    ensures Concat([head] + rest) == head + Concat(rest)
    ensures forall i :: 0 <= i < |[head] + rest| ==> ([head] + rest)[i] != []
    ensures forall i :: 0 <= i < |[head] + rest| ==> '\n' !in ([head] + rest)[i][..|([head] + rest)[i]| - 1]
    ensures forall i :: 0 <= i < |[head] + rest| - 1 ==> ([head] + rest)[i][|([head] + rest)[i]| - 1] == '\n'
  {
    var lines := [head] + rest;
    assert lines[1..] == rest;
    assert forall i :: 1 <= i < |lines| ==> lines[i] == rest[i - 1];
  }

  /** The lines the script iterates over, for the given interpreter. */
  function ReadLines(d: Dialect, text: string): (lines: seq<string>)
    ensures Concat(lines) == (if d == Python3 then TranslateNewlines(text) else text)
    ensures forall i :: 0 <= i < |lines| ==> lines[i] != [] && '\n' !in lines[i][..|lines[i]| - 1]
    ensures forall i :: 0 <= i < |lines| - 1 ==> lines[i][|lines[i]| - 1] == '\n'
    ensures d == Python3 ==> forall i :: 0 <= i < |lines| ==> '\r' !in lines[i]
  {
    var t := if d == Python3 then TranslateNewlines(text) else text;
    var lines := SplitLines(t);
    assert forall i :: 0 <= i < |lines| ==> forall c :: c in lines[i] ==> c in t by {
      ConcatContains(lines);
    }
    lines
  }

  lemma {:induction false} ConcatContains(lines: seq<string>)
    ensures forall i :: 0 <= i < |lines| ==> forall c :: c in lines[i] ==> c in Concat(lines)
  {
    if lines != [] {
      ConcatContains(lines[1..]);
      forall i | 0 <= i < |lines|
        ensures forall c :: c in lines[i] ==> c in Concat(lines)
      {
        if i > 0 { assert lines[i] == lines[1..][i - 1]; }
      }
    }
  }

  /** Python's `<` on strings: lexicographic by code point, a proper prefix
      coming first. */
  predicate Less(a: string, b: string)
    ensures Less(a, b) ==> b != [] && (a == [] || a[0] <= b[0])
  {
    if a == [] then b != []
    else if b == [] then false
    else if a[0] != b[0] then a[0] < b[0]
    else Less(a[1..], b[1..])
  }

  lemma {:induction false} LessIrreflexive(a: string)
    ensures !Less(a, a)
  {
    if a != [] { LessIrreflexive(a[1..]); }
  }

  lemma {:induction false} LessTransitive(a: string, b: string, c: string)
    requires Less(a, b) && Less(b, c)
    ensures Less(a, c)
  {
    if a != [] && b != [] && c != [] && a[0] == b[0] && b[0] == c[0] {
      LessTransitive(a[1..], b[1..], c[1..]);
    }
  }

  /** Any two distinct strings are ordered one way or the other. */
  lemma {:induction false} LessTotal(a: string, b: string)
    requires a != b
    ensures Less(a, b) || Less(b, a)
  {
    if a != [] && b != [] && a[0] == b[0] {
      assert a == [a[0]] + a[1..] && b == [b[0]] + b[1..];
      LessTotal(a[1..], b[1..]);
    }
  }

  lemma {:induction false} LessAsymmetric(a: string, b: string)
    requires Less(a, b)
    ensures !Less(b, a)
  {
    if a != [] && b != [] && a[0] == b[0] {
      LessAsymmetric(a[1..], b[1..]);
    }
  }

  /** a is a proper prefix of b. */
  predicate ProperPrefix(a: string, b: string)
  {
    |a| < |b| && forall j :: 0 <= j < |a| ==> a[j] == b[j]
  }

  /** a and b first differ at index k, where a has the smaller character. */
  predicate DiffersFirstAt(a: string, b: string, k: nat)
  {
    k < |a| && k < |b| && (forall j :: 0 <= j < k ==> a[j] == b[j]) && a[k] < b[k]
  }

  /** Less is Python's order on str: a proper prefix sorts first, and
      otherwise the first differing code point decides. */
  lemma {:induction false} LessIsLexicographic(a: string, b: string)
    ensures Less(a, b) <==> ProperPrefix(a, b) || exists k :: DiffersFirstAt(a, b, k)
  {
    if a == [] {
      if b != [] {
        assert ProperPrefix(a, b);
      }
    } else if b == [] {
    } else if a[0] != b[0] {
      if a[0] < b[0] {
        assert DiffersFirstAt(a, b, 0);
      }
    } else {
      var a', b' := a[1..], b[1..];
      LessIsLexicographic(a', b');
      if ProperPrefix(a', b') {
        forall j | 0 <= j < |a| ensures a[j] == b[j] {
          if j > 0 { assert a[j] == a'[j - 1] && b[j] == b'[j - 1]; }
        }
      }
      if ProperPrefix(a, b) {
        forall j | 0 <= j < |a'| ensures a'[j] == b'[j] {
          assert a[j + 1] == b[j + 1];
        }
      }
      if k: nat :| DiffersFirstAt(a', b', k) {
        forall j | 0 <= j < k + 1 ensures a[j] == b[j] {
          if j > 0 { assert a[j] == a'[j - 1] && b[j] == b'[j - 1]; }
        }
        assert DiffersFirstAt(a, b, k + 1);
      }
      if k: nat :| DiffersFirstAt(a, b, k) {
        assert k != 0;
        forall j | 0 <= j < k - 1 ensures a'[j] == b'[j] {
          assert a[j + 1] == b[j + 1];
        }
        assert DiffersFirstAt(a', b', k - 1);
      }
    }
  }
}
