/**
 * The Python string and list primitives that the field-extraction heuristics
 * are built from: substring search (`k in s`), `s.split(sep)`, `s.lstrip()`,
 * `s.upper()`, `s.replace('\n', ' ')`, `list.index(x)`, the list comprehension
 * `[x for x in lines if k in x]`, and the character filter of
 * `strip_special_chars`. Characters are classified as ASCII.
 */
module PyStr {
  import opened Wrappers

  // ---------------------------------------------------------------------------
  // Character classes
  // ---------------------------------------------------------------------------

  /** The ASCII characters for which Python's `str.isspace` holds. */
  predicate IsSpace(c: char) {
    c == ' ' || c == '\t' || c == '\n' || c == '\r' || c == '\U{B}' || c == '\U{C}'
    || ('\U{1C}' <= c <= '\U{1F}')
  }

  /** ASCII letters and digits (Python's `str.isalnum` restricted to ASCII). */
  predicate IsAlnum(c: char) {
    ('a' <= c <= 'z') || ('A' <= c <= 'Z') || ('0' <= c <= '9')
  }

  predicate IsLower(c: char) {
    'a' <= c <= 'z'
  }

  // ---------------------------------------------------------------------------
  // Substring search
  // ---------------------------------------------------------------------------

  /** `k` occurs in `s` starting at position `i`. */
  predicate OccursAt(s: string, k: string, i: nat) {
    i + |k| <= |s| && s[i..i + |k|] == k
  }

  /** `i` is the position of the leftmost occurrence of `k` in `s`. */
  ghost predicate IsFirstOccurrence(s: string, k: string, i: nat) {
    OccursAt(s, k, i) && forall j: nat :: j < i ==> !OccursAt(s, k, j)
  }

  lemma OccursAtTail(s: string, k: string, j: nat)
    requires |s| > 0
    ensures OccursAt(s, k, j + 1) <==> OccursAt(s[1..], k, j)
  {
    if j + 1 + |k| <= |s| {
      assert s[1..][j..j + |k|] == s[j + 1..j + 1 + |k|];
    }
  }

  /** The leftmost position of `k` in `s` (Python's `s.find(k)`, with `None` for -1). */
  function Find(s: string, k: string): (r: Option<nat>)
    ensures r.Some? ==> IsFirstOccurrence(s, k, r.value)
    ensures r.None? ==> forall j: nat :: !OccursAt(s, k, j)
    decreases |s|
  {
    if |s| < |k| then None
    else if s[..|k|] == k then Some(0)
    else
      assert !OccursAt(s, k, 0);
      match Find(s[1..], k)
      case None =>
        assert forall j: nat :: !OccursAt(s, k, j) by {
          forall j: nat ensures !OccursAt(s, k, j) {
            if j > 0 { OccursAtTail(s, k, j - 1); }
          }
        }
        None
      case Some(i) =>
        assert forall j: nat :: j < i + 1 ==> !OccursAt(s, k, j) by {
          forall j: nat | j < i + 1 ensures !OccursAt(s, k, j) {
            if j > 0 { OccursAtTail(s, k, j - 1); }
          }
        }
        OccursAtTail(s, k, i);
        Some(i + 1)
  }

  /** Python's `k in s` for strings: `k` occurs in `s` at some position. */
  predicate Contains(s: string, k: string): (b: bool)
    ensures b <==> exists i: nat :: OccursAt(s, k, i)
  {
    Find(s, k).Some?
  }

  /** A needle whose first character does not occur in `s` does not occur in `s`. */
  lemma AbsentHead(s: string, k: string)
    requires |k| > 0 && k[0] !in s
    ensures Find(s, k) == None
  {
  }

  /** An occurrence with no earlier copy of the needle's first character is the leftmost one. */
  lemma FirstAt(s: string, k: string, i: nat)
    requires |k| > 0 && OccursAt(s, k, i) && k[0] !in s[..i]
    ensures Find(s, k) == Some(i)
  {
  }

  /** A substring of a substring is a substring. */
  lemma {:induction false} ContainsTransitive(s: string, a: string, b: string)
    requires Contains(s, a) && Contains(a, b)
    ensures Contains(s, b)
  {
    var i := Find(s, a).value;
    var j := Find(a, b).value;
    assert s[i..i + |a|] == a && a[j..j + |b|] == b;
    forall m | 0 <= m < |b|
      ensures s[i + j + m] == b[m]
    {
      assert a[j + m] == b[m];
      assert s[i + (j + m)] == a[j + m];
    }
    assert s[i + j..i + j + |b|] == b;
    assert OccursAt(s, b, i + j);
  }

  /** For a one-character needle `in` is character membership. */
  lemma {:induction false} ContainsChar(s: string, c: char)
    ensures Contains(s, [c]) <==> c in s
  {
    if c in s {
      var i :| 0 <= i < |s| && s[i] == c;
      assert OccursAt(s, [c], i);
    }
    if Contains(s, [c]) {
      var i := Find(s, [c]).value;
      assert s[i..i + 1] == [c];
      assert s[i] == c;
    }
  }

  // ---------------------------------------------------------------------------
  // str.split(sep) for a non-empty separator
  // ---------------------------------------------------------------------------

  /** Python's `s.split(sep)`: the pieces between the non-overlapping occurrences of `sep`, left to right. */
  function Split(s: string, sep: string): (parts: seq<string>)
    requires |sep| > 0
    ensures |parts| >= 1
    decreases |s|
  {
    match Find(s, sep)
    case None => [s]
    case Some(i) => [s[..i]] + Split(s[i + |sep|..], sep)
  }

  /** Python's `sep.join(parts)`. */
  function Join(parts: seq<string>, sep: string): string {
    if parts == [] then ""
    else if |parts| == 1 then parts[0]
    else parts[0] + sep + Join(parts[1..], sep)
  }

  lemma JoinCons(p: string, rest: seq<string>, sep: string)
    requires rest != []
    ensures Join([p] + rest, sep) == p + sep + Join(rest, sep)
  {
    assert ([p] + rest)[1..] == rest;
  }

  /** A string is the text before an occurrence, the occurrence, and the text after it. */
  lemma Reassemble(s: string, k: string, i: nat)
    requires OccursAt(s, k, i)
    ensures s == s[..i] + k + s[i + |k|..]
  {
    assert s == s[..i] + s[i..i + |k|] + s[i + |k|..];
  }

  /** Splitting and joining again gives back the original string. */
  lemma {:induction false} JoinSplit(s: string, sep: string)
    requires |sep| > 0
    ensures Join(Split(s, sep), sep) == s
    decreases |s|
  {
    var f := Find(s, sep);
    if f.Some? {
      var i := f.value;
      var rest := s[i + |sep|..];
      JoinSplit(rest, sep);
      JoinCons(s[..i], Split(rest, sep), sep);
      Reassemble(s, sep, i);
    }
  }

  /** No piece of a split contains the separator. */
  lemma {:induction false} SplitPiecesFree(s: string, sep: string)
    requires |sep| > 0
    ensures forall p :: p in Split(s, sep) ==> !Contains(p, sep)
    decreases |s|
  {
    match Find(s, sep)
    case None =>
    case Some(i) =>
      SplitPiecesFree(s[i + |sep|..], sep);
      if Contains(s[..i], sep) {
        var j := Find(s[..i], sep).value;
        assert s[..i][j..j + |sep|] == s[j..j + |sep|];
        assert OccursAt(s, sep, j);
      }
  }

  /** A split has a second piece exactly when the separator occurs. */
  lemma {:induction false} SplitHasSecond(s: string, sep: string)
    requires |sep| > 0
    ensures |Split(s, sep)| >= 2 <==> Contains(s, sep)
  {
  }

  /**
   * `v` is the leading piece of `rest`: it ends at the first occurrence of
   * `sep` in `rest`, or at the end of `rest` when there is none.
   */
  ghost predicate IsLeadingPiece(rest: string, sep: string, v: string) {
    && v <= rest
    && (|v| == |rest| || OccursAt(rest, sep, |v|))
    && forall j: nat :: j < |v| ==> !OccursAt(rest, sep, j)
  }

  /** `v` is Python's `s.split(sep)[1]`: the text between the first and the second occurrence of `sep`. */
  ghost predicate IsSecondPiece(s: string, sep: string, v: string) {
    exists p: nat :: IsFirstOccurrence(s, sep, p) && IsLeadingPiece(s[p + |sep|..], sep, v)
  }

  /** A leading piece contains no separator. */
  lemma LeadingPieceFree(rest: string, sep: string, v: string)
    requires |sep| > 0
    requires IsLeadingPiece(rest, sep, v)
    ensures !Contains(v, sep)
  {
    if Contains(v, sep) {
      var j := Find(v, sep).value;
      assert v[j..j + |sep|] == rest[j..j + |sep|];
      assert OccursAt(rest, sep, j);
    }
  }

  /** The piece between the first two separators contains no separator. */
  lemma SecondPieceFree(s: string, sep: string, v: string)
    requires |sep| > 0
    requires IsSecondPiece(s, sep, v)
    ensures !Contains(v, sep)
  {
    var p: nat :| IsFirstOccurrence(s, sep, p) && IsLeadingPiece(s[p + |sep|..], sep, v);
    LeadingPieceFree(s[p + |sep|..], sep, v);
  }

  lemma {:induction false} SplitFirstPiece(rest: string, sep: string)
    requires |sep| > 0
    ensures IsLeadingPiece(rest, sep, Split(rest, sep)[0])
  {
  }

  /** Every piece of `split` runs from where it starts up to the next separator, or to the end of the string. */
  lemma {:induction false} SplitPiecesLeading(s: string, sep: string)
    requires |sep| > 0
    ensures forall k :: 0 <= k < |Split(s, sep)| ==>
      IsLeadingPiece(Join(Split(s, sep)[k..], sep), sep, Split(s, sep)[k])
    decreases |s|
  {
    var parts := Split(s, sep);
    forall k | 0 <= k < |parts|
      ensures IsLeadingPiece(Join(parts[k..], sep), sep, parts[k])
    {
      if k == 0 {
        assert parts[0..] == parts;
        JoinSplit(s, sep);
        SplitFirstPiece(s, sep);
      } else {
        var i := Find(s, sep).value;
        var rest := s[i + |sep|..];
        SplitPiecesLeading(rest, sep);
        assert parts[k..] == Split(rest, sep)[k - 1..];
        assert parts[k] == Split(rest, sep)[k - 1];
      }
    }
  }

  /**
   * Python's `s.split(sep)[1]`, `None` where Python raises `IndexError`.
   * It exists exactly when `sep` occurs in `s`, and it runs from the end of the
   * first occurrence up to (not including) the next one.
   */
  function SecondPiece(s: string, sep: string): (r: Option<string>)
    requires |sep| > 0
    ensures r.Some? <==> Contains(s, sep)
    ensures r.Some? ==> IsSecondPiece(s, sep, r.value)
  {
    var parts := Split(s, sep);
    if |parts| >= 2 then
      var p := Find(s, sep).value;
      SplitFirstPiece(s[p + |sep|..], sep);
      assert IsFirstOccurrence(s, sep, p);
      Some(parts[1])
    else
      None
  }

  /** An occurrence of `k` in a suffix of `s` is an occurrence in `s`, shifted by where the suffix starts. */
  lemma OccursInSuffix(s: string, k: string, m: nat, j: nat)
    requires m <= |s| && OccursAt(s[m..], k, j)
    ensures OccursAt(s, k, m + j)
  {
    assert s[m..][j..j + |k|] == s[m + j..m + j + |k|];
  }

  /** A separator that occurs exactly once splits `s` into the text before it and the text after it. */
  lemma SecondPieceOfOnly(s: string, sep: string, i: nat)
    requires |sep| > 0 && OccursAt(s, sep, i)
    requires forall j: nat :: j != i ==> !OccursAt(s, sep, j)
    ensures SecondPiece(s, sep) == Some(s[i + |sep|..])
  {
    var rest := s[i + |sep|..];
    assert Find(s, sep) == Some(i) by {
      assert Contains(s, sep);
    }
    if Find(rest, sep).Some? {
      OccursInSuffix(s, sep, i + |sep|, Find(rest, sep).value);
      assert false;
    }
    assert Split(rest, sep) == [rest];
    assert Split(s, sep) == [s[..i]] + [rest];
  }

  /**
   * The same conclusion from a condition that is easy to check on a literal:
   * the separator's first character occurs nowhere outside this occurrence.
   */
  lemma SecondPieceOfSingle(s: string, sep: string, i: nat)
    requires |sep| > 0 && OccursAt(s, sep, i)
    requires sep[0] !in s[..i] && sep[0] !in s[i + |sep|..]
    ensures SecondPiece(s, sep) == Some(s[i + |sep|..])
  {
    var rest := s[i + |sep|..];
    FirstAt(s, sep, i);
    AbsentHead(rest, sep);
    assert Split(rest, sep) == [rest];
    assert Split(s, sep) == [s[..i]] + [rest];
  }

  // ---------------------------------------------------------------------------
  // lstrip, upper, replace
  // ---------------------------------------------------------------------------

  /** Python's `s.lstrip()`: the longest suffix of `s` that does not start with whitespace. */
  function LStrip(s: string): (r: string)
    ensures |r| <= |s| && r == s[|s| - |r|..]
    ensures forall i :: 0 <= i < |s| - |r| ==> IsSpace(s[i])
    ensures r == [] || !IsSpace(r[0])
  {
    if s != [] && IsSpace(s[0]) then LStrip(s[1..]) else s
  }

  function UpperChar(c: char): char {
    if IsLower(c) then (c as int - 32) as char else c
  }

  /** `s` has no lower-case letter, which is what Python's `upper()` produces. */
  predicate IsUpperCased(s: string) {
    forall i :: 0 <= i < |s| ==> !IsLower(s[i])
  }

  /** Python's `s.upper()` on ASCII: each lower-case letter becomes its capital, nothing else changes. */
  function Upper(s: string): (r: string)
    ensures |r| == |s| && IsUpperCased(r)
    ensures forall i :: 0 <= i < |s| && !IsLower(s[i]) ==> r[i] == s[i]
    ensures forall i :: 0 <= i < |s| && IsLower(s[i]) ==> r[i] as int == s[i] as int - 32
  {
    seq(|s|, i requires 0 <= i < |s| => UpperChar(s[i]))
  }

  /** Upper-casing twice is upper-casing once. */
  lemma UpperIdempotent(s: string)
    ensures Upper(Upper(s)) == Upper(s)
  {
  }

  /** Python's `s.replace('\n', ' ')`. */
  function ReplaceNewlines(s: string): (r: string)
    ensures |r| == |s| && '\n' !in r
    ensures forall i :: 0 <= i < |s| ==> r[i] == (if s[i] == '\n' then ' ' else s[i])
  {
    seq(|s|, i requires 0 <= i < |s| => if s[i] == '\n' then ' ' else s[i])
  }

  /** Replacing newlines changes a string exactly when it has one. */
  lemma ReplaceNewlinesFixed(s: string)
    ensures ReplaceNewlines(s) == s <==> '\n' !in s
  {
    if '\n' in s {
      var i :| 0 <= i < |s| && s[i] == '\n';
      assert ReplaceNewlines(s)[i] != s[i];
    }
  }

  // ---------------------------------------------------------------------------
  // strip_special_chars
  // ---------------------------------------------------------------------------

  /** The characters that `strip_special_chars` keeps. */
  predicate IsKept(c: char) {
    IsAlnum(c) || c == ' '
  }

  /** `''.join(e for e in s if e.isalnum() or e == ' ')`. */
  function KeepAlnumSpace(s: string): (r: string)
    ensures |r| <= |s|
    ensures forall i :: 0 <= i < |r| ==> IsKept(r[i])
  {
    if s == [] then []
    else (if IsKept(s[0]) then [s[0]] else []) + KeepAlnumSpace(s[1..])
  }

  /** `a` can be obtained from `b` by deleting characters. */
  ghost predicate IsSubsequence(a: string, b: string)
    decreases |b|
  {
    a == [] || (b != [] && ((a[0] == b[0] && IsSubsequence(a[1..], b[1..])) || IsSubsequence(a, b[1..])))
  }

  /** The filter distributes over concatenation. */
  lemma {:induction false} KeepAppend(a: string, b: string)
    ensures KeepAlnumSpace(a + b) == KeepAlnumSpace(a) + KeepAlnumSpace(b)
  {
    if a != [] {
      assert (a + b)[0] == a[0] && (a + b)[1..] == a[1..] + b;
      KeepAppend(a[1..], b);
      var head := if IsKept(a[0]) then [a[0]] else [];
      assert KeepAlnumSpace(a + b) == head + KeepAlnumSpace(a[1..] + b);
      assert KeepAlnumSpace(a) == head + KeepAlnumSpace(a[1..]);
    } else {
      assert a + b == b;
    }
  }

  /** The filter leaves a string of kept characters as it is. */
  lemma {:induction false} KeepAllKept(s: string)
    requires forall i :: 0 <= i < |s| ==> IsKept(s[i])
    ensures KeepAlnumSpace(s) == s
  {
    if s != [] {
      KeepAllKept(s[1..]);
    }
  }

  /** The filter keeps a kept character and drops any other one. */
  lemma {:induction false} KeepChar(c: char)
    ensures KeepAlnumSpace([c]) == if IsKept(c) then [c] else []
  {
    assert [c][1..] == [];
  }

  /** `strip_special_chars`: drop every character that is neither alphanumeric nor a space, then `lstrip`. */
  function StripSpecialChars(s: string): (r: string)
    ensures forall i :: 0 <= i < |r| ==> IsKept(r[i])
    ensures r == [] || r[0] != ' '
    ensures |r| <= |KeepAlnumSpace(s)|
    ensures r == KeepAlnumSpace(s)[|KeepAlnumSpace(s)| - |r|..]
    ensures forall i :: 0 <= i < |KeepAlnumSpace(s)| - |r| ==> KeepAlnumSpace(s)[i] == ' '
  {
    var kept := KeepAlnumSpace(s);
    var r := LStrip(kept);
    assert forall i :: 0 <= i < |r| ==> r[i] == kept[|kept| - |r| + i];
    r
  }

  lemma KeepCons(c: char, t: string)
    ensures KeepAlnumSpace([c] + t) == (if IsKept(c) then [c] else []) + KeepAlnumSpace(t)
  {
    assert ([c] + t)[1..] == t;
  }

  lemma LStripCons(c: char, t: string)
    ensures LStrip([c] + t) == if IsSpace(c) then LStrip(t) else [c] + t
  {
    assert ([c] + t)[1..] == t;
  }

  lemma SubsequenceCons(a: string, c: char, t: string)
    requires IsSubsequence(a, t)
    ensures IsSubsequence(a, [c] + t)
  {
    assert ([c] + t)[1..] == t;
  }

  /** A leading letter or digit survives `strip_special_chars`, and the rest is only filtered. */
  lemma StripKeptHead(c: char, t: string)
    requires IsKept(c) && c != ' '
    ensures StripSpecialChars([c] + t) == [c] + KeepAlnumSpace(t)
  {
    KeepCons(c, t);
    LStripCons(c, KeepAlnumSpace(t));
  }

  /** A leading space or special character makes no difference to `strip_special_chars`. */
  lemma StripDroppedHead(c: char, t: string)
    requires !IsKept(c) || c == ' '
    ensures StripSpecialChars([c] + t) == StripSpecialChars(t)
  {
    KeepCons(c, t);
    if IsKept(c) {
      LStripCons(c, KeepAlnumSpace(t));
    } else {
      assert [] + KeepAlnumSpace(t) == KeepAlnumSpace(t);
    }
  }

  /** The result of `strip_special_chars` is obtained from its input by deleting characters. */
  lemma {:induction false} StripSpecialCharsSubsequence(s: string)
    ensures IsSubsequence(StripSpecialChars(s), s)
  {
    if s != [] {
      var c, t := s[0], s[1..];
      assert s == [c] + t;
      if IsKept(c) && c != ' ' {
        StripKeptHead(c, t);
        KeepSubsequence(t);
        var k := [c] + KeepAlnumSpace(t);
        assert k[0] == s[0] && k[1..] == KeepAlnumSpace(t);
      } else {
        StripDroppedHead(c, t);
        StripSpecialCharsSubsequence(t);
        SubsequenceCons(StripSpecialChars(t), c, t);
      }
    }
  }

  lemma {:induction false} KeepSubsequence(s: string)
    ensures IsSubsequence(KeepAlnumSpace(s), s)
  {
    if s != [] {
      KeepSubsequence(s[1..]);
      var k := KeepAlnumSpace(s);
      if IsKept(s[0]) {
        assert k[0] == s[0] && k[1..] == KeepAlnumSpace(s[1..]);
      } else {
        assert k == KeepAlnumSpace(s[1..]);
      }
    }
  }

  /** `strip_special_chars` is idempotent. */
  lemma {:induction false} StripSpecialCharsIdempotent(s: string)
    ensures StripSpecialChars(StripSpecialChars(s)) == StripSpecialChars(s)
  {
    var r := StripSpecialChars(s);
    KeepAllKept(r);
    assert r == [] || !IsSpace(r[0]);
  }

  // ---------------------------------------------------------------------------
  // List lookups
  // ---------------------------------------------------------------------------

  /** `i` is the index of the first line that contains `k`. */
  ghost predicate IsFirstContaining(lines: seq<string>, k: string, i: int) {
    0 <= i < |lines| && Contains(lines[i], k) && forall j :: 0 <= j < i ==> !Contains(lines[j], k)
  }

  /** There is at most one first line containing `k`. */
  lemma FirstContainingUnique(lines: seq<string>, k: string, i: int, j: int)
    requires IsFirstContaining(lines, k, i) && IsFirstContaining(lines, k, j)
    ensures i == j
  {
  }

  /** `[x for x in lines if k in x]`. */
  function LinesContaining(lines: seq<string>, k: string): (r: seq<string>)
    ensures |r| <= |lines|
    ensures forall i :: 0 <= i < |r| ==> Contains(r[i], k)
    ensures r == [] <==> forall j :: 0 <= j < |lines| ==> !Contains(lines[j], k)
    ensures r != [] ==> exists i :: IsFirstContaining(lines, k, i) && r[0] == lines[i]
  {
    if lines == [] then []
    else
      var rest := LinesContaining(lines[1..], k);
      if Contains(lines[0], k) then
        assert IsFirstContaining(lines, k, 0);
        [lines[0]] + rest
      else
        assert rest != [] ==> exists i :: IsFirstContaining(lines, k, i) && rest[0] == lines[i] by {
          if rest != [] {
            var i :| IsFirstContaining(lines[1..], k, i) && rest[0] == lines[1..][i];
            assert IsFirstContaining(lines, k, i + 1);
          }
        }
        rest
  }

  /** `[x for x in lines if k in x][0]`, `None` where Python raises `IndexError`. */
  function FirstLineContaining(lines: seq<string>, k: string): (r: Option<string>)
    ensures r.None? <==> forall j :: 0 <= j < |lines| ==> !Contains(lines[j], k)
    ensures r.Some? ==> exists i :: IsFirstContaining(lines, k, i) && r.value == lines[i]
  {
    var matching := LinesContaining(lines, k);
    if |matching| > 0 then Some(matching[0]) else None
  }

  /** `i` is the index of the first element equal to `t`. */
  ghost predicate IsFirstEqual(lines: seq<string>, t: string, i: int) {
    0 <= i < |lines| && lines[i] == t && forall j :: 0 <= j < i ==> lines[j] != t
  }

  /** Python's `lines.index(t)`, `None` where Python raises `ValueError`. */
  function IndexOf(lines: seq<string>, t: string): (r: Option<nat>)
    ensures r.Some? ==> IsFirstEqual(lines, t, r.value)
    ensures r.None? <==> t !in lines
  {
    if lines == [] then None
    else if lines[0] == t then Some(0)
    else match IndexOf(lines[1..], t)
      case None => None
      case Some(i) => Some(i + 1)
  }

  /**
   * Looking up the first line that contains `k` by value (`lines.index(block)`)
   * finds it at its own index: no earlier element can equal it, since that
   * element would contain `k` too.
   */
  lemma {:induction false} IndexOfFirstContaining(lines: seq<string>, k: string, i: int)
    requires IsFirstContaining(lines, k, i)
    ensures IndexOf(lines, lines[i]) == Some(i)
  {
    var r := IndexOf(lines, lines[i]);
    assert lines[i] in lines;
    assert r.Some?;
    assert !(i < r.value);
  }
}
