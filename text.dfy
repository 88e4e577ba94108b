/** String primitives the editor's rules are built from: JavaScript's
    toLowerCase, trim, includes, startsWith, endsWith, the `split(...)[0]`
    and `split(...).pop()` idioms, and the `replace(/[-_\.]/g, "")`
    separator removal, each stated over `seq<char>`. */
module Text {

  /** Lower-casing of one character; only ASCII upper-case letters change. */
  function LowerChar(c: char): char {
    if 'A' <= c <= 'Z' then (c as int + 32) as char else c
  }

  function Lower(s: string): (r: string)
    ensures |r| == |s|
  {
    seq(|s|, i requires 0 <= i < |s| => LowerChar(s[i]))
  }

  lemma LowerConcat(a: string, b: string)
    ensures Lower(a + b) == Lower(a) + Lower(b)
  {
  }

  /** Text without upper-case ASCII letters is its own lower case. */
  lemma LowerId(s: string)
    requires forall i :: 0 <= i < |s| ==> !('A' <= s[i] <= 'Z')
    ensures Lower(s) == s
  {
  }

  /** The characters JavaScript's `\s` and `String.prototype.trim` treat as white space. */
  predicate IsSpace(c: char) {
    c == ' ' || c == '\t' || c == '\n' || c == '\r' || c == '\U{000B}' || c == '\U{000C}'
    || c == '\U{00A0}' || c == '\U{1680}' || ('\U{2000}' <= c <= '\U{200A}')
    || c == '\U{2028}' || c == '\U{2029}' || c == '\U{202F}' || c == '\U{205F}'
    || c == '\U{3000}' || c == '\U{FEFF}'
  }

  /** JavaScript's `.length`: the number of UTF-16 code units, where a
      character above U+FFFF takes a surrogate pair. */
  function Utf16Length(s: string): (n: nat)
    ensures |s| <= n <= 2 * |s|
    ensures (forall i :: 0 <= i < |s| ==> s[i] as int <= 0xFFFF) ==> n == |s|
  {
    if |s| == 0 then 0
    else Utf16Length(s[..|s| - 1]) + (if s[|s| - 1] as int > 0xFFFF then 2 else 1)
  }

  /** Two characters above U+FFFF already make a length of four. */
  lemma AstralPairLength(c: char, d: char)
    requires c as int > 0xFFFF && d as int > 0xFFFF
    ensures Utf16Length([c, d]) == 4
  {
    assert [c, d][..1] == [c];
    assert [c][..0] == [];
  }

  /** A string that `trim()` turns into the empty string. */
  predicate IsBlank(s: string) {
    forall i :: 0 <= i < |s| ==> IsSpace(s[i])
  }

  /** A space followed by blank text is blank. */
  lemma BlankCons(c: char, x: string)
    requires IsSpace(c) && IsBlank(x)
    ensures IsBlank([c] + x)
  {
    forall i | 0 <= i < |[c] + x|
      ensures IsSpace(([c] + x)[i])
    {
      if i > 0 {
        assert ([c] + x)[i] == x[i - 1];
      }
    }
  }

  /** Blank text followed by a space is blank. */
  lemma BlankSnoc(x: string, c: char)
    requires IsBlank(x) && IsSpace(c)
    ensures IsBlank(x + [c])
  {
    forall i | 0 <= i < |x + [c]|
      ensures IsSpace((x + [c])[i])
    {
      if i < |x| {
        assert (x + [c])[i] == x[i];
      }
    }
  }

  /** A leading space joins the blank part cut off at the front. */
  lemma TrimStartStep(s: string, r: string)
    requires |s| > 0 && IsSpace(s[0])
    requires |r| <= |s| - 1 && r == s[1..][|s| - 1 - |r|..] && IsBlank(s[1..][..|s| - 1 - |r|])
    ensures r == s[|s| - |r|..] && IsBlank(s[..|s| - |r|])
  {
    var k := |s| - |r|;
    assert s[1..][k - 1..] == s[k..];
    assert s[..k] == [s[0]] + s[1..][..k - 1];
    BlankCons(s[0], s[1..][..k - 1]);
  }

  /** A trailing space joins the blank part cut off at the back. */
  lemma TrimEndStep(s: string, r: string)
    requires |s| > 0 && IsSpace(s[|s| - 1])
    requires |r| <= |s| - 1 && r == s[..|s| - 1][..|r|] && IsBlank(s[..|s| - 1][|r|..])
    ensures r == s[..|r|] && IsBlank(s[|r|..])
  {
    var init := s[..|s| - 1];
    assert init[..|r|] == s[..|r|];
    assert s[|r|..] == init[|r|..] + [s[|s| - 1]];
    BlankSnoc(init[|r|..], s[|s| - 1]);
  }

  function TrimStart(s: string): (r: string)
    ensures |r| <= |s| && r == s[|s| - |r|..]
    ensures r != [] ==> !IsSpace(r[0])
    ensures IsBlank(s[..|s| - |r|])
  {
    if |s| > 0 && IsSpace(s[0]) then
      var r := TrimStart(s[1..]);
      TrimStartStep(s, r);
      r
    else
      assert s[..0] == [];
      s
  }

  function TrimEnd(s: string): (r: string)
    ensures |r| <= |s| && r == s[..|r|]
    ensures r != [] ==> !IsSpace(r[|r| - 1])
    ensures IsBlank(s[|r|..])
  {
    if |s| > 0 && IsSpace(s[|s| - 1]) then
      var r := TrimEnd(s[..|s| - 1]);
      TrimEndStep(s, r);
      r
    else
      assert s[|s|..] == [];
      s
  }

  /** `s.trim()`: white space removed at both ends, nothing else. */
  function Trim(s: string): (r: string)
    ensures r != [] ==> !IsSpace(r[0]) && !IsSpace(r[|r| - 1])
    ensures exists i, j :: 0 <= i <= j <= |s| && r == s[i..j] && IsBlank(s[..i]) && IsBlank(s[j..])
  {
    var t := TrimStart(s);
    var r := TrimEnd(t);
    TrimParts(s, t, r);
    r
  }

  /** A slice `r` at the front of a slice `t` at the end of `s` sits between
      the two cut-off parts. */
  lemma TrimParts(s: string, t: string, r: string)
    requires |t| <= |s| && t == s[|s| - |t|..] && IsBlank(s[..|s| - |t|])
    requires |r| <= |t| && r == t[..|r|] && IsBlank(t[|r|..])
    ensures var p := |s| - |t|;
      && 0 <= p <= p + |r| <= |s| && r == s[p..p + |r|]
      && IsBlank(s[..p]) && IsBlank(s[p + |r|..])
  {
    var p := |s| - |t|;
    assert r == s[p..p + |r|];
    assert t[|r|..] == s[p + |r|..];
  }

  /** `trim()` yields the empty string exactly for blank strings. */
  lemma {:induction false} TrimEmptyIffBlank(s: string)
    ensures Trim(s) == [] <==> IsBlank(s)
  {
    var t := TrimStart(s);
    var r := TrimEnd(t);
    assert Trim(s) == r;
    var p := |s| - |t|;
    if r == [] {
      assert t[0..] == t;
      assert |t| == 0;
      assert s[..p] == s;
    } else {
      assert r[0] == t[0] == s[p];
    }
  }

  predicate StartsWith(s: string, p: string) {
    |p| <= |s| && s[..|p|] == p
  }

  predicate EndsWith(s: string, p: string) {
    |p| <= |s| && s[|s| - |p|..] == p
  }

  /** `s.includes(t)`: `t` occurs somewhere in `s`. */
  predicate Contains(s: string, t: string)
    decreases |s|
  {
    StartsWith(s, t) || (|s| > 0 && Contains(s[1..], t))
  }

  /** An occurrence at a known position makes `includes` true. */
  lemma {:induction false} ContainsAt(s: string, t: string, i: nat)
    requires i + |t| <= |s| && s[i..i + |t|] == t
    ensures Contains(s, t)
  {
    if i > 0 {
      assert s[1..][i - 1..i - 1 + |t|] == s[i..i + |t|];
      ContainsAt(s[1..], t, i - 1);
    }
  }

  /** `includes` finds only occurrences that are really there. */
  lemma {:induction false} ContainsWitness(s: string, t: string) returns (i: nat)
    requires Contains(s, t)
    ensures i + |t| <= |s| && s[i..i + |t|] == t
  {
    if StartsWith(s, t) {
      i := 0;
    } else {
      var k := ContainsWitness(s[1..], t);
      assert s[1..][k..k + |t|] == s[k + 1..k + 1 + |t|];
      i := k + 1;
    }
  }

  /** A suffix test passing implies the substring test passes; the converse fails. */
  lemma EndsWithContains(s: string, t: string)
    requires EndsWith(s, t)
    ensures Contains(s, t)
  {
    ContainsAt(s, t, |s| - |t|);
  }

  lemma EndsWithConcat(a: string, b: string)
    ensures EndsWith(a + b, b)
  {
    assert (a + b)[|a + b| - |b|..] == b;
  }

  lemma ContainsInfix(a: string, t: string, b: string)
    ensures Contains(a + t + b, t)
  {
    assert (a + t + b)[|a|..|a| + |t|] == t;
    ContainsAt(a + t + b, t, |a|);
  }

  /** `s.split(stops)[0]`: the text before the first stop character. */
  function TakeBefore(s: string, stops: set<char>): (r: string)
    ensures |r| <= |s| && r == s[..|r|]
    ensures forall i :: 0 <= i < |r| ==> r[i] !in stops
    ensures |r| < |s| ==> s[|r|] in stops
  {
    if |s| == 0 then "" else if s[0] in stops then "" else [s[0]] + TakeBefore(s[1..], stops)
  }

  /** `s.split(seps).pop()`: the text after the last separator. */
  function AfterLast(s: string, seps: set<char>): (r: string)
    ensures |r| <= |s| && r == s[|s| - |r|..]
    ensures forall i :: 0 <= i < |r| ==> r[i] !in seps
    ensures |r| < |s| ==> s[|s| - |r| - 1] in seps
  {
    if |s| == 0 then ""
    else if s[|s| - 1] in seps then ""
    else AfterLast(s[..|s| - 1], seps) + [s[|s| - 1]]
  }

  /** The three results of the contract pin `TakeBefore` down: whatever is
      free of stop characters and ends the string or a stop character is it. */
  lemma {:induction false} TakeBeforeUnique(s: string, stops: set<char>, p: string)
    requires |p| <= |s| && p == s[..|p|]
    requires forall i :: 0 <= i < |p| ==> p[i] !in stops
    requires |p| < |s| ==> s[|p|] in stops
    ensures TakeBefore(s, stops) == p
  {
  }

  lemma {:induction false} AfterLastUnique(s: string, seps: set<char>, p: string)
    requires |p| <= |s| && p == s[|s| - |p|..]
    requires forall i :: 0 <= i < |p| ==> p[i] !in seps
    requires |p| < |s| ==> s[|s| - |p| - 1] in seps
    ensures AfterLast(s, seps) == p
  {
  }

  predicate IsPathSeparator(c: char) {
    c == '/' || c == '\\'
  }

  /** `path.split(/[\\\/]/).pop()`: the file name without its folders. */
  function Basename(path: string): (r: string)
    ensures |r| <= |path| && r == path[|path| - |r|..]
    ensures forall i :: 0 <= i < |r| ==> !IsPathSeparator(r[i])
    ensures |r| < |path| ==> IsPathSeparator(path[|path| - |r| - 1])
  {
    AfterLast(path, {'/', '\\'})
  }

  /** Basename of `folder/name` is `name`, whatever the folder part is. */
  lemma BasenameOfPath(folder: string, sep: char, name: string)
    requires IsPathSeparator(sep)
    requires forall i :: 0 <= i < |name| ==> !IsPathSeparator(name[i])
    ensures Basename(folder + [sep] + name) == name
  {
    var s := folder + [sep] + name;
    assert s[|s| - |name|..] == name;
    AfterLastUnique(s, {'/', '\\'}, name);
  }

  /** `s.replace(/[-_\.]/g, "")`. */
  function RemoveSeparators(s: string): (r: string)
    ensures |r| <= |s|
    ensures forall i :: 0 <= i < |r| ==> r[i] !in {'-', '_', '.'}
  {
    if |s| == 0 then ""
    else if s[|s| - 1] in {'-', '_', '.'} then RemoveSeparators(s[..|s| - 1])
    else RemoveSeparators(s[..|s| - 1]) + [s[|s| - 1]]
  }

  lemma {:induction false} RemoveSeparatorsConcat(a: string, b: string)
    ensures RemoveSeparators(a + b) == RemoveSeparators(a) + RemoveSeparators(b)
    decreases |b|
  {
    if |b| > 0 {
      assert (a + b)[..|a + b| - 1] == a + b[..|b| - 1];
      RemoveSeparatorsConcat(a, b[..|b| - 1]);
    } else {
      assert a + b == a;
    }
  }

  /** Strings free of separators pass through unchanged. */
  lemma {:induction false} RemoveSeparatorsId(s: string)
    requires forall i :: 0 <= i < |s| ==> s[i] !in {'-', '_', '.'}
    ensures RemoveSeparators(s) == s
  {
    if |s| > 0 {
      RemoveSeparatorsId(s[..|s| - 1]);
    }
  }
}
