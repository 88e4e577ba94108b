/** Bulk link filling: pulling http(s) URLs out of pasted text, deriving a
    file name from each, and matching it against the entries' names through
    an insertion-ordered map keyed by lower-cased trimmed name. */
module Bulk {
  import opened Text
  import opened Workflow
  import opened Validate
  import opened Reconcile

  /** The length of the scheme `http://` or `https://` starting at `i`, or 0. */
  function SchemeLength(text: string, i: nat): (n: nat)
    requires i <= |text|
    ensures n == 0 || n == 7 || n == 8
    ensures n > 0 ==> i + n <= |text|
    ensures n == 8 ==> text[i..i + 8] == "https://"
    ensures n == 7 ==> text[i..i + 7] == "http://"
  {
    if StartsWith(text[i..], "https://") then 8
    else if StartsWith(text[i..], "http://") then 7
    else 0
  }

  /** The end of the run of non-space characters starting at `j`. */
  function RunEnd(text: string, j: nat): (e: nat)
    requires j <= |text|
    ensures j <= e <= |text|
    ensures forall k :: j <= k < e ==> !IsSpace(text[k])
    ensures e < |text| ==> IsSpace(text[e])
    decreases |text| - j
  {
    if j == |text| || IsSpace(text[j]) then j else RunEnd(text, j + 1)
  }

  /** A scheme followed by at least one more character. */
  predicate IsUrl(u: string) {
    (StartsWith(u, "https://") && |u| > 8) || (StartsWith(u, "http://") && |u| > 7)
  }

  predicate NoSpace(u: string) {
    forall c :: 0 <= c < |u| ==> !IsSpace(u[c])
  }

  /** The match found at `i`: the scheme and the non-space run after it. */
  lemma MatchAt(text: string, i: nat, n: nat, e: nat)
    requires i <= |text| && n == SchemeLength(text, i)
    requires n > 0 && i + n < |text| && !IsSpace(text[i + n]) && e == RunEnd(text, i + n)
    ensures IsUrl(text[i..e]) && NoSpace(text[i..e])
  {
    var u := text[i..e];
    assert u[..n] == text[i..i + n];
    assert NoSpace(u[..n]) by {
      if n == 8 {
        assert u[..n] == "https://";
      } else {
        assert u[..n] == "http://";
      }
    }
    forall c | 0 <= c < |u|
      ensures !IsSpace(u[c])
    {
      if c < n {
        assert u[c] == u[..n][c];
      } else {
        assert u[c] == text[i + c];
      }
    }
  }

  /** The global scan of `/(https?:\/\/[^\s]+)/g` from position `i`: a match
      is a scheme followed by at least one non-space character, extended as
      far as the non-space run goes; the scan resumes after it. */
  function UrlsFrom(text: string, i: nat): (urls: seq<string>)
    requires i <= |text|
    ensures forall k :: 0 <= k < |urls| ==> IsUrl(urls[k]) && NoSpace(urls[k])
    decreases |text| - i
  {
    if i == |text| then []
    else
      var n := SchemeLength(text, i);
      if n > 0 && i + n < |text| && !IsSpace(text[i + n]) then
        var e := RunEnd(text, i + n);
        MatchAt(text, i, n, e);
        [text[i..e]] + UrlsFrom(text, e)
      else UrlsFrom(text, i + 1)
  }

  /** `extractUrls(text)`. */
  function ExtractUrls(text: string): seq<string> {
    UrlsFrom(text, 0)
  }

  /** Every extracted URL occurs in the text. */
  lemma {:induction false} UrlsOccur(text: string, i: nat)
    requires i <= |text|
    ensures forall k :: 0 <= k < |UrlsFrom(text, i)| ==> Contains(text, UrlsFrom(text, i)[k])
    decreases |text| - i
  {
    if i < |text| {
      var n := SchemeLength(text, i);
      if n > 0 && i + n < |text| && !IsSpace(text[i + n]) {
        var e := RunEnd(text, i + n);
        UrlsOccur(text, e);
        ContainsAt(text, text[i..e], i);
        assert UrlsFrom(text, i) == [text[i..e]] + UrlsFrom(text, e);
      } else {
        UrlsOccur(text, i + 1);
      }
    }
  }

  /** A single well-formed URL with nothing around it is extracted whole. */
  lemma SingleUrl(u: string)
    requires IsUrl(u) && NoSpace(u)
    ensures ExtractUrls(u) == [u]
  {
    assert u[0..] == u;
    var n := SchemeLength(u, 0);
    if StartsWith(u, "https://") {
      assert u[..8] == "https://" && u[4] == 's';
      assert !StartsWith(u, "http://") by {
        assert "http://"[4] == ':';
      }
    }
    assert n > 0 && n < |u|;
    var e := RunEnd(u, n);
    assert e == |u|;
    assert u[0..e] == u;
    assert UrlsFrom(u, 0) == [u[0..e]] + UrlsFrom(u, e);
  }

  /** A white-space character ends any scheme prefix: text followed by
      white space starts with a space-free prefix exactly when the text
      alone does. */
  lemma PrefixStopsAtSpace(a: string, x: string, p: string)
    requires |x| > 0 && IsSpace(x[0]) && NoSpace(p)
    ensures StartsWith(a + x, p) <==> StartsWith(a, p)
  {
    if |p| <= |a| {
      assert (a + x)[..|p|] == a[..|p|];
    } else if |p| <= |a + x| {
      assert (a + x)[..|p|][|a|] == x[0];
      assert !IsSpace(p[|a|]);
    }
  }

  /** The scheme test at `i` does not look past a white-space character. */
  lemma SchemeStopsAtSpace(s: string, x: string, i: nat)
    requires i <= |s| && |x| > 0 && IsSpace(x[0])
    ensures SchemeLength(s + x, i) == SchemeLength(s, i)
  {
    assert (s + x)[i..] == s[i..] + x;
    assert NoSpace("https://") by {
      forall c | 0 <= c < 8
        ensures !IsSpace("https://"[c])
      {
      }
    }
    assert NoSpace("http://") by {
      forall c | 0 <= c < 7
        ensures !IsSpace("http://"[c])
      {
      }
    }
    PrefixStopsAtSpace(s[i..], x, "https://");
    PrefixStopsAtSpace(s[i..], x, "http://");
  }

  /** A non-space run that starts before a white-space character ends there
      at the latest. */
  lemma {:induction false} RunEndStopsAtSpace(s: string, x: string, j: nat)
    requires j <= |s| && |x| > 0 && IsSpace(x[0])
    ensures RunEnd(s + x, j) == RunEnd(s, j)
    decreases |s| - j
  {
    if j < |s| {
      assert (s + x)[j] == s[j];
      if !IsSpace(s[j]) {
        RunEndStopsAtSpace(s, x, j + 1);
      }
    } else {
      assert (s + x)[j] == x[0];
    }
  }

  /** Whether the scan finds a match at `i`. */
  predicate MatchesAt(text: string, i: nat)
    requires i <= |text|
  {
    var n := SchemeLength(text, i);
    n > 0 && i + n < |text| && !IsSpace(text[i + n])
  }

  /** One step of the scan that finds a match at `i`. */
  lemma ScanMatch(text: string, i: nat)
    requires i < |text| && MatchesAt(text, i)
    ensures var e := RunEnd(text, i + SchemeLength(text, i));
      UrlsFrom(text, i) == [text[i..e]] + UrlsFrom(text, e)
  {
  }

  /** One step of the scan that finds no match at `i`. */
  lemma ScanSkip(text: string, i: nat)
    requires i < |text| && !MatchesAt(text, i)
    ensures UrlsFrom(text, i) == UrlsFrom(text, i + 1)
  {
  }

  /** Before a white-space character, the text and the text followed by
      more agree on where matches are and how far they run. */
  lemma StepStopsAtSpace(s: string, x: string, i: nat)
    requires i < |s| && |x| > 0 && IsSpace(x[0])
    ensures MatchesAt(s + x, i) == MatchesAt(s, i)
    ensures MatchesAt(s, i) ==>
      var e := RunEnd(s, i + SchemeLength(s, i));
      && SchemeLength(s + x, i) == SchemeLength(s, i)
      && RunEnd(s + x, i + SchemeLength(s, i)) == e
      && (s + x)[i..e] == s[i..e]
  {
    var n := SchemeLength(s, i);
    SchemeStopsAtSpace(s, x, i);
    if n > 0 && i + n < |s| {
      assert (s + x)[i + n] == s[i + n];
    } else if n > 0 && i + n == |s| {
      assert (s + x)[i + n] == x[0];
    }
    if MatchesAt(s, i) {
      RunEndStopsAtSpace(s, x, i + n);
    }
  }

  /** The scan of text followed by white space finds, before the white
      space, exactly the URLs of the text alone. */
  lemma {:induction false} UrlsStopAtSpace(s: string, x: string, i: nat)
    requires i <= |s| && |x| > 0 && IsSpace(x[0])
    ensures UrlsFrom(s + x, i) == UrlsFrom(s, i) + UrlsFrom(s + x, |s|)
    decreases |s| - i
  {
    if i < |s| {
      StepStopsAtSpace(s, x, i);
      if MatchesAt(s, i) {
        var e := RunEnd(s, i + SchemeLength(s, i));
        ScanMatch(s, i);
        ScanMatch(s + x, i);
        UrlsStopAtSpace(s, x, e);
      } else {
        ScanSkip(s, i);
        ScanSkip(s + x, i);
        UrlsStopAtSpace(s, x, i + 1);
      }
    }
  }

  /** The scan from a position depends only on the text from there on:
      two texts with the same suffix agree on the runs in it. */
  lemma {:induction false} RunEndSuffix(a: string, i: nat, b: string, j: nat)
    requires i <= |a| && j <= |b| && a[i..] == b[j..]
    ensures RunEnd(a, i) - i == RunEnd(b, j) - j
    decreases |a| - i
  {
    if i < |a| {
      assert a[i] == a[i..][0] && b[j] == b[j..][0];
      if !IsSpace(a[i]) {
        assert a[i + 1..] == a[i..][1..] && b[j + 1..] == b[j..][1..];
        RunEndSuffix(a, i + 1, b, j + 1);
      }
    }
  }

  /** ... and on where matches are ... */
  lemma MatchSuffix(a: string, i: nat, b: string, j: nat)
    requires i < |a| && j <= |b| && a[i..] == b[j..]
    ensures j < |b| && SchemeLength(a, i) == SchemeLength(b, j)
    ensures MatchesAt(a, i) == MatchesAt(b, j)
  {
    var n := SchemeLength(a, i);
    if n > 0 && i + n < |a| {
      assert a[i + n] == a[i..][n] && b[j + n] == b[j..][n];
    }
  }

  /** Equal suffixes agree on every slice of them. */
  lemma SuffixSlices(a: string, i: nat, b: string, j: nat, d: nat)
    requires i + d <= |a| && j <= |b| && a[i..] == b[j..]
    ensures j + d <= |b| && a[i..i + d] == b[j..j + d] && a[i + d..] == b[j + d..]
  {
    assert a[i..i + d] == a[i..][..d] && b[j..j + d] == b[j..][..d];
    assert a[i + d..] == a[i..][d..] && b[j + d..] == b[j..][d..];
  }

  /** ... and on what they are and where the scan resumes. */
  lemma StepSuffix(a: string, i: nat, b: string, j: nat, n: nat)
    requires i + n <= |a| && j <= |b| && a[i..] == b[j..]
    ensures j + n <= |b|
    ensures var ea := RunEnd(a, i + n);
      var eb := RunEnd(b, j + n);
      && ea - i == eb - j && a[i..ea] == b[j..eb] && a[ea..] == b[eb..]
  {
    SuffixSlices(a, i, b, j, n);
    RunEndSuffix(a, i + n, b, j + n);
    var ea := RunEnd(a, i + n);
    var eb := RunEnd(b, j + n);
    SuffixSlices(a, i, b, j, ea - i);
    assert j + (ea - i) == eb;
  }

  /** The whole scan from a position depends only on the text from there on. */
  lemma {:induction false} UrlsSuffix(a: string, i: nat, b: string, j: nat)
    requires i <= |a| && j <= |b| && a[i..] == b[j..]
    ensures UrlsFrom(a, i) == UrlsFrom(b, j)
    decreases |a| - i
  {
    if i < |a| {
      MatchSuffix(a, i, b, j);
      if MatchesAt(a, i) {
        var n := SchemeLength(a, i);
        StepSuffix(a, i, b, j, n);
        ScanMatch(a, i);
        ScanMatch(b, j);
        UrlsSuffix(a, RunEnd(a, i + n), b, RunEnd(b, j + n));
      } else {
        ScanSkip(a, i);
        ScanSkip(b, j);
        assert a[i + 1..] == a[i..][1..] && b[j + 1..] == b[j..][1..];
        UrlsSuffix(a, i + 1, b, j + 1);
      }
    }
  }

  /** No match spans white space: the URLs of two texts joined by a
      white-space character are the URLs of the first followed by those of
      the second. With `SingleUrl`, every URL of a pasted list is found,
      whole and in order (`ExtractJoined`). */
  lemma ExtractSplitsAtSpace(s: string, w: char, t: string)
    requires IsSpace(w)
    ensures ExtractUrls(s + [w] + t) == ExtractUrls(s) + ExtractUrls(t)
  {
    var x := [w] + t;
    var sw := s + [w];
    assert s + [w] + t == s + x && sw + t == s + x;
    SplitAt(s, x, sw, t);
  }

  /** The core of `ExtractSplitsAtSpace`, over the two ways of grouping
      the joined text. */
  lemma SplitAt(s: string, x: string, sw: string, t: string)
    requires |x| > 0 && IsSpace(x[0]) && x[1..] == t
    requires sw + t == s + x && |sw| == |s| + 1
    ensures UrlsFrom(s + x, 0) == UrlsFrom(s, 0) + UrlsFrom(t, 0)
  {
    UrlsStopAtSpace(s, x, 0);
    SchemeStopsAtSpace(s, x, |s|);
    assert SchemeLength(s, |s|) == 0;
    assert !MatchesAt(s + x, |s|);
    ScanSkip(s + x, |s|);
    assert (s + x)[|s| + 1..] == t[0..];
    UrlsSuffix(s + x, |s| + 1, t, 0);
  }

  /** URLs written one after another, separated by single spaces. */
  function Joined(us: seq<string>): string
    decreases |us|
  {
    if |us| == 0 then ""
    else if |us| == 1 then us[0]
    else us[0] + " " + Joined(us[1..])
  }

  /** A space-separated list of well-formed URLs is extracted exactly. */
  lemma {:induction false} ExtractJoined(us: seq<string>)
    requires forall k :: 0 <= k < |us| ==> IsUrl(us[k]) && NoSpace(us[k])
    ensures ExtractUrls(Joined(us)) == us
    decreases |us|
  {
    if |us| == 1 {
      SingleUrl(us[0]);
    } else if |us| > 1 {
      SingleUrl(us[0]);
      ExtractJoined(us[1..]);
      ExtractSplitsAtSpace(us[0], ' ', Joined(us[1..]));
      assert us == [us[0]] + us[1..];
    }
  }

  /** The position of the last dot, if any. */
  function LastDot(p: string): (k: Option<nat>)
    ensures k.Some? ==> k.value < |p| && p[k.value] == '.' && forall i :: k.value < i < |p| ==> p[i] != '.'
    ensures k.None? ==> forall i :: 0 <= i < |p| ==> p[i] != '.'
  {
    if |p| == 0 then None
    else if p[|p| - 1] == '.' then Some(|p| - 1)
    else LastDot(p[..|p| - 1])
  }

  /** `p.replace(/\.[^/.]+$/, "")`: drop a final extension, that is a dot
      followed by at least one character and by no further dot or slash. */
  function StripLastExtension(p: string): (r: string)
    ensures r == p || (|r| + 1 < |p| && r == p[..|r|] && p[|r|] == '.'
                       && forall i :: |r| < i < |p| ==> p[i] != '.' && p[i] != '/')
    ensures (exists k :: 0 <= k < |p| - 1 && p[k] == '.' && forall i :: k < i < |p| ==> p[i] != '.' && p[i] != '/')
      ==> r != p
  {
    match LastDot(p)
    case None => p
    case Some(k) =>
      if k < |p| - 1 && forall i :: k < i < |p| ==> p[i] != '/' then p[..k] else p
  }

  /** `extractFileNameFromUrl(url)`: cut at the first `?` or `#`, keep the
      last `/` segment, drop its extension. */
  function FileNameFromUrl(url: string): string {
    StripLastExtension(AfterLast(TakeBefore(url, {'?', '#'}), {'/'}))
  }

  /** The extension strip drops exactly a final `.ext`. */
  lemma {:induction false} StripExtensionOf(stem: string, ext: string)
    requires |ext| > 0 && forall i :: 0 <= i < |ext| ==> ext[i] !in {'/', '.'}
    ensures StripLastExtension(stem + "." + ext) == stem
  {
    var seg := stem + "." + ext;
    assert seg[|stem|] == '.';
    assert forall i :: |stem| < i < |seg| ==> seg[i] == ext[i - |stem| - 1];
    var r := StripLastExtension(seg);
    assert r != seg;
    assert seg[..|stem|] == stem;
  }

  /** A URL `base/stem.ext` with an optional query or fragment yields `stem`. */
  lemma {:induction false} FileNameRoundTrip(base: string, stem: string, ext: string, tail: string)
    requires forall i :: 0 <= i < |base| ==> base[i] != '?' && base[i] != '#'
    requires forall i :: 0 <= i < |stem| ==> stem[i] !in {'?', '#', '/'}
    requires |ext| > 0 && forall i :: 0 <= i < |ext| ==> ext[i] !in {'?', '#', '/', '.'}
    requires tail == "" || tail[0] in {'?', '#'}
    ensures FileNameFromUrl(base + "/" + stem + "." + ext + tail) == stem
  {
    var seg := stem + "." + ext;
    var p := base + "/" + seg;
    var u := p + tail;
    assert base + "/" + stem + "." + ext + tail == u;
    TakeBeforeUnique(u, {'?', '#'}, p);
    assert p[|p| - |seg|..] == seg;
    AfterLastUnique(p, {'/'}, seg);
    StripExtensionOf(stem, ext);
  }

  /** A reference to one entry: the card's position and the entry's
      position in that card. */
  datatype RowRef = RowRef(card: nat, row: nat)

  /** A `Map` from key to entry, in insertion order. */
  type ModelMap = seq<(string, RowRef)>

  /** Where `k` sits in the map, if it is a key. */
  function KeyIndex(m: ModelMap, k: string): (i: Option<nat>)
    ensures i.Some? ==> i.value < |m| && m[i.value].0 == k
    ensures i.None? ==> forall j :: 0 <= j < |m| ==> m[j].0 != k
  {
    if |m| == 0 then None
    else if m[|m| - 1].0 == k then Some(|m| - 1)
    else KeyIndex(m[..|m| - 1], k)
  }

  /** `map.get(k)`. */
  function Lookup(m: ModelMap, k: string): Option<RowRef> {
    match KeyIndex(m, k)
    case Some(i) => Some(m[i].1)
    case None => None
  }

  predicate UniqueKeys(m: ModelMap) {
    forall i, j :: 0 <= i < j < |m| ==> m[i].0 != m[j].0
  }

  /** `map.set(k, v)`: an existing key keeps its position and takes the new
      value; a new key goes last. */
  function MapSet(m: ModelMap, k: string, v: RowRef): (r: ModelMap)
    requires UniqueKeys(m)
    ensures UniqueKeys(r)
    ensures Lookup(r, k) == Some(v)
    ensures forall k' :: k' != k ==> Lookup(r, k') == Lookup(m, k')
    ensures (exists j :: 0 <= j < |m| && m[j].0 == k) ==> |r| == |m| && forall j :: 0 <= j < |m| ==> r[j].0 == m[j].0
    ensures (forall j :: 0 <= j < |m| ==> m[j].0 != k) ==> r == m + [(k, v)]
  {
    match KeyIndex(m, k)
    case Some(i) =>
      var r := m[i := (k, v)];
      KeyIndexSameKeys(r, m, k);
      assert forall k' :: k' != k ==> KeyIndex(r, k') == KeyIndex(m, k') by {
        forall k' | k' != k
          ensures KeyIndex(r, k') == KeyIndex(m, k')
        {
          KeyIndexSameKeys(r, m, k');
        }
      }
      r
    case None =>
      var r := m + [(k, v)];
      assert forall k' :: k' != k ==> KeyIndex(r, k') == KeyIndex(m, k') by {
        assert r[..|r| - 1] == m;
      }
      r
  }

  /** `KeyIndex` reads only the keys. */
  lemma {:induction false} KeyIndexSameKeys(a: ModelMap, b: ModelMap, k: string)
    requires |a| == |b| && forall j :: 0 <= j < |a| ==> a[j].0 == b[j].0
    ensures KeyIndex(a, k) == KeyIndex(b, k)
  {
    if |a| > 0 && a[|a| - 1].0 != k {
      KeyIndexSameKeys(a[..|a| - 1], b[..|b| - 1], k);
    }
  }

  /** The key every entry with a non-blank name is filed under, in document order. */
  function Keyed(rows: seq<seq<EntryRow>>): seq<(string, RowRef)> {
    if |rows| == 0 then []
    else Keyed(rows[..|rows| - 1]) + KeyedCard(rows[|rows| - 1], |rows| - 1)
  }

  function KeyedCard(card: seq<EntryRow>, c: nat): (ps: seq<(string, RowRef)>)
    ensures forall i :: 0 <= i < |ps| ==> ps[i].1.card == c && ps[i].1.row < |card|
  {
    if |card| == 0 then []
    else
      var r := |card| - 1;
      var init := KeyedCard(card[..r], c);
      var key := Trim(card[r].name);
      if key != "" then init + [(Lower(key), RowRef(c, r))] else init
  }

  /** Folding `map.set` over the pairs, in order. */
  function BuildMap(ps: seq<(string, RowRef)>): (m: ModelMap)
    ensures UniqueKeys(m)
  {
    if |ps| == 0 then [] else MapSet(BuildMap(ps[..|ps| - 1]), ps[|ps| - 1].0, ps[|ps| - 1].1)
  }

  /** The value of the last pair with key `k`. */
  function LastValue(ps: seq<(string, RowRef)>, k: string): Option<RowRef> {
    if |ps| == 0 then None
    else if ps[|ps| - 1].0 == k then Some(ps[|ps| - 1].1)
    else LastValue(ps[..|ps| - 1], k)
  }

  /** A later entry with the same lower-cased name replaces the earlier one:
      the map holds, for each key, the last entry filed under it. */
  lemma {:induction false} BuildMapLastWins(ps: seq<(string, RowRef)>, k: string)
    ensures Lookup(BuildMap(ps), k) == LastValue(ps, k)
  {
    if |ps| > 0 {
      BuildMapLastWins(ps[..|ps| - 1], k);
    }
  }

  /** ... while its key keeps the position of its first insertion. */
  lemma {:induction false} BuildMapFirstPosition(ps: seq<(string, RowRef)>, j: nat)
    requires j < |ps| && forall i :: 0 <= i < j ==> ps[i].0 != ps[j].0
    ensures var m := BuildMap(ps);
      KeyIndex(m, ps[j].0).Some? && KeyIndex(m, ps[j].0) == KeyIndex(BuildMap(ps[..j + 1]), ps[j].0)
    decreases |ps|
  {
    var m := BuildMap(ps);
    if j == |ps| - 1 {
      assert ps[..j + 1] == ps;
    } else {
      var init := ps[..|ps| - 1];
      assert init[..j + 1] == ps[..j + 1];
      BuildMapFirstPosition(init, j);
      var mi := BuildMap(init);
      var k := ps[|ps| - 1].0;
      if k == ps[j].0 {
        KeyIndexSameKeys(m, mi, k);
      } else {
        assert Lookup(m, ps[j].0) == Lookup(mi, ps[j].0);
        if exists i :: 0 <= i < |mi| && mi[i].0 == k {
          KeyIndexSameKeys(m, mi, ps[j].0);
        } else {
          assert m == mi + [(k, ps[|ps| - 1].1)];
          assert m[..|m| - 1] == mi;
        }
      }
    }
  }

  /** `^(model_|checkpoint_|ckpt_|lora_)` removed once from a lower-cased name. */
  function StripKnownPrefix(s: string): (r: string)
    ensures |r| <= |s| && r == s[|s| - |r|..]
  {
    if StartsWith(s, "model_") then s[6..]
    else if StartsWith(s, "checkpoint_") then s[11..]
    else if StartsWith(s, "ckpt_") then s[5..]
    else if StartsWith(s, "lora_") then s[5..]
    else s
  }

  /** The URL side of the fuzzy comparison: lower-cased, one known prefix
      dropped, separators removed. */
  function CleanFileName(f: string): string {
    RemoveSeparators(StripKnownPrefix(Lower(f)))
  }

  /** The entry side: lower-cased and separators removed, no prefix dropped. */
  function CleanKey(k: string): string {
    RemoveSeparators(Lower(k))
  }

  /** The first entry, in insertion order, whose cleaned key overlaps the
      cleaned file name. */
  function FirstFuzzy(m: ModelMap, cf: string): (r: Option<nat>)
    ensures r.Some? ==> r.value < |m| && Overlap(cf, CleanKey(m[r.value].0))
    ensures r.Some? ==> forall j :: 0 <= j < r.value ==> !Overlap(cf, CleanKey(m[j].0))
    ensures r.None? ==> forall j :: 0 <= j < |m| ==> !Overlap(cf, CleanKey(m[j].0))
  {
    if |m| == 0 then None
    else if Overlap(cf, CleanKey(m[0].0)) then Some(0)
    else match FirstFuzzy(m[1..], cf)
      case None => None
      case Some(i) => Some(i + 1)
  }

  /** `findMatchingModelEntry(fileName, modelMap)`: a direct hit on the
      lower-cased file name wins; otherwise the first fuzzy overlap. */
  function FindMatch(fileName: string, m: ModelMap): (r: Option<RowRef>)
    ensures Lookup(m, Lower(fileName)).Some? ==> r == Lookup(m, Lower(fileName))
    ensures Lookup(m, Lower(fileName)).None? ==>
      (r.Some? <==> exists j :: 0 <= j < |m| && Overlap(CleanFileName(fileName), CleanKey(m[j].0)))
    ensures r.Some? ==> exists j :: 0 <= j < |m| && m[j].1 == r.value
  {
    match Lookup(m, Lower(fileName))
    case Some(v) => Some(v)
    case None =>
      match FirstFuzzy(m, CleanFileName(fileName))
      case Some(i) => Some(m[i].1)
      case None => None
  }

  /** A file name that cleans to nothing matches the first entry of a
      non-empty map, unless a direct hit comes first. */
  lemma EmptyCleanMatchesFirst(fileName: string, m: ModelMap)
    requires |m| > 0 && CleanFileName(fileName) == "" && Lookup(m, Lower(fileName)).None?
    ensures FindMatch(fileName, m) == Some(m[0].1)
  {
    assert StartsWith(CleanKey(m[0].0), "");
  }

  /** "lora_" is already lower case. */
  lemma LowerLora(s: string)
    ensures Lower("lora_" + s) == "lora_" + Lower(s)
  {
    LowerConcat("lora_", s);
    LowerId("lora_");
  }

  /** Of the known prefixes, only "lora_" matches, and it is dropped. */
  lemma StripLora(t: string)
    ensures StripKnownPrefix("lora_" + t) == t
  {
    var u := "lora_" + t;
    assert u[0] == 'l' && u[..5] == "lora_" && u[5..] == t;
    assert !StartsWith(u, "model_") && !StartsWith(u, "checkpoint_") && !StartsWith(u, "ckpt_");
  }

  /** Removing the separators of "lora_" leaves "lora". */
  lemma RemoveSeparatorsLora()
    ensures RemoveSeparators("lora_") == "lora"
  {
    assert "lora_" == "lora" + "_";
    RemoveSeparatorsConcat("lora", "_");
    RemoveSeparatorsId("lora");
    assert RemoveSeparators("_") == "" by {
      assert "_"[..0] == "";
    }
  }

  /** The prefix is dropped on the URL side only: a file "lora_" + s is
      cleaned to the cleaned `s`, while an entry named "lora_" + s keeps
      "lora" in its cleaned key. */
  lemma PrefixOnlyOnUrlSide(s: string)
    ensures CleanFileName("lora_" + s) == CleanKey(s)
    ensures CleanKey("lora_" + s) == "lora" + CleanKey(s)
  {
    LowerLora(s);
    StripLora(Lower(s));
    RemoveSeparatorsConcat("lora_", Lower(s));
    RemoveSeparatorsLora();
  }

  /** Every map entry refers to an existing entry row. */
  predicate RefsValid(m: ModelMap, rows: seq<seq<EntryRow>>) {
    forall j :: 0 <= j < |m| ==> m[j].1.card < |rows| && m[j].1.row < |rows[m[j].1.card]|
  }

  /** Setting a valid reference keeps every reference of the map valid. */
  lemma MapSetRefs(m: ModelMap, k: string, v: RowRef, rows: seq<seq<EntryRow>>)
    requires UniqueKeys(m) && RefsValid(m, rows)
    requires v.card < |rows| && v.row < |rows[v.card]|
    ensures RefsValid(MapSet(m, k, v), rows)
  {
  }

  /** Every pair `Keyed` files refers to an existing entry. */
  lemma {:induction false} KeyedRefsValid(rows: seq<seq<EntryRow>>)
    ensures RefsValid(Keyed(rows), rows)
  {
    if |rows| > 0 {
      var init := rows[..|rows| - 1];
      KeyedRefsValid(init);
      var a := Keyed(init);
      var b := KeyedCard(rows[|rows| - 1], |rows| - 1);
      var ab: seq<(string, RowRef)> := a + b;
      assert Keyed(rows) == ab;
      forall j | 0 <= j < |ab|
        ensures ab[j].1.card < |rows| && ab[j].1.row < |rows[ab[j].1.card]|
      {
        if j < |a| {
          assert ab[j] == a[j];
          assert rows[a[j].1.card] == init[a[j].1.card];
        } else {
          assert ab[j] == b[j - |a|];
        }
      }
    }
  }

  /** `BuildMap` only stores references it was given. */
  lemma {:induction false} BuildMapRefs(ps: seq<(string, RowRef)>, rows: seq<seq<EntryRow>>)
    requires RefsValid(ps, rows)
    ensures RefsValid(BuildMap(ps), rows)
  {
    if |ps| > 0 {
      var init := ps[..|ps| - 1];
      assert RefsValid(init, rows) by {
        forall j | 0 <= j < |init|
          ensures init[j].1.card < |rows| && init[j].1.row < |rows[init[j].1.card]|
        {
          assert init[j] == ps[j];
        }
      }
      BuildMapRefs(init, rows);
      MapSetRefs(BuildMap(init), ps[|ps| - 1].0, ps[|ps| - 1].1, rows);
    }
  }

  /** The map `matchAndFillModelLinks` builds before its URL loop: every
      entry with a non-blank name filed under its trimmed, lower-cased name,
      the last one winning. */
  function ModelMapOf(rows: seq<seq<EntryRow>>): (m: ModelMap)
    ensures UniqueKeys(m) && RefsValid(m, rows)
  {
    KeyedRefsValid(rows);
    BuildMapRefs(Keyed(rows), rows);
    BuildMap(Keyed(rows))
  }

  /** One more pair is one more `map.set`. */
  lemma BuildMapSnoc(ps: seq<(string, RowRef)>, p: (string, RowRef))
    ensures BuildMap(ps + [p]) == MapSet(BuildMap(ps), p.0, p.1)
  {
    assert (ps + [p])[..|ps|] == ps;
  }

  /** One more entry of a card is filed under its key, if it has one. */
  lemma KeyedCardSnoc(card: seq<EntryRow>, c: nat, i: nat)
    requires i < |card|
    ensures KeyedCard(card[..i + 1], c) ==
      KeyedCard(card[..i], c) + (if Trim(card[i].name) != "" then [(Lower(Trim(card[i].name)), RowRef(c, i))] else [])
  {
    assert card[..i + 1][..i] == card[..i];
  }

  /** One more card files its entries after those of the earlier cards. */
  lemma KeyedSnoc(rows: seq<seq<EntryRow>>, c: nat)
    requires c < |rows|
    ensures Keyed(rows[..c + 1]) == Keyed(rows[..c]) + KeyedCard(rows[c], c)
  {
    assert rows[..c + 1][..c] == rows[..c];
  }

  /** Filing one more entry of a card is one `map.set`, or nothing when
      its trimmed name is blank. */
  lemma FileStep(ps: seq<(string, RowRef)>, card: seq<EntryRow>, c: nat, i: nat)
    requires i < |card|
    ensures var key := Trim(card[i].name);
      var before := BuildMap(ps + KeyedCard(card[..i], c));
      BuildMap(ps + KeyedCard(card[..i + 1], c)) ==
        if key != "" then MapSet(before, Lower(key), RowRef(c, i)) else before
  {
    KeyedCardSnoc(card, c, i);
    var key := Trim(card[i].name);
    var k0, k1 := KeyedCard(card[..i], c), KeyedCard(card[..i + 1], c);
    if key != "" {
      BuildMapAppend(ps, k0, k1, (Lower(key), RowRef(c, i)));
    } else {
      assert k1 == k0 + [] == k0;
    }
  }

  /** A pair added after `ps + k0` is one more `map.set`. */
  lemma BuildMapAppend(ps: seq<(string, RowRef)>, k0: seq<(string, RowRef)>, k1: seq<(string, RowRef)>, p: (string, RowRef))
    requires k1 == k0 + [p]
    ensures BuildMap(ps + k1) == MapSet(BuildMap(ps + k0), p.0, p.1)
  {
    assert ps + k1 == (ps + k0) + [p];
    BuildMapSnoc(ps + k0, p);
  }

  /** The inner `forEach`: files the entries of card `c` after the pairs
      `ps` already in the map. */
  method FileCard(m0: ModelMap, ps: seq<(string, RowRef)>, card: seq<EntryRow>, c: nat) returns (m: ModelMap)
    requires m0 == BuildMap(ps)
    ensures m == BuildMap(ps + KeyedCard(card, c))
  {
    m := m0;
    var i := 0;
    assert ps + KeyedCard(card[..0], c) == ps;
    while i < |card|
      invariant 0 <= i <= |card|
      invariant m == BuildMap(ps + KeyedCard(card[..i], c))
    {
      var key := Trim(card[i].name);
      FileStep(ps, card, c, i);
      if key != "" {
        m := MapSet(m, Lower(key), RowRef(c, i));
      }
      i := i + 1;
    }
    assert card[..|card|] == card;
  }

  /** The `forEach` that files every entry with a non-blank name under its
      trimmed, lower-cased name. */
  method BuildModelMap(rows: seq<seq<EntryRow>>) returns (m: ModelMap)
    ensures m == ModelMapOf(rows)
  {
    m := [];
    var c := 0;
    while c < |rows|
      invariant 0 <= c <= |rows|
      invariant m == BuildMap(Keyed(rows[..c]))
    {
      m := FileCard(m, Keyed(rows[..c]), rows[c], c);
      KeyedSnoc(rows, c);
      c := c + 1;
    }
    assert rows[..|rows|] == rows;
  }

  /** Two card lists with the same number of entries in each card. */
  predicate SameShape(a: seq<seq<EntryRow>>, b: seq<seq<EntryRow>>) {
    |a| == |b| && forall c :: 0 <= c < |a| ==> |a[c]| == |b[c]|
  }

  /** The outcome of one URL: the entries, whether it matched and updated
      an entry, and whether that entry's URL badge was invalid. */
  datatype Step = Step(rows: seq<seq<EntryRow>>, updated: bool, wasError: bool)

  /** The entry at `ref` with its URL field set to `u` and its URL badge
      recomputed; every other entry as it was. */
  function WithUrl(rows: seq<seq<EntryRow>>, ref: RowRef, u: string): (r: seq<seq<EntryRow>>)
    requires ref.card < |rows| && ref.row < |rows[ref.card]|
    ensures SameShape(rows, r)
    ensures var row := rows[ref.card][ref.row];
      r[ref.card][ref.row] == row.(url := u, urlOk := UrlValid(u, row.boundName))
    ensures forall c, i :: 0 <= c < |rows| && 0 <= i < |rows[c]| && (c, i) != (ref.card, ref.row) ==>
      r[c][i] == rows[c][i]
  {
    var row := rows[ref.card][ref.row];
    rows[ref.card := rows[ref.card][ref.row := row.(url := u, urlOk := UrlValid(u, row.boundName))]]
  }

  /** The entry, if any, a URL is matched to. */
  function MatchOf(m: ModelMap, u: string): (r: Option<RowRef>)
    ensures r.Some? ==> exists j :: 0 <= j < |m| && m[j].1 == r.value
  {
    var f := FileNameFromUrl(u);
    if f == "" then None else FindMatch(f, m)
  }

  /** One iteration of the URL loop of `matchAndFillModelLinks`: the URL
      field of the matched entry is overwritten when it is blank, its badge
      is invalid, or its trimmed value differs from the URL, and its badge
      is recomputed against the name the entry was created with. */
  function FillOne(rows: seq<seq<EntryRow>>, m: ModelMap, u: string): (s: Step)
    requires RefsValid(m, rows)
    ensures SameShape(rows, s.rows)
    ensures s.wasError ==> s.updated
    ensures !s.updated ==> s.rows == rows
    ensures MatchOf(m, u).None? ==> !s.updated
    ensures MatchOf(m, u).Some? ==>
      var ref := MatchOf(m, u).value;
      var row := rows[ref.card][ref.row];
      && (s.updated <==> !row.urlOk || Trim(row.url) != u)
      && (s.updated ==> s.rows == WithUrl(rows, ref, u) && s.wasError == !row.urlOk)
  {
    MatchedUrlNotEmpty(m, u);
    match MatchOf(m, u)
    case None => Step(rows, false, false)
    case Some(ref) =>
      var row := rows[ref.card][ref.row];
      var isEmpty := Trim(row.url) == "";
      var isError := !row.urlOk;
      if isEmpty || isError || Trim(row.url) != u then Step(WithUrl(rows, ref, u), true, isError)
      else Step(rows, false, false)
  }

  /** A URL that matches an entry is not empty, so a blank URL field
      always differs from it. */
  lemma MatchedUrlNotEmpty(m: ModelMap, u: string)
    ensures MatchOf(m, u).Some? ==> u != ""
  {
    if u == "" {
      assert TakeBefore(u, {'?', '#'}) == "";
    }
  }

  /** Pasting the same link twice: once the matched entry holds a URL
      that is valid for its bound name and has no surrounding white space,
      the second paste fills and counts nothing. */
  lemma RefillIsNoop(rows: seq<seq<EntryRow>>, m: ModelMap, u: string)
    requires RefsValid(m, rows) && MatchOf(m, u).Some? && Trim(u) == u
    requires var ref := MatchOf(m, u).value;
      UrlValid(u, rows[ref.card][ref.row].boundName)
    ensures var s := FillOne(rows, m, u);
      RefsValid(m, s.rows) && FillOne(s.rows, m, u) == Step(s.rows, false, false)
  {
    var ref := MatchOf(m, u).value;
    var s := FillOne(rows, m, u);
    RefsSameShape(m, rows, s.rows);
    var before := rows[ref.card][ref.row];
    if s.updated {
      assert s.rows[ref.card][ref.row] == before.(url := u, urlOk := UrlValid(u, before.boundName));
    } else {
      assert s.rows[ref.card][ref.row] == before;
    }
    var after := s.rows[ref.card][ref.row];
    assert after.urlOk && Trim(after.url) == u;
    var s2 := FillOne(s.rows, m, u);
    assert !s2.updated;
  }

  /** The references of a map stay valid for entries of the same shape. */
  lemma RefsSameShape(m: ModelMap, a: seq<seq<EntryRow>>, b: seq<seq<EntryRow>>)
    requires RefsValid(m, a) && SameShape(a, b)
    ensures RefsValid(m, b)
  {
  }

  /** The result of the whole URL loop. */
  datatype Fill = Fill(rows: seq<seq<EntryRow>>, matched: nat, updatedErrors: nat)

  /** The URL loop of `matchAndFillModelLinks`, URL by URL, over a map built
      before the loop. */
  function FillAll(rows: seq<seq<EntryRow>>, m: ModelMap, urls: seq<string>): (r: Fill)
    requires RefsValid(m, rows)
    ensures SameShape(rows, r.rows)
    ensures r.updatedErrors <= r.matched <= |urls|
  {
    if |urls| == 0 then Fill(rows, 0, 0)
    else
      var p := FillAll(rows, m, urls[..|urls| - 1]);
      var s := FillOne(p.rows, m, urls[|urls| - 1]);
      Fill(s.rows, p.matched + (if s.updated then 1 else 0), p.updatedErrors + (if s.wasError then 1 else 0))
  }

  /** Filling changes URL fields only: names, directories and the fixed
      reference file and bound name stay, and a changed URL is one of the
      pasted URLs. Current badges stay current. */
  predicate OnlyUrlsFilled(a: seq<seq<EntryRow>>, b: seq<seq<EntryRow>>, urls: seq<string>)
    requires SameShape(a, b)
  {
    forall c, i :: 0 <= c < |a| && 0 <= i < |a[c]| ==>
      b[c][i].name == a[c][i].name && b[c][i].directory == a[c][i].directory
      && b[c][i].refFile == a[c][i].refFile && b[c][i].boundName == a[c][i].boundName
      && b[c][i].nameOk == a[c][i].nameOk
      && (b[c][i].url == a[c][i].url || b[c][i].url in urls)
  }

  predicate AllBadgesCurrent(rows: seq<seq<EntryRow>>) {
    forall c, i :: 0 <= c < |rows| && 0 <= i < |rows[c]| ==> BadgesCurrent(rows[c][i])
  }

  /** Setting one URL field changes only that field, to that URL, and
      keeps current badges current. */
  lemma WithUrlOnlyUrl(rows: seq<seq<EntryRow>>, ref: RowRef, u: string)
    requires ref.card < |rows| && ref.row < |rows[ref.card]|
    ensures OnlyUrlsFilled(rows, WithUrl(rows, ref, u), [u])
    ensures AllBadgesCurrent(rows) ==> AllBadgesCurrent(WithUrl(rows, ref, u))
  {
    var r: seq<seq<EntryRow>> := WithUrl(rows, ref, u);
    forall c: int, i: int | 0 <= c < |rows| && 0 <= i < |rows[c]|
      ensures r[c][i].name == rows[c][i].name && r[c][i].directory == rows[c][i].directory
        && r[c][i].refFile == rows[c][i].refFile && r[c][i].boundName == rows[c][i].boundName
        && r[c][i].nameOk == rows[c][i].nameOk && (r[c][i].url == rows[c][i].url || r[c][i].url in [u])
      ensures BadgesCurrent(rows[c][i]) ==> BadgesCurrent(r[c][i])
    {
      if (c, i) == (ref.card, ref.row) {
        assert r[c][i] == rows[c][i].(url := u, urlOk := UrlValid(u, rows[c][i].boundName));
      } else {
        assert r[c][i] == rows[c][i];
      }
    }
  }

  /** One URL changes at most the URL field of the matched entry, to that URL. */
  lemma FillOneOnlyUrl(rows: seq<seq<EntryRow>>, m: ModelMap, u: string)
    requires RefsValid(m, rows)
    ensures OnlyUrlsFilled(rows, FillOne(rows, m, u).rows, [u])
    ensures AllBadgesCurrent(rows) ==> AllBadgesCurrent(FillOne(rows, m, u).rows)
  {
    var s := FillOne(rows, m, u);
    if s.updated {
      var ref := MatchOf(m, u).value;
      assert s.rows == WithUrl(rows, ref, u);
      WithUrlOnlyUrl(rows, ref, u);
    } else {
      assert s.rows == rows;
    }
  }

  lemma OnlyUrlsFilledTrans(a: seq<seq<EntryRow>>, b: seq<seq<EntryRow>>, c: seq<seq<EntryRow>>,
                            us1: seq<string>, us2: seq<string>, us: seq<string>)
    requires SameShape(a, b) && SameShape(b, c)
    requires OnlyUrlsFilled(a, b, us1) && OnlyUrlsFilled(b, c, us2)
    requires forall u :: u in us1 ==> u in us
    requires forall u :: u in us2 ==> u in us
    ensures SameShape(a, c) && OnlyUrlsFilled(a, c, us)
  {
  }

  lemma {:induction false} FillAllOnlyUrls(rows: seq<seq<EntryRow>>, m: ModelMap, urls: seq<string>)
    requires RefsValid(m, rows)
    ensures OnlyUrlsFilled(rows, FillAll(rows, m, urls).rows, urls)
    ensures AllBadgesCurrent(rows) ==> AllBadgesCurrent(FillAll(rows, m, urls).rows)
  {
    if |urls| > 0 {
      var init := urls[..|urls| - 1];
      var u := urls[|urls| - 1];
      FillAllOnlyUrls(rows, m, init);
      var p := FillAll(rows, m, init);
      var s := FillOne(p.rows, m, u);
      assert FillAll(rows, m, urls).rows == s.rows;
      FillOneOnlyUrl(p.rows, m, u);
      OnlyUrlsFilledTrans(rows, p.rows, s.rows, init, [u], urls);
    }
  }

  /** With current badges a blank URL field is also an invalid one, so
      filling a blank field is counted as a repaired error link. */
  lemma BlankFillCountsAsError(rows: seq<seq<EntryRow>>, m: ModelMap, u: string, ref: RowRef)
    requires RefsValid(m, rows) && AllBadgesCurrent(rows)
    requires MatchOf(m, u) == Some(ref)
    requires IsBlank(rows[ref.card][ref.row].url)
    ensures FillOne(rows, m, u).updated && FillOne(rows, m, u).wasError
  {
    assert BadgesCurrent(rows[ref.card][ref.row]);
    TrimEmptyIffBlank(rows[ref.card][ref.row].url);
  }
}
