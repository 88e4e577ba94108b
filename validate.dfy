/** The field validators: the model-file extension rule, the check that an
    entry's name fits the file it was created for, and the check that an
    entry's URL ends in exactly that name. Each is the decision a badge shows;
    the badge itself is presentation. */
module Validate {
  import opened Text
  import opened Rules

  /** `p.toLowerCase().endsWith(".safetensors") || ....endsWith(".sft")`. */
  predicate HasModelSuffix(path: string) {
    EndsWith(Lower(path), ".safetensors") || EndsWith(Lower(path), ".sft")
  }

  /** The extractor's weaker test: the extension occurs anywhere (`includes`). */
  predicate MentionsModelExtension(value: string) {
    Contains(Lower(value), ".safetensors") || Contains(Lower(value), ".sft")
  }

  /** `isValidModelExtension(filePath, nodeType)`: an empty path is never
      valid; a node type listed in the rule table makes any path valid;
      otherwise the lower-cased path must end in a model extension. */
  function IsValidModelExtension(path: string, nodeType: string, rules: RuleTable): (ok: bool)
    ensures path == "" ==> !ok
    ensures path != "" && InRules(rules, nodeType) ==> ok
    ensures !InRules(rules, nodeType) ==> (ok <==> path != "" && HasModelSuffix(path))
  {
    if path == "" then false
    else if InRules(rules, nodeType) then true
    else HasModelSuffix(path)
  }

  /** Every path the validator accepts by extension is one the extractor
      also picks up by its substring test. */
  lemma SuffixIsMention(path: string)
    requires HasModelSuffix(path)
    ensures MentionsModelExtension(path)
  {
    if EndsWith(Lower(path), ".safetensors") {
      EndsWithContains(Lower(path), ".safetensors");
    } else {
      EndsWithContains(Lower(path), ".sft");
    }
  }

  /** The converse fails: an extension in the middle passes the substring
      test only. */
  lemma MentionIsNotSuffix()
    ensures MentionsModelExtension("a.sft.bak") && !HasModelSuffix("a.sft.bak")
    ensures !IsValidModelExtension("a.sft.bak", "", map[])
  {
    assert Lower("a.sft.bak") == "a.sft.bak";
    assert "a.sft.bak"[1..5] == ".sft";
    ContainsAt("a.sft.bak", ".sft", 1);
  }

  /** The extension rule on the built-in table: a checkpoint loader is
      trusted with any extension, a bare ".ckpt" path is not. */
  lemma ExtensionRuleExamples()
    ensures IsValidModelExtension("foo.safetensors", "", DefaultRules)
    ensures !IsValidModelExtension("foo.ckpt", "", DefaultRules)
    ensures IsValidModelExtension("foo.ckpt", "CheckpointLoaderSimple", DefaultRules)
  {
    assert Lower("foo.safetensors") == "foo.safetensors";
    assert Lower("foo.ckpt") == "foo.ckpt";
  }

  /** `s.replace(/\.(safetensors|sft)$/i, "")`: drop one trailing model
      extension, in any letter case. A string with no dot is returned as is. */
  function StripModelExtension(s: string): (r: string)
    ensures |r| <= |s| && r == s[..|r|]
    ensures (forall i :: 0 <= i < |s| ==> s[i] != '.') ==> r == s
    ensures !HasModelSuffix(s) ==> r == s
  {
    if EndsWith(Lower(s), ".safetensors") then
      assert Lower(s)[|s| - 12] == '.';
      s[..|s| - 12]
    else if EndsWith(Lower(s), ".sft") then
      assert Lower(s)[|s| - 4] == '.';
      s[..|s| - 4]
    else s
  }

  /** Name normalisation: lower-case, then drop every `-`, `_` and `.`. */
  function NormalizedName(s: string): string {
    RemoveSeparators(Lower(s))
  }

  /** The reference file's normalisation: basename, lower-case, separators
      dropped, and only THEN the extension strip, which therefore never
      finds a dot to match. */
  function NormalizedFileName(fileName: string): string {
    StripModelExtension(RemoveSeparators(Lower(Basename(fileName))))
  }

  /** Equal, or one contains the other. */
  predicate Overlap(a: string, b: string) {
    a == b || Contains(a, b) || Contains(b, a)
  }

  /** The decision of `updateNameValidation(inputValue, fileName)`. */
  function NameValid(name: string, fileName: string): (ok: bool)
    ensures name == "" ==> !ok
    ensures !HasModelSuffix(fileName) ==> !ok
    ensures name != "" && HasModelSuffix(fileName) ==>
      (ok <==> Overlap(NormalizedName(name), RemoveSeparators(Lower(Basename(fileName)))))
  {
    var plain := RemoveSeparators(Lower(Basename(fileName)));
    assert forall i :: 0 <= i < |plain| ==> plain[i] != '.';
    assert NormalizedFileName(fileName) == plain;
    if name == "" then false
    else if !IsValidModelExtension(fileName, "", map[]) then false
    else Overlap(NormalizedName(name), NormalizedFileName(fileName))
  }

  /** The normalised form of the extension itself. */
  lemma NormalizedExtension()
    ensures RemoveSeparators(".safetensors") == "safetensors"
    ensures NormalizedName("safetensors") == "safetensors"
  {
    assert ".safetensors" == "." + "safetensors";
    RemoveSeparatorsConcat(".", "safetensors");
    RemoveSeparatorsId("safetensors");
    LowerId("safetensors");
  }

  /** A folder-free `stem.safetensors` is its own basename, ends in a model
      extension, and normalises to the stem's form followed by "safetensors". */
  lemma {:induction false} NormalizedSafetensorsFile(stem: string)
    requires forall i :: 0 <= i < |stem| ==> !IsPathSeparator(stem[i])
    ensures HasModelSuffix(stem + ".safetensors")
    ensures RemoveSeparators(Lower(Basename(stem + ".safetensors")))
         == RemoveSeparators(Lower(stem)) + "safetensors"
  {
    var f := stem + ".safetensors";
    AfterLastUnique(f, {'/', '\\'}, f);
    LowerConcat(stem, ".safetensors");
    LowerId(".safetensors");
    EndsWithConcat(Lower(stem), ".safetensors");
    RemoveSeparatorsConcat(Lower(stem), ".safetensors");
    NormalizedExtension();
  }

  /** Because the extension survives normalisation, the bare word
      "safetensors" passes the name check against every `.safetensors` file. */
  lemma {:induction false} ExtensionWordMatchesAnyFile(stem: string)
    requires forall i :: 0 <= i < |stem| ==> !IsPathSeparator(stem[i])
    ensures EndsWith(RemoveSeparators(Lower(Basename(stem + ".safetensors"))), "safetensors")
    ensures NameValid("safetensors", stem + ".safetensors")
  {
    NormalizedSafetensorsFile(stem);
    var n := RemoveSeparators(Lower(stem)) + "safetensors";
    EndsWithConcat(RemoveSeparators(Lower(stem)), "safetensors");
    EndsWithContains(n, "safetensors");
    NormalizedExtension();
  }

  /** Lower-casing neither creates nor removes separators. */
  lemma {:induction false} NormalizedPlain(s: string)
    requires forall i :: 0 <= i < |s| ==> s[i] !in {'-', '_', '.'}
    ensures NormalizedName(s) == Lower(s)
  {
    RemoveSeparatorsId(Lower(s));
  }

  /** Joining two separator-free parts with a separator normalises to the
      parts run together. */
  lemma {:induction false} NormalizedJoin(a: string, sep: char, b: string)
    requires sep in {'-', '_', '.'}
    requires forall i :: 0 <= i < |a| ==> a[i] !in {'-', '_', '.'}
    requires forall i :: 0 <= i < |b| ==> b[i] !in {'-', '_', '.'}
    ensures NormalizedName(a + [sep] + b) == Lower(a) + Lower(b)
  {
    LowerConcat(a + [sep], b);
    LowerConcat(a, [sep]);
    assert Lower([sep]) == [sep];
    RemoveSeparatorsConcat(Lower(a) + [sep], Lower(b));
    RemoveSeparatorsConcat(Lower(a), [sep]);
    assert RemoveSeparators([sep]) == [] by {
      assert [sep][..0] == [];
    }
    NormalizedPlain(a);
    NormalizedPlain(b);
  }

  /** A name that differs from its file only in separators and extension is
      accepted; "flux_dev" against "flux-dev.safetensors" is one instance. */
  lemma {:induction false} SeparatorInsensitiveName(a: string, b: string)
    requires forall i :: 0 <= i < |a| ==> a[i] !in {'-', '_', '.', '/', '\\'}
    requires forall i :: 0 <= i < |b| ==> b[i] !in {'-', '_', '.', '/', '\\'}
    ensures NameValid(a + "_" + b, a + "-" + b + ".safetensors")
  {
    var stem := a + "-" + b;
    NormalizedSafetensorsFile(stem);
    NormalizedJoin(a, '-', b);
    NormalizedJoin(a, '_', b);
    var x := Lower(a) + Lower(b);
    ContainsInfix("", x, "safetensors");
    assert "" + x + "safetensors" == x + "safetensors";
  }

  /** `url.split("?")[0].split("/").pop()`. */
  function UrlFileName(url: string): string {
    AfterLast(TakeBefore(url, {'?'}), {'/'})
  }

  /** The decision of `validateModelUrl(url, name)`: a blank URL is invalid;
      otherwise the URL's file name must equal the name exactly. */
  function UrlValid(url: string, name: string): (ok: bool)
    ensures IsBlank(url) ==> !ok
    ensures !IsBlank(url) ==> (ok <==> UrlFileName(url) == name)
  {
    TrimEmptyIffBlank(url);
    if Trim(url) == "" then false else UrlFileName(url) == name
  }

  /** A URL built as `base/name?query` validates against `name`. */
  lemma {:induction false} UrlValidRoundTrip(base: string, name: string, query: string)
    requires forall i :: 0 <= i < |base| ==> base[i] != '?'
    requires forall i :: 0 <= i < |name| ==> name[i] != '?' && name[i] != '/'
    requires query == "" || query[0] == '?'
    ensures UrlValid(base + "/" + name + query, name)
  {
    var u := base + "/" + name + query;
    var p := base + "/" + name;
    assert u == p + query;
    TakeBeforeUnique(u, {'?'}, p);
    assert p[|p| - |name|..] == name;
    AfterLastUnique(p, {'/'}, name);
    assert !IsSpace(u[|base|]);
  }

  /** Conversely, a valid URL's text before `?` ends in the name, and the
      name holds neither `/` nor `?`. */
  lemma UrlValidShape(url: string, name: string)
    requires UrlValid(url, name)
    ensures EndsWith(TakeBefore(url, {'?'}), name)
    ensures forall i :: 0 <= i < |name| ==> name[i] != '?' && name[i] != '/'
  {
  }

  /** The URL check accepts only the exact name: for a URL `base/name`,
      any other name, such as one that differs only in letter case, is
      invalid. */
  lemma UrlValidOnlyExactName(base: string, name: string, other: string)
    requires forall i :: 0 <= i < |base| ==> base[i] != '?'
    requires forall i :: 0 <= i < |name| ==> name[i] != '?' && name[i] != '/'
    ensures UrlValid(base + "/" + name, other) <==> other == name
  {
    UrlValidRoundTrip(base, name, "");
    assert base + "/" + name + "" == base + "/" + name;
  }
}
