/** The two aggregate reports: the entry counters shown above the cards
    (`updateStats`), read from the rows' badges, and the document check
    (`validateAllModels`), read from the persisted models of the listed
    nodes. */
module Stats {
  import opened Text
  import opened Workflow
  import opened Validate
  import opened Extract
  import opened Reconcile

  /** Every entry of every card, in document order. */
  function Flatten(rows: seq<seq<EntryRow>>): (all: seq<EntryRow>)
    ensures |rows| == 0 ==> all == []
  {
    if |rows| == 0 then [] else Flatten(rows[..|rows| - 1]) + rows[|rows| - 1]
  }

  datatype Counts = Counts(total: nat, valid: nat, invalid: nat, errorUrl: nat, missingUrl: nat)

  function AddCounts(a: Counts, b: Counts): Counts {
    Counts(a.total + b.total, a.valid + b.valid, a.invalid + b.invalid,
           a.errorUrl + b.errorUrl, a.missingUrl + b.missingUrl)
  }

  /** The contribution of one entry: valid when both badges are valid;
      otherwise invalid, and also missing when the trimmed URL is empty, or
      erroneous when the URL badge is invalid. */
  function Classify(r: EntryRow): Counts {
    if r.nameOk && r.urlOk then Counts(1, 1, 0, 0, 0)
    else if Trim(r.url) == "" then Counts(1, 0, 1, 0, 1)
    else if !r.urlOk then Counts(1, 0, 1, 1, 0)
    else Counts(1, 0, 1, 0, 0)
  }

  /** The counters of a list of entries. */
  function Tally(rows: seq<EntryRow>): Counts {
    if |rows| == 0 then Counts(0, 0, 0, 0, 0)
    else AddCounts(Tally(rows[..|rows| - 1]), Classify(rows[|rows| - 1]))
  }

  /** One more entry adds its contribution. */
  lemma TallySnoc(rows: seq<EntryRow>, i: nat)
    requires i < |rows|
    ensures Tally(rows[..i + 1]) == AddCounts(Tally(rows[..i]), Classify(rows[i]))
  {
    assert rows[..i + 1][..i] == rows[..i];
  }

  /** `updateStats()`: one pass over the entries with five counters. */
  method UpdateStats(rows: seq<EntryRow>) returns (c: Counts)
    ensures c == Tally(rows)
  {
    var total, valid, invalid, errorUrl, missingUrl := 0, 0, 0, 0, 0;
    var i := 0;
    while i < |rows|
      invariant 0 <= i <= |rows|
      invariant Counts(total, valid, invalid, errorUrl, missingUrl) == Tally(rows[..i])
    {
      TallySnoc(rows, i);
      var r := rows[i];
      total := total + 1;
      var urlValue := Trim(r.url);
      if r.nameOk && r.urlOk {
        valid := valid + 1;
      } else {
        invalid := invalid + 1;
        if urlValue == "" {
          missingUrl := missingUrl + 1;
        } else if !r.urlOk {
          errorUrl := errorUrl + 1;
        }
      }
      i := i + 1;
    }
    assert rows[..|rows|] == rows;
    c := Counts(total, valid, invalid, errorUrl, missingUrl);
  }

  /** The number of entries with a property. */
  function CountWhere(rows: seq<EntryRow>, p: EntryRow -> bool): (n: nat)
    ensures n <= |rows|
  {
    if |rows| == 0 then 0
    else CountWhere(rows[..|rows| - 1], p) + (if p(rows[|rows| - 1]) then 1 else 0)
  }

  predicate BothValid(r: EntryRow) { r.nameOk && r.urlOk }
  predicate WrongUrl(r: EntryRow) { Trim(r.url) != "" && !r.urlOk }
  predicate NoUrlNotValid(r: EntryRow) { Trim(r.url) == "" && !(r.nameOk && r.urlOk) }
  predicate BlankUrl(r: EntryRow) { IsBlank(r.url) }

  /** Every entry is counted once, as valid or as invalid; the two URL
      buckets are disjoint parts of the invalid entries. */
  lemma {:induction false} TallyBalance(rows: seq<EntryRow>)
    ensures var c := Tally(rows);
      c.total == |rows| == c.valid + c.invalid && c.errorUrl + c.missingUrl <= c.invalid
  {
    if |rows| > 0 {
      TallyBalance(rows[..|rows| - 1]);
    }
  }

  /** What the counters mean: `valid` counts the entries with both badges
      valid, `errorUrl` those with a non-blank URL and an invalid URL
      badge, `missingUrl` the not-valid ones with a blank URL. */
  lemma {:induction false} TallyMeaning(rows: seq<EntryRow>)
    ensures Tally(rows).valid == CountWhere(rows, BothValid)
    ensures Tally(rows).errorUrl == CountWhere(rows, WrongUrl)
    ensures Tally(rows).missingUrl == CountWhere(rows, NoUrlNotValid)
  {
    if |rows| > 0 {
      TallyMeaning(rows[..|rows| - 1]);
    }
  }

  /** With current badges a blank URL is never valid, so `missingUrl` is
      exactly the number of entries whose URL is blank. */
  lemma {:induction false} MissingIsBlank(rows: seq<EntryRow>)
    requires forall i :: 0 <= i < |rows| ==> BadgesCurrent(rows[i])
    ensures Tally(rows).missingUrl == CountWhere(rows, BlankUrl)
  {
    if |rows| > 0 {
      var r := rows[|rows| - 1];
      MissingIsBlank(rows[..|rows| - 1]);
      TrimEmptyIffBlank(r.url);
      assert BadgesCurrent(r);
    }
  }

  /** The two URL buckets need not cover the invalid entries: an entry
      whose name badge is invalid but whose URL is non-blank and valid is in
      neither. */
  lemma NeitherBucket(r: EntryRow)
    requires BadgesCurrent(r) && !r.nameOk && r.urlOk
    ensures Tally([r]) == Counts(1, 0, 1, 0, 0)
  {
    TrimEmptyIffBlank(r.url);
    assert [r][..0] == [];
  }

  /** The document check's result (`validationStatus`). */
  datatype ValidationStatus = ValidationStatus(
    hasErrors: bool,
    hasWarnings: bool,
    missingLinks: nat,
    invalidLinks: nat,
    formatErrors: nat,
    urlMismatch: nat)

  const Reset := ValidationStatus(false, false, 0, 0, 0, 0)

  /** A model's name is one of the model files, or one of their basenames. */
  predicate NameInWidgets(name: string, files: seq<string>) {
    exists k :: 0 <= k < |files| && (Basename(files[k]) == name || files[k] == name)
  }

  /** The part of the name before its first `_`, `-` or `.`, once a model
      extension is dropped. */
  function NameBase(name: string): (b: string)
    ensures |b| <= |name|
    ensures forall i :: 0 <= i < |b| ==> b[i] !in {'_', '-', '.'}
  {
    TakeBefore(StripModelExtension(name), {'_', '-', '.'})
  }

  /** The URL names the model: it contains the full name, or a base name
      longer than three UTF-16 code units. */
  predicate UrlMentionsName(url: string, name: string) {
    Contains(url, name) || (Utf16Length(NameBase(name)) > 3 && Contains(url, NameBase(name)))
  }

  /** The checks on one persisted model of a listed node. */
  function CheckModel(st: ValidationStatus, m: ModelEntry, files: seq<string>): ValidationStatus {
    var st1 := if NameInWidgets(m.name, files) then st else st.(hasWarnings := true);
    var st2 := if HasModelSuffix(m.name) then st1
               else st1.(hasErrors := true, formatErrors := st1.formatErrors + 1);
    if IsBlank(m.url) then st2.(hasWarnings := true, missingLinks := st2.missingLinks + 1)
    else if !Contains(m.url, "http") then st2.(hasWarnings := true, invalidLinks := st2.invalidLinks + 1)
    else if UrlMentionsName(m.url, m.name) then st2
    else st2.(hasWarnings := true, urlMismatch := st2.urlMismatch + 1)
  }

  /** The checks on a node's models, in order. */
  function CheckModels(st: ValidationStatus, ms: seq<ModelEntry>, files: seq<string>): ValidationStatus {
    if |ms| == 0 then st else CheckModel(CheckModels(st, ms[..|ms| - 1], files), ms[|ms| - 1], files)
  }

  /** The model files that pass the extension test without a node type. */
  function ValidFileCount(files: seq<string>): (n: nat)
    ensures n <= |files|
  {
    if |files| == 0 then 0
    else
      var last := if IsValidModelExtension(files[|files| - 1], "", map[]) then 1 else 0;
      ValidFileCount(files[..|files| - 1]) + last
  }

  /** The checks on one context: unlisted types are skipped; a node with a
      models array is checked model by model after the count comparison; a
      node without one counts each valid model file as a missing link. */
  function CheckContext(st: ValidationStatus, ctx: EditContext, n: Node): ValidationStatus {
    if !ctx.inRules then st
    else
      var valid := ValidFileCount(ctx.files);
      if n.props.Some? && n.props.value.models.Some? then
        var ms := n.props.value.models.value;
        var st1 := if valid != |ms| then st.(hasWarnings := true) else st;
        CheckModels(st1, ms, ctx.files)
      else if valid > 0 then st.(hasWarnings := true, missingLinks := st.missingLinks + valid)
      else st
  }

  /** Every context refers to a node of the document. */
  predicate ContextsInRange(nodes: seq<Node>, contexts: seq<EditContext>) {
    forall c :: 0 <= c < |contexts| ==> contexts[c].nodeIndex < |nodes|
  }

  /** `validateAllModels()` as a specification: the checks of every context
      in order, each on the current state of its node. */
  function Validation(nodes: seq<Node>, contexts: seq<EditContext>): ValidationStatus
    requires ContextsInRange(nodes, contexts)
  {
    if |contexts| == 0 then Reset
    else
      var c := contexts[|contexts| - 1];
      CheckContext(Validation(nodes, contexts[..|contexts| - 1]), c, nodes[c.nodeIndex])
  }

  /** The count of model files with a valid extension, taken before a
      node's models are checked. */
  method CountValidFiles(files: seq<string>) returns (valid: nat)
    ensures valid == ValidFileCount(files)
  {
    valid := 0;
    var f := 0;
    while f < |files|
      invariant 0 <= f <= |files|
      invariant valid == ValidFileCount(files[..f])
    {
      assert files[..f + 1][..f] == files[..f];
      if IsValidModelExtension(files[f], "", map[]) {
        valid := valid + 1;
      }
      f := f + 1;
    }
    assert files[..|files|] == files;
  }

  /** The loop over a node's persisted models. */
  method CheckEachModel(st0: ValidationStatus, ms: seq<ModelEntry>, files: seq<string>) returns (st: ValidationStatus)
    ensures st == CheckModels(st0, ms, files)
  {
    st := st0;
    var k := 0;
    while k < |ms|
      invariant 0 <= k <= |ms|
      invariant st == CheckModels(st0, ms[..k], files)
    {
      assert ms[..k + 1][..k] == ms[..k];
      st := CheckModel(st, ms[k], files);
      k := k + 1;
    }
    assert ms[..|ms|] == ms;
  }

  /** The body of the loop of `validateAllModels()` for one context. */
  method CheckOneContext(st0: ValidationStatus, ctx: EditContext, node: Node) returns (st: ValidationStatus)
    ensures st == CheckContext(st0, ctx, node)
  {
    st := st0;
    if !ctx.inRules {
      return;
    }
    var valid := CountValidFiles(ctx.files);
    if node.props.Some? && node.props.value.models.Some? {
      var ms := node.props.value.models.value;
      if valid != |ms| {
        st := st.(hasWarnings := true);
      }
      st := CheckEachModel(st, ms, ctx.files);
    } else if valid > 0 {
      st := st.(hasWarnings := true, missingLinks := st.missingLinks + valid);
    }
  }

  /** `validateAllModels()`. */
  method ValidateAllModels(nodes: seq<Node>, contexts: seq<EditContext>) returns (st: ValidationStatus)
    requires ContextsInRange(nodes, contexts)
    ensures st == Validation(nodes, contexts)
  {
    st := Reset;
    var c := 0;
    while c < |contexts|
      invariant 0 <= c <= |contexts|
      invariant st == Validation(nodes, contexts[..c])
    {
      assert contexts[..c + 1][..c] == contexts[..c];
      var ctx := contexts[c];
      st := CheckOneContext(st, ctx, nodes[ctx.nodeIndex]);
      c := c + 1;
    }
    assert contexts[..|contexts|] == contexts;
  }

  /** The flags agree with the counters: errors exactly when a format error
      was counted, and a warning whenever a link was counted. */
  predicate Coherent(st: ValidationStatus) {
    (st.hasErrors <==> st.formatErrors > 0)
    && (st.missingLinks + st.invalidLinks + st.urlMismatch > 0 ==> st.hasWarnings)
  }

  /** One model's URL lands in at most one bucket; a blank URL is always a
      missing link; a mismatch is counted only for a URL that has "http"
      and mentions neither the name nor its base. Format errors grow by one
      exactly for a name without a model extension. The flags stay
      coherent. */
  lemma CheckModelEffect(st: ValidationStatus, m: ModelEntry, files: seq<string>)
    ensures var st' := CheckModel(st, m, files);
      && st'.missingLinks + st'.invalidLinks + st'.urlMismatch
         == st.missingLinks + st.invalidLinks + st.urlMismatch + (if IsBlank(m.url) || !Contains(m.url, "http") || !UrlMentionsName(m.url, m.name) then 1 else 0)
      && (IsBlank(m.url) ==> st'.missingLinks == st.missingLinks + 1)
      && (st'.urlMismatch > st.urlMismatch ==> Contains(m.url, "http") && !Contains(m.url, m.name))
      && st'.formatErrors == st.formatErrors + (if HasModelSuffix(m.name) then 0 else 1)
      && (Coherent(st) ==> Coherent(st'))
  {
  }

  lemma {:induction false} CheckModelsCoherent(st: ValidationStatus, ms: seq<ModelEntry>, files: seq<string>)
    requires Coherent(st)
    ensures Coherent(CheckModels(st, ms, files))
  {
    if |ms| > 0 {
      CheckModelsCoherent(st, ms[..|ms| - 1], files);
      CheckModelEffect(CheckModels(st, ms[..|ms| - 1], files), ms[|ms| - 1], files);
    }
  }

  /** The document check's flags always agree with its counters:
      `hasErrors` holds exactly when a format error was counted, and any
      counted link problem raises `hasWarnings`. */
  lemma {:induction false} ValidationCoherent(nodes: seq<Node>, contexts: seq<EditContext>)
    requires ContextsInRange(nodes, contexts)
    ensures Coherent(Validation(nodes, contexts))
  {
    if |contexts| > 0 {
      var init := contexts[..|contexts| - 1];
      ValidationCoherent(nodes, init);
      var c := contexts[|contexts| - 1];
      var st := Validation(nodes, init);
      var n := nodes[c.nodeIndex];
      if c.inRules && n.props.Some? && n.props.value.models.Some? {
        var st1 := if ValidFileCount(c.files) != |n.props.value.models.value| then st.(hasWarnings := true) else st;
        CheckModelsCoherent(st1, n.props.value.models.value, c.files);
      }
    }
  }

  /** Once raised, `hasWarnings` stays raised through a node's models. */
  lemma {:induction false} WarningsStay(st: ValidationStatus, ms: seq<ModelEntry>, files: seq<string>)
    requires st.hasWarnings
    ensures CheckModels(st, ms, files).hasWarnings
  {
    if |ms| > 0 {
      WarningsStay(st, ms[..|ms| - 1], files);
    }
  }

  /** A listed node whose models array is not as long as its count of
      valid model files raises a warning, whatever its models hold. */
  lemma CountMismatchWarns(st: ValidationStatus, ctx: EditContext, n: Node)
    requires ctx.inRules && n.props.Some? && n.props.value.models.Some?
    requires ValidFileCount(ctx.files) != |n.props.value.models.value|
    ensures CheckContext(st, ctx, n).hasWarnings
  {
    WarningsStay(st.(hasWarnings := true), n.props.value.models.value, ctx.files);
  }

  /** A listed node without a models array counts each valid model file as
      a missing link, warns when there is one, and changes nothing else. */
  lemma MissingLinksWithoutModels(st: ValidationStatus, ctx: EditContext, n: Node)
    requires ctx.inRules && !(n.props.Some? && n.props.value.models.Some?)
    ensures var r := CheckContext(st, ctx, n);
      && r.missingLinks == st.missingLinks + ValidFileCount(ctx.files)
      && r.hasWarnings == (st.hasWarnings || ValidFileCount(ctx.files) > 0)
      && r.hasErrors == st.hasErrors && r.formatErrors == st.formatErrors
      && r.invalidLinks == st.invalidLinks && r.urlMismatch == st.urlMismatch
  {
  }

  /** Nodes of unlisted types are never checked: with no listed context the
      report is the reset status. */
  lemma {:induction false} UnlistedNotChecked(nodes: seq<Node>, contexts: seq<EditContext>)
    requires ContextsInRange(nodes, contexts)
    requires forall c :: 0 <= c < |contexts| ==> !contexts[c].inRules
    ensures Validation(nodes, contexts) == Reset
  {
    if |contexts| > 0 {
      UnlistedNotChecked(nodes, contexts[..|contexts| - 1]);
    }
  }
}
