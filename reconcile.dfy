/** Reconciliation: the editable entries a node card starts with, built
    from the node's persisted models and its model files. An entry row
    holds what its three inputs show, the reference file its name is
    checked against, the name its URL is checked against, and the two
    badge decisions. */
module Reconcile {
  import opened Text
  import opened Workflow
  import opened Rules
  import opened Validate
  import opened Extract

  /** One rendered model entry. `refFile` is the file name the entry was
      created for and `boundName` the model name it was created with; both
      are fixed for the entry's lifetime, whatever is later typed. */
  datatype EntryRow = EntryRow(
    name: string,
    url: string,
    directory: string,
    refFile: string,
    boundName: string,
    nameOk: bool,
    urlOk: bool)

  /** Both badges show the decision for the row's current inputs. */
  predicate BadgesCurrent(r: EntryRow) {
    r.nameOk == NameValid(r.name, r.refFile) && r.urlOk == UrlValid(r.url, r.boundName)
  }

  /** `createModelEntry(nodeId, model, fileName)`: the inputs start from the
      model's fields and both badges are computed once. */
  function NewRow(m: ModelEntry, refFile: string): (r: EntryRow)
    ensures r.name == m.name && r.url == m.url && r.directory == m.directory
    ensures r.refFile == refFile && r.boundName == m.name
    ensures BadgesCurrent(r)
  {
    EntryRow(m.name, m.url, m.directory, refFile, m.name, NameValid(m.name, refFile), UrlValid(m.url, m.name))
  }

  /** The row "Add Model" appends: an empty model with the node type's
      directory, checked against no reference file, so both badges are off. */
  function BlankRow(dir: string): (r: EntryRow)
    ensures r.name == "" && r.url == "" && r.refFile == "" && r.boundName == ""
    ensures r.directory == dir && !r.nameOk && !r.urlOk
  {
    EntryRow("", "", dir, "", "", false, false)
  }

  /** The blank row is the row `createModelEntry` builds for an empty model,
      so its badges are current. */
  lemma BlankRowIsNew(dir: string)
    ensures BlankRow(dir) == NewRow(ModelEntry("", "", dir), "")
    ensures BadgesCurrent(BlankRow(dir))
  {
  }

  /** Some file of the list has `name` as its basename. */
  predicate HasBasename(files: seq<string>, name: string)
    ensures HasBasename(files, name) <==> exists k :: 0 <= k < |files| && Basename(files[k]) == name
  {
    |files| > 0 && (Basename(files[0]) == name || HasBasename(files[1..], name))
  }

  /** `getClosestFileName(modelName, modelFiles)`: the basename equal to the
      name if there is one, else the first file's basename; "" for an empty
      name or an empty list. */
  function ClosestFileName(name: string, files: seq<string>): (r: string)
    ensures name == "" || |files| == 0 ==> r == ""
    ensures name != "" && (exists k :: 0 <= k < |files| && Basename(files[k]) == name) ==> r == name
    ensures name != "" && |files| > 0 && (forall k :: 0 <= k < |files| ==> Basename(files[k]) != name)
      ==> r == Basename(files[0])
  {
    if name == "" || |files| == 0 then ""
    else if HasBasename(files, name) then name
    else Basename(files[0])
  }

  /** The closest file is always one of the files' basenames, or "". */
  lemma ClosestIsABasename(name: string, files: seq<string>)
    ensures var r := ClosestFileName(name, files);
      r == "" || exists k :: 0 <= k < |files| && Basename(files[k]) == r
  {
  }

  /** The names of the persisted entries. */
  function Names(ms: seq<ModelEntry>): (ns: seq<string>)
    ensures |ns| == |ms| && forall i :: 0 <= i < |ms| ==> ns[i] == ms[i].name
  {
    seq(|ms|, i requires 0 <= i < |ms| => ms[i].name)
  }

  /** The basenames of the model files, in order. */
  function Basenames(files: seq<string>): (bs: seq<string>)
    ensures |bs| == |files| && forall i :: 0 <= i < |files| ==> bs[i] == Basename(files[i])
  {
    seq(|files|, i requires 0 <= i < |files| => Basename(files[i]))
  }

  /** The basenames of the model files that no persisted entry names, in
      file order (a basename that occurs twice is kept twice). */
  function MissingFiles(files: seq<string>, names: seq<string>): (r: seq<string>)
    ensures forall k :: 0 <= k < |r| ==> r[k] !in names
  {
    if |files| == 0 then []
    else
      var init := MissingFiles(files[..|files| - 1], names);
      var b := Basename(files[|files| - 1]);
      if b in names then init else init + [b]
  }

  /** Every missing file is the basename of a model file. */
  lemma {:induction false} MissingFilesSound(files: seq<string>, names: seq<string>, r: seq<string>)
    requires r == MissingFiles(files, names)
    ensures forall k :: 0 <= k < |r| ==> exists j :: 0 <= j < |files| && Basename(files[j]) == r[k]
  {
    if |files| > 0 {
      var init := files[..|files| - 1];
      var m := MissingFiles(init, names);
      MissingFilesSound(init, names, m);
      var b := Basename(files[|files| - 1]);
      assert r == if b in names then m else m + [b];
      forall k | 0 <= k < |r|
        ensures exists j :: 0 <= j < |files| && Basename(files[j]) == r[k]
      {
        if k < |m| {
          var j :| 0 <= j < |init| && Basename(init[j]) == m[k];
          assert files[j] == init[j];
        } else {
          assert Basename(files[|files| - 1]) == r[k];
        }
      }
    }
  }

  /** No file basename is lost: each one either names a persisted entry or
      is among the missing files. */
  lemma {:induction false} MissingFilesComplete(files: seq<string>, names: seq<string>, j: nat)
    requires j < |files| && Basename(files[j]) !in names
    ensures Basename(files[j]) in MissingFiles(files, names)
  {
    var init := files[..|files| - 1];
    var m := MissingFiles(init, names);
    var b := Basename(files[|files| - 1]);
    assert MissingFiles(files, names) == if b in names then m else m + [b];
    if j < |files| - 1 {
      assert init[j] == files[j];
      MissingFilesComplete(init, names, j);
    }
  }

  /** One more file is one more basename. */
  lemma BasenamesSnoc(files: seq<string>)
    requires |files| > 0
    ensures Basenames(files) == Basenames(files[..|files| - 1]) + [Basename(files[|files| - 1])]
  {
    var init := files[..|files| - 1];
    var l, r := Basenames(files), Basenames(init) + [Basename(files[|files| - 1])];
    forall i | 0 <= i < |l|
      ensures l[i] == r[i]
    {
      if i < |init| {
        assert files[i] == init[i];
      }
    }
  }

  /** The missing files keep the order of the model files. */
  lemma {:induction false} MissingFilesInOrder(files: seq<string>, names: seq<string>)
    ensures IsSubsequence(MissingFiles(files, names), Basenames(files))
  {
    if |files| > 0 {
      var init := files[..|files| - 1];
      var b := Basename(files[|files| - 1]);
      MissingFilesInOrder(init, names);
      var m, bs := MissingFiles(init, names), Basenames(init);
      BasenamesSnoc(files);
      if b in names {
        assert MissingFiles(files, names) == m;
        SubsequenceExtend(m, bs, b);
      } else {
        assert MissingFiles(files, names) == m + [b];
        SubsequenceBoth(m, bs, b);
      }
    }
  }

  /** Each basename no persisted entry names is missing exactly as often
      as model files have it; a named one is never missing. */
  lemma {:induction false} MissingFilesCount(files: seq<string>, names: seq<string>, b: string)
    ensures multiset(MissingFiles(files, names))[b] ==
      if b in names then 0 else multiset(Basenames(files))[b]
  {
    if |files| == 0 {
      assert Basenames(files) == [];
    } else {
      var init := files[..|files| - 1];
      var last := Basename(files[|files| - 1]);
      var mi := MissingFiles(init, names);
      MissingFilesCount(init, names, b);
      BasenamesSnoc(files);
      AppendCount(Basenames(init), last, b);
      if last in names {
        assert MissingFiles(files, names) == mi;
      } else {
        assert MissingFiles(files, names) == mi + [last];
        AppendCount(mi, last, b);
      }
    }
  }

  /** Appending one string adds one to its own count and leaves the
      others. */
  lemma AppendCount(xs: seq<string>, x: string, b: string)
    ensures multiset(xs + [x])[b] == multiset(xs)[b] + if x == b then 1 else 0
  {
    assert multiset(xs + [x]) == multiset(xs) + multiset{x};
  }

  /** A fresh entry for each basename: named after it, no URL, the node
      type's directory, checked against that same basename. */
  function FreshRows(bs: seq<string>, dir: string): (rs: seq<EntryRow>)
    ensures |rs| == |bs|
    ensures forall i :: 0 <= i < |bs| ==> rs[i] == NewRow(ModelEntry(bs[i], "", dir), bs[i])
  {
    seq(|bs|, i requires 0 <= i < |bs| => NewRow(ModelEntry(bs[i], "", dir), bs[i]))
  }

  /** The persisted entries, each checked against its closest file. */
  function ExistingRows(ms: seq<ModelEntry>, files: seq<string>): (rs: seq<EntryRow>)
    ensures |rs| == |ms|
    ensures forall i :: 0 <= i < |ms| ==> rs[i] == NewRow(ms[i], ClosestFileName(ms[i].name, files))
  {
    seq(|ms|, i requires 0 <= i < |ms| => NewRow(ms[i], ClosestFileName(ms[i].name, files)))
  }

  /** The entry-building branch of `createNodeCard`: persisted entries first,
      then one fresh entry per model file nobody names; with no persisted
      entries, one fresh entry per model file. */
  function Rows(ctx: EditContext, rules: RuleTable): seq<EntryRow> {
    var dir := DirectoryFor(rules, ctx.nodeType);
    if |ctx.existing| > 0 then
      ExistingRows(ctx.existing, ctx.files) + FreshRows(MissingFiles(ctx.files, Names(ctx.existing)), dir)
    else FreshRows(Basenames(ctx.files), dir)
  }

  /** The persisted entries come first, unchanged and in order; every later
      entry is fresh: named after a model file no persisted entry names,
      with an empty URL and the node type's directory. */
  lemma {:induction false} RowsKeepExisting(ctx: EditContext, rules: RuleTable)
    requires |ctx.existing| > 0
    ensures var rs := Rows(ctx, rules);
      var m := MissingFiles(ctx.files, Names(ctx.existing));
      && |rs| == |ctx.existing| + |m|
      && (forall i :: 0 <= i < |ctx.existing| ==>
            ModelEntry(rs[i].name, rs[i].url, rs[i].directory) == ctx.existing[i])
      && (forall i :: |ctx.existing| <= i < |rs| ==>
            rs[i].name !in Names(ctx.existing) && rs[i].url == ""
            && rs[i].directory == DirectoryFor(rules, ctx.nodeType)
            && exists j :: 0 <= j < |ctx.files| && Basename(ctx.files[j]) == rs[i].name)
      && (forall i :: |ctx.existing| <= i < |rs| ==>
            rs[i].name == m[i - |ctx.existing|] && rs[i].refFile == rs[i].name)
  {
    var rs := Rows(ctx, rules);
    var e := ExistingRows(ctx.existing, ctx.files);
    var m := MissingFiles(ctx.files, Names(ctx.existing));
    var f := FreshRows(m, DirectoryFor(rules, ctx.nodeType));
    assert rs == e + f;
    MissingFilesSound(ctx.files, Names(ctx.existing), m);
    forall i | |ctx.existing| <= i < |rs|
      ensures rs[i].name !in Names(ctx.existing) && rs[i].url == ""
        && rs[i].directory == DirectoryFor(rules, ctx.nodeType)
        && exists j :: 0 <= j < |ctx.files| && Basename(ctx.files[j]) == rs[i].name
    {
      assert rs[i] == f[i - |e|];
    }
  }

  /** With no persisted entries there is exactly one fresh entry per model
      file, in file order. */
  lemma RowsWithoutExisting(ctx: EditContext, rules: RuleTable)
    requires |ctx.existing| == 0
    ensures var rs := Rows(ctx, rules);
      && |rs| == |ctx.files|
      && forall i :: 0 <= i < |rs| ==>
           rs[i].name == Basename(ctx.files[i]) && rs[i].url == "" && rs[i].refFile == rs[i].name
           && rs[i].directory == DirectoryFor(rules, ctx.nodeType)
  {
  }

  /** Where each entry of a card comes from. */
  lemma RowsParts(ctx: EditContext, rules: RuleTable)
    ensures |ctx.existing| > 0 ==>
      Rows(ctx, rules) == ExistingRows(ctx.existing, ctx.files) + FreshRows(MissingFiles(ctx.files, Names(ctx.existing)), DirectoryFor(rules, ctx.nodeType))
    ensures |ctx.existing| == 0 ==> Rows(ctx, rules) == FreshRows(Basenames(ctx.files), DirectoryFor(rules, ctx.nodeType))
  {
  }

  /** A name of a persisted entry is the name of an entry of the card. */
  lemma NamedByExisting(ms: seq<ModelEntry>, files: seq<string>, f: seq<EntryRow>, rs: seq<EntryRow>, b: string)
    requires rs == ExistingRows(ms, files) + f && b in Names(ms)
    ensures exists i :: 0 <= i < |rs| && rs[i].name == b
  {
    var names := Names(ms);
    var i :| 0 <= i < |names| && names[i] == b;
    assert rs[i] == ExistingRows(ms, files)[i];
  }

  /** A missing file is the name of a fresh entry of the card. */
  lemma NamedByFresh(e: seq<EntryRow>, m: seq<string>, dir: string, rs: seq<EntryRow>, b: string)
    requires rs == e + FreshRows(m, dir) && b in m
    ensures exists i :: 0 <= i < |rs| && rs[i].name == b
  {
    var k :| 0 <= k < |m| && m[k] == b;
    assert rs[|e| + k] == FreshRows(m, dir)[k];
  }

  /** Every model file ends up named by some entry. */
  lemma {:induction false} RowsCoverFiles(ctx: EditContext, rules: RuleTable, rs: seq<EntryRow>, j: nat)
    requires rs == Rows(ctx, rules) && j < |ctx.files|
    ensures exists i :: 0 <= i < |rs| && rs[i].name == Basename(ctx.files[j])
  {
    var b := Basename(ctx.files[j]);
    var dir := DirectoryFor(rules, ctx.nodeType);
    RowsParts(ctx, rules);
    if |ctx.existing| > 0 {
      var names := Names(ctx.existing);
      var m := MissingFiles(ctx.files, names);
      if b in names {
        NamedByExisting(ctx.existing, ctx.files, FreshRows(m, dir), rs, b);
      } else {
        MissingFilesComplete(ctx.files, names, j);
        NamedByFresh(ExistingRows(ctx.existing, ctx.files), m, dir, rs, b);
      }
    } else {
      assert rs[j] == FreshRows(Basenames(ctx.files), dir)[j];
    }
  }

  /** A new card's rows all show current badges. */
  lemma {:induction false} RowsBadgesCurrent(ctx: EditContext, rules: RuleTable)
    ensures forall i :: 0 <= i < |Rows(ctx, rules)| ==> BadgesCurrent(Rows(ctx, rules)[i])
  {
    var dir := DirectoryFor(rules, ctx.nodeType);
    RowsParts(ctx, rules);
    if |ctx.existing| > 0 {
      var e := ExistingRows(ctx.existing, ctx.files);
      var f := FreshRows(MissingFiles(ctx.files, Names(ctx.existing)), dir);
      ExistingBadges(ctx.existing, ctx.files, e);
      FreshBadges(MissingFiles(ctx.files, Names(ctx.existing)), dir, f);
      ConcatBadges(e, f, Rows(ctx, rules));
    } else {
      FreshBadges(Basenames(ctx.files), dir, Rows(ctx, rules));
    }
  }

  /** Fresh entries show current badges. */
  lemma FreshBadges(bs: seq<string>, dir: string, rs: seq<EntryRow>)
    requires rs == FreshRows(bs, dir)
    ensures forall i :: 0 <= i < |rs| ==> BadgesCurrent(rs[i])
  {
    forall i | 0 <= i < |rs|
      ensures BadgesCurrent(rs[i])
    {
      assert rs[i] == NewRow(ModelEntry(bs[i], "", dir), bs[i]);
    }
  }

  /** Persisted entries show current badges. */
  lemma ExistingBadges(ms: seq<ModelEntry>, files: seq<string>, rs: seq<EntryRow>)
    requires rs == ExistingRows(ms, files)
    ensures forall i :: 0 <= i < |rs| ==> BadgesCurrent(rs[i])
  {
    forall i | 0 <= i < |rs|
      ensures BadgesCurrent(rs[i])
    {
      assert rs[i] == NewRow(ms[i], ClosestFileName(ms[i].name, files));
    }
  }

  /** Two runs of entries with current badges, one after the other. */
  lemma ConcatBadges(e: seq<EntryRow>, f: seq<EntryRow>, rs: seq<EntryRow>)
    requires forall i :: 0 <= i < |e| ==> BadgesCurrent(e[i])
    requires forall i :: 0 <= i < |f| ==> BadgesCurrent(f[i])
    requires rs == e + f
    ensures forall i :: 0 <= i < |rs| ==> BadgesCurrent(rs[i])
  {
    forall i | 0 <= i < |rs|
      ensures BadgesCurrent(rs[i])
    {
      if i < |e| {
        assert rs[i] == e[i];
      } else {
        assert rs[i] == f[i - |e|];
      }
    }
  }

  /** An entry named exactly after a model file whose basename carries a
      model extension gets a valid name badge: it is checked against that
      same basename. */
  lemma {:induction false} SelfNamedRowValid(name: string, files: seq<string>)
    requires exists k :: 0 <= k < |files| && Basename(files[k]) == name
    requires name != "" && HasModelSuffix(name)
    ensures NameValid(name, ClosestFileName(name, files))
  {
    var k :| 0 <= k < |files| && Basename(files[k]) == name;
    assert forall i :: 0 <= i < |name| ==> !IsPathSeparator(name[i]);
    assert ClosestFileName(name, files) == name;
    assert Basename(name) == name by {
      AfterLastUnique(name, {'/', '\\'}, name);
    }
  }
}
