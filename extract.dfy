/** The model-reference extractor (`findNodesToEdit`): which nodes get an
    editing card, and which of their widget values are model files. */
module Extract {
  import opened Text
  import opened Workflow
  import opened Rules
  import opened Validate

  /** `a` occurs in `b` in order, possibly with gaps. */
  predicate IsSubsequence<T(==)>(a: seq<T>, b: seq<T>)
    decreases |b|
  {
    if a == [] then true
    else if b == [] then false
    else if a[|a| - 1] == b[|b| - 1] then IsSubsequence(a[..|a| - 1], b[..|b| - 1])
    else IsSubsequence(a, b[..|b| - 1])
  }

  lemma {:induction false} SubsequenceExtend<T>(a: seq<T>, b: seq<T>, y: T)
    requires IsSubsequence(a, b)
    ensures IsSubsequence(a, b + [y])
    decreases |a| + |b| + 1
  {
    assert (b + [y])[..|b|] == b;
    if a != [] && a[|a| - 1] == y {
      SubsequenceDropLast(a, b);
    }
  }

  lemma {:induction false} SubsequenceDropLast<T>(a: seq<T>, b: seq<T>)
    requires a != [] && IsSubsequence(a, b)
    ensures IsSubsequence(a[..|a| - 1], b)
    decreases |a| + |b|
  {
    var b' := b[..|b| - 1];
    assert b == b' + [b[|b| - 1]];
    if a[|a| - 1] == b[|b| - 1] {
      SubsequenceExtend(a[..|a| - 1], b', b[|b| - 1]);
    } else {
      SubsequenceDropLast(a, b');
      SubsequenceExtend(a[..|a| - 1], b', b[|b| - 1]);
    }
  }

  /** The same element appended to both keeps the order. */
  lemma SubsequenceBoth<T>(a: seq<T>, b: seq<T>, y: T)
    requires IsSubsequence(a, b)
    ensures IsSubsequence(a + [y], b + [y])
  {
    assert (a + [y])[..|a|] == a && (b + [y])[..|b|] == b;
  }

  /** The words the extractor refuses as file names, matched whole and
      ignoring case. */
  const Stoplist: seq<string> := [
    "default", "none", "empty", "null", "undefined", "clip",
    "checkpoint", "controlnet", "diffusers", "lora", "vae"]

  /** `w` is one of `words`. */
  predicate Listed(w: string, words: seq<string>)
    decreases |words|
  {
    |words| > 0 && (words[0] == w || Listed(w, words[1..]))
  }

  /** `containsDot && !/^(default|...|vae)$/i.test(value)`. */
  predicate LooksLikeFileName(v: string) {
    '.' in v && !Listed(Lower(v), Stoplist)
  }

  /** The test one widget string must pass to be a model file: it mentions a
      model extension anywhere, or the node type is listed and it looks like
      a non-blank file name. Empty strings are falsy and never kept. */
  predicate IsCandidate(v: string, inRules: bool) {
    v != "" && (MentionsModelExtension(v) || (inRules && LooksLikeFileName(v) && Trim(v) != ""))
  }

  /** The string elements of `widgets_values`, in order. */
  function StringValues(ws: seq<Widget>): seq<string> {
    if |ws| == 0 then []
    else StringValues(ws[..|ws| - 1]) + (if ws[|ws| - 1].Str? then [ws[|ws| - 1].s] else [])
  }

  /** The widget strings kept as model files, in widget order. */
  function Candidates(ws: seq<Widget>, inRules: bool): seq<string> {
    if |ws| == 0 then []
    else
      var last := ws[|ws| - 1];
      Candidates(ws[..|ws| - 1], inRules)
        + (if last.Str? && IsCandidate(last.s, inRules) then [last.s] else [])
  }

  /** The model files are the node's string widget values in their original
      order, with some left out and none repeated or invented. */
  lemma {:induction false} CandidatesInOrder(ws: seq<Widget>, inRules: bool)
    ensures IsSubsequence(Candidates(ws, inRules), StringValues(ws))
  {
    if |ws| > 0 {
      var init := ws[..|ws| - 1];
      var last := ws[|ws| - 1];
      CandidatesInOrder(init, inRules);
      var c, v := Candidates(init, inRules), StringValues(init);
      if last.Str? {
        assert StringValues(ws) == v + [last.s];
        if IsCandidate(last.s, inRules) {
          assert Candidates(ws, inRules) == c + [last.s];
          assert (c + [last.s])[..|c|] == c && (v + [last.s])[..|v|] == v;
        } else {
          assert Candidates(ws, inRules) == c;
          SubsequenceExtend(c, v, last.s);
        }
      } else {
        assert StringValues(ws) == v && Candidates(ws, inRules) == c;
      }
    }
  }

  /** Every model file is a string widget value of the node that passes the test. */
  lemma {:induction false} CandidatesSound(ws: seq<Widget>, inRules: bool, r: seq<string>)
    requires r == Candidates(ws, inRules)
    ensures forall k :: 0 <= k < |r| ==> IsCandidate(r[k], inRules) && Str(r[k]) in ws
  {
    if |ws| > 0 {
      var init := ws[..|ws| - 1];
      var c := Candidates(init, inRules);
      CandidatesSound(init, inRules, c);
      var last := ws[|ws| - 1];
      assert r == c + (if last.Str? && IsCandidate(last.s, inRules) then [last.s] else []);
      forall k | 0 <= k < |r|
        ensures IsCandidate(r[k], inRules) && Str(r[k]) in ws
      {
        if k < |c| {
          assert r[k] == c[k] && Str(c[k]) in init;
          var x :| 0 <= x < |init| && init[x] == Str(c[k]);
          assert ws[x] == init[x];
        } else {
          assert ws[|ws| - 1] == Str(r[k]);
        }
      }
    }
  }

  /** Every string widget value that passes the test is kept. */
  lemma {:induction false} CandidatesComplete(ws: seq<Widget>, inRules: bool, j: nat)
    requires j < |ws| && ws[j].Str? && IsCandidate(ws[j].s, inRules)
    ensures ws[j].s in Candidates(ws, inRules)
  {
    if j < |ws| - 1 {
      CandidatesComplete(ws[..|ws| - 1], inRules, j);
    }
  }

  /** No stoplist word contains a dot ... */
  lemma StoplistHasNoDots()
    ensures forall k :: 0 <= k < |Stoplist| ==> '.' !in Stoplist[k]
  {
  }

  /** A listed word is one of the list's elements. */
  lemma {:induction false} ListedIsElement(w: string, words: seq<string>)
    requires Listed(w, words)
    ensures w in words
    decreases |words|
  {
    if words[0] != w {
      ListedIsElement(w, words[1..]);
    }
  }

  /** ... so the anchored stoplist never rejects a dotted value. */
  lemma DottedNotStopword(v: string)
    requires '.' in v
    ensures !Listed(Lower(v), Stoplist)
  {
    var k :| 0 <= k < |v| && v[k] == '.';
    assert Lower(v)[k] == '.';
    StoplistHasNoDots();
    if Listed(Lower(v), Stoplist) {
      ListedIsElement(Lower(v), Stoplist);
    }
  }

  /** For a listed node type every non-blank dotted string is a model file. */
  lemma DottedIsCandidate(v: string)
    requires '.' in v && Trim(v) != ""
    ensures IsCandidate(v, true)
  {
    DottedNotStopword(v);
  }

  /** `properties.models` copied as the snapshot of existing entries. */
  function ExistingModels(n: Node): seq<ModelEntry> {
    if n.props.Some? && n.props.value.models.Some? then n.props.value.models.value else []
  }

  /** The per-node context (`NodeEditContext`): the node's position in the
      document, its id and type, its existing entries, its model files, the
      first file's basename and whether its type is listed. */
  datatype EditContext = EditContext(
    nodeIndex: nat,
    nodeId: int,
    nodeType: string,
    existing: seq<ModelEntry>,
    files: seq<string>,
    fileName: string,
    inRules: bool)

  /** The recovery branch for a listed type with no model file: the first
      widget value, if it is a non-blank dotted string. */
  function FallbackFile(ws: seq<Widget>, inRules: bool): Option<string> {
    if inRules && |ws| > 0 && ws[0].Str? && ws[0].s != "" && '.' in ws[0].s && Trim(ws[0].s) != ""
    then Some(ws[0].s)
    else None
  }

  /** The recovery branch is dead: whatever it would pick is already a
      model file, so it is reached only when it picks nothing. */
  lemma FallbackNeverFires(ws: seq<Widget>, inRules: bool)
    requires Candidates(ws, inRules) == []
    ensures FallbackFile(ws, inRules) == None
  {
    if FallbackFile(ws, inRules).Some? {
      DottedIsCandidate(ws[0].s);
      CandidatesComplete(ws, inRules, 0);
    }
  }

  /** The decision for the node at position `i`. */
  function ContextOf(i: nat, n: Node, rules: RuleTable): (r: Option<EditContext>)
    ensures r.Some? ==> r.value.nodeIndex == i && r.value.nodeId == n.id
  {
    if n.widgets.None? || !IsModelLoader(n) then None
    else
      var ws := n.widgets.value;
      var inRules := InRules(rules, n.nodeType);
      var files := Candidates(ws, inRules);
      if |files| > 0 then
        Some(EditContext(i, n.id, n.nodeType, ExistingModels(n), files, Basename(files[0]), inRules))
      else match FallbackFile(ws, inRules)
        case Some(f) => Some(EditContext(i, n.id, n.nodeType, ExistingModels(n), [f], Basename(f), inRules))
        case None => None
  }

  /** What a context promises about its node: the node has an array of
      widget values and a truthy search name, and its model files are a
      non-empty, in-order selection of that node's string values. */
  lemma ContextFacts(i: nat, n: Node, rules: RuleTable)
    requires ContextOf(i, n, rules).Some?
    ensures var c := ContextOf(i, n, rules).value;
      && c.nodeType == n.nodeType
      && n.widgets.Some? && IsModelLoader(n)
      && c.inRules == InRules(rules, n.nodeType)
      && c.files == Candidates(n.widgets.value, c.inRules)
      && |c.files| > 0
      && c.fileName == Basename(c.files[0])
      && IsSubsequence(c.files, StringValues(n.widgets.value))
      && c.existing == ExistingModels(n)
  {
    var ws := n.widgets.value;
    var inRules := InRules(rules, n.nodeType);
    if Candidates(ws, inRules) == [] {
      FallbackNeverFires(ws, inRules);
    }
    CandidatesInOrder(ws, inRules);
  }

  /** The per-node decisions for a document, position by position. */
  function Decisions(nodes: seq<Node>, rules: RuleTable): (ds: seq<Option<EditContext>>)
    ensures |ds| == |nodes|
    ensures forall i :: 0 <= i < |ds| ==> ds[i] == ContextOf(i, nodes[i], rules)
  {
    seq(|nodes|, i requires 0 <= i < |nodes| => ContextOf(i, nodes[i], rules))
  }

  /** The contexts among the decisions, in order. */
  function Chosen(ds: seq<Option<EditContext>>): seq<EditContext> {
    if |ds| == 0 then []
    else match ds[|ds| - 1]
      case None => Chosen(ds[..|ds| - 1])
      case Some(c) => Chosen(ds[..|ds| - 1]) + [c]
  }

  /** `findNodesToEdit(nodes)` as a specification: one context per
      qualifying node, in document order. */
  function Extract(nodes: seq<Node>, rules: RuleTable): seq<EditContext> {
    Chosen(Decisions(nodes, rules))
  }

  /** Every decision names its own position. */
  predicate SelfIndexed(ds: seq<Option<EditContext>>) {
    forall i :: 0 <= i < |ds| && ds[i].Some? ==> ds[i].value.nodeIndex == i
  }

  /** `r` lists the contexts of `ds`, each taken from its position, in
      position order, none skipped. */
  predicate Lists(ds: seq<Option<EditContext>>, r: seq<EditContext>) {
    && (forall k :: 0 <= k < |r| ==> r[k].nodeIndex < |ds| && ds[r[k].nodeIndex] == Some(r[k]))
    && (forall k, l :: 0 <= k < l < |r| ==> r[k].nodeIndex < r[l].nodeIndex)
    && (forall i :: 0 <= i < |ds| && ds[i].Some? ==> exists k :: 0 <= k < |r| && r[k].nodeIndex == i)
  }

  /** A last decision without a context adds nothing to the list. */
  lemma ListedNone(ds: seq<Option<EditContext>>, r: seq<EditContext>)
    requires |ds| > 0 && ds[|ds| - 1].None? && Lists(ds[..|ds| - 1], r)
    ensures Lists(ds, r)
  {
    var init := ds[..|ds| - 1];
    forall k | 0 <= k < |r|
      ensures r[k].nodeIndex < |ds| && ds[r[k].nodeIndex] == Some(r[k])
    {
      assert init[r[k].nodeIndex] == ds[r[k].nodeIndex];
    }
    forall i | 0 <= i < |ds| && ds[i].Some?
      ensures exists k :: 0 <= k < |r| && r[k].nodeIndex == i
    {
      assert init[i] == ds[i];
    }
  }

  /** A last decision with a context adds that context at the end. */
  lemma ListedSome(ds: seq<Option<EditContext>>, prefix: seq<EditContext>, c: EditContext)
    requires |ds| > 0 && ds[|ds| - 1] == Some(c) && c.nodeIndex == |ds| - 1
    requires Lists(ds[..|ds| - 1], prefix)
    ensures Lists(ds, prefix + [c])
  {
    var init := ds[..|ds| - 1];
    var r := prefix + [c];
    forall k | 0 <= k < |r|
      ensures r[k].nodeIndex < |ds| && ds[r[k].nodeIndex] == Some(r[k])
    {
      if k < |prefix| {
        assert r[k] == prefix[k];
        assert init[prefix[k].nodeIndex] == ds[prefix[k].nodeIndex];
      }
    }
    forall k, l | 0 <= k < l < |r|
      ensures r[k].nodeIndex < r[l].nodeIndex
    {
      assert r[k] == prefix[k];
      if l < |prefix| {
        assert r[l] == prefix[l];
      }
    }
    forall i | 0 <= i < |ds| && ds[i].Some?
      ensures exists k :: 0 <= k < |r| && r[k].nodeIndex == i
    {
      if i == |ds| - 1 {
        assert r[|prefix|].nodeIndex == i;
      } else {
        assert init[i] == ds[i];
        var k :| 0 <= k < |prefix| && prefix[k].nodeIndex == i;
        assert r[k] == prefix[k];
      }
    }
  }

  /** Decisions that name their own position come out in position order,
      each one taken from its position, none skipped. */
  lemma {:induction false} ChosenShape(ds: seq<Option<EditContext>>)
    requires SelfIndexed(ds)
    ensures Lists(ds, Chosen(ds))
  {
    if |ds| > 0 {
      var init := ds[..|ds| - 1];
      assert SelfIndexed(init) by {
        forall i | 0 <= i < |init| && init[i].Some?
          ensures init[i].value.nodeIndex == i
        {
          assert init[i] == ds[i];
        }
      }
      ChosenShape(init);
      match ds[|ds| - 1]
      case None =>
        ListedNone(ds, Chosen(init));
      case Some(c) =>
        ListedSome(ds, Chosen(init), c);
    }
  }

  /** Every context belongs to the node it names, the contexts follow
      document order, and no qualifying node is skipped. */
  lemma ExtractShape(nodes: seq<Node>, rules: RuleTable)
    ensures var r := Extract(nodes, rules);
      && (forall k :: 0 <= k < |r| ==>
            r[k].nodeIndex < |nodes| && ContextOf(r[k].nodeIndex, nodes[r[k].nodeIndex], rules) == Some(r[k]))
      && (forall k, l :: 0 <= k < l < |r| ==> r[k].nodeIndex < r[l].nodeIndex)
      && (forall i :: 0 <= i < |nodes| && ContextOf(i, nodes[i], rules).Some? ==>
            exists k :: 0 <= k < |r| && r[k].nodeIndex == i)
  {
    ChosenShape(Decisions(nodes, rules));
  }

  /** Extending the document by one node extends the result by that node's
      context, if it has one. */
  lemma ExtractSnoc(nodes: seq<Node>, rules: RuleTable, i: nat)
    requires i < |nodes|
    ensures Extract(nodes[..i + 1], rules)
         == Extract(nodes[..i], rules) + (match ContextOf(i, nodes[i], rules)
                                            case None => []
                                            case Some(c) => [c])
  {
    var ds := Decisions(nodes[..i + 1], rules);
    assert ds[..i] == Decisions(nodes[..i], rules);
  }

  /** One more widget extends the model files by that widget's value when
      it passes the test. */
  lemma CandidatesSnoc(ws: seq<Widget>, inRules: bool, j: nat)
    requires j < |ws|
    ensures Candidates(ws[..j + 1], inRules)
         == Candidates(ws[..j], inRules)
            + (if ws[j].Str? && IsCandidate(ws[j].s, inRules) then [ws[j].s] else [])
  {
    assert ws[..j + 1][..j] == ws[..j];
  }

  /** The decision for a model loader, once its model files are known. */
  lemma ContextOfLoader(i: nat, n: Node, rules: RuleTable, files: seq<string>)
    requires n.widgets.Some? && IsModelLoader(n)
    requires files == Candidates(n.widgets.value, InRules(rules, n.nodeType))
    ensures var inRules := InRules(rules, n.nodeType);
      ContextOf(i, n, rules)
      == if |files| > 0 then
           Some(EditContext(i, n.id, n.nodeType, ExistingModels(n), files, Basename(files[0]), inRules))
         else match FallbackFile(n.widgets.value, inRules)
           case Some(f) => Some(EditContext(i, n.id, n.nodeType, ExistingModels(n), [f], Basename(f), inRules))
           case None => None
  {
  }

  /** The inner scan of `findNodesToEdit`: the `widgets_values.forEach`
      that collects the model files of one node. */
  method ModelFiles(ws: seq<Widget>, inRules: bool) returns (modelFiles: seq<string>)
    ensures modelFiles == Candidates(ws, inRules)
  {
    modelFiles := [];
    var j := 0;
    while j < |ws|
      invariant 0 <= j <= |ws|
      invariant modelFiles == Candidates(ws[..j], inRules)
    {
      CandidatesSnoc(ws, inRules, j);
      if ws[j].Str? && ws[j].s != "" {
        var value := ws[j].s;
        var containsDot := '.' in value;
        var lower := Lower(value);
        var hasValidExt := Contains(lower, ".safetensors") || Contains(lower, ".sft");
        var isValidFileName := containsDot && !Listed(lower, Stoplist);
        assert IsCandidate(value, inRules) <==> hasValidExt || (inRules && isValidFileName && Trim(value) != "");
        if hasValidExt {
          modelFiles := modelFiles + [value];
        } else if inRules && isValidFileName && Trim(value) != "" {
          modelFiles := modelFiles + [value];
        }
      }
      j := j + 1;
    }
    assert ws[..|ws|] == ws;
  }

  /** The body of the node scan of `findNodesToEdit` for the node at `i`:
      the context it pushes, if any. */
  method NodeContext(i: nat, node: Node, rules: RuleTable) returns (ctx: Option<EditContext>)
    ensures ctx == ContextOf(i, node, rules)
  {
    if node.widgets.None? || node.props.None? || node.props.value.searchName == "" {
      return None;
    }
    var inRules := node.nodeType != "" && node.nodeType in rules;
    var ws := node.widgets.value;
    var modelFiles := ModelFiles(ws, inRules);
    ContextOfLoader(i, node, rules, modelFiles);
    var existing := if node.props.value.models.Some? then node.props.value.models.value else [];
    ctx := None;
    if |modelFiles| > 0 {
      ctx := Some(EditContext(i, node.id, node.nodeType, existing, modelFiles, Basename(modelFiles[0]), inRules));
    } else if inRules && |ws| > 0 {
      var first := ws[0];
      if first.Str? && first.s != "" && '.' in first.s && Trim(first.s) != "" {
        ctx := Some(EditContext(i, node.id, node.nodeType, existing, [first.s], Basename(first.s), inRules));
      }
    }
  }

  /** `findNodesToEdit`: one scan over the nodes, one over each node's widget values. */
  method FindNodesToEdit(nodes: seq<Node>, rules: RuleTable) returns (result: seq<EditContext>)
    ensures result == Extract(nodes, rules)
  {
    result := [];
    var i := 0;
    while i < |nodes|
      invariant 0 <= i <= |nodes|
      invariant result == Extract(nodes[..i], rules)
    {
      ExtractSnoc(nodes, rules, i);
      var ctx := NodeContext(i, nodes[i], rules);
      if ctx.Some? {
        result := result + [ctx.value];
      }
      i := i + 1;
    }
    assert nodes[..|nodes|] == nodes;
  }
}
