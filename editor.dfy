/** The editor's state and its event handlers: the loaded document, the
    rule table, the edited nodes found in the document and the entry rows
    of their cards, changed in place by each handler. */
module Editor {
  import opened Text
  import opened Workflow
  import opened Rules
  import opened Validate
  import opened Extract
  import opened Reconcile
  import opened Stats
  import opened Bulk
  import opened WriteBack

  /** The first position of `x` in `s` (`Array.prototype.indexOf`). */
  function IndexOf<T(==)>(s: seq<T>, x: T): (r: Option<nat>)
    ensures r.Some? ==> r.value < |s| && s[r.value] == x && forall j :: 0 <= j < r.value ==> s[j] != x
    ensures r.None? <==> x !in s
  {
    if |s| == 0 then None
    else if s[0] == x then Some(0)
    else match IndexOf(s[1..], x)
      case None => None
      case Some(i) => Some(i + 1)
  }

  /** The first context showing node `id` (`nodesToEdit.find`). */
  function FirstContext(contexts: seq<EditContext>, id: int): (r: Option<nat>)
    ensures r.Some? ==> r.value < |contexts| && contexts[r.value].nodeId == id
    ensures r.Some? ==> forall d :: 0 <= d < r.value ==> contexts[d].nodeId != id
    ensures r.None? ==> forall d :: 0 <= d < |contexts| ==> contexts[d].nodeId != id
  {
    if |contexts| == 0 then None
    else if contexts[0].nodeId == id then Some(0)
    else match FirstContext(contexts[1..], id)
      case None => None
      case Some(i) => Some(i + 1)
  }

  /** The first card showing node `id` that has an entry: where the
      selector for the first entry of that node's entry list lands. */
  function FirstCardWithRows(contexts: seq<EditContext>, rows: seq<seq<EntryRow>>, id: int): (r: Option<nat>)
    requires |rows| == |contexts|
    ensures r.Some? ==> r.value < |contexts| && contexts[r.value].nodeId == id && |rows[r.value]| > 0
    ensures r.Some? ==> forall d :: 0 <= d < r.value ==> contexts[d].nodeId != id || |rows[d]| == 0
    ensures r.None? ==> forall d :: 0 <= d < |contexts| ==> contexts[d].nodeId != id || |rows[d]| == 0
  {
    if |contexts| == 0 then None
    else if contexts[0].nodeId == id && |rows[0]| > 0 then Some(0)
    else match FirstCardWithRows(contexts[1..], rows[1..], id)
      case None => None
      case Some(i) => Some(i + 1)
  }

  /** `x` first occurs in `s` at `i`. */
  predicate FirstAt<T(==)>(s: seq<T>, x: T, i: int) {
    0 <= i < |s| && s[i] == x && forall j :: 0 <= j < i ==> s[j] != x
  }

  /** The widget values with the first value equal to the string `a`
      replaced by `b`, or nothing when no value equals `a`. */
  function ReplaceFirst(ws: seq<Widget>, a: string, b: string): (r: Option<seq<Widget>>)
    ensures r.None? <==> Str(a) !in ws
    ensures r.Some? ==> |r.value| == |ws|
    ensures r.Some? ==> exists i :: FirstAt(ws, Str(a), i) && r.value == ws[i := Str(b)]
  {
    match IndexOf(ws, Str(a))
    case None => None
    case Some(i) =>
      assert FirstAt(ws, Str(a), i);
      Some(ws[i := Str(b)])
  }

  /** Putting the old value back undoes a replacement, provided the new
      value did not already occur. */
  lemma ReplaceFirstRoundTrip(ws: seq<Widget>, a: string, b: string)
    requires Str(a) in ws && Str(b) !in ws
    ensures ReplaceFirst(ReplaceFirst(ws, a, b).value, b, a) == Some(ws)
  {
    var i := IndexOf(ws, Str(a)).value;
    var once := ws[i := Str(b)];
    assert ReplaceFirst(ws, a, b) == Some(once);
    assert IndexOf(once, Str(b)) == Some(i) by {
      assert once[i] == Str(b);
      forall j | 0 <= j < i
        ensures once[j] != Str(b)
      {
        assert once[j] == ws[j] && ws[j] in ws;
      }
    }
    assert once[i := Str(a)] == ws;
  }

  /** Where a widget edit lands in the document: the index of the first
      node with the id and its new widget values, when some widget value
      equals the old value. */
  function WidgetTarget(nodes: seq<Node>, id: int, a: string, b: string): Option<(nat, seq<Widget>)> {
    match FindById(nodes, id)
    case None => None
    case Some(j) =>
      if nodes[j].widgets.None? then None
      else match ReplaceFirst(nodes[j].widgets.value, a, b)
        case None => None
        case Some(ws) => Some((j, ws))
  }

  /** The position of `a` in the file list of the first context showing
      node `id`, with that context. */
  function FileTarget(contexts: seq<EditContext>, id: int, a: string): (r: Option<(nat, nat)>)
    ensures r.Some? ==> r.value.0 < |contexts| && r.value.1 < |contexts[r.value.0].files|
    ensures r.Some? ==>
      FirstContext(contexts, id) == Some(r.value.0) && FirstAt(contexts[r.value.0].files, a, r.value.1)
    ensures r.None? ==>
      FirstContext(contexts, id).None? || a !in contexts[FirstContext(contexts, id).value].files
  {
    match FirstContext(contexts, id)
    case None => None
    case Some(k) =>
      match IndexOf(contexts[k].files, a)
      case None => None
      case Some(x) => Some((k, x))
  }

  /** The contexts after a widget edit: the first occurrence of `a` in the
      file list of the first context of node `id` becomes `b`. */
  function FilesAfter(contexts: seq<EditContext>, id: int, a: string, b: string): (r: seq<EditContext>)
    ensures |r| == |contexts|
    ensures forall c :: 0 <= c < |r| ==>
      r[c].nodeIndex == contexts[c].nodeIndex && r[c].nodeId == contexts[c].nodeId
      && r[c].nodeType == contexts[c].nodeType && |r[c].files| == |contexts[c].files|
    ensures FileTarget(contexts, id, a).None? ==> r == contexts
    ensures FileTarget(contexts, id, a).Some? ==>
      var (k, x) := FileTarget(contexts, id, a).value;
      && FirstAt(contexts[k].files, a, x)
      && r[k].files == contexts[k].files[x := b]
      && forall c :: 0 <= c < |r| && c != k ==> r[c] == contexts[c]
  {
    match FileTarget(contexts, id, a)
    case None => contexts
    case Some((k, x)) => contexts[k := contexts[k].(files := contexts[k].files[x := b])]
  }

  /** Whether a widget edit renames the first entry of node `id`: the main
      file changed and that entry is named after the old file's basename. */
  predicate RenamesFirstEntry(contexts: seq<EditContext>, rows: seq<seq<EntryRow>>, id: int, a: string)
    requires |rows| == |contexts|
  {
    match FileTarget(contexts, id, a)
    case None => false
    case Some((_, x)) =>
      x == 0 && match FirstCardWithRows(contexts, rows, id)
        case None => false
        case Some(d) => rows[d][0].name == Basename(a)
  }

  /** The rows after a widget edit: the renamed first entry gets the new
      basename and its name badge is recomputed against its unchanged
      reference file. */
  function RowsAfter(contexts: seq<EditContext>, rows: seq<seq<EntryRow>>, id: int, a: string, b: string): (r: seq<seq<EntryRow>>)
    requires |rows| == |contexts|
    ensures SameShape(rows, r)
    ensures !RenamesFirstEntry(contexts, rows, id, a) ==> r == rows
  {
    if RenamesFirstEntry(contexts, rows, id, a) then
      var d := FirstCardWithRows(contexts, rows, id).value;
      var e := rows[d][0];
      var n := Basename(b);
      rows[d := rows[d][0 := e.(name := n, nameOk := NameValid(n, e.refFile))]]
    else rows
  }

  /** Whether a widget edit writes the document back: the edited node's
      first card has entries (each is re-dispatched), or an entry was
      renamed. */
  predicate WidgetEditWritesBack(contexts: seq<EditContext>, rows: seq<seq<EntryRow>>, id: int, a: string)
    requires |rows| == |contexts|
  {
    match FileTarget(contexts, id, a)
    case None => false
    case Some((k, _)) => |rows[k]| > 0 || RenamesFirstEntry(contexts, rows, id, a)
  }

  /** Renaming the first entry keeps every badge current. */
  lemma RowsAfterBadges(contexts: seq<EditContext>, rows: seq<seq<EntryRow>>, id: int, a: string, b: string)
    requires |rows| == |contexts| && AllBadgesCurrent(rows)
    ensures AllBadgesCurrent(RowsAfter(contexts, rows, id, a, b))
  {
    if RenamesFirstEntry(contexts, rows, id, a) {
      var d := FirstCardWithRows(contexts, rows, id).value;
      var e := rows[d][0];
      var n := Basename(b);
      var card := rows[d][0 := e.(name := n, nameOk := NameValid(n, e.refFile))];
      assert BadgesCurrent(e);
      CardBadges(rows, d, card);
    }
  }

  /** Replacing one card by a card whose badges are current keeps every
      badge current. */
  lemma CardBadges(rows: seq<seq<EntryRow>>, c: nat, card: seq<EntryRow>)
    requires AllBadgesCurrent(rows) && c < |rows|
    requires forall i :: 0 <= i < |card| ==> BadgesCurrent(card[i])
    ensures AllBadgesCurrent(rows[c := card])
  {
  }

  /** The renamed entry is the first entry of the first non-empty card of
      the node, it carries the new basename, and no other entry changes. */
  lemma RowsAfterRenames(contexts: seq<EditContext>, rows: seq<seq<EntryRow>>, id: int, a: string, b: string)
    requires |rows| == |contexts| && RenamesFirstEntry(contexts, rows, id, a)
    ensures var d := FirstCardWithRows(contexts, rows, id).value;
      var r := RowsAfter(contexts, rows, id, a, b);
      && r[d][0].name == Basename(b)
      && (forall c, i :: 0 <= c < |rows| && 0 <= i < |rows[c]| && (c, i) != (d, 0) ==> r[c][i] == rows[c][i])
  {
    var d := FirstCardWithRows(contexts, rows, id).value;
    var e := rows[d][0];
    var n := Basename(b);
    var card := rows[d][0 := e.(name := n, nameOk := NameValid(n, e.refFile))];
    var r := RowsAfter(contexts, rows, id, a, b);
    assert r == rows[d := card];
    forall c, i | 0 <= c < |rows| && 0 <= i < |rows[c]| && (c, i) != (d, 0)
      ensures r[c][i] == rows[c][i]
    {
      if c == d {
        assert card[i] == rows[d][i];
      }
    }
  }

  /** Every card belongs to a node of the document with its id, has a main
      model file, and every badge shows the decision for its row. */
  predicate Consistent(nodes: seq<Node>, contexts: seq<EditContext>, rows: seq<seq<EntryRow>>) {
    && |rows| == |contexts|
    && ContextsInRange(nodes, contexts)
    && (forall c :: 0 <= c < |contexts| ==>
          nodes[contexts[c].nodeIndex].id == contexts[c].nodeId && |contexts[c].files| > 0)
    && AllBadgesCurrent(rows)
  }

  /** The cards `createNodeCard` builds, one per context, in order. */
  method BuildCards(found: seq<EditContext>, rules: RuleTable) returns (cards: seq<seq<EntryRow>>)
    ensures |cards| == |found| && forall c :: 0 <= c < |found| ==> cards[c] == Rows(found[c], rules)
  {
    cards := [];
    var c := 0;
    while c < |found|
      invariant 0 <= c <= |found|
      invariant |cards| == c
      invariant forall d :: 0 <= d < c ==> cards[d] == Rows(found[d], rules)
    {
      CardsSnoc(found, rules, cards, c);
      cards := cards + [Rows(found[c], rules)];
      c := c + 1;
    }
  }

  /** One more card keeps the cards built so far. */
  lemma CardsSnoc(found: seq<EditContext>, rules: RuleTable, cards: seq<seq<EntryRow>>, c: nat)
    requires c < |found| && |cards| == c
    requires forall d :: 0 <= d < c ==> cards[d] == Rows(found[d], rules)
    ensures forall d :: 0 <= d < c + 1 ==> (cards + [Rows(found[c], rules)])[d] == Rows(found[d], rules)
  {
    var next := cards + [Rows(found[c], rules)];
    forall d | 0 <= d < c + 1
      ensures next[d] == Rows(found[d], rules)
    {
      if d < c {
        assert next[d] == cards[d];
      }
    }
  }

  /** A freshly loaded document and its cards form a consistent editor. */
  lemma LoadedConsistent(doc: seq<Node>, rules: RuleTable, found: seq<EditContext>, cards: seq<seq<EntryRow>>)
    requires found == Extract.Extract(doc, rules)
    requires |cards| == |found| && forall c :: 0 <= c < |found| ==> cards[c] == Rows(found[c], rules)
    ensures Consistent(doc, found, cards)
  {
    ExtractShape(doc, rules);
    forall d | 0 <= d < |found|
      ensures doc[found[d].nodeIndex].id == found[d].nodeId && |found[d].files| > 0
    {
      ContextFacts(found[d].nodeIndex, doc[found[d].nodeIndex], rules);
    }
    forall d | 0 <= d < |found|
      ensures forall i :: 0 <= i < |cards[d]| ==> BadgesCurrent(cards[d][i])
    {
      RowsBadgesCurrent(found[d], rules);
    }
  }

  /** A write-back keeps the editor consistent. */
  lemma WriteBackConsistent(nodes: seq<Node>, contexts: seq<EditContext>, rows: seq<seq<EntryRow>>)
    requires Consistent(nodes, contexts, rows)
    ensures Consistent(WriteBackAll(nodes, contexts, rows), contexts, rows)
  {
  }

  /** New rows for the same cards, all with current badges, keep the
      editor consistent. */
  lemma RowsConsistent(nodes: seq<Node>, contexts: seq<EditContext>, rows: seq<seq<EntryRow>>, rows': seq<seq<EntryRow>>)
    requires Consistent(nodes, contexts, rows) && |rows'| == |rows| && AllBadgesCurrent(rows')
    ensures Consistent(nodes, contexts, rows')
  {
  }

  /** Removing one element keeps a property every element had. */
  lemma RemovedKeeps<T>(s: seq<T>, i: nat, r: seq<T>, P: T -> bool)
    requires i < |s| && r == s[..i] + s[i + 1..]
    requires forall k :: 0 <= k < |s| ==> P(s[k])
    ensures forall k :: 0 <= k < |r| ==> P(r[k])
  {
    forall k | 0 <= k < |r|
      ensures P(r[k])
    {
      assert r[k] == s[if k < i then k else k + 1];
    }
  }

  /** Removing an entry keeps the other entries' badges. */
  lemma RemovedBadges(card: seq<EntryRow>, i: nat, r: seq<EntryRow>)
    requires i < |card| && forall e :: 0 <= e < |card| ==> BadgesCurrent(card[e])
    requires r == card[..i] + card[i + 1..]
    ensures forall e :: 0 <= e < |r| ==> BadgesCurrent(r[e])
  {
    RemovedKeeps(card, i, r, BadgesCurrent);
  }

  /** Replacing one entry by an entry with current badges keeps every
      badge of the card current. */
  lemma ReplacedBadges(card: seq<EntryRow>, i: nat, e: EntryRow, r: seq<EntryRow>)
    requires i < |card| && forall k :: 0 <= k < |card| ==> BadgesCurrent(card[k])
    requires BadgesCurrent(e) && r == card[i := e]
    ensures forall k :: 0 <= k < |r| ==> BadgesCurrent(r[k])
  {
  }

  /** Appending an entry with current badges keeps every badge of the
      card current. */
  lemma AppendedBadges(card: seq<EntryRow>, e: EntryRow, r: seq<EntryRow>)
    requires forall k :: 0 <= k < |card| ==> BadgesCurrent(card[k])
    requires BadgesCurrent(e) && r == card + [e]
    ensures forall k :: 0 <= k < |r| ==> BadgesCurrent(r[k])
  {
    forall k | 0 <= k < |r|
      ensures BadgesCurrent(r[k])
    {
      if k < |card| {
        assert r[k] == card[k];
      }
    }
  }

  /** Appending an entry with current badges to one card of a consistent
      editor leaves it consistent. */
  lemma AddedConsistent(nodes: seq<Node>, contexts: seq<EditContext>, rows: seq<seq<EntryRow>>,
                        c: nat, e: EntryRow, rows': seq<seq<EntryRow>>)
    requires Consistent(nodes, contexts, rows) && c < |rows| && BadgesCurrent(e)
    requires rows' == rows[c := rows[c] + [e]]
    ensures Consistent(nodes, contexts, rows')
  {
    AppendedBadges(rows[c], e, rows[c] + [e]);
    CardBadges(rows, c, rows[c] + [e]);
    RowsConsistent(nodes, contexts, rows, rows');
  }

  /** Appending the blank row of "Add Model" keeps the editor consistent. */
  lemma AddedBlankConsistent(nodes: seq<Node>, contexts: seq<EditContext>, rows: seq<seq<EntryRow>>,
                             c: nat, dir: string, rows': seq<seq<EntryRow>>)
    requires Consistent(nodes, contexts, rows) && c < |rows|
    requires rows' == rows[c := rows[c] + [BlankRow(dir)]]
    ensures Consistent(nodes, contexts, rows')
  {
    BlankRowIsNew(dir);
    AddedConsistent(nodes, contexts, rows, c, BlankRow(dir), rows');
  }

  /** Filling links into a consistent editor keeps it consistent, whether
      the document is then written back or not. */
  lemma FilledConsistent(nodes: seq<Node>, contexts: seq<EditContext>, rows: seq<seq<EntryRow>>,
                         m: ModelMap, urls: seq<string>, rs: seq<seq<EntryRow>>, ns: seq<Node>)
    requires Consistent(nodes, contexts, rows) && RefsValid(m, rows)
    requires rs == FillAll(rows, m, urls).rows && |rs| == |contexts|
    requires ns == nodes || ns == WriteBackAll(nodes, contexts, rs)
    ensures Consistent(ns, contexts, rs)
  {
    FillAllOnlyUrls(rows, m, urls);
    RowsConsistent(nodes, contexts, rows, rs);
    WriteBackConsistent(nodes, contexts, rs);
  }

  /** Editing one entry of a consistent editor into an entry with current
      badges, then writing back, leaves the editor consistent. */
  lemma EditedConsistent(nodes: seq<Node>, contexts: seq<EditContext>, rows: seq<seq<EntryRow>>,
                         c: nat, i: nat, e: EntryRow, rows': seq<seq<EntryRow>>, ns: seq<Node>)
    requires Consistent(nodes, contexts, rows) && c < |rows| && i < |rows[c]| && BadgesCurrent(e)
    requires rows' == rows[c := rows[c][i := e]]
    requires ns == WriteBackAll(nodes, contexts, rows')
    ensures Consistent(ns, contexts, rows')
  {
    ReplacedBadges(rows[c], i, e, rows[c][i := e]);
    CardBadges(rows, c, rows[c][i := e]);
    RowsConsistent(nodes, contexts, rows, rows');
    WriteBackConsistent(nodes, contexts, rows');
  }

  /** A widget edit keeps the editor consistent: node ids, card ids, file
      counts and badges all survive it. */
  lemma WidgetEditConsistent(nodes: seq<Node>, contexts: seq<EditContext>, rows: seq<seq<EntryRow>>,
                             j: nat, ws: seq<Widget>, id: int, a: string, b: string)
    requires Consistent(nodes, contexts, rows) && j < |nodes|
    ensures Consistent(nodes[j := nodes[j].(widgets := Some(ws))], FilesAfter(contexts, id, a, b), RowsAfter(contexts, rows, id, a, b))
  {
    RowsAfterBadges(contexts, rows, id, a, b);
  }

  /** The loop of `updateWidgetsValue` over the widget values: the first
      value equal to `a` becomes `b`. */
  method ReplaceWidget(ws0: seq<Widget>, a: string, b: string) returns (updated: bool, ws: seq<Widget>)
    ensures updated <==> Str(a) in ws0
    ensures updated ==> Some(ws) == ReplaceFirst(ws0, a, b)
    ensures !updated ==> ws == ws0
  {
    ws := ws0;
    updated := false;
    var i := 0;
    while i < |ws|
      invariant 0 <= i <= |ws| == |ws0|
      invariant !updated ==> ws == ws0 && forall k :: 0 <= k < i ==> ws0[k] != Str(a)
      invariant updated ==> Str(a) in ws0 && Some(ws) == ReplaceFirst(ws0, a, b)
    {
      if ws[i] == Str(a) {
        ws := ws[i := Str(b)];
        updated := true;
        assert IndexOf(ws0, Str(a)) == Some(i);
        break;
      }
      i := i + 1;
    }
  }

  /** Re-dispatching the name input of an entry whose badge is current
      leaves the entry as it is. */
  lemma RedispatchName(rows: seq<seq<EntryRow>>, k: nat, i: nat)
    requires k < |rows| && i < |rows[k]| && BadgesCurrent(rows[k][i])
    ensures var e := rows[k][i];
      rows[k := rows[k][i := e.(nameOk := NameValid(e.name, e.refFile))]] == rows
  {
    var e := rows[k][i];
    assert e.(nameOk := NameValid(e.name, e.refFile)) == e;
    assert rows[k][i := e] == rows[k];
  }

  /** The name inputs of card `k` dispatched one by one after a widget
      edit: each dispatch recomputes a badge that is already current and
      writes the document back. */
  method ReEnterCard(nodes: seq<Node>, contexts: seq<EditContext>, rows: seq<seq<EntryRow>>, k: nat) returns (ns: seq<Node>)
    requires |rows| == |contexts| && k < |rows| && AllBadgesCurrent(rows)
    ensures ns == if |rows[k]| > 0 then WriteBackAll(nodes, contexts, rows) else nodes
  {
    ns := nodes;
    var rs: seq<seq<EntryRow>> := rows;
    var i := 0;
    while i < |rs[k]|
      invariant rs == rows
      invariant 0 <= i <= |rows[k]|
      invariant ns == if i > 0 then WriteBackAll(nodes, contexts, rows) else nodes
    {
      var e: EntryRow := rs[k][i];
      RedispatchName(rs, k, i);
      rs := rs[k := rs[k][i := e.(nameOk := NameValid(e.name, e.refFile))]];
      ns := UpdateNodes(ns, contexts, rs);
      if i > 0 {
        WriteBackIdempotent(nodes, contexts, rows);
      }
      i := i + 1;
    }
  }

  /** The part of `updateWidgetsValue` after the node's widget value was
      replaced: the first card of the node follows in its file list, its
      name inputs are re-dispatched, and, when the main file changed, a
      first entry named after the old file is renamed after the new one. */
  method FollowEdit(edited: seq<Node>, contexts: seq<EditContext>, rows: seq<seq<EntryRow>>, id: int, a: string, b: string)
    returns (ns: seq<Node>, cs: seq<EditContext>, rs: seq<seq<EntryRow>>)
    requires |rows| == |contexts| && AllBadgesCurrent(rows)
    ensures cs == FilesAfter(contexts, id, a, b)
    ensures rs == RowsAfter(contexts, rows, id, a, b)
    ensures ns == if WidgetEditWritesBack(contexts, rows, id, a) then WriteBackAll(edited, cs, rs) else edited
  {
    ns, cs, rs := edited, contexts, rows;
    var first := FirstContext(contexts, id);
    if first.None? {
      return;
    }
    var k := first.value;
    var index := IndexOf(contexts[k].files, a);
    if index.None? {
      return;
    }
    var x := index.value;
    cs := contexts[k := contexts[k].(files := contexts[k].files[x := b])];
    ns := ReEnterCard(edited, cs, rows, k);
    if x == 0 {
      // the cards keep their node ids, so the first card of the node with
      // an entry is found among the cards as they were
      var target := FirstCardWithRows(contexts, rows, id);
      if target.Some? && rows[target.value][0].name == Basename(a) {
        var d := target.value;
        var e := rows[d][0];
        var n := Basename(b);
        rs := rows[d := rows[d][0 := e.(name := n, nameOk := NameValid(n, e.refFile))]];
        ns := DispatchInput(edited, ns, cs, rows, rs, |rows[k]| > 0);
      }
    }
  }

  /** `updateWidgetsValue(nodeId, oldValue, newValue)`: the first widget
      value equal to the old value in the first node with the id is
      replaced; when that happens, the first card of the node follows in its
      file list, its entries are re-dispatched, and a first entry named
      after the old main file is renamed after the new one. */
  method EditWidgets(nodes: seq<Node>, contexts: seq<EditContext>, rows: seq<seq<EntryRow>>, id: int, a: string, b: string)
    returns (ns: seq<Node>, cs: seq<EditContext>, rs: seq<seq<EntryRow>>)
    requires Consistent(nodes, contexts, rows)
    ensures Consistent(ns, cs, rs)
    ensures WidgetTarget(nodes, id, a, b).None? ==> ns == nodes && cs == contexts && rs == rows
    ensures WidgetTarget(nodes, id, a, b).Some? ==>
      var (j, ws) := WidgetTarget(nodes, id, a, b).value;
      var edited := nodes[j := nodes[j].(widgets := Some(ws))];
      && cs == FilesAfter(contexts, id, a, b)
      && rs == RowsAfter(contexts, rows, id, a, b)
      && ns == if WidgetEditWritesBack(contexts, rows, id, a) then WriteBackAll(edited, cs, rs) else edited
  {
    ns, cs, rs := nodes, contexts, rows;
    var found := FindById(nodes, id);
    if found.None? || nodes[found.value].widgets.None? {
      return;
    }
    var j := found.value;
    var updated, ws := ReplaceWidget(nodes[j].widgets.value, a, b);
    if !updated {
      return;
    }
    var edited := nodes[j := nodes[j].(widgets := Some(ws))];
    ns, cs, rs := FollowEdit(edited, contexts, rows, id, a, b);
    WidgetEditConsistent(nodes, contexts, rows, j, ws, id, a, b);
    WriteBackConsistent(edited, cs, rs);
  }

  /** The last URL is the last step of the URL loop. */
  lemma FillAllLast(rows: seq<seq<EntryRow>>, m: ModelMap, us: seq<string>, p: Fill, s: Step)
    requires RefsValid(m, rows) && |us| > 0
    requires p == FillAll(rows, m, us[..|us| - 1]) && RefsValid(m, p.rows)
    requires s == FillOne(p.rows, m, us[|us| - 1])
    ensures FillAll(rows, m, us).rows == s.rows
    ensures FillAll(rows, m, us).matched == p.matched + (if s.updated then 1 else 0)
    ensures FillAll(rows, m, us).updatedErrors == p.updatedErrors + (if s.wasError then 1 else 0)
  {
  }

  /** One more URL is one more step of the URL loop. */
  lemma FillAllSnoc(rows0: seq<seq<EntryRow>>, m: ModelMap, urls: seq<string>, u: nat,
                    before: seq<seq<EntryRow>>, matched: nat, updatedErrors: nat,
                    rows: seq<seq<EntryRow>>, updated: bool, wasError: bool)
    requires RefsValid(m, rows0) && u < |urls|
    requires var f := FillAll(rows0, m, urls[..u]);
      before == f.rows && matched == f.matched && updatedErrors == f.updatedErrors
    requires RefsValid(m, before)
    requires var s := FillOne(before, m, urls[u]);
      rows == s.rows && updated == s.updated && wasError == s.wasError
    ensures var f := FillAll(rows0, m, urls[..u + 1]);
      && f.rows == rows
      && f.matched == matched + (if updated then 1 else 0)
      && f.updatedErrors == updatedErrors + (if wasError then 1 else 0)
  {
    var prefix := urls[..u + 1];
    assert prefix[..|prefix| - 1] == urls[..u] && prefix[|prefix| - 1] == urls[u];
    FillAllLast(rows0, m, prefix, FillAll(rows0, m, urls[..u]), FillOne(before, m, urls[u]));
  }

  /** One URL of the loop of `matchAndFillModelLinks`: the URL field of the
      entry its file name matches is overwritten when it is blank, marked
      invalid or different from the URL, and its badge is recomputed. */
  method FillUrl(rows0: seq<seq<EntryRow>>, m: ModelMap, url: string) returns (rows: seq<seq<EntryRow>>, updated: bool, wasError: bool)
    requires RefsValid(m, rows0)
    ensures var s := FillOne(rows0, m, url);
      rows == s.rows && updated == s.updated && wasError == s.wasError
    ensures wasError ==> updated
  {
    rows, updated, wasError := rows0, false, false;
    // the URL's file name, unless blank, matched against the map
    var hit := MatchOf(m, url);
    if hit.None? {
      return;
    }
    var ref := hit.value;
    var entry := rows[ref.card][ref.row];
    var isEmpty := Trim(entry.url) == "";
    var isError := !entry.urlOk;
    if isEmpty || isError || Trim(entry.url) != url {
      wasError := isError;
      rows := rows[ref.card := rows[ref.card][ref.row := entry.(url := url, urlOk := UrlValid(url, entry.boundName))]];
      updated := true;
    }
  }

  /** An input event on an entry of the editor: the document, written back
      from earlier rows or not yet at all, is written back from the new rows. */
  method DispatchInput(nodes0: seq<Node>, nodes: seq<Node>, contexts: seq<EditContext>,
                       before: seq<seq<EntryRow>>, rows: seq<seq<EntryRow>>, written: bool) returns (ns: seq<Node>)
    requires |before| == |contexts| && |rows| == |contexts|
    requires nodes == if written then WriteBackAll(nodes0, contexts, before) else nodes0
    ensures ns == WriteBackAll(nodes0, contexts, rows)
  {
    ns := UpdateNodes(nodes, contexts, rows);
    if written {
      WriteBackLastWins(nodes0, contexts, before, rows);
    }
  }

  /** The document after the input events so far: written back from the
      current rows once any was dispatched, untouched otherwise. */
  predicate WrittenBack(nodes0: seq<Node>, contexts: seq<EditContext>, rows: seq<seq<EntryRow>>, written: bool, nodes: seq<Node>)
    requires |rows| == |contexts|
  {
    nodes == if written then WriteBackAll(nodes0, contexts, rows) else nodes0
  }

  /** A fill dispatches an input event, which writes the document back;
      a URL that fills nothing leaves the document as it was. */
  method InputAfterFill(nodes0: seq<Node>, nodes: seq<Node>, contexts: seq<EditContext>,
                        before: seq<seq<EntryRow>>, rows: seq<seq<EntryRow>>, updated: bool, written: bool, writtenAfter: bool) returns (ns: seq<Node>)
    requires |before| == |contexts| && |rows| == |contexts|
    requires WrittenBack(nodes0, contexts, before, written, nodes)
    requires !updated ==> rows == before
    requires writtenAfter == (written || updated)
    ensures WrittenBack(nodes0, contexts, rows, writtenAfter, ns)
  {
    ns := nodes;
    if updated {
      ns := DispatchInput(nodes0, nodes, contexts, before, rows, written);
    }
  }

  /** One URL of the loop of `matchAndFillModelLinks`, with the counters:
      a fill counts as a match, and as a repaired error link when the URL
      badge was invalid. */
  method FillNext(rows0: seq<seq<EntryRow>>, m: ModelMap, urls: seq<string>, u: nat,
                  before: seq<seq<EntryRow>>, matched0: nat, updatedErrors0: nat)
    returns (rows: seq<seq<EntryRow>>, updated: bool, matched: nat, updatedErrors: nat)
    requires RefsValid(m, rows0) && u < |urls| && RefsValid(m, before)
    requires var f := FillAll(rows0, m, urls[..u]);
      before == f.rows && matched0 == f.matched && updatedErrors0 == f.updatedErrors
    ensures var f := FillAll(rows0, m, urls[..u + 1]);
      rows == f.rows && matched == f.matched && updatedErrors == f.updatedErrors
    ensures SameShape(before, rows) && RefsValid(m, rows)
    ensures updated ==> matched == matched0 + 1
    ensures !updated ==> rows == before && matched == matched0
  {
    var wasError;
    rows, updated, wasError := FillUrl(before, m, urls[u]);
    FillAllSnoc(rows0, m, urls, u, before, matched0, updatedErrors0, rows, updated, wasError);
    RefsSameShape(m, before, rows);
    matched, updatedErrors := matched0, updatedErrors0;
    if updated {
      if wasError {
        updatedErrors := updatedErrors + 1;
      }
      matched := matched + 1;
    }
  }

  /** The state of the URL loop of `matchAndFillModelLinks` after the first
      `u` URLs: the rows and counters of those fills, and the document
      written back by the input event of the last fill, if any. */
  predicate Filled(nodes0: seq<Node>, contexts: seq<EditContext>, rows0: seq<seq<EntryRow>>, m: ModelMap,
                   urls: seq<string>, u: nat, nodes: seq<Node>, rows: seq<seq<EntryRow>>, matched: nat, updatedErrors: nat)
    requires |rows0| == |contexts| && RefsValid(m, rows0) && u <= |urls|
  {
    var f := FillAll(rows0, m, urls[..u]);
    && rows == f.rows && matched == f.matched && updatedErrors == f.updatedErrors
    && |rows| == |contexts| && RefsValid(m, rows)
    && WrittenBack(nodes0, contexts, rows, matched > 0, nodes)
  }

  /** One URL of the loop, from the state after `u` URLs to the state after
      `u + 1`. */
  method FillStep(nodes0: seq<Node>, contexts: seq<EditContext>, rows0: seq<seq<EntryRow>>, m: ModelMap,
                  urls: seq<string>, u: nat, nodes: seq<Node>, rows: seq<seq<EntryRow>>, matched: nat, updatedErrors: nat)
    returns (nodes': seq<Node>, rows': seq<seq<EntryRow>>, matched': nat, updatedErrors': nat)
    requires |rows0| == |contexts| && RefsValid(m, rows0) && u < |urls|
    requires Filled(nodes0, contexts, rows0, m, urls, u, nodes, rows, matched, updatedErrors)
    ensures Filled(nodes0, contexts, rows0, m, urls, u + 1, nodes', rows', matched', updatedErrors')
  {
    var updated;
    rows', updated, matched', updatedErrors' := FillNext(rows0, m, urls, u, rows, matched, updatedErrors);
    nodes' := InputAfterFill(nodes0, nodes, contexts, rows, rows', updated, matched > 0, matched' > 0);
  }

  /** The URL loop of `matchAndFillModelLinks` over a map built before it;
      each fill dispatches an input event that writes the document back. */
  method FillLinks(nodes0: seq<Node>, contexts: seq<EditContext>, rows0: seq<seq<EntryRow>>, m: ModelMap, urls: seq<string>)
    returns (nodes: seq<Node>, rows: seq<seq<EntryRow>>, matched: nat, updatedErrors: nat)
    requires |rows0| == |contexts| && RefsValid(m, rows0)
    ensures var f := FillAll(rows0, m, urls);
      rows == f.rows && matched == f.matched && updatedErrors == f.updatedErrors
    ensures |rows| == |contexts|
    ensures nodes == if matched > 0 then WriteBackAll(nodes0, contexts, rows) else nodes0
  {
    nodes, rows := nodes0, rows0;
    matched, updatedErrors := 0, 0;
    var u := 0;
    assert urls[..0] == [];
    assert FillAll(rows0, m, []).rows == rows0;
    assert FillAll(rows0, m, []).matched == 0 && FillAll(rows0, m, []).updatedErrors == 0;
    while u < |urls|
      invariant 0 <= u <= |urls|
      invariant Filled(nodes0, contexts, rows0, m, urls, u, nodes, rows, matched, updatedErrors)
    {
      nodes, rows, matched, updatedErrors := FillStep(nodes0, contexts, rows0, m, urls, u, nodes, rows, matched, updatedErrors);
      u := u + 1;
    }
    assert urls[..|urls|] == urls;
  }

  class Session {
    /** The parsed document's nodes (`parsedJson.nodes`). */
    var nodes: seq<Node>
    /** `directoryRules`. */
    var rules: RuleTable
    /** `nodesToEdit`, one context per card. */
    var contexts: seq<EditContext>
    /** The entries each card shows, card by card. */
    var rows: seq<seq<EntryRow>>

    /** Every card belongs to a node of the document with its id, has a
        main model file, and every badge shows the decision for its row. */
    predicate Valid()
      reads this
    {
      Consistent(nodes, contexts, rows)
    }

    /** Loading a document: the edited nodes are found and every card is
        built from its context with the current rules. */
    constructor (doc: seq<Node>, rules0: RuleTable)
      ensures Valid()
      ensures nodes == doc && rules == rules0
      ensures contexts == Extract.Extract(doc, rules0)
      ensures |rows| == |contexts| && forall c :: 0 <= c < |contexts| ==> rows[c] == Rows(contexts[c], rules0)
    {
      var found := FindNodesToEdit(doc, rules0);
      var cards := BuildCards(found, rules0);
      nodes := doc;
      rules := rules0;
      contexts := found;
      rows := cards;
      new;
      LoadedConsistent(doc, rules0, found, cards);
    }

    /** `updateJsonData()`: every edited node's complete entries are written
        to the first node with its id. */
    method WriteBack()
      requires |rows| == |contexts|
      modifies this
      ensures rules == old(rules) && contexts == old(contexts) && rows == old(rows)
      ensures nodes == WriteBackAll(old(nodes), contexts, rows)
    {
      nodes := UpdateNodes(nodes, contexts, rows);
    }

    /** "Add Model": an empty entry with the node type's directory, checked
        against no reference file; the document is not written back. */
    method AddEntry(c: nat)
      requires Valid() && c < |contexts|
      modifies this
      ensures Valid()
      ensures nodes == old(nodes) && rules == old(rules) && contexts == old(contexts)
      ensures rows == old(rows)[c := old(rows)[c] + [BlankRow(DirectoryFor(rules, contexts[c].nodeType))]]
    {
      var dir := DirectoryFor(rules, contexts[c].nodeType);
      var rs := rows[c := rows[c] + [BlankRow(dir)]];
      AddedBlankConsistent(nodes, contexts, rows, c, dir, rs);
      rows := rs;
    }

    /** "Remove Model": the entry goes and the document is written back. */
    method RemoveEntry(c: nat, i: nat)
      requires Valid() && c < |contexts| && i < |rows[c]|
      modifies this
      ensures Valid()
      ensures rows == old(rows)[c := old(rows)[c][..i] + old(rows)[c][i + 1..]]
      ensures nodes == WriteBackAll(old(nodes), contexts, rows)
      ensures rules == old(rules) && contexts == old(contexts)
    {
      var card := rows[c][..i] + rows[c][i + 1..];
      RemovedBadges(rows[c], i, card);
      CardBadges(rows, c, card);
      RowsConsistent(nodes, contexts, rows, rows[c := card]);
      rows := rows[c := card];
      WriteBackConsistent(nodes, contexts, rows);
      WriteBack();
    }

    /** Typing in a name field: the name badge is recomputed against the
        entry's reference file and the document is written back. */
    method EditName(c: nat, i: nat, v: string)
      requires Valid() && c < |contexts| && i < |rows[c]|
      modifies this
      ensures Valid()
      ensures rows == old(rows)[c := old(rows)[c][i := old(rows)[c][i].(name := v, nameOk := NameValid(v, old(rows)[c][i].refFile))]]
      ensures nodes == WriteBackAll(old(nodes), contexts, rows)
      ensures rules == old(rules) && contexts == old(contexts)
    {
      var e := rows[c][i];
      var e' := e.(name := v, nameOk := NameValid(v, e.refFile));
      ghost var nodes0, rows0 := nodes, rows;
      rows := rows[c := rows[c][i := e']];
      WriteBack();
      EditedConsistent(nodes0, contexts, rows0, c, i, e', rows, nodes);
    }

    /** Typing in a URL field: the URL badge is recomputed against the name
        the entry was created with and the document is written back. */
    method EditUrl(c: nat, i: nat, v: string)
      requires Valid() && c < |contexts| && i < |rows[c]|
      modifies this
      ensures Valid()
      ensures rows == old(rows)[c := old(rows)[c][i := old(rows)[c][i].(url := v, urlOk := UrlValid(v, old(rows)[c][i].boundName))]]
      ensures nodes == WriteBackAll(old(nodes), contexts, rows)
      ensures rules == old(rules) && contexts == old(contexts)
    {
      var e := rows[c][i];
      var e' := e.(url := v, urlOk := UrlValid(v, e.boundName));
      ghost var nodes0, rows0 := nodes, rows;
      rows := rows[c := rows[c][i := e']];
      WriteBack();
      EditedConsistent(nodes0, contexts, rows0, c, i, e', rows, nodes);
    }

    /** Typing in a directory field: no badge, the document is written back. */
    method EditDirectory(c: nat, i: nat, v: string)
      requires Valid() && c < |contexts| && i < |rows[c]|
      modifies this
      ensures Valid()
      ensures rows == old(rows)[c := old(rows)[c][i := old(rows)[c][i].(directory := v)]]
      ensures nodes == WriteBackAll(old(nodes), contexts, rows)
      ensures rules == old(rules) && contexts == old(contexts)
    {
      var e := rows[c][i];
      var e' := e.(directory := v);
      ghost var nodes0, rows0 := nodes, rows;
      rows := rows[c := rows[c][i := e']];
      WriteBack();
      EditedConsistent(nodes0, contexts, rows0, c, i, e', rows, nodes);
    }

    /** Changing a rule's node type. */
    method RenameRule(oldType: string, newType: string)
      requires Valid()
      modifies this
      ensures Valid()
      ensures rules == Renamed(old(rules), oldType, newType)
      ensures nodes == old(nodes) && contexts == old(contexts) && rows == old(rows)
    {
      if newType != "" && newType != oldType {
        rules := rules[newType := DirectoryFor(rules, oldType)];
        rules := rules - {oldType};
      }
    }

    /** Typing in a rule's directory field. */
    method SetRuleDirectory(nodeType: string, directory: string)
      requires Valid()
      modifies this
      ensures Valid()
      ensures rules == old(rules)[nodeType := directory]
      ensures DirectoryFor(rules, nodeType) == directory
      ensures nodes == old(nodes) && contexts == old(contexts) && rows == old(rows)
    {
      rules := rules[nodeType := directory];
    }

    /** Removing a rule. */
    method RemoveRule(nodeType: string)
      requires Valid()
      modifies this
      ensures Valid()
      ensures rules == old(rules) - {nodeType}
      ensures !InRules(rules, nodeType)
      ensures nodes == old(nodes) && contexts == old(contexts) && rows == old(rows)
    {
      rules := rules - {nodeType};
    }

    /** "Add rule": a blank node type with a blank directory. */
    method AddRule()
      requires Valid()
      modifies this
      ensures Valid()
      ensures rules == old(rules)["" := ""]
      ensures forall t :: InRules(rules, t) == InRules(old(rules), t)
      ensures nodes == old(nodes) && contexts == old(contexts) && rows == old(rows)
    {
      rules := rules["" := ""];
    }

    /** `updateWidgetsValue(nodeId, oldValue, newValue)`. */
    method UpdateWidgetsValue(nodeId: int, oldValue: string, newValue: string)
      requires Valid()
      modifies this
      ensures Valid()
      ensures rules == old(rules)
      ensures WidgetTarget(old(nodes), nodeId, oldValue, newValue).None? ==>
        nodes == old(nodes) && contexts == old(contexts) && rows == old(rows)
      ensures WidgetTarget(old(nodes), nodeId, oldValue, newValue).Some? ==>
        var (j, ws) := WidgetTarget(old(nodes), nodeId, oldValue, newValue).value;
        var edited := old(nodes)[j := old(nodes)[j].(widgets := Some(ws))];
        && contexts == FilesAfter(old(contexts), nodeId, oldValue, newValue)
        && rows == RowsAfter(old(contexts), old(rows), nodeId, oldValue, newValue)
        && nodes == if WidgetEditWritesBack(old(contexts), old(rows), nodeId, oldValue) then WriteBackAll(edited, contexts, rows) else edited
    {
      nodes, contexts, rows := EditWidgets(nodes, contexts, rows, nodeId, oldValue, newValue);
    }

    /** Editing a card's main model path: the card's current main file is
        replaced by the new value in the document. */
    method EditMainPath(c: nat, v: string)
      requires Valid() && c < |contexts|
      modifies this
      ensures Valid()
      ensures rules == old(rules)
      ensures var a := old(contexts)[c].files[0];
        var id := old(contexts)[c].nodeId;
        && (WidgetTarget(old(nodes), id, a, v).None? ==>
              nodes == old(nodes) && contexts == old(contexts) && rows == old(rows))
        && (WidgetTarget(old(nodes), id, a, v).Some? ==>
              var (j, ws) := WidgetTarget(old(nodes), id, a, v).value;
              var edited := old(nodes)[j := old(nodes)[j].(widgets := Some(ws))];
              && contexts == FilesAfter(old(contexts), id, a, v)
              && rows == RowsAfter(old(contexts), old(rows), id, a, v)
              && nodes == if WidgetEditWritesBack(old(contexts), old(rows), id, a) then WriteBackAll(edited, contexts, rows) else edited)
    {
      UpdateWidgetsValue(contexts[c].nodeId, contexts[c].files[0], v);
    }

    /** `matchAndFillModelLinks(urls)`: the map of entries is built, the
        URLs are matched and filled, and the document is written back once
        more when something was filled. */
    method MatchAndFill(urls: seq<string>) returns (matched: nat, updatedErrors: nat)
      requires Valid()
      modifies this
      ensures Valid()
      ensures var f := FillAll(old(rows), ModelMapOf(old(rows)), urls);
        rows == f.rows && matched == f.matched && updatedErrors == f.updatedErrors
      ensures nodes == if matched > 0 then WriteBackAll(old(nodes), contexts, rows) else old(nodes)
      ensures contexts == old(contexts) && rules == old(rules)
    {
      var m := BuildModelMap(rows);
      var ns: seq<Node>, rs: seq<seq<EntryRow>>;
      ns, rs, matched, updatedErrors := FillLinks(nodes, contexts, rows, m, urls);
      ghost var nodes0, rows0 := nodes, rows;
      nodes, rows := ns, rs;
      if matched > 0 {
        WriteBack();
        WriteBackIdempotent(nodes0, contexts, rows);
      }
      FilledConsistent(nodes0, contexts, rows0, m, urls, rows, nodes);
    }

    /** `processBulkLinks()`: the pasted text is trimmed and its URLs are
        matched and filled; nothing happens when it holds no URL. */
    method BulkLinks(text: string) returns (found: nat, matched: nat, updatedErrors: nat)
      requires Valid()
      modifies this
      ensures Valid()
      ensures var urls := ExtractUrls(Trim(text));
        && found == |urls|
        && (found == 0 ==> nodes == old(nodes) && rows == old(rows) && matched == 0 && updatedErrors == 0)
        && (found > 0 ==>
              var f := FillAll(old(rows), ModelMapOf(old(rows)), urls);
              rows == f.rows && matched == f.matched && updatedErrors == f.updatedErrors
              && nodes == if matched > 0 then WriteBackAll(old(nodes), contexts, rows) else old(nodes))
      ensures contexts == old(contexts) && rules == old(rules)
    {
      var t := Trim(text);
      found, matched, updatedErrors := 0, 0, 0;
      if t == "" {
        assert ExtractUrls(t) == [];
        return;
      }
      var urls := ExtractUrls(t);
      found := |urls|;
      if |urls| == 0 {
        return;
      }
      matched, updatedErrors := MatchAndFill(urls);
    }
  }
}
