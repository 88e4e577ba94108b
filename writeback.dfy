/** The write-back of `updateJsonData`: for every edited node, the complete
    entries of every card showing that node id become the `models` of the
    first node with that id, or the key is removed when there are none. */
module WriteBack {
  import opened Text
  import opened Workflow
  import opened Extract
  import opened Reconcile

  /** The entries of every card whose context has node id `id`, in card
      order (`querySelectorAll('.model-entry[data-node-id="id"]')`). */
  function CardEntries(contexts: seq<EditContext>, rows: seq<seq<EntryRow>>, id: int): seq<EntryRow>
    requires |rows| == |contexts|
  {
    if |contexts| == 0 then []
    else
      var k := |contexts| - 1;
      CardEntries(contexts[..k], rows[..k], id) + (if contexts[k].nodeId == id then rows[k] else [])
  }

  /** An entry whose name, URL and directory are all non-blank. */
  predicate IsComplete(r: EntryRow) {
    Trim(r.name) != "" && Trim(r.url) != "" && Trim(r.directory) != ""
  }

  /** The persisted form of an entry: its three fields, trimmed. */
  function Trimmed(r: EntryRow): ModelEntry {
    ModelEntry(Trim(r.name), Trim(r.url), Trim(r.directory))
  }

  /** A string that is non-empty and has no white space at either end. */
  predicate Tidy(s: string) {
    s != "" && !IsSpace(s[0]) && !IsSpace(s[|s| - 1])
  }

  /** `f` applied to the elements of `xs` that satisfy `keep`, in order. */
  function FilterMap<A, B>(xs: seq<A>, keep: A -> bool, f: A -> B): (ys: seq<B>)
    ensures |ys| <= |xs|
  {
    if |xs| == 0 then []
    else
      var x := xs[|xs| - 1];
      FilterMap(xs[..|xs| - 1], keep, f) + (if keep(x) then [f(x)] else [])
  }

  /** `f` applied to every element of `xs`. */
  function MapAll<A, B>(xs: seq<A>, f: A -> B): (ys: seq<B>)
    ensures |ys| == |xs| && forall i :: 0 <= i < |xs| ==> ys[i] == f(xs[i])
  {
    if |xs| == 0 then [] else MapAll(xs[..|xs| - 1], f) + [f(xs[|xs| - 1])]
  }

  lemma {:induction false} FilterMapAll<A, B>(xs: seq<A>, keep: A -> bool, f: A -> B)
    requires forall i :: 0 <= i < |xs| ==> keep(xs[i])
    ensures FilterMap(xs, keep, f) == MapAll(xs, f)
  {
    if |xs| > 0 {
      var init := xs[..|xs| - 1];
      assert forall i :: 0 <= i < |init| ==> init[i] == xs[i];
      FilterMapAll(init, keep, f);
      assert keep(xs[|xs| - 1]);
    }
  }

  lemma {:induction false} FilterMapNone<A, B>(xs: seq<A>, keep: A -> bool, f: A -> B)
    requires forall i :: 0 <= i < |xs| ==> !keep(xs[i])
    ensures FilterMap(xs, keep, f) == []
  {
    if |xs| > 0 {
      var init := xs[..|xs| - 1];
      assert forall i :: 0 <= i < |init| ==> init[i] == xs[i];
      FilterMapNone(init, keep, f);
      assert !keep(xs[|xs| - 1]);
    }
  }

  lemma {:induction false} FilterMapKeeps<A, B>(xs: seq<A>, keep: A -> bool, f: A -> B)
    ensures forall i :: 0 <= i < |xs| && keep(xs[i]) ==> f(xs[i]) in FilterMap(xs, keep, f)
  {
    if |xs| > 0 {
      var init := xs[..|xs| - 1];
      var x := xs[|xs| - 1];
      FilterMapKeeps(init, keep, f);
      var c := FilterMap(init, keep, f);
      var full := FilterMap(xs, keep, f);
      assert full == c + (if keep(x) then [f(x)] else []);
      forall i | 0 <= i < |xs| && keep(xs[i])
        ensures f(xs[i]) in full
      {
        if i < |init| {
          assert init[i] == xs[i];
          var t :| 0 <= t < |c| && c[t] == f(xs[i]);
          assert full[t] == c[t];
        } else {
          assert full[|c|] == f(x);
        }
      }
    }
  }

  lemma {:induction false} FilterMapInOrder<A, B>(xs: seq<A>, keep: A -> bool, f: A -> B)
    ensures IsSubsequence(FilterMap(xs, keep, f), MapAll(xs, f))
  {
    if |xs| > 0 {
      var init := xs[..|xs| - 1];
      var x := xs[|xs| - 1];
      FilterMapInOrder(init, keep, f);
      var c := FilterMap(init, keep, f);
      var all := MapAll(init, f);
      assert MapAll(xs, f) == all + [f(x)];
      if keep(x) {
        assert FilterMap(xs, keep, f) == c + [f(x)];
        assert (c + [f(x)])[..|c|] == c && (all + [f(x)])[..|all|] == all;
      } else {
        assert FilterMap(xs, keep, f) == c + [];
        assert c + [] == c;
        SubsequenceExtend(c, all, f(x));
      }
    }
  }

  /** The complete entries, trimmed, in order. */
  function Complete(rs: seq<EntryRow>): seq<ModelEntry> {
    FilterMap(rs, IsComplete, Trimmed)
  }

  /** Every persisted field is non-empty and has no white space at either
      end. */
  lemma {:induction false} CompleteIsTidy(rs: seq<EntryRow>)
    ensures forall k :: 0 <= k < |Complete(rs)| ==>
      Tidy(Complete(rs)[k].name) && Tidy(Complete(rs)[k].url) && Tidy(Complete(rs)[k].directory)
  {
    if |rs| > 0 {
      var r := rs[|rs| - 1];
      var c := Complete(rs[..|rs| - 1]);
      CompleteIsTidy(rs[..|rs| - 1]);
      if IsComplete(r) {
        assert Complete(rs) == c + [Trimmed(r)];
        assert Tidy(Trim(r.name)) && Tidy(Trim(r.url)) && Tidy(Trim(r.directory));
      } else {
        assert Complete(rs) == c + [];
        assert c + [] == c;
      }
    }
  }

  /** When every entry is complete, all of them are kept, trimmed, in
      order. */
  lemma CompleteKeepsAll(rs: seq<EntryRow>)
    requires forall i :: 0 <= i < |rs| ==> IsComplete(rs[i])
    ensures Complete(rs) == MapAll(rs, Trimmed)
  {
    FilterMapAll(rs, IsComplete, Trimmed);
  }

  /** When no entry is complete, nothing is kept. */
  lemma CompleteDropsIncomplete(rs: seq<EntryRow>)
    requires forall i :: 0 <= i < |rs| ==> !IsComplete(rs[i])
    ensures Complete(rs) == []
  {
    FilterMapNone(rs, IsComplete, Trimmed);
  }

  /** Every complete entry is kept, and the kept entries are trimmed entries
      in their original order. */
  lemma CompleteIsFilter(rs: seq<EntryRow>)
    ensures forall i :: 0 <= i < |rs| && IsComplete(rs[i]) ==> Trimmed(rs[i]) in Complete(rs)
    ensures IsSubsequence(Complete(rs), MapAll(rs, Trimmed))
  {
    FilterMapKeeps(rs, IsComplete, Trimmed);
    FilterMapInOrder(rs, IsComplete, Trimmed);
  }

  /** The node with its `models` set to `ms`, or the key removed when `ms`
      is empty; a node without properties first gets an empty record. */
  function SetModels(n: Node, ms: seq<ModelEntry>): (r: Node)
    ensures r.id == n.id && r.nodeType == n.nodeType && r.widgets == n.widgets
    ensures r.props.Some?
    ensures n.props.Some? ==>
      r.props.value.searchName == n.props.value.searchName && r.props.value.others == n.props.value.others
    ensures n.props.None? ==> r.props.value.searchName == "" && r.props.value.others == map[]
    ensures r.props.value.models == if |ms| > 0 then Some(ms) else None
  {
    var p := if n.props.Some? then n.props.value else Properties("", None, map[]);
    n.(props := Some(p.(models := if |ms| > 0 then Some(ms) else None)))
  }

  /** Setting the models twice is setting them the second time. */
  lemma SetModelsLastWins(n: Node, a: seq<ModelEntry>, b: seq<ModelEntry>)
    ensures SetModels(SetModels(n, a), b) == SetModels(n, b)
  {
  }

  /** What the node with id `id` is given. */
  function ModelsFor(contexts: seq<EditContext>, rows: seq<seq<EntryRow>>, id: int): seq<ModelEntry>
    requires |rows| == |contexts|
  {
    Complete(CardEntries(contexts, rows, id))
  }

  /** One write: the first node with id `id`, if any, is given `ms`. */
  function WriteOne(ns: seq<Node>, id: int, ms: seq<ModelEntry>): (r: seq<Node>)
    ensures |r| == |ns| && forall j :: 0 <= j < |ns| ==> r[j].id == ns[j].id
  {
    match FindById(ns, id)
    case None => ns
    case Some(j) => ns[j := SetModels(ns[j], ms)]
  }

  /** The write-back loop after its first `k` contexts, with the entries
      each node id is given drawn from `f`. */
  function WriteUpTo(nodes: seq<Node>, contexts: seq<EditContext>, f: int -> seq<ModelEntry>, k: nat): (r: seq<Node>)
    requires k <= |contexts|
    ensures |r| == |nodes| && forall j :: 0 <= j < |nodes| ==> r[j].id == nodes[j].id
  {
    if k == 0 then nodes
    else WriteOne(WriteUpTo(nodes, contexts, f, k - 1), contexts[k - 1].nodeId, f(contexts[k - 1].nodeId))
  }

  /** The entries each node id is given, as a function of the id. */
  function ModelsOf(contexts: seq<EditContext>, rows: seq<seq<EntryRow>>): int -> seq<ModelEntry>
    requires |rows| == |contexts|
  {
    id => ModelsFor(contexts, rows, id)
  }

  /** The write-back loop after its first `k` contexts: each context's node
      id is given the entries of all cards showing it. */
  function WriteBackUpTo(nodes: seq<Node>, contexts: seq<EditContext>, rows: seq<seq<EntryRow>>, k: nat): (r: seq<Node>)
    requires |rows| == |contexts| && k <= |contexts|
    ensures |r| == |nodes| && forall j :: 0 <= j < |nodes| ==> r[j].id == nodes[j].id
  {
    WriteUpTo(nodes, contexts, ModelsOf(contexts, rows), k)
  }

  /** One more context is one more node written. */
  lemma WriteBackUpToNext(nodes: seq<Node>, contexts: seq<EditContext>, rows: seq<seq<EntryRow>>, k: nat)
    requires |rows| == |contexts| && k < |contexts|
    ensures WriteBackUpTo(nodes, contexts, rows, k + 1)
      == WriteOne(WriteBackUpTo(nodes, contexts, rows, k), contexts[k].nodeId, ModelsFor(contexts, rows, contexts[k].nodeId))
  {
  }

  /** The whole write-back. */
  function WriteBackAll(nodes: seq<Node>, contexts: seq<EditContext>, rows: seq<seq<EntryRow>>): seq<Node>
    requires |rows| == |contexts|
  {
    WriteBackUpTo(nodes, contexts, rows, |contexts|)
  }

  /** The node at `j` is the first node with the id of one of the first `k`
      contexts. */
  predicate Touched(nodes: seq<Node>, contexts: seq<EditContext>, k: nat, j: nat)
    requires k <= |contexts|
  {
    k > 0 && (Touched(nodes, contexts, k - 1, j) || FindById(nodes, contexts[k - 1].nodeId) == Some(j))
  }

  /** Touched, read as "some context among the first `k` finds the node at
      `j` first". */
  lemma {:induction false} TouchedExists(nodes: seq<Node>, contexts: seq<EditContext>, k: nat, j: nat)
    requires k <= |contexts|
    ensures Touched(nodes, contexts, k, j) <==> exists c :: 0 <= c < k && FindById(nodes, contexts[c].nodeId) == Some(j)
  {
    if k > 0 {
      TouchedExists(nodes, contexts, k - 1, j);
      if FindById(nodes, contexts[k - 1].nodeId) == Some(j) {
        assert 0 <= k - 1 < k;
      } else if exists c :: 0 <= c < k && FindById(nodes, contexts[c].nodeId) == Some(j) {
        var c :| 0 <= c < k && FindById(nodes, contexts[c].nodeId) == Some(j);
        assert c < k - 1;
      }
    }
  }

  /** The node at `j` after the first `k` contexts: given its id's entries
      when one of those contexts finds it first, untouched otherwise. */
  function ExpectedWith(nodes: seq<Node>, contexts: seq<EditContext>, f: int -> seq<ModelEntry>, k: nat, j: nat): Node
    requires k <= |contexts| && j < |nodes|
  {
    if Touched(nodes, contexts, k, j) then SetModels(nodes[j], f(nodes[j].id)) else nodes[j]
  }

  /** The node at `j` after the first `k` contexts are written back. */
  function Expected(nodes: seq<Node>, contexts: seq<EditContext>, rows: seq<seq<EntryRow>>, k: nat, j: nat): Node
    requires |rows| == |contexts| && k <= |contexts| && j < |nodes|
  {
    ExpectedWith(nodes, contexts, ModelsOf(contexts, rows), k, j)
  }

  /** One write, seen from the node at `j`. */
  lemma WriteOneAt(ns: seq<Node>, id: int, ms: seq<ModelEntry>, j: nat)
    requires j < |ns|
    ensures WriteOne(ns, id, ms)[j] == if FindById(ns, id) == Some(j) then SetModels(ns[j], ms) else ns[j]
  {
  }

  /** One context of the loop, seen from the node at `j`. */
  lemma WriteUpToStep(nodes: seq<Node>, contexts: seq<EditContext>, f: int -> seq<ModelEntry>, k: nat, j: nat)
    requires 0 < k <= |contexts| && j < |nodes|
    requires WriteUpTo(nodes, contexts, f, k - 1)[j] == ExpectedWith(nodes, contexts, f, k - 1, j)
    ensures WriteUpTo(nodes, contexts, f, k)[j] == ExpectedWith(nodes, contexts, f, k, j)
  {
    var prev := WriteUpTo(nodes, contexts, f, k - 1);
    var id := contexts[k - 1].nodeId;
    assert WriteUpTo(nodes, contexts, f, k)[j]
        == if FindById(nodes, id) == Some(j) then SetModels(prev[j], f(id)) else prev[j] by {
      FindBySameIds(prev, nodes, id);
      WriteOneAt(prev, id, f(id), j);
    }
    if FindById(nodes, id) == Some(j) && Touched(nodes, contexts, k - 1, j) {
      SetModelsLastWins(nodes[j], f(id), f(id));
    }
  }

  /** The loop after its first `k` contexts, seen from the node at `j`. */
  lemma {:induction false} WriteUpToAt(nodes: seq<Node>, contexts: seq<EditContext>, f: int -> seq<ModelEntry>, k: nat, j: nat)
    requires k <= |contexts| && j < |nodes|
    ensures WriteUpTo(nodes, contexts, f, k)[j] == ExpectedWith(nodes, contexts, f, k, j)
  {
    if k > 0 {
      WriteUpToAt(nodes, contexts, f, k - 1, j);
      WriteUpToStep(nodes, contexts, f, k, j);
    }
  }

  /** The node at `j` after the first `k` contexts are written back. */
  lemma WriteBackAt(nodes: seq<Node>, contexts: seq<EditContext>, rows: seq<seq<EntryRow>>, k: nat, j: nat)
    requires |rows| == |contexts| && k <= |contexts| && j < |nodes|
    ensures WriteBackUpTo(nodes, contexts, rows, k)[j] == Expected(nodes, contexts, rows, k, j)
  {
    WriteUpToAt(nodes, contexts, ModelsOf(contexts, rows), k, j);
  }

  /** Node by node: a node is given the complete entries of its id exactly
      when it is the first node with the id of some edited node; every
      other node is left as it was. */
  lemma WriteBackPointwise(nodes: seq<Node>, contexts: seq<EditContext>, rows: seq<seq<EntryRow>>, k: nat)
    requires |rows| == |contexts| && k <= |contexts|
    ensures forall j :: 0 <= j < |nodes| ==>
      WriteBackUpTo(nodes, contexts, rows, k)[j] == Expected(nodes, contexts, rows, k, j)
  {
    forall j | 0 <= j < |nodes|
      ensures WriteBackUpTo(nodes, contexts, rows, k)[j] == Expected(nodes, contexts, rows, k, j)
    {
      WriteBackAt(nodes, contexts, rows, k, j);
    }
  }

  /** Writing back twice, with the entries edited in between, leaves what
      the second write-back alone would leave. */
  lemma WriteBackLastWins(nodes: seq<Node>, contexts: seq<EditContext>, a: seq<seq<EntryRow>>, b: seq<seq<EntryRow>>)
    requires |a| == |contexts| && |b| == |contexts|
    ensures WriteBackAll(WriteBackAll(nodes, contexts, a), contexts, b) == WriteBackAll(nodes, contexts, b)
  {
    var mid := WriteBackAll(nodes, contexts, a);
    var k := |contexts|;
    WriteBackPointwise(nodes, contexts, a, k);
    WriteBackPointwise(mid, contexts, b, k);
    WriteBackPointwise(nodes, contexts, b, k);
    forall c | 0 <= c < k
      ensures FindById(mid, contexts[c].nodeId) == FindById(nodes, contexts[c].nodeId)
    {
      FindBySameIds(mid, nodes, contexts[c].nodeId);
    }
    forall j | 0 <= j < |nodes|
      ensures Touched(mid, contexts, k, j) == Touched(nodes, contexts, k, j)
    {
      TouchedExists(mid, contexts, k, j);
      TouchedExists(nodes, contexts, k, j);
    }
  }

  /** Repeating the write-back with no edit in between changes nothing. */
  lemma WriteBackIdempotent(nodes: seq<Node>, contexts: seq<EditContext>, rows: seq<seq<EntryRow>>)
    requires |rows| == |contexts|
    ensures WriteBackAll(WriteBackAll(nodes, contexts, rows), contexts, rows) == WriteBackAll(nodes, contexts, rows)
  {
    WriteBackLastWins(nodes, contexts, rows, rows);
  }

  /** A node that has no complete entry loses its `models` key; every node
      keeps its id, type, widget values, search name and other property
      keys. */
  lemma WriteBackKeepsRest(nodes: seq<Node>, contexts: seq<EditContext>, rows: seq<seq<EntryRow>>, j: nat)
    requires |rows| == |contexts| && j < |nodes|
    ensures var r := WriteBackAll(nodes, contexts, rows)[j];
      && r.id == nodes[j].id && r.nodeType == nodes[j].nodeType && r.widgets == nodes[j].widgets
      && (nodes[j].props.Some? ==>
            r.props.Some? && r.props.value.searchName == nodes[j].props.value.searchName && r.props.value.others == nodes[j].props.value.others)
      && ((Touched(nodes, contexts, |contexts|, j) && ModelsFor(contexts, rows, nodes[j].id) == []) ==>
            r.props.Some? && r.props.value.models.None?)
  {
    WriteBackPointwise(nodes, contexts, rows, |contexts|);
  }

  /** When a single card shows node id `id`, the write-back reads exactly
      that card's entries. */
  lemma {:induction false} CardEntriesSingle(contexts: seq<EditContext>, rows: seq<seq<EntryRow>>, id: int, c: nat)
    requires |rows| == |contexts| && c < |contexts| && contexts[c].nodeId == id
    requires forall d :: 0 <= d < |contexts| && d != c ==> contexts[d].nodeId != id
    ensures CardEntries(contexts, rows, id) == rows[c]
  {
    var k := |contexts| - 1;
    if k == c {
      CardEntriesNone(contexts[..k], rows[..k], id);
    } else {
      CardEntriesSingle(contexts[..k], rows[..k], id, c);
    }
  }

  /** No card showing `id` means no entries. */
  lemma {:induction false} CardEntriesNone(contexts: seq<EditContext>, rows: seq<seq<EntryRow>>, id: int)
    requires |rows| == |contexts|
    requires forall d :: 0 <= d < |contexts| ==> contexts[d].nodeId != id
    ensures CardEntries(contexts, rows, id) == []
  {
    if |contexts| > 0 {
      var k := |contexts| - 1;
      CardEntriesNone(contexts[..k], rows[..k], id);
    }
  }

  lemma FilterMapSnoc<A, B>(xs: seq<A>, x: A, keep: A -> bool, f: A -> B)
    ensures FilterMap(xs + [x], keep, f) == FilterMap(xs, keep, f) + (if keep(x) then [f(x)] else [])
  {
    assert (xs + [x])[..|xs|] == xs;
  }

  lemma CardEntriesSnoc(contexts: seq<EditContext>, rows: seq<seq<EntryRow>>, id: int, c: nat)
    requires |rows| == |contexts| && c < |contexts|
    ensures CardEntries(contexts[..c + 1], rows[..c + 1], id) ==
      CardEntries(contexts[..c], rows[..c], id) + (if contexts[c].nodeId == id then rows[c] else [])
  {
    assert contexts[..c + 1][..c] == contexts[..c] && rows[..c + 1][..c] == rows[..c];
  }

  lemma {:induction false} FilterMapAppend<A, B>(xs: seq<A>, ys: seq<A>, keep: A -> bool, f: A -> B)
    ensures FilterMap(xs + ys, keep, f) == FilterMap(xs, keep, f) + FilterMap(ys, keep, f)
  {
    if |ys| == 0 {
      assert xs + ys == xs;
    } else {
      var init := ys[..|ys| - 1];
      var y := ys[|ys| - 1];
      FilterMapAppend(xs, init, keep, f);
      assert xs + ys == (xs + init) + [y];
      FilterMapSnoc(xs + init, y, keep, f);
      assert ys == init + [y];
      FilterMapSnoc(init, y, keep, f);
    }
  }

  /** One more entry is kept, trimmed, exactly when it is complete. */
  lemma CompleteStep(rs: seq<EntryRow>, i: nat)
    requires i < |rs|
    ensures Complete(rs[..i + 1]) == Complete(rs[..i]) + (if IsComplete(rs[i]) then [Trimmed(rs[i])] else [])
  {
    assert rs[..i + 1] == rs[..i] + [rs[i]];
    FilterMapSnoc(rs[..i], rs[i], IsComplete, Trimmed);
  }

  /** One entry of that loop: its fields trimmed, and whether all three
      are non-empty. */
  method TrimEntry(entry: EntryRow) returns (kept: bool, model: ModelEntry)
    ensures kept == IsComplete(entry) && model == Trimmed(entry)
  {
    var name := Trim(entry.name);
    var url := Trim(entry.url);
    var directory := Trim(entry.directory);
    kept := name != "" && url != "" && directory != "";
    model := ModelEntry(name, url, directory);
  }

  /** The inner loop of `updateJsonData`: the entries of one card, kept
      when their trimmed name, URL and directory are all non-empty. */
  method CompleteEntries(card: seq<EntryRow>) returns (models: seq<ModelEntry>)
    ensures models == Complete(card)
  {
    models := [];
    var i := 0;
    while i < |card|
      invariant 0 <= i <= |card|
      invariant models == Complete(card[..i])
    {
      var entry := card[i];
      var kept, model := TrimEntry(entry);
      CompleteStep(card, i);
      if kept {
        models := models + [model];
      }
      i := i + 1;
    }
    assert card[..|card|] == card;
  }

  /** One more card: its complete entries follow when it shows node id `id`. */
  lemma CollectStep(contexts: seq<EditContext>, rows: seq<seq<EntryRow>>, id: int, c: nat)
    requires |rows| == |contexts| && c < |contexts|
    ensures Complete(CardEntries(contexts[..c + 1], rows[..c + 1], id))
      == Complete(CardEntries(contexts[..c], rows[..c], id)) + (if contexts[c].nodeId == id then Complete(rows[c]) else [])
  {
    var before := CardEntries(contexts[..c], rows[..c], id);
    CardEntriesSnoc(contexts, rows, id, c);
    if contexts[c].nodeId == id {
      FilterMapAppend(before, rows[c], IsComplete, Trimmed);
    } else {
      assert before + [] == before;
    }
  }

  /** The collection loop of `updateJsonData` for one node id: every entry
      of every card showing that id, in order, kept when its trimmed name,
      URL and directory are all non-empty. */
  method CollectModels(contexts: seq<EditContext>, rows: seq<seq<EntryRow>>, id: int) returns (models: seq<ModelEntry>)
    requires |rows| == |contexts|
    ensures models == ModelsFor(contexts, rows, id)
  {
    models := [];
    var c := 0;
    while c < |contexts|
      invariant 0 <= c <= |contexts|
      invariant models == Complete(CardEntries(contexts[..c], rows[..c], id))
    {
      CollectStep(contexts, rows, id, c);
      if contexts[c].nodeId == id {
        var kept := CompleteEntries(rows[c]);
        models := models + kept;
      }
      c := c + 1;
    }
    assert contexts[..|contexts|] == contexts && rows[..|rows|] == rows;
  }

  /** The loop of `updateJsonData` over the edited nodes: each node id's
      complete entries go to the first node with that id, a node without
      properties getting an empty record first, and an empty list removing
      the key. */
  method UpdateNodes(nodes: seq<Node>, contexts: seq<EditContext>, rows: seq<seq<EntryRow>>) returns (ns: seq<Node>)
    requires |rows| == |contexts|
    ensures ns == WriteBackAll(nodes, contexts, rows)
  {
    ns := nodes;
    var k := 0;
    while k < |contexts|
      invariant 0 <= k <= |contexts|
      invariant ns == WriteBackUpTo(nodes, contexts, rows, k)
    {
      var id := contexts[k].nodeId;
      var models := CollectModels(contexts, rows, id);
      WriteBackUpToNext(nodes, contexts, rows, k);
      ns := WriteOne(ns, id, models);
      k := k + 1;
    }
  }
}
