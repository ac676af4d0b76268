/**
 * The lineage plotter (utils/graph.py): reads the lineage document attached
 * to a file and draws every input it names, recursively, as a digraph whose
 * edges point from each input to the node that used it.
 */
module Graph {
  import opened Wrappers
  import opened Paths
  import opened Disks

  /**
   * One entry of a document's "inputs" list, as `json.loads` returns it:
   * the keys "path", "url" and "history" may each be absent.
   */
  datatype Record = Record(path: Option<string>, url: Option<string>, history: Option<History>)

  /**
   * The value under "history": a JSON string (as the manifest stores it),
   * an object without an "inputs" key, or an object with an "inputs" list.
   */
  datatype History = Text(text: string) | NoInputs | Inputs(inputs: seq<Record>)

  /** What `json.loads` makes of the stored lineage text. */
  datatype Parsed = Malformed | Null | Value(value: History)

  datatype Node = Node(id: string, name: string)
  /** `dot.edge(tail, head)`. */
  datatype Edge = Edge(tail: string, head: string)

  /**
   * How a call of `plot` ends: normally, or by a `KeyError` (a record with
   * neither "path" nor "url") or a `TypeError` (a "history" that is a string)
   * escaping it.
   */
  datatype Status = Done | KeyErr | TypeErr

  datatype Trace = Trace(nodes: seq<Node>, edges: seq<Edge>, status: Status)

  /** The label `plot` draws for a record: the last component of its path, else its url. */
  function Label(r: Record): Option<string> {
    if r.path.Some? then Some(Basename(r.path.value)) else r.url
  }

  /**
   * What `plot(up, rs[i..], dot)` draws and how it ends; `h` is the label
   * hash. A `KeyError` out of a nested call is caught by the caller's `try`,
   * which moves on to its next record; a `TypeError` is not caught anywhere.
   */
  function WalkFrom(h: string -> string, up: string, rs: seq<Record>, i: nat): (t: Trace)
    requires i <= |rs|
    decreases Inputs(rs), |rs| - i, 1
  {
    if i == |rs| then Trace([], [], Done)
    else
      match NodeOf(h, rs[i])
      case None => Trace([], [], KeyErr)
      case Some(n) =>
        var nested := NestedTrace(h, n.id, rs, i);
        if nested.status == TypeErr then Attach(n, up, nested, Trace([], [], TypeErr))
        else Attach(n, up, nested, WalkFrom(h, up, rs, i + 1))
  }

  /** What the nested call for the "history" of `rs[i]` draws under the node `id`, and how it ends. */
  function NestedTrace(h: string -> string, id: string, rs: seq<Record>, i: nat): Trace
    requires i < |rs|
    decreases Inputs(rs), |rs| - i, 0
  {
    match rs[i].history
    case Some(Inputs(sub)) => WalkFrom(h, id, sub, 0)
    case Some(Text(_)) => Trace([], [], TypeErr)
    case _ => Trace([], [], Done)
  }

  /**
   * A node with its edge to `up`, then what the nested call drew, then what
   * the rest of the loop drew; the loop's status is the last part's.
   */
  function Attach(n: Node, up: string, nested: Trace, rest: Trace): Trace {
    Trace([n] + nested.nodes + rest.nodes, [Edge(n.id, up)] + nested.edges + rest.edges, rest.status)
  }

  function Walk(h: string -> string, up: string, rs: seq<Record>): Trace {
    WalkFrom(h, up, rs, 0)
  }

  /** Every record of the tree, parents before their nested inputs, siblings in order. */
  function PreorderFrom(rs: seq<Record>, i: nat): (p: seq<Record>)
    requires i <= |rs|
    ensures i < |rs| ==> |p| > 0 && p[0] == rs[i]
    ensures forall r :: r in rs[i..] ==> r in p
    decreases Inputs(rs), |rs| - i
  {
    if i == |rs| then []
    else
      var nested := match rs[i].history case Some(Inputs(sub)) => PreorderFrom(sub, 0) case _ => [];
      var rest := PreorderFrom(rs, i + 1);
      assert forall r :: r in rs[i..] ==> r == rs[i] || r in rs[i + 1..];
      [rs[i]] + nested + rest
  }

  function Preorder(rs: seq<Record>): seq<Record> {
    PreorderFrom(rs, 0)
  }

  /** A record `plot` draws without raising: it has a label and its history is not a string. */
  predicate Drawable(r: Record) {
    Label(r).Some? && !(r.history.Some? && r.history.value.Text?)
  }

  /** The node `plot` draws for a record, if it draws one. */
  function NodeOf(h: string -> string, r: Record): Option<Node> {
    match Label(r)
    case Some(name) => Some(Node(h(name), name))
    case None => None
  }

  predicate Complete(rs: seq<Record>) {
    forall r :: r in Preorder(rs) ==> Drawable(r)
  }

  /** `t` draws exactly the records `p`, one node each, in that order. */
  predicate Draws(h: string -> string, t: Trace, p: seq<Record>) {
    |t.nodes| == |p| && forall k :: 0 <= k < |p| ==> NodeOf(h, p[k]) == Some(t.nodes[k])
  }

  lemma DrawsAttach(h: string -> string, r: Record, up: string, nested: Trace, nestedP: seq<Record>, rest: Trace, restP: seq<Record>)
    requires Label(r).Some?
    requires Draws(h, nested, nestedP) && Draws(h, rest, restP)
    ensures Draws(h, Attach(NodeOf(h, r).value, up, nested, rest), [r] + nestedP + restP)
  {
    var t := Attach(NodeOf(h, r).value, up, nested, rest);
    var p := [r] + nestedP + restP;
    forall k | 0 <= k < |p| ensures NodeOf(h, p[k]) == Some(t.nodes[k]) {
      if k == 0 {
      } else if k < 1 + |nestedP| {
        assert t.nodes[k] == nested.nodes[k - 1] && p[k] == nestedP[k - 1];
      } else {
        assert t.nodes[k] == rest.nodes[k - 1 - |nestedP|] && p[k] == restP[k - 1 - |nestedP|];
      }
    }
  }

  /**
   * On a tree whose every record is drawable, `plot` ends normally and draws
   * one node per record, in preorder, each labelled as `Label` says and
   * identified by the hash of its label.
   */
  lemma {:induction false} WalkFromComplete(h: string -> string, up: string, rs: seq<Record>, i: nat)
    requires i <= |rs|
    requires forall r :: r in PreorderFrom(rs, i) ==> Drawable(r)
    ensures WalkFrom(h, up, rs, i).status == Done
    ensures Draws(h, WalkFrom(h, up, rs, i), PreorderFrom(rs, i))
    decreases Inputs(rs), |rs| - i
  {
    if i < |rs| {
      var r := rs[i];
      var p := PreorderFrom(rs, i);
      assert Drawable(p[0]);
      var n := NodeOf(h, r).value;
      var nestedT, nestedP := NestedTrace(h, n.id, rs, i), [];
      match r.history {
        case Some(Inputs(sub)) =>
          nestedP := PreorderFrom(sub, 0);
          assert p == [r] + nestedP + PreorderFrom(rs, i + 1);
          WalkFromComplete(h, n.id, sub, 0);
        case Some(Text(_)) =>
          assert false;
        case _ =>
          assert p == [r] + nestedP + PreorderFrom(rs, i + 1);
      }
      WalkFromComplete(h, up, rs, i + 1);
      DrawsAttach(h, r, up, nestedT, nestedP, WalkFrom(h, up, rs, i + 1), PreorderFrom(rs, i + 1));
    }
  }

  lemma WalkComplete(h: string -> string, up: string, rs: seq<Record>)
    requires Complete(rs)
    ensures Walk(h, up, rs).status == Done
    ensures Draws(h, Walk(h, up, rs), Preorder(rs))
  {
    WalkFromComplete(h, up, rs, 0);
  }

  /** Edge `k` of `t` leads to `up` or to a node drawn before its own. */
  predicate LeadsBack(t: Trace, up: string, k: nat)
    requires k < |t.edges| && |t.nodes| == |t.edges|
  {
    t.edges[k].head == up || exists j :: 0 <= j < k && t.edges[k].head == t.nodes[j].id
  }

  /** The edges form a forest rooted at `up`: an edge per node, from that node to `up` or to a node drawn before it. */
  predicate Rooted(t: Trace, up: string) {
    && |t.nodes| == |t.edges|
    && (forall k :: 0 <= k < |t.edges| ==> t.edges[k].tail == t.nodes[k].id)
    && (forall k :: 0 <= k < |t.edges| ==> LeadsBack(t, up, k))
  }

  lemma {:induction false} WalkFromRooted(h: string -> string, up: string, rs: seq<Record>, i: nat)
    requires i <= |rs|
    ensures Rooted(WalkFrom(h, up, rs, i), up)
    decreases Inputs(rs), |rs| - i
  {
    if i < |rs| && NodeOf(h, rs[i]).Some? {
      var n := NodeOf(h, rs[i]).value;
      var nested := NestedTrace(h, n.id, rs, i);
      match rs[i].history {
        case Some(Inputs(sub)) =>
          WalkFromRooted(h, n.id, sub, 0);
        case _ =>
      }
      if nested.status != TypeErr {
        WalkFromRooted(h, up, rs, i + 1);
        RootedAttach(n, up, nested, WalkFrom(h, up, rs, i + 1));
      } else {
        RootedAttach(n, up, nested, Trace([], [], TypeErr));
      }
    }
  }

  /** A node joined to `up`, followed by a forest rooted at that node and one rooted at `up`, is rooted at `up`. */
  lemma RootedAttach(n: Node, up: string, nested: Trace, rest: Trace)
    requires Rooted(nested, n.id) && Rooted(rest, up)
    ensures Rooted(Attach(n, up, nested, rest), up)
  {
    var t := Attach(n, up, nested, rest);
    var m := |nested.nodes|;
    forall k | 0 <= k < |t.edges|
      ensures t.edges[k].tail == t.nodes[k].id
      ensures LeadsBack(t, up, k)
    {
      if k == 0 {
      } else if k < 1 + m {
        assert t.edges[k] == nested.edges[k - 1] && t.nodes[k] == nested.nodes[k - 1];
        assert LeadsBack(nested, n.id, k - 1);
        NestedLeadsBack(n, up, nested, rest, k);
      } else {
        assert t.edges[k] == rest.edges[k - 1 - m] && t.nodes[k] == rest.nodes[k - 1 - m];
        assert LeadsBack(rest, up, k - 1 - m);
        RestLeadsBack(n, up, nested, rest, k);
      }
    }
  }

  /** An edge of the nested part leads to `n` itself or to a nested node drawn before it. */
  lemma NestedLeadsBack(n: Node, up: string, nested: Trace, rest: Trace, k: nat)
    requires |nested.nodes| == |nested.edges| && |rest.nodes| == |rest.edges|
    requires 1 <= k < 1 + |nested.nodes|
    requires LeadsBack(nested, n.id, k - 1)
    ensures LeadsBack(Attach(n, up, nested, rest), up, k)
  {
    var t := Attach(n, up, nested, rest);
    var i := k - 1;
    assert t.edges[k] == nested.edges[i];
    if nested.edges[i].head == n.id {
      assert t.nodes[0] == n;
    } else {
      var j :| 0 <= j < i && nested.edges[i].head == nested.nodes[j].id;
      assert t.nodes[j + 1] == nested.nodes[j];
    }
  }

  /** An edge of the rest leads to `up` or to a node of the rest drawn before it. */
  lemma RestLeadsBack(n: Node, up: string, nested: Trace, rest: Trace, k: nat)
    requires |nested.nodes| == |nested.edges| && |rest.nodes| == |rest.edges|
    requires 1 + |nested.nodes| <= k < 1 + |nested.nodes| + |rest.nodes|
    requires LeadsBack(rest, up, k - 1 - |nested.nodes|)
    ensures LeadsBack(Attach(n, up, nested, rest), up, k)
  {
    var t := Attach(n, up, nested, rest);
    var m := |nested.nodes|;
    var i := k - 1 - m;
    assert t.edges[k] == rest.edges[i];
    if rest.edges[i].head != up {
      var j :| 0 <= j < i && rest.edges[i].head == rest.nodes[j].id;
      assert t.nodes[j + 1 + m] == rest.nodes[j];
    }
  }

  lemma WalkRooted(h: string -> string, up: string, rs: seq<Record>)
    ensures Rooted(Walk(h, up, rs), up)
  {
    WalkFromRooted(h, up, rs, 0);
  }

  /**
   * The node each record of `PreorderFrom(rs, i)` is drawn below: `up` for
   * the records of the list itself, the id of the record whose "history"
   * holds it for a nested record.
   */
  function ParentIdsFrom(h: string -> string, up: string, rs: seq<Record>, i: nat): (ps: seq<string>)
    requires i <= |rs|
    ensures |ps| == |PreorderFrom(rs, i)|
    decreases Inputs(rs), |rs| - i
  {
    if i == |rs| then []
    else
      var nested := match rs[i].history
        case Some(Inputs(sub)) =>
          // a record without a label raises before its history is read, so
          // the fallback id belongs to records `plot` never draws
          var id := if Label(rs[i]).Some? then h(Label(rs[i]).value) else up;
          ParentIdsFrom(h, id, sub, 0)
        case _ => [];
      [up] + nested + ParentIdsFrom(h, up, rs, i + 1)
  }

  function ParentIds(h: string -> string, up: string, rs: seq<Record>): seq<string> {
    ParentIdsFrom(h, up, rs, 0)
  }

  /** Every node of `t` has the edge at its own position, leading from it to the parent `parents` gives. */
  predicate EdgesTo(t: Trace, parents: seq<string>) {
    && |t.nodes| == |t.edges| == |parents|
    && forall k :: 0 <= k < |t.edges| ==> t.edges[k] == Edge(t.nodes[k].id, parents[k])
  }

  lemma EdgesToAttach(n: Node, up: string, nested: Trace, nestedP: seq<string>, rest: Trace, restP: seq<string>)
    requires EdgesTo(nested, nestedP) && EdgesTo(rest, restP)
    ensures EdgesTo(Attach(n, up, nested, rest), [up] + nestedP + restP)
  {
    var t := Attach(n, up, nested, rest);
    var ps := [up] + nestedP + restP;
    var m := |nested.nodes|;
    forall k | 0 <= k < |t.edges| ensures t.edges[k] == Edge(t.nodes[k].id, ps[k]) {
      if k == 0 {
      } else if k < 1 + m {
        assert t.edges[k] == nested.edges[k - 1] && t.nodes[k] == nested.nodes[k - 1] && ps[k] == nestedP[k - 1];
      } else {
        assert t.edges[k] == rest.edges[k - 1 - m] && t.nodes[k] == rest.nodes[k - 1 - m] && ps[k] == restP[k - 1 - m];
      }
    }
  }

  /**
   * On a tree whose every record is drawable, the edge drawn with each node
   * leads from that node to exactly its parent: `up` for a record of the
   * list, the node of the record whose "history" holds it otherwise.
   */
  lemma {:induction false} WalkFromEdges(h: string -> string, up: string, rs: seq<Record>, i: nat)
    requires i <= |rs|
    requires forall r :: r in PreorderFrom(rs, i) ==> Drawable(r)
    ensures EdgesTo(WalkFrom(h, up, rs, i), ParentIdsFrom(h, up, rs, i))
    decreases Inputs(rs), |rs| - i
  {
    if i < |rs| {
      var r := rs[i];
      var p := PreorderFrom(rs, i);
      assert Drawable(p[0]);
      var n := NodeOf(h, r).value;
      var nestedT, nestedP := NestedTrace(h, n.id, rs, i), [];
      match r.history {
        case Some(Inputs(sub)) =>
          nestedP := ParentIdsFrom(h, n.id, sub, 0);
          assert p == [r] + PreorderFrom(sub, 0) + PreorderFrom(rs, i + 1);
          WalkFromEdges(h, n.id, sub, 0);
          WalkFromComplete(h, n.id, sub, 0);
        case Some(Text(_)) =>
          assert false;
        case _ =>
          assert p == [r] + PreorderFrom(rs, i + 1);
      }
      assert ParentIdsFrom(h, up, rs, i) == [up] + nestedP + ParentIdsFrom(h, up, rs, i + 1);
      WalkFromEdges(h, up, rs, i + 1);
      EdgesToAttach(n, up, nestedT, nestedP, WalkFrom(h, up, rs, i + 1), ParentIdsFrom(h, up, rs, i + 1));
    }
  }

  lemma WalkEdges(h: string -> string, up: string, rs: seq<Record>)
    requires Complete(rs)
    ensures EdgesTo(Walk(h, up, rs), ParentIds(h, up, rs))
  {
    WalkFromEdges(h, up, rs, 0);
  }

  /**
   * A nested record with neither "path" nor "url" ends only the nested loop:
   * its later siblings are skipped, the parent's next record is still drawn.
   */
  lemma NestedKeyErrorIsCaught(h: string -> string)
    ensures var missing := Record(None, None, None);
      var skipped := Record(Some("/d/y.csv"), None, None);
      var parent := Record(Some("/d/x.csv"), None, Some(Inputs([missing, skipped])));
      var sibling := Record(None, Some("http://host/z"), None);
      var t := Walk(h, "out", [parent, sibling]);
      && t.status == Done
      && t.nodes == [Node(h("x.csv"), "x.csv"), Node(h("http://host/z"), "http://host/z")]
      && t.edges == [Edge(h("x.csv"), "out"), Edge(h("http://host/z"), "out")]
  {
    var missing := Record(None, None, None);
    var skipped := Record(Some("/d/y.csv"), None, None);
    var parent := Record(Some("/d/x.csv"), None, Some(Inputs([missing, skipped])));
    var sibling := Record(None, Some("http://host/z"), None);
    BasenameExample();
    assert WalkFrom(h, h("x.csv"), [missing, skipped], 0) == Trace([], [], KeyErr);
    assert NestedTrace(h, h("x.csv"), [parent, sibling], 0) == Trace([], [], KeyErr);
    assert WalkFrom(h, "out", [parent, sibling], 2) == Trace([], [], Done);
    assert WalkFrom(h, "out", [parent, sibling], 1)
        == Trace([Node(h("http://host/z"), "http://host/z")], [Edge(h("http://host/z"), "out")], Done);
  }

  lemma BasenameExample()
    ensures Basename("/d/x.csv") == "x.csv"
  {
    var p := "/d/x.csv";
    assert p == p[..3] + p[3..];
    assert p[..3] == "/d/" && p[3..] == "x.csv";
    assert NoSlash(p[3..]);
    AfterLastSlashAppend(p[..3], p[3..]);
  }

  lemma Regroup<T>(drawn: seq<T>, x: T, nested: seq<T>, rest: seq<T>)
    ensures drawn + ([x] + nested + rest) == (drawn + [x] + nested) + rest
  {
  }

  /** `graphviz.Digraph`: the nodes and edges drawn so far, in order. */
  class Digraph {
    const comment: string
    var nodes: seq<Node>
    var edges: seq<Edge>

    constructor (comment: string)
      ensures this.comment == comment && nodes == [] && edges == []
    {
      this.comment := comment;
      nodes := [];
      edges := [];
    }

    method AddNode(id: string, name: string)
      modifies this
      ensures nodes == old(nodes) + [Node(id, name)] && edges == old(edges)
    {
      nodes := nodes + [Node(id, name)];
    }

    method AddEdge(tail: string, head: string)
      modifies this
      ensures edges == old(edges) + [Edge(tail, head)] && nodes == old(nodes)
    {
      edges := edges + [Edge(tail, head)];
    }
  }

  /**
   * `plot`'s loop before record `i`: the digraph holds what it held at the
   * call plus what `Walk` draws up to `i`, and the rest of the walk ends as
   * the whole one does.
   */
  ghost predicate Drawing(h: string -> string, up: string, rs: seq<Record>, i: nat,
                          nodes0: seq<Node>, edges0: seq<Edge>, nodes: seq<Node>, edges: seq<Edge>)
  {
    && i <= |rs|
    && nodes0 + Walk(h, up, rs).nodes == nodes + WalkFrom(h, up, rs, i).nodes
    && edges0 + Walk(h, up, rs).edges == edges + WalkFrom(h, up, rs, i).edges
    && WalkFrom(h, up, rs, i).status == Walk(h, up, rs).status
  }

  /** A pass of `plot`'s loop that draws a record and ends normally keeps `Drawing`. */
  lemma PlotStepContinues(h: string -> string, up: string, rs: seq<Record>, i: nat,
                          start: seq<Node>, startE: seq<Edge>, nodes0: seq<Node>, edges0: seq<Edge>, n: Node)
    requires i < |rs| && Drawing(h, up, rs, i, start, startE, nodes0, edges0)
    requires NodeOf(h, rs[i]) == Some(n) && NestedTrace(h, n.id, rs, i).status != TypeErr
    ensures var nested := NestedTrace(h, n.id, rs, i);
      Drawing(h, up, rs, i + 1, start, startE, nodes0 + [n] + nested.nodes, edges0 + [Edge(n.id, up)] + nested.edges)
  {
    var nested := NestedTrace(h, n.id, rs, i);
    var rest := WalkFrom(h, up, rs, i + 1);
    assert WalkFrom(h, up, rs, i) == Attach(n, up, nested, rest);
    Regroup(nodes0, n, nested.nodes, rest.nodes);
    Regroup(edges0, Edge(n.id, up), nested.edges, rest.edges);
  }

  /** A pass of `plot`'s loop that raises ends `plot` the way `Walk` does. */
  lemma PlotStepStops(h: string -> string, up: string, rs: seq<Record>, i: nat,
                      start: seq<Node>, startE: seq<Edge>, nodes0: seq<Node>, edges0: seq<Edge>)
    requires i < |rs| && Drawing(h, up, rs, i, start, startE, nodes0, edges0)
    ensures NodeOf(h, rs[i]).None? ==>
              && nodes0 == start + Walk(h, up, rs).nodes
              && edges0 == startE + Walk(h, up, rs).edges
              && KeyErr == Walk(h, up, rs).status
    ensures NodeOf(h, rs[i]).Some? && NestedTrace(h, NodeOf(h, rs[i]).value.id, rs, i).status == TypeErr ==>
              var n := NodeOf(h, rs[i]).value;
              var nested := NestedTrace(h, n.id, rs, i);
              && nodes0 + [n] + nested.nodes == start + Walk(h, up, rs).nodes
              && edges0 + [Edge(n.id, up)] + nested.edges == startE + Walk(h, up, rs).edges
              && TypeErr == Walk(h, up, rs).status
  {
  }

  /**
   * `plot(upstream, inputs, dot)`: draws what `Walk` says, and ends as `Walk`
   * says (`Done`, or the exception that escapes it).
   */
  method Plot(dot: Digraph, h: string -> string, upstream: string, inputs: seq<Record>) returns (status: Status)
    modifies dot
    ensures dot.nodes == old(dot.nodes) + Walk(h, upstream, inputs).nodes
    ensures dot.edges == old(dot.edges) + Walk(h, upstream, inputs).edges
    ensures status == Walk(h, upstream, inputs).status
    decreases Inputs(inputs), 1
  {
    for i := 0 to |inputs|
      invariant Drawing(h, upstream, inputs, i, old(dot.nodes), old(dot.edges), dot.nodes, dot.edges)
    {
      ghost var nodes0, edges0 := dot.nodes, dot.edges;
      var recordStatus := PlotRecord(dot, h, upstream, inputs, i);
      PlotStepStops(h, upstream, inputs, i, old(dot.nodes), old(dot.edges), nodes0, edges0);
      if recordStatus != Done {
        return recordStatus;
      }
      PlotStepContinues(h, upstream, inputs, i, old(dot.nodes), old(dot.edges), nodes0, edges0, NodeOf(h, inputs[i]).value);
    }
    return Done;
  }

  /**
   * One pass of `plot`'s loop: draws the record's node and its edge to
   * `upstream`, then its nested inputs; a `KeyError` out of the nested call
   * is caught here, a `TypeError` is not.
   */
  method PlotRecord(dot: Digraph, h: string -> string, upstream: string, inputs: seq<Record>, i: nat)
    returns (status: Status)
    requires i < |inputs|
    modifies dot
    ensures NodeOf(h, inputs[i]).None? ==> status == KeyErr && dot.nodes == old(dot.nodes) && dot.edges == old(dot.edges)
    ensures NodeOf(h, inputs[i]).Some? ==>
              var n := NodeOf(h, inputs[i]).value;
              var nested := NestedTrace(h, n.id, inputs, i);
              && dot.nodes == old(dot.nodes) + [n] + nested.nodes
              && dot.edges == old(dot.edges) + [Edge(n.id, upstream)] + nested.edges
              && status == (if nested.status == TypeErr then TypeErr else Done)
    decreases Inputs(inputs), 0
  {
    var input := inputs[i];
    var name: string;
    if input.path.Some? {
      var (_, tail) := Split(input.path.value);
      name := tail;
    } else if input.url.Some? {
      name := input.url.value;
    } else {
      return KeyErr;
    }
    var nodeId := h(name);
    dot.AddNode(nodeId, name);
    dot.AddEdge(nodeId, upstream);
    match input.history {
      case Some(Inputs(sub)) =>
        var nestedStatus := Plot(dot, h, nodeId, sub);
        status := if nestedStatus == TypeErr then TypeErr else Done;
      case Some(Text(_)) =>
        status := TypeErr;
      case _ =>
        status := Done;
    }
  }

  /** How `main` ends. */
  datatype Outcome =
    | NoLineage  // no lineage found, or the document is `null`: it returns before plotting
    | Crashed    // an exception escapes `main`
    | Rendered   // the graph was drawn and handed to the renderer

  /**
   * `main` for the file `source`: draws the file itself, finds its lineage
   * the way the manifest stores it (the `user.shark` attribute first, then
   * the side file, as `Lineage` says) and plots the document's "inputs"
   * below it. `parse` is `json.loads`.
   */
  method PlotLineage(fs: Fs, parse: string -> Parsed, h: string -> string, source: string)
    returns (dot: Digraph, outcome: Outcome)
    ensures fresh(dot) && dot.comment == source
    ensures |dot.nodes| > 0 && dot.nodes[0] == Node(source, Basename(source))
    ensures source !in fs.files ==> outcome == Crashed && dot.nodes == [Node(source, Basename(source))]
    ensures source in fs.files && Lineage(fs, source).None? ==>
              outcome == NoLineage && dot.nodes == [Node(source, Basename(source))] && dot.edges == []
    ensures source in fs.files && Lineage(fs, source).Some? ==>
              match parse(Lineage(fs, source).value)
              case Malformed => outcome == Crashed
              case Null => outcome == NoLineage && dot.nodes == [Node(source, Basename(source))] && dot.edges == []
              case Value(Inputs(rs)) =>
                && dot.nodes == [Node(source, Basename(source))] + Walk(h, source, rs).nodes
                && dot.edges == Walk(h, source, rs).edges
                && (outcome == Rendered <==> Walk(h, source, rs).status == Done)
                && (outcome != Rendered ==> outcome == Crashed)
              case Value(_) => outcome == Crashed
  {
    dot := new Digraph(source);
    var (_, nodeFilename) := Split(source);
    dot.AddNode(source, nodeFilename);
    if source !in fs.files {
      return dot, Crashed;
    }
    var history: Parsed := Null;
    if source in fs.attrs {
      history := parse(fs.attrs[source]);
    } else {
      var (path, filename) := Split(source);
      var sidefilename := Join(path, "." + filename + ".shark");
      if sidefilename in fs.texts {
        history := parse(fs.texts[sidefilename]);
      }
    }
    match history {
      case Malformed =>
        return dot, Crashed;
      case Null =>
        return dot, NoLineage;
      case Value(Inputs(inputs)) =>
        var status := Plot(dot, h, source, inputs);
        outcome := if status == Done then Rendered else Crashed;
      case Value(_) =>
        return dot, Crashed;
    }
  }
}
