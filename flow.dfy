/** The graph snapshot of the flow builder and the pure computations the
    `Workflow` component performs on it: the entry-point rule that gates
    saving, the text edit of the selected node, the node a drop creates, the
    edge record a connect builds and the lookup of the selected node. */
module Flow {
  import Decimal

  datatype Option<T> = None | Some(value: T)

  /** A canvas position. Its coordinates are floating-point numbers in the
      program; the model only carries them along and never computes on them. */
  datatype Position = Position(x: real, y: real)

  datatype Node = Node(id: string, nodeType: string, position: Position, text: string)

  /** What a connect gesture between two handles delivers. */
  datatype Connection = Connection(
    source: string, target: string,
    sourceHandle: Option<string>, targetHandle: Option<string>)

  datatype Edge = Edge(
    id: string, source: string, target: string,
    sourceHandle: Option<string>, targetHandle: Option<string>,
    edgeType: string, animated: bool)

  const TextNodeType: string := "textNode"
  const DefaultText: string := "Text Message"
  const CustomEdgeType: string := "customEdge"
  const RefusalMessage: string := "Error: More than one node has empty target handles."

  // ---------------------------------------------------------------------
  // The save gate

  /** Some edge ends at the node with this id (a self-loop included). */
  predicate HasIncoming(edges: seq<Edge>, id: string) {
    exists i :: 0 <= i < |edges| && edges[i].target == id
  }

  /** The set of all edge targets. */
  function Targets(edges: seq<Edge>): (r: set<string>)
    ensures forall id :: id in r <==> HasIncoming(edges, id)
  {
    if edges == [] then {}
    else
      var init := edges[..|edges| - 1];
      var r := Targets(init) + {edges[|edges| - 1].target};
      assert forall id :: HasIncoming(init, id) ==> HasIncoming(edges, id) by {
        forall id | HasIncoming(init, id) ensures HasIncoming(edges, id) {
          var i :| 0 <= i < |init| && init[i].target == id;
          assert edges[i].target == id;
        }
      }
      assert forall id :: HasIncoming(edges, id) ==> id in r by {
        forall id | HasIncoming(edges, id) ensures id in r {
          var i :| 0 <= i < |edges| && edges[i].target == id;
          if i < |init| { assert init[i].target == id; }
        }
      }
      r
  }

  /** The nodes, in list order, whose id is not among `targets`; a node listed
      twice is kept twice. */
  function Unreached(nodes: seq<Node>, targets: set<string>): (r: seq<Node>)
    ensures |r| <= |nodes|
    ensures forall i :: 0 <= i < |r| ==> r[i].id !in targets
  {
    if nodes == [] then []
    else
      var init := nodes[..|nodes| - 1];
      var last := nodes[|nodes| - 1];
      assert nodes == init + [last];
      if last.id in targets then Unreached(init, targets)
      else Unreached(init, targets) + [last]
  }

  /** The filter keeps exactly the nodes whose id is not among `targets`. */
  lemma {:induction false} UnreachedMembers(nodes: seq<Node>, targets: set<string>, n: Node)
    ensures n in Unreached(nodes, targets) <==> n in nodes && n.id !in targets
  {
    if nodes != [] {
      var init := nodes[..|nodes| - 1];
      assert nodes == init + [nodes[|nodes| - 1]];
      UnreachedMembers(init, targets, n);
    }
  }

  /** The positions in the node list that hold a node whose id is not
      among `targets`. */
  function UnreachedAt(nodes: seq<Node>, targets: set<string>): set<nat> {
    set i: nat | i < |nodes| && nodes[i].id !in targets
  }

  /** Whether a save of this snapshot goes through. */
  predicate SaveAllowed(nodes: seq<Node>, edges: seq<Edge>) {
    |nodes| <= 1 || |Unreached(nodes, Targets(edges))| <= 1
  }

  /** The filtered list holds one entry per list position whose node is
      unreached: duplicates are counted per entry, not per distinct id. */
  lemma {:induction false} UnreachedCountsPositions(nodes: seq<Node>, targets: set<string>)
    ensures |Unreached(nodes, targets)| == |UnreachedAt(nodes, targets)|
  {
    if nodes != [] {
      var k := |nodes| - 1;
      var init := nodes[..k];
      UnreachedCountsPositions(init, targets);
      var previous := UnreachedAt(init, targets);
      assert forall i :: 0 <= i < k ==> init[i] == nodes[i];
      var now := UnreachedAt(nodes, targets);
      if nodes[k].id in targets {
        assert Unreached(nodes, targets) == Unreached(init, targets);
        forall i: nat ensures i in now <==> i in previous {
          if i < k { assert init[i] == nodes[i]; }
        }
        assert now == previous;
      } else {
        forall i: nat ensures i in now <==> i in previous + {k} {
          if i < k { assert init[i] == nodes[i]; }
        }
        assert now == previous + {k};
        assert k !in previous;
        assert Unreached(nodes, targets) == Unreached(init, targets) + [nodes[k]];
      }
    }
  }

  /** A set of positions has two members exactly when it holds two distinct
      ones; supports SaveRefusedIff. */
  lemma TwoMembers(s: set<nat>)
    ensures |s| >= 2 <==> exists i, j :: i in s && j in s && i < j
  {
    if |s| >= 2 {
      var i :| i in s;
      assert |s - {i}| >= 1;
      var j :| j in s - {i};
      if i < j { assert i in s && j in s && i < j; } else { assert j in s && i in s && j < i; }
    }
    if exists i, j :: i in s && j in s && i < j {
      var i, j :| i in s && j in s && i < j;
      assert j in s - {i};
      assert |s - {i}| == |s| - 1;
    }
  }

  /** The save gate in list terms: a save is refused exactly when two
      different list positions hold nodes that no edge ends at. With zero or
      one node there are no two positions, so such a graph is always saved. */
  lemma SaveRefusedIff(nodes: seq<Node>, edges: seq<Edge>)
    ensures !SaveAllowed(nodes, edges) <==>
      exists i, j :: 0 <= i < j < |nodes| &&
        !HasIncoming(edges, nodes[i].id) && !HasIncoming(edges, nodes[j].id)
  {
    var s := UnreachedAt(nodes, Targets(edges));
    UnreachedCountsPositions(nodes, Targets(edges));
    TwoMembers(s);
    if exists i, j :: 0 <= i < j < |nodes| &&
        !HasIncoming(edges, nodes[i].id) && !HasIncoming(edges, nodes[j].id) {
      var i, j :| 0 <= i < j < |nodes| &&
        !HasIncoming(edges, nodes[i].id) && !HasIncoming(edges, nodes[j].id);
      assert i in s && j in s;
    }
  }

  /** A graph with at least two nodes and a single entry point is saved. */
  lemma SingleEntryPointSaved(nodes: seq<Node>, edges: seq<Edge>, k: nat)
    requires k < |nodes| && !HasIncoming(edges, nodes[k].id)
    requires forall i :: 0 <= i < |nodes| && i != k ==> HasIncoming(edges, nodes[i].id)
    ensures SaveAllowed(nodes, edges)
  {
    SaveRefusedIff(nodes, edges);
  }

  /** Edges decide the gate only through their targets: two edge lists with
      the same targets give the same verdict, whatever their sources. */
  lemma OnlyTargetsMatter(nodes: seq<Node>, edges: seq<Edge>, others: seq<Edge>)
    requires forall id :: HasIncoming(edges, id) <==> HasIncoming(others, id)
    ensures SaveAllowed(nodes, edges) == SaveAllowed(nodes, others)
  {
    assert Targets(edges) == Targets(others);
  }

  /** Two nodes no edge ends at: refused. This covers two isolated nodes,
      and the same node listed twice. */
  lemma TwoEntryPointsRefused(nodes: seq<Node>, edges: seq<Edge>, i: nat, j: nat)
    requires i < j < |nodes|
    requires forall e :: e in edges ==> e.target != nodes[i].id && e.target != nodes[j].id
    ensures !SaveAllowed(nodes, edges)
  {
    SaveRefusedIff(nodes, edges);
    assert !HasIncoming(edges, nodes[i].id) && !HasIncoming(edges, nodes[j].id);
  }

  /** Small graphs: one node, two isolated nodes, a chain, a chain plus an
      isolated node, a self-loop and a duplicated entry. */
  lemma GateExamples(a: Node, b: Node, c: Node, e: Edge, loop: Edge)
    requires a.id == "1" && b.id == "2" && c.id == "3"
    requires e.source == "1" && e.target == "2"
    requires loop.source == "2" && loop.target == "2"
    ensures SaveAllowed([a], [])
    ensures !SaveAllowed([a, b], [])
    ensures SaveAllowed([a, b], [e])
    ensures !SaveAllowed([a, b, c], [e])
    ensures SaveAllowed([a, b], [loop])
    ensures !SaveAllowed([a, a], [e])
  {
    TwoEntryPointsRefused([a, b], [], 0, 1);
    TwoEntryPointsRefused([a, b, c], [e], 0, 2);
    TwoEntryPointsRefused([a, a], [e], 0, 1);
    SingleEntryPointSaved([a, b], [e], 0);
    assert [loop][0].target == b.id;
    SingleEntryPointSaved([a, b], [loop], 0);
  }

  // ---------------------------------------------------------------------
  // The selected node

  /** Node n is the one the settings panel shows for this selection. */
  predicate Matches(n: Node, selected: Option<string>) {
    selected.Some? && n.id == selected.value && n.nodeType == TextNodeType
  }

  /** Position k holds the first node that matches the selection. */
  predicate FirstMatch(nodes: seq<Node>, selected: Option<string>, k: int) {
    0 <= k < |nodes| && Matches(nodes[k], selected) &&
    forall j :: 0 <= j < k ==> !Matches(nodes[j], selected)
  }

  /** The first node whose id is the selected id and whose type is the text
      node type; none when nothing is selected. */
  function FindSelected(nodes: seq<Node>, selected: Option<string>): (r: Option<Node>)
    ensures r.Some? ==> exists k :: FirstMatch(nodes, selected, k) && nodes[k] == r.value
    ensures r.None? <==> forall k :: 0 <= k < |nodes| ==> !Matches(nodes[k], selected)
    ensures selected.None? ==> r.None?
  {
    if nodes == [] then None
    else if Matches(nodes[0], selected) then
      assert nodes[0] == nodes[0] && Matches(nodes[0], selected);
      Some(nodes[0])
    else
      var r := FindSelected(nodes[1..], selected);
      assert forall k :: 0 < k < |nodes| ==> nodes[k] == nodes[1..][k - 1];
      if r.Some? then
        var k :| FirstMatch(nodes[1..], selected, k) && nodes[1..][k] == r.value;
        assert FirstMatch(nodes, selected, k + 1);
        r
      else r
  }

  // ---------------------------------------------------------------------
  // The text edit

  /** Every node whose id is `id` gets the new text; all others are kept. */
  function SetText(nodes: seq<Node>, id: string, text: string): (r: seq<Node>)
    ensures |r| == |nodes|
    ensures forall i :: 0 <= i < |nodes| ==>
      r[i] == if nodes[i].id == id then nodes[i].(text := text) else nodes[i]
  {
    if nodes == [] then []
    else [if nodes[0].id == id then nodes[0].(text := text) else nodes[0]] + SetText(nodes[1..], id, text)
  }

  /** A text edit changes no id, type or position, so it changes neither the
      save verdict nor which node is selected... */
  lemma SetTextKeepsShape(nodes: seq<Node>, edges: seq<Edge>, id: string, text: string,
                          selected: Option<string>)
    ensures SaveAllowed(SetText(nodes, id, text), edges) == SaveAllowed(nodes, edges)
    ensures FindSelected(SetText(nodes, id, text), selected).Some? == FindSelected(nodes, selected).Some?
  {
    var r := SetText(nodes, id, text);
    SaveRefusedIff(nodes, edges);
    SaveRefusedIff(r, edges);
    assert forall i :: 0 <= i < |nodes| ==> r[i].id == nodes[i].id && Matches(r[i], selected) == Matches(nodes[i], selected);
  }

  /** ... and the panel then shows the selected node with the new text. */
  lemma {:induction false} SetTextShown(nodes: seq<Node>, selected: Option<string>, text: string)
    requires FindSelected(nodes, selected).Some?
    ensures FindSelected(SetText(nodes, FindSelected(nodes, selected).value.id, text), selected)
      == Some(FindSelected(nodes, selected).value.(text := text))
  {
    var n := FindSelected(nodes, selected).value;
    var r := SetText(nodes, n.id, text);
    if Matches(nodes[0], selected) {
      assert n == nodes[0] && r[0] == n.(text := text);
    } else {
      assert FindSelected(nodes[1..], selected) == Some(n);
      SetTextShown(nodes[1..], selected, text);
      assert !Matches(r[0], selected);
      assert r[1..] == SetText(nodes[1..], n.id, text);
    }
  }

  /** Editing twice with the same text is editing once. */
  lemma SetTextIdempotent(nodes: seq<Node>, id: string, text: string)
    ensures SetText(SetText(nodes, id, text), id, text) == SetText(nodes, id, text)
  {
  }

  // ---------------------------------------------------------------------
  // Node creation on drop

  /** The node a drop of the text-node palette item creates. */
  function NewTextNode(id: string, position: Position): Node {
    Node(id, TextNodeType, position, DefaultText)
  }

  /** A freshly dropped node is an entry point until something connects to
      it: dropping it next to an existing entry point makes the save refused. */
  lemma DropAddsEntryPoint(nodes: seq<Node>, edges: seq<Edge>, id: string, position: Position, k: nat)
    requires k < |nodes| && !HasIncoming(edges, nodes[k].id)
    requires !HasIncoming(edges, id)
    ensures !SaveAllowed(nodes + [NewTextNode(id, position)], edges)
  {
    var r := nodes + [NewTextNode(id, position)];
    assert r[k] == nodes[k] && r[|nodes|].id == id;
    SaveRefusedIff(r, edges);
  }

  /** Nodes ahead of the first match do not change what the lookup finds. */
  lemma {:induction false} FindSelectedSkips(front: seq<Node>, back: seq<Node>, selected: Option<string>)
    requires forall i :: 0 <= i < |front| ==> !Matches(front[i], selected)
    ensures FindSelected(front + back, selected) == FindSelected(back, selected)
  {
    if front != [] {
      assert !Matches((front + back)[0], selected);
      assert (front + back)[1..] == front[1..] + back;
      FindSelectedSkips(front[1..], back, selected);
    } else {
      assert front + back == back;
    }
  }

  /** Selecting a freshly dropped node whose id no other node has shows it. */
  lemma DropSelectable(nodes: seq<Node>, id: string, position: Position)
    requires forall i :: 0 <= i < |nodes| ==> nodes[i].id != id
    ensures FindSelected(nodes + [NewTextNode(id, position)], Some(id)) == Some(NewTextNode(id, position))
  {
    FindSelectedSkips(nodes, [NewTextNode(id, position)], Some(id));
    assert Matches(NewTextNode(id, position), Some(id));
  }

  // ---------------------------------------------------------------------
  // The edge record of a connect

  /** The id given to an edge created when the list holds `count` edges: the
      decimal count followed by the literal text " + 1". */
  function EdgeId(count: nat): string {
    Decimal.Show(count) + " + 1"
  }

  function ConnectEdge(c: Connection, count: nat): Edge {
    Edge(EdgeId(count), c.source, c.target, c.sourceHandle, c.targetHandle, CustomEdgeType, true)
  }

  /** Edge ids built at different counts differ. */
  lemma EdgeIdInjective(a: nat, b: nat)
    ensures EdgeId(a) == EdgeId(b) <==> a == b
  {
    if EdgeId(a) == EdgeId(b) {
      var s := EdgeId(a);
      assert Decimal.Show(a) == s[..|s| - 4] == Decimal.Show(b);
      Decimal.ShowInjective(a, b);
    }
  }

  /** Edge list built by connects alone: the edge at position i got its id
      when the list held i edges. */
  predicate NumberedByConnect(edges: seq<Edge>) {
    forall i :: 0 <= i < |edges| ==> edges[i].id == EdgeId(i)
  }

  /** Connecting keeps such a list numbered, and in such a list no two edges
      share an id. */
  lemma ConnectKeepsNumbering(edges: seq<Edge>, c: Connection)
    requires NumberedByConnect(edges)
    ensures NumberedByConnect(edges + [ConnectEdge(c, |edges|)])
    ensures forall i, j :: 0 <= i < j < |edges| ==> edges[i].id != edges[j].id
  {
    forall i, j | 0 <= i < j < |edges| ensures edges[i].id != edges[j].id {
      EdgeIdInjective(i, j);
    }
  }
}
