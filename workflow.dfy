/** The state of the `Workflow` component and its event handlers: the node
    and edge lists, the selected node id, the error text, and the "flow"
    slot of the browser's local storage. */
module Workflow {
  import opened Flow

  /** A record read from the "flow" slot. A field that is missing or null in
      the stored record is None. */
  datatype StoredFlow = StoredFlow(nodes: Option<seq<Node>>, edges: Option<seq<Edge>>)

  /** The record a save writes. */
  function Snapshot(nodes: seq<Node>, edges: seq<Edge>): StoredFlow {
    StoredFlow(Some(nodes), Some(edges))
  }

  /** A missing field reads as the empty list. */
  function OrEmpty<T>(field: Option<seq<T>>): seq<T> {
    if field.Some? then field.value else []
  }

  class Workflow {
    var nodes: seq<Node>
    var edges: seq<Edge>
    var selected: Option<string>
    var error: Option<string>
    /** The "flow" slot; None when the key is absent or holds empty text. */
    var storage: Option<StoredFlow>

    /** The slot holds what a save writes: both lists, passing the gate. */
    ghost predicate SlotHoldsSavedFlow()
      reads this
    {
      storage.Some? ==>
        storage.value.nodes.Some? && storage.value.edges.Some? &&
        SaveAllowed(storage.value.nodes.value, storage.value.edges.value)
    }

    /** The component as first rendered: the initial nodes, no edges, nothing
        selected, no error; `slot` is what local storage already holds. */
    constructor (initialNodes: seq<Node>, slot: Option<StoredFlow>)
      ensures nodes == initialNodes && edges == []
      ensures selected == None && error == None && storage == slot
    {
      nodes := initialNodes;
      edges := [];
      selected := None;
      error := None;
      storage := slot;
    }

    /** The save button. Refused exactly when the gate fails; then only the
        error text changes. Otherwise the slot is overwritten with the current
        lists and the error is cleared. The lists are never changed. */
    method Save() returns (saved: bool)
      modifies this
      ensures saved == SaveAllowed(nodes, edges)
      ensures nodes == old(nodes) && edges == old(edges) && selected == old(selected)
      ensures saved ==> storage == Some(Snapshot(nodes, edges)) && error == None
      ensures !saved ==> storage == old(storage) && error == Some(RefusalMessage)
      ensures old(SlotHoldsSavedFlow()) ==> SlotHoldsSavedFlow()
    {
      error := None;
      if |nodes| > 1 {
        var incoming := Targets(edges);
        var entryPoints := Unreached(nodes, incoming);
        if |entryPoints| > 1 {
          error := Some(RefusalMessage);
          return false;
        }
      }
      storage := Some(Snapshot(nodes, edges));
      error := None;
      saved := true;
    }

    /** The load on start. A non-empty slot replaces both lists, a missing
        field by the empty list; an empty slot leaves them as they are. A
        slot written by a save yields lists that pass the gate again. */
    method Load()
      modifies this
      ensures storage == old(storage) && selected == old(selected) && error == old(error)
      ensures storage.None? ==> nodes == old(nodes) && edges == old(edges)
      ensures storage.Some? ==>
        nodes == OrEmpty(storage.value.nodes) && edges == OrEmpty(storage.value.edges)
      ensures SlotHoldsSavedFlow() && storage.Some? ==> SaveAllowed(nodes, edges)
    {
      if storage.Some? {
        var saved := storage.value;
        nodes := OrEmpty(saved.nodes);
        edges := OrEmpty(saved.edges);
      }
    }

    /** A click on a node (Some) or on the empty canvas (None). */
    method Select(id: Option<string>)
      modifies this
      ensures selected == id
      ensures nodes == old(nodes) && edges == old(edges)
      ensures error == old(error) && storage == old(storage)
    {
      selected := id;
    }

    /** The settings panel's text field. It exists only while a node is
        selected; an edit rewrites the text of every node that has the
        selected node's id and nothing else. */
    method UpdateText(text: string)
      modifies this
      ensures var shown := FindSelected(old(nodes), selected);
        nodes == if shown.Some? then SetText(old(nodes), shown.value.id, text) else old(nodes)
      ensures edges == old(edges) && selected == old(selected)
      ensures error == old(error) && storage == old(storage)
      ensures FindSelected(old(nodes), selected).Some? ==>
        FindSelected(nodes, selected) == Some(FindSelected(old(nodes), selected).value.(text := text))
    {
      var shown := FindSelected(nodes, selected);
      if shown.Some? {
        SetTextShown(nodes, selected, text);
        nodes := SetText(nodes, shown.value.id, text);
      }
    }

    /** A drop on the canvas. Only the text-node palette item creates a node;
        `id` stands for the timestamp the program derives the id from, and
        `position` for the projected drop point. */
    method Drop(dragType: string, id: string, position: Position)
      modifies this
      ensures dragType == TextNodeType ==> nodes == old(nodes) + [NewTextNode(id, position)]
      ensures dragType != TextNodeType ==> nodes == old(nodes)
      ensures edges == old(edges) && selected == old(selected)
      ensures error == old(error) && storage == old(storage)
    {
      if dragType == TextNodeType {
        nodes := nodes + [NewTextNode(id, position)];
      }
    }

    /** A connect gesture. The new edge is animated, of the custom edge type,
        and its id is built from the current number of edges. */
    method Connect(c: Connection) returns (e: Edge)
      modifies this
      ensures e.source == c.source && e.target == c.target
      ensures e.sourceHandle == c.sourceHandle && e.targetHandle == c.targetHandle
      ensures e.animated && e.edgeType == CustomEdgeType && e.id == EdgeId(|old(edges)|)
      ensures edges == old(edges) + [e]
      ensures nodes == old(nodes) && selected == old(selected)
      ensures error == old(error) && storage == old(storage)
    {
      e := ConnectEdge(c, |edges|);
      edges := edges + [e];
    }
  }

  /** Save, then reload the page: the new component instance starts from
      its initial nodes and loads the slot. After a successful save it shows
      the saved graph; after a refused save the slot kept its earlier value,
      so it shows the flow saved before, or the initial nodes and no edges
      when the slot is empty. */
  method ReloadRestoresSaved(w: Workflow, initialNodes: seq<Node>) returns (w2: Workflow)
    modifies w
    ensures SaveAllowed(old(w.nodes), old(w.edges)) ==>
      w2.nodes == old(w.nodes) && w2.edges == old(w.edges)
    ensures !SaveAllowed(old(w.nodes), old(w.edges)) && old(w.storage).Some? ==>
      w2.nodes == OrEmpty(old(w.storage).value.nodes) && w2.edges == OrEmpty(old(w.storage).value.edges)
    ensures !SaveAllowed(old(w.nodes), old(w.edges)) && old(w.storage).None? ==>
      w2.nodes == initialNodes && w2.edges == []
  {
    var ok := w.Save();
    w2 := new Workflow(initialNodes, w.storage);
    w2.Load();
  }

  /** Edge ids are not unique in general. When the list already holds an edge
      whose id was built at the current count (possible once an edge has been
      removed, which the graph library does), a connect builds that id again. */
  method ConnectCanReuseId(w: Workflow, c: Connection, k: nat) returns (e: Edge)
    requires k < |w.edges| && w.edges[k].id == EdgeId(|w.edges|)
    modifies w
    ensures k < |w.edges| - 1 && w.edges[k].id == e.id && w.edges[|w.edges| - 1] == e
  {
    e := w.Connect(c);
  }

  /** A save overwrites the slot in full: saving twice in a row stores what
      saving once stores, and a refused save leaves the slot alone. */
  method SaveTwice(w: Workflow)
    modifies w
    ensures w.storage == if SaveAllowed(old(w.nodes), old(w.edges))
      then Some(Snapshot(old(w.nodes), old(w.edges))) else old(w.storage)
  {
    var first := w.Save();
    var once := w.storage;
    var second := w.Save();
    assert w.storage == once;
  }
}
