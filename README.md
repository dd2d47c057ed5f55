# Flow builder: the `Workflow` component as a Dafny model

The flow builder is a browser editor for small directed message flows: text
nodes are dropped onto a canvas, connected by edges, given text in a settings
panel, and the graph is saved to the browser's local storage under the key
`"flow"`. All of its logic lives in the `Workflow` component
(`src/Workflow/Workflow.tsx`); this project models that component.

- `decimal.dfy` — module `Decimal`: the decimal text of a natural number (how
  the edge count is rendered inside an edge id), its inverse `Parse`, and the
  round trip between them.
- `flow.dfy` — module `Flow`: nodes, edges and connections as datatypes, and
  the pure computations of the component. These are the save gate (the set of
  edge targets and the list of nodes outside it), the lookup of the selected
  node, the text edit, the node a drop creates and the edge record a connect
  builds. The lemmas here characterise the gate, relate the operations to it
  and to each other, and state when edge ids can and cannot collide.
- `workflow.dfy` — module `Workflow`: class `Workflow` holding the
  component's state (`nodes`, `edges`, `selected`, `error`) and the `"flow"`
  slot (`storage`). Its methods are the event handlers `Save`, `Load`,
  `Select`, `UpdateText`, `Drop` and `Connect`. Each method states its whole
  new state in terms of the old one and the functions of `Flow`. Three client
  methods show the save/reload/load round trip, that repeated saves
  overwrite, and that a connect can repeat an edge id.

The save gate: with two or more nodes, a save is refused when more than one
node is an entry point, meaning no edge has that node's id as its target. A
self-loop counts as an incoming edge. A node listed twice is counted twice.
Sources, cycles and connectivity play no part.

Three details of the code that the model keeps:
- the node type is `"textNode"`;
- loading with an empty slot leaves the current (initial) nodes and edges as
  they are;
- the edge id is the text `"<count> + 1"`: the decimal edge count followed by
  the literal text `" + 1"` (for example `"0 + 1"`).

## Model

| member | source | states |
|---|---|---|
| Flow.Targets | src/Workflow/Workflow.tsx:57 | an id is in the target set exactly when some edge has it as target (a self-loop included) |
| Flow.Unreached | src/Workflow/Workflow.tsx:58 | the filtered list is no longer than the node list and every node in it has an id outside the target set |
| Flow.UnreachedMembers | src/Workflow/Workflow.tsx:58 | a node is in the filtered list exactly when it is in the node list and its id is not a target |
| Flow.SaveAllowed | src/Workflow/Workflow.tsx:56-59 | the validator: a save passes when there are at most one node, or at most one node in the filtered list of nodes whose id is no edge target |
| Flow.UnreachedCountsPositions | src/Workflow/Workflow.tsx:58-59 | the filtered list's length is the number of list positions holding an unreached node, so duplicates count per entry |
| Flow.SaveRefusedIff | src/Workflow/Workflow.tsx:56-61 | a save is refused exactly when two distinct list positions hold nodes no edge ends at; hence zero or one node is always saved |
| Flow.SingleEntryPointSaved | src/Workflow/Workflow.tsx:56-59 | a graph where every node but one has an incoming edge is saved |
| Flow.TwoEntryPointsRefused | src/Workflow/Workflow.tsx:57-61 | two list positions whose nodes no edge targets make the save refused (two isolated nodes, or one node listed twice) |
| Flow.OnlyTargetsMatter | src/Workflow/Workflow.tsx:57 | two edge lists with the same targets give the same verdict, whatever their sources |
| Flow.GateExamples | src/Workflow/Workflow.tsx:56-59 | one node saved; two isolated refused; chain 1 to 2 saved; chain 1 to 2 plus isolated 3 refused; a self-loop on node 2 makes it reached; a duplicated node is refused |
| Flow.Matches | src/Workflow/Workflow.tsx:52 | the `find` test: something is selected, the node's id is the selected id and its type is "textNode" |
| Flow.FindSelected | src/Workflow/Workflow.tsx:52 | the result is the first node whose id is the selected id and whose type is "textNode"; none exactly when no node matches, and always none when nothing is selected |
| Flow.FindSelectedSkips | src/Workflow/Workflow.tsx:52 | nodes ahead of the first match do not change what the lookup finds |
| Flow.SetText | src/Workflow/Workflow.tsx:85 | the list keeps its length and order; each node with the given id gets the new text and only that field changes; every other node is identical |
| Flow.SetTextKeepsShape | src/Workflow/Workflow.tsx:85 | a text edit changes neither the save verdict nor whether a selected node is found |
| Flow.SetTextShown | src/Workflow/Workflow.tsx:82-85 | after the panel's edit, the selected node is found again with the new text |
| Flow.SetTextIdempotent | src/Workflow/Workflow.tsx:85 | repeating the same edit changes nothing further |
| Flow.NewTextNode | src/Workflow/Workflow.tsx:133-138 | the node a drop creates: the given id and position, type "textNode", text "Text Message" |
| Flow.DropAddsEntryPoint | src/Workflow/Workflow.tsx:131-139 | a dropped node nothing connects to, added next to an existing entry point, makes the save refused |
| Flow.DropSelectable | src/Workflow/Workflow.tsx:131-139 | selecting a dropped node whose id is new finds exactly that node (type "textNode", text "Text Message") |
| Flow.EdgeId | src/Workflow/Workflow.tsx:44 | the id of an edge built at a given count: the decimal count followed by the literal text " + 1" |
| Flow.ConnectEdge | src/Workflow/Workflow.tsx:41-46 | the edge record of a connect: the connection's endpoints and handles, animated, type "customEdge", id from the count |
| Flow.EdgeIdInjective | src/Workflow/Workflow.tsx:44 | edge ids built at two counts are equal exactly when the counts are equal |
| Flow.ConnectKeepsNumbering | src/Workflow/Workflow.tsx:41-47 | if every edge's id was built from its position, one more connect keeps that true, and such a list has pairwise distinct ids |
| Decimal.Show | src/Workflow/Workflow.tsx:44 | the rendering of a count is non-empty, all digits, and starts with '0' only for zero |
| Decimal.ParseShow | src/Workflow/Workflow.tsx:44 | reading back the rendering of a count gives the count |
| Decimal.ShowInjective | src/Workflow/Workflow.tsx:44 | two counts render alike exactly when they are equal |
| Workflow.Workflow.constructor | src/Workflow/Workflow.tsx:33-36 | the component starts with the initial nodes, no edges, no selection and no error |
| Workflow.Workflow.Save | src/Workflow/Workflow.tsx:54-68 | saved exactly when the gate passes; then the slot holds exactly the current lists and the error is cleared; when refused, the error is the fixed message and the slot is unchanged; the lists never change; a slot written only by saves stays a gate-passing flow |
| Workflow.Workflow.Load | src/Workflow/Workflow.tsx:70-77 | a non-empty slot replaces both lists, a missing field by the empty list; an empty slot leaves them unchanged; a slot written by a save yields lists that pass the gate |
| Workflow.Workflow.Select | src/Workflow/Workflow.tsx:146-147 | a node click selects its id, a canvas click clears the selection; nothing else changes |
| Workflow.Workflow.UpdateText | src/Workflow/Workflow.tsx:82-86 | with a node selected, its id's nodes get the new text and the panel then shows it; with none selected nothing changes |
| Workflow.Workflow.Drop | src/Workflow/Workflow.tsx:122-141 | a "textNode" drop appends one node with that type and text "Text Message" after the existing nodes; any other drag type leaves the nodes unchanged |
| Workflow.Workflow.Connect | src/Workflow/Workflow.tsx:39-47 | the new edge keeps the connection's endpoints and handles, is animated, has type "customEdge" and the id built from the old edge count, and is appended |
| Workflow.ReloadRestoresSaved | src/Workflow/Workflow.tsx:54-76 | save, then a reload (a new component on the same slot) and its load: after a successful save it shows exactly the saved nodes and edges; after a refused save it shows the flow the slot held before (missing fields empty), or the initial nodes and no edges when the slot was empty |
| Workflow.ConnectCanReuseId | src/Workflow/Workflow.tsx:39-47 | when the list already holds an edge whose id was built at the current count, a connect appends an edge with that same id: ids are not unique in general; that state arises only after an edge is removed, which happens in the graph library and is not modelled |
| Workflow.Snapshot | src/Workflow/Workflow.tsx:64 | the record a save writes: both lists, present |
| Workflow.OrEmpty | src/Workflow/Workflow.tsx:74-75 | a field read from the slot: its list when present, the empty list when missing |
| Workflow.SaveTwice | src/Workflow/Workflow.tsx:64-66 | a second save in a row leaves the slot as the first left it |

## Left out

- Rendering: the JSX layout of `Workflow` and the components `TextNode`,
  `SettingsPanel`, `SaveButton` and `App`. They only compose the UI.
- Workflow.Workflow.Connect: treats the graph library's `addEdge` as a plain
  append. That library is not part of this model, and whatever duplicate check it
  makes is not modelled.
- Node and edge deletion: this happens inside the graph library's
  `onNodesChange` and `onEdgesChange` handlers, which are not part of this model.
  So the model cannot state that deleting a node removes its incident edges.
- Workflow.Workflow.Drop: the drop position comes from the library's
  `project` call and floating-point screen arithmetic. The model takes it as
  a parameter and never computes on it.
- Workflow.Workflow.Drop: the node id is derived from the wall clock. The
  model takes it as a parameter `id`, so two drops in the same millisecond
  (same id) are possible in the model as in the program.
- JSON encoding and `localStorage`: the slot holds an abstract record. An
  empty text in the slot is treated like an absent key. Parse failures and
  storage quota errors are not modelled.
- The `alert` after a save and the display of the error text are
  notifications only. The Boolean result of `Save` stands in for the alert.
- `Workflow.constants` (the initial nodes), `CustomEdge` and `CustomHandle`
  are not part of this model. The initial nodes are a constructor parameter.
