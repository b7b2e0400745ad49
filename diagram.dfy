/** The renderer's module-level state and the operations that change it:
    index building, connector drawing, focus and defocus, and the two click
    handlers. The node and connector elements are represented only by the
    classes the focus logic toggles on them. */
module Diagram {
  import opened Records
  import opened Indexer
  import opened Layout
  import opened Routing
  import opened Focus

  class Renderer {
    /** The loaded node list; `buildIndexes` fills in `parent` fields in place. */
    var classification: seq<Node>
    /** Id to record, the record named by its position in `classification`. */
    var nodesById: map<string, nat>
    var childrenOf: map<string, seq<string>>
    var parentsOf: map<string, string>
    /** `NODE_WIDTH` and `NODE_HEIGHT`. */
    var box: Size
    /** The width and height `autosize` last gave the canvas, if it has run. */
    var extent: Option<Extent>
    /** The polylines on the connector surface, in drawing order. */
    var connectors: seq<Connector>
    /** The classes of the node elements, one per record, in list order. */
    var nodeMarks: seq<Mark>
    /** Whether each connector carries the `dimmed` class. */
    var connectorDimmed: seq<bool>
    /** Which focus the classes on the page currently show. */
    ghost var focus: FocusState

    /** The three maps are those of the current node list. */
    ghost predicate Indexed()
      reads this`classification, this`nodesById, this`childrenOf, this`parentsOf
    {
      nodesById == NodesById(classification) &&
      childrenOf == ChildrenOf(classification) &&
      parentsOf == ParentsOf(classification)
    }

    /** The classes on the page are those focus state `s` calls for. */
    ghost predicate Displays(s: FocusState)
      reads this`classification, this`childrenOf, this`parentsOf, this`connectors
      reads this`nodeMarks, this`connectorDimmed
    {
      |nodeMarks| == |classification| && |connectorDimmed| == |connectors| &&
      match s
      case Idle =>
        Unmarked(nodeMarks) && Undimmed(connectorDimmed)
      case Focused(r) =>
        (forall k :: 0 <= k < |nodeMarks| ==>
          nodeMarks[k] == Mark(!InFocus(childrenOf, parentsOf, r, classification[k].id), classification[k].id == r)) &&
        (forall j :: 0 <= j < |connectorDimmed| ==>
          connectorDimmed[j] == !(InFocus(childrenOf, parentsOf, r, connectors[j].parent) &&
                                  InFocus(childrenOf, parentsOf, r, connectors[j].child)))
    }

    ghost predicate Valid()
      reads this`classification, this`nodesById, this`childrenOf, this`parentsOf, this`connectors
      reads this`nodeMarks, this`connectorDimmed, this`focus
    {
      Indexed() && Displays(focus)
    }

    /** The state before any data has been loaded. */
    constructor ()
      ensures Valid() && focus == Idle
      ensures classification == [] && connectors == [] && box == DefaultBox && extent == None
    {
      classification := [];
      nodesById, childrenOf, parentsOf := map[], map[], map[];
      box := DefaultBox;
      extent := None;
      connectors, nodeMarks, connectorDimmed := [], [], [];
      focus := Idle;
    }

    /** `buildIndexes`: the three maps of the node list, and every record's
        null `parent` filled in as `Indexer.Adopt` describes. */
    method BuildIndexes()
      modifies this`classification, this`nodesById, this`childrenOf, this`parentsOf
      ensures classification == Adopt(old(classification))
      ensures nodesById == NodesById(old(classification))
      ensures childrenOf == ChildrenOf(old(classification))
      ensures parentsOf == ParentsOf(old(classification))
      ensures Indexed()
    {
      var byId, kids := IndexRecords(classification);
      var recs, po := LinkParents(classification, byId);
      BuildIndexesIdempotent(classification);
      classification, nodesById, childrenOf, parentsOf := recs, byId, kids, po;
    }

    /** `drawConnectors` with the layer offset `off`: the connector list is
        replaced by the one `Routing.Route` gives, none of them dimmed; a
        fault is returned where the source throws, with the connectors drawn
        before it left in place. */
    method DrawConnectors(off: Point) returns (fault: Option<Fault>)
      requires IndexesIn(nodesById, classification)
      modifies this`connectors, this`connectorDimmed
      ensures var r := Route(classification, nodesById, parentsOf, box, off, |classification|);
        connectors == r.edges && fault == r.fault
      ensures |connectorDimmed| == |connectors| && Undimmed(connectorDimmed)
    {
      var all, byId, po := classification, nodesById, parentsOf;
      var edges: seq<Connector>, dimmed: seq<bool> := [], [];
      var i := 0;
      while i < |all|
        invariant 0 <= i <= |all|
        invariant Route(all, byId, po, box, off, i) == Routed(edges, None)
        invariant |dimmed| == |edges| && Undimmed(dimmed)
      {
        var n := all[i];
        var parentId := ResolveParent(n, po);
        if parentId.Some? {
          if parentId.value !in byId {
            assert Route(all, byId, po, box, off, i + 1) == Routed(edges, Some(DanglingParent(parentId.value)));
            RouteFaultPersists(all, byId, po, box, off, i + 1, |all|);
            connectors, connectorDimmed, fault := edges, dimmed, Some(DanglingParent(parentId.value));
            return;
          }
          if n.group.Some? && !ValidToken(n.group.value) {
            assert Route(all, byId, po, box, off, i + 1) == Routed(edges, Some(BadGroupToken(n.group.value)));
            RouteFaultPersists(all, byId, po, box, off, i + 1, |all|);
            connectors, connectorDimmed, fault := edges, dimmed, Some(BadGroupToken(n.group.value));
            return;
          }
          var p := all[byId[parentId.value]];
          var x1 := off.x + X(p) + box.width / 2.0;
          var y1 := off.y + Y(p) + box.height;
          var x2 := off.x + X(n) + box.width / 2.0;
          var y2 := off.y + Y(n);
          var e := Connector(parentId.value, n.id, n.group, [Point(x1, y1), Point(x2, y1), Point(x2, y2)]);
          assert e.points == Elbow(p, n, box, off);
          assert EdgeFor(all, byId, po, box, off, n) == Drawn(e);
          edges, dimmed := edges + [e], dimmed + [false];
        }
        i := i + 1;
      }
      connectors, connectorDimmed := edges, dimmed;
      fault := None;
    }

    /** `focusSubtree(rootId)`: a node is dimmed exactly when it is not kept
        and active exactly when it is the clicked one; a connector is dimmed
        unless both its ends are kept. */
    method FocusSubtree(rootId: string)
      requires Valid()
      modifies this`nodeMarks, this`connectorDimmed, this`focus
      ensures Valid() && focus == Focused(rootId)
    {
      var keep := Descend(childrenOf, rootId);
      keep := Ascend(parentsOf, rootId, keep);
      assert forall x :: x in keep <==> InFocus(childrenOf, parentsOf, rootId, x);
      var marks := nodeMarks;
      var k := 0;
      while k < |marks|
        invariant 0 <= k <= |marks| == |classification|
        invariant forall j :: 0 <= j < k ==>
          marks[j] == Mark(classification[j].id !in keep, classification[j].id == rootId)
      {
        marks := marks[k := Mark(classification[k].id !in keep, classification[k].id == rootId)];
        k := k + 1;
      }
      var dimmed := connectorDimmed;
      k := 0;
      while k < |dimmed|
        invariant 0 <= k <= |dimmed| == |connectors|
        invariant forall j :: 0 <= j < k ==>
          dimmed[j] == !(connectors[j].parent in keep && connectors[j].child in keep)
      {
        dimmed := dimmed[k := !(connectors[k].parent in keep && connectors[k].child in keep)];
        k := k + 1;
      }
      nodeMarks, connectorDimmed := marks, dimmed;
      focus := Focused(rootId);
    }

    /** `clearFocus`: no node dimmed or active, no connector dimmed. */
    method ClearFocus()
      requires Valid()
      modifies this`nodeMarks, this`connectorDimmed, this`focus
      ensures Valid() && focus == Idle
    {
      var marks := nodeMarks;
      var k := 0;
      while k < |marks|
        invariant 0 <= k <= |marks| == |classification|
        invariant forall j :: 0 <= j < k ==> marks[j] == Mark(false, false)
      {
        marks := marks[k := Mark(false, false)];
        k := k + 1;
      }
      var dimmed := connectorDimmed;
      k := 0;
      while k < |dimmed|
        invariant 0 <= k <= |dimmed| == |connectors|
        invariant forall j :: 0 <= j < k ==> !dimmed[j]
      {
        dimmed := dimmed[k := false];
        k := k + 1;
      }
      nodeMarks, connectorDimmed := marks, dimmed;
      focus := Idle;
    }

    /** A click on the element of record `k`: focus moves to that node,
        whatever was focused before. */
    method NodeClick(k: nat)
      requires Valid() && k < |classification|
      modifies this`nodeMarks, this`connectorDimmed, this`focus
      ensures Valid() && focus == Step(old(focus), Event.NodeClick(classification[k].id))
    {
      FocusSubtree(classification[k].id);
    }

    /** A click that reaches the document: outside the info panel it clears
        the focus, inside it changes nothing. */
    method DocumentClick(insidePanel: bool)
      requires Valid()
      modifies this`nodeMarks, this`connectorDimmed, this`focus
      ensures Valid() && focus == Step(old(focus), Event.DocumentClick(insidePanel))
      ensures insidePanel ==> nodeMarks == old(nodeMarks) && connectorDimmed == old(connectorDimmed)
    {
      if !insidePanel {
        ClearFocus();
      }
    }

    /** The middle of `render`: the node elements are recreated without any
        focus class, the box size is taken from the first rendered node (its
        measured size `sample`) if there is one, and `autosize` sizes the
        canvas. */
    method ShowNodes(sample: Size)
      modifies this`nodeMarks, this`box, this`extent, this`focus
      ensures |nodeMarks| == |classification| && Unmarked(nodeMarks)
      ensures box == if classification == [] then old(box) else sample
      ensures extent == Some(CanvasExtent(classification))
      ensures focus == Idle
    {
      nodeMarks := seq(|classification|, _ => Mark(false, false));
      if |classification| > 0 {
        box := sample;
      }
      extent := Some(CanvasExtent(classification));
      focus := Idle;
    }

    /** `render`: rebuild the indexes, show the nodes and draw the
        connectors with offset `off`. */
    method Render(sample: Size, off: Point) returns (fault: Option<Fault>)
      modifies this
      ensures Valid() && focus == Idle
      ensures classification == Adopt(old(classification))
      ensures box == if old(classification) == [] then old(box) else sample
      ensures extent == Some(CanvasExtent(classification))
      ensures var r := Route(classification, nodesById, parentsOf, box, off, |classification|);
        connectors == r.edges && fault == r.fault
    {
      BuildIndexes();
      ShowNodes(sample);
      fault := DrawConnectors(off);
    }

    /** Loading a new node list replaces the old one and renders it. */
    method Load(data: seq<Node>, sample: Size, off: Point) returns (fault: Option<Fault>)
      modifies this
      ensures Valid() && focus == Idle
      ensures classification == Adopt(data)
      ensures box == if data == [] then old(box) else sample
      ensures extent == Some(CanvasExtent(classification))
      ensures var r := Route(classification, nodesById, parentsOf, box, off, |classification|);
        connectors == r.edges && fault == r.fault
    {
      classification := data;
      fault := Render(sample, off);
    }
  }

  /** No node element carries `dimmed` or `active`. */
  ghost predicate Unmarked(marks: seq<Mark>)
  {
    forall k :: 0 <= k < |marks| ==> marks[k] == Mark(false, false)
  }

  /** No connector carries `dimmed`. */
  ghost predicate Undimmed(dimmed: seq<bool>)
  {
    forall j :: 0 <= j < |dimmed| ==> !dimmed[j]
  }

  /** The two `new Map(...)` calls of `buildIndexes`: one pass over the
      records, a later record overwriting an earlier one with the same id. */
  method IndexRecords(nodes: seq<Node>) returns (byId: map<string, nat>, kids: map<string, seq<string>>)
    ensures byId == NodesById(nodes) && kids == ChildrenOf(nodes)
  {
    byId, kids := map[], map[];
    var i := 0;
    while i < |nodes|
      invariant 0 <= i <= |nodes|
      invariant byId == NodesById(nodes[..i]) && kids == ChildrenOf(nodes[..i])
    {
      assert nodes[..i + 1][..i] == nodes[..i] && nodes[..i + 1][i] == nodes[i];
      byId := byId[nodes[i].id := i];
      kids := kids[nodes[i].id := ChildList(nodes[i])];
      i := i + 1;
    }
    assert nodes[..|nodes|] == nodes;
  }

  /** The nested loop of `buildIndexes`: every listed child id is mapped to
      the declaring record's id, and the record `byId` names for it gets that
      id as its `parent` if the field is still null. */
  method LinkParents(nodes: seq<Node>, byId: map<string, nat>) returns (recs: seq<Node>, po: map<string, string>)
    requires byId == NodesById(nodes)
    ensures recs == Adopt(nodes) && po == ParentsOf(nodes)
  {
    recs, po := nodes, map[];
    var i := 0;
    assert nodes[..0] == [];
    ScanStart(nodes);
    while i < |nodes|
      invariant 0 <= i <= |nodes|
      invariant po == ParentsOf(nodes[..i])
      invariant recs == Scanned(nodes, i, [])
    {
      var n := nodes[i];
      var cs := ChildList(n);
      ghost var before := po;
      var j := 0;
      while j < |cs|
        invariant 0 <= j <= |cs|
        invariant po == Declare(before, n.id, cs[..j])
        invariant recs == Scanned(nodes, i, cs[..j])
      {
        var cid := cs[j];
        DeclareNext(before, n.id, cs, j);
        po := po[cid := n.id];
        SliceNext(cs, j);
        if cid in byId && recs[byId[cid]].parent.None? {
          ScanFill(nodes, i, cs[..j], cid);
          var idx := byId[cid];
          recs := recs[idx := recs[idx].(parent := Some(n.id))];
        } else {
          ScanSkip(nodes, i, cs[..j], cid);
        }
        j := j + 1;
      }
      assert cs[..|cs|] == cs;
      ParentsOfNext(nodes, i);
      ScanNextRecord(nodes, i);
      i := i + 1;
    }
    assert nodes[..|nodes|] == nodes;
    ScanDone(nodes);
  }

  /** The first declarer of `c` once the records before `i` and the first
      children `pre` of record `i` have been scanned. */
  ghost function SoFar(nodes: seq<Node>, i: nat, pre: seq<string>, c: string): Option<string>
    requires i <= |nodes|
  {
    var f := FirstDeclarer(nodes[..i], c);
    if f.Some? || i == |nodes| then f else if c in pre then Some(nodes[i].id) else None
  }

  lemma SliceNext(cs: seq<string>, j: nat)
    requires j < |cs|
    ensures cs[..j + 1] == cs[..j] + [cs[j]]
  {
  }

  /** Scanning child id `cid` leaves the first declarer of any other id as
      it was. */
  lemma SoFarOther(nodes: seq<Node>, i: nat, pre: seq<string>, cid: string, c: string)
    requires i <= |nodes| && c != cid
    ensures SoFar(nodes, i, pre + [cid], c) == SoFar(nodes, i, pre, c)
  {
    assert c in pre + [cid] <==> c in pre;
  }

  /** Once an id has a first declarer, scanning more children keeps it. */
  lemma SoFarSettled(nodes: seq<Node>, i: nat, pre: seq<string>, cid: string, c: string)
    requires i <= |nodes| && SoFar(nodes, i, pre, c).Some?
    ensures SoFar(nodes, i, pre + [cid], c) == SoFar(nodes, i, pre, c)
  {
    if FirstDeclarer(nodes[..i], c).None? && i < |nodes| {
      var j :| 0 <= j < |pre| && pre[j] == c;
      assert (pre + [cid])[j] == c;
    }
  }

  /** The records as `buildIndexes` has left them at that point of its scan. */
  ghost function Scanned(nodes: seq<Node>, i: nat, pre: seq<string>): (r: seq<Node>)
    requires i <= |nodes|
    ensures |r| == |nodes|
  {
    seq(|nodes|, k requires 0 <= k < |nodes| => AdoptOne(nodes, k, SoFar(nodes, i, pre, nodes[k].id)))
  }

  /** Before the scan no record has been touched. */
  lemma ScanStart(nodes: seq<Node>)
    ensures Scanned(nodes, 0, []) == nodes
  {
    assert nodes[..0] == [];
    forall k | 0 <= k < |nodes| ensures Scanned(nodes, 0, [])[k] == nodes[k] {
      assert SoFar(nodes, 0, [], nodes[k].id) == None;
    }
  }

  /** One child id `cid` of record `i` scanned, and the record `nodesById`
      keeps for `cid` still has a null `parent`: it gets record `i`'s id. */
  lemma ScanFill(nodes: seq<Node>, i: nat, pre: seq<string>, cid: string)
    requires i < |nodes| && cid in NodesById(nodes)
    requires Scanned(nodes, i, pre)[NodesById(nodes)[cid]].parent.None?
    ensures var recs, idx := Scanned(nodes, i, pre), NodesById(nodes)[cid];
      Scanned(nodes, i, pre + [cid]) == recs[idx := recs[idx].(parent := Some(nodes[i].id))]
  {
    var byId := NodesById(nodes);
    var recs, idx := Scanned(nodes, i, pre), byId[cid];
    var recs' := recs[idx := recs[idx].(parent := Some(nodes[i].id))];
    var after := Scanned(nodes, i, pre + [cid]);
    NodesByIdNames(nodes, cid);
    assert SoFar(nodes, i, pre, cid) == None;
    assert SoFar(nodes, i, pre + [cid], cid) == Some(nodes[i].id);
    forall k | 0 <= k < |nodes| ensures after[k] == recs'[k] {
      var c := nodes[k].id;
      if k == idx {
        assert after[k] == AdoptOne(nodes, k, Some(nodes[i].id));
      } else if c == cid {
        assert byId[c] != k;
      } else {
        SoFarOther(nodes, i, pre, cid, c);
      }
    }
  }

  /** One child id `cid` of record `i` scanned, with no record to fill in:
      nothing changes. */
  lemma ScanSkip(nodes: seq<Node>, i: nat, pre: seq<string>, cid: string)
    requires i < |nodes|
    requires cid in NodesById(nodes) ==> Scanned(nodes, i, pre)[NodesById(nodes)[cid]].parent.Some?
    ensures Scanned(nodes, i, pre + [cid]) == Scanned(nodes, i, pre)
  {
    var byId := NodesById(nodes);
    forall k | 0 <= k < |nodes| ensures Scanned(nodes, i, pre + [cid])[k] == Scanned(nodes, i, pre)[k] {
      var c := nodes[k].id;
      if c != cid {
        SoFarOther(nodes, i, pre, cid, c);
      } else if SoFar(nodes, i, pre, c).Some? {
        SoFarSettled(nodes, i, pre, cid, c);
      } else if byId[c] == k {
        assert nodes[k].parent.Some?;
      }
    }
  }

  /** Record `i` fully scanned. */
  lemma ScanNextRecord(nodes: seq<Node>, i: nat)
    requires i < |nodes|
    ensures Scanned(nodes, i + 1, []) == Scanned(nodes, i, ChildList(nodes[i]))
  {
    assert nodes[..i + 1][..i] == nodes[..i];
    assert nodes[..i + 1][i] == nodes[i];
    forall c ensures SoFar(nodes, i + 1, [], c) == SoFar(nodes, i, ChildList(nodes[i]), c) {
      assert FirstDeclarer(nodes[..i + 1], c) ==
        (var f := FirstDeclarer(nodes[..i], c);
         if f.Some? then f else if c in ChildList(nodes[i]) then Some(nodes[i].id) else None);
    }
  }

  /** The scan complete: the records are those `Adopt` describes. */
  lemma ScanDone(nodes: seq<Node>)
    ensures Scanned(nodes, |nodes|, []) == Adopt(nodes)
  {
    assert nodes[..|nodes|] == nodes;
    forall k | 0 <= k < |nodes| ensures Scanned(nodes, |nodes|, [])[k] == Adopt(nodes)[k] {
      assert SoFar(nodes, |nodes|, [], nodes[k].id) == FirstDeclarer(nodes, nodes[k].id);
    }
  }

  /** Filling in `parent` fields moves no node. */
  lemma ExtentOfAdopted(s: seq<Node>)
    ensures CanvasExtent(Adopt(s)) == CanvasExtent(s)
  {
    assert Xs(Adopt(s)) == Xs(s);
    assert Ys(Adopt(s)) == Ys(s);
  }
}
