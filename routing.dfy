/** The connectors `drawConnectors` appends to the connector surface: one
    three-point elbow per node that has a parent. */
module Routing {
  import opened Records
  import opened Indexer

  datatype Point = Point(x: real, y: real)

  /** The box size every node is assumed to have (`NODE_WIDTH`, `NODE_HEIGHT`). */
  datatype Size = Size(width: real, height: real)

  /** Size used until a rendered node has been measured. */
  const DefaultBox: Size := Size(200.0, 60.0)

  datatype Rect = Rect(left: real, top: real, width: real, height: real)

  /** One polyline: the ids in its `data-parent` and `data-child`, the group it
      adds as a class, and its `points`. */
  datatype Connector = Connector(parent: string, child: string, group: Option<string>, points: seq<Point>)

  /** Why the loop of `drawConnectors` stops with an exception: the resolved
      parent id has no record (reading `p.x` of `undefined`), or the group is
      not a valid class token (`classList.add` refuses it). */
  datatype Fault = DanglingParent(id: string) | BadGroupToken(token: string)

  datatype Outcome = Root | Drawn(edge: Connector) | Failed(fault: Fault)

  /** Connectors appended so far and, when the loop stopped early, why. */
  datatype Routed = Routed(edges: seq<Connector>, fault: Option<Fault>)

  /** Where node `n`'s box sits in the connector surface's coordinates. */
  function BoxOf(n: Node, box: Size, off: Point): Rect
  {
    Rect(off.x + X(n), off.y + Y(n), box.width, box.height)
  }

  function BottomCentre(r: Rect): Point
  {
    Point(r.left + r.width / 2.0, r.top + r.height)
  }

  function TopCentre(r: Rect): Point
  {
    Point(r.left + r.width / 2.0, r.top)
  }

  /** The elbow from parent `p` to child `c`: it leaves the parent's box at
      the middle of its bottom edge, runs horizontally to the child's centre
      line, then vertically to the middle of the child's top edge. */
  function Elbow(p: Node, c: Node, box: Size, off: Point): (pts: seq<Point>)
    ensures |pts| == 3
    ensures pts[0] == BottomCentre(BoxOf(p, box, off))
    ensures pts[2] == TopCentre(BoxOf(c, box, off))
    ensures pts[1] == Point(pts[2].x, pts[0].y)
  {
    var x1 := off.x + X(p) + box.width / 2.0;
    var y1 := off.y + Y(p) + box.height;
    var x2 := off.x + X(c) + box.width / 2.0;
    var y2 := off.y + Y(c);
    [Point(x1, y1), Point(x2, y1), Point(x2, y2)]
  }

  /** `n.parent || parentsOf.get(n.id)`, then `if (!parentId) return`: the
      record's own `parent` unless it is absent or empty, else the derived
      parent unless that is absent or empty. */
  function ResolveParent(n: Node, parentsOf: map<string, string>): (r: Option<string>)
    ensures r.Some? ==> Truthy(r.value)
  {
    if n.parent.Some? && Truthy(n.parent.value) then n.parent
    else if n.id in parentsOf && Truthy(parentsOf[n.id]) then Some(parentsOf[n.id])
    else None
  }

  /** ASCII whitespace, which a class token may not contain. */
  predicate IsAsciiSpace(ch: char)
  {
    ch == ' ' || ch == '\t' || ch == '\n' || ch == '\r' || ch == 12 as char
  }

  predicate ValidToken(t: string)
  {
    t != "" && forall i :: 0 <= i < |t| ==> !IsAsciiSpace(t[i])
  }

  /** Every index `nodesById` holds names a record. */
  ghost predicate IndexesIn(byId: map<string, nat>, all: seq<Node>)
  {
    forall id :: id in byId ==> byId[id] < |all|
  }

  /** The body of the loop for one node `n`. */
  function EdgeFor(all: seq<Node>, byId: map<string, nat>, parentsOf: map<string, string>,
                   box: Size, off: Point, n: Node): Outcome
    requires IndexesIn(byId, all)
  {
    var pid := ResolveParent(n, parentsOf);
    if pid.None? then Root
    else if pid.value !in byId then Failed(DanglingParent(pid.value))
    else if n.group.Some? && !ValidToken(n.group.value) then Failed(BadGroupToken(n.group.value))
    else Drawn(Connector(pid.value, n.id, n.group, Elbow(all[byId[pid.value]], n, box, off)))
  }

  /** The loop of `drawConnectors` over the first `n` records. */
  function Route(all: seq<Node>, byId: map<string, nat>, parentsOf: map<string, string>,
                 box: Size, off: Point, n: nat): Routed
    requires n <= |all| && IndexesIn(byId, all)
  {
    if n == 0 then Routed([], None)
    else
      var r := Route(all, byId, parentsOf, box, off, n - 1);
      if r.fault.Some? then r
      else match EdgeFor(all, byId, parentsOf, box, off, all[n - 1])
        case Root => r
        case Drawn(e) => Routed(r.edges + [e], None)
        case Failed(f) => Routed(r.edges, Some(f))
  }

  /** The positions, in order, of the first `n` records that have a parent. */
  function NonRoots(all: seq<Node>, parentsOf: map<string, string>, n: nat): (ks: seq<nat>)
    requires n <= |all|
    ensures forall j :: 0 <= j < |ks| ==> ks[j] < n && ResolveParent(all[ks[j]], parentsOf).Some?
    ensures forall j, j' :: 0 <= j < j' < |ks| ==> ks[j] < ks[j']
    ensures forall k :: 0 <= k < n && ResolveParent(all[k], parentsOf).Some? ==> k in ks
  {
    if n == 0 then []
    else
      var ks := NonRoots(all, parentsOf, n - 1);
      if ResolveParent(all[n - 1], parentsOf).Some? then ks + [n - 1] else ks
  }

  // ---------------------------------------------------------------------
  // Properties

  /** The first leg is horizontal at the parent's bottom edge, the second
      vertical on the child's centre line; with both centres on one vertical
      line the elbow is a straight vertical segment. */
  lemma ElbowShape(p: Node, c: Node, box: Size, off: Point)
    ensures var pts := Elbow(p, c, box, off);
      pts[0].y == pts[1].y == off.y + Y(p) + box.height &&
      pts[1].x == pts[2].x == off.x + X(c) + box.width / 2.0 &&
      (X(p) == X(c) ==> pts[0].x == pts[1].x == pts[2].x)
  {
  }

  /** Parent at (0,0), child at (100,100), a 200 by 60 box and no offset. */
  lemma ElbowExample()
    ensures Elbow(Node("P", None, Some(0.0), Some(0.0), Some(["C"]), None),
                  Node("C", None, Some(100.0), Some(100.0), None, None),
                  DefaultBox, Point(0.0, 0.0))
         == [Point(100.0, 60.0), Point(200.0, 60.0), Point(200.0, 100.0)]
  {
  }

  /** The loop runs to the end exactly when no node meets a missing parent
      record or a bad group token. */
  lemma {:induction false} RouteRunsThrough(all: seq<Node>, byId: map<string, nat>, parentsOf: map<string, string>,
                                            box: Size, off: Point, n: nat)
    requires n <= |all| && IndexesIn(byId, all)
    ensures Route(all, byId, parentsOf, box, off, n).fault.None? <==>
      forall k :: 0 <= k < n ==> !EdgeFor(all, byId, parentsOf, box, off, all[k]).Failed?
  {
    if n > 0 {
      RouteRunsThrough(all, byId, parentsOf, box, off, n - 1);
    }
  }

  /** A loop that runs to the end yields one connector per node with a
      parent, in list order, each carrying the parent's and the child's ids,
      the child's group and the elbow between the two boxes, and none for a
      root. */
  lemma {:induction false} RouteEdges(all: seq<Node>, byId: map<string, nat>, parentsOf: map<string, string>,
                                      box: Size, off: Point, n: nat)
    requires n <= |all| && IndexesIn(byId, all)
    requires Route(all, byId, parentsOf, box, off, n).fault.None?
    ensures var r := Route(all, byId, parentsOf, box, off, n);
      var ks := NonRoots(all, parentsOf, n);
      |r.edges| == |ks| &&
      forall j :: 0 <= j < |ks| ==>
        var pid := ResolveParent(all[ks[j]], parentsOf).value;
        pid in byId &&
        r.edges[j] == Connector(pid, all[ks[j]].id, all[ks[j]].group, Elbow(all[byId[pid]], all[ks[j]], box, off))
  {
    if n > 0 {
      var r' := Route(all, byId, parentsOf, box, off, n - 1);
      assert r'.fault.None?;
      RouteEdges(all, byId, parentsOf, box, off, n - 1);
      var ks' := NonRoots(all, parentsOf, n - 1);
      var c := all[n - 1];
      match EdgeFor(all, byId, parentsOf, box, off, c)
      case Root =>
        assert NonRoots(all, parentsOf, n) == ks';
      case Drawn(e) =>
        assert NonRoots(all, parentsOf, n) == ks' + [n - 1];
        assert Route(all, byId, parentsOf, box, off, n).edges == r'.edges + [e];
      case Failed(f) =>
        assert false;
    }
  }

  /** When the loop stops early, it stops at the first node whose parent
      record is missing or whose group is not a valid token, reports that
      node's fault, and keeps the connectors of the nodes before it. */
  lemma {:induction false} RouteStopsAtFirstFault(all: seq<Node>, byId: map<string, nat>, parentsOf: map<string, string>,
                                                  box: Size, off: Point, n: nat)
    requires n <= |all| && IndexesIn(byId, all)
    ensures var r := Route(all, byId, parentsOf, box, off, n);
      r.fault.Some? ==>
        exists m :: 0 <= m < n &&
          EdgeFor(all, byId, parentsOf, box, off, all[m]) == Failed(r.fault.value) &&
          (forall k :: 0 <= k < m ==> !EdgeFor(all, byId, parentsOf, box, off, all[k]).Failed?) &&
          r.edges == Route(all, byId, parentsOf, box, off, m).edges
  {
    if n > 0 {
      RouteStopsAtFirstFault(all, byId, parentsOf, box, off, n - 1);
      var r' := Route(all, byId, parentsOf, box, off, n - 1);
      if r'.fault.None? {
        RouteRunsThrough(all, byId, parentsOf, box, off, n - 1);
      }
    }
  }

  /** Once the loop has thrown, later records change nothing. */
  lemma {:induction false} RouteFaultPersists(all: seq<Node>, byId: map<string, nat>, parentsOf: map<string, string>,
                                              box: Size, off: Point, m: nat, n: nat)
    requires m <= n <= |all| && IndexesIn(byId, all)
    requires Route(all, byId, parentsOf, box, off, m).fault.Some?
    ensures Route(all, byId, parentsOf, box, off, n) == Route(all, byId, parentsOf, box, off, m)
  {
    if m < n {
      RouteFaultPersists(all, byId, parentsOf, box, off, m, n - 1);
    }
  }

  /** The two-node tree P -> C of the input format, indexed and routed. */
  lemma TwoNodeTree()
    ensures var s := [Node("P", None, Some(0.0), Some(0.0), Some(["C"]), None),
                      Node("C", None, Some(100.0), Some(100.0), None, None)];
      IndexesIn(NodesById(s), Adopt(s)) &&
      Route(Adopt(s), NodesById(s), ParentsOf(s), DefaultBox, Point(0.0, 0.0), 2)
        == Routed([Connector("P", "C", None, [Point(100.0, 60.0), Point(200.0, 60.0), Point(200.0, 100.0)])], None)
  {
    var s := [Node("P", None, Some(0.0), Some(0.0), Some(["C"]), None),
              Node("C", None, Some(100.0), Some(100.0), None, None)];
    assert s[..1] == [s[0]];
    assert NodesById(s) == map["P" := 0, "C" := 1];
    assert ["C"][..0] == [];
    assert Declare(map[], "P", ["C"]) == map["C" := "P"];
    assert ParentsOf(s[..1]) == map["C" := "P"];
    assert ParentsOf(s) == map["C" := "P"];
    assert FirstDeclarer(s, "C") == Some("P");
    assert FirstDeclarer(s, "P") == None;
    var a := Adopt(s);
    assert a == [s[0], s[1].(parent := Some("P"))];
    var byId, po := NodesById(s), ParentsOf(s);
    assert IndexesIn(byId, a);
    var e := Connector("P", "C", None, [Point(100.0, 60.0), Point(200.0, 60.0), Point(200.0, 100.0)]);
    assert EdgeFor(a, byId, po, DefaultBox, Point(0.0, 0.0), a[0]) == Root;
    assert Route(a, byId, po, DefaultBox, Point(0.0, 0.0), 1) == Routed([], None);
    assert ResolveParent(a[1], po) == Some("P");
    assert EdgeFor(a, byId, po, DefaultBox, Point(0.0, 0.0), a[1]) == Drawn(e);
  }
}
