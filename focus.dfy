/** The set `focusSubtree` keeps undimmed: the clicked node, everything
    below it along `childrenOf` and everything above it along `parentsOf`;
    and the two-state focus machine driven by clicks. */
module Focus {
  import opened Records
  import opened Indexer

  /** `childrenOf.get(id) || []`. */
  function Kids(adj: map<string, seq<string>>, id: string): seq<string>
  {
    if id in adj then adj[id] else []
  }

  /** Each element of `p` is listed among the children of the one before. */
  ghost predicate IsPath(adj: map<string, seq<string>>, p: seq<string>)
  {
    forall i :: 0 <= i < |p| - 1 ==> p[i + 1] in Kids(adj, p[i])
  }

  /** `b` is reached from `a` in zero or more steps. */
  ghost predicate Reach(adj: map<string, seq<string>>, a: string, b: string)
  {
    exists p :: IsPath(adj, p) && |p| >= 1 && p[0] == a && p[|p| - 1] == b
  }

  /** No step leads out of `s`. */
  ghost predicate Closed(adj: map<string, seq<string>>, s: set<string>)
  {
    forall u, c :: u in s && c in Kids(adj, u) ==> c in s
  }

  /** Every id that appears in some child list. */
  ghost function Listed(adj: map<string, seq<string>>): set<string>
  {
    set u, c | u in adj && c in adj[u] :: c
  }

  /** The `parentsOf` map as steps upward: an id with a non-empty parent id
      has that parent as its one successor (`if (p)` stops at an empty id). */
  function UpSteps(parentsOf: map<string, string>): map<string, seq<string>>
  {
    map a | a in parentsOf && Truthy(parentsOf[a]) :: [parentsOf[a]]
  }

  /** `x` is reached from `root` by one or more upward steps. */
  ghost predicate StrictAncestor(parentsOf: map<string, string>, root: string, x: string)
  {
    root in parentsOf && Truthy(parentsOf[root]) && Reach(UpSteps(parentsOf), parentsOf[root], x)
  }

  /** Membership in the kept set of `focusSubtree(root)`. */
  ghost predicate InFocus(childrenOf: map<string, seq<string>>, parentsOf: map<string, string>,
                          root: string, x: string)
  {
    Reach(childrenOf, root, x) || StrictAncestor(parentsOf, root, x)
  }

  // ---------------------------------------------------------------------
  // Reachability

  lemma ReachRefl(adj: map<string, seq<string>>, a: string)
    ensures Reach(adj, a, a)
  {
    assert IsPath(adj, [a]);
  }

  lemma ReachStep(adj: map<string, seq<string>>, a: string, b: string, c: string)
    requires Reach(adj, a, b) && c in Kids(adj, b)
    ensures Reach(adj, a, c)
  {
    var p :| IsPath(adj, p) && |p| >= 1 && p[0] == a && p[|p| - 1] == b;
    var q := p + [c];
    forall i | 0 <= i < |q| - 1 ensures q[i + 1] in Kids(adj, q[i]) {
      if i < |p| - 1 { assert q[i] == p[i] && q[i + 1] == p[i + 1]; }
    }
    assert IsPath(adj, q) && q[0] == a && q[|q| - 1] == c;
  }

  lemma {:induction false} PathStaysIn(adj: map<string, seq<string>>, s: set<string>, p: seq<string>)
    requires Closed(adj, s) && IsPath(adj, p) && |p| >= 1 && p[0] in s
    ensures p[|p| - 1] in s
  {
    if |p| > 1 {
      var q := p[..|p| - 1];
      assert IsPath(adj, q) by {
        forall i | 0 <= i < |q| - 1 ensures q[i + 1] in Kids(adj, q[i]) {
          assert q[i] == p[i] && q[i + 1] == p[i + 1];
        }
      }
      PathStaysIn(adj, s, q);
      assert p[|p| - 1] in Kids(adj, p[|p| - 2]);
    }
  }

  /** Nothing outside a closed set is reached from inside it. */
  lemma ReachClosed(adj: map<string, seq<string>>, s: set<string>, a: string, b: string)
    requires Closed(adj, s) && a in s && Reach(adj, a, b)
    ensures b in s
  {
    var p :| IsPath(adj, p) && |p| >= 1 && p[0] == a && p[|p| - 1] == b;
    PathStaysIn(adj, s, p);
  }

  // ---------------------------------------------------------------------
  // The two walks of focusSubtree

  /** The `down` walk: every id reached from `root` through `childrenOf`,
      `root` included. The source recurses without remembering what it has
      visited; here a visited set stops the walk, which gives the same set
      whenever the source's recursion ends (acyclic child lists). */
  method Descend(childrenOf: map<string, seq<string>>, root: string) returns (keep: set<string>)
    ensures forall x :: x in keep <==> Reach(childrenOf, root, x)
  {
    ghost var universe := {root} + Listed(childrenOf);
    keep := {};
    var stack := [root];
    ReachRefl(childrenOf, root);
    while stack != []
      invariant keep <= universe
      invariant forall x :: x in stack ==> x in universe && Reach(childrenOf, root, x)
      invariant forall x :: x in keep ==> Reach(childrenOf, root, x)
      invariant root in keep || root in stack
      invariant forall u, c :: u in keep && c in Kids(childrenOf, u) ==> c in keep || c in stack
      decreases universe - keep, |stack|
    {
      var id := stack[|stack| - 1];
      stack := stack[..|stack| - 1];
      if id !in keep {
        var kids := Kids(childrenOf, id);
        forall c | c in kids ensures c in universe && Reach(childrenOf, root, c) {
          ReachStep(childrenOf, root, id, c);
        }
        keep := keep + {id};
        stack := stack + kids;
      }
    }
    forall x | Reach(childrenOf, root, x) ensures x in keep {
      ReachClosed(childrenOf, keep, root, x);
    }
  }

  /** The `up` walk: adds to `keep0` every strict ancestor of `root` along
      `parentsOf`, stopping at an absent or empty parent id. The source
      follows the chain unguarded; here the walk also stops when the chain
      comes back to an id it has added, which cannot happen on acyclic
      input. */
  method Ascend(parentsOf: map<string, string>, root: string, keep0: set<string>) returns (keep: set<string>)
    ensures forall x :: x in keep <==> x in keep0 || StrictAncestor(parentsOf, root, x)
  {
    ghost var up := UpSteps(parentsOf);
    keep := keep0;
    var seen: set<string> := {};
    var cur := root;
    while cur in parentsOf && Truthy(parentsOf[cur]) && parentsOf[cur] !in seen
      invariant keep == keep0 + seen
      invariant forall x :: x in seen ==> StrictAncestor(parentsOf, root, x)
      invariant cur == root || cur in seen
      invariant seen != {} ==> root in parentsOf && Truthy(parentsOf[root]) && parentsOf[root] in seen
      invariant forall w :: w in seen && w != cur ==> w in parentsOf && Truthy(parentsOf[w]) && parentsOf[w] in seen
      decreases parentsOf.Values - seen
    {
      var p := parentsOf[cur];
      if cur == root {
        ReachRefl(up, p);
      } else {
        assert Kids(up, cur) == [p];
        ReachStep(up, parentsOf[root], cur, p);
      }
      keep := keep + {p};
      seen := seen + {p};
      cur := p;
    }
    assert Closed(up, seen) by {
      forall u, c | u in seen && c in Kids(up, u) ensures c in seen {
        assert u in parentsOf && Truthy(parentsOf[u]) && c == parentsOf[u];
      }
    }
    forall x | StrictAncestor(parentsOf, root, x) ensures x in seen {
      ReachClosed(up, seen, parentsOf[root], x);
    }
  }

  /** The clicked node is always kept. */
  lemma RootInFocus(childrenOf: map<string, seq<string>>, parentsOf: map<string, string>, root: string)
    ensures InFocus(childrenOf, parentsOf, root, root)
  {
    ReachRefl(childrenOf, root);
  }

  function Chain(): seq<Node>
  {
    [Node("A", None, None, None, Some(["B"]), None),
     Node("B", None, None, None, Some(["C"]), None),
     Node("C", None, None, None, None, None)]
  }

  lemma ChainChildren()
    ensures ChildrenOf(Chain()) == map["A" := ["B"], "B" := ["C"], "C" := []]
  {
    var s := Chain();
    assert s[..1] == [s[0]] && s[..1][..0] == [];
    assert ChildrenOf(s[..1]) == map["A" := ["B"]];
    assert s[..2][..1] == s[..1];
    assert ChildrenOf(s[..2]) == map["A" := ["B"], "B" := ["C"]];
    assert s[..3] == s;
  }

  lemma ChainParents()
    ensures ParentsOf(Chain()) == map["B" := "A", "C" := "B"]
  {
    var s := Chain();
    assert s[..1] == [s[0]] && s[..1][..0] == [];
    assert ["B"][..0] == [] && ["C"][..0] == [];
    assert Declare(map[], "A", ["B"]) == map["B" := "A"];
    assert ParentsOf(s[..1]) == map["B" := "A"];
    assert s[..2][..1] == s[..1];
    assert Declare(map["B" := "A"], "B", ["C"]) == map["B" := "A", "C" := "B"];
    assert ParentsOf(s[..2]) == map["B" := "A", "C" := "B"];
    assert s[..3] == s;
  }

  lemma ChainUpSteps()
    ensures UpSteps(map["B" := "A", "C" := "B"]) == map["B" := ["A"], "C" := ["B"]]
  {
  }

  /** On the chain's maps, only A, B and C can be kept. */
  lemma ChainFocusWithin(r: string, x: string)
    requires r in {"A", "B", "C"}
    requires InFocus(map["A" := ["B"], "B" := ["C"], "C" := []], map["B" := "A", "C" := "B"], r, x)
    ensures x in {"A", "B", "C"}
  {
    var co: map<string, seq<string>> := map["A" := ["B"], "B" := ["C"], "C" := []];
    var po := map["B" := "A", "C" := "B"];
    var up: map<string, seq<string>> := map["B" := ["A"], "C" := ["B"]];
    var all := {"A", "B", "C"};
    if Reach(co, r, x) {
      assert Closed(co, all);
      ReachClosed(co, all, r, x);
    } else {
      ChainUpSteps();
      assert Closed(up, all);
      ReachClosed(up, all, po[r], x);
    }
  }

  /** On the chain's maps, A, B and C are all kept whichever is clicked. */
  lemma ChainFocusCovers(r: string, x: string)
    requires r in {"A", "B", "C"} && x in {"A", "B", "C"}
    ensures InFocus(map["A" := ["B"], "B" := ["C"], "C" := []], map["B" := "A", "C" := "B"], r, x)
  {
    var co: map<string, seq<string>> := map["A" := ["B"], "B" := ["C"], "C" := []];
    var up: map<string, seq<string>> := map["B" := ["A"], "C" := ["B"]];
    ChainUpSteps();
    ReachRefl(co, r);
    if r == "A" {
      ReachStep(co, "A", "A", "B");
      ReachStep(co, "A", "B", "C");
    } else if r == "B" {
      ReachStep(co, "B", "B", "C");
      ReachRefl(up, "A");
    } else {
      ReachRefl(up, "B");
      ReachStep(up, "B", "B", "A");
    }
  }

  /** The chain A -> B -> C: clicking any of the three keeps all three, and
      nothing else. */
  lemma ChainFocus(r: string, x: string)
    requires r in {"A", "B", "C"}
    ensures InFocus(ChildrenOf(Chain()), ParentsOf(Chain()), r, x) <==> x in {"A", "B", "C"}
  {
    ChainChildren();
    ChainParents();
    if x in {"A", "B", "C"} {
      ChainFocusCovers(r, x);
    }
    if InFocus(ChildrenOf(Chain()), ParentsOf(Chain()), r, x) {
      ChainFocusWithin(r, x);
    }
  }

  /** A lone root with no children: clicking it keeps only itself. */
  lemma LoneRootFocus(x: string)
    ensures var s := [Node("R", None, None, None, None, None)];
      InFocus(ChildrenOf(s), ParentsOf(s), "R", x) <==> x == "R"
  {
    var s := [Node("R", None, None, None, None, None)];
    var co, po := ChildrenOf(s), ParentsOf(s);
    assert co == map["R" := []] && po == map[];
    assert Closed(co, {"R"});
    if Reach(co, "R", x) { ReachClosed(co, {"R"}, "R", x); }
    ReachRefl(co, "R");
  }

  // ---------------------------------------------------------------------
  // Classification and the click-driven state machine

  /** The two classes a node element can carry. */
  datatype Mark = Mark(dimmed: bool, active: bool)

  datatype FocusState = Idle | Focused(root: string)

  /** A click on a node element (which stops propagation), or a click that
      reaches the document, inside or outside the info panel. */
  datatype Event = NodeClick(id: string) | DocumentClick(insidePanel: bool)

  function Step(s: FocusState, e: Event): FocusState
  {
    match e
    case NodeClick(id) => Focused(id)
    case DocumentClick(insidePanel) => if insidePanel then s else Idle
  }

  /** The state after the events `es`, in order, starting from `s`. */
  function Run(s: FocusState, es: seq<Event>): FocusState
  {
    if es == [] then s
    else Step(Run(s, es[..|es| - 1]), es[|es| - 1])
  }

  /** From the initial state, a node stays focused exactly when it was the
      last one clicked and every later click landed inside the info panel. */
  lemma {:induction false} RunFocused(es: seq<Event>, r: string)
    ensures Run(Idle, es) == Focused(r) <==>
      exists i :: 0 <= i < |es| && es[i] == NodeClick(r) &&
        forall j :: i < j < |es| ==> es[j] == DocumentClick(true)
  {
    if es != [] {
      var init, e := es[..|es| - 1], es[|es| - 1];
      RunFocused(init, r);
      if e == NodeClick(r) {
        assert es[|es| - 1] == NodeClick(r);
      } else if e == DocumentClick(true) {
        assert Run(Idle, es) == Run(Idle, init);
        if Run(Idle, init) == Focused(r) {
          var i :| 0 <= i < |init| && init[i] == NodeClick(r) &&
            forall j :: i < j < |init| ==> init[j] == DocumentClick(true);
          assert es[i] == NodeClick(r);
          forall j | i < j < |es| ensures es[j] == DocumentClick(true) {
            if j < |init| { assert es[j] == init[j]; }
          }
        } else {
          forall i | 0 <= i < |es| && es[i] == NodeClick(r)
            ensures exists j :: i < j < |es| && es[j] != DocumentClick(true)
          {
            assert i < |init| && init[i] == NodeClick(r);
            var j :| i < j < |init| && init[j] != DocumentClick(true);
            assert es[j] == init[j];
          }
        }
      } else {
        assert Run(Idle, es) != Focused(r);
        forall i | 0 <= i < |es| && es[i] == NodeClick(r)
          ensures exists j :: i < j < |es| && es[j] != DocumentClick(true)
        {
          assert es[|es| - 1] != DocumentClick(true);
        }
      }
    }
  }
}
