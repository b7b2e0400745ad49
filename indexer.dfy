/** What `buildIndexes` derives from the node list: the identity map, the
    child lists, the parent map, and the `parent` field it fills in on the
    child records. Each is a function of the list as it was before the call;
    the class `Diagram.Renderer` computes them with the source's loops. */
module Indexer {
  import opened Records

  /** `new Map(nodes.map(n => [n.id, n]))`, with a record named by its
      position in the list: every id of the list is a key, and it maps to the
      LAST record carrying that id. */
  function NodesById(s: seq<Node>): (m: map<string, nat>)
    ensures forall k :: 0 <= k < |s| ==> s[k].id in m
    ensures forall id :: id in m ==> m[id] < |s|
  {
    if s == [] then map[]
    else NodesById(s[..|s| - 1])[s[|s| - 1].id := |s| - 1]
  }

  /** `new Map(nodes.map(n => [n.id, n.children || []]))`. */
  function ChildrenOf(s: seq<Node>): map<string, seq<string>>
  {
    if s == [] then map[]
    else ChildrenOf(s[..|s| - 1])[s[|s| - 1].id := ChildList(s[|s| - 1])]
  }

  /** `cs.forEach(cid => m.set(cid, p))`. */
  function Declare(m: map<string, string>, p: string, cs: seq<string>): map<string, string>
  {
    if cs == [] then m
    else Declare(m, p, cs[..|cs| - 1])[cs[|cs| - 1] := p]
  }

  /** The `parentsOf` map: the outer loop over the records, the inner loop
      over each record's children, one `set` per occurrence. */
  function ParentsOf(s: seq<Node>): map<string, string>
  {
    if s == [] then map[]
    else Declare(ParentsOf(s[..|s| - 1]), s[|s| - 1].id, ChildList(s[|s| - 1]))
  }

  /** The id of the first record, in list order, whose children list `c`. */
  function FirstDeclarer(s: seq<Node>, c: string): Option<string>
  {
    if s == [] then None
    else
      var f := FirstDeclarer(s[..|s| - 1], c);
      if f.Some? then f
      else if c in ChildList(s[|s| - 1]) then Some(s[|s| - 1].id)
      else None
  }

  /** Record `k` once the `parent` field has been settled by `first`: only the
      record `nodesById` returns for its id, and only while its `parent` is
      null, receives it. */
  function AdoptOne(s: seq<Node>, k: nat, first: Option<string>): Node
    requires k < |s|
  {
    if NodesById(s)[s[k].id] == k && s[k].parent.None? then s[k].(parent := first)
    else s[k]
  }

  /** The records after `buildIndexes`. */
  function Adopt(s: seq<Node>): (r: seq<Node>)
    ensures |r| == |s|
  {
    seq(|s|, k requires 0 <= k < |s| => AdoptOne(s, k, FirstDeclarer(s, s[k].id)))
  }

  /** Same ids and same child lists, position by position. */
  ghost predicate SameShape(s: seq<Node>, t: seq<Node>)
  {
    |s| == |t| && forall k :: 0 <= k < |s| ==> s[k].id == t[k].id && ChildList(s[k]) == ChildList(t[k])
  }

  ghost predicate UniqueIds(s: seq<Node>)
  {
    forall i, j :: 0 <= i < j < |s| ==> s[i].id != s[j].id
  }

  /** One more child declared. */
  lemma DeclareNext(m: map<string, string>, p: string, cs: seq<string>, j: nat)
    requires j < |cs|
    ensures Declare(m, p, cs[..j + 1]) == Declare(m, p, cs[..j])[cs[j] := p]
  {
    assert cs[..j + 1][..j] == cs[..j];
  }

  /** One more record scanned. */
  lemma ParentsOfNext(s: seq<Node>, i: nat)
    requires i < |s|
    ensures ParentsOf(s[..i + 1]) == Declare(ParentsOf(s[..i]), s[i].id, ChildList(s[i]))
  {
    assert s[..i + 1][..i] == s[..i];
  }

  // ---------------------------------------------------------------------
  // Properties

  /** The record `nodesById` keeps for an id carries that id. */
  lemma {:induction false} NodesByIdNames(s: seq<Node>, id: string)
    requires id in NodesById(s)
    ensures s[NodesById(s)[id]].id == id
  {
    if s[|s| - 1].id != id {
      var init := s[..|s| - 1];
      NodesByIdNames(init, id);
      assert s[NodesById(init)[id]] == init[NodesById(init)[id]];
    }
  }

  /** `nodesById` has a key for exactly the ids in the list, and each maps
      to the last record carrying it. */
  lemma {:induction false} NodesByIdLast(s: seq<Node>, id: string)
    ensures id in NodesById(s) <==> exists k :: 0 <= k < |s| && s[k].id == id
    ensures id in NodesById(s) ==> forall k :: NodesById(s)[id] < k < |s| ==> s[k].id != id
  {
    if s != [] {
      var init := s[..|s| - 1];
      NodesByIdLast(init, id);
      assert forall k :: 0 <= k < |init| ==> s[k] == init[k];
    }
  }

  /** `childrenOf` has exactly the keys of `nodesById`, and maps each id to
      the children of the record `nodesById` keeps for it (the last one),
      an absent list read as empty. */
  lemma {:induction false} ChildrenOfLast(s: seq<Node>)
    ensures ChildrenOf(s).Keys == NodesById(s).Keys
    ensures forall id :: id in ChildrenOf(s) ==> ChildrenOf(s)[id] == ChildList(s[NodesById(s)[id]])
  {
    if s != [] {
      var init, last := s[..|s| - 1], s[|s| - 1];
      ChildrenOfLast(init);
      assert ChildrenOf(s) == ChildrenOf(init)[last.id := ChildList(last)];
      assert NodesById(s) == NodesById(init)[last.id := |s| - 1];
      forall id | id in ChildrenOf(s) ensures ChildrenOf(s)[id] == ChildList(s[NodesById(s)[id]]) {
        if id != last.id {
          var k := NodesById(init)[id];
          assert s[k] == init[k];
        }
      }
    }
  }

  /** After `Declare` every listed child maps to `p`, and every other key
      keeps its value; no other key appears. */
  lemma {:induction false} DeclareSets(m: map<string, string>, p: string, cs: seq<string>)
    ensures forall c :: c in Declare(m, p, cs) <==> c in m || c in cs
    ensures forall c :: c in cs ==> Declare(m, p, cs)[c] == p
    ensures forall c :: c in m && c !in cs ==> Declare(m, p, cs)[c] == m[c]
  {
    if cs != [] {
      var init := cs[..|cs| - 1];
      DeclareSets(m, p, init);
      assert cs == init + [cs[|cs| - 1]];
    }
  }

  /** `parentsOf` has an entry exactly for the ids listed as someone's child,
      and the entry is the id of the LAST record in list order that lists it. */
  lemma {:induction false} ParentsOfLastDeclarer(s: seq<Node>, c: string)
    ensures c in ParentsOf(s) <==> exists i :: 0 <= i < |s| && c in ChildList(s[i])
    ensures c in ParentsOf(s) ==>
      exists i :: 0 <= i < |s| && c in ChildList(s[i]) && ParentsOf(s)[c] == s[i].id &&
        forall k :: i < k < |s| ==> c !in ChildList(s[k])
  {
    if s != [] {
      var init, last := s[..|s| - 1], s[|s| - 1];
      var m := ParentsOf(init);
      assert ParentsOf(s) == Declare(m, last.id, ChildList(last));
      DeclareSets(m, last.id, ChildList(last));
      ParentsOfLastDeclarer(init, c);
      if c in ChildList(last) {
        assert c in ChildList(s[|s| - 1]) && ParentsOf(s)[c] == s[|s| - 1].id;
      } else if c in m {
        var i :| 0 <= i < |init| && c in ChildList(init[i]) && m[c] == init[i].id &&
          forall k :: i < k < |init| ==> c !in ChildList(init[k]);
        assert s[i] == init[i];
        assert c in ChildList(s[i]) && ParentsOf(s)[c] == s[i].id;
        forall k | i < k < |s| ensures c !in ChildList(s[k]) {
          if k < |init| { assert s[k] == init[k]; }
        }
      } else {
        assert c !in ParentsOf(s);
        forall i | 0 <= i < |s| ensures c !in ChildList(s[i]) {
          if i < |init| { assert s[i] == init[i]; }
        }
      }
    }
  }

  /** The first declarer is the id of the first record, in list order, that
      lists `c` among its children, and there is none when no record does. */
  lemma {:induction false} FirstDeclarerIsFirst(s: seq<Node>, c: string)
    ensures FirstDeclarer(s, c).None? <==> forall i :: 0 <= i < |s| ==> c !in ChildList(s[i])
    ensures FirstDeclarer(s, c).Some? ==>
      exists i :: 0 <= i < |s| && c in ChildList(s[i]) && FirstDeclarer(s, c).value == s[i].id &&
        forall k :: 0 <= k < i ==> c !in ChildList(s[k])
  {
    if s != [] {
      var init := s[..|s| - 1];
      FirstDeclarerIsFirst(init, c);
      assert forall i :: 0 <= i < |init| ==> s[i] == init[i];
    }
  }

  /** `buildIndexes` touches nothing in a record but its `parent` field; an
      explicit `parent` is never overwritten; a record hidden by a later
      record with the same id is never touched; the record `nodesById` keeps
      for its id, if its `parent` was null, receives the first declarer. */
  lemma AdoptOnlyFillsNullParent(s: seq<Node>, k: nat)
    requires k < |s|
    ensures Adopt(s)[k] == s[k].(parent := Adopt(s)[k].parent)
    ensures s[k].parent.Some? ==> Adopt(s)[k] == s[k]
    ensures NodesById(s)[s[k].id] != k ==> Adopt(s)[k] == s[k]
    ensures NodesById(s)[s[k].id] == k && s[k].parent.None? ==>
      Adopt(s)[k].parent == FirstDeclarer(s, s[k].id)
  {
  }

  /** Adoption keeps ids and child lists. */
  lemma AdoptSameShape(s: seq<Node>)
    ensures SameShape(s, Adopt(s))
  {
  }

  /** Everything `buildIndexes` derives depends only on ids and child lists. */
  lemma {:induction false} SameShapeSameIndexes(s: seq<Node>, t: seq<Node>)
    requires SameShape(s, t)
    ensures NodesById(s) == NodesById(t)
    ensures ChildrenOf(s) == ChildrenOf(t)
    ensures ParentsOf(s) == ParentsOf(t)
    ensures forall c :: FirstDeclarer(s, c) == FirstDeclarer(t, c)
  {
    if s != [] {
      var si, ti := s[..|s| - 1], t[..|t| - 1];
      assert SameShape(si, ti) by {
        forall k | 0 <= k < |si| ensures si[k].id == ti[k].id && ChildList(si[k]) == ChildList(ti[k]) {
          assert si[k] == s[k] && ti[k] == t[k];
        }
      }
      SameShapeSameIndexes(si, ti);
    }
  }

  /** Running `buildIndexes` a second time on its own output yields the same
      three maps and changes no record. */
  lemma BuildIndexesIdempotent(s: seq<Node>)
    ensures NodesById(Adopt(s)) == NodesById(s)
    ensures ChildrenOf(Adopt(s)) == ChildrenOf(s)
    ensures ParentsOf(Adopt(s)) == ParentsOf(s)
    ensures Adopt(Adopt(s)) == Adopt(s)
  {
    var a := Adopt(s);
    AdoptSameShape(s);
    SameShapeSameIndexes(s, a);
    forall k | 0 <= k < |a| ensures Adopt(a)[k] == a[k] {
      assert a[k].id == s[k].id;
    }
  }

  /** With unique ids, `childrenOf` maps each record's id to exactly that
      record's children, and `nodesById` to that record. */
  lemma ChildrenOfUnique(s: seq<Node>, k: nat)
    requires UniqueIds(s)
    requires k < |s|
    ensures NodesById(s)[s[k].id] == k
    ensures s[k].id in ChildrenOf(s) && ChildrenOf(s)[s[k].id] == ChildList(s[k])
  {
    NodesByIdNames(s, s[k].id);
    ChildrenOfLast(s);
  }
}
