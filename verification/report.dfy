/**
 Assembly of the audit report of a compliance assessment from the flat
 list of (already filtered) requirement nodes: the ancestor set of every
 requirement assessment (the walk up `parent_urn`), the forest of nodes
 whose roots are the nodes without a parent, built by recursion over the
 children of each node, and the evidences met along the way, without
 duplicates.

 The source's ancestor walk loops forever on a parent cycle and its tree
 recursion fails once it is deeper than the interpreter allows; `fuel`
 bounds both here and running out of it is reported as `Diverges`.
 */
module Report {
  import opened Common

  datatype Node = Node(urn: string, parentUrn: string, assessable: bool)

  /** An applied control of an assessment with the ids of its evidences. */
  datatype ControlEvidence = ControlEvidence(control: string, evidences: seq<string>)

  datatype Assessment = Assessment(id: string, requirement: Node, evidences: seq<string>, controls: seq<ControlEvidence>)

  /** One node of the report: its children, the `bar_graph` flag and its assessment. */
  datatype NodeData = NodeData(node: Node, children: seq<NodeData>, barGraph: bool, assessment: Option<Assessment>)

  /** KeyError on a parent that is not in the node list, or a walk that does not end. */
  datatype Failure = MissingParent(urn: string) | Diverges

  datatype Outcome<+T> = Done(value: T) | Failed(failure: Failure)

  datatype ReportData = ReportData(topLevel: seq<NodeData>, ancestors: seq<set<Node>>, evidences: seq<string>)

  // ---------------------------------------------------------------- lookups

  /** The nodes whose parent is `urn`, in input order. */
  function Children(nodes: seq<Node>, urn: string): seq<Node>
  {
    if |nodes| == 0 then []
    else (if nodes[0].parentUrn == urn then [nodes[0]] else []) + Children(nodes[1..], urn)
  }

  /** The nodes without a parent, in input order. */
  function TopLevel(nodes: seq<Node>): seq<Node>
  {
    if |nodes| == 0 then []
    else (if nodes[0].parentUrn == "" then [nodes[0]] else []) + TopLevel(nodes[1..])
  }

  /** `n` is the last of `nodes` with the urn: a later node with it would replace it in the dictionary. */
  predicate LastWithUrn(nodes: seq<Node>, urn: string, n: Node)
  {
    exists i :: 0 <= i < |nodes| && nodes[i] == n && forall j :: i < j < |nodes| ==> nodes[j].urn != urn
  }

  /** `node_per_urn[urn]`: the dictionary keeps the last node with that urn. */
  function Lookup(nodes: seq<Node>, urn: string): (r: Option<Node>)
    ensures r.Some? ==> r.value in nodes && r.value.urn == urn
    ensures r.Some? ==> LastWithUrn(nodes, urn, r.value)
    ensures r.None? <==> forall i :: 0 <= i < |nodes| ==> nodes[i].urn != urn
  {
    if |nodes| == 0 then None
    else if nodes[|nodes| - 1].urn == urn then
      assert LastWithUrn(nodes, urn, nodes[|nodes| - 1]) by {
        assert nodes[|nodes| - 1] == nodes[|nodes| - 1];
      }
      Some(nodes[|nodes| - 1])
    else
      var r := Lookup(nodes[..|nodes| - 1], urn);
      if r.Some? then
        LastWithUrnExtend(nodes, urn, r.value);
        r
      else r
  }

  /** A node last with its urn in all but the final node stays last when the final node has another urn. */
  lemma LastWithUrnExtend(nodes: seq<Node>, urn: string, n: Node)
    requires |nodes| > 0 && nodes[|nodes| - 1].urn != urn
    requires LastWithUrn(nodes[..|nodes| - 1], urn, n)
    ensures LastWithUrn(nodes, urn, n)
  {
    var init := nodes[..|nodes| - 1];
    var i :| 0 <= i < |init| && init[i] == n && forall j :: i < j < |init| ==> init[j].urn != urn;
    assert nodes[i] == n;
    forall j | i < j < |nodes|
      ensures nodes[j].urn != urn
    {
      if j < |init| {
        assert nodes[j] == init[j];
      }
    }
  }

  /** The first assessment of an assessable node (`.first()` of the filter on its urn). */
  function AssessmentFor(assessments: seq<Assessment>, n: Node): Option<Assessment>
  {
    if !n.assessable then None else FirstFor(assessments, n.urn)
  }

  function FirstFor(assessments: seq<Assessment>, urn: string): Option<Assessment>
  {
    if |assessments| == 0 then None
    else if assessments[0].requirement.urn == urn then Some(assessments[0])
    else FirstFor(assessments[1..], urn)
  }

  predicate UniqueUrns(nodes: seq<Node>)
  {
    forall i, j :: 0 <= i < j < |nodes| ==> nodes[i].urn != nodes[j].urn
  }

  predicate NonEmptyUrns(nodes: seq<Node>)
  {
    forall i :: 0 <= i < |nodes| ==> nodes[i].urn != ""
  }

  /** A node is a child exactly when it is listed and its parent is `urn`. */
  lemma {:induction false} ChildrenExactly(nodes: seq<Node>, urn: string, c: Node)
    ensures c in Children(nodes, urn) <==> c in nodes && c.parentUrn == urn
    decreases |nodes|
  {
    if |nodes| > 0 {
      ChildrenExactly(nodes[1..], urn, c);
      assert nodes == [nodes[0]] + nodes[1..];
    }
  }

  /** A node is top-level exactly when it is listed and has no parent. */
  lemma {:induction false} TopLevelExactly(nodes: seq<Node>, c: Node)
    ensures c in TopLevel(nodes) <==> c in nodes && c.parentUrn == ""
    decreases |nodes|
  {
    if |nodes| > 0 {
      TopLevelExactly(nodes[1..], c);
      assert nodes == [nodes[0]] + nodes[1..];
    }
  }

  lemma {:induction false} LookupUnique(nodes: seq<Node>, m: Node)
    requires UniqueUrns(nodes) && m in nodes
    ensures Lookup(nodes, m.urn) == Some(m)
    decreases |nodes|
  {
    var last := nodes[|nodes| - 1];
    var init := nodes[..|nodes| - 1];
    assert nodes == init + [last];
    if last != m {
      assert m in init;
      LookupUnique(init, m);
    }
  }

  // ------------------------------------------------------------ ancestors

  /**
   The walk of `ancestors`: the requirement, its parent, the parent's
   parent, ... up to a node without a parent.
   */
  function AncestorChain(nodes: seq<Node>, req: Node, fuel: nat): (r: Outcome<seq<Node>>)
    ensures r.Done? ==> 1 <= |r.value| <= fuel && r.value[0] == req
    ensures r.Done? ==> r.value[|r.value| - 1].parentUrn == ""
    decreases fuel
  {
    if fuel == 0 then Failed(Diverges)
    else if req.parentUrn == "" then Done([req])
    else
      match Lookup(nodes, req.parentUrn)
      case None => Failed(MissingParent(req.parentUrn))
      case Some(p) =>
        match AncestorChain(nodes, p, fuel - 1)
        case Done(chain) => Done([req] + chain)
        case Failed(f) => Failed(f)
  }

  /**
   Reference definition of a chain: each element's parent is the next one
   (through `node_per_urn`), and only the last has no parent.
   */
  predicate IsRootPath(nodes: seq<Node>, p: seq<Node>)
  {
    && |p| >= 1
    && p[|p| - 1].parentUrn == ""
    && forall i :: 0 <= i < |p| - 1 ==>
         p[i].parentUrn != "" && Lookup(nodes, p[i].parentUrn) == Some(p[i + 1])
  }

  /** The walk finds a root path exactly when one exists within the bound, and it is that path. */
  lemma ChainIffRootPath(nodes: seq<Node>, req: Node, fuel: nat, p: seq<Node>)
    ensures AncestorChain(nodes, req, fuel) == Done(p) <==> IsRootPath(nodes, p) && p[0] == req && |p| <= fuel
  {
    if AncestorChain(nodes, req, fuel) == Done(p) {
      ChainIsRootPath(nodes, req, fuel);
    }
    if IsRootPath(nodes, p) && p[0] == req && |p| <= fuel {
      RootPathIsChain(nodes, fuel, p);
    }
  }

  /** A finished walk is a root path from the requirement, no longer than the bound. */
  lemma {:induction false} ChainIsRootPath(nodes: seq<Node>, req: Node, fuel: nat)
    requires AncestorChain(nodes, req, fuel).Done?
    ensures var p := AncestorChain(nodes, req, fuel).value;
      IsRootPath(nodes, p) && p[0] == req && |p| <= fuel
    decreases fuel
  {
    if req.parentUrn != "" {
      var parent := Lookup(nodes, req.parentUrn).value;
      ChainIsRootPath(nodes, parent, fuel - 1);
      var rest := AncestorChain(nodes, parent, fuel - 1).value;
      var p := [req] + rest;
      assert p[1..] == rest;
      RootPathCons(nodes, p);
    }
  }

  /** A root path from the requirement within the bound is what the walk returns. */
  lemma {:induction false} RootPathIsChain(nodes: seq<Node>, fuel: nat, p: seq<Node>)
    requires IsRootPath(nodes, p) && |p| <= fuel
    ensures AncestorChain(nodes, p[0], fuel) == Done(p)
    decreases fuel
  {
    if |p| == 1 {
      assert p == [p[0]];
    } else {
      RootPathCons(nodes, p);
      var rest := p[1..];
      RootPathIsChain(nodes, fuel - 1, rest);
      assert p == [p[0]] + rest;
    }
  }

  /** A node that is its own parent makes the walk run until the bound is exhausted. */
  lemma {:induction false} SelfParentDiverges(nodes: seq<Node>, n: Node, fuel: nat)
    requires UniqueUrns(nodes) && n in nodes
    requires n.urn != "" && n.parentUrn == n.urn
    ensures AncestorChain(nodes, n, fuel) == Failed(Diverges)
    decreases fuel
  {
    if fuel > 0 {
      LookupUnique(nodes, n);
      SelfParentDiverges(nodes, n, fuel - 1);
    }
  }

  /** A parent urn that no node carries is reported as such. */
  lemma MissingParentReported(nodes: seq<Node>, n: Node, fuel: nat)
    requires fuel > 0 && n.parentUrn != ""
    requires forall i :: 0 <= i < |nodes| ==> nodes[i].urn != n.parentUrn
    ensures AncestorChain(nodes, n, fuel) == Failed(MissingParent(n.parentUrn))
  {
  }

  /** A path of two or more nodes is a root path when its tail is one and its head's parent is the tail's head. */
  lemma RootPathCons(nodes: seq<Node>, p: seq<Node>)
    requires |p| >= 2
    ensures IsRootPath(nodes, p) <==>
      && p[0].parentUrn != ""
      && Lookup(nodes, p[0].parentUrn) == Some(p[1])
      && IsRootPath(nodes, p[1..])
  {
    var rest := p[1..];
    if IsRootPath(nodes, p) {
      forall i | 0 <= i < |rest| - 1
        ensures rest[i].parentUrn != "" && Lookup(nodes, rest[i].parentUrn) == Some(rest[i + 1])
      {
        assert rest[i] == p[i + 1] && rest[i + 1] == p[i + 2];
      }
    }
    if p[0].parentUrn != "" && Lookup(nodes, p[0].parentUrn) == Some(p[1]) && IsRootPath(nodes, rest) {
      forall i | 0 <= i < |p| - 1
        ensures p[i].parentUrn != "" && Lookup(nodes, p[i].parentUrn) == Some(p[i + 1])
      {
        if i > 0 {
          assert p[i] == rest[i - 1] && p[i + 1] == rest[i];
        }
      }
    }
  }

  /** A root path never visits a node twice: the parent chain is acyclic. */
  lemma RootPathIsSimple(nodes: seq<Node>, p: seq<Node>)
    requires IsRootPath(nodes, p)
    ensures forall i, j :: 0 <= i < j < |p| ==> p[i] != p[j]
  {
    forall i, j | 0 <= i < j < |p|
      ensures p[i] != p[j]
    {
      if p[i] == p[j] {
        var k := |p| - 1 - j;
        ShiftedEqual(nodes, p, i, j, k);
      }
    }
  }

  lemma {:induction false} ShiftedEqual(nodes: seq<Node>, p: seq<Node>, i: nat, j: nat, k: nat)
    requires IsRootPath(nodes, p)
    requires i < j && j + k < |p| && p[i] == p[j]
    ensures p[i + k] == p[j + k]
    decreases k
  {
    if k > 0 {
      ShiftedEqual(nodes, p, i, j, k - 1);
      assert Lookup(nodes, p[i + k - 1].parentUrn) == Some(p[i + k]);
      assert Lookup(nodes, p[j + k - 1].parentUrn) == Some(p[j + k]);
    }
  }

  function Elems(p: seq<Node>): set<Node>
  {
    set x | x in p
  }

  /** A set that holds the parent of each of its members that has one. */
  ghost predicate ClosedUnderParent(nodes: seq<Node>, s: set<Node>)
  {
    forall x :: x in s && x.parentUrn != "" ==>
      Lookup(nodes, x.parentUrn).Some? && Lookup(nodes, x.parentUrn).value in s
  }

  /** The ancestors of a requirement contain it and its whole parent chain. */
  lemma RootPathElemsClosed(nodes: seq<Node>, p: seq<Node>)
    requires IsRootPath(nodes, p)
    ensures p[0] in Elems(p)
    ensures ClosedUnderParent(nodes, Elems(p))
  {
    forall x | x in Elems(p) && x.parentUrn != ""
      ensures Lookup(nodes, x.parentUrn).Some? && Lookup(nodes, x.parentUrn).value in Elems(p)
    {
      var i :| 0 <= i < |p| && p[i] == x;
      assert i < |p| - 1;
      assert p[i + 1] in Elems(p);
    }
  }

  /** The `ancestors` dictionary, one set per assessment, in assessment order. */
  function AllAncestors(nodes: seq<Node>, assessments: seq<Assessment>, fuel: nat): (r: Outcome<seq<set<Node>>>)
    ensures r.Done? ==> |r.value| == |assessments|
    ensures r.Done? ==> forall i :: 0 <= i < |assessments| ==>
      && AncestorChain(nodes, assessments[i].requirement, fuel).Done?
      && r.value[i] == Elems(AncestorChain(nodes, assessments[i].requirement, fuel).value)
    ensures r.Failed? ==> exists i :: 0 <= i < |assessments| && AncestorChain(nodes, assessments[i].requirement, fuel).Failed?
    decreases |assessments|
  {
    if |assessments| == 0 then Done([])
    else
      match AncestorChain(nodes, assessments[0].requirement, fuel)
      case Failed(f) => Failed(f)
      case Done(chain) =>
        match AllAncestors(nodes, assessments[1..], fuel)
        case Failed(f) => Failed(f)
        case Done(rest) => Done([Elems(chain)] + rest)
  }

  // ----------------------------------------------------------------- tree

  function NodesOf(ts: seq<NodeData>): (ns: seq<Node>)
    ensures |ns| == |ts|
    ensures forall i :: 0 <= i < |ts| ==> ns[i] == ts[i].node
  {
    if |ts| == 0 then [] else [ts[0].node] + NodesOf(ts[1..])
  }

  /** Evidences of an assessment: its own, then those of each applied control. */
  function OwnEvidence(a: Option<Assessment>): seq<string>
  {
    match a
    case None => []
    case Some(x) => x.evidences + ControlsEvidence(x.controls)
  }

  function ControlsEvidence(cs: seq<ControlEvidence>): seq<string>
  {
    if |cs| == 0 then [] else cs[0].evidences + ControlsEvidence(cs[1..])
  }

  /**
   Reference shape of a report node: its children are the children of its
   node in input order, each again well built, `bar_graph` says whether
   there are any, and the assessment is the node's own.
   */
  ghost predicate WellBuilt(nodes: seq<Node>, assessments: seq<Assessment>, t: NodeData)
    decreases t
  {
    && NodesOf(t.children) == Children(nodes, t.node.urn)
    && t.barGraph == (|t.children| > 0)
    && t.assessment == AssessmentFor(assessments, t.node)
    && forall i :: 0 <= i < |t.children| ==> WellBuilt(nodes, assessments, t.children[i])
  }

  /** The evidences of a built tree in pre-order: the node's own, then each child's. */
  function TreeEvidence(t: NodeData): seq<string>
    decreases t, |t.children| + 1
  {
    OwnEvidence(t.assessment) + ForestEvidence(t, t.children)
  }

  /** The evidences of `ts`, a suffix of the children of `parent`. */
  function ForestEvidence(parent: NodeData, ts: seq<NodeData>): seq<string>
    requires forall i :: 0 <= i < |ts| ==> ts[i] in parent.children
    decreases parent, |ts|
  {
    if |ts| == 0 then []
    else
      assert ts[0] in parent.children;
      TreeEvidence(ts[0]) + ForestEvidence(parent, ts[1..])
  }

  /** The evidences of a sequence of trees, one after the other. */
  function TreesEvidence(ts: seq<NodeData>): seq<string>
  {
    if |ts| == 0 then [] else TreeEvidence(ts[0]) + TreesEvidence(ts[1..])
  }

  lemma {:induction false} ForestIsTrees(parent: NodeData, ts: seq<NodeData>)
    requires forall i :: 0 <= i < |ts| ==> ts[i] in parent.children
    ensures ForestEvidence(parent, ts) == TreesEvidence(ts)
    decreases |ts|
  {
    if |ts| > 0 {
      ForestIsTrees(parent, ts[1..]);
    }
  }

  /** `generate_data_rec`: the report node of `n` and the evidences of its subtree. */
  function BuildNode(nodes: seq<Node>, assessments: seq<Assessment>, n: Node, fuel: nat): (r: Option<(NodeData, seq<string>)>)
    ensures r.Some? ==> r.value.0.node == n
    ensures r.Some? ==> WellBuilt(nodes, assessments, r.value.0)
    ensures r.Some? ==> r.value.1 == TreeEvidence(r.value.0)
    decreases fuel, 0, 0
  {
    if fuel == 0 then None
    else
      var kids := Children(nodes, n.urn);
      var a := AssessmentFor(assessments, n);
      match BuildAll(nodes, assessments, kids, fuel - 1)
      case None => None
      case Some(built) =>
        var t := NodeData(n, built.0, |kids| > 0, a);
        ForestIsTrees(t, built.0);
        Some((t, OwnEvidence(a) + built.1))
  }

  /** The report nodes of `ns`, in order, and their evidences one after the other. */
  function BuildAll(nodes: seq<Node>, assessments: seq<Assessment>, ns: seq<Node>, fuel: nat): (r: Option<(seq<NodeData>, seq<string>)>)
    ensures r.Some? ==> NodesOf(r.value.0) == ns
    ensures r.Some? ==> forall i :: 0 <= i < |r.value.0| ==> WellBuilt(nodes, assessments, r.value.0[i])
    ensures r.Some? ==> r.value.1 == TreesEvidence(r.value.0)
    decreases fuel, 1, |ns|
  {
    if |ns| == 0 then Some(([], []))
    else
      match BuildNode(nodes, assessments, ns[0], fuel)
      case None => None
      case Some(first) =>
        match BuildAll(nodes, assessments, ns[1..], fuel)
        case None => None
        case Some(rest) =>
          var ts := [first.0] + rest.0;
          assert ts[1..] == rest.0;
          assert NodesOf(ts) == [ns[0]] + ns[1..];
          Some((ts, first.1 + rest.1))
  }

  /**
   On a forest (unique, non-empty urns, every parent chain ending within
   `depth` steps) a node whose chain has length `d` is built with any
   recursion bound above `depth - d`.
   */
  lemma {:induction false} ChildChain(nodes: seq<Node>, n: Node, c: Node, depth: nat)
    requires UniqueUrns(nodes) && NonEmptyUrns(nodes) && n in nodes
    requires c in Children(nodes, n.urn)
    requires AncestorChain(nodes, c, depth).Done?
    ensures AncestorChain(nodes, n, depth).Done?
    ensures |AncestorChain(nodes, c, depth).value| == |AncestorChain(nodes, n, depth).value| + 1
  {
    ChildrenExactly(nodes, n.urn, c);
    LookupUnique(nodes, n);
    assert c.parentUrn != "";
    var ch := AncestorChain(nodes, n, depth - 1);
    assert ch.Done?;
    ChainIsRootPath(nodes, n, depth - 1);
    RootPathIsChain(nodes, depth, ch.value);
  }

  /** Every listed node's parent chain ends within `depth` steps. */
  predicate ChainsWithin(nodes: seq<Node>, depth: nat)
  {
    ChainsOfWithin(nodes, nodes, depth)
  }

  /** The parent chain of every node of `ns` ends within `depth` steps. */
  predicate ChainsOfWithin(nodes: seq<Node>, ns: seq<Node>, depth: nat)
  {
    |ns| == 0 || (AncestorChain(nodes, ns[0], depth).Done? && ChainsOfWithin(nodes, ns[1..], depth))
  }

  lemma ListedChainDone(nodes: seq<Node>, m: Node, depth: nat)
    requires ChainsWithin(nodes, depth) && m in nodes
    ensures AncestorChain(nodes, m, depth).Done?
  {
    ListedChainDoneIn(nodes, nodes, m, depth);
  }

  lemma {:induction false} ListedChainDoneIn(nodes: seq<Node>, ns: seq<Node>, m: Node, depth: nat)
    requires ChainsOfWithin(nodes, ns, depth) && m in ns
    ensures AncestorChain(nodes, m, depth).Done?
    decreases |ns|
  {
    if ns[0] != m {
      assert m in ns[1..];
      ListedChainDoneIn(nodes, ns[1..], m, depth);
    }
  }

  lemma KidChain(nodes: seq<Node>, n: Node, c: Node, depth: nat)
    requires UniqueUrns(nodes) && NonEmptyUrns(nodes)
    requires ChainsWithin(nodes, depth)
    requires n in nodes && c in Children(nodes, n.urn)
    ensures c in nodes
    ensures AncestorChain(nodes, n, depth).Done? && AncestorChain(nodes, c, depth).Done?
    ensures |AncestorChain(nodes, c, depth).value| == |AncestorChain(nodes, n, depth).value| + 1
  {
    ChildrenExactly(nodes, n.urn, c);
    ListedChainDone(nodes, c, depth);
    ChildChain(nodes, n, c, depth);
  }

  /** The subtree of `n` is shallower than `fuel`: the recursion bound the build needs. */
  predicate Fits(nodes: seq<Node>, n: Node, fuel: nat)
    decreases fuel, 0, 0
  {
    fuel > 0 && AllFit(nodes, Children(nodes, n.urn), fuel - 1)
  }

  predicate AllFit(nodes: seq<Node>, ns: seq<Node>, fuel: nat)
    decreases fuel, 1, |ns|
  {
    |ns| == 0 || (Fits(nodes, ns[0], fuel) && AllFit(nodes, ns[1..], fuel))
  }

  /** The build fails only for lack of recursion depth. */
  lemma {:induction false} BuildNodeIffFits(nodes: seq<Node>, assessments: seq<Assessment>, n: Node, fuel: nat)
    ensures BuildNode(nodes, assessments, n, fuel).Some? <==> Fits(nodes, n, fuel)
    decreases fuel, 0, 0
  {
    if fuel > 0 {
      BuildAllIffFit(nodes, assessments, Children(nodes, n.urn), fuel - 1);
    }
  }

  lemma {:induction false} BuildAllIffFit(nodes: seq<Node>, assessments: seq<Assessment>, ns: seq<Node>, fuel: nat)
    ensures BuildAll(nodes, assessments, ns, fuel).Some? <==> AllFit(nodes, ns, fuel)
    decreases fuel, 1, |ns|
  {
    if |ns| > 0 {
      BuildNodeIffFits(nodes, assessments, ns[0], fuel);
      BuildAllIffFit(nodes, assessments, ns[1..], fuel);
    }
  }

  lemma {:induction false} NodeFits(nodes: seq<Node>, n: Node, fuel: nat, depth: nat)
    requires UniqueUrns(nodes) && NonEmptyUrns(nodes)
    requires ChainsWithin(nodes, depth)
    requires n in nodes
    requires AncestorChain(nodes, n, depth).Done?
    requires |AncestorChain(nodes, n, depth).value| + fuel > depth
    ensures Fits(nodes, n, fuel)
    decreases fuel, 0, 0
  {
    assert fuel > 0 by {
      assert |AncestorChain(nodes, n, depth).value| <= depth;
    }
    KidsReady(nodes, n, fuel, depth);
    AllFitOnForest(nodes, Children(nodes, n.urn), fuel - 1, depth);
  }

  lemma {:induction false} AllFitOnForest(nodes: seq<Node>, ks: seq<Node>, fuel: nat, depth: nat)
    requires UniqueUrns(nodes) && NonEmptyUrns(nodes)
    requires ChainsWithin(nodes, depth)
    requires forall i :: 0 <= i < |ks| ==> ks[i] in nodes
    requires forall i :: 0 <= i < |ks| ==>
      AncestorChain(nodes, ks[i], depth).Done? && |AncestorChain(nodes, ks[i], depth).value| + fuel > depth
    ensures AllFit(nodes, ks, fuel)
    decreases fuel, 1, |ks|
  {
    if |ks| > 0 {
      NodeFits(nodes, ks[0], fuel, depth);
      AllFitOnForest(nodes, ks[1..], fuel, depth);
    }
  }

  lemma KidsReady(nodes: seq<Node>, n: Node, fuel: nat, depth: nat)
    requires UniqueUrns(nodes) && NonEmptyUrns(nodes)
    requires ChainsWithin(nodes, depth)
    requires n in nodes
    requires AncestorChain(nodes, n, depth).Done?
    requires |AncestorChain(nodes, n, depth).value| + fuel > depth
    ensures forall i :: 0 <= i < |Children(nodes, n.urn)| ==>
        && Children(nodes, n.urn)[i] in nodes
        && AncestorChain(nodes, Children(nodes, n.urn)[i], depth).Done?
        && |AncestorChain(nodes, Children(nodes, n.urn)[i], depth).value| + (fuel - 1) > depth
  {
    var kids := Children(nodes, n.urn);
    forall i | 0 <= i < |kids|
      ensures kids[i] in nodes
      ensures AncestorChain(nodes, kids[i], depth).Done?
      ensures |AncestorChain(nodes, kids[i], depth).value| + (fuel - 1) > depth
    {
      KidChain(nodes, n, kids[i], depth);
    }
  }

  // ------------------------------------------------------------- evidences

  predicate NoDuplicates(s: seq<string>)
  {
    forall i, j :: 0 <= i < j < |s| ==> s[i] != s[j]
  }

  /** `list(set(evidences))`, keeping first occurrences in order. */
  function Dedup(s: seq<string>): (r: seq<string>)
    ensures forall x :: x in r <==> x in s
    ensures NoDuplicates(r)
  {
    if |s| == 0 then []
    else
      var rest := Dedup(s[..|s| - 1]);
      var x := s[|s| - 1];
      assert s == s[..|s| - 1] + [x];
      if x in rest then rest else rest + [x]
  }

  // ---------------------------------------------------------------- report

  lemma AncestorsClosed(nodes: seq<Node>, assessments: seq<Assessment>, fuel: nat, ancestors: seq<set<Node>>)
    requires AllAncestors(nodes, assessments, fuel) == Done(ancestors)
    ensures forall i :: 0 <= i < |assessments| ==>
      assessments[i].requirement in ancestors[i] && ClosedUnderParent(nodes, ancestors[i])
  {
    forall i | 0 <= i < |assessments|
      ensures assessments[i].requirement in ancestors[i] && ClosedUnderParent(nodes, ancestors[i])
    {
      var chain := AncestorChain(nodes, assessments[i].requirement, fuel).value;
      ChainIffRootPath(nodes, assessments[i].requirement, fuel, chain);
      RootPathElemsClosed(nodes, chain);
    }
  }

  /** `generate_html` without the rendering: the report data and its evidences. */
  function GenerateReport(nodes: seq<Node>, assessments: seq<Assessment>, fuel: nat): (r: Outcome<ReportData>)
    ensures r.Done? ==> NodesOf(r.value.topLevel) == TopLevel(nodes)
    ensures r.Done? ==> forall i :: 0 <= i < |r.value.topLevel| ==> WellBuilt(nodes, assessments, r.value.topLevel[i])
    ensures r.Done? ==> |r.value.ancestors| == |assessments|
    ensures r.Done? ==> forall i :: 0 <= i < |assessments| ==>
      assessments[i].requirement in r.value.ancestors[i] && ClosedUnderParent(nodes, r.value.ancestors[i])
    ensures r.Done? ==> forall e :: e in r.value.evidences <==> e in TreesEvidence(r.value.topLevel)
    ensures r.Done? ==> NoDuplicates(r.value.evidences)
    ensures r.Done? ==> AllAncestors(nodes, assessments, fuel) == Done(r.value.ancestors)
  {
    match AllAncestors(nodes, assessments, fuel)
    case Failed(f) => Failed(f)
    case Done(ancestors) =>
      AncestorsClosed(nodes, assessments, fuel, ancestors);
      match BuildAll(nodes, assessments, TopLevel(nodes), fuel)
      case None => Failed(Diverges)
      case Some(built) => Done(ReportData(built.0, ancestors, Dedup(built.1)))
  }

  /** The report fails exactly when an ancestor walk fails or the tree is deeper than the bound. */
  lemma GenerateReportDoneIff(nodes: seq<Node>, assessments: seq<Assessment>, fuel: nat)
    ensures GenerateReport(nodes, assessments, fuel).Done? <==>
      AllAncestors(nodes, assessments, fuel).Done? && AllFit(nodes, TopLevel(nodes), fuel)
  {
    BuildAllIffFit(nodes, assessments, TopLevel(nodes), fuel);
  }

  lemma AncestorsDoneOnForest(nodes: seq<Node>, assessments: seq<Assessment>, depth: nat)
    requires ChainsWithin(nodes, depth)
    requires forall i :: 0 <= i < |assessments| ==> assessments[i].requirement in nodes
    ensures AllAncestors(nodes, assessments, depth).Done?
  {
    forall i | 0 <= i < |assessments|
      ensures AncestorChain(nodes, assessments[i].requirement, depth).Done?
    {
      ListedChainDone(nodes, assessments[i].requirement, depth);
    }
  }

  lemma TopLevelFits(nodes: seq<Node>, depth: nat)
    requires UniqueUrns(nodes) && NonEmptyUrns(nodes)
    requires ChainsWithin(nodes, depth)
    ensures AllFit(nodes, TopLevel(nodes), depth)
  {
    var tops := TopLevel(nodes);
    forall i | 0 <= i < |tops|
      ensures tops[i] in nodes
      ensures AncestorChain(nodes, tops[i], depth).Done?
      ensures |AncestorChain(nodes, tops[i], depth).value| + depth > depth
    {
      TopLevelExactly(nodes, tops[i]);
      ListedChainDone(nodes, tops[i], depth);
    }
    AllFitOnForest(nodes, tops, depth, depth);
  }

  /**
   A well-formed forest never makes the report fail: unique non-empty urns,
   parent chains ending within `depth` steps, and every assessed
   requirement listed.
   */
  lemma ReportSucceedsOnForest(nodes: seq<Node>, assessments: seq<Assessment>, depth: nat)
    requires UniqueUrns(nodes) && NonEmptyUrns(nodes)
    requires ChainsWithin(nodes, depth)
    requires forall i :: 0 <= i < |assessments| ==> assessments[i].requirement in nodes
    ensures GenerateReport(nodes, assessments, depth).Done?
  {
    AncestorsDoneOnForest(nodes, assessments, depth);
    TopLevelFits(nodes, depth);
    GenerateReportDoneIff(nodes, assessments, depth);
  }
}
