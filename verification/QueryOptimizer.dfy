/**
 The query optimiser at work on the nodes themselves: it takes a tree apart, sorts the operands into pure
 and impure ones, and rebuilds both sides from the operator nodes it took out.
 */
module QueryOptimizer {
  import opened Options
  import opened QueryTree

  datatype NodeType = NtAttname | NtNsaname | NtVal | OpNot | OpAnd | OpOr | OpAndLater | OpOrLater | OpCompare

  /** A parse-tree node. cmp numbers a comparison; nsa and isData describe an attribute name. */
  class PNode {
    var kind: NodeType
    var left: PNode?
    var right: PNode?
    var isData: bool
    var nsa: nat
    var cmp: nat

    constructor (kind: NodeType, left: PNode?, right: PNode?, isData: bool, nsa: nat, cmp: nat)
      ensures this.kind == kind && this.left == left && this.right == right
      ensures this.isData == isData && this.nsa == nsa && this.cmp == cmp
    {
      this.kind, this.left, this.right, this.isData, this.nsa, this.cmp := kind, left, right, isData, nsa, cmp;
    }
  }

  /** A tree of nodes: which node stands where, and what it says there. */
  datatype PTree =
    | PAtt(node: PNode, isData: bool)
    | PNsa(node: PNode, nsa: nat)
    | PCmp(node: PNode, name: PTree, val: PNode, cmp: nat)
    | PNot(node: PNode, arg: PTree)
    | PBin(node: PNode, op: NodeType, left: PTree, right: PTree)

  ghost function Nodes(p: PTree): set<PNode> {
    match p
    case PAtt(n, _) => {n}
    case PNsa(n, _) => {n}
    case PCmp(n, a, v, _) => {n, v} + Nodes(a)
    case PNot(n, a) => {n} + Nodes(a)
    case PBin(n, _, l, r) => {n} + Nodes(l) + Nodes(r)
  }

  /** The nodes' fields say what the tree says. */
  ghost predicate Linked(p: PTree)
    reads Nodes(p)
  {
    match p
    case PAtt(n, isData) => n.kind == NtAttname && n.isData == isData
    case PNsa(n, nsa) => n.kind == NtNsaname && n.nsa == nsa
    case PCmp(n, a, v, cmp) =>
      (a.PAtt? || a.PNsa?) && Linked(a) && v.kind == NtVal
      && n.kind == OpCompare && n.left == a.node && n.right == v && n.cmp == cmp
    case PNot(n, a) => n.kind == OpNot && n.left == a.node && Linked(a)
    case PBin(n, op, l, r) =>
      op in {OpAnd, OpOr, OpAndLater, OpOrLater} && n.kind == op
      && n.left == l.node && n.right == r.node && Linked(l) && Linked(r)
  }

  /** No node stands in two places. */
  ghost predicate Tidy(p: PTree) {
    match p
    case PAtt(_, _) => true
    case PNsa(_, _) => true
    case PCmp(n, a, v, _) => n != v && n !in Nodes(a) && v !in Nodes(a)
    case PNot(n, a) => n !in Nodes(a) && Tidy(a)
    case PBin(n, _, l, r) => n !in Nodes(l) && n !in Nodes(r) && Nodes(l) !! Nodes(r) && Tidy(l) && Tidy(r)
  }

  ghost function Shape(p: PTree): Tree {
    match p
    case PAtt(_, isData) => StdAtt(isData)
    case PNsa(_, nsa) => NsaName(nsa)
    case PCmp(_, a, _, cmp) => if a.PNsa? then NsaCmp(a.nsa, cmp) else StdCmp(cmp)
    case PNot(_, a) => Not(Shape(a))
    case PBin(_, op, l, r) =>
      match op
      case OpAnd => And(Shape(l), Shape(r))
      case OpOr => Or(Shape(l), Shape(r))
      case OpAndLater => AndLater(Shape(l), Shape(r))
      case _ => OrLater(Shape(l), Shape(r))
  }

  ghost function POperands(p: PTree, op: NodeType): (ps: seq<PTree>)
    ensures |ps| > 0
  {
    if p.PBin? && p.op == op then POperands(p.left, op) + POperands(p.right, op) else [p]
  }

  /** The operator nodes taken out, in the order they are met. */
  ghost function PRecycled(p: PTree, op: NodeType): seq<PNode> {
    if p.PBin? && p.op == op then [p.node] + PRecycled(p.left, op) + PRecycled(p.right, op) else []
  }

  ghost function PSelect(ps: seq<PTree>, impure: bool): seq<PTree> {
    if ps == [] then []
    else if RefsNonStdAtts(Shape(ps[0])) == impure then [ps[0]] + PSelect(ps[1..], impure)
    else PSelect(ps[1..], impure)
  }

  ghost function Roots(ps: seq<PTree>): (ns: seq<PNode>)
    ensures |ns| == |ps| && forall i :: 0 <= i < |ps| ==> ns[i] == ps[i].node
  {
    seq(|ps|, i requires 0 <= i < |ps| => ps[i].node)
  }

  ghost function Shapes(ps: seq<PTree>): (ts: seq<Tree>)
    ensures |ts| == |ps| && forall i :: 0 <= i < |ps| ==> ts[i] == Shape(ps[i])
  {
    seq(|ps|, i requires 0 <= i < |ps| => Shape(ps[i]))
  }

  ghost function AllNodes(ps: seq<PTree>): set<PNode> {
    if ps == [] then {} else Nodes(ps[0]) + AllNodes(ps[1..])
  }

  ghost predicate AllLinked(ps: seq<PTree>)
    reads AllNodes(ps)
  {
    if ps == [] then true else Linked(ps[0]) && AllLinked(ps[1..])
  }

  /** Tidy trees that share no node. */
  ghost predicate Apart(ps: seq<PTree>) {
    if ps == [] then true else Tidy(ps[0]) && Nodes(ps[0]) !! AllNodes(ps[1..]) && Apart(ps[1..])
  }

  /** What is rebuilt from operands ps and operator nodes spare: ps[0] op (ps[1] op (...)). */
  ghost function PRebuild(ps: seq<PTree>, spare: seq<PNode>, op: NodeType): PTree
    requires |ps| > 0 && |spare| >= |ps| - 1
  {
    if |ps| == 1 then ps[0] else PBin(spare[0], op, ps[0], PRebuild(ps[1..], spare[1..], op))
  }

  ghost function SetOf(ns: seq<PNode>): set<PNode> { set n <- ns }

  ghost predicate Distinct(ns: seq<PNode>) {
    forall i, j :: 0 <= i < j < |ns| ==> ns[i] != ns[j]
  }

  lemma {:induction false} NodesAllocated(p: PTree)
    ensures forall n <- Nodes(p) :: allocated(n)
  {
    match p
    case PAtt(_, _) =>
    case PNsa(_, _) =>
    case PCmp(_, a, _, _) => NodesAllocated(a);
    case PNot(_, a) => NodesAllocated(a);
    case PBin(_, _, l, r) =>
      NodesAllocated(l);
      NodesAllocated(r);
  }

  lemma {:induction false} AllNodesAllocated(ps: seq<PTree>)
    ensures forall n <- AllNodes(ps) :: allocated(n)
  {
    if ps != [] {
      NodesAllocated(ps[0]);
      AllNodesAllocated(ps[1..]);
    }
  }

  // ----- the pieces add up

  lemma {:induction false} AllNodesAppend(a: seq<PTree>, b: seq<PTree>)
    ensures AllNodes(a + b) == AllNodes(a) + AllNodes(b)
  {
    if a == [] {
      assert a + b == b;
    } else {
      AllNodesAppend(a[1..], b);
      assert (a + b)[1..] == a[1..] + b;
    }
  }

  lemma {:induction false} AllLinkedAppend(a: seq<PTree>, b: seq<PTree>)
    ensures AllLinked(a + b) <==> AllLinked(a) && AllLinked(b)
  {
    if a == [] {
      assert a + b == b;
    } else {
      AllLinkedAppend(a[1..], b);
      assert (a + b)[1..] == a[1..] + b;
    }
  }

  lemma {:induction false} ApartAppend(a: seq<PTree>, b: seq<PTree>)
    requires Apart(a) && Apart(b) && AllNodes(a) !! AllNodes(b)
    ensures Apart(a + b)
  {
    hide Nodes, Tidy;
    if a == [] {
      assert a + b == b;
    } else {
      ApartAppend(a[1..], b);
      AllNodesAppend(a[1..], b);
      assert (a + b)[1..] == a[1..] + b;
    }
  }

  /** Taking a tree apart: the operands and the operator nodes are all its nodes, once each. */
  lemma {:induction false} TakenApart(p: PTree, op: NodeType)
    requires Tidy(p)
    ensures var ps, ns := POperands(p, op), PRecycled(p, op);
            && |ps| == |ns| + 1
            && Apart(ps) && Distinct(ns) && SetOf(ns) !! AllNodes(ps)
            && Nodes(p) == SetOf(ns) + AllNodes(ps)
  {
    if p.PBin? && p.op == op {
      TakenApart(p.left, op);
      TakenApart(p.right, op);
      PutTogether(p.node, POperands(p.left, op), POperands(p.right, op), PRecycled(p.left, op), PRecycled(p.right, op));
    } else {
      JustOne(p);
    }
  }

  lemma {:induction false} JustOne(p: PTree)
    requires Tidy(p)
    ensures Apart([p]) && AllNodes([p]) == Nodes(p)
  {
    hide Nodes, Tidy;
    assert [p][1..] == [];
  }

  lemma {:induction false} PutTogether(node: PNode, a: seq<PTree>, b: seq<PTree>, m: seq<PNode>, n: seq<PNode>)
    requires Apart(a) && Apart(b) && AllNodes(a) !! AllNodes(b)
    requires Distinct(m) && Distinct(n) && SetOf(m) !! SetOf(n)
    requires SetOf(m) !! AllNodes(a) && SetOf(m) !! AllNodes(b) && SetOf(n) !! AllNodes(a) && SetOf(n) !! AllNodes(b)
    requires node !in SetOf(m) && node !in SetOf(n) && node !in AllNodes(a) && node !in AllNodes(b)
    ensures Apart(a + b) && Distinct([node] + m + n) && SetOf([node] + m + n) !! AllNodes(a + b)
    ensures SetOf([node] + m + n) == {node} + SetOf(m) + SetOf(n)
    ensures AllNodes(a + b) == AllNodes(a) + AllNodes(b)
  {
    hide AllNodes, Apart, Distinct, SetOf;
    AllNodesAppend(a, b);
    ApartAppend(a, b);
    DistinctAppend(m, n);
    DistinctOne(node);
    DistinctAppend([node], m + n);
    assert [node] + (m + n) == [node] + m + n;
  }

  lemma {:induction false} DistinctOne(n: PNode)
    ensures Distinct([n]) && SetOf([n]) == {n}
  {
  }

  lemma {:induction false} DistinctAppend(m: seq<PNode>, n: seq<PNode>)
    requires Distinct(m) && Distinct(n) && SetOf(m) !! SetOf(n)
    ensures Distinct(m + n) && SetOf(m + n) == SetOf(m) + SetOf(n)
  {
    forall i, j | 0 <= i < j < |m + n|
      ensures (m + n)[i] != (m + n)[j]
    {
      if i < |m| <= j {
        assert m[i] in SetOf(m) && n[j - |m|] in SetOf(n);
      }
    }
  }

  lemma {:induction false} OperandsLinked(p: PTree, op: NodeType)
    requires Linked(p)
    ensures AllLinked(POperands(p, op))
    ensures forall n <- PRecycled(p, op) :: n.kind == op
  {
    if p.PBin? && p.op == op {
      OperandsLinked(p.left, op);
      OperandsLinked(p.right, op);
      AllLinkedAppend(POperands(p.left, op), POperands(p.right, op));
    } else {
      assert AllLinked([p]) == (Linked(p) && AllLinked([]));
    }
  }

  lemma {:induction false} OperandShapes(p: PTree, op: NodeType)
    requires op in {OpAnd, OpOr}
    ensures Shapes(POperands(p, op)) == Operands(Shape(p), op == OpAnd)
  {
    if p.PBin? && p.op == op {
      OperandShapes(p.left, op);
      OperandShapes(p.right, op);
      ShapeOfBin(p.node, op == OpAnd, p.left, p.right);
      hide Shape, Shapes;
      ShapesAppend(POperands(p.left, op), POperands(p.right, op));
    } else {
      OperandItself(p, op);
      assert Shapes([p]) == [Shape(p)];
    }
  }

  lemma {:induction false} OperandItself(p: PTree, op: NodeType)
    requires op in {OpAnd, OpOr} && !(p.PBin? && p.op == op)
    ensures Operands(Shape(p), op == OpAnd) == [Shape(p)]
  {
  }

  /** Selecting keeps what matters, and the two selections divide the operands between them. */
  lemma {:induction false} Selected(ps: seq<PTree>)
    requires Apart(ps)
    ensures var a, b := PSelect(ps, false), PSelect(ps, true);
            && |a| + |b| == |ps| && Apart(a) && Apart(b)
            && AllNodes(a) !! AllNodes(b) && AllNodes(a) + AllNodes(b) == AllNodes(ps)
  {
    hide Nodes, RefsNonStdAtts, Shape, Tidy;
    if ps != [] {
      Selected(ps[1..]);
      ConsNodes(ps[0], PSelect(ps[1..], false));
      ConsNodes(ps[0], PSelect(ps[1..], true));
    }
  }

  lemma {:induction false} ConsNodes(p: PTree, rest: seq<PTree>)
    ensures AllNodes([p] + rest) == Nodes(p) + AllNodes(rest)
    ensures Tidy(p) && Apart(rest) && Nodes(p) !! AllNodes(rest) ==> Apart([p] + rest)
  {
    hide Nodes, Tidy;
    assert ([p] + rest)[1..] == rest;
  }

  lemma {:induction false} SelectedShapes(ps: seq<PTree>, impure: bool)
    ensures Shapes(PSelect(ps, impure)) == Select(Shapes(ps), impure)
  {
    hide Shape, RefsNonStdAtts;
    if ps != [] {
      SelectedShapes(ps[1..], impure);
      assert Shapes(ps)[1..] == Shapes(ps[1..]);
      ConsShapes(ps[0], PSelect(ps[1..], impure));
    } else {
      assert Shapes(ps) == [];
    }
  }

  lemma {:induction false} ConsShapes(p: PTree, rest: seq<PTree>)
    ensures Shapes([p] + rest) == [Shape(p)] + Shapes(rest)
    ensures Roots([p] + rest) == [p.node] + Roots(rest)
  {
    hide Shape;
  }

  lemma {:induction false} SelectedLinked(ps: seq<PTree>, impure: bool)
    requires AllLinked(ps)
    ensures AllLinked(PSelect(ps, impure))
  {
    hide Nodes, RefsNonStdAtts, Shape, Linked;
    if ps != [] {
      SelectedLinked(ps[1..], impure);
      ConsLinked(ps[0], PSelect(ps[1..], impure));
    }
  }

  lemma {:induction false} ConsLinked(p: PTree, rest: seq<PTree>)
    requires Linked(p) && AllLinked(rest)
    ensures AllLinked([p] + rest)
  {
    hide Nodes, Linked;
    assert ([p] + rest)[1..] == rest;
  }

  lemma {:induction false} ShapeOfBin(node: PNode, isAnd: bool, l: PTree, r: PTree)
    ensures Shape(PBin(node, if isAnd then OpAnd else OpOr, l, r)) == Join(isAnd, Shape(l), Shape(r))
    ensures Shape(PBin(node, if isAnd then OpAndLater else OpOrLater, l, r)) == Later(isAnd, Shape(l), Shape(r))
  {
  }

  /** The rebuilt tree means the rebuilt operands. */
  lemma {:induction false} RebuiltMeaning(ps: seq<PTree>, spare: seq<PNode>, op: NodeType)
    requires |ps| > 0 && |spare| >= |ps| - 1 && op in {OpAnd, OpOr}
    ensures Shape(PRebuild(ps, spare, op)) == Rebuild(Shapes(ps), op == OpAnd)
  {
    hide Shape, Join;
    if |ps| > 1 {
      RebuiltMeaning(ps[1..], spare[1..], op);
      assert Shapes(ps)[1..] == Shapes(ps[1..]);
      ShapeOfBin(spare[0], op == OpAnd, ps[0], PRebuild(ps[1..], spare[1..], op));
    }
  }

  lemma {:induction false} RebuiltNodes(ps: seq<PTree>, spare: seq<PNode>, op: NodeType)
    requires |ps| > 0 && |spare| >= |ps| - 1
    ensures Nodes(PRebuild(ps, spare, op)) == AllNodes(ps) + SetOf(spare[..|ps| - 1])
  {
    hide SetOf;
    if |ps| == 1 {
      assert spare[..0] == [];
      assert SetOf([]) == {} by { SetOfNone(); }
    } else {
      RebuiltNodes(ps[1..], spare[1..], op);
      SetOfCons(spare, |ps| - 1);
    }
  }

  lemma {:induction false} SetOfNone()
    ensures SetOf([]) == {}
  {
  }

  lemma {:induction false} SetOfCons(spare: seq<PNode>, n: nat)
    requires 0 < n <= |spare|
    ensures SetOf(spare[..n]) == {spare[0]} + SetOf(spare[1..][..n - 1])
    ensures SetOf(spare) == {spare[0]} + SetOf(spare[1..])
    ensures SetOf(spare[1..][..n - 1]) <= SetOf(spare[1..])
    ensures Distinct(spare) ==> Distinct(spare[1..]) && spare[0] !in SetOf(spare[1..])
  {
    assert spare[..n] == [spare[0]] + spare[1..][..n - 1];
    assert spare == [spare[0]] + spare[1..];
  }

  lemma {:induction false} RebuiltTidy(ps: seq<PTree>, spare: seq<PNode>, op: NodeType)
    requires |ps| > 0 && |spare| >= |ps| - 1
    requires Apart(ps) && Distinct(spare) && SetOf(spare) !! AllNodes(ps)
    ensures Tidy(PRebuild(ps, spare, op))
  {
    if |ps| > 1 {
      hide SetOf, Distinct;
      SetOfCons(spare, |ps| - 1);
      RebuiltTidy(ps[1..], spare[1..], op);
      RebuiltNodes(ps[1..], spare[1..], op);
    }
  }

  /** The rebuilt tree: its meaning, its nodes, and that it is tidy when its parts were. */
  lemma {:induction false} RebuiltShape(ps: seq<PTree>, spare: seq<PNode>, op: NodeType)
    requires |ps| > 0 && |spare| >= |ps| - 1 && op in {OpAnd, OpOr}
    ensures Shape(PRebuild(ps, spare, op)) == Rebuild(Shapes(ps), op == OpAnd)
    ensures Nodes(PRebuild(ps, spare, op)) == AllNodes(ps) + SetOf(spare[..|ps| - 1])
    ensures Apart(ps) && Distinct(spare) && SetOf(spare) !! AllNodes(ps) ==> Tidy(PRebuild(ps, spare, op))
  {
    hide Shape, Nodes, AllNodes, SetOf, Apart, Distinct, Tidy, PRebuild, Rebuild;
    RebuiltMeaning(ps, spare, op);
    RebuiltNodes(ps, spare, op);
    if Apart(ps) && Distinct(spare) && SetOf(spare) !! AllNodes(ps) {
      RebuiltTidy(ps, spare, op);
    }
  }

  // ----- the operations

  class DivInfo {
    const rootOp: NodeType
    var pureList: seq<PNode>
    var impureList: seq<PNode>
    var recycleList: seq<PNode>

    constructor (rootOp: NodeType)
      ensures this.rootOp == rootOp && pureList == impureList == recycleList == []
    {
      this.rootOp, pureList, impureList, recycleList := rootOp, [], [], [];
    }

    /** Appends node's operands to the pure and impure lists, and its operator nodes to the recycle list. */
    method Classify(node: PNode, ghost p: PTree)
      requires Linked(p) && p.node == node && rootOp in {OpAnd, OpOr} && Plain(Shape(p))
      modifies this
      ensures pureList == old(pureList) + Roots(PSelect(POperands(p, rootOp), false))
      ensures impureList == old(impureList) + Roots(PSelect(POperands(p, rootOp), true))
      ensures recycleList == old(recycleList) + PRecycled(p, rootOp)
      decreases p
    {
      hide Linked, Shape, Plain, RefsNonStdAtts, PSelect, POperands, PRecycled, Nodes;
      OperandsOf(node, p, rootOp);
      NodesAllocated(p);
      if node.kind == rootOp {
        NodesAllocated(p.left);
        NodesAllocated(p.right);
        ghost var a, b := POperands(p.left, rootOp), POperands(p.right, rootOp);
        SelectAppend(a, b, false);
        SelectAppend(a, b, true);
        recycleList := recycleList + [node];
        Classify(node.left, p.left);
        Classify(node.right, p.right);
      } else {
        SelectSingle(p);
        if RefsNonStd(node, p) {
          impureList := impureList + [node];
        } else {
          pureList := pureList + [node];
        }
      }
    }

    /** Takes the first node off a list. */
    static method Behead(list: seq<PNode>) returns (first: PNode, rest: seq<PNode>)
      requires list != []
      ensures first == list[0] && rest == list[1..]
    {
      first, rest := list[0], list[1..];
    }

    /** Classifies both subtrees of the root. */
    method ClassifyBoth(root: PNode, ghost p: PTree)
      requires Linked(p) && p.node == root && p.PBin? && p.op == rootOp && rootOp in {OpAnd, OpOr} && Plain(Shape(p))
      requires pureList == impureList == recycleList == []
      modifies this
      ensures pureList == Roots(PSelect(SplitOperands(p), false))
      ensures impureList == Roots(PSelect(SplitOperands(p), true))
      ensures recycleList == SplitRecycled(p)
    {
      hide Linked, Shape, Plain, RefsNonStdAtts, PSelect, POperands, PRecycled, Nodes, Roots;
      RootKind(root, p);
      NodesAllocated(p);
      NodesAllocated(p.left);
      NodesAllocated(p.right);
      SelectAppend(POperands(p.left, rootOp), POperands(p.right, rootOp), true);
      SelectAppend(POperands(p.left, rootOp), POperands(p.right, rootOp), false);
      Classify(root.left, p.left);
      Classify(root.right, p.right);
    }

    function List(impure: bool): seq<PNode>
      reads this
    {
      if impure then impureList else pureList
    }

    /** Takes the first node off one of the two lists. */
    method BeheadList(impure: bool) returns (first: PNode)
      requires List(impure) != []
      modifies `pureList, `impureList
      ensures first == old(List(impure))[0] && List(impure) == old(List(impure))[1..]
      ensures List(!impure) == old(List(!impure))
    {
      if impure {
        first, impureList := Behead(impureList);
      } else {
        first, pureList := Behead(pureList);
      }
    }

    /**
     Links the nodes of a list into one subtree. The list is used up, and of the recycled operator nodes one
     less than the list had nodes.
     */
    method RebuildSubtree(impure: bool, ghost ps: seq<PTree>) returns (node: PNode)
      requires List(impure) == Roots(ps) && ps != [] && AllLinked(ps)
      requires |recycleList| >= |ps| - 1 && Distinct(recycleList) && SetOf(recycleList) !! AllNodes(ps)
      requires rootOp in {OpAnd, OpOr} && forall n <- recycleList :: n.kind == rootOp
      modifies `pureList, `impureList, `recycleList, SetOf(recycleList[..|ps| - 1])
      ensures List(impure) == [] && List(!impure) == old(List(!impure))
      ensures recycleList == old(recycleList)[|ps| - 1..]
      ensures forall n <- old(recycleList) :: n.kind == rootOp
      ensures Linked(PRebuild(ps, old(recycleList), rootOp)) && node == PRebuild(ps, old(recycleList), rootOp).node
      decreases |ps|
    {
      hide Linked, Nodes, PRebuild, AllNodes, Distinct, SetOf;
      AllNodesAllocated(ps);
      NodesAllocated(ps[0]);
      AllNodesAllocated(ps[1..]);
      node := BeheadList(impure);
      if List(impure) == [] {
        RebuildOne(ps, recycleList, rootOp);
        return;
      }
      ghost var spare := recycleList;
      SpareParts(ps, spare);
      var parent;
      parent, recycleList := Behead(recycleList);
      parent.left := node;
      assert List(impure) == Roots(ps[1..]);
      ghost var sub := PRebuild(ps[1..], spare[1..], rootOp);
      var subtree := RebuildSubtree(impure, ps[1..]);
      assert Linked(ps[0]);
      parent.right := subtree;
      assert Linked(sub);
      RebuildMore(ps, spare, rootOp);
      node := parent;
    }
  }

  /** The parts of the operands and spare nodes that one step of the rebuilding deals with. */
  lemma {:induction false} SpareParts(ps: seq<PTree>, spare: seq<PNode>)
    requires |ps| > 1 && |spare| >= |ps| - 1 && Distinct(spare) && SetOf(spare) !! AllNodes(ps)
    requires AllLinked(ps)
    ensures Linked(ps[0]) && AllLinked(ps[1..])
    ensures spare[0] !in Nodes(ps[0]) && spare[0] !in AllNodes(ps[1..]) && spare[0] in SetOf(spare[..|ps| - 1])
    ensures Distinct(spare[1..]) && SetOf(spare[1..]) !! AllNodes(ps[1..])
    ensures spare[0] !in SetOf(spare[1..]) && spare[0] !in SetOf(spare[1..][..|ps| - 2])
    ensures SetOf(spare[1..][..|ps| - 2]) <= SetOf(spare[..|ps| - 1])
    ensures SetOf(spare[1..][..|ps| - 2]) !! Nodes(ps[0])
    ensures forall op | op in {OpAnd, OpOr} ::
              Nodes(PRebuild(ps[1..], spare[1..], op)) == AllNodes(ps[1..]) + SetOf(spare[1..][..|ps| - 2])
    ensures spare[1..][|ps| - 2..] == spare[|ps| - 1..]
  {
    hide Nodes, Linked, SetOf, Distinct, PRebuild;
    SetOfCons(spare, |ps| - 1);
    RebuiltNodes(ps[1..], spare[1..], OpAnd);
    RebuiltNodes(ps[1..], spare[1..], OpOr);
  }

  lemma {:induction false} RebuildOne(ps: seq<PTree>, spare: seq<PNode>, op: NodeType)
    requires |ps| == 1 && AllLinked(ps)
    ensures PRebuild(ps, spare, op) == ps[0] && Linked(ps[0])
  {
    hide Linked, Nodes;
  }

  lemma {:induction false} RebuildMore(ps: seq<PTree>, spare: seq<PNode>, op: NodeType)
    requires |ps| > 1 && |spare| >= |ps| - 1 && op in {OpAnd, OpOr}
    requires Linked(ps[0]) && Linked(PRebuild(ps[1..], spare[1..], op))
    requires spare[0].kind == op && spare[0].left == ps[0].node
    requires spare[0].right == PRebuild(ps[1..], spare[1..], op).node
    ensures Linked(PRebuild(ps, spare, op)) && PRebuild(ps, spare, op).node == spare[0]
  {
    hide Nodes;
  }

  lemma {:induction false} OperandsOf(node: PNode, p: PTree, op: NodeType)
    requires Linked(p) && p.node == node && op in {OpAnd, OpOr} && Plain(Shape(p))
    ensures node.kind == op <==> p.PBin? && p.op == op
    ensures node.kind == op ==>
              && Linked(p.left) && Linked(p.right) && node.left == p.left.node && node.right == p.right.node
              && Plain(Shape(p.left)) && Plain(Shape(p.right))
              && POperands(p, op) == POperands(p.left, op) + POperands(p.right, op)
              && PRecycled(p, op) == [node] + PRecycled(p.left, op) + PRecycled(p.right, op)
    ensures node.kind != op ==> POperands(p, op) == [p] && PRecycled(p, op) == []
  {
    hide Nodes;
  }

  lemma {:induction false} SelectSingle(p: PTree)
    ensures Roots(PSelect([p], true)) == if RefsNonStdAtts(Shape(p)) then [p.node] else []
    ensures Roots(PSelect([p], false)) == if RefsNonStdAtts(Shape(p)) then [] else [p.node]
  {
    hide RefsNonStdAtts, Shape;
    assert [p][1..] == [];
  }

  lemma {:induction false} SelectSplits(a: seq<PTree>, b: seq<PTree>, impure: bool)
    ensures PSelect(a + b, impure) == PSelect(a, impure) + PSelect(b, impure)
  {
    hide RefsNonStdAtts, Shape;
    if a == [] {
      assert a + b == b;
    } else {
      SelectSplits(a[1..], b, impure);
      assert (a + b)[1..] == a[1..] + b && (a + b)[0] == a[0];
    }
  }

  lemma {:induction false} SelectAppend(a: seq<PTree>, b: seq<PTree>, impure: bool)
    ensures PSelect(a + b, impure) == PSelect(a, impure) + PSelect(b, impure)
    ensures Roots(PSelect(a + b, impure)) == Roots(PSelect(a, impure)) + Roots(PSelect(b, impure))
  {
    hide PSelect, Roots;
    SelectSplits(a, b, impure);
    RootsAppend(PSelect(a, impure), PSelect(b, impure));
  }

  lemma {:induction false} RootsAppend(a: seq<PTree>, b: seq<PTree>)
    ensures Roots(a + b) == Roots(a) + Roots(b)
  {
  }

  lemma {:induction false} ShapesAppend(a: seq<PTree>, b: seq<PTree>)
    ensures Shapes(a + b) == Shapes(a) + Shapes(b)
  {
    hide Shape;
  }

  /** Whether the subtree at node refers to any non-standard attribute. */
  function RefsNonStd(node: PNode, ghost p: PTree): (refs: bool)
    requires Linked(p) && p.node == node && Plain(Shape(p))
    reads Nodes(p)
    ensures refs == RefsNonStdAtts(Shape(p))
    decreases p
  {
    if node.kind == NtNsaname then true
    else if node.kind == NtAttname then false
    else if node.kind == OpNot then RefsNonStd(node.left, p.arg)
    else if node.kind == OpAnd || node.kind == OpOr then
      RefsNonStd(node.left, p.left) || RefsNonStd(node.right, p.right)
    else
      NameOf(p);
      node.left.kind == NtNsaname
  }

  lemma {:induction false} NameOf(p: PTree)
    requires Linked(p) && p.node.kind !in {NtNsaname, NtAttname, OpNot, OpAnd, OpOr} && Plain(Shape(p))
    ensures p.PCmp? && p.node.left == p.name.node && p.name.node in Nodes(p)
    ensures p.name.node.kind == NtNsaname <==> RefsNonStdAtts(Shape(p))
  {
    assert p.name.node in Nodes(p.name) && Linked(p.name);
  }

  /** The tree that dividing p leaves, node for node. */
  ghost function PDivide(p: PTree): PTree
    requires Tidy(p)
  {
    if !(p.PBin? && p.op in {OpAnd, OpOr}) then p
    else
      var ops, spare := SplitOperands(p), SplitRecycled(p);
      var pure, impure := PSelect(ops, false), PSelect(ops, true);
      if pure == [] || impure == [] then p
      else
        SplitCounts(p);
        PBin(p.node, if p.op == OpAnd then OpAndLater else OpOrLater,
             PRebuild(pure, spare, p.op), PRebuild(impure, spare[|pure| - 1..], p.op))
  }

  ghost function SplitOperands(p: PTree): seq<PTree>
    requires p.PBin?
  {
    POperands(p.left, p.op) + POperands(p.right, p.op)
  }

  ghost function SplitRecycled(p: PTree): seq<PNode>
    requires p.PBin?
  {
    PRecycled(p.left, p.op) + PRecycled(p.right, p.op)
  }

  /** The recycled operator nodes are exactly as many as both rebuilt sides together need. */
  lemma {:induction false} SplitCounts(p: PTree)
    requires Tidy(p) && p.PBin?
    ensures var ops, spare := SplitOperands(p), SplitRecycled(p);
            && |PSelect(ops, false)| + |PSelect(ops, true)| == |ops| == |spare| + 2
    ensures var ops, spare := SplitOperands(p), SplitRecycled(p);
            && Apart(ops) && Distinct(spare) && SetOf(spare) !! AllNodes(ops)
            && p.node !in SetOf(spare) && p.node !in AllNodes(ops)
            && Nodes(p) == {p.node} + SetOf(spare) + AllNodes(ops)
  {
    TakenApart(p.left, p.op);
    TakenApart(p.right, p.op);
    var a, b := POperands(p.left, p.op), POperands(p.right, p.op);
    hide POperands, PRecycled, Apart, AllNodes, Distinct, SetOf;
    AllNodesAppend(a, b);
    ApartAppend(a, b);
    DistinctAppend(PRecycled(p.left, p.op), PRecycled(p.right, p.op));
    Selected(a + b);
  }

  lemma {:induction false} ListCases(p: PTree)
    requires p.PBin? && p.op in {OpAnd, OpOr}
    ensures var ops := SplitOperands(p);
            var pure, impure := PSelect(ops, false), PSelect(ops, true);
            && Shapes(ops) == Operands(Shape(p.left), p.op == OpAnd) + Operands(Shape(p.right), p.op == OpAnd)
            && Shapes(pure) == Select(Shapes(ops), false)
            && Shapes(impure) == Select(Shapes(ops), true)
  {
    hide PSelect, RefsNonStdAtts, Shape, POperands, Operands, Select, Shapes;
    OperandShapes(p.left, p.op);
    OperandShapes(p.right, p.op);
    ShapesAppend(POperands(p.left, p.op), POperands(p.right, p.op));
    SelectedShapes(SplitOperands(p), false);
    SelectedShapes(SplitOperands(p), true);
  }

  function Later(isAnd: bool, l: Tree, r: Tree): Tree {
    if isAnd then AndLater(l, r) else OrLater(l, r)
  }

  lemma {:induction false} DivideOf(isAnd: bool, l: Tree, r: Tree)
    ensures var ops := Operands(l, isAnd) + Operands(r, isAnd);
            var pure, impure := Select(ops, false), Select(ops, true);
            && (pure == [] || impure == [] ==> Divide(Join(isAnd, l, r)) == Join(isAnd, l, r))
            && (pure != [] && impure != [] ==>
                  Divide(Join(isAnd, l, r)) == Later(isAnd, Rebuild(pure, isAnd), Rebuild(impure, isAnd)))
  {
    hide Operands, Select, Rebuild;
  }

  lemma {:induction false} ShapeNotSplit(p: PTree)
    requires !(p.PBin? && p.op in {OpAnd, OpOr})
    ensures Divide(Shape(p)) == Shape(p)
  {
  }

  /** Node for node, the divided tree is the division of the tree. */
  lemma {:induction false} PDivideShape(p: PTree)
    requires Tidy(p)
    ensures Shape(PDivide(p)) == Divide(Shape(p)) && PDivide(p).node == p.node
  {
    hide PSelect, SplitOperands, SplitRecycled, Select, Operands, Shape, Divide, PRebuild, Rebuild, Tidy, Later, Join;
    if p.PBin? && p.op in {OpAnd, OpOr} {
      var ops, spare, isAnd := SplitOperands(p), SplitRecycled(p), p.op == OpAnd;
      var pure, impure := PSelect(ops, false), PSelect(ops, true);
      ListCases(p);
      SplitCounts(p);
      DivideOf(isAnd, Shape(p.left), Shape(p.right));
      ShapeOfBin(p.node, isAnd, p.left, p.right);
      if pure != [] && impure != [] {
        RebuiltShape(pure, spare, p.op);
        RebuiltShape(impure, spare[|pure| - 1..], p.op);
        ShapeOfBin(p.node, isAnd, PRebuild(pure, spare, p.op), PRebuild(impure, spare[|pure| - 1..], p.op));
      }
    } else {
      ShapeNotSplit(p);
    }
  }

  /** The divided tree is again a tree, over the same nodes. */
  lemma {:induction false} PDivideTidy(p: PTree)
    requires Tidy(p)
    ensures Tidy(PDivide(p)) && Nodes(PDivide(p)) == Nodes(p)
  {
    hide PSelect, SplitOperands, SplitRecycled, PRebuild, SetOf, AllNodes, Distinct, RefsNonStdAtts, Shape;
    if && p.PBin? && p.op in {OpAnd, OpOr}
       && PSelect(SplitOperands(p), false) != [] && PSelect(SplitOperands(p), true) != [] {
      RebuiltSides(p, PSelect(SplitOperands(p), false), PSelect(SplitOperands(p), true), SplitRecycled(p));
    }
  }

  /** The two rebuilt sides: tidy, apart from each other and from the root, and together over all other nodes. */
  lemma {:induction false} RebuiltSides(p: PTree, pure: seq<PTree>, impure: seq<PTree>, spare: seq<PNode>)
    requires Tidy(p) && p.PBin? && p.op in {OpAnd, OpOr}
    requires pure == PSelect(SplitOperands(p), false) != [] && impure == PSelect(SplitOperands(p), true) != []
    requires spare == SplitRecycled(p)
    ensures |pure| + |impure| == |spare| + 2
    ensures var l, r := PRebuild(pure, spare, p.op), PRebuild(impure, spare[|pure| - 1..], p.op);
            && Tidy(l) && Tidy(r) && Nodes(l) !! Nodes(r) && p.node !in Nodes(l) && p.node !in Nodes(r)
            && Nodes(p) == {p.node} + Nodes(l) + Nodes(r)
            && Nodes(l) == AllNodes(pure) + SetOf(spare[..|pure| - 1])
            && Nodes(r) == AllNodes(impure) + SetOf(spare[|pure| - 1..])
    ensures Distinct(spare) && Distinct(spare[|pure| - 1..]) && p.node !in SetOf(spare)
    ensures SetOf(spare) !! AllNodes(pure) && SetOf(spare) !! AllNodes(impure)
    ensures SetOf(spare) == SetOf(spare[..|pure| - 1]) + SetOf(spare[|pure| - 1..])
    ensures SetOf(spare[..|pure| - 1]) !! SetOf(spare[|pure| - 1..])
    ensures spare[|pure| - 1..][..|impure| - 1] == spare[|pure| - 1..]
  {
    hide PSelect, SplitOperands, SplitRecycled, AllNodes, Apart, Nodes, PRebuild, Tidy, SetOf, Distinct;
    SplitCounts(p);
    Selected(SplitOperands(p));
    var n := |pure| - 1;
    SpareSplit(spare, n);
    RebuiltShape(pure, spare, p.op);
    RebuiltShape(impure, spare[n..], p.op);
    assert spare[n..][..|impure| - 1] == spare[n..];
  }

  lemma {:induction false} SpareSplit(spare: seq<PNode>, n: nat)
    requires Distinct(spare) && n <= |spare|
    ensures Distinct(spare[..n]) && Distinct(spare[n..])
    ensures SetOf(spare[..n]) !! SetOf(spare[n..]) && SetOf(spare[..n]) + SetOf(spare[n..]) == SetOf(spare)
  {
    forall x | x in spare[..n]
      ensures x in spare && x !in spare[n..]
    {
    }
    assert forall x :: x in spare <==> x in spare[..n] || x in spare[n..];
  }

  lemma {:induction false} RootKind(root: PNode, p: PTree)
    requires Linked(p) && p.node == root && Plain(Shape(p))
    ensures root.kind in {OpAnd, OpOr} <==> p.PBin? && p.op in {OpAnd, OpOr}
    ensures p.PBin? ==>
              && p.op == root.kind && root.left == p.left.node && root.right == p.right.node
              && Linked(p.left) && Linked(p.right) && Plain(Shape(p.left)) && Plain(Shape(p.right))
  {
    hide Nodes;
  }

  lemma {:induction false} RefsSomewhere(t: Tree, isAnd: bool)
    requires RefsNonStdAtts(t)
    ensures exists o <- Operands(t, isAnd) :: RefsNonStdAtts(o)
  {
    if (isAnd && t.And?) || (!isAnd && t.Or?) {
      var l, r := Operands(t.left, isAnd), Operands(t.right, isAnd);
      if RefsNonStdAtts(t.left) {
        RefsSomewhere(t.left, isAnd);
        var o :| o in l && RefsNonStdAtts(o);
        assert o in l + r;
      } else {
        RefsSomewhere(t.right, isAnd);
        var o :| o in r && RefsNonStdAtts(o);
        assert o in l + r;
      }
    } else {
      assert t in [t];
    }
  }

  /** A tree that refers to a non-standard attribute has an impure operand. */
  lemma {:induction false} ImpureExists(p: PTree)
    requires Tidy(p) && p.PBin? && p.op in {OpAnd, OpOr} && Plain(Shape(p)) && RefsNonStdAtts(Shape(p))
    ensures PSelect(SplitOperands(p), true) != []
  {
    ListCases(p);
    var t, isAnd := Shape(p), p.op == OpAnd;
    RefsSomewhere(t, isAnd);
    var o :| o in Operands(t, isAnd) && RefsNonStdAtts(o);
    assert o in Shapes(SplitOperands(p));
    hide PSelect, SplitOperands;
    assert o in Select(Shapes(SplitOperands(p)), true);
  }

  /** The lists after both subtrees of the root were classified. */
  lemma {:induction false} ListsAtRoot(p: PTree)
    requires p.PBin? && p.op in {OpAnd, OpOr} && Linked(p.left) && Linked(p.right)
    ensures AllLinked(PSelect(SplitOperands(p), false)) && AllLinked(PSelect(SplitOperands(p), true))
    ensures forall n <- SplitRecycled(p) :: n.kind == p.op
  {
    hide PSelect, Roots, POperands, PRecycled, Nodes, Linked;
    OperandsLinked(p.left, p.op);
    OperandsLinked(p.right, p.op);
    AllLinkedAppend(POperands(p.left, p.op), POperands(p.right, p.op));
    SelectedLinked(SplitOperands(p), false);
    SelectedLinked(SplitOperands(p), true);
  }

  /** The last links: the root, now a later-operator, over the two rebuilt sides. */
  lemma {:induction false} LinkRoot(p: PTree, pure: seq<PTree>, impure: seq<PTree>, spare: seq<PNode>)
    requires Tidy(p) && p.PBin? && p.op in {OpAnd, OpOr}
    requires pure == PSelect(SplitOperands(p), false) != [] && impure == PSelect(SplitOperands(p), true) != []
    requires spare == SplitRecycled(p) && |pure| + |impure| == |spare| + 2
    requires p.node.kind == if p.op == OpAnd then OpAndLater else OpOrLater
    requires Linked(PRebuild(pure, spare, p.op)) && Linked(PRebuild(impure, spare[|pure| - 1..], p.op))
    requires p.node.left == PRebuild(pure, spare, p.op).node
    requires p.node.right == PRebuild(impure, spare[|pure| - 1..], p.op).node
    ensures Linked(PDivide(p)) && PDivide(p).node == p.node
  {
    hide Nodes, PSelect, SplitOperands, SplitRecycled, PRebuild, Tidy;
  }

  /**
   Rewrites the tree at root in place into its divided form. Every recycled node is used again: at the end all
   three lists are empty.
   */
  method DivideTree(root: PNode, ghost p: PTree)
    requires Linked(p) && Tidy(p) && p.node == root && Plain(Shape(p)) && RefsNonStdAtts(Shape(p))
    modifies Nodes(p)
    ensures Linked(PDivide(p)) && PDivide(p).node == root
  {
    hide Shape, Plain, RefsNonStdAtts, POperands, PRecycled, PSelect, AllNodes, Distinct, SetOf, PRebuild, Apart, Roots,
         Nodes, Linked, Tidy, SplitOperands, SplitRecycled, AllLinked;
    RootKind(root, p);
    if root.kind != OpAnd && root.kind != OpOr {
      return;
    }
    var rootOp := root.kind;
    NodesAllocated(p);
    var di := new DivInfo(rootOp);
    di.ClassifyBoth(root, p);
    assert Linked(p);
    RootKind(root, p);
    ghost var spare := SplitRecycled(p);
    ghost var pure, impure := PSelect(SplitOperands(p), false), PSelect(SplitOperands(p), true);
    ListsAtRoot(p);
    ImpureExists(p);
    assert di.impureList != [];
    if di.pureList == [] {
      return;
    }
    RebuiltSides(p, pure, impure, spare);
    AllNodesAllocated(impure);
    NodesAllocated(PRebuild(pure, spare, rootOp));
    var left := di.RebuildSubtree(false, pure);
    root.left := left;
    assert AllLinked(impure);
    var right := di.RebuildSubtree(true, impure);
    root.right := right;
    assert di.pureList == [];
    assert di.impureList == [];
    assert di.recycleList == [];
    root.kind := if rootOp == OpAnd then OpAndLater else OpOrLater;
    LinkRoot(p, pure, impure, spare);
  }

  // ----- predictions

  /** What the query at node evaluates to without the attribute (or without any), as far as it is certain. */
  function SimulateNode(node: PNode, ghost p: PTree, nsa: Option<nat>): (f: Fuzzy)
    requires Linked(p) && p.node == node
    reads Nodes(p)
    ensures f == SimulateMissingNsa(Shape(p), nsa)
    decreases p
  {
    hide FuzzyNot, FuzzyAnd, FuzzyOr, Linked;
    LinkedKinds(p);
    if node.kind == NtAttname then (if node.isData then FUZZY_MAYBE else FUZZY_TRUE)
    else if node.kind == NtNsaname then (if nsa.None? || node.nsa == nsa.value then FUZZY_FALSE else FUZZY_MAYBE)
    else if node.kind == OpNot then
      FuzzyNot(SimulateNode(node.left, p.arg, nsa))
    else if node.kind == OpAnd || node.kind == OpAndLater then
      FuzzyAnd(SimulateNode(node.left, p.left, nsa), SimulateNode(node.right, p.right, nsa))
    else if node.kind == OpOr || node.kind == OpOrLater then
      FuzzyOr(SimulateNode(node.left, p.left, nsa), SimulateNode(node.right, p.right, nsa))
    else
      ComparedName(p);
      if node.left.kind == NtNsaname && (nsa.None? || node.left.nsa == nsa.value) then FUZZY_FALSE else FUZZY_MAYBE
  }

  lemma {:induction false} LinkedKinds(p: PTree)
    requires Linked(p)
    ensures p.PAtt? ==> p.node.kind == NtAttname && p.node.isData == p.isData
    ensures p.PNsa? ==> p.node.kind == NtNsaname && p.node.nsa == p.nsa
    ensures p.PCmp? ==> p.node.kind == OpCompare
    ensures p.PNot? ==> p.node.kind == OpNot && p.node.left == p.arg.node && Linked(p.arg)
    ensures p.PBin? ==>
              && p.op in {OpAnd, OpOr, OpAndLater, OpOrLater} && p.node.kind == p.op
              && p.node.left == p.left.node && p.node.right == p.right.node && Linked(p.left) && Linked(p.right)
  {
  }

  lemma {:induction false} ComparedName(p: PTree)
    requires Linked(p) && p.node.kind !in {NtNsaname, NtAttname, OpNot, OpAnd, OpOr, OpAndLater, OpOrLater}
    ensures p.PCmp? && p.node.left == p.name.node && p.name.node in Nodes(p) && Linked(p.name) && p.node.cmp == p.cmp
    ensures p.name.node.kind == NtNsaname <==> p.name.PNsa?
    ensures p.name.PNsa? ==> p.name.nsa == p.name.node.nsa
  {
    assert p.name.node in Nodes(p.name) && Linked(p.name);
  }

  /** The non-standard attributes of one query. */
  class NonStdAtts {
    var atts: seq<NonStdAtt>
    var resultIfAllMissing: Fuzzy

    constructor (atts: seq<NonStdAtt>)
      ensures this.atts == atts
    {
      this.atts, resultIfAllMissing := atts, FUZZY_MAYBE;
    }

    /** Sets the predictions for the tree at root. */
    method Annotate(root: PNode, ghost p: PTree)
      requires Linked(p) && p.node == root
      modifies this
      ensures |atts| == |old(atts)| && Annotated(Shape(p), atts, resultIfAllMissing)
      ensures forall i :: 0 <= i < |atts| ==> atts[i] == old(atts)[i].(resultIfMissing := atts[i].resultIfMissing)
    {
      hide SimulateMissingNsa, Linked, Shape;
      NodesAllocated(p);
      var i := 0;
      while i < |atts|
        invariant 0 <= i <= |atts| == |old(atts)|
        invariant forall j :: 0 <= j < i ==> atts[j].resultIfMissing == SimulateMissingNsa(Shape(p), Some(j))
        invariant forall j :: 0 <= j < |atts| ==> atts[j] == old(atts)[j].(resultIfMissing := atts[j].resultIfMissing)
      {
        assert Linked(p);
        atts := atts[i := atts[i].(resultIfMissing := SimulateNode(root, p, Some(i)))];
        i := i + 1;
      }
      resultIfAllMissing := SimulateNode(root, p, None);
    }
  }

  /** Both optimisations: the tree is divided in place, and the attributes are annotated for the divided tree. */
  method OptimizeTree(root: PNode, ghost p: PTree, nsAtts: NonStdAtts) returns (ghost p': PTree)
    requires Linked(p) && Tidy(p) && p.node == root && Plain(Shape(p)) && RefsNonStdAtts(Shape(p))
    modifies Nodes(p), nsAtts
    ensures Linked(p') && Tidy(p') && p'.node == root && Nodes(p') == Nodes(p)
    ensures Shape(p') == Divide(Shape(p))
    ensures |nsAtts.atts| == |old(nsAtts.atts)| && Annotated(Shape(p'), nsAtts.atts, nsAtts.resultIfAllMissing)
    ensures forall i :: 0 <= i < |nsAtts.atts| ==>
              nsAtts.atts[i] == old(nsAtts.atts)[i].(resultIfMissing := nsAtts.atts[i].resultIfMissing)
  {
    hide Linked, Shape, Tidy, Plain, RefsNonStdAtts, PDivide, SimulateMissingNsa, Divide;
    DivideTree(root, p);
    p' := PDivide(p);
    PDivideTidy(p);
    PDivideShape(p);
    NodesAllocated(p);
    nsAtts.Annotate(root, p');
    assert Linked(p');
  }
}
