/**
 Evaluating a query that refers to non-standard attributes: the cheap part first, then the predictions, and
 only then the populated template.
 */
module QueryEvaluator {
  import opened Options
  import opened QueryTree
  import opened QueryOptimizer

  /**
   What a template has to say about one attribute: found tells whether the unpopulated template (or, for a
   struct member, its master) offers it; inClone whether the populated clone does; value what it then holds.
   */
  datatype TmplAtt = TmplAtt(found: bool, isNumeric: bool, inClone: bool, value: Option<Value>)

  type Template = seq<TmplAtt>

  /** An entry of the attribute pointer array. */
  datatype AttRef = Null | InMaster(att: nat) | InClone(att: nat)

  /** A numeric comparison needs a numeric attribute. */
  predicate Useful(a: TmplAtt, nsa: NonStdAtt) {
    a.found && (nsa.numeric ==> a.isNumeric)
  }

  /** The value the query sees: invalid attributes, and struct members the populated clone lacks, are missing. */
  function Seen(a: TmplAtt, nsa: NonStdAtt): Option<Value> {
    if !Useful(a, nsa) || (nsa.structRef && !a.inClone) then None else a.value
  }

  /** The attributes of a record, invalid ones being missing. */
  function TableOf(tmpl: Option<Template>, atts: seq<NonStdAtt>): (t: Table)
    requires tmpl.Some? ==> |tmpl.value| == |atts|
    ensures |t| == |atts|
    ensures forall i :: 0 <= i < |atts| ==> t[i] == if tmpl.None? then None else Seen(tmpl.value[i], atts[i])
  {
    seq(|atts|, i requires 0 <= i < |atts| => if tmpl.None? then None else Seen(tmpl.value[i], atts[i]))
  }

  /** What the pointers give during evaluation. A pointer into the master template leads to no value. */
  function Deref(refs: seq<AttRef>, tmpl: Template): (t: Table)
    requires forall i :: 0 <= i < |refs| ==> refs[i].Null? || refs[i].att < |tmpl|
    ensures |t| == |refs|
    ensures forall i :: 0 <= i < |refs| ==> t[i] == if refs[i].InClone? then tmpl[refs[i].att].value else None
  {
    seq(|refs|, i requires 0 <= i < |refs| => if refs[i].InClone? then tmpl[refs[i].att].value else None)
  }

  /** The pointer the screening stores for attribute i. */
  function Screened(a: TmplAtt, nsa: NonStdAtt, i: nat): AttRef {
    if !Useful(a, nsa) then Null else if nsa.structRef then InMaster(i) else InClone(i)
  }

  predicate AnyStructRef(atts: seq<NonStdAtt>, n: nat)
    requires n <= |atts|
  {
    exists i :: 0 <= i < n && atts[i].structRef
  }

  predicate AnyUseful(tmpl: Template, atts: seq<NonStdAtt>, n: nat)
    requires n <= |atts| == |tmpl|
  {
    exists i :: 0 <= i < n && Useful(tmpl[i], atts[i])
  }

  predicate AnyUseless(tmpl: Template, atts: seq<NonStdAtt>, n: nat)
    requires n <= |atts| == |tmpl|
  {
    exists i :: 0 <= i < n && !Useful(tmpl[i], atts[i])
  }

  lemma {:induction false} AnyAmongNone(tmpl: Template, atts: seq<NonStdAtt>)
    requires |atts| == |tmpl|
    ensures !AnyStructRef(atts, 0) && !AnyUseful(tmpl, atts, 0) && !AnyUseless(tmpl, atts, 0)
  {
  }

  lemma {:induction false} AnyAmongNext(tmpl: Template, atts: seq<NonStdAtt>, n: nat)
    requires n < |atts| == |tmpl|
    ensures AnyStructRef(atts, n + 1) <==> AnyStructRef(atts, n) || atts[n].structRef
    ensures AnyUseful(tmpl, atts, n + 1) <==> AnyUseful(tmpl, atts, n) || Useful(tmpl[n], atts[n])
    ensures AnyUseless(tmpl, atts, n + 1) <==> AnyUseless(tmpl, atts, n) || !Useful(tmpl[n], atts[n])
  {
  }

  class EvalContext {
    const rec: Record
    const nsAtts: seq<NonStdAtt>
    const resultIfAllMissing: Fuzzy
    /** What looking up the record's template yields. */
    const lookup: Option<Template>
    var tmpl: Option<Template>
    var tmplAtts: array?<AttRef>
    var anyValidAtts: bool
    var anyStrRefs: bool

    constructor (rec: Record, nsAtts: seq<NonStdAtt>, resultIfAllMissing: Fuzzy, lookup: Option<Template>)
      requires lookup.Some? ==> |lookup.value| == |nsAtts|
      ensures this.rec == rec && this.nsAtts == nsAtts && this.resultIfAllMissing == resultIfAllMissing
      ensures this.lookup == lookup && tmpl == None && tmplAtts == null && !anyValidAtts && !anyStrRefs
    {
      this.rec, this.nsAtts, this.resultIfAllMissing, this.lookup := rec, nsAtts, resultIfAllMissing, lookup;
      tmpl, tmplAtts, anyValidAtts, anyStrRefs := None, null, false, false;
    }

    /** The table the evaluation of the tree would see. */
    ghost function Visible(): (t: Table)
      requires tmplAtts != null ==> tmplAtts.Length == |nsAtts| && tmpl.Some?
      requires tmplAtts != null ==>
                 forall i :: 0 <= i < tmplAtts.Length ==> tmplAtts[i].Null? || tmplAtts[i].att < |tmpl.value|
      reads this, tmplAtts
      ensures |t| == |nsAtts|
    {
      if tmplAtts == null then NoAtts(|nsAtts|) else Deref(tmplAtts[..], tmpl.value)
    }

    /** Stores the pointers to the useful attributes; returns whether there are others. */
    method StoreUsefulAtts() returns (foundInvalidAtt: bool)
      requires tmpl.Some? && |tmpl.value| == |nsAtts| && tmplAtts != null && tmplAtts.Length == |nsAtts|
      requires !anyValidAtts && !anyStrRefs
      modifies this`anyValidAtts, this`anyStrRefs, tmplAtts
      ensures forall i :: 0 <= i < |nsAtts| ==> tmplAtts[i] == Screened(tmpl.value[i], nsAtts[i], i)
      ensures anyStrRefs <==> AnyStructRef(nsAtts, |nsAtts|)
      ensures anyValidAtts <==> AnyUseful(tmpl.value, nsAtts, |nsAtts|)
      ensures foundInvalidAtt <==> AnyUseless(tmpl.value, nsAtts, |nsAtts|)
    {
      hide AnyStructRef, AnyUseful, AnyUseless;
      foundInvalidAtt := false;
      AnyAmongNone(tmpl.value, nsAtts);
      var nsi := 0;
      while nsi < |nsAtts|
        invariant 0 <= nsi <= |nsAtts|
        invariant forall i :: 0 <= i < nsi ==> tmplAtts[i] == Screened(tmpl.value[i], nsAtts[i], i)
        invariant anyStrRefs <==> AnyStructRef(nsAtts, nsi)
        invariant anyValidAtts <==> AnyUseful(tmpl.value, nsAtts, nsi)
        invariant foundInvalidAtt <==> AnyUseless(tmpl.value, nsAtts, nsi)
      {
        AnyAmongNext(tmpl.value, nsAtts, nsi);
        var nsa := nsAtts[nsi];
        if nsa.structRef {
          anyStrRefs := true;
        }
        var att := tmpl.value[nsi];
        if att.found {
          if nsa.numeric && !att.isNumeric {
            tmplAtts[nsi] := Null;
            foundInvalidAtt := true;
          } else {
            tmplAtts[nsi] := if nsa.structRef then InMaster(nsi) else InClone(nsi);
            anyValidAtts := true;
          }
        } else {
          tmplAtts[nsi] := Null;
          foundInvalidAtt := true;
        }
        nsi := nsi + 1;
      }
    }

    /** The first prediction of query tree t from an attribute that is not useful, or maybe. */
    method Predict(ghost t: Tree) returns (fb: Fuzzy)
      requires tmpl.Some? && |tmpl.value| == |nsAtts| && tmplAtts != null && tmplAtts.Length == |nsAtts|
      requires forall i :: 0 <= i < |nsAtts| ==> tmplAtts[i] == Screened(tmpl.value[i], nsAtts[i], i)
      requires Divided(t) && Within(t, |nsAtts|) && Annotated(t, nsAtts, resultIfAllMissing)
      ensures fb in {FUZZY_FALSE, FUZZY_MAYBE, FUZZY_TRUE}
      ensures Agrees(fb, Meaning(t, rec, TableOf(tmpl, nsAtts)))
    {
      hide Meaning, Agrees, SimulateMissingNsa, Within, Divided;
      ghost var table := TableOf(tmpl, nsAtts);
      var nsi := 0;
      while nsi < |nsAtts|
        modifies {}
        invariant 0 <= nsi <= |nsAtts|
      {
        if tmplAtts[nsi] == Null {
          PredictionSound(t, Some(nsi), rec, table);
          fb := nsAtts[nsi].resultIfMissing;
          if fb != FUZZY_MAYBE {
            return;
          }
        }
        nsi := nsi + 1;
      }
      MaybeAgrees(Meaning(t, rec, table));
      return FUZZY_MAYBE;
    }

    /**
     Stores the pointers to the useful attributes, and predicts the result of query tree t from those that
     are not.
     */
    method ScreenUnpopulatedTemplate(ghost t: Tree) returns (fb: Fuzzy)
      requires tmpl.Some? && |tmpl.value| == |nsAtts| && tmplAtts != null && tmplAtts.Length == |nsAtts|
      requires !anyValidAtts && !anyStrRefs
      requires Divided(t) && Within(t, |nsAtts|) && Annotated(t, nsAtts, resultIfAllMissing)
      modifies this`anyValidAtts, this`anyStrRefs, tmplAtts
      ensures forall i :: 0 <= i < |nsAtts| ==> tmplAtts[i] == Screened(tmpl.value[i], nsAtts[i], i)
      ensures anyStrRefs <==> AnyStructRef(nsAtts, |nsAtts|)
      ensures anyValidAtts <==> AnyUseful(tmpl.value, nsAtts, |nsAtts|)
      ensures fb in {FUZZY_FALSE, FUZZY_MAYBE, FUZZY_TRUE}
      ensures Agrees(fb, Meaning(t, rec, TableOf(tmpl, nsAtts)))
    {
      hide Meaning, Agrees, SimulateMissingNsa, Within, Divided;
      var foundInvalidAtt := StoreUsefulAtts();
      ghost var table := TableOf(tmpl, nsAtts);
      if !anyValidAtts {
        PredictionSound(t, None, rec, table);
        return resultIfAllMissing;
      }
      if !foundInvalidAtt {
        MaybeAgrees(Meaning(t, rec, table));
        return FUZZY_MAYBE;
      }
      fb := Predict(t);
    }

    /** Replaces the pointers into the master template by ones into the populated clone, where it has the member. */
    method FixStructRefs()
      requires tmpl.Some? && |tmpl.value| == |nsAtts| && tmplAtts != null && tmplAtts.Length == |nsAtts|
      requires forall i :: 0 <= i < |nsAtts| ==> tmplAtts[i] == Screened(tmpl.value[i], nsAtts[i], i)
      modifies tmplAtts
      ensures forall i :: 0 <= i < |nsAtts| ==>
                tmplAtts[i] == if !Useful(tmpl.value[i], nsAtts[i]) || (nsAtts[i].structRef && !tmpl.value[i].inClone)
                               then Null else InClone(i)
    {
      var nsi := 0;
      while nsi < |nsAtts|
        invariant 0 <= nsi <= |nsAtts|
        invariant forall i :: 0 <= i < nsi ==>
                    tmplAtts[i] == if !Useful(tmpl.value[i], nsAtts[i])
                                      || (nsAtts[i].structRef && !tmpl.value[i].inClone)
                                   then Null else InClone(i)
        invariant forall i :: nsi <= i < |nsAtts| ==> tmplAtts[i] == Screened(tmpl.value[i], nsAtts[i], i)
      {
        if tmplAtts[nsi] != Null && nsAtts[nsi].structRef {
          if tmpl.value[nsi].inClone {
            tmplAtts[nsi] := InClone(nsi);
          } else {
            tmplAtts[nsi] := Null;
          }
        }
        nsi := nsi + 1;
      }
    }

    /**
     Loads and, if need be, populates the template. A result other than maybe is the query's; otherwise the
     evaluation will see the record's attributes, invalid ones being missing.
     */
    method PrepareNonStdAtts(ghost t: Tree) returns (fb: Fuzzy)
      requires lookup.Some? ==> |lookup.value| == |nsAtts|
      requires tmpl == None && tmplAtts == null && !anyValidAtts && !anyStrRefs
      requires Divided(t) && Within(t, |nsAtts|) && Annotated(t, nsAtts, resultIfAllMissing)
      modifies this`tmpl, this`tmplAtts, this`anyValidAtts, this`anyStrRefs
      ensures fb in {FUZZY_FALSE, FUZZY_MAYBE, FUZZY_TRUE}
      ensures Agrees(fb, Meaning(t, rec, TableOf(lookup, nsAtts)))
      ensures tmplAtts != null ==> tmplAtts.Length == |nsAtts| && tmpl.Some?
      ensures tmplAtts != null ==>
                forall i :: 0 <= i < tmplAtts.Length ==> tmplAtts[i].Null? || tmplAtts[i].att < |tmpl.value|
      ensures fb == FUZZY_MAYBE ==> Visible() == TableOf(lookup, nsAtts)
    {
      hide Meaning, Agrees, SimulateMissingNsa, Within, Divided;
      if lookup.None? {
        PredictionSound(t, None, rec, TableOf(lookup, nsAtts));
        assert NoAtts(|nsAtts|) == TableOf(lookup, nsAtts);
        return resultIfAllMissing;
      }
      tmpl := lookup;
      tmplAtts := new AttRef[|nsAtts|](_ => Null);
      fb := ScreenUnpopulatedTemplate(t);
      if !anyValidAtts || fb != FUZZY_MAYBE {
        assert Deref(tmplAtts[..], tmpl.value) == TableOf(lookup, nsAtts) || anyValidAtts;
        return;
      }
      // The template is populated here: its attributes now have their values.
      if anyStrRefs {
        FixStructRefs();
      }
      assert Deref(tmplAtts[..], tmpl.value) == TableOf(lookup, nsAtts);
      return FUZZY_MAYBE;
    }
  }

  lemma {:induction false} MaybeAgrees(b: bool)
    ensures Agrees(FUZZY_MAYBE, b)
  {
  }

  /** Evaluates the tree of nodes at node, which the later-operators never stand in. */
  function EvaluateNode(node: PNode, ghost p: PTree, rec: Record, table: Table): (b: bool)
    requires Linked(p) && p.node == node && Plain(Shape(p)) && Within(Shape(p), |table|)
    reads Nodes(p)
    ensures b == EvaluateTree(Shape(p), rec, table)
    decreases p
  {
    hide Linked;
    LinkedKinds(p);
    if node.kind == NtAttname then (node.isData ==> rec.hasData)
    else if node.kind == NtNsaname then table[node.nsa].Some?
    else if node.kind == OpNot then !EvaluateNode(node.left, p.arg, rec, table)
    else if node.kind == OpAnd then
      EvaluateNode(node.left, p.left, rec, table) && EvaluateNode(node.right, p.right, rec, table)
    else if node.kind == OpOr then
      EvaluateNode(node.left, p.left, rec, table) || EvaluateNode(node.right, p.right, rec, table)
    else
      LaterIsNotPlain(p);
      ComparedName(p);
      if node.left.kind == NtNsaname then
        table[node.left.nsa].Some? && rec.nsa(node.cmp, table[node.left.nsa].value)
      else rec.std(node.cmp)
  }

  lemma {:induction false} LaterIsNotPlain(p: PTree)
    requires Linked(p) && Plain(Shape(p))
    ensures p.node.kind !in {OpAndLater, OpOrLater}
  {
    hide Linked;
    LinkedKinds(p);
  }

  /** A divided tree of nodes has a later-operator at its root exactly when its shape has, over the same sides. */
  lemma {:induction false} LaterRoot(p: PTree)
    requires Linked(p)
    ensures p.node.kind == OpAndLater <==> Shape(p).AndLater?
    ensures p.node.kind == OpOrLater <==> Shape(p).OrLater?
    ensures p.node.kind in {OpAndLater, OpOrLater} ==>
              && p.PBin? && p.node.left == p.left.node && p.node.right == p.right.node
              && Linked(p.left) && Linked(p.right)
              && Shape(p).left == Shape(p.left) && Shape(p).right == Shape(p.right)
  {
    hide Linked;
    LinkedKinds(p);
  }

  /**
   Evaluates the left part of a divided tree. The result is the query's unless it is maybe; leftResult is -1
   when there is no left part.
   */
  method EvaluateLeft(root: PNode, ghost p: PTree, rec: Record, n: nat) returns (fb: Fuzzy, leftResult: int)
    requires Linked(p) && p.node == root && Divided(Shape(p)) && Within(Shape(p), n)
    ensures fb in {FUZZY_FALSE, FUZZY_MAYBE, FUZZY_TRUE}
    ensures leftResult == if !Shape(p).AndLater? && !Shape(p).OrLater? then -1
                          else if EvaluateTree(Shape(p).left, rec, NoAtts(n)) then 1 else 0
    ensures fb == if leftResult == 0 && Shape(p).AndLater? then FUZZY_FALSE
                  else if leftResult == 1 && Shape(p).OrLater? then FUZZY_TRUE else FUZZY_MAYBE
  {
    hide Linked, Shape, EvaluateTree;
    LaterRoot(p);
    match root.kind
    case OpAndLater =>
      leftResult := if EvaluateNode(root.left, p.left, rec, NoAtts(n)) then 1 else 0;
      fb := if leftResult == 1 then FUZZY_MAYBE else FUZZY_FALSE;
    case OpOrLater =>
      leftResult := if EvaluateNode(root.left, p.left, rec, NoAtts(n)) then 1 else 0;
      fb := if leftResult == 1 then FUZZY_TRUE else FUZZY_MAYBE;
    case _ =>
      return FUZZY_MAYBE, -1;
  }

  /**
   Evaluates an optimised query lazily. The result is what the tree means on the record's attributes, invalid
   ones being missing, whether or not the template was loaded or populated on the way.
   */
  method EvaluateNsaTree(root: PNode, ghost p: PTree, nsAtts: seq<NonStdAtt>, resultIfAllMissing: Fuzzy, rec: Record,
                         lookup: Option<Template>) returns (result: bool)
    requires Linked(p) && p.node == root
    requires lookup.Some? ==> |lookup.value| == |nsAtts|
    requires Divided(Shape(p)) && Within(Shape(p), |nsAtts|) && Annotated(Shape(p), nsAtts, resultIfAllMissing)
    requires Shape(p).AndLater? || Shape(p).OrLater? ==> !RefsNonStdAtts(Shape(p).left)
    ensures result == Meaning(Shape(p), rec, TableOf(lookup, nsAtts))
  {
    hide SimulateMissingNsa, Annotated, Linked, Shape, EvaluateTree, Nodes;
    ghost var t, table := Shape(p), TableOf(lookup, nsAtts);
    NodesAllocated(p);
    var fb, leftResult := EvaluateLeft(root, p, rec, |nsAtts|);
    assert Linked(p);
    LaterRoot(p);
    if t.AndLater? || t.OrLater? {
      PureIgnoresAtts(t.left, rec, NoAtts(|nsAtts|), table);
    }
    var evalRoot := root;
    ghost var q := p;
    if fb != FUZZY_MAYBE {
      return fb == FUZZY_TRUE;
    } else if leftResult != -1 {
      evalRoot := root.right;
      q := p.right;
    }
    assert Linked(q) && q.node == evalRoot && Plain(Shape(q)) && Within(Shape(q), |nsAtts|);
    NodesAllocated(q);
    var ec := new EvalContext(rec, nsAtts, resultIfAllMissing, lookup);
    fb := ec.PrepareNonStdAtts(t);
    if fb != FUZZY_MAYBE {
      return fb == FUZZY_TRUE;
    }
    assert Linked(q);
    if ec.tmplAtts == null {
      return EvaluateNode(evalRoot, q, rec, NoAtts(|nsAtts|));
    }
    return EvaluateNode(evalRoot, q, rec, Deref(ec.tmplAtts[..], ec.tmpl.value));
  }

  /**
   The whole way: optimising the query in place and evaluating the rewritten nodes lazily gives what plain
   evaluation gives on the original query, for every record and template.
   */
  method OptimizeAndEvaluate(root: PNode, ghost p: PTree, nsAtts: NonStdAtts, rec: Record, lookup: Option<Template>)
    returns (result: bool)
    requires Linked(p) && Tidy(p) && p.node == root && Plain(Shape(p)) && RefsNonStdAtts(Shape(p))
    requires Within(Shape(p), |nsAtts.atts|)
    requires lookup.Some? ==> |lookup.value| == |nsAtts.atts|
    modifies Nodes(p), nsAtts
    ensures result == EvaluateTree(Shape(p), rec, TableOf(lookup, old(nsAtts.atts)))
  {
    hide Linked, Shape, Tidy, Nodes, Divide, SimulateMissingNsa, EvaluateTree, Meaning, Within, Plain, RefsNonStdAtts;
    ghost var table := TableOf(lookup, nsAtts.atts);
    DividePreservesMeaning(Shape(p), rec, table);
    ghost var p' := OptimizeTree(root, p, nsAtts);
    assert TableOf(lookup, nsAtts.atts) == table;
    result := EvaluateNsaTree(root, p', nsAtts.atts, nsAtts.resultIfAllMissing, rec, lookup);
  }
}
