/**
 Normalised query trees: what they mean, how a tree is divided into a cheap and a costly part, and what can
 be said about a query when attributes are missing.
 */
module QueryTree {
  import opened Options

  /** The value of a non-standard attribute, as far as comparisons see it. */
  type Value = int

  /**
   AndLater and OrLater stand only at the root, and only once the tree has been divided. Standard comparisons
   and the right-hand sides of comparisons with non-standard attributes are known by number.
   */
  datatype Tree =
    | StdAtt(isData: bool)
    | NsaName(att: nat)
    | StdCmp(cmp: nat)
    | NsaCmp(att: nat, cmp: nat)
    | Not(arg: Tree)
    | And(left: Tree, right: Tree)
    | Or(left: Tree, right: Tree)
    | AndLater(left: Tree, right: Tree)
    | OrLater(left: Tree, right: Tree)

  predicate Plain(t: Tree) {
    match t
    case Not(a) => Plain(a)
    case And(l, r) => Plain(l) && Plain(r)
    case Or(l, r) => Plain(l) && Plain(r)
    case AndLater(_, _) => false
    case OrLater(_, _) => false
    case _ => true
  }

  /** Every attribute the tree names has an entry in a table of n. */
  predicate Within(t: Tree, n: nat) {
    match t
    case NsaName(a) => a < n
    case NsaCmp(a, _) => a < n
    case Not(a) => Within(a, n)
    case And(l, r) => Within(l, n) && Within(r, n)
    case Or(l, r) => Within(l, n) && Within(r, n)
    case AndLater(l, r) => Within(l, n) && Within(r, n)
    case OrLater(l, r) => Within(l, n) && Within(r, n)
    case _ => true
  }

  /** One record: whether it has data, and what each comparison yields. */
  datatype Record = Record(hasData: bool, std: nat -> bool, nsa: (nat, Value) -> bool)

  type Table = seq<Option<Value>>

  /** The table of a record without any non-standard attribute. */
  function NoAtts(n: nat): (t: Table)
    ensures |t| == n && forall i :: 0 <= i < n ==> t[i] == None
  {
    seq(n, i => None)
  }

  function EvaluateTree(t: Tree, rec: Record, table: Table): bool
    requires Plain(t) && Within(t, |table|)
  {
    match t
    case StdAtt(isData) => isData ==> rec.hasData
    case NsaName(a) => table[a].Some?
    case StdCmp(c) => rec.std(c)
    case NsaCmp(a, c) => table[a].Some? && rec.nsa(c, table[a].value)
    case Not(a) => !EvaluateTree(a, rec, table)
    case And(l, r) => EvaluateTree(l, rec, table) && EvaluateTree(r, rec, table)
    case Or(l, r) => EvaluateTree(l, rec, table) || EvaluateTree(r, rec, table)
  }

  /** A tree as the optimiser leaves it: plain, or divided at the root. */
  predicate Divided(t: Tree) {
    match t
    case AndLater(l, r) => Plain(l) && Plain(r)
    case OrLater(l, r) => Plain(l) && Plain(r)
    case _ => Plain(t)
  }

  /** What a tree means, a later-and being an and, and a later-or an or. */
  function Meaning(t: Tree, rec: Record, table: Table): bool
    requires Divided(t) && Within(t, |table|)
  {
    match t
    case AndLater(l, r) => EvaluateTree(l, rec, table) && EvaluateTree(r, rec, table)
    case OrLater(l, r) => EvaluateTree(l, rec, table) || EvaluateTree(r, rec, table)
    case _ => EvaluateTree(t, rec, table)
  }

  predicate RefsNonStdAtts(t: Tree) {
    match t
    case NsaName(_) => true
    case NsaCmp(_, _) => true
    case Not(a) => RefsNonStdAtts(a)
    case And(l, r) => RefsNonStdAtts(l) || RefsNonStdAtts(r)
    case Or(l, r) => RefsNonStdAtts(l) || RefsNonStdAtts(r)
    case _ => false
  }

  /** Without references to them, attributes do not matter. */
  lemma {:induction false} PureIgnoresAtts(t: Tree, rec: Record, table: Table, table': Table)
    requires Plain(t) && !RefsNonStdAtts(t) && Within(t, |table|) && Within(t, |table'|)
    ensures EvaluateTree(t, rec, table) == EvaluateTree(t, rec, table')
  {
    match t
    case Not(a) => PureIgnoresAtts(a, rec, table, table');
    case And(l, r) =>
      PureIgnoresAtts(l, rec, table, table');
      PureIgnoresAtts(r, rec, table, table');
    case Or(l, r) =>
      PureIgnoresAtts(l, rec, table, table');
      PureIgnoresAtts(r, rec, table, table');
    case _ =>
  }

  // ----- dividing a tree

  /** The operands under a root whose operator is and (or or), left to right. */
  function Operands(t: Tree, isAnd: bool): (ts: seq<Tree>)
    ensures |ts| > 0
  {
    match t
    case And(l, r) => if isAnd then Operands(l, isAnd) + Operands(r, isAnd) else [t]
    case Or(l, r) => if isAnd then [t] else Operands(l, isAnd) + Operands(r, isAnd)
    case _ => [t]
  }

  function Select(ts: seq<Tree>, impure: bool): (out: seq<Tree>)
    ensures forall t <- out :: t in ts && RefsNonStdAtts(t) == impure
    ensures forall t <- ts | RefsNonStdAtts(t) == impure :: t in out
  {
    if ts == [] then []
    else if RefsNonStdAtts(ts[0]) == impure then [ts[0]] + Select(ts[1..], impure)
    else Select(ts[1..], impure)
  }

  function Join(isAnd: bool, l: Tree, r: Tree): Tree {
    if isAnd then And(l, r) else Or(l, r)
  }

  function Rebuild(ts: seq<Tree>, isAnd: bool): Tree
    requires ts != []
  {
    if |ts| == 1 then ts[0] else Join(isAnd, ts[0], Rebuild(ts[1..], isAnd))
  }

  function Divide(t: Tree): Tree {
    if !t.And? && !t.Or? then t
    else
      var ops := Operands(t.left, t.And?) + Operands(t.right, t.And?);
      var pure, impure := Select(ops, false), Select(ops, true);
      if pure == [] || impure == [] then t
      else if t.And? then AndLater(Rebuild(pure, true), Rebuild(impure, true))
      else OrLater(Rebuild(pure, false), Rebuild(impure, false))
  }

  /** Every tree of ts (or some tree, for or) holds. */
  predicate Fold(ts: seq<Tree>, isAnd: bool, rec: Record, table: Table)
    requires forall t <- ts :: Plain(t) && Within(t, |table|)
  {
    if isAnd then forall t <- ts :: EvaluateTree(t, rec, table) else exists t <- ts :: EvaluateTree(t, rec, table)
  }

  lemma {:induction false} OperandsMean(t: Tree, isAnd: bool, rec: Record, table: Table)
    requires Plain(t) && Within(t, |table|)
    ensures forall o <- Operands(t, isAnd) :: Plain(o) && Within(o, |table|)
    ensures Fold(Operands(t, isAnd), isAnd, rec, table) == EvaluateTree(t, rec, table)
    ensures RefsNonStdAtts(t) <==> exists o <- Operands(t, isAnd) :: RefsNonStdAtts(o)
  {
    if (isAnd && t.And?) || (!isAnd && t.Or?) {
      OperandsMean(t.left, isAnd, rec, table);
      OperandsMean(t.right, isAnd, rec, table);
      var a, b := Operands(t.left, isAnd), Operands(t.right, isAnd);
      assert forall o :: o in a + b <==> o in a || o in b;
      assert RefsNonStdAtts(t.left) ==> exists o <- a + b :: RefsNonStdAtts(o);
    } else {
      assert t in [t];
    }
  }

  lemma {:induction false} RebuildMeans(ts: seq<Tree>, isAnd: bool, rec: Record, table: Table)
    requires ts != [] && forall t <- ts :: Plain(t) && Within(t, |table|)
    ensures Plain(Rebuild(ts, isAnd)) && Within(Rebuild(ts, isAnd), |table|)
    ensures EvaluateTree(Rebuild(ts, isAnd), rec, table) == Fold(ts, isAnd, rec, table)
    ensures RefsNonStdAtts(Rebuild(ts, isAnd)) <==> exists t <- ts :: RefsNonStdAtts(t)
  {
    if |ts| == 1 {
      assert ts == [ts[0]];
    } else {
      RebuildMeans(ts[1..], isAnd, rec, table);
      assert forall t :: t in ts <==> t == ts[0] || t in ts[1..];
      if t :| t in ts && RefsNonStdAtts(t) {
        assert t == ts[0] || t in ts[1..];
      }
      assert ts[0] in ts;
      assert RefsNonStdAtts(Rebuild(ts, isAnd)) == (RefsNonStdAtts(ts[0]) || RefsNonStdAtts(Rebuild(ts[1..], isAnd)));
    }
  }

  /** Selecting by purity splits the fold. */
  lemma {:induction false} FoldSplits(ts: seq<Tree>, isAnd: bool, rec: Record, table: Table)
    requires forall t <- ts :: Plain(t) && Within(t, |table|)
    ensures Fold(ts, isAnd, rec, table)
         == if isAnd then Fold(Select(ts, false), isAnd, rec, table) && Fold(Select(ts, true), isAnd, rec, table)
            else Fold(Select(ts, false), isAnd, rec, table) || Fold(Select(ts, true), isAnd, rec, table)
  {
    assert forall t :: t in ts <==> t in Select(ts, false) || t in Select(ts, true);
  }

  lemma {:induction false} DividedParts(ops: seq<Tree>, isAnd: bool, rec: Record, table: Table)
    requires forall t <- ops :: Plain(t) && Within(t, |table|)
    requires Select(ops, false) != [] && Select(ops, true) != []
    ensures var l, r := Rebuild(Select(ops, false), isAnd), Rebuild(Select(ops, true), isAnd);
            && Plain(l) && Within(l, |table|) && Plain(r) && Within(r, |table|)
            && !RefsNonStdAtts(l) && RefsNonStdAtts(r)
            && Fold(ops, isAnd, rec, table)
               == (if isAnd then EvaluateTree(l, rec, table) && EvaluateTree(r, rec, table)
                   else EvaluateTree(l, rec, table) || EvaluateTree(r, rec, table))
  {
    hide Fold;
    var pure, impure := Select(ops, false), Select(ops, true);
    FoldSplits(ops, isAnd, rec, table);
    RebuildMeans(pure, isAnd, rec, table);
    RebuildMeans(impure, isAnd, rec, table);
    assert impure[0] in impure;
  }

  /**
   Dividing a tree preserves its meaning for every record and attribute table. The left part of a divided
   tree refers to no non-standard attribute.
   */
  lemma {:induction false} DividePreservesMeaning(t: Tree, rec: Record, table: Table)
    requires Plain(t) && Within(t, |table|)
    ensures Divided(Divide(t)) && Within(Divide(t), |table|)
    ensures Meaning(Divide(t), rec, table) == EvaluateTree(t, rec, table)
    ensures Divide(t).AndLater? || Divide(t).OrLater? ==>
              !RefsNonStdAtts(Divide(t).left) && RefsNonStdAtts(Divide(t).right)
  {
    hide Fold, Rebuild, EvaluateTree, Operands, RefsNonStdAtts;
    if t.And? || t.Or? {
      OperandsMean(t, t.And?, rec, table);
      var ops := Operands(t.left, t.And?) + Operands(t.right, t.And?);
      assert ops == Operands(t, t.And?) by { OperandsUnder(t); }
      if Select(ops, false) != [] && Select(ops, true) != [] {
        DividedParts(ops, t.And?, rec, table);
      }
    }
    PlainMeans(t, rec, table);
  }

  lemma {:induction false} OperandsUnder(t: Tree)
    requires t.And? || t.Or?
    ensures Operands(t, t.And?) == Operands(t.left, t.And?) + Operands(t.right, t.And?)
  {
  }

  lemma {:induction false} PlainMeans(t: Tree, rec: Record, table: Table)
    requires Plain(t) && Within(t, |table|)
    ensures Divided(t) && Meaning(t, rec, table) == EvaluateTree(t, rec, table)
  {
  }

  // ----- missing attributes

  /** Fuzzy truth in the bits the code gives it: false & x, true | x and so on come out right bitwise. */
  type Fuzzy = bv2

  const FUZZY_FALSE: Fuzzy := 0
  const FUZZY_MAYBE: Fuzzy := 1
  const FUZZY_TRUE: Fuzzy := 3

  function FuzzyAnd(l: Fuzzy, r: Fuzzy): (f: Fuzzy)
    requires l in {FUZZY_FALSE, FUZZY_MAYBE, FUZZY_TRUE} && r in {FUZZY_FALSE, FUZZY_MAYBE, FUZZY_TRUE}
    ensures f in {FUZZY_FALSE, FUZZY_MAYBE, FUZZY_TRUE}
    ensures f == FUZZY_TRUE <==> l == FUZZY_TRUE && r == FUZZY_TRUE
    ensures f == FUZZY_FALSE <==> l == FUZZY_FALSE || r == FUZZY_FALSE
  {
    l & r
  }

  function FuzzyOr(l: Fuzzy, r: Fuzzy): (f: Fuzzy)
    requires l in {FUZZY_FALSE, FUZZY_MAYBE, FUZZY_TRUE} && r in {FUZZY_FALSE, FUZZY_MAYBE, FUZZY_TRUE}
    ensures f in {FUZZY_FALSE, FUZZY_MAYBE, FUZZY_TRUE}
    ensures f == FUZZY_TRUE <==> l == FUZZY_TRUE || r == FUZZY_TRUE
    ensures f == FUZZY_FALSE <==> l == FUZZY_FALSE && r == FUZZY_FALSE
  {
    l | r
  }

  function FuzzyNot(f: Fuzzy): (g: Fuzzy)
    ensures g in {FUZZY_FALSE, FUZZY_MAYBE, FUZZY_TRUE}
  {
    if f == FUZZY_FALSE then FUZZY_TRUE else if f == FUZZY_TRUE then FUZZY_FALSE else FUZZY_MAYBE
  }

  /** The query's value when attribute nsa, or every non-standard attribute, is missing, as far as it is certain. */
  function SimulateMissingNsa(t: Tree, nsa: Option<nat>): (f: Fuzzy)
    ensures f in {FUZZY_FALSE, FUZZY_MAYBE, FUZZY_TRUE}
  {
    match t
    case StdAtt(isData) => if isData then FUZZY_MAYBE else FUZZY_TRUE
    case NsaName(a) => if nsa.None? || nsa.value == a then FUZZY_FALSE else FUZZY_MAYBE
    case StdCmp(_) => FUZZY_MAYBE
    case NsaCmp(a, _) => if nsa.None? || nsa.value == a then FUZZY_FALSE else FUZZY_MAYBE
    case Not(a) => FuzzyNot(SimulateMissingNsa(a, nsa))
    case And(l, r) => FuzzyAnd(SimulateMissingNsa(l, nsa), SimulateMissingNsa(r, nsa))
    case Or(l, r) => FuzzyOr(SimulateMissingNsa(l, nsa), SimulateMissingNsa(r, nsa))
    case AndLater(l, r) => FuzzyAnd(SimulateMissingNsa(l, nsa), SimulateMissingNsa(r, nsa))
    case OrLater(l, r) => FuzzyOr(SimulateMissingNsa(l, nsa), SimulateMissingNsa(r, nsa))
  }

  /** nsa (or every attribute) has no value. */
  predicate Lacks(table: Table, nsa: Option<nat>) {
    if nsa.None? then forall i :: 0 <= i < |table| ==> table[i].None?
    else nsa.value < |table| && table[nsa.value].None?
  }

  predicate Agrees(f: Fuzzy, b: bool) {
    (f == FUZZY_TRUE ==> b) && (f == FUZZY_FALSE ==> !b)
  }

  lemma {:induction false} LeafPredictionSound(t: Tree, nsa: Option<nat>, rec: Record, table: Table)
    requires t.StdAtt? || t.NsaName? || t.StdCmp? || t.NsaCmp?
    requires Within(t, |table|) && Lacks(table, nsa)
    ensures Agrees(SimulateMissingNsa(t, nsa), EvaluateTree(t, rec, table))
  {
  }

  lemma {:induction false} PlainPredictionSound(t: Tree, nsa: Option<nat>, rec: Record, table: Table)
    requires Plain(t) && Within(t, |table|) && Lacks(table, nsa)
    ensures Agrees(SimulateMissingNsa(t, nsa), EvaluateTree(t, rec, table))
  {
    hide Lacks, FuzzyAnd, FuzzyOr;
    match t
    case Not(a) =>
      PlainPredictionSound(a, nsa, rec, table);
    case And(l, r) =>
      PlainPredictionSound(l, nsa, rec, table);
      PlainPredictionSound(r, nsa, rec, table);
    case Or(l, r) =>
      PlainPredictionSound(l, nsa, rec, table);
      PlainPredictionSound(r, nsa, rec, table);
    case _ => LeafPredictionSound(t, nsa, rec, table);
  }

  /** A prediction other than maybe is what the query evaluates to on every record that lacks the attribute. */
  lemma {:induction false} PredictionSound(t: Tree, nsa: Option<nat>, rec: Record, table: Table)
    requires Divided(t) && Within(t, |table|) && Lacks(table, nsa)
    ensures Agrees(SimulateMissingNsa(t, nsa), Meaning(t, rec, table))
  {
    if t.AndLater? || t.OrLater? {
      PlainPredictionSound(t.left, nsa, rec, table);
      PlainPredictionSound(t.right, nsa, rec, table);
    } else {
      PlainPredictionSound(t, nsa, rec, table);
    }
  }

  /** Certain predictions from two missing attributes never contradict each other. */
  lemma {:induction false} PredictionsAgree(t: Tree, a: nat, b: nat, n: nat)
    requires Divided(t) && Within(t, n) && a < n && b < n
    requires SimulateMissingNsa(t, Some(a)) != FUZZY_MAYBE && SimulateMissingNsa(t, Some(b)) != FUZZY_MAYBE
    ensures SimulateMissingNsa(t, Some(a)) == SimulateMissingNsa(t, Some(b))
  {
    var rec := Record(false, c => false, (c, v) => false);
    PredictionSound(t, Some(a), rec, NoAtts(n));
    PredictionSound(t, Some(b), rec, NoAtts(n));
  }

  /** What the query keeps about one non-standard attribute; its place in the list is its index in a table. */
  datatype NonStdAtt = NonStdAtt(numeric: bool, structRef: bool, resultIfMissing: Fuzzy)

  /** The query's non-standard attributes carry the predictions for tree t. */
  predicate Annotated(t: Tree, atts: seq<NonStdAtt>, resultIfAllMissing: Fuzzy) {
    && (forall i :: 0 <= i < |atts| ==> atts[i].resultIfMissing == SimulateMissingNsa(t, Some(i)))
    && resultIfAllMissing == SimulateMissingNsa(t, None)
  }
}
