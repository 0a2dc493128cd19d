/**
 evlgentmpls' grouping of log calls: calls that yield the same facility and event type share one template, which the
 first of them in source order stands for.
 */
module TemplateGroups {
  import opened Options

  /** A log call: where it is, what it yields, and its format with and without the braced parts. */
  datatype Info = Info(file: string, func: string, line: int, facility: nat, eventType: int, format: string,
    unbraced: string)

  datatype DupStatus = Unique | FirstDup | NthDup

  /** What is found out about the call of the same index. */
  datatype Meta = Meta(dups: Option<seq<nat>>, status: DupStatus)

  /** Negative, zero or positive as in strcmp. */
  function Strcmp(a: string, b: string): int {
    if a == [] && b == [] then 0
    else if a == [] then -1
    else if b == [] then 1
    else if a[0] != b[0] then (if a[0] < b[0] then -1 else 1)
    else Strcmp(a[1..], b[1..])
  }

  function CompareInfo(a: Info, b: Info, version: nat): int {
    if version == 1 then a.line - b.line
    else if Strcmp(a.file, b.file) != 0 then Strcmp(a.file, b.file)
    else if Strcmp(a.func, b.func) != 0 then Strcmp(a.func, b.func)
    else a.line - b.line
  }

  predicate SameClass(a: Info, b: Info) {
    a.eventType == b.eventType && a.facility == b.facility
  }

  /** Whether two calls that yield the same event type really are the same event. */
  predicate SameEvent(a: Info, b: Info, version: nat) {
    if version == 1 then a.format == b.format && a.file == b.file && a.func == b.func
    else a.unbraced == b.unbraced
  }

  // ---------------------------------------------------------------------------------------------------------
  // The order of calls

  lemma {:induction false} StrcmpZero(a: string, b: string)
    ensures Strcmp(a, b) == 0 <==> a == b
  {
    if a != [] && b != [] && a[0] == b[0] {
      StrcmpZero(a[1..], b[1..]);
      assert a == [a[0]] + a[1..] && b == [b[0]] + b[1..];
    }
  }

  lemma {:induction false} StrcmpFlips(a: string, b: string)
    ensures Strcmp(a, b) == -Strcmp(b, a)
  {
    if a != [] && b != [] && a[0] == b[0] {
      StrcmpFlips(a[1..], b[1..]);
    }
  }

  lemma {:induction false} StrcmpTransitive(a: string, b: string, c: string)
    requires Strcmp(a, b) < 0 && Strcmp(b, c) < 0
    ensures Strcmp(a, c) < 0
  {
    if a != [] && b != [] && c != [] && a[0] == b[0] && b[0] == c[0] {
      StrcmpTransitive(a[1..], b[1..], c[1..]);
    }
  }

  /** Source order, and between calls that compare equal the order in which they were found. */
  predicate Before(info: seq<Info>, i: nat, j: nat, version: nat)
    requires i < |info| && j < |info|
  {
    CompareInfo(info[i], info[j], version) < 0 || (CompareInfo(info[i], info[j], version) == 0 && i < j)
  }

  lemma {:induction false} BeforeIsTotal(info: seq<Info>, i: nat, j: nat, version: nat)
    requires i < |info| && j < |info| && i != j
    ensures Before(info, i, j, version) <==> !Before(info, j, i, version)
  {
    StrcmpFlips(info[i].file, info[j].file);
    StrcmpFlips(info[i].func, info[j].func);
  }

  lemma {:induction false} BeforeIsIrreflexive(info: seq<Info>, i: nat, version: nat)
    requires i < |info|
    ensures !Before(info, i, i, version)
  {
    StrcmpZero(info[i].file, info[i].file);
    StrcmpZero(info[i].func, info[i].func);
  }

  lemma {:induction false} BeforeIsTransitive(info: seq<Info>, i: nat, j: nat, k: nat, version: nat)
    requires i < |info| && j < |info| && k < |info|
    requires Before(info, i, j, version) && Before(info, j, k, version)
    ensures Before(info, i, k, version)
  {
    var a, b, c := info[i], info[j], info[k];
    StrcmpZero(a.file, b.file);
    StrcmpZero(b.file, c.file);
    StrcmpZero(a.func, b.func);
    StrcmpZero(b.func, c.func);
    if Strcmp(a.file, b.file) < 0 && Strcmp(b.file, c.file) < 0 {
      StrcmpTransitive(a.file, b.file, c.file);
    }
    if Strcmp(a.func, b.func) < 0 && Strcmp(b.func, c.func) < 0 {
      StrcmpTransitive(a.func, b.func, c.func);
    }
  }

  // ---------------------------------------------------------------------------------------------------------
  // What a grouping is

  ghost predicate InOrder(info: seq<Info>, l: seq<nat>, version: nat)
    requires forall k :: 0 <= k < |l| ==> l[k] < |info|
  {
    forall a, b :: 0 <= a < b < |l| ==> Before(info, l[a], l[b], version)
  }

  /** l lists exactly the first n calls of j's class, in order. */
  ghost predicate ListsClass(info: seq<Info>, n: nat, l: seq<nat>, j: nat, version: nat)
    requires n <= |info| && j < n
  {
    && (forall k :: 0 <= k < |l| ==> l[k] < n && SameClass(info[l[k]], info[j]))
    && (forall i :: 0 <= i < n && SameClass(info[i], info[j]) ==> i in l)
    && InOrder(info, l, version)
  }

  ghost predicate EntryFits(info: seq<Info>, mif: seq<Meta>, n: nat, j: nat, version: nat)
    requires n <= |info| && n <= |mif| && j < n
  {
    match mif[j].status
    case Unique => mif[j].dups.None? && forall i :: 0 <= i < n && i != j ==> !SameClass(info[i], info[j])
    case FirstDup =>
      && mif[j].dups.Some? && |mif[j].dups.value| >= 2 && mif[j].dups.value[0] == j
      && ListsClass(info, n, mif[j].dups.value, j, version)
    case NthDup => mif[j].dups.None?
  }

  /** The head of i's class. */
  predicate Heads(info: seq<Info>, mif: seq<Meta>, n: nat, i: nat, j: nat)
    requires n <= |info| && n <= |mif| && i < n
  {
    j < n && SameClass(info[i], info[j]) && mif[j].status != NthDup
  }

  ghost predicate HasHead(info: seq<Info>, mif: seq<Meta>, n: nat, i: nat)
    requires n <= |info| && n <= |mif| && i < n
  {
    exists j: nat :: Heads(info, mif, n, i, j)
  }

  /** Exactly one call of every class is no NthDup; in a class of two or more it heads the ordered list of the class. */
  ghost predicate Grouped(info: seq<Info>, mif: seq<Meta>, n: nat, version: nat)
    requires n <= |info| && n <= |mif|
  {
    && (forall j :: 0 <= j < n ==> EntryFits(info, mif, n, j, version))
    && (forall i :: 0 <= i < n ==> HasHead(info, mif, n, i))
    && (forall i, j :: 0 <= i < j < n && SameClass(info[i], info[j]) ==>
          mif[i].status == NthDup || mif[j].status == NthDup)
  }

  ghost predicate NoCollision(info: seq<Info>, n: nat, version: nat)
    requires n <= |info|
  {
    forall i, j :: 0 <= i < n && 0 <= j < n && SameClass(info[i], info[j]) ==> SameEvent(info[i], info[j], version)
  }

  /** The call that stands for a class comes before every other call of it. */
  lemma {:induction false} HeadIsFirst(info: seq<Info>, mif: seq<Meta>, j: nat, i: nat, version: nat)
    requires |mif| == |info| && Grouped(info, mif, |info|, version)
    requires i < |info| && j < |info| && i != j && mif[j].status != NthDup && SameClass(info[i], info[j])
    ensures Before(info, j, i, version)
  {
    assert EntryFits(info, mif, |info|, j, version);
    var k :| 0 <= k < |mif[j].dups.value| && mif[j].dups.value[k] == i;
  }

  lemma {:induction false} OrderIsUnique(info: seq<Info>, a: seq<nat>, b: seq<nat>, version: nat)
    requires forall k :: 0 <= k < |a| ==> a[k] < |info|
    requires forall k :: 0 <= k < |b| ==> b[k] < |info|
    requires InOrder(info, a, version) && InOrder(info, b, version)
    requires forall x :: x in a <==> x in b
    ensures a == b
  {
    assert a != [] ==> a[0] in a;
    assert b != [] ==> b[0] in b;
    if a != [] && b != [] {
      if a[0] != b[0] {
        var k :| 0 <= k < |b| && b[k] == a[0];
        var m :| 0 <= m < |a| && a[m] == b[0];
        BeforeIsTotal(info, a[0], b[0], version);
      }
      forall x ensures x in a[1..] <==> x in b[1..] {
        NotAgain(info, a, version);
        NotAgain(info, b, version);
        assert x in a <==> x == a[0] || x in a[1..];
        assert x in b <==> x == b[0] || x in b[1..];
      }
      OrderIsUnique(info, a[1..], b[1..], version);
    }
  }

  lemma {:induction false} NotAgain(info: seq<Info>, a: seq<nat>, version: nat)
    requires a != [] && forall k :: 0 <= k < |a| ==> a[k] < |info|
    requires InOrder(info, a, version)
    ensures a[0] !in a[1..]
  {
    BeforeIsIrreflexive(info, a[0], version);
    forall k | 0 <= k < |a[1..]| ensures a[1..][k] != a[0] {
      assert a[1..][k] == a[k + 1] && Before(info, a[0], a[k + 1], version);
    }
  }

  /** There is only one grouping of given calls. */
  lemma {:induction false} GroupingIsUnique(info: seq<Info>, mif: seq<Meta>, other: seq<Meta>, j: nat, version: nat)
    requires |mif| == |info| == |other| && j < |info|
    requires Grouped(info, mif, |info|, version) && Grouped(info, other, |info|, version)
    ensures mif[j] == other[j]
  {
    assert EntryFits(info, mif, |info|, j, version) && EntryFits(info, other, |info|, j, version);
    StatusIsUnique(info, mif, other, j, version);
    StatusIsUnique(info, other, mif, j, version);
    if mif[j].status == FirstDup && other[j].status == FirstDup {
      OrderIsUnique(info, mif[j].dups.value, other[j].dups.value, version);
    }
    if mif[j].status == FirstDup && other[j].status == Unique {
      ListHasAnother(info, mif, j, version);
    }
    if mif[j].status == Unique && other[j].status == FirstDup {
      ListHasAnother(info, other, j, version);
    }
  }

  lemma {:induction false} ListHasAnother(info: seq<Info>, mif: seq<Meta>, j: nat, version: nat)
    requires |mif| == |info| && j < |info| && mif[j].status == FirstDup && EntryFits(info, mif, |info|, j, version)
    ensures exists i :: 0 <= i < |info| && i != j && SameClass(info[i], info[j])
  {
    var l := mif[j].dups.value;
    BeforeIsIrreflexive(info, j, version);
    assert Before(info, l[0], l[1], version);
    assert l[1] != j && SameClass(info[l[1]], info[j]);
  }

  lemma {:induction false} StatusIsUnique(info: seq<Info>, mif: seq<Meta>, other: seq<Meta>, j: nat, version: nat)
    requires |mif| == |info| == |other| && j < |info|
    requires Grouped(info, mif, |info|, version) && Grouped(info, other, |info|, version)
    ensures mif[j].status != NthDup ==> other[j].status != NthDup
  {
    if mif[j].status != NthDup && other[j].status == NthDup {
      assert HasHead(info, other, |info|, j);
      var k: nat :| Heads(info, other, |info|, j, k);
      HeadIsFirst(info, other, k, j, version);
      HeadIsFirst(info, mif, j, k, version);
      BeforeIsTotal(info, j, k, version);
    }
  }

  // ---------------------------------------------------------------------------------------------------------

  /** Inserts call i into the list of its class's earlier calls, in front of the first that comes after it. */
  method AddDup(info: seq<Info>, head: seq<nat>, i: nat, version: nat) returns (l: seq<nat>)
    requires i < |info| && (forall k :: 0 <= k < |head| ==> head[k] < i) && InOrder(info, head, version)
    ensures |l| == |head| + 1 && (forall k :: 0 <= k < |l| ==> l[k] <= i) && InOrder(info, l, version)
    ensures forall x :: x in l <==> x == i || x in head
    ensures l[0] == i || (head != [] && l[0] == head[0])
  {
    hide CompareInfo, InOrder;
    var p := 0;
    while p < |head| && CompareInfo(info[i], info[head[p]], version) >= 0
      invariant p <= |head| && forall k :: 0 <= k < p ==> CompareInfo(info[i], info[head[k]], version) >= 0
    {
      p := p + 1;
    }
    InsertedInOrder(info, head, i, p, version);
    l := head[..p] + [i] + head[p..];
    assert head == head[..p] + head[p..];
  }

  /** Where i goes keeps the order, as every later node comes after the first that does. */
  lemma {:induction false} InsertedInOrder(info: seq<Info>, head: seq<nat>, i: nat, p: nat, version: nat)
    requires i < |info| && (forall k :: 0 <= k < |head| ==> head[k] < i) && InOrder(info, head, version)
    requires p <= |head| && forall k :: 0 <= k < p ==> CompareInfo(info[i], info[head[k]], version) >= 0
    requires p < |head| ==> CompareInfo(info[i], info[head[p]], version) < 0
    ensures var l := head[..p] + [i] + head[p..];
      (forall k :: 0 <= k < |l| ==> l[k] <= i) && InOrder(info, l, version)
  {
    hide CompareInfo;
    forall k | 0 <= k < p ensures Before(info, head[k], i, version) {
      BeforeIsTotal(info, head[k], i, version);
    }
    forall k | p <= k < |head| ensures Before(info, i, head[k], version) {
      if k > p {
        BeforeIsTransitive(info, i, head[p], head[k], version);
      }
    }
    var l := head[..p] + [i] + head[p..];
    assert forall a :: 0 <= a < |l| ==> l[a] == if a < p then head[a] else if a == p then i else head[a - 1];
    InsertedPairs(info, head, l, i, p, version);
  }

  lemma {:induction false} InsertedPairs(info: seq<Info>, head: seq<nat>, l: seq<nat>, i: nat, p: nat, version: nat)
    requires i < |info| && (forall k :: 0 <= k < |head| ==> head[k] < i) && InOrder(info, head, version)
    requires p <= |head| && |l| == |head| + 1
    requires (forall a :: 0 <= a < p ==> l[a] == head[a]) && l[p] == i
    requires forall a :: p < a < |l| ==> l[a] == head[a - 1]
    requires forall k :: 0 <= k < |l| ==> l[k] <= i
    requires forall k :: 0 <= k < p ==> Before(info, head[k], i, version)
    requires forall k :: p <= k < |head| ==> Before(info, i, head[k], version)
    ensures InOrder(info, l, version)
  {
    hide Before;
    forall a, b | 0 <= a < b < |l| ensures Before(info, l[a], l[b], version) {
      if a == p {
        assert l[b] == head[b - 1];
      } else if b == p {
        assert l[a] == head[a];
      } else {
        var a', b' := if a < p then a else a - 1, if b < p then b else b - 1;
        assert l[a] == head[a'] && l[b] == head[b'] && Before(info, head[a'], head[b'], version);
      }
    }
  }

  /** A call whose class has no head yet is the first of its class. */
  lemma {:induction false} NewClass(info: seq<Info>, mif: seq<Meta>, i: nat, version: nat)
    requires i < |info| && i < |mif| && Grouped(info, mif, i, version)
    requires forall j :: 0 <= j < i && mif[j].status != NthDup ==> !SameClass(info[i], info[j])
    requires mif[i] == Meta(None, Unique)
    ensures Grouped(info, mif, i + 1, version)
  {
    forall j | 0 <= j < i ensures !SameClass(info[i], info[j]) {
      assert HasHead(info, mif, i, j);
      var h: nat :| Heads(info, mif, i, j, h);
    }
    var n := i + 1;
    forall j | 0 <= j < n ensures HasHead(info, mif, n, j) {
      HeadKept(info, mif, mif, i, j, if j < i then HeadOf(info, mif, i, j, version) else i);
    }
    forall j | 0 <= j < n ensures EntryFits(info, mif, n, j, version) {
      if j < i {
        assert EntryFits(info, mif, i, j, version);
      }
    }
  }

  ghost function HeadOf(info: seq<Info>, mif: seq<Meta>, n: nat, i: nat, version: nat): (j: nat)
    requires n <= |info| && n <= |mif| && i < n && Grouped(info, mif, n, version)
    ensures Heads(info, mif, n, i, j)
  {
    assert HasHead(info, mif, n, i);
    var j: nat :| Heads(info, mif, n, i, j);
    j
  }

  lemma {:induction false} HeadKept(info: seq<Info>, mif: seq<Meta>, newer: seq<Meta>, n: nat, i: nat, j: nat)
    requires n < |info| && |mif| == |newer| && n < |mif| && i <= n && j <= n
    requires SameClass(info[i], info[j]) && newer[j].status != NthDup
    ensures HasHead(info, newer, n + 1, i)
  {
    assert Heads(info, newer, n + 1, i, j);
  }

  /** The list that i joins: the head's list, or the head alone. */
  function ListOf(m: Meta, j: nat): seq<nat> {
    if m.dups.None? then [j] else m.dups.value
  }

  /** What becomes of i and its class's head j once the class is listed by l. */
  function Joined(mif: seq<Meta>, i: nat, j: nat, l: seq<nat>): seq<Meta>
    requires j < i < |mif| && l != []
  {
    if l[0] == i then mif[i := Meta(Some(l), FirstDup)][j := Meta(None, NthDup)]
    else mif[i := Meta(None, NthDup)][j := Meta(Some(l), FirstDup)]
  }

  /** A head's list holds exactly its class. */
  lemma {:induction false} ListOfHead(info: seq<Info>, mif: seq<Meta>, i: nat, j: nat, version: nat)
    requires i <= |info| && i <= |mif| && j < i && EntryFits(info, mif, i, j, version) && mif[j].status != NthDup
    ensures var l := ListOf(mif[j], j); l != [] && l[0] == j && ListsClass(info, i, l, j, version)
  {
  }

  lemma {:induction false} JoinedLists(info: seq<Info>, head: seq<nat>, l: seq<nat>, i: nat, j: nat, h: nat,
      version: nat)
    requires i < |info| && j < i && ListsClass(info, i, head, j, version) && SameClass(info[i], info[j])
    requires (forall k :: 0 <= k < |l| ==> l[k] <= i) && InOrder(info, l, version)
    requires forall x :: x in l <==> x == i || x in head
    requires h <= i && SameClass(info[h], info[j])
    ensures ListsClass(info, i + 1, l, h, version)
  {
    forall k | 0 <= k < |l| ensures SameClass(info[l[k]], info[h]) {
      assert l[k] in l;
    }
  }

  /** A call joins the class of an earlier head, and takes its place when it comes first. */
  lemma {:induction false} JoinClass(info: seq<Info>, mif: seq<Meta>, i: nat, j: nat, l: seq<nat>, version: nat)
    requires i < |info| && i < |mif| && Grouped(info, mif, i, version)
    requires j < i && mif[j].status != NthDup && SameClass(info[i], info[j])
    requires |l| == |ListOf(mif[j], j)| + 1 && (l[0] == i || l[0] == j)
    requires (forall k :: 0 <= k < |l| ==> l[k] <= i) && InOrder(info, l, version)
    requires forall x :: x in l <==> x == i || x in ListOf(mif[j], j)
    ensures Grouped(info, Joined(mif, i, j, l), i + 1, version)
  {
    var newer, h, n := Joined(mif, i, j, l), if l[0] == i then i else j, i + 1;
    assert EntryFits(info, mif, i, j, version);
    ListOfHead(info, mif, i, j, version);
    JoinedLists(info, ListOf(mif[j], j), l, i, j, h, version);
    forall k | 0 <= k < n ensures HasHead(info, newer, n, k) {
      JoinedHead(info, mif, newer, i, j, h, k, version);
    }
    forall k | 0 <= k < n ensures EntryFits(info, newer, n, k, version) {
      JoinedEntry(info, mif, i, j, l, k, version);
    }
    forall a, b | 0 <= a < b < n && SameClass(info[a], info[b])
      ensures newer[a].status == NthDup || newer[b].status == NthDup
    {
      JoinedOnlyOne(info, mif, i, j, l, a, b, version);
    }
  }

  lemma {:induction false} JoinedHead(info: seq<Info>, mif: seq<Meta>, newer: seq<Meta>, i: nat, j: nat, h: nat,
      k: nat, version: nat)
    requires i < |info| && i < |mif| == |newer| && Grouped(info, mif, i, version)
    requires j < i && SameClass(info[i], info[j]) && k <= i && (h == i || h == j) && newer[h].status != NthDup
    requires forall m :: 0 <= m < i && m != j ==> newer[m] == mif[m]
    ensures HasHead(info, newer, i + 1, k)
  {
    if SameClass(info[k], info[j]) {
      HeadKept(info, mif, newer, i, k, h);
    } else {
      HeadKept(info, mif, newer, i, k, HeadOf(info, mif, i, k, version));
    }
  }

  /** Entries of other classes stay as they were; i and j change places as the list says. */
  lemma {:induction false} JoinedEntry(info: seq<Info>, mif: seq<Meta>, i: nat, j: nat, l: seq<nat>, k: nat,
      version: nat)
    requires i < |info| && i < |mif| && j < i && k <= i && Grouped(info, mif, i, version)
    requires mif[j].status != NthDup && SameClass(info[i], info[j]) && |l| >= 2
    requires l[0] == i || l[0] == j
    requires ListsClass(info, i + 1, l, l[0], version)
    ensures EntryFits(info, Joined(mif, i, j, l), i + 1, k, version)
  {
    hide InOrder;
    if k != i && k != j {
      assert EntryFits(info, mif, i, k, version);
      if mif[k].status != NthDup {
        assert !SameClass(info[k], info[j]) by {
          assert k < j || j < k;
        }
        OtherClassKept(info, mif, Joined(mif, i, j, l), i, k, version);
      }
    }
  }

  lemma {:induction false} OtherClassKept(info: seq<Info>, mif: seq<Meta>, newer: seq<Meta>, i: nat, k: nat,
      version: nat)
    requires i < |info| && i < |mif| == |newer| && k < i && newer[k] == mif[k]
    requires EntryFits(info, mif, i, k, version) && !SameClass(info[i], info[k])
    ensures EntryFits(info, newer, i + 1, k, version)
  {
  }

  lemma {:induction false} JoinedOnlyOne(info: seq<Info>, mif: seq<Meta>, i: nat, j: nat, l: seq<nat>, a: nat, b: nat,
      version: nat)
    requires i < |info| && i < |mif| && j < i && a < b <= i && l != [] && Grouped(info, mif, i, version)
    requires mif[j].status != NthDup && SameClass(info[i], info[j]) && SameClass(info[a], info[b])
    ensures Joined(mif, i, j, l)[a].status == NthDup || Joined(mif, i, j, l)[b].status == NthDup
  {
    hide EntryFits, HasHead;
    if b == i && a != j {
      assert SameClass(info[a], info[j]);
      assert a < j || j < a;
    }
  }

  lemma {:induction false} NothingGrouped(info: seq<Info>, mif: seq<Meta>, version: nat)
    ensures Grouped(info, mif, 0, version)
  {
  }

  lemma {:induction false} HeadEntry(info: seq<Info>, mif: seq<Meta>, i: nat, j: nat, version: nat)
    requires i <= |info| && i <= |mif| && Grouped(info, mif, i, version) && j < i && mif[j].status != NthDup
    ensures var l := ListOf(mif[j], j);
      l != [] && l[0] == j && (forall k :: 0 <= k < |l| ==> l[k] < i) && InOrder(info, l, version)
  {
    assert EntryFits(info, mif, i, j, version);
  }

  /** Comparing with the head of the class is enough, as being the same event is an equivalence. */
  lemma {:induction false} CollisionWithHead(info: seq<Info>, i: nat, j: nat, version: nat)
    requires i < |info| && j < i && SameClass(info[i], info[j])
    ensures NoCollision(info, i + 1, version) <==> NoCollision(info, i, version) && SameEvent(info[i], info[j], version)
  {
    if NoCollision(info, i, version) && SameEvent(info[i], info[j], version) {
      forall a | 0 <= a < i && SameClass(info[a], info[i])
        ensures SameEvent(info[a], info[i], version) && SameEvent(info[i], info[a], version)
      {
        assert SameEvent(info[a], info[j], version);
      }
    }
  }

  lemma {:induction false} NoCollisionAlone(info: seq<Info>, mif: seq<Meta>, i: nat, version: nat)
    requires i < |info| && i <= |mif| && Grouped(info, mif, i, version)
    requires forall j :: 0 <= j < i && mif[j].status != NthDup ==> !SameClass(info[i], info[j])
    ensures NoCollision(info, i + 1, version) <==> NoCollision(info, i, version)
  {
    forall j | 0 <= j < i ensures !SameClass(info[i], info[j]) {
      var h := HeadOf(info, mif, i, j, version);
    }
  }

  /** Groups the calls; collisions counts calls that match the head of their class without being the same event. */
  method PrepareMetaInfo(info: seq<Info>, version: nat) returns (mif: array<Meta>, collisions: nat)
    ensures mif.Length == |info| && Grouped(info, mif[..], |info|, version)
    ensures collisions == 0 <==> NoCollision(info, |info|, version)
  {
    hide Grouped, InOrder, SameEvent;
    mif := new Meta[|info|](_ => Meta(None, Unique));
    collisions := 0;
    NothingGrouped(info, mif[..], version);
    var i := 0;
    while i < |info|
      invariant i <= |info| && Grouped(info, mif[..], i, version)
      invariant collisions == 0 <==> NoCollision(info, i, version)
      invariant forall k :: i <= k < |info| ==> mif[k] == Meta(None, Unique)
    {
      var j := 0;
      while j < i && (mif[j].status == NthDup || !SameClass(info[i], info[j]))
        invariant j <= i
        invariant forall k :: 0 <= k < j && mif[k].status != NthDup ==> !SameClass(info[i], info[k])
        modifies {}
      {
        j := j + 1;
      }
      ghost var was := mif[..];
      if j < i {
        if !SameEvent(info[i], info[j], version) {
          collisions := collisions + 1;
        }
        HeadEntry(info, was, i, j, version);
        var l := AddDup(info, ListOf(mif[j], j), i, version);
        JoinClass(info, was, i, j, l, version);
        if l[0] == i {
          mif[i] := Meta(Some(l), FirstDup);
          mif[j] := Meta(None, NthDup);
        } else {
          mif[i] := Meta(None, NthDup);
          mif[j] := Meta(Some(l), FirstDup);
        }
        assert mif[..] == Joined(was, i, j, l);
        CollisionWithHead(info, i, j, version);
      } else {
        NewClass(info, was, i, version);
        NoCollisionAlone(info, was, i, version);
      }
      i := i + 1;
    }
  }
}
