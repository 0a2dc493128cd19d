/**
 The facility registry's hash table: open addressing with linear probing, growing to a prime size. Its slots are
 proved to hold a finite map from facility codes to facilities.
 */
module FacilityHash {
  import opened Primes

  /** The code of an unused slot, the largest 32-bit number. */
  const EMPTY: nat := 0xFFFF_FFFF

  datatype Facility = Facility(code: nat, name: string, accessFlags: nat, filter: string)

  const UNUSED := Facility(EMPTY, "", 0, "")

  function Home(code: nat, size: nat): (slot: nat)
    requires 0 < size
    ensures slot < size
  {
    code % size
  }

  /** s is probed before slot when the search starts at home and wraps round. */
  predicate OnPath(home: nat, slot: nat, s: nat) {
    if home <= slot then home <= s < slot else home <= s || s < slot
  }

  predicate Distinct(h: seq<Facility>) {
    forall i, j :: 0 <= i < j < |h| && h[i].code != EMPTY ==> h[i].code != h[j].code
  }

  /** No unused slot lies between a code's home slot and the slot that holds it. */
  predicate Probed(h: seq<Facility>) {
    && 0 < |h| && Distinct(h)
    && forall i, s :: 0 <= i < |h| && 0 <= s < |h| && h[i].code != EMPTY && OnPath(Home(h[i].code, |h|), i, s) ==>
         h[s].code != EMPTY
  }

  predicate Full(h: seq<Facility>) {
    forall i :: 0 <= i < |h| ==> h[i].code != EMPTY
  }

  predicate Holds(h: seq<Facility>, code: nat) {
    code != EMPTY && exists i :: 0 <= i < |h| && h[i].code == code
  }

  /** What the table maps codes to. */
  ghost function Table(h: seq<Facility>): (m: map<nat, Facility>)
    requires Distinct(h)
    ensures forall c :: c in m <==> Holds(h, c)
    ensures forall i :: 0 <= i < |h| && h[i].code != EMPTY ==> h[i].code in m && m[h[i].code] == h[i]
  {
    map i | 0 <= i < |h| && h[i].code != EMPTY :: h[i].code := h[i]
  }

  /** What the probe loop returns for a code: a slot, or -1. */
  predicate IsSlotFor(h: seq<Facility>, code: nat, r: int) {
    if r == -1 then forall s :: 0 <= s < |h| ==> h[s].code != code && h[s].code != EMPTY
    else
      && 0 <= r < |h| && (h[r].code == code || h[r].code == EMPTY)
      && forall s :: 0 <= s < |h| && OnPath(Home(code, |h|), r, s) ==> h[s].code != code && h[s].code != EMPTY
  }

  /** The probe finds every stored code, and answers -1 exactly when the table is full and the code absent. */
  lemma {:induction false} ProbeFindsWhatIsStored(h: seq<Facility>, code: nat, r: int)
    requires Probed(h) && code != EMPTY && IsSlotFor(h, code, r)
    ensures r == -1 <==> Full(h) && code !in Table(h)
    ensures code in Table(h) ==> 0 <= r && h[r] == Table(h)[code]
    ensures code !in Table(h) && r != -1 ==> h[r].code == EMPTY
  {
    if code in Table(h) {
      var i :| 0 <= i < |h| && h[i].code == code;
    }
  }

  lemma {:induction false} StoreKeepsProbed(h: seq<Facility>, f: Facility, r: nat)
    requires Probed(h) && IsSlotFor(h, f.code, r)
    ensures Probed(h[r := f]) && (f.code != EMPTY ==> forall i :: 0 <= i < |h| && i != r ==> h[i].code != f.code)
  {
    hide Table;
    if f.code != EMPTY {
      ProbeFindsWhatIsStored(h, f.code, r);
      forall i | 0 <= i < |h| && i != r ensures h[i].code != f.code {
        assert h[i].code == f.code ==> Holds(h, f.code);
      }
    }
  }

  /** Storing a facility in the slot the probe gave updates the map, and keeps every other code findable. */
  lemma {:induction false} StoreUpdatesMap(h: seq<Facility>, f: Facility, r: nat)
    requires Probed(h) && IsSlotFor(h, f.code, r)
    ensures Probed(h[r := f])
    ensures Table(h[r := f]) == if f.code == EMPTY then Table(h) else Table(h)[f.code := f]
  {
    hide Table;
    StoreKeepsProbed(h, f, r);
    var g := h[r := f];
    assert forall i :: 0 <= i < |h| && i != r ==> g[i] == h[i];
    assert h[r].code == f.code || h[r].code == EMPTY;
    forall c ensures Holds(g, c) <==> Holds(h, c) || (c == f.code && c != EMPTY) {
      if Holds(h, c) && c != f.code {
        var i :| 0 <= i < |h| && h[i].code == c;
        assert g[i].code == c;
      }
      if Holds(g, c) && c != f.code {
        var i :| 0 <= i < |g| && g[i].code == c;
        assert h[i].code == c;
      }
      assert g[r].code == f.code;
    }
    forall c | Holds(g, c) ensures Table(g)[c] == if c == f.code then f else Table(h)[c] {
      var i :| 0 <= i < |g| && g[i].code == c;
      assert c != f.code ==> h[i] == g[i];
    }
  }

  lemma {:induction false} TableSize(h: seq<Facility>)
    requires Distinct(h)
    ensures |Table(h)| <= |h| && (Full(h) ==> |Table(h)| == |h|)
  {
    if h != [] {
      var n := |h| - 1;
      TableSize(h[..n]);
      TableNext(h, n);
      assert h[..|h|] == h;
    }
  }

  /** The map grows by one slot at a time. */
  lemma {:induction false} TableNext(h: seq<Facility>, n: nat)
    requires Distinct(h) && n < |h|
    ensures h[n].code != EMPTY ==> h[n].code !in Table(h[..n])
    ensures Table(h[..n + 1]) == if h[n].code == EMPTY then Table(h[..n]) else Table(h[..n])[h[n].code := h[n]]
  {
    hide Table;
    var small, big := h[..n], h[..n + 1];
    assert forall i :: 0 <= i < n ==> small[i] == big[i];
    assert big[n] == h[n];
    forall c ensures Holds(big, c) <==> Holds(small, c) || (c == h[n].code && c != EMPTY) {
      if Holds(small, c) {
        var i :| 0 <= i < |small| && small[i].code == c;
        assert big[i].code == c;
      }
    }
    forall c | Holds(big, c) ensures Table(big)[c] == if c == h[n].code then h[n] else Table(small)[c] {
      var i :| 0 <= i < |big| && big[i].code == c;
    }
  }

  /** A table with fewer codes than slots has room for any code. */
  lemma {:induction false} RoomFor(h: seq<Facility>, code: nat, r: int)
    requires Probed(h) && |Table(h)| < |h| && IsSlotFor(h, code, r)
    ensures r != -1
  {
    TableSize(h);
  }

  // ---------------------------------------------------------------------------------------------------------

  method FindHashSlotFor(fac: nat, hash: array<Facility>) returns (r: int)
    requires 0 < hash.Length
    ensures IsSlotFor(hash[..], fac, r)
  {
    var size := hash.Length;
    var bestSlot := fac % size;
    var slot := bestSlot;
    ghost var k := 0;
    while true
      invariant slot < size && k < size
      invariant slot == if bestSlot + k < size then bestSlot + k else bestSlot + k - size
      invariant forall s :: 0 <= s < size && OnPath(bestSlot, slot, s) ==>
        hash[s].code != fac && hash[s].code != EMPTY
      decreases size - k
    {
      var foundFac := hash[slot].code;
      if foundFac == fac || foundFac == EMPTY {
        return slot;
      }
      slot := slot + 1;
      k := k + 1;
      if slot == size {
        slot := 0;
      }
      if slot == bestSlot {
        return -1;
      }
    }
  }

  /** Copies the facilities of a table into a larger one. */
  method ReallocFacHash(oldHash: array<Facility>, newSize: nat) returns (newHash: array<Facility>)
    requires oldHash.Length <= newSize && 0 < newSize && TakenForPrime(newSize)
    requires Distinct(oldHash[..])
    ensures fresh(newHash) && newHash.Length == newSize && Probed(newHash[..])
    ensures Table(newHash[..]) == Table(oldHash[..])
  {
    hide Probed, IsSlotFor;
    newHash := new Facility[newSize](_ => UNUSED);
    EmptyTable(newHash[..]);
    ghost var old_ := oldHash[..];
    var i := 0;
    while i < oldHash.Length
      invariant i <= oldHash.Length && Probed(newHash[..]) && Distinct(newHash[..]) && oldHash[..] == old_
      invariant Table(newHash[..]) == Table(old_[..i])
    {
      TableNext(old_, i);
      if oldHash[i].code != EMPTY {
        var j := FindHashSlotFor(oldHash[i].code, newHash);
        TableSize(old_[..i]);
        RoomFor(newHash[..], oldHash[i].code, j);
        StoreAt(newHash[..], oldHash[i], j);
        ghost var was := newHash[..];
        newHash[j] := oldHash[i];
        assert newHash[..] == was[j := old_[i]];
      }
      i := i + 1;
    }
    assert old_[..i] == old_;
  }

  lemma {:induction false} EmptyTable(h: seq<Facility>)
    requires 0 < |h| && forall i :: 0 <= i < |h| ==> h[i].code == EMPTY
    ensures Probed(h) && Distinct(h) && Table(h) == map[]
  {
  }

  lemma {:induction false} StoreAt(h: seq<Facility>, f: Facility, r: int)
    requires Probed(h) && Distinct(h) && IsSlotFor(h, f.code, r) && r != -1
    ensures 0 <= r < |h| && Probed(h[r := f]) && Distinct(h[r := f])
    ensures Table(h[r := f]) == if f.code == EMPTY then Table(h) else Table(h)[f.code := f]
  {
    StoreUpdatesMap(h, f, r);
  }
}
