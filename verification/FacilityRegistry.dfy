/**
 The facility registry: reading its file with all the checks for duplicates and standard facilities, looking
 facilities up by code and by name, and the snapshot. First over a map, then over the hash table.
 */
module FacilityRegistry {
  import opened Options
  import opened Primes
  import opened FacilityHash

  const POSIX_LOG_MEMSTR_MAXLEN: nat := 128

  /** A 64-bit number as the 32-bit facility code it becomes. */
  function Truncate(num: int): (code: nat)
    ensures code <= EMPTY
  {
    num % 0x1_0000_0000
  }

  function Upper(c: char): char {
    if 'a' <= c <= 'z' then ((c as int) - 32) as char else c
  }

  /** Names compare without regard to case. */
  predicate SameName(a: string, b: string) {
    |a| == |b| && forall i :: 0 <= i < |a| ==> Upper(a[i]) == Upper(b[i])
  }

  function Truncated(name: string): string {
    if |name| >= POSIX_LOG_MEMSTR_MAXLEN then name[..POSIX_LOG_MEMSTR_MAXLEN - 1] else name
  }

  /** A standard facility. */
  datatype Pair = Pair(value: nat, name: string)

  /** The standard facilities have different values and names, and none is the reserved value. */
  predicate ProperTable(std: seq<Pair>) {
    && (forall i :: 0 <= i < |std| ==> std[i].value < EMPTY && std[i].name != "")
    && (forall i, j :: 0 <= i < j < |std| ==> std[i].value != std[j].value && !SameName(std[i].name, std[j].name))
  }

  predicate NoneReserved(std: seq<Pair>) {
    forall i :: 0 <= i < |std| ==> std[i].value != EMPTY
  }

  /** A line of the registry file, as its tokens. badFilter: the filter is no query, for another reason than a lock. */
  datatype Line = Comment | Malformed | Entry(num: int, name: string, accessFlags: nat, filter: string, badFilter: bool)

  // ---------------------------------------------------------------------------------------------------------
  // Reading, over a map

  /** added counts what was put in the table, as the registry's own counter does. */
  datatype Registry = Registry(facs: map<nat, Facility>, added: nat, errors: nat)

  predicate NameTaken(facs: map<nat, Facility>, name: string) {
    exists c :: c in facs && SameName(facs[c].name, name)
  }

  /** The value of the first standard facility of that name, or EMPTY. */
  function ValueOf(std: seq<Pair>, name: string): nat {
    if std == [] then EMPTY else if SameName(std[0].name, name) then std[0].value else ValueOf(std[1..], name)
  }

  predicate IsStandardValue(std: seq<Pair>, value: nat) {
    exists i :: 0 <= i < |std| && std[i].value == value
  }

  predicate StandardMatches(std: seq<Pair>, code: nat, name: string) {
    if ValueOf(std, name) != EMPTY then code == ValueOf(std, name) else !IsStandardValue(std, code)
  }

  predicate Acceptable(r: Registry, line: Line, std: seq<Pair>) {
    line.Entry? && line.num != EMPTY
    && Truncate(line.num) !in r.facs && !NameTaken(r.facs, Truncated(line.name))
    && StandardMatches(std, Truncate(line.num), Truncated(line.name))
  }

  function ToFacility(line: Line): Facility
    requires line.Entry?
  {
    Facility(Truncate(line.num), Truncated(line.name), line.accessFlags, line.filter)
  }

  /** One line read: an error, nothing, or a facility put under its code, except that EMPTY marks an unused slot. */
  function ReadLine(r: Registry, line: Line, std: seq<Pair>): Registry {
    if line.Comment? then r
    else if !Acceptable(r, line, std) then r.(errors := r.errors + 1)
    else if line.badFilter then r
    else if Truncate(line.num) == EMPTY then r.(added := r.added + 1)
    else r.(facs := r.facs[Truncate(line.num) := ToFacility(line)], added := r.added + 1)
  }

  function ReadLines(lines: seq<Line>, std: seq<Pair>): Registry {
    if lines == [] then Registry(map[], 0, 0)
    else ReadLine(ReadLines(lines[..|lines| - 1], std), lines[|lines| - 1], std)
  }

  function Missing(facs: map<nat, Facility>, std: seq<Pair>): nat {
    if std == [] then 0
    else Missing(facs, std[..|std| - 1]) + if std[|std| - 1].value in facs then 0 else 1
  }

  /** The registry is used only when no line was in error and no standard facility is missing. */
  predicate Accepted(lines: seq<Line>, std: seq<Pair>) {
    ReadLines(lines, std).errors == 0 && Missing(ReadLines(lines, std).facs, std) == 0
  }

  // ---------------------------------------------------------------------------------------------------------
  // What holds of every registry read

  /** Each facility is under its code, no two names are the same, and the standard facilities are as they should be. */
  predicate Consistent(r: Registry, std: seq<Pair>) {
    && |r.facs| <= r.added
    && (forall c :: c in r.facs ==> c < EMPTY && r.facs[c].code == c && StandardMatches(std, c, r.facs[c].name))
    && (forall c, d :: c in r.facs && d in r.facs && c != d ==> !SameName(r.facs[c].name, r.facs[d].name))
  }

  lemma {:induction false} SameNameSymmetric(a: string, b: string)
    ensures SameName(a, b) <==> SameName(b, a)
  {
  }

  lemma {:induction false} ReadsAreConsistent(lines: seq<Line>, std: seq<Pair>)
    ensures Consistent(ReadLines(lines, std), std)
  {
    if lines != [] {
      var n := |lines| - 1;
      ReadsAreConsistent(lines[..n], std);
      LineKeepsConsistent(ReadLines(lines[..n], std), lines[n], std);
    }
  }

  lemma {:induction false} AddKeepsConsistent(r: Registry, f: Facility, std: seq<Pair>)
    requires Consistent(r, std) && f.code < EMPTY && f.code !in r.facs
    requires !NameTaken(r.facs, f.name) && StandardMatches(std, f.code, f.name)
    ensures Consistent(r.(facs := r.facs[f.code := f], added := r.added + 1), std)
  {
    hide StandardMatches, SameName;
    var facs := r.facs[f.code := f];
    forall c | c in r.facs ensures !SameName(r.facs[c].name, f.name) && !SameName(f.name, r.facs[c].name) {
      SameNameSymmetric(r.facs[c].name, f.name);
    }
  }

  lemma {:induction false} LineKeepsConsistent(r: Registry, line: Line, std: seq<Pair>)
    requires Consistent(r, std)
    ensures Consistent(ReadLine(r, line, std), std)
  {
    hide StandardMatches, SameName, Truncate, Truncated, NameTaken;
    if Acceptable(r, line, std) && !line.badFilter && Truncate(line.num) != EMPTY {
      AddKeepsConsistent(r, ToFacility(line), std);
    }
  }

  /** What a search by name returns: a code with that name, or EMPTY when there is none. */
  predicate IsCodeFor(facs: map<nat, Facility>, name: string, r: nat) {
    if r == EMPTY then !NameTaken(facs, name) else r in facs && SameName(facs[r].name, name)
  }

  /** In every registry read, code to name to code is the identity. */
  lemma {:induction false} CodeNameCode(lines: seq<Line>, std: seq<Pair>, code: nat, found: nat)
    requires var facs := ReadLines(lines, std).facs;
      code in facs && IsCodeFor(facs, facs[code].name, found)
    ensures found == code
  {
    ReadsAreConsistent(lines, std);
    var facs := ReadLines(lines, std).facs;
    assert SameName(facs[code].name, facs[code].name);
  }

  /** And the code found for a name is the only one whose facility has that name, up to case. */
  lemma {:induction false} NameCodeName(lines: seq<Line>, std: seq<Pair>, name: string, found: nat)
    requires IsCodeFor(ReadLines(lines, std).facs, name, found)
    ensures var facs := ReadLines(lines, std).facs;
      forall c <- facs :: SameName(facs[c].name, name) <==> c == found
  {
    hide SameName;
    ReadsAreConsistent(lines, std);
    var facs := ReadLines(lines, std).facs;
    hide ReadLines;
    if found in facs {
      forall c <- facs
        ensures SameName(facs[c].name, name) ==> c == found
      {
        SameNameMeets(facs[c].name, facs[found].name, name);
      }
    }
  }

  lemma {:induction false} ValueOfEach(std: seq<Pair>, name: string, i: nat)
    requires ProperTable(std) && i < |std|
    ensures SameName(std[i].name, name) ==> ValueOf(std, name) == std[i].value
    ensures ValueOf(std, name) == std[i].value ==> SameName(std[i].name, name)
  {
    if SameName(std[0].name, name) {
      SameNameMeets(std[0].name, std[i].name, name);
    } else if i > 0 {
      ValueOfEach(std[1..], name, i - 1);
    } else {
      ValueElsewhere(std[1..], name, std[0].value);
    }
  }

  lemma {:induction false} ValueElsewhere(std: seq<Pair>, name: string, value: nat)
    requires value != EMPTY && forall i :: 0 <= i < |std| ==> std[i].value != value
    ensures ValueOf(std, name) != value
  {
    if std != [] {
      ValueElsewhere(std[1..], name, value);
    }
  }

  lemma {:induction false} SameNameMeets(a: string, b: string, c: string)
    ensures SameName(a, c) && SameName(b, c) ==> SameName(a, b)
  {
  }

  lemma {:induction false} NothingMissing(facs: map<nat, Facility>, std: seq<Pair>, i: nat)
    requires Missing(facs, std) == 0 && i < |std|
    ensures std[i].value in facs
  {
    if i < |std| - 1 {
      NothingMissing(facs, std[..|std| - 1], i);
    }
  }

  /** An accepted registry has every standard facility under its own code with its own name. */
  lemma {:induction false} AcceptedHasStandard(lines: seq<Line>, std: seq<Pair>, i: nat)
    requires ProperTable(std) && Accepted(lines, std) && i < |std|
    ensures var facs := ReadLines(lines, std).facs;
      std[i].value in facs && SameName(std[i].name, facs[std[i].value].name)
  {
    ReadsAreConsistent(lines, std);
    var facs := ReadLines(lines, std).facs;
    NothingMissing(facs, std, i);
    ValueOfEach(std, facs[std[i].value].name, i);
  }

  // ---------------------------------------------------------------------------------------------------------
  // The reserved number

  /** Line i is in order when its turn comes, and its event filter is no reason to leave it out. */
  predicate InOrderAt(lines: seq<Line>, std: seq<Pair>, i: nat)
    requires i < |lines|
  {
    Acceptable(ReadLines(lines[..i], std), lines[i], std) && !lines[i].badFilter
  }

  /** What was read stays as it is, and under its code, while the rest of the file is read. */
  lemma {:induction false} FacilitiesStay(lines: seq<Line>, std: seq<Pair>, i: nat)
    requires i <= |lines|
    ensures var facs, before := ReadLines(lines, std).facs, ReadLines(lines[..i], std).facs;
      forall c <- before :: c in facs && facs[c] == before[c]
    decreases |lines|
  {
    hide StandardMatches, NameTaken, Truncate, Truncated;
    if i == |lines| {
      assert lines[..i] == lines;
    } else {
      var n := |lines| - 1;
      assert lines[..n][..i] == lines[..i];
      FacilitiesStay(lines[..n], std, i);
    }
  }

  /** A line in order is found in the registry read from the whole file exactly when its code is not the reserved. */
  lemma {:induction false} FoundExactlyWhen(lines: seq<Line>, std: seq<Pair>, i: nat)
    requires i < |lines| && InOrderAt(lines, std, i)
    ensures ReadLines(lines[..i + 1], std).errors == ReadLines(lines[..i], std).errors
    ensures var facs, code := ReadLines(lines, std).facs, Truncate(lines[i].num);
      && (code in facs <==> code != EMPTY)
      && (code in facs ==> facs[code] == ToFacility(lines[i]))
  {
    hide StandardMatches, NameTaken, Truncated;
    ReadsAreConsistent(lines, std);
    assert lines[..i + 1][..i] == lines[..i];
    FacilitiesStay(lines, std, i + 1);
  }

  /** And nothing else is in it: every facility comes from a line that was in order. */
  lemma {:induction false} EveryFacilityHasItsLine(lines: seq<Line>, std: seq<Pair>, code: nat) returns (i: nat)
    requires code in ReadLines(lines, std).facs
    ensures i < |lines| && InOrderAt(lines, std, i)
    ensures Truncate(lines[i].num) == code && ReadLines(lines, std).facs[code] == ToFacility(lines[i])
    decreases |lines|
  {
    hide StandardMatches, NameTaken, Truncated, Truncate;
    var n := |lines| - 1;
    if code in ReadLines(lines[..n], std).facs {
      i := EveryFacilityHasItsLine(lines[..n], std, code);
      assert lines[..n][..i] == lines[..i];
    } else {
      i := n;
    }
  }

  /**
   The reserved number is refused as 4294967295. Every other 64-bit number with the same low half is taken without an
   error wherever its line stands, and the registry read from the whole file has no such facility.
   */
  lemma {:induction false} ReservedNumberSlipsThrough(lines: seq<Line>, std: seq<Pair>, i: nat, k: int)
    requires i < |lines| && lines[i].Entry? && lines[i].num == EMPTY + k * 0x1_0000_0000 && !lines[i].badFilter
    requires var name := Truncated(lines[i].name);
      !NameTaken(ReadLines(lines[..i], std).facs, name) && ValueOf(std, name) == EMPTY && !IsStandardValue(std, EMPTY)
    ensures var r, r' := ReadLines(lines[..i], std), ReadLines(lines[..i + 1], std);
      && (r' == if k == 0 then r.(errors := r.errors + 1) else r.(added := r.added + 1))
      && EMPTY !in ReadLines(lines, std).facs
  {
    hide NameTaken, Truncated, ValueOf, IsStandardValue;
    assert Truncate(lines[i].num) == EMPTY;
    assert lines[..i + 1][..i] == lines[..i];
    ReadsAreConsistent(lines, std);
    ReadsAreConsistent(lines[..i], std);
  }

  // ---------------------------------------------------------------------------------------------------------
  // Over the hash table

  /** Each facility of the map once. */
  predicate Lists(pairs: seq<Pair>, facs: map<nat, Facility>) {
    && |pairs| == |facs|
    && (forall i, j :: 0 <= i < j < |pairs| ==> pairs[i].value != pairs[j].value)
    && (forall i :: 0 <= i < |pairs| ==> pairs[i].value in facs && pairs[i].name == facs[pairs[i].value].name)
    && (forall c :: c in facs ==> exists i :: 0 <= i < |pairs| && pairs[i].value == c)
  }

  lemma {:induction false} ListsOneMore(pairs: seq<Pair>, facs: map<nat, Facility>, f: Facility)
    requires Lists(pairs, facs) && f.code !in facs
    ensures Lists(pairs + [Pair(f.code, f.name)], facs[f.code := f])
  {
    var more, bigger := pairs + [Pair(f.code, f.name)], facs[f.code := f];
    assert more[|pairs|] == Pair(f.code, f.name);
    forall c | c in bigger ensures exists k :: 0 <= k < |more| && more[k].value == c {
      if c != f.code {
        var k :| 0 <= k < |pairs| && pairs[k].value == c;
        assert more[k].value == c;
      }
    }
  }

  lemma {:induction false} ListNext(pairs: seq<Pair>, h: seq<Facility>, i: nat)
    requires Distinct(h) && i < |h| && Lists(pairs, Table(h[..i]))
    ensures Lists(if h[i].code == EMPTY then pairs else pairs + [Pair(h[i].code, h[i].name)], Table(h[..i + 1]))
  {
    hide Table, Lists;
    TableNext(h, i);
    if h[i].code != EMPTY {
      ListsOneMore(pairs, Table(h[..i]), h[i]);
    }
  }

  lemma {:induction false} NothingListed(h: seq<Facility>)
    requires Distinct(h)
    ensures Lists([], Table(h[..0]))
  {
  }

  /** Once as many are listed as there are, the rest of the table is unused. */
  lemma {:induction false} ListedAll(pairs: seq<Pair>, h: seq<Facility>, n: nat)
    requires Distinct(h) && n <= |h| && Lists(pairs, Table(h[..n])) && |Table(h)| <= |pairs|
    ensures Table(h[..n]) == Table(h)
  {
    hide Table;
    var part, whole := Table(h[..n]), Table(h);
    forall c | c in part ensures c in whole && whole[c] == part[c] {
      var i :| 0 <= i < n && h[..n][i].code == c;
      assert h[i].code == c && h[..n][i] == h[i];
    }
    assert part.Keys <= whole.Keys && |part.Keys| >= |whole.Keys|;
    if part.Keys != whole.Keys {
      assert exists c :: c in whole.Keys && c !in part.Keys;
      var c :| c in whole.Keys && c !in part.Keys;
      SubsetSize(part.Keys, whole.Keys - {c});
    }
  }

  lemma {:induction false} SubsetSize(a: set<nat>, b: set<nat>)
    requires a <= b
    ensures |a| <= |b|
  {
    if a != {} {
      var x :| x in a;
      SubsetSize(a - {x}, b - {x});
    }
  }

  lemma {:induction false} AtLeastOneSlot(h: seq<Facility>)
    requires Probed(h)
    ensures 0 < |h| && Distinct(h)
  {
  }

  lemma {:induction false} NoSlotMeansFull(h: seq<Facility>, code: nat)
    requires Distinct(h) && IsSlotFor(h, code, -1)
    ensures Full(h) && code !in Table(h)
  {
  }

  /** The entry's code or name stands for a standard facility with another name or code. */
  method CheckPosixFacility(facNum: nat, facName: string, std: seq<Pair>) returns (ok: bool)
    ensures ok <==> StandardMatches(std, facNum, facName)
  {
    var posixFacNum := EMPTY;
    var i := 0;
    while i < |std|
      invariant i <= |std| && ValueOf(std, facName) == ValueOf(std[i..], facName)
    {
      assert std[i..][0] == std[i] && std[i..][1..] == std[i + 1..];
      if SameName(std[i].name, facName) {
        posixFacNum := std[i].value;
        break;
      }
      i := i + 1;
    }
    assert posixFacNum == ValueOf(std, facName);
    var isPosixNum := false;
    i := 0;
    while i < |std| && !isPosixNum
      invariant i <= |std|
      invariant isPosixNum ==> IsStandardValue(std, facNum)
      invariant !isPosixNum ==> forall k :: 0 <= k < i ==> std[k].value != facNum
    {
      isPosixNum := std[i].value == facNum;
      i := i + 1;
    }
    if posixFacNum != EMPTY {
      return facNum == posixFacNum;
    }
    return !isPosixNum;
  }

  class FacReg {
    var frNFacilities: nat
    var frHash: array<Facility>

    ghost predicate Valid()
      reads this, frHash
    {
      Probed(frHash[..]) && TakenForPrime(frHash.Length)
    }

    ghost function Facs(): map<nat, Facility>
      requires Valid()
      reads this, frHash
    {
      Table(frHash[..])
    }

    /** An empty registry of the capacity or the next prime above it. */
    constructor (capacity: nat)
      ensures Valid() && fresh(frHash) && frNFacilities == 0 && Facs() == map[]
    {
      var size := NextPrimeUp(capacity);
      var none := new Facility[0](_ => UNUSED);
      var hash := ReallocFacHash(none, size);
      frNFacilities := 0;
      frHash := hash;
      new;
      assert Table(frHash[..]) == map[];
    }

    /** Adds a facility, growing the table when it is full. */
    method AddFacToHash(f: Facility)
      requires Valid()
      modifies this, frHash
      ensures Valid() && frNFacilities == old(frNFacilities) + 1
      ensures frHash == old(frHash) || (fresh(frHash) && old(Full(frHash[..])) && f.code !in old(Facs()))
      ensures Facs() == if f.code == EMPTY then old(Facs()) else old(Facs())[f.code := f]
    {
      hide Probed, IsSlotFor, Table;
      assert 0 < frHash.Length && Distinct(frHash[..]) by { AtLeastOneSlot(frHash[..]); }
      var slot := FindHashSlotFor(f.code, frHash);
      if slot == -1 {
        NoSlotMeansFull(frHash[..], f.code);
        var newSize := NextPrimeUp(frHash.Length * 2);
        ghost var before := frHash[..];
        var newHash := ReallocFacHash(frHash, newSize);
        frHash := newHash;
        AtLeastOneSlot(newHash[..]);
        slot := FindHashSlotFor(f.code, frHash);
        TableSize(before);
        RoomFor(frHash[..], f.code, slot);
      }
      ghost var was := frHash[..];
      StoreAt(was, f, slot);
      frHash[slot] := f;
      assert frHash[..] == was[slot := f];
      frNFacilities := frNFacilities + 1;
    }

    method GetFacNameByCode(facNum: nat) returns (name: Option<string>)
      requires Valid()
      ensures name == if facNum in Facs() then Some(Facs()[facNum].name) else None
    {
      hide Table;
      var i := FindHashSlotFor(facNum, frHash);
      if facNum != EMPTY {
        ProbeFindsWhatIsStored(frHash[..], facNum, i);
      }
      if i == -1 || frHash[i].code == EMPTY {
        return None;
      }
      return Some(frHash[i].name);
    }

    method GetFacCodeByCIName(name: string) returns (code: nat)
      requires Valid()
      ensures IsCodeFor(Facs(), name, code)
    {
      hide Table, SameName;
      var i := 0;
      while i < frHash.Length
        invariant i <= frHash.Length
        invariant forall k :: 0 <= k < i && frHash[k].code != EMPTY ==> !SameName(frHash[k].name, name)
      {
        if frHash[i].code != EMPTY && SameName(frHash[i].name, name) {
          assert frHash[..][i].code in Facs();
          return frHash[i].code;
        }
        i := i + 1;
      }
      forall c | c in Facs() ensures !SameName(Facs()[c].name, name) {
        var k :| 0 <= k < |frHash[..]| && frHash[..][k].code == c;
      }
      return EMPTY;
    }

    /** All facilities as pairs of code and name, each once. */
    method Snapshot() returns (pairs: seq<Pair>)
      requires Valid() && |Facs()| <= frNFacilities
      ensures Lists(pairs, Facs())
    {
      hide Table, Lists;
      pairs := [];
      ghost var h := frHash[..];
      NothingListed(h);
      var i := 0;
      while i < frHash.Length
        invariant i <= frHash.Length && Lists(pairs, Table(h[..i])) && |pairs| <= frNFacilities
      {
        ListNext(pairs, h, i);
        if frHash[i].code != EMPTY {
          pairs := pairs + [Pair(frHash[i].code, frHash[i].name)];
          if |pairs| >= frNFacilities {
            ListedAll(pairs, h, i + 1);
            return;
          }
        }
        i := i + 1;
      }
      assert h[..i] == h;
    }

    /** One line; returns whether it is in error. */
    method TakeLine(line: Line, std: seq<Pair>, ghost r: Registry) returns (error: bool)
      requires Valid() && Facs() == r.facs && frNFacilities == r.added
      modifies this, frHash
      ensures Valid() && (frHash == old(frHash) || fresh(frHash))
      ensures var t := ReadLine(r, line, std);
        Facs() == t.facs && frNFacilities == t.added && t.errors == r.errors + if error then 1 else 0
    {
      match line
      case Comment => return false;
      case Malformed => return true;
      case Entry(num, name, accessFlags, filter, badFilter) =>
        if num == EMPTY {
          return true;
        }
        var facNum, facName := Truncate(num), Truncated(name);
        var dupFacName := GetFacNameByCode(facNum);
        if dupFacName.Some? {
          return true;
        }
        var dupFacNum := GetFacCodeByCIName(facName);
        if dupFacNum != EMPTY {
          assert NameTaken(Facs(), facName);
          return true;
        }
        var standard := CheckPosixFacility(facNum, facName, std);
        if !standard {
          return true;
        }
        if !badFilter {
          AddFacToHash(Facility(facNum, facName, accessFlags, filter));
        }
        return false;
    }

    method CheckMissingPosixFacilities(std: seq<Pair>) returns (missing: nat)
      requires Valid() && NoneReserved(std)
      ensures missing == Missing(Facs(), std)
    {
      hide Table;
      missing := 0;
      var i := 0;
      while i < |std|
        invariant i <= |std| && missing == Missing(Facs(), std[..i])
      {
        assert std[..i + 1][..i] == std[..i];
        var slot := FindHashSlotFor(std[i].value, frHash);
        ProbeFindsWhatIsStored(frHash[..], std[i].value, slot);
        if slot == -1 || frHash[slot].code == EMPTY {
          missing := missing + 1;
        }
        i := i + 1;
      }
      assert std[..i] == std;
    }
  }

  /** Reads the registry file; no registry when anything was wrong with it. */
  method ReadFacilities(lines: seq<Line>, std: seq<Pair>, capacity: nat) returns (facReg: FacReg?)
    requires NoneReserved(std)
    ensures facReg != null <==> Accepted(lines, std)
    ensures facReg != null ==> fresh(facReg) && facReg.Valid() && facReg.Facs() == ReadLines(lines, std).facs
    ensures facReg != null ==> facReg.frNFacilities == ReadLines(lines, std).added >= |facReg.Facs()|
  {
    hide ReadLine, Missing, Table;
    var newFacReg := new FacReg(capacity);
    var nErrors := 0;
    var i := 0;
    while i < |lines|
      invariant i <= |lines| && fresh(newFacReg) && fresh(newFacReg.frHash) && newFacReg.Valid()
      invariant var r := ReadLines(lines[..i], std);
        newFacReg.Facs() == r.facs && newFacReg.frNFacilities == r.added && nErrors == r.errors
    {
      assert lines[..i + 1][..i] == lines[..i];
      var error := newFacReg.TakeLine(lines[i], std, ReadLines(lines[..i], std));
      if error {
        nErrors := nErrors + 1;
      }
      i := i + 1;
    }
    assert lines[..i] == lines;
    var missing := newFacReg.CheckMissingPosixFacilities(std);
    nErrors := nErrors + missing;
    ReadsAreConsistent(lines, std);
    return if nErrors == 0 then newFacReg else null;
  }
}
