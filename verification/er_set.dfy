/** The emergency-room manager of Q1_EmergencyRoom.cpp: waiting patients in
    a `std::set` ordered by `PatientCompare`, a map from patient ID to the
    set element, and the history of assigned patients. The set is modelled
    as the strictly increasing sequence of its elements, and a map entry as
    the element its iterator points at. */
module EmergencySet {
  import opened Common
  import opened Patients

  // ---------------------------------------------------------------------
  // PatientCompare
  // ---------------------------------------------------------------------

  /** `PatientCompare`: lower severity first, then earlier arrival, then
      the older patient, then the lower ID. */
  predicate Before(a: Patient, b: Patient)
  {
    if a.severity != b.severity then a.severity < b.severity
    else if a.arrivalTime != b.arrivalTime then a.arrivalTime < b.arrivalTime
    else if a.age != b.age then a.age > b.age
    else a.id < b.id
  }

  /** The fields the comparison reads, with age negated so that every
      component is compared in ascending order. */
  function Key(p: Patient): seq<int>
  {
    [p.severity, p.arrivalTime, -p.age, p.id]
  }

  /** Lexicographic order on integer sequences of the same length. */
  predicate LexLess(x: seq<int>, y: seq<int>)
    requires |x| == |y|
    decreases |x|
  {
    |x| > 0 && (x[0] < y[0] || (x[0] == y[0] && LexLess(x[1..], y[1..])))
  }

  /** The comparison is the lexicographic order on keys. */
  lemma BeforeIsLex(a: Patient, b: Patient)
    ensures Before(a, b) <==> LexLess(Key(a), Key(b))
  {
    var x, y := Key(a), Key(b);
    var x1, y1 := x[1..], y[1..];
    var x2, y2 := x1[1..], y1[1..];
    var x3, y3 := x2[1..], y2[1..];
    assert x3 == [a.id] && y3 == [b.id] && x3[1..] == [];
    assert LexLess(x3, y3) <==> a.id < b.id;
    assert x2 == [-a.age, a.id] && y2 == [-b.age, b.id];
    assert LexLess(x2, y2) <==> -a.age < -b.age || (a.age == b.age && a.id < b.id);
    assert x1 == [a.arrivalTime, -a.age, a.id] && y1 == [b.arrivalTime, -b.age, b.id];
  }

  /** The comparison is a strict total order on keys: irreflexive,
      asymmetric, transitive, and any two patients with different keys are
      ordered one way or the other. */
  lemma BeforeStrictTotal(a: Patient, b: Patient, c: Patient)
    ensures !Before(a, a)
    ensures Before(a, b) ==> !Before(b, a)
    ensures Before(a, b) && Before(b, c) ==> Before(a, c)
    ensures Before(a, b) || Before(b, a) || Key(a) == Key(b)
  {
  }

  /** Neither precedes the other: the set treats the two as one element. */
  predicate Equivalent(a: Patient, b: Patient)
  {
    !Before(a, b) && !Before(b, a)
  }

  /** Equivalent patients are exactly those with equal keys; in particular
      they carry the same ID. */
  lemma EquivalentIffSameKey(a: Patient, b: Patient)
    ensures Equivalent(a, b) <==> Key(a) == Key(b)
    ensures Equivalent(a, b) ==> a.id == b.id
  {
    BeforeStrictTotal(a, b, a);
    if Key(a) == Key(b) {
      assert Key(a)[0] == Key(b)[0] && Key(a)[1] == Key(b)[1] && Key(a)[2] == Key(b)[2];
    }
  }

  // ---------------------------------------------------------------------
  // The ordered set
  // ---------------------------------------------------------------------

  /** Strictly increasing in comparator order. */
  predicate Sorted(q: seq<Patient>)
  {
    forall i, j | 0 <= i < j < |q| :: Before(q[i], q[j])
  }

  /** No element of `q` is equivalent to `p`. */
  predicate Apart(q: seq<Patient>, p: Patient)
  {
    forall i | 0 <= i < |q| :: !Equivalent(q[i], p)
  }

  /** `x` precedes every element of `q`. */
  predicate Precedes(x: Patient, q: seq<Patient>)
  {
    forall y | y in q :: Before(x, y)
  }

  lemma SortedCons(x: Patient, q: seq<Patient>)
    requires Sorted(q) && Precedes(x, q)
    ensures Sorted([x] + q)
  {
    forall i, j | 0 <= i < j < |[x] + q|
      ensures Before(([x] + q)[i], ([x] + q)[j])
    {
      if i > 0 {
        assert ([x] + q)[i] == q[i - 1] && ([x] + q)[j] == q[j - 1];
      } else {
        assert ([x] + q)[j] == q[j - 1] && q[j - 1] in q;
      }
    }
  }

  /** A sorted sequence without its `i`-th element is still sorted. */
  lemma SortedDelete(q: seq<Patient>, i: int)
    requires Sorted(q) && 0 <= i < |q|
    ensures Sorted(q[..i] + q[i + 1..])
  {
    var r := q[..i] + q[i + 1..];
    forall a, b | 0 <= a < b < |r|
      ensures Before(r[a], r[b])
    {
      var a', b' := if a < i then a else a + 1, if b < i then b else b + 1;
      assert r[a] == q[a'] && r[b] == q[b'];
    }
  }

  /** An element before the head of a sorted sequence precedes all of it. */
  lemma PrecedesSorted(p: Patient, q: seq<Patient>)
    requires Sorted(q) && q != [] && Before(p, q[0])
    ensures Precedes(p, q)
  {
    forall y | y in q ensures Before(p, y) {
      var k :| 0 <= k < |q| && q[k] == y;
      if k > 0 {
        BeforeStrictTotal(p, q[0], y);
      }
    }
  }

  /** The tail of a sorted sequence apart from `p` is sorted and apart from `p`. */
  lemma SortedTail(q: seq<Patient>, p: Patient)
    requires Sorted(q) && Apart(q, p) && q != []
    ensures Sorted(q[1..]) && Apart(q[1..], p)
  {
    assert forall k | 0 <= k < |q| - 1 :: q[1..][k] == q[k + 1];
  }

  /** The head of a sorted sequence precedes whatever the tail with `p`
      inserted holds, when it precedes `p` too. */
  lemma HeadPrecedes(q: seq<Patient>, p: Patient, rest: seq<Patient>)
    requires Sorted(q) && q != [] && Before(q[0], p)
    requires multiset(rest) == multiset(q[1..]) + multiset{p}
    ensures Precedes(q[0], rest)
  {
    forall y | y in rest ensures Before(q[0], y) {
      assert y in multiset(rest);
      if y != p {
        assert y in multiset(q[1..]);
        var k :| 0 <= k < |q[1..]| && q[1..][k] == y;
        assert y == q[k + 1];
      }
    }
  }

  /** The insertion step of `pq.insert(p)` once no equivalent element was
      found: `p` goes in at its place in the order. */
  function InsertSorted(q: seq<Patient>, p: Patient): (r: seq<Patient>)
    requires Sorted(q) && Apart(q, p)
    ensures Sorted(r) && multiset(r) == multiset(q) + multiset{p}
  {
    if q == [] then [p]
    else if Before(p, q[0]) then
      PrecedesSorted(p, q);
      SortedCons(p, q);
      [p] + q
    else
      BeforeStrictTotal(q[0], p, q[0]);
      SortedTail(q, p);
      var rest := InsertSorted(q[1..], p);
      HeadPrecedes(q, p, rest);
      SortedCons(q[0], rest);
      assert q == [q[0]] + q[1..];
      [q[0]] + rest
  }

  /** `pq.insert(p)`: the new set, the element the returned iterator points
      at, and whether `p` went in. An equivalent element already present
      keeps the set unchanged and is the one pointed at. */
  function SetInsert(q: seq<Patient>, p: Patient): (r: (seq<Patient>, Patient, bool))
    requires Sorted(q)
    ensures Sorted(r.0) && r.1 in r.0 && Equivalent(r.1, p)
    ensures r.2 <==> Apart(q, p)
    ensures r.2 ==> r.1 == p && multiset(r.0) == multiset(q) + multiset{p}
    ensures !r.2 ==> r.0 == q
  {
    var i := FirstWhere(q, x => Equivalent(x, p));
    if i < |q| then (q, q[i], false)
    else
      BeforeStrictTotal(p, p, p);
      var q' := InsertSorted(q, p);
      assert p in multiset(q');
      (q', p, true)
  }

  /** `pq.erase(it)` for an iterator pointing at `x`. */
  function Erase(q: seq<Patient>, x: Patient): (r: seq<Patient>)
    requires Sorted(q) && x in q
    ensures Sorted(r) && multiset(r) == multiset(q) - multiset{x} && |r| == |q| - 1
  {
    var i := FirstWhere(q, y => y == x);
    SortedDelete(q, i);
    assert q == q[..i] + [x] + q[i + 1..];
    q[..i] + q[i + 1..]
  }

  // ---------------------------------------------------------------------
  // The manager
  // ---------------------------------------------------------------------

  /** `EmergencyRoomManager`: the set `pq`, the map `lookup` (each entry
      standing for the element its iterator points at) and `assignedPatients`. */
  datatype Manager = Manager(pq: seq<Patient>, lookup: map<int, Patient>, history: seq<Patient>)

  /** What every operation keeps: the set is ordered and every map entry
      points at an element of the set carrying that ID. */
  predicate Valid(m: Manager)
  {
    && Sorted(m.pq)
    && forall id | id in m.lookup :: m.lookup[id] in m.pq && m.lookup[id].id == id
  }

  /** With distinct IDs the map is an index of the set: its keys are
      exactly the IDs in the set. */
  predicate Indexed(m: Manager)
  {
    UniqueIds(m.pq) && m.lookup.Keys == Ids(m.pq)
  }

  /** A new manager holds nothing. */
  lemma EmptyValid()
    ensures Valid(Manager([], map[], [])) && Indexed(Manager([], map[], []))
  {
  }

  /** The patient `admitPatient` inserts: a zero admission time is replaced
      by the clock reading `now`. */
  function Admitted(p: Patient, now: int): (r: Patient)
    ensures r.admissionTime == if p.admissionTime == 0 then now else p.admissionTime
    ensures r == p.(admissionTime := r.admissionTime)
  {
    if p.admissionTime == 0 then p.(admissionTime := now) else p
  }

  /** `admitPatient(p)`: insert into the set and, when the insertion took
      place, point the map entry of the ID at the new element. */
  function Admit(m: Manager, p: Patient, now: int): (r: Manager)
    requires Valid(m)
    ensures Valid(r) && r.history == m.history
    ensures var a := Admitted(p, now);
      if Apart(m.pq, a) then
        multiset(r.pq) == multiset(m.pq) + multiset{a} && r.lookup == m.lookup[p.id := a]
      else r == m
  {
    var a := Admitted(p, now);
    var (q, at, inserted) := SetInsert(m.pq, a);
    if inserted then
      var r := Manager(q, m.lookup[a.id := at], m.history);
      assert forall x | x in m.pq :: x in q by {
        forall x | x in m.pq ensures x in q {
          assert x in multiset(m.pq);
          assert x in multiset(q);
        }
      }
      r
    else m
  }

  /** Admitting a patient whose ID is not in the set keeps the map an index
      of the set. */
  lemma AdmitIndexed(m: Manager, p: Patient, now: int)
    requires Valid(m) && Indexed(m) && p.id !in Ids(m.pq)
    ensures Indexed(Admit(m, p, now))
  {
    var a := Admitted(p, now);
    var r := Admit(m, p, now);
    if Apart(m.pq, a) {
      forall x | true ensures x in r.pq <==> x in m.pq || x == a {
        assert x in r.pq <==> x in multiset(r.pq);
        assert x in m.pq <==> x in multiset(m.pq);
      }
      assert Ids(r.pq) == Ids(m.pq) + {p.id};
      forall i, j | 0 <= i < |r.pq| && 0 <= j < |r.pq| && i != j
        ensures r.pq[i].id != r.pq[j].id
      {
        AdmitIdsDistinct(m, r, a, i, j);
      }
    }
  }

  /** Two elements of an ordered set are distinct. */
  lemma SortedDistinct(q: seq<Patient>, i: int, j: int)
    requires Sorted(q) && 0 <= i < |q| && 0 <= j < |q| && i != j
    ensures q[i] != q[j]
  {
    BeforeStrictTotal(q[i], q[i], q[i]);
    BeforeStrictTotal(q[j], q[j], q[j]);
  }

  /** The ID-uniqueness step of AdmitIndexed. */
  lemma AdmitIdsDistinct(m: Manager, r: Manager, a: Patient, i: int, j: int)
    requires Sorted(r.pq) && UniqueIds(m.pq) && a.id !in Ids(m.pq)
    requires multiset(r.pq) == multiset(m.pq) + multiset{a}
    requires 0 <= i < |r.pq| && 0 <= j < |r.pq| && i != j
    ensures r.pq[i].id != r.pq[j].id
  {
    var x, y := r.pq[i], r.pq[j];
    SortedDistinct(r.pq, i, j);
    assert x in multiset(r.pq) && y in multiset(r.pq);
    if x == a {
      assert y in multiset(m.pq);
      assert y.id in Ids(m.pq);
    } else if y == a {
      assert x in multiset(m.pq);
      assert x.id in Ids(m.pq);
    } else {
      assert x in multiset(m.pq) && y in multiset(m.pq);
      var k :| 0 <= k < |m.pq| && m.pq[k] == x;
      var l :| 0 <= l < |m.pq| && m.pq[l] == y;
    }
  }

  /** The outcome of `updatePatientCondition`: one of its two exceptions,
      or the updated manager. */
  datatype Updated = NotFound | AlreadyAssigned | Changed(m: Manager)

  /** `updatePatientCondition(id, severity)`: throw for an ID without a map
      entry or an assigned patient; otherwise erase the element, set the new
      severity, insert it again and point the entry at the inserted
      element. */
  function Update(m: Manager, id: int, severity: int): (r: Updated)
    requires Valid(m)
    ensures r.NotFound? <==> id !in m.lookup
    ensures r.AlreadyAssigned? <==> id in m.lookup && m.lookup[id].assignedTime != -1
    ensures r.Changed? ==> Valid(r.m) && r.m.history == m.history && r.m.lookup.Keys == m.lookup.Keys
  {
    if id !in m.lookup then NotFound
    else if m.lookup[id].assignedTime != -1 then AlreadyAssigned
    else Changed(Reinsert(m, id, severity))
  }

  /** The successful part of `updatePatientCondition`: erase the element the
      entry points at, set the new severity, insert it again and point the
      entry at the inserted element. */
  function Reinsert(m: Manager, id: int, severity: int): (r: Manager)
    requires Valid(m) && id in m.lookup
    ensures Valid(r) && r.history == m.history && r.lookup.Keys == m.lookup.Keys
  {
    var p := m.lookup[id];
    var q := Erase(m.pq, p);
    var ins := SetInsert(q, p.(severity := severity));
    EquivalentIffSameKey(ins.1, p.(severity := severity));
    ReinsertKeeps(m, id, q, ins.0);
    Manager(ins.0, m.lookup[id := ins.1], m.history)
  }

  /** The other entries of the map still point into the set. */
  lemma ReinsertKeeps(m: Manager, id: int, q: seq<Patient>, q': seq<Patient>)
    requires Valid(m) && id in m.lookup
    requires multiset(q) == multiset(m.pq) - multiset{m.lookup[id]}
    requires multiset(q) <= multiset(q')
    ensures forall k | k in m.lookup && k != id :: m.lookup[k] in q'
  {
    forall k | k in m.lookup && k != id ensures m.lookup[k] in q' {
      var x := m.lookup[k];
      assert x != m.lookup[id] && x in multiset(m.pq);
      assert x in multiset(q);
      assert x in multiset(q');
    }
  }

  /** With distinct IDs a successful update replaces exactly the patient's
      element by one differing only in severity: the set keeps its size, the
      map entry points at the new element and the map stays an index. */
  lemma UpdateReplaces(m: Manager, id: int, severity: int)
    requires Valid(m) && Indexed(m) && id in m.lookup && m.lookup[id].assignedTime == -1
    ensures var p := m.lookup[id];
      var r := Update(m, id, severity);
      && r.Changed?
      && multiset(r.m.pq) == multiset(m.pq) - multiset{p} + multiset{p.(severity := severity)}
      && |r.m.pq| == |m.pq|
      && r.m.lookup == m.lookup[id := p.(severity := severity)]
      && Indexed(r.m)
  {
    var p := m.lookup[id];
    var p' := p.(severity := severity);
    var q := Erase(m.pq, p);
    var k :| 0 <= k < |m.pq| && m.pq[k] == p;
    UniqueCount(m.pq, k);
    EraseApart(m.pq, k, q, p');
    var r := Reinsert(m, id, severity);
    ReinsertInserts(m, id, severity, q);
    assert |r.pq| == |multiset(r.pq)| == |multiset(m.pq)| == |m.pq|;
    IndexAfterReplace(m, r, k, p');
    assert Update(m, id, severity) == Changed(r);
  }

  /** When nothing left after the erase is equivalent to the updated
      patient, the insertion goes through and the entry points at it. */
  lemma ReinsertInserts(m: Manager, id: int, severity: int, q: seq<Patient>)
    requires Valid(m) && id in m.lookup && q == Erase(m.pq, m.lookup[id])
    requires Apart(q, m.lookup[id].(severity := severity))
    ensures var p' := m.lookup[id].(severity := severity);
      && multiset(Reinsert(m, id, severity).pq) == multiset(q) + multiset{p'}
      && Reinsert(m, id, severity).lookup == m.lookup[id := p']
  {
  }

  /** Once the only element with its ID is erased, nothing left is
      equivalent to that element with another severity. */
  lemma EraseApart(q: seq<Patient>, k: int, q': seq<Patient>, p': Patient)
    requires UniqueIds(q) && 0 <= k < |q| && multiset(q)[q[k]] == 1 && p'.id == q[k].id
    requires multiset(q') == multiset(q) - multiset{q[k]}
    ensures Apart(q', p')
  {
    forall i | 0 <= i < |q'| ensures !Equivalent(q'[i], p') {
      var x := q'[i];
      assert x in multiset(q');
      assert x != q[k] && x in multiset(q);
      var l :| 0 <= l < |q| && q[l] == x;
      assert l != k;
      EquivalentIffSameKey(x, p');
    }
  }

  /** An element of a sequence with distinct IDs occurs once. */
  lemma UniqueCount(q: seq<Patient>, k: int)
    requires UniqueIds(q) && 0 <= k < |q|
    ensures multiset(q)[q[k]] == 1
  {
    var x := q[k];
    assert q == q[..k] + [x] + q[k + 1..];
    assert forall j | 0 <= j < k :: q[..k][j] != x;
    var tail := q[k + 1..];
    assert forall j | 0 <= j < |tail| :: tail[j] != x;
    assert x !in q[..k] && x !in q[k + 1..];
    assert multiset(q[..k])[x] == 0 && multiset(q[k + 1..])[x] == 0;
  }

  /** What replacing the `k`-th element leaves: every other element of the
      new set was there before at another position. */
  predicate ReplacedAt(q: seq<Patient>, k: int, r: seq<Patient>, p': Patient)
    requires 0 <= k < |q|
  {
    && p' in r
    && forall x | x in r && x != p' :: exists l :: 0 <= l < |q| && l != k && q[l] == x
  }

  lemma ReplacedAtHolds(q: seq<Patient>, k: int, r: seq<Patient>, p': Patient)
    requires 0 <= k < |q| && multiset(q)[q[k]] == 1
    requires multiset(r) == multiset(q) - multiset{q[k]} + multiset{p'}
    ensures ReplacedAt(q, k, r, p')
  {
    assert p' in multiset(r);
    forall x | x in r && x != p' ensures exists l :: 0 <= l < |q| && l != k && q[l] == x {
      assert x in multiset(r);
      assert x != q[k] && x in multiset(q);
      var l :| 0 <= l < |q| && q[l] == x;
    }
  }

  /** The index step of UpdateReplaces. */
  lemma IndexAfterReplace(m: Manager, r: Manager, k: int, p': Patient)
    requires Valid(m) && Indexed(m) && 0 <= k < |m.pq| && multiset(m.pq)[m.pq[k]] == 1
    requires m.pq[k].id in m.lookup && p'.id == m.pq[k].id
    requires Sorted(r.pq) && multiset(r.pq) == multiset(m.pq) - multiset{m.pq[k]} + multiset{p'}
    requires r.lookup.Keys == m.lookup.Keys
    ensures Indexed(r)
  {
    ReplacedAtHolds(m.pq, k, r.pq, p');
    ReplacedIds(m.pq, k, r.pq, p');
    forall i, j | 0 <= i < |r.pq| && 0 <= j < |r.pq| && i != j
      ensures r.pq[i].id != r.pq[j].id
    {
      ReplacedDistinct(m.pq, k, r.pq, p', i, j);
    }
  }

  lemma ReplacedIds(q: seq<Patient>, k: int, r: seq<Patient>, p': Patient)
    requires 0 <= k < |q| && ReplacedAt(q, k, r, p') && p'.id == q[k].id
    requires multiset(r) == multiset(q) - multiset{q[k]} + multiset{p'}
    ensures Ids(r) == Ids(q)
  {
    forall i | i in Ids(r) ensures i in Ids(q) {
      var x :| x in r && x.id == i;
      if x == p' { assert q[k] in q; } else { var l :| 0 <= l < |q| && l != k && q[l] == x; }
    }
    forall i | i in Ids(q) ensures i in Ids(r) {
      var x :| x in q && x.id == i;
      assert x in multiset(q);
      if x == q[k] { assert p' in r; } else { assert x in multiset(r); }
    }
  }

  lemma ReplacedDistinct(q: seq<Patient>, k: int, r: seq<Patient>, p': Patient, i: int, j: int)
    requires 0 <= k < |q| && UniqueIds(q) && ReplacedAt(q, k, r, p') && p'.id == q[k].id
    requires Sorted(r) && 0 <= i < |r| && 0 <= j < |r| && i != j
    ensures r[i].id != r[j].id
  {
    var x, y := r[i], r[j];
    assert x in r && y in r;
    SortedDistinct(r, i, j);
    if x == p' {
      var l :| 0 <= l < |q| && l != k && q[l] == y;
    } else if y == p' {
      var l :| 0 <= l < |q| && l != k && q[l] == x;
    } else {
      var l :| 0 <= l < |q| && l != k && q[l] == x;
      var l' :| 0 <= l' < |q| && l' != k && q[l'] == y;
    }
  }

  /** While every patient in the set is unassigned, the already-assigned
      exception of `updatePatientCondition` cannot occur. */
  lemma UpdateNeverAssigned(m: Manager, id: int, severity: int)
    requires Valid(m) && Waiting(m.pq)
    ensures !Update(m, id, severity).AlreadyAssigned?
  {
    if id in m.lookup {
      var k :| 0 <= k < |m.pq| && m.pq[k] == m.lookup[id];
    }
  }

  /** Every element of `q` is unassigned. */
  lemma WaitingFromMultiset(q: seq<Patient>, q': seq<Patient>, p: Patient)
    requires Waiting(q') && p.assignedTime == -1
    requires multiset(q) <= multiset(q') + multiset{p}
    ensures Waiting(q)
  {
    forall i | 0 <= i < |q| ensures q[i].assignedTime == -1 {
      assert q[i] in multiset(q);
      if q[i] != p {
        assert q[i] in multiset(q');
        var k :| 0 <= k < |q'| && q'[k] == q[i];
      }
    }
  }

  /** Admitting an unassigned patient keeps every waiting patient unassigned. */
  lemma AdmitWaiting(m: Manager, p: Patient, now: int)
    requires Valid(m) && Waiting(m.pq) && p.assignedTime == -1
    ensures Waiting(Admit(m, p, now).pq)
  {
    WaitingFromMultiset(Admit(m, p, now).pq, m.pq, Admitted(p, now));
  }

  /** An update keeps every waiting patient unassigned. */
  lemma UpdateWaiting(m: Manager, id: int, severity: int)
    requires Valid(m) && Waiting(m.pq) && Update(m, id, severity).Changed?
    ensures Waiting(Update(m, id, severity).m.pq)
  {
    var p := m.lookup[id];
    var k :| 0 <= k < |m.pq| && m.pq[k] == p;
    var q := Erase(m.pq, p);
    var r := Reinsert(m, id, severity);
    assert multiset(q) <= multiset(m.pq);
    assert multiset(r.pq) <= multiset(q) + multiset{p.(severity := severity)};
    WaitingFromMultiset(r.pq, m.pq, p.(severity := severity));
  }

  /** The clock readings stamped on the patients assigned, one per
      iteration. */
  function Stamp(q: seq<Patient>, clock: nat -> int): (r: seq<Patient>)
    ensures |r| == |q|
    ensures forall i | 0 <= i < |q| :: r[i] == q[i].(assignedTime := clock(i))
  {
    seq(|q|, i requires 0 <= i < |q| => q[i].(assignedTime := clock(i)))
  }

  /** `assignDoctors(available)`: up to `available` times take the first
      patient of the set, erase it and its map entry, stamp it with the
      clock reading of that iteration and append it to the history. */
  method AssignDoctors(m: Manager, available: int, clock: nat -> int) returns (r: Manager, count: int)
    requires Valid(m)
    ensures count == if available <= 0 then 0 else if available < |m.pq| then available else |m.pq|
    ensures r.pq == m.pq[count..]
    ensures r.history == m.history + Stamp(m.pq[..count], clock)
    ensures r.lookup == m.lookup - Ids(m.pq[..count])
  {
    var pq, lookup, history := m.pq, m.lookup, m.history;
    count := 0;
    while count < available && pq != []
      invariant 0 <= count <= |m.pq|
      invariant if available > 0 then count <= available else count == 0
      invariant pq == m.pq[count..]
      invariant history == m.history + Stamp(m.pq[..count], clock)
      invariant lookup == m.lookup - Ids(m.pq[..count])
      decreases |pq|
    {
      var p := pq[0];
      assert m.pq[..count + 1] == m.pq[..count] + [p];
      assert Ids(m.pq[..count + 1]) == Ids(m.pq[..count]) + {p.id};
      assert Stamp(m.pq[..count + 1], clock) == Stamp(m.pq[..count], clock) + [p.(assignedTime := clock(count))];
      pq := pq[1..];
      lookup := lookup - {p.id};
      history := history + [p.(assignedTime := clock(count))];
      count := count + 1;
    }
    assert pq == [] ==> count == |m.pq|;
    r := Manager(pq, lookup, history);
  }

  /** Assigning keeps the manager valid, assigns in comparator order ahead
      of everyone still waiting, and keeps the map an index of the set when
      the IDs are distinct. */
  lemma AssignValid(m: Manager, count: int, clock: nat -> int)
    requires Valid(m) && 0 <= count <= |m.pq|
    ensures var r := Manager(m.pq[count..], m.lookup - Ids(m.pq[..count]), m.history + Stamp(m.pq[..count], clock));
      && Valid(r)
      && Sorted(m.pq[..count])
      && (forall x, y | x in m.pq[..count] && y in r.pq :: Before(x, y))
      && (Indexed(m) ==> Indexed(r))
      && (Waiting(m.pq) ==> Waiting(r.pq))
  {
    var q, done := m.pq[count..], m.pq[..count];
    assert m.pq == done + q;
    AssignLookup(m, count);
    forall x, y | x in done && y in q ensures Before(x, y) {
      var k :| 0 <= k < |done| && done[k] == x;
      var l :| 0 <= l < |q| && q[l] == y;
      assert m.pq[k] == x && m.pq[count + l] == y;
    }
    if Indexed(m) {
      AssignKeys(m, count);
      AssignUnique(m, count);
    }
  }

  lemma AssignLookup(m: Manager, count: int)
    requires Valid(m) && 0 <= count <= |m.pq|
    ensures var lookup := m.lookup - Ids(m.pq[..count]);
      forall id | id in lookup :: lookup[id] in m.pq[count..]
  {
    var q, done := m.pq[count..], m.pq[..count];
    var lookup := m.lookup - Ids(done);
    forall id | id in lookup ensures lookup[id] in q {
      var x := lookup[id];
      var k :| 0 <= k < |m.pq| && m.pq[k] == x;
      assert forall k' | 0 <= k' < count :: m.pq[k'] == done[k'] && done[k'] in done;
      assert k >= count;
      assert x == q[k - count];
    }
  }

  lemma AssignKeys(m: Manager, count: int)
    requires Indexed(m) && 0 <= count <= |m.pq|
    ensures (m.lookup - Ids(m.pq[..count])).Keys == Ids(m.pq[count..])
  {
    IdsSplit(m.pq, count);
    IdsDisjoint(m.pq, count);
    assert (m.lookup - Ids(m.pq[..count])).Keys == m.lookup.Keys - Ids(m.pq[..count]);
  }

  lemma IdsSplit(q: seq<Patient>, count: int)
    requires 0 <= count <= |q|
    ensures Ids(q) == Ids(q[..count]) + Ids(q[count..])
  {
    assert q == q[..count] + q[count..];
    forall x | x in q ensures x in q[..count] || x in q[count..] {
      var k :| 0 <= k < |q| && q[k] == x;
      if k < count { assert q[..count][k] == x; } else { assert q[count..][k - count] == x; }
    }
  }

  lemma IdsDisjoint(q: seq<Patient>, count: int)
    requires UniqueIds(q) && 0 <= count <= |q|
    ensures Ids(q[..count]) !! Ids(q[count..])
  {
    forall x, y | x in q[..count] && y in q[count..] ensures x.id != y.id {
      var k :| 0 <= k < count && q[..count][k] == x;
      var l :| 0 <= l < |q| - count && q[count..][l] == y;
      assert q[k] == x && q[count + l] == y;
    }
  }

  lemma AssignUnique(m: Manager, count: int)
    requires UniqueIds(m.pq) && 0 <= count <= |m.pq|
    ensures UniqueIds(m.pq[count..])
  {
    var q := m.pq[count..];
    forall i, j | 0 <= i < |q| && 0 <= j < |q| && i != j ensures q[i].id != q[j].id {
      assert m.pq[count + i] == q[i] && m.pq[count + j] == q[j];
    }
  }

  /** `getAverageWaitingTime(severity)`: the mean wait of the assigned
      patients of that severity whose stamp is not negative, 0 if there are
      none. */
  function AverageWaitingTime(m: Manager, severity: int): (r: real)
    ensures (forall i | 0 <= i < |m.history| :: m.history[i].severity != severity || m.history[i].assignedTime < 0) ==> r == 0.0
  {
    AverageWait(m.history, (p: Patient) => p.severity == severity && p.assignedTime >= 0)
  }
}
