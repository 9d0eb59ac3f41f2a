/** The emergency-room manager of emergencyroom.cpp: a
    `priority_queue` ordered by `ComparePatients`, the record of every
    admitted patient keyed by ID, and the history of assigned patients. The
    queue is modelled as the sequence of its entries, whose top is the first
    entry no other entry outranks; the record map is modelled as a sequence
    of records with distinct IDs in the order they were first admitted. */
module EmergencyHeap {
  import opened Common
  import opened Patients

  // ---------------------------------------------------------------------
  // ComparePatients
  // ---------------------------------------------------------------------

  /** `ComparePatients(a, b)`: `a` ranks below `b` in the queue. Higher
      severity ranks lower, then later arrival, then the younger patient. */
  predicate Lower(a: Patient, b: Patient)
  {
    if a.severity != b.severity then a.severity > b.severity
    else if a.arrivalTime != b.arrivalTime then a.arrivalTime > b.arrivalTime
    else a.age < b.age
  }

  /** The two patients agree on every field the comparison reads. */
  predicate Tied(a: Patient, b: Patient)
  {
    a.severity == b.severity && a.arrivalTime == b.arrivalTime && a.age == b.age
  }

  /** The comparison is a strict weak order whose ties are exactly the
      patients agreeing on severity, arrival and age; there is no further
      tie-break. */
  lemma LowerStrictWeak(a: Patient, b: Patient, c: Patient)
    ensures !Lower(a, a)
    ensures Lower(a, b) && Lower(b, c) ==> Lower(a, c)
    ensures Lower(a, c) ==> Lower(a, b) || Lower(b, c)
    ensures !Lower(a, b) && !Lower(b, a) <==> Tied(a, b)
  {
  }

  /** No entry of `q` outranks `x`. */
  predicate Highest(x: Patient, q: seq<Patient>)
  {
    forall y | y in q :: !Lower(x, y)
  }

  /** Who is seen first, stated field by field: the lowest severity, among
      those the earliest arrival, among those the greatest age. */
  predicate FirstInLine(x: Patient, q: seq<Patient>)
  {
    && (forall y | y in q :: x.severity <= y.severity)
    && (forall y | y in q && y.severity == x.severity :: x.arrivalTime <= y.arrivalTime)
    && (forall y | y in q && y.severity == x.severity && y.arrivalTime == x.arrivalTime :: x.age >= y.age)
  }

  /** The queue's notion of its top agrees with the field-by-field rule. */
  lemma HighestIsFirstInLine(x: Patient, q: seq<Patient>)
    ensures Highest(x, q) <==> FirstInLine(x, q)
  {
    if Highest(x, q) {
      forall y | y in q ensures x.severity <= y.severity {
        assert !Lower(x, y);
      }
      forall y | y in q && y.severity == x.severity ensures x.arrivalTime <= y.arrivalTime {
        assert !Lower(x, y);
      }
    }
  }

  /** `pq.top()`: the first entry that no entry outranks. Every entry before
      it ranks strictly below it. */
  function Top(q: seq<Patient>): (i: nat)
    requires q != []
    ensures i < |q|
    ensures forall j | 0 <= j < |q| :: !Lower(q[i], q[j])
    ensures forall j | 0 <= j < i :: Lower(q[j], q[i])
    decreases |q|
  {
    if |q| == 1 then 0
    else
      var p := q[..|q| - 1];
      var b := Top(p);
      assert forall j | 0 <= j < |q| - 1 :: p[j] == q[j];
      if Lower(q[b], q[|q| - 1]) then
        TopMoves(q, b);
        |q| - 1
      else b
  }

  /** The step of Top that moves to the last entry. */
  lemma TopMoves(q: seq<Patient>, b: int)
    requires 0 <= b < |q| - 1 && Lower(q[b], q[|q| - 1])
    requires forall j | 0 <= j < |q| - 1 :: !Lower(q[b], q[j])
    ensures forall j | 0 <= j < |q| :: !Lower(q[|q| - 1], q[j])
    ensures forall j | 0 <= j < |q| - 1 :: Lower(q[j], q[|q| - 1])
  {
    var t := q[|q| - 1];
    forall j | 0 <= j < |q| ensures !Lower(t, q[j]) {
      LowerStrictWeak(q[b], t, q[j]);
      LowerStrictWeak(t, t, t);
    }
    forall j | 0 <= j < |q| - 1 ensures Lower(q[j], t) {
      LowerStrictWeak(q[b], q[j], t);
    }
  }

  /** The queue without its `i`-th entry: what `pq.pop()` leaves. */
  function Without(q: seq<Patient>, i: int): (r: seq<Patient>)
    requires 0 <= i < |q|
    ensures |r| == |q| - 1
    ensures multiset(r) == multiset(q) - multiset{q[i]}
  {
    assert q == q[..i] + [q[i]] + q[i + 1..];
    q[..i] + q[i + 1..]
  }

  // ---------------------------------------------------------------------
  // The record map
  // ---------------------------------------------------------------------

  /** `allPatients.find(id)`: the record stored under `id`, if any. */
  function Get(all: seq<Patient>, id: int): (r: Option<Patient>)
    ensures r.Some? <==> id in Ids(all)
    ensures r.Some? ==> r.value in all && r.value.id == id
  {
    var i := FirstWhere(all, (x: Patient) => x.id == id);
    if i < |all| then Some(all[i])
    else
      assert forall x | x in all :: x.id != id;
      None
  }

  /** `allPatients[p.patientID] = p`: overwrite the record with that ID,
      or add one. */
  function Put(all: seq<Patient>, p: Patient): (r: seq<Patient>)
    ensures p in r
    ensures Ids(r) == Ids(all) + {p.id}
    ensures forall x | x in all && x.id != p.id :: x in r
    ensures forall x | x in r && x != p :: x in all
    ensures UniqueIds(all) ==> UniqueIds(r)
  {
    var i := FirstWhere(all, (x: Patient) => x.id == p.id);
    if i < |all| then
      PutAt(all, i, p);
      all[i := p]
    else
      assert p.id !in Ids(all);
      PutEnd(all, p);
      all + [p]
  }

  lemma PutAt(all: seq<Patient>, i: int, p: Patient)
    requires 0 <= i < |all| && all[i].id == p.id
    ensures var r := all[i := p];
      && p in r
      && Ids(r) == Ids(all) + {p.id}
      && (forall x | x in all && x.id != p.id :: x in r)
      && (forall x | x in r && x != p :: x in all)
      && (UniqueIds(all) ==> UniqueIds(r))
  {
    var r := all[i := p];
    assert r[i] == p;
    forall x | x in all && x.id != p.id ensures x in r {
      var k :| 0 <= k < |all| && all[k] == x;
      assert r[k] == x;
    }
    forall x | x in r && x != p ensures x in all {
      var k :| 0 <= k < |r| && r[k] == x;
      assert all[k] == x;
    }
    forall k | k in Ids(r) ensures k in Ids(all) + {p.id} {
      var x :| x in r && x.id == k;
    }
    forall k | k in Ids(all) ensures k in Ids(r) {
      var x :| x in all && x.id == k;
      if x.id == p.id {
        assert p in r;
      } else {
        assert x in r;
      }
    }
    assert forall a | 0 <= a < |r| :: r[a].id == all[a].id;
  }

  lemma PutEnd(all: seq<Patient>, p: Patient)
    requires p.id !in Ids(all)
    ensures UniqueIds(all) ==> UniqueIds(all + [p])
  {
    var r := all + [p];
    if UniqueIds(all) {
      forall i, j | 0 <= i < |r| && 0 <= j < |r| && i != j ensures r[i].id != r[j].id {
        if i < |all| && j < |all| {
        } else if i < |all| {
          assert r[i] in all;
        } else {
          assert r[j] in all;
        }
      }
    }
  }

  /** With distinct IDs a record is the one stored under its ID. */
  lemma GetUnique(all: seq<Patient>, x: Patient)
    requires UniqueIds(all) && x in all
    ensures Get(all, x.id) == Some(x)
  {
    var k :| 0 <= k < |all| && all[k] == x;
    var y := Get(all, x.id).value;
    var l :| 0 <= l < |all| && all[l] == y;
    assert l == k;
  }

  /** Storing a record changes what is stored under its ID and nothing else. */
  lemma GetPut(all: seq<Patient>, p: Patient, id: int)
    requires UniqueIds(all)
    ensures Get(Put(all, p), id) == if id == p.id then Some(p) else Get(all, id)
  {
    var r := Put(all, p);
    if id == p.id {
      GetUnique(r, p);
    } else if id in Ids(all) {
      var x := Get(all, id).value;
      assert x in r;
      GetUnique(r, x);
    }
  }

  /** The records of the patients not yet assigned, in record order: the
      patients the rebuilt queue receives. */
  function Unassigned(all: seq<Patient>): (r: seq<Patient>)
    ensures forall x :: x in r <==> x in all && x.assignedTime == -1
    ensures Ids(r) <= Ids(all)
    decreases |all|
  {
    if all == [] then []
    else
      var rest := Unassigned(all[1..]);
      assert forall x | x in all[1..] :: x in all;
      assert forall x | x in all :: x == all[0] || x in all[1..];
      if all[0].assignedTime == -1 then [all[0]] + rest else rest
  }

  lemma {:induction false} UnassignedUnique(all: seq<Patient>)
    requires UniqueIds(all)
    ensures UniqueIds(Unassigned(all))
    decreases |all|
  {
    if all != [] {
      var tail := all[1..];
      assert UniqueIds(tail) by {
        forall i, j | 0 <= i < |tail| && 0 <= j < |tail| && i != j ensures tail[i].id != tail[j].id {
          assert tail[i] == all[i + 1] && tail[j] == all[j + 1];
        }
      }
      UnassignedUnique(tail);
      var rest := Unassigned(tail);
      if all[0].assignedTime == -1 {
        assert all[0].id !in Ids(tail) by {
          forall x | x in tail ensures x.id != all[0].id {
            var k :| 0 <= k < |tail| && tail[k] == x;
            assert all[k + 1] == x;
          }
        }
        var r := [all[0]] + rest;
        forall i, j | 0 <= i < |r| && 0 <= j < |r| && i != j ensures r[i].id != r[j].id {
          if i > 0 && j > 0 {
            assert r[i] == rest[i - 1] && r[j] == rest[j - 1];
          } else if i == 0 {
            assert r[j] in rest;
          } else {
            assert r[i] in rest;
          }
        }
      }
    }
  }

  // ---------------------------------------------------------------------
  // The manager
  // ---------------------------------------------------------------------

  /** `EmergencyRoomManager`: `pq`, `allPatients` and `assignedPatients`. */
  datatype Manager = Manager(pq: seq<Patient>, all: seq<Patient>, history: seq<Patient>)

  /** What every operation keeps: records carry distinct IDs and every
      queued patient has a record. */
  predicate Valid(m: Manager)
  {
    UniqueIds(m.all) && Ids(m.pq) <= Ids(m.all)
  }

  /** Each queued patient is queued once and equals its record. */
  predicate Consistent(pq: seq<Patient>, all: seq<Patient>)
  {
    UniqueIds(pq) && forall x | x in pq :: Get(all, x.id) == Some(x)
  }

  /** `admitPatient(p)`: push onto the queue and store or overwrite the
      record under the ID. */
  function Admit(m: Manager, p: Patient): (r: Manager)
    requires Valid(m)
    ensures Valid(r) && r.history == m.history
    ensures multiset(r.pq) == multiset(m.pq) + multiset{p}
    ensures forall id :: Get(r.all, id) == if id == p.id then Some(p) else Get(m.all, id)
  {
    var r := Manager(m.pq + [p], Put(m.all, p), m.history);
    forall id ensures Get(r.all, id) == if id == p.id then Some(p) else Get(m.all, id) {
      GetPut(m.all, p, id);
    }
    assert Ids(r.pq) == Ids(m.pq) + {p.id} by {
      assert forall x | x in r.pq :: x in m.pq || x == p;
      assert forall x | x in m.pq :: x in r.pq;
    }
    r
  }

  /** Admitting a patient under a new ID keeps every queued patient equal
      to its record. */
  lemma AdmitConsistent(m: Manager, p: Patient)
    requires Valid(m) && Consistent(m.pq, m.all) && p.id !in Ids(m.all)
    ensures Consistent(Admit(m, p).pq, Admit(m, p).all)
  {
    var r := Admit(m, p);
    assert p.id !in Ids(m.pq);
    forall x | x in r.pq ensures Get(r.all, x.id) == Some(x) {
      if x != p {
        assert x in m.pq;
      }
    }
    forall i, j | 0 <= i < |r.pq| && 0 <= j < |r.pq| && i != j ensures r.pq[i].id != r.pq[j].id {
      if i < |m.pq| && j < |m.pq| {
        assert r.pq[i] == m.pq[i] && r.pq[j] == m.pq[j];
      } else if i < |m.pq| {
        assert r.pq[i] in m.pq;
      } else {
        assert r.pq[j] in m.pq;
      }
    }
  }

  /** The outcome of `updatePatientCondition`: one of its two refusals,
      which change nothing, or the updated manager. */
  datatype Updated = NotFound | AlreadyAssigned | Changed(m: Manager)

  /** `updatePatientCondition(id, severity)`: refuse an unknown ID or an
      assigned patient; otherwise store the record with the new severity and
      rebuild the queue from the records of all unassigned patients. */
  function Update(m: Manager, id: int, severity: int): (r: Updated)
    requires Valid(m)
    ensures r.NotFound? <==> id !in Ids(m.all)
    ensures r.AlreadyAssigned? <==> id in Ids(m.all) && Get(m.all, id).value.assignedTime != -1
    ensures r.Changed? ==>
      && Valid(r.m) && r.m.history == m.history
      && (forall k :: Get(r.m.all, k) == if k == id then Some(Get(m.all, id).value.(severity := severity)) else Get(m.all, k))
      && (forall x :: x in r.m.pq <==> x in r.m.all && x.assignedTime == -1)
      && Consistent(r.m.pq, r.m.all)
  {
    match Get(m.all, id)
    case None => NotFound
    case Some(p) =>
      if p.assignedTime != -1 then AlreadyAssigned
      else
        var all := Put(m.all, p.(severity := severity));
        var pq := Unassigned(all);
        forall k ensures Get(all, k) == if k == id then Some(p.(severity := severity)) else Get(m.all, k) {
          GetPut(m.all, p.(severity := severity), k);
        }
        UnassignedUnique(all);
        forall x | x in pq ensures Get(all, x.id) == Some(x) {
          GetUnique(all, x);
        }
        Changed(Manager(pq, all, m.history))
  }

  /** After an update the queue holds every unassigned patient exactly
      once, and no patient whose record is assigned. */
  lemma UpdateRequeuesWaiting(m: Manager, id: int, severity: int, k: int)
    requires Valid(m) && Update(m, id, severity).Changed?
    ensures var r := Update(m, id, severity).m;
      && Waiting(r.pq)
      && (k in Ids(r.pq) <==> k in Ids(r.all) && Get(r.all, k).value.assignedTime == -1)
  {
    var r := Update(m, id, severity).m;
    forall i | 0 <= i < |r.pq| ensures r.pq[i].assignedTime == -1 {
      assert r.pq[i] in r.pq;
    }
    if k in Ids(r.pq) {
      var x :| x in r.pq && x.id == k;
      assert Get(r.all, k) == Some(x);
    }
    if k in Ids(r.all) && Get(r.all, k).value.assignedTime == -1 {
      assert Get(r.all, k).value in r.pq;
    }
  }

  /** `allPatients[id].assignedTime = now`. */
  function Stamp(all: seq<Patient>, id: int, now: int): (r: seq<Patient>)
    requires id in Ids(all)
  {
    Put(all, Get(all, id).value.(assignedTime := now))
  }

  /** Stamping changes only the record under `id`. */
  lemma GetStamp(all: seq<Patient>, id: int, now: int)
    requires UniqueIds(all) && id in Ids(all)
    ensures var s := Stamp(all, id, now);
      && UniqueIds(s) && Ids(s) == Ids(all)
      && forall k :: Get(s, k) == if k == id then Some(Get(all, id).value.(assignedTime := now)) else Get(all, k)
  {
    forall k ensures Get(Stamp(all, id, now), k) == if k == id then Some(Get(all, id).value.(assignedTime := now)) else Get(all, k) {
      GetPut(all, Get(all, id).value.(assignedTime := now), k);
    }
  }

  /** Where the entries of Without come from. */
  lemma WithoutIndex(q: seq<Patient>, i: int)
    requires 0 <= i < |q|
    ensures forall k | 0 <= k < |q| - 1 :: Without(q, i)[k] == q[if k < i then k else k + 1]
    ensures forall x | x in Without(q, i) :: x in q
  {
  }

  /** Popping keeps the queued IDs distinct, and the popped ID leaves. */
  lemma WithoutUnique(q: seq<Patient>, i: int)
    requires 0 <= i < |q| && UniqueIds(q)
    ensures UniqueIds(Without(q, i))
    ensures q[i].id !in Ids(Without(q, i))
  {
    var r := Without(q, i);
    WithoutIndex(q, i);
    forall a, b | 0 <= a < |r| && 0 <= b < |r| && a != b ensures r[a].id != r[b].id {
      var a', b' := if a < i then a else a + 1, if b < i then b else b + 1;
      assert r[a] == q[a'] && r[b] == q[b'];
    }
    forall x | x in r ensures x.id != q[i].id {
      var k :| 0 <= k < |r| && r[k] == x;
      var k' := if k < i then k else k + 1;
      assert q[k'] == x;
    }
  }

  /** Appending a stamped record keeps every new history entry equal to its
      stamped record. */
  lemma HistoryStep(base: int, history: seq<Patient>, all: seq<Patient>, all': seq<Patient>, id: int, now: int)
    requires 0 <= base <= |history|
    requires forall j | base <= j < |history| ::
      history[j].assignedTime == now && Get(all, history[j].id) == Some(history[j])
    requires Get(all, id).Some?
    requires forall k :: Get(all', k) == if k == id then Some(Get(all, id).value.(assignedTime := now)) else Get(all, k)
    ensures var h := history + [Get(all', id).value];
      && h[..base] == history[..base]
      && forall j | base <= j < |h| :: h[j].assignedTime == now && Get(all', h[j].id) == Some(h[j])
  {
    var h := history + [Get(all', id).value];
    assert h[..base] == history[..base];
    forall j | base <= j < |h| ensures h[j].assignedTime == now && Get(all', h[j].id) == Some(h[j]) {
      if j < |history| {
        assert h[j] == history[j];
      }
    }
  }

  /** The loop invariant of AssignDoctors. */
  predicate Assigning(m: Manager, pq: seq<Patient>, all: seq<Patient>, history: seq<Patient>, count: int, now: int)
  {
    && 0 <= count <= |m.pq|
    && |pq| == |m.pq| - count
    && multiset(pq) <= multiset(m.pq)
    && UniqueIds(all) && Ids(all) == Ids(m.all) && Ids(pq) <= Ids(all)
    && |history| == |m.history| + count && history[..|m.history|] == m.history
    && (forall i | |m.history| <= i < |history| ::
          history[i].assignedTime == now && Get(all, history[i].id) == Some(history[i]))
  }

  /** A record with its assignment time set to `now`; none stays none. */
  function Stamped(o: Option<Patient>, now: int): (r: Option<Patient>)
    ensures r.Some? <==> o.Some?
    ensures r.Some? ==> r.value.assignedTime == now && r.value.id == o.value.id
  {
    match o
    case None => None
    case Some(x) => Some(x.(assignedTime := now))
  }

  /** The bookkeeping part of the loop invariant: `popped` lists the queue
      entries taken so far, in order; each new history entry is the popped
      ID's original record stamped with `now`; the records of popped IDs
      are stamped and every other record is as it was. */
  ghost predicate Popped(m: Manager, pq: seq<Patient>, all: seq<Patient>, history: seq<Patient>, popped: seq<Patient>, now: int)
  {
    && |history| == |m.history| + |popped|
    && multiset(popped) + multiset(pq) == multiset(m.pq)
    && HistoryMatches(|m.history|, history, popped, m.all, now)
    && RecordsMatch(all, popped, m.all, now)
  }

  /** From `base` on, the history holds the stamped original records of the
      popped IDs, in the order they were popped. */
  ghost predicate HistoryMatches(base: int, history: seq<Patient>, popped: seq<Patient>, original: seq<Patient>, now: int)
    requires 0 <= base && |history| == base + |popped|
  {
    forall j | 0 <= j < |popped| ::
      Get(original, popped[j].id).Some? && Some(history[base + j]) == Stamped(Get(original, popped[j].id), now)
  }

  /** The records of popped IDs are their original records stamped with
      `now`; every other record is the original one. */
  ghost predicate RecordsMatch(all: seq<Patient>, popped: seq<Patient>, original: seq<Patient>, now: int)
  {
    forall k :: Get(all, k) == if k in Ids(popped) then Stamped(Get(original, k), now) else Get(original, k)
  }

  /** The ordering part of the loop invariant, when the queue starts out
      consistent with the records. */
  predicate InOrder(m: Manager, pq: seq<Patient>, all: seq<Patient>, history: seq<Patient>)
    requires |m.history| <= |history|
  {
    && Consistent(pq, all)
    && (forall i, y | |m.history| <= i < |history| && y in pq :: !Lower(history[i], y))
    && (forall i, j | |m.history| <= i < j < |history| :: !Lower(history[i], history[j]))
  }

  /** `assignDoctors(available)`: read the clock once, then while the queue
      is not empty and doctors remain, pop the top, stamp its record with the
      time and append the record to the history. */
  method AssignDoctors(m: Manager, available: int, clock: nat) returns (r: Manager, count: int, ghost popped: seq<Patient>)
    requires Valid(m)
    ensures count == if available <= 0 then 0 else if available < |m.pq| then available else |m.pq|
    ensures Valid(r) && Assigning(m, r.pq, r.all, r.history, count, clock % 100000)
    ensures |popped| == count && multiset(popped) + multiset(r.pq) == multiset(m.pq)
    ensures forall j | 0 <= j < count ::
      Some(r.history[|m.history| + j]) == Stamped(Get(m.all, popped[j].id), clock % 100000)
    ensures forall k :: Get(r.all, k) == if k in Ids(popped) then Stamped(Get(m.all, k), clock % 100000) else Get(m.all, k)
    ensures forall j, y | 0 <= j < count && y in r.pq :: !Lower(popped[j], y)
    ensures forall a, b | 0 <= a < b < count :: !Lower(popped[a], popped[b])
    ensures Consistent(m.pq, m.all) ==> InOrder(m, r.pq, r.all, r.history)
  {
    var now := clock % 100000;
    var pq, all, history, left := m.pq, m.all, m.history, available;
    count := 0;
    popped := [];
    assert history[..|m.history|] == m.history;
    assert Ids(popped) == {};
    while pq != [] && left > 0
      invariant Loop(m, pq, all, history, popped, now) && |popped| == count
      invariant left == available - count
      invariant if available > 0 then count <= available else count == 0
      decreases |pq|
    {
      var i := Top(pq);
      LoopStep(m, pq, all, history, popped, now, i);
      var top := pq[i];
      var pq', all' := Without(pq, i), Stamp(all, top.id, now);
      var entry := Get(all', top.id).value;
      pq, all, history := pq', all', history + [entry];
      popped := popped + [top];
      left := left - 1;
      count := count + 1;
    }
    r := Manager(pq, all, history);
    LoopMeans(m, r, popped, now);
  }

  /** The loop invariant of AssignDoctors, with `|popped|` patients
      assigned so far. */
  ghost predicate Loop(m: Manager, pq: seq<Patient>, all: seq<Patient>, history: seq<Patient>, popped: seq<Patient>, now: int)
  {
    && Assigning(m, pq, all, history, |popped|, now)
    && Popped(m, pq, all, history, popped, now)
    && (Consistent(m.pq, m.all) ==> InOrder(m, pq, all, history))
    && PopOrder(pq, popped)
  }

  /** Every popped entry ranks at least as high as every entry still queued
      and every entry popped after it. */
  predicate PopOrder(pq: seq<Patient>, popped: seq<Patient>)
  {
    && (forall j, y | 0 <= j < |popped| && y in pq :: !Lower(popped[j], y))
    && (forall a, b | 0 <= a < b < |popped| :: !Lower(popped[a], popped[b]))
  }

  /** Popping the top keeps PopOrder: the top outranks nothing left in the
      queue, and every earlier pop outranked it while it was queued. */
  lemma PopOrderStep(pq: seq<Patient>, popped: seq<Patient>, i: int)
    requires PopOrder(pq, popped) && pq != [] && i == Top(pq)
    ensures PopOrder(Without(pq, i), popped + [pq[i]])
  {
    var top, q', p' := pq[i], Without(pq, i), popped + [pq[i]];
    assert top in pq;
    WithoutIndex(pq, i);
    forall j, y | 0 <= j < |p'| && y in q' ensures !Lower(p'[j], y) {
      assert y in pq;
      var k :| 0 <= k < |pq| && pq[k] == y;
      if j == |popped| {
        assert !Lower(pq[i], pq[k]);
      } else {
        assert p'[j] == popped[j];
      }
    }
    forall a, b | 0 <= a < b < |p'| ensures !Lower(p'[a], p'[b]) {
      if b == |popped| {
        assert p'[a] == popped[a] && p'[b] == top;
      } else {
        assert p'[a] == popped[a] && p'[b] == popped[b];
      }
    }
  }

  /** One iteration of AssignDoctors keeps its loop invariant. */
  lemma LoopStep(m: Manager, pq: seq<Patient>, all: seq<Patient>, history: seq<Patient>, popped: seq<Patient>, now: int, i: int)
    requires Valid(m) && Loop(m, pq, all, history, popped, now) && pq != [] && i == Top(pq)
    ensures pq[i].id in Ids(all) && Get(Stamp(all, pq[i].id, now), pq[i].id).Some?
    ensures var top := pq[i];
      var all' := Stamp(all, top.id, now);
      Loop(m, Without(pq, i), all', history + [Get(all', top.id).value], popped + [top], now)
  {
    assert pq[i] in pq;
    GetStamp(all, pq[i].id, now);
    AssignStep(m, pq, all, history, |popped|, now, i);
    AssignFrame(m, pq, all, history, popped, now, i);
    PopOrderStep(pq, popped, i);
  }

  /** What the loop invariant says about the final state, spelled out. */
  lemma LoopMeans(m: Manager, r: Manager, popped: seq<Patient>, now: int)
    requires Loop(m, r.pq, r.all, r.history, popped, now)
    ensures Valid(r) && Assigning(m, r.pq, r.all, r.history, |popped|, now)
    ensures multiset(popped) + multiset(r.pq) == multiset(m.pq)
    ensures forall j | 0 <= j < |popped| ::
      Some(r.history[|m.history| + j]) == Stamped(Get(m.all, popped[j].id), now)
    ensures forall k :: Get(r.all, k) == if k in Ids(popped) then Stamped(Get(m.all, k), now) else Get(m.all, k)
    ensures forall j, y | 0 <= j < |popped| && y in r.pq :: !Lower(popped[j], y)
    ensures forall a, b | 0 <= a < b < |popped| :: !Lower(popped[a], popped[b])
    ensures Consistent(m.pq, m.all) ==> InOrder(m, r.pq, r.all, r.history)
  {
  }

  /** One iteration of AssignDoctors stamps exactly the popped ID's record
      and appends it to the history. */
  lemma AssignFrame(m: Manager, pq: seq<Patient>, all: seq<Patient>, history: seq<Patient>, popped: seq<Patient>, now: int, i: int)
    requires Ids(m.pq) <= Ids(m.all) && UniqueIds(all) && Ids(pq) <= Ids(all)
    requires Popped(m, pq, all, history, popped, now) && 0 <= i < |pq|
    ensures var top := pq[i];
      var all' := Stamp(all, top.id, now);
      Popped(m, Without(pq, i), all', history + [Get(all', top.id).value], popped + [top], now)
  {
    var top := pq[i];
    assert top in pq;
    assert top in multiset(m.pq);
    assert top in m.pq;
    assert Get(m.all, top.id).Some?;
    var all' := Stamp(all, top.id, now);
    var entry := Get(all', top.id).value;
    FrameMultiset(pq, popped, i);
    assert Some(entry) == Stamped(Get(m.all, top.id), now) by {
      FrameRecords(m.all, all, popped, top, now);
    }
    FrameHistory(|m.history|, history, popped, m.all, entry, top, now);
    FrameRecords(m.all, all, popped, top, now);
  }

  /** The parts of Popped, put together. */

  /** Popping one more entry keeps popped and queued entries together equal
      to the original queue. */
  lemma FrameMultiset(pq: seq<Patient>, popped: seq<Patient>, i: int)
    requires 0 <= i < |pq|
    ensures multiset(popped + [pq[i]]) + multiset(Without(pq, i)) == multiset(popped) + multiset(pq)
  {
    assert pq[i] in multiset(pq);
  }

  /** Stamping the popped ID's record keeps exactly the records of popped
      IDs stamped. */
  lemma FrameRecords(original: seq<Patient>, all: seq<Patient>, popped: seq<Patient>, top: Patient, now: int)
    requires UniqueIds(all) && top.id in Ids(all) && Get(original, top.id).Some?
    requires RecordsMatch(all, popped, original, now)
    ensures var all' := Stamp(all, top.id, now);
      && Some(Get(all', top.id).value) == Stamped(Get(original, top.id), now)
      && RecordsMatch(all', popped + [top], original, now)
  {
    var all' := Stamp(all, top.id, now);
    GetStamp(all, top.id, now);
    IdsAppend(popped, top);
    forall k ensures Get(all', k) == if k in Ids(popped + [top]) then Stamped(Get(original, k), now) else Get(original, k) {
      if k != top.id {
        assert Get(all', k) == Get(all, k);
      }
    }
  }

  /** Appending an entry adds its ID. */
  lemma IdsAppend(q: seq<Patient>, x: Patient)
    ensures Ids(q + [x]) == Ids(q) + {x.id}
  {
    forall y | y in q + [x] ensures y in q || y == x {
    }
  }

  /** Appending the stamped record of the popped ID keeps every new history
      entry equal to its popped ID's stamped original record. */
  lemma FrameHistory(base: nat, history: seq<Patient>, popped: seq<Patient>, original: seq<Patient>, entry: Patient, top: Patient, now: int)
    requires |history| == base + |popped| && HistoryMatches(base, history, popped, original, now)
    requires Get(original, top.id).Some? && Some(entry) == Stamped(Get(original, top.id), now)
    ensures HistoryMatches(base, history + [entry], popped + [top], original, now)
  {
    var h, p := history + [entry], popped + [top];
    forall j | 0 <= j < |p|
      ensures Get(original, p[j].id).Some? && Some(h[base + j]) == Stamped(Get(original, p[j].id), now)
    {
      if j < |popped| {
        assert p[j] == popped[j] && h[base + j] == history[base + j];
      }
    }
  }

  /** One iteration of AssignDoctors keeps its invariant. */
  lemma AssignStep(m: Manager, pq: seq<Patient>, all: seq<Patient>, history: seq<Patient>, count: int, now: int, i: int)
    requires Assigning(m, pq, all, history, count, now) && pq != [] && i == Top(pq)
    ensures var top := pq[i];
      var all' := Stamp(all, top.id, now);
      Assigning(m, Without(pq, i), all', history + [Get(all', top.id).value], count + 1, now)
    ensures Consistent(m.pq, m.all) && InOrder(m, pq, all, history) ==>
      var top := pq[i];
      var all' := Stamp(all, top.id, now);
      InOrder(m, Without(pq, i), all', history + [Get(all', top.id).value])
  {
    var top := pq[i];
    assert top in pq;
    GetStamp(all, top.id, now);
    WithoutIndex(pq, i);
    HistoryStep(|m.history|, history, all, Stamp(all, top.id, now), top.id, now);
    if Consistent(m.pq, m.all) && InOrder(m, pq, all, history) {
      AssignStepOrder(m, pq, all, history, now, i);
    }
  }

  /** The ordering half of AssignStep. */
  lemma AssignStepOrder(m: Manager, pq: seq<Patient>, all: seq<Patient>, history: seq<Patient>, now: int, i: int)
    requires |m.history| <= |history| && InOrder(m, pq, all, history)
    requires UniqueIds(all) && pq != [] && i == Top(pq) && pq[i].id in Ids(all)
    ensures var top := pq[i];
      var all' := Stamp(all, top.id, now);
      InOrder(m, Without(pq, i), all', history + [Get(all', top.id).value])
  {
    var top := pq[i];
    assert top in pq;
    GetStamp(all, top.id, now);
    assert Get(Stamp(all, top.id, now), top.id).value == top.(assignedTime := now);
    PopConsistent(pq, all, now, i);
    PopOutranked(|m.history|, pq, history, now, i);
    PopOrdered(|m.history|, history, top, now);
  }

  /** Popping the top and stamping its record keeps the rest of the queue
      equal to its records. */
  lemma PopConsistent(pq: seq<Patient>, all: seq<Patient>, now: int, i: int)
    requires Consistent(pq, all) && UniqueIds(all) && 0 <= i < |pq| && pq[i].id in Ids(all)
    ensures Consistent(Without(pq, i), Stamp(all, pq[i].id, now))
  {
    var top := pq[i];
    GetStamp(all, top.id, now);
    WithoutIndex(pq, i);
    WithoutUnique(pq, i);
    forall x | x in Without(pq, i) ensures Get(Stamp(all, top.id, now), x.id) == Some(x) {
      assert x.id != top.id;
    }
  }

  /** Nobody left in the queue outranks an assigned patient. */
  lemma PopOutranked(base: int, pq: seq<Patient>, history: seq<Patient>, now: int, i: int)
    requires 0 <= base <= |history| && pq != [] && i == Top(pq)
    requires forall a, y | base <= a < |history| && y in pq :: !Lower(history[a], y)
    ensures var h := history + [pq[i].(assignedTime := now)];
      forall a, y | base <= a < |h| && y in Without(pq, i) :: !Lower(h[a], y)
  {
    var h := history + [pq[i].(assignedTime := now)];
    WithoutIndex(pq, i);
    forall a, y | base <= a < |h| && y in Without(pq, i) ensures !Lower(h[a], y) {
      if a < |history| {
        assert h[a] == history[a];
      } else {
        var k :| 0 <= k < |pq| && pq[k] == y;
      }
    }
  }

  /** Patients are assigned in queue order. */
  lemma PopOrdered(base: int, history: seq<Patient>, top: Patient, now: int)
    requires 0 <= base <= |history|
    requires forall a, b | base <= a < b < |history| :: !Lower(history[a], history[b])
    requires forall a | base <= a < |history| :: !Lower(history[a], top)
    ensures var h := history + [top.(assignedTime := now)];
      forall a, b | base <= a < b < |h| :: !Lower(h[a], h[b])
  {
    var h := history + [top.(assignedTime := now)];
    forall a, b | base <= a < b < |h| ensures !Lower(h[a], h[b]) {
      assert h[a] == history[a];
      if b < |history| {
        assert h[b] == history[b];
      }
    }
  }

  /** `getAverageWaitingTime(severity)`: the mean wait of every assigned
      patient of that severity, 0 if there are none. */
  function AverageWaitingTime(m: Manager, severity: int): (r: real)
    ensures (forall i | 0 <= i < |m.history| :: m.history[i].severity != severity) ==> r == 0.0
  {
    AverageWait(m.history, (p: Patient) => p.severity == severity)
  }
}
