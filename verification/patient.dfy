/** The patient record both emergency-room managers work on. */
module Patients {
  /** `struct Patient`: severity 1 is critical, 2 urgent, 3 standard; times
      are minutes; `assignedTime` is -1 until a doctor takes the patient. */
  datatype Patient = Patient(
    id: int,
    name: string,
    severity: int,
    arrivalTime: int,
    age: int,
    admissionTime: int,
    assignedTime: int)

  /** The patients' IDs. */
  function Ids(q: seq<Patient>): set<int>
  {
    set p | p in q :: p.id
  }

  /** No two entries share an ID. */
  predicate UniqueIds(q: seq<Patient>)
  {
    forall i, j | 0 <= i < |q| && 0 <= j < |q| && i != j :: q[i].id != q[j].id
  }

  /** A waiting patient has not been assigned a doctor. */
  predicate Waiting(q: seq<Patient>)
  {
    forall i | 0 <= i < |q| :: q[i].assignedTime == -1
  }

  /** Minutes from admission to assignment. */
  function Wait(p: Patient): int
  {
    p.assignedTime - p.admissionTime
  }

  /** The waits of the history entries `counted` selects, added up. */
  function WaitSum(h: seq<Patient>, counted: Patient -> bool): int
  {
    if h == [] then 0 else (if counted(h[0]) then Wait(h[0]) else 0) + WaitSum(h[1..], counted)
  }

  /** How many history entries `counted` selects. */
  function WaitCount(h: seq<Patient>, counted: Patient -> bool): (c: nat)
    ensures c <= |h|
    ensures c == 0 <==> forall i | 0 <= i < |h| :: !counted(h[i])
  {
    if h == [] then 0
    else
      var c := (if counted(h[0]) then 1 else 0) + WaitCount(h[1..], counted);
      assert forall i | 1 <= i < |h| :: h[i] == h[1..][i - 1];
      c
  }

  /** `getAverageWaitingTime`: the mean wait of the selected entries, or
      0 when none is selected. */
  function AverageWait(h: seq<Patient>, counted: Patient -> bool): (r: real)
    ensures WaitCount(h, counted) == 0 ==> r == 0.0
    ensures WaitCount(h, counted) > 0 ==> r * (WaitCount(h, counted) as real) == WaitSum(h, counted) as real
  {
    var c := WaitCount(h, counted);
    if c == 0 then 0.0 else (WaitSum(h, counted) as real) / (c as real)
  }

  /** Sum and count are additive over appended history, so extending the
      history only adds the new entries' waits. */
  lemma {:induction false} WaitAppend(a: seq<Patient>, b: seq<Patient>, counted: Patient -> bool)
    ensures WaitSum(a + b, counted) == WaitSum(a, counted) + WaitSum(b, counted)
    ensures WaitCount(a + b, counted) == WaitCount(a, counted) + WaitCount(b, counted)
    decreases |a|
  {
    if a == [] {
      assert a + b == b;
    } else {
      assert (a + b)[0] == a[0] && (a + b)[1..] == a[1..] + b;
      WaitAppend(a[1..], b, counted);
    }
  }
}
