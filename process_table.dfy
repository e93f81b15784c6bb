/**
 * The sandbox's process table: a fixed array of 1024 optional processes,
 * indexed by virtual pid minus one, with a hint where to look for a free slot.
 */
module ProcessTables {
  import opened Ints
  import opened Wrappers
  import opened ProtocolTypes

  const PID_LIMIT: nat := 1024

  datatype State = Spawning
  datatype Process = Process(sys_pid: SysPid, state: State)

  /** `pid_to_index`: pids 1 to 1024 name slots 0 to 1023; any other pid names none. */
  function PidToIndex(pid: VPid): (r: Option<nat>)
    ensures r.Some? <==> 1 <= pid.pid <= PID_LIMIT
    ensures r.Some? ==> r.value < PID_LIMIT && r.value == pid.pid - 1
  {
    if pid.pid >= 1 && pid.pid <= PID_LIMIT then Some(pid.pid - 1) else None
  }

  /** `index_to_pid`: slot `index` belongs to pid `index + 1`. */
  function IndexToPid(index: nat): (pid: VPid)
    requires index < PID_LIMIT
    ensures 1 <= pid.pid <= PID_LIMIT
  {
    VPid(1 + index)
  }

  /** `index_to_pid` undoes `pid_to_index`. */
  lemma PidRoundTrip(pid: VPid)
    requires PidToIndex(pid).Some?
    ensures IndexToPid(PidToIndex(pid).value) == pid
  {
  }

  /** `pid_to_index` undoes `index_to_pid`. */
  lemma IndexRoundTrip(index: nat)
    requires index < PID_LIMIT
    ensures PidToIndex(IndexToPid(index)) == Some(index)
  {
  }

  /** The slot `k` steps after `start`, going round the table. */
  function Probe(start: nat, k: nat): (i: nat)
    ensures i < PID_LIMIT
  {
    (start + k) % PID_LIMIT
  }

  /** Going round the table from any start reaches every slot within 1024 steps. */
  lemma ProbeCovers(start: nat, i: nat)
    requires start < PID_LIMIT && i < PID_LIMIT
    ensures Probe(start, (i + PID_LIMIT - start) % PID_LIMIT) == i
  {
  }

  class ProcessTable {
    const table: array<Option<Process>>
    var next_potentially_unused_index: nat

    ghost predicate Valid()
      reads this
    {
      table.Length == PID_LIMIT && next_potentially_unused_index < PID_LIMIT
    }

    /** `ProcessTable::new`: every slot empty. */
    constructor ()
      ensures Valid() && fresh(table) && next_potentially_unused_index == 0
      ensures forall i :: 0 <= i < PID_LIMIT ==> table[i].None?
    {
      table := new Option<Process>[PID_LIMIT](_ => None);
      next_potentially_unused_index := 0;
    }

    /** `get`: the process stored under `pid`, if the pid is in range and its slot is used. */
    function Get(pid: VPid): (r: Option<Process>)
      reads this, table
      requires Valid()
      ensures r.Some? ==> PidToIndex(pid).Some? && table[PidToIndex(pid).value] == r
      ensures PidToIndex(pid).Some? ==> r == table[PidToIndex(pid).value]
    {
      match PidToIndex(pid)
      case None => None
      case Some(index) => table[index]
    }

    /** `free`: take the process out of its slot and hand it back. */
    method Free(pid: VPid) returns (r: Option<Process>)
      requires Valid()
      modifies table
      ensures Valid()
      ensures r == old(Get(pid)) && Get(pid).None?
      ensures forall i :: 0 <= i < PID_LIMIT && Some(i) != PidToIndex(pid) ==> table[i] == old(table[i])
    {
      var index := PidToIndex(pid);
      if index.None? {
        return None;
      }
      r := table[index.value];
      table[index.value] := None;
    }

    /** `unused_index`, searching round the table for an empty slot from the hint. */
    method UnusedIndex() returns (r: Option<nat>)
      requires Valid()
      ensures r.Some? ==> r.value < PID_LIMIT && table[r.value].None?
      ensures r.Some? ==> forall k :: 0 <= k < PID_LIMIT && Probe(next_potentially_unused_index, k) == r.value ==>
        forall j :: 0 <= j < k ==> table[Probe(next_potentially_unused_index, j)].Some?
      ensures r.None? <==> forall i :: 0 <= i < PID_LIMIT ==> table[i].Some?
    {
      var start := next_potentially_unused_index;
      var counter := 0;
      var index := start;
      while counter < PID_LIMIT && table[index].Some?
        invariant counter <= PID_LIMIT && index == Probe(start, counter)
        invariant forall j :: 0 <= j < counter ==> table[Probe(start, j)].Some?
      {
        counter := counter + 1;
        index := (index + 1) % PID_LIMIT;
      }
      if table[index].None? {
        r := Some(index);
        forall k | 0 <= k < PID_LIMIT && Probe(start, k) == index
          ensures forall j :: 0 <= j < k ==> table[Probe(start, j)].Some?
        {
          assert k <= counter;
        }
        assert table[index].None?;
      } else {
        r := None;
        forall i | 0 <= i < PID_LIMIT
          ensures table[i].Some?
        {
          ProbeCovers(start, i);
        }
      }
    }

    /**
     * `unused_index` as the loop is written: it continues while the slot is
     * empty, so it stops at the first used slot and answers there.
     */
    method UnusedIndexAsWritten() returns (r: Option<nat>)
      requires Valid()
      ensures r.Some? <==> forall i :: 0 <= i < PID_LIMIT ==> table[i].None?
      ensures r.Some? ==> r.value == next_potentially_unused_index
    {
      var start := next_potentially_unused_index;
      var counter := 0;
      var index := start;
      while counter < PID_LIMIT && table[index].None?
        invariant counter <= PID_LIMIT && index == Probe(start, counter)
        invariant forall j :: 0 <= j < counter ==> table[Probe(start, j)].None?
      {
        counter := counter + 1;
        index := (index + 1) % PID_LIMIT;
      }
      if table[index].None? {
        r := Some(index);
        forall i | 0 <= i < PID_LIMIT
          ensures table[i].None?
        {
          ProbeCovers(start, i);
        }
      } else {
        r := None;
      }
    }

    /** `allocate`, on the corrected search: store the process in a free slot and return its pid. */
    method Allocate(process: Process) returns (r: Result<VPid, Process>)
      requires Valid()
      modifies this`next_potentially_unused_index, table
      ensures Valid()
      ensures r.Ok? <==> exists i :: 0 <= i < PID_LIMIT && old(table[i]).None?
      ensures r.Ok? ==> PidToIndex(r.value).Some? && old(Get(r.value)).None? && Get(r.value) == Some(process)
      ensures r.Ok? ==> next_potentially_unused_index == r.value.pid % PID_LIMIT
      ensures r.Ok? ==> forall k :: 0 <= k < PID_LIMIT && Probe(old(next_potentially_unused_index), k) == r.value.pid - 1 ==>
        forall j :: 0 <= j < k ==> old(table[Probe(next_potentially_unused_index, j)]).Some?
      ensures r.Ok? ==> forall i :: 0 <= i < PID_LIMIT && Some(i) != PidToIndex(r.value) ==> table[i] == old(table[i])
      ensures r.Err? ==> r.error == process && unchanged(table) && unchanged(this)
    {
      var found := UnusedIndex();
      if found.None? {
        return Err(process);
      }
      var index := found.value;
      next_potentially_unused_index := (index + 1) % PID_LIMIT;
      table[index] := Some(process);
      r := Ok(IndexToPid(index));
    }

    /** `allocate` on the search as written. */
    method AllocateAsWritten(process: Process) returns (r: Result<VPid, Process>)
      requires Valid()
      modifies this`next_potentially_unused_index, table
      ensures Valid()
      ensures r.Ok? <==> forall i :: 0 <= i < PID_LIMIT ==> old(table[i]).None?
      ensures r.Ok? ==> r.value == IndexToPid(old(next_potentially_unused_index)) && Get(r.value) == Some(process)
      ensures r.Ok? ==> forall i :: 0 <= i < PID_LIMIT && i != old(next_potentially_unused_index) ==> table[i] == old(table[i])
      ensures r.Err? ==> r.error == process && unchanged(table) && unchanged(this)
    {
      var found := UnusedIndexAsWritten();
      if found.None? {
        return Err(process);
      }
      var index := found.value;
      next_potentially_unused_index := (index + 1) % PID_LIMIT;
      table[index] := Some(process);
      r := Ok(IndexToPid(index));
    }
  }

  /** With the loop as written, a second process can never be allocated, although 1023 slots are free. */
  method AsWrittenSecondAllocationFails(p: Process, q: Process) returns (first: Result<VPid, Process>, second: Result<VPid, Process>)
    ensures first == Ok(VPid(1)) && second == Err(q)
  {
    var t := new ProcessTable();
    first := t.AllocateAsWritten(p);
    assert t.table[0].Some?;
    second := t.AllocateAsWritten(q);
  }

  /** With the corrected search, consecutive allocations take consecutive pids. */
  method SecondAllocationSucceeds(p: Process, q: Process) returns (first: Result<VPid, Process>, second: Result<VPid, Process>)
    ensures first == Ok(VPid(1)) && second == Ok(VPid(2))
  {
    var t := new ProcessTable();
    assert forall k :: 0 <= k < PID_LIMIT ==> Probe(0, k) == k;
    assert t.table[0].None? && Probe(0, 0) == 0;
    first := t.Allocate(p);
    assert Probe(0, first.value.pid - 1) == first.value.pid - 1;
    assert first.value.pid == 1;
    assert t.table[1].None? && Probe(1, 0) == 1;
    second := t.Allocate(q);
    assert Probe(1, second.value.pid - 2) == second.value.pid - 1;
  }
}
