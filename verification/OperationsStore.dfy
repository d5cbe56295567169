/** internal/operations/store.go: the store object. Every method is one step of the machine in OperationsModel. */
module OperationsStore {
  import opened Text
  import opened OperationsModel

  const SCHEMA: int := 1

  predicate Distinct(s: seq<Record>) { forall i, j :: 0 <= i < j < |s| ==> s[i].id != s[j].id }

  predicate SortedByStart(s: seq<Record>) { forall i, j :: 0 <= i < j < |s| ==> s[i].startedAt <= s[j].startedAt }

  predicate IsOldest(s: seq<Record>, k: nat)
    requires k < |s|
  {
    forall j :: 0 <= j < |s| ==> s[k].startedAt <= s[j].startedAt
  }

  lemma {:induction false} OldestExists(s: seq<Record>)
    requires s != []
    ensures exists k: nat :: k < |s| && IsOldest(s, k)
  {
    var n := |s| - 1;
    if n == 0 {
      assert IsOldest(s, 0);
    } else {
      OldestExists(s[..n]);
      var k: nat :| k < n && IsOldest(s[..n], k);
      assert forall j :: 0 <= j < n ==> s[k].startedAt <= s[..n][j].startedAt;
      if s[k].startedAt <= s[n].startedAt { assert IsOldest(s, k); } else { assert IsOldest(s, n); }
    }
  }

  /** sort.Slice by start time: it is not stable, so records that started together may come in any order. */
  method SortByStart(all: seq<Record>) returns (sorted: seq<Record>)
    requires Distinct(all)
    ensures Distinct(sorted) && SortedByStart(sorted) && |sorted| == |all|
    ensures forall r :: r in sorted <==> r in all
  {
    sorted := [];
    var rest := all;
    while rest != []
      invariant |sorted| + |rest| == |all|
      invariant Distinct(sorted) && Distinct(rest) && SortedByStart(sorted)
      invariant forall r, q :: r in sorted && q in rest ==> r.id != q.id && r.startedAt <= q.startedAt
      invariant forall r :: r in all <==> r in sorted || r in rest
      decreases |rest|
    {
      OldestExists(rest);
      var k: nat :| k < |rest| && IsOldest(rest, k);
      var oldest, others := rest[k], rest[..k] + rest[k + 1..];
      TakeOut(rest, k);
      sorted, rest := sorted + [oldest], others;
    }
  }

  lemma TakeOut(s: seq<Record>, k: nat)
    requires k < |s| && Distinct(s) && IsOldest(s, k)
    ensures var t := s[..k] + s[k + 1..];
            && Distinct(t) && s[k] !in t
            && (forall r :: r in s <==> r == s[k] || r in t)
            && (forall q :: q in t ==> q.id != s[k].id && s[k].startedAt <= q.startedAt)
  {
    var t := s[..k] + s[k + 1..];
    assert forall j :: 0 <= j < |t| ==> t[j] == (if j < k then s[j] else s[j + 1]);
    assert forall j :: 0 <= j < |s| && j != k ==> s[j] == (if j < k then t[j] else t[j - 1]);
  }

  class OperationsFile {
    var schema: int
    var records: Option<Records>
    ghost var used: set<string>
    ghost var history: seq<Records>

    constructor ()
      ensures Found() == INIT
    {
      schema, records, used, history := SCHEMA, None, {}, [];
    }

    /** The world while no process runs. */
    ghost function Found(): World
      reads this
    {
      World(None, records, used, history)
    }

    /** persistLocked: an atomic write that succeeds or leaves the file alone. */
    method Write(rs: Records, ok: bool)
      modifies this
      ensures Found() == (if ok then Persist(old(Found()), rs) else old(Found()))
      ensures schema == (if ok then SCHEMA else old(schema))
    {
      if ok {
        schema, records, history := SCHEMA, Some(rs), history + [rs];
      }
    }
  }

  class OperationStore {
    const file: OperationsFile
    var records: Records

    constructor (file: OperationsFile, records: Records)
      ensures this.file == file && this.records == records
    {
      this.file, this.records := file, records;
    }

    ghost function View(): World
      reads this, file
    {
      file.Found().(memory := Some(records))
    }

    /** The loop of Open over the map: running records become interrupted. */
    static method Interrupt(rs: Records, now: int) returns (after: Records, changed: bool)
      ensures after == InterruptAll(rs, now)
      ensures changed <==> !NoneRunning(rs)
    {
      after, changed := rs, false;
      var rest := rs.Keys;
      while rest != {}
        invariant rest <= rs.Keys == after.Keys
        invariant forall id :: id in rs ==> after[id] == (if id in rest then rs[id] else InterruptAll(rs, now)[id])
        invariant changed <==> exists id :: id in rs && id !in rest && rs[id].status.Running?
        decreases rest
      {
        var id :| id in rest;
        rest := rest - {id};
        var rec := after[id];
        if rec.status.Running? {
          rec := rec.(status := Interrupted, finishedAt := Some(now), errorCode := "process_restarted");
          after := after[id := rec];
          changed := true;
        }
      }
    }

    /** `readable` is false when the file exists and cannot be read or decoded. */
    static method Open(file: OperationsFile, readable: bool, now: int, ok: bool) returns (r: Option<OperationStore>)
      modifies file
      ensures r.Some? ==> fresh(r.value) && r.value.file == file
      ensures if !readable || (old(file.records).Some? && old(file.schema) != SCHEMA)
              then r.None? && file.Found() == old(file.Found()) && file.schema == old(file.schema)
              else (if r.Some? then r.value.View() else file.Found()) == Opened(old(file.Found()), now, ok)
      ensures r.Some? ==>
                && r.value.records.Keys == OnDisk(old(file.Found())).Keys
                && forall id :: id in r.value.records ==>
                     var (was, rec) := (OnDisk(old(file.Found()))[id], r.value.records[id]);
                     && rec.id == was.id && rec.kind == was.kind && rec.actor == was.actor && rec.role == was.role
                     && rec.target == was.target && rec.startedAt == was.startedAt
                     && (if was.status == Running
                         then && rec.status == Interrupted && rec.finishedAt == Some(now)
                              && rec.errorCode == "process_restarted"
                         else rec == was)
      ensures NoneRunning(OnDisk(old(file.Found()))) ==> file.Found() == old(file.Found())
    {
      if !readable { return None; }
      if file.records.Some? && file.schema != SCHEMA { return None; }
      var rs := if file.records.Some? then file.records.value else map[];
      var after, changed := Interrupt(rs, now);
      if changed {
        file.Write(after, ok);
        if !ok { return None; }
      }
      var store := new OperationStore(file, after);
      return Some(store);
    }

    /** The records of the map, in any order. */
    method All() returns (all: seq<Record>)
      requires Keyed(records)
      ensures Distinct(all) && |all| == |records|
      ensures forall r :: r in all <==> r.id in records && records[r.id] == r
    {
      all := [];
      var rest := records.Keys;
      while rest != {}
        invariant rest <= records.Keys && |all| + |rest| == |records|
        invariant Distinct(all)
        invariant forall r :: r in all <==> r.id in records && r.id !in rest && records[r.id] == r
        decreases rest
      {
        var id :| id in rest;
        rest := rest - {id};
        all := all + [records[id]];
      }
    }

    /** The loop of pruneLocked over the first records of the sorted list. */
    method DeleteFirst(sorted: seq<Record>, remove: nat)
      requires remove <= |sorted| && Distinct(sorted)
      requires forall i :: 0 <= i < |sorted| ==> sorted[i].id in records
      modifies this
      ensures WithoutFirst(old(records), sorted, remove, records)
      ensures |records| == |old(records)| - remove
    {
      ghost var before := records;
      for i := 0 to remove
        invariant WithoutFirst(before, sorted, i, records)
        invariant |records| == |before| - i
      {
        assert sorted[i].id in records;
        DropOne(records, sorted[i].id);
        records := records - {sorted[i].id};
      }
    }

    method PruneLocked()
      requires Keyed(records)
      modifies this
      ensures Pruned(old(records), records)
    {
      if |records| <= MAX_RECORDS { return; }
      var all := All();
      var sorted := SortByStart(all);
      var remove := |all| - MAX_RECORDS;
      assert forall i :: 0 <= i < |sorted| ==> sorted[i] in all;
      DeleteFirst(sorted, remove);
      OldestAreDropped(old(records), records, sorted, remove);
    }

    method Start(id: string, kind: string, actor: string, role: string, target: string, now: int, ok: bool)
      returns (r: Option<Record>, ghost kept: Records)
      requires Keyed(records)
      modifies this, file
      ensures var rec := NewRecord(id, kind, actor, role, target, now);
              if id == "" || kind == "" || actor == "" || id in old(records) then r.None? && View() == old(View())
              else
                && Startable(old(View()), rec, kept)
                && View() == Started(old(View()), rec, kept, ok)
                && r == (if ok then Some(rec) else None)
      ensures r.Some? <==> id != "" && kind != "" && actor != "" && id !in old(records) && ok
      ensures r.Some? ==>
                && r.value.id == id && r.value.kind == kind && r.value.actor == actor && r.value.role == role
                && r.value.target == target && r.value.status == Running && r.value.startedAt == now
                && r.value.finishedAt == None && r.value.errorCode == ""
                && (id in records ==> records[id] == r.value)
                && (|old(records)| < MAX_RECORDS ==> records == old(records)[id := r.value])
                && file.records == Some(records)
    {
      kept := records;
      if id == "" || kind == "" || actor == "" { return None, kept; }
      if id in records { return None, kept; }
      var rec := NewRecord(id, kind, actor, role, target, now);
      records := records[id := rec];
      PruneLocked();
      kept := records;
      file.Write(records, ok);
      file.used := file.used + {id};
      if !ok {
        records := records - {id};
        return None, kept;
      }
      return Some(rec), kept;
    }

    method Finish(id: string, status: Status, errorCode: string, now: int, ok: bool) returns (r: Option<Record>)
      modifies this, file
      ensures View() == Finished(old(View()), id, status, errorCode, now, ok)
      ensures r == (if Finishable(old(View()), id, status) && ok
                    then Some(Terminal(old(records)[id], status, errorCode, now)) else None)
      ensures r.Some? <==>
                && (status == Succeeded || status == Failed) && id in old(records)
                && old(records)[id].status == Running && ok
      ensures r.Some? ==>
                var was := old(records)[id];
                && r.value.id == was.id && r.value.kind == was.kind && r.value.actor == was.actor
                && r.value.role == was.role && r.value.target == was.target && r.value.startedAt == was.startedAt
                && r.value.status == status && r.value.finishedAt == Some(now) && r.value.errorCode == errorCode
                && records == old(records)[id := r.value] && file.records == Some(records)
    {
      if status != Succeeded && status != Failed { return None; }
      if id !in records { return None; }
      var rec := records[id];
      if rec.status != Running { return None; }
      rec := rec.(status := status, finishedAt := Some(now), errorCode := errorCode);
      records := records[id := rec];
      file.Write(records, ok);
      if !ok { return None; }
      return Some(rec);
    }
  }

  /** `after` is `before` without the first `n` records of the list. */
  predicate WithoutFirst(before: Records, sorted: seq<Record>, n: nat, after: Records)
    requires n <= |sorted|
  {
    && (forall id :: id in after ==> id in before && after[id] == before[id])
    && (forall id :: id in before ==> (id in after <==> forall k :: 0 <= k < n ==> sorted[k].id != id))
  }

  lemma DropOne(rs: Records, id: string)
    requires id in rs
    ensures |rs - {id}| == |rs| - 1
  {
    assert (rs - {id}).Keys == rs.Keys - {id};
    assert |rs.Keys - {id}| == |rs.Keys| - 1;
  }

  /** Deleting the first records of a sorted list of all records is pruning. */
  lemma OldestAreDropped(before: Records, after: Records, sorted: seq<Record>, remove: nat)
    requires |before| > MAX_RECORDS && remove == |before| - MAX_RECORDS && remove <= |sorted|
    requires SortedByStart(sorted) && Keyed(before)
    requires forall r :: r in sorted <==> r.id in before && before[r.id] == r
    requires WithoutFirst(before, sorted, remove, after) && |after| == MAX_RECORDS
    ensures Pruned(before, after)
  {
    forall removed, kept | removed in before.Keys - after.Keys && kept in after
      ensures before[removed].startedAt <= before[kept].startedAt
    {
      var i :| 0 <= i < remove && sorted[i].id == removed;
      assert sorted[i] in sorted;
      assert before[kept] in sorted;
      var j :| 0 <= j < |sorted| && sorted[j] == before[kept];
      assert j >= remove;
    }
  }
}
