/** The public operations of app/radius/fixed_ip.py as code that updates `fixed_ip_pool` statement by statement.
    Each operation, run without interference, is proved to do what its state machine in FixedIpSystem does alone. */
module FixedIpPool {
  import opened Text
  import opened FixedIpSlices
  import opened FixedIpSystem
  import opened FixedIpAnswers

  class Pool {
    var rows: Table

    constructor ()
      ensures rows == map[]
    {
      rows := map[];
    }

    /** INSERT: false stands for sqlite3.IntegrityError. */
    method Insert(user: string, ip: string, customer: int) returns (inserted: bool)
      modifies this
      ensures inserted == Insertable(old(rows), user, ip)
      ensures rows == if inserted then old(rows)[user := Row(ip, customer)] else old(rows)
    {
      inserted := Insertable(rows, user, ip);
      if inserted { rows := rows[user := Row(ip, customer)]; }
    }

    /** DELETE, returning whether rowcount is positive. */
    method Delete(user: string) returns (removed: bool)
      modifies this
      ensures (rows, ReleaseReturned(user, removed)) == RunAlone(old(rows), ReleaseDelete(user))
    {
      FinishedAlone(rows - {user}, ReleaseReturned(user, user in rows));
      removed := user in rows;
      rows := rows - {user};
    }

    /** SELECT framed_ip. */
    method Lookup(user: string) returns (found: Option<string>)
      ensures found == if user in rows then Some(rows[user].ip) else None
    {
      found := if user in rows then Some(rows[user].ip) else None;
    }

    method FramedIpFor(username: string) returns (found: Option<string>)
      ensures ReadReturned(username, found) == RunAlone(rows, StartRead(username)).1
      ensures found.Some? <==> username != "" && username in rows
    {
      if username == "" { return None; }
      found := Lookup(username);
    }

    /** The probing loop (lines 188-208); `candidates` are computed one by one in the source. */
    method ProbeFor(user: string, plan: Plan) returns (c: Call)
      requires |plan.probes| >= 1
      modifies this
      ensures (rows, c) == RunAlone(old(rows), AllocInsert(user, plan, 0))
    {
      var i := 0;
      while i < |plan.probes|
        invariant i <= |plan.probes| && rows == old(rows)
        invariant i < |plan.probes| ==>
            RunAlone(old(rows), AllocInsert(user, plan, 0)) == RunAlone(rows, AllocInsert(user, plan, i))
        invariant i == |plan.probes| ==>
            RunAlone(old(rows), AllocInsert(user, plan, 0)) == (rows, AllocExhausted(user, plan))
      {
        ghost var before := rows;
        var inserted := Insert(user, plan.probes[i], plan.customer);
        if inserted {
          FinishedAlone(rows, AllocReturned(user, plan.probes[i]));
          return AllocReturned(user, plan.probes[i]);
        }
        var raced := Lookup(user);
        assert RunAlone(rows, AllocInsert(user, plan, i)) == RunAlone(rows, AllocRecheck(user, plan, i));
        if raced.Some? {
          FinishedAlone(rows, AllocReturned(user, raced.value));
          return AllocReturned(user, raced.value);
        }
        RejectedProbe(rows, user, plan, i);
        i := i + 1;
      }
      return AllocExhausted(user, plan);
    }

    method AllocateFixedIp(digest: Digest, username: string, customer: int, cfg: Config) returns (r: Result<string>)
      modifies this
      ensures (rows, r) == (var (after, c) := RunAlone(old(rows), StartAllocate(digest, username, customer, cfg));
                            (after, Outcome(c)))
      ensures Allocated(digest, cfg, username, customer, old(rows), rows, r)
    {
      AllocatedAlone(digest, cfg, username, customer, rows);
      var start := StartAllocate(digest, username, customer, cfg);  // the checks before the first statement
      r := AllocateFrom(start);
    }

    method AllocateFrom(start: Call) returns (r: Result<string>)
      requires start.AllocRejected? || (start.AllocLookup? && (start.planned.Ok? ==> |start.planned.value.probes| >= 1))
      modifies this
      ensures (rows, r) == (var (after, c) := RunAlone(old(rows), start); (after, Outcome(c)))
    {
      if start.AllocRejected? {
        FinishedAlone(rows, start);
        return Err(start.error);
      }
      r := AllocateFor(start.user, start.planned);
    }

    /** The body after validation. */
    method AllocateFor(user: string, planned: Result<Plan>) returns (r: Result<string>)
      requires planned.Ok? ==> |planned.value.probes| >= 1
      modifies this
      ensures (rows, r) == (var (after, c) := RunAlone(old(rows), AllocLookup(user, planned)); (after, Outcome(c)))
      ensures r.Ok? ==> user in rows && rows[user].ip == r.value
      ensures r.Err? ==> rows == old(rows)
    {
      AllocateAlone(rows, user, planned);
      var existing := Lookup(user);
      if existing.Some? { return Ok(existing.value); }
      if planned.Err? { return Err(planned.error); }
      var c := ProbeFor(user, planned.value);
      r := Outcome(c);
    }

    method AssignSpecificIp(username: string, ip: string, customer: int) returns (r: Result<string>)
      modifies this
      ensures (rows, r)
              == (var (after, c) := RunAlone(old(rows), StartAssign(username, ip, customer)); (after, Outcome(c)))
      ensures Assigned(username, ip, customer, old(rows), rows, r)
    {
      AssignedAlone(username, ip, customer, rows);
      var start := StartAssign(username, ip, customer);  // the checks before the first statement
      r := AssignFrom(start);
    }

    method AssignFrom(start: Call) returns (r: Result<string>)
      requires start.AssignRejected? || start.AssignLookup?
      modifies this
      ensures (rows, r) == (var (after, c) := RunAlone(old(rows), start); (after, Outcome(c)))
    {
      if start.AssignRejected? {
        FinishedAlone(rows, start);
        return Err(ValidationError);
      }
      r := AssignFor(start.user, start.ip, start.customer);
    }

    /** The body after validation: alone, it succeeds exactly when the pair is already stored or both sides are free. */
    method AssignFor(user: string, ip: string, customer: int) returns (r: Result<string>)
      modifies this
      ensures (rows, r)
              == (var (after, c) := RunAlone(old(rows), AssignLookup(user, ip, customer)); (after, Outcome(c)))
      ensures r.Ok? <==> if user in old(rows) then old(rows)[user].ip == ip else !Held(old(rows), ip)
      ensures r.Ok? ==> r.value == ip && user in rows && rows[user].ip == ip
      ensures r.Err? ==> r.error == Conflict && rows == old(rows)
    {
      AssignAlone(rows, user, ip, customer);
      var existing := Lookup(user);
      if existing.Some? {
        return if existing.value == ip then Ok(ip) else Err(Conflict);
      }
      var inserted := Insert(user, ip, customer);
      return if inserted then Ok(ip) else Err(Conflict);
    }

    method ReleaseFixedIp(username: string) returns (removed: bool)
      modifies this
      ensures (rows, ReleaseReturned(Strip(username), removed)) == RunAlone(old(rows), StartRelease(username))
      ensures removed <==> Strip(username) != "" && Strip(username) in old(rows)
      ensures rows == if removed then old(rows) - {Strip(username)} else old(rows)
    {
      var user := Strip(username);
      if user == "" {
        FinishedAlone(rows, ReleaseReturned(user, false));
        return false;
      }
      removed := Delete(user);
    }
  }

  lemma RejectedProbe(rows: Table, user: string, plan: Plan, i: nat)
    requires user !in rows && i < |plan.probes| && Held(rows, plan.probes[i])
    ensures RunAlone(rows, AllocInsert(user, plan, i))
            == RunAlone(rows, if i + 1 < |plan.probes| then AllocInsert(user, plan, i + 1)
                        else AllocExhausted(user, plan))
  {
    assert RunAlone(rows, AllocInsert(user, plan, i)) == RunAlone(rows, AllocRecheck(user, plan, i));
  }
}
