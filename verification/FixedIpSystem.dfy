/** The allocator of app/radius/fixed_ip.py as a concurrent system: each SELECT, INSERT or DELETE on
    `fixed_ip_pool` is one atomic step, and every call in flight is a small state machine between its steps. */
module FixedIpSystem {
  import opened Text
  import opened Arith
  import opened FixedIpSlices

  /** A customer and the candidate texts in probing order. */
  datatype Plan = Plan(customer: int, probes: seq<string>)

  function PlanFor(digest: Digest, user: string, customer: int, cfg: Config): (r: Result<Plan>)
    ensures r.Ok? ==> |r.value.probes| >= 1
  {
    match LayoutFor(digest, user, customer, cfg)
    case Err(e) => Err(e)
    case Ok(layout) => Ok(Plan(customer, layout.Probes()))
  }

  datatype Row = Row(ip: string, customer: int)

  /** `fixed_ip_pool`: the PRIMARY KEY makes it a map from usernames. */
  type Table = map<string, Row>

  predicate Held(rows: Table, ip: string) {
    exists u :: u in rows && rows[u].ip == ip
  }

  /** The UNIQUE constraint on framed_ip. */
  predicate Injective(rows: Table) {
    forall u, v :: u in rows && v in rows && rows[u].ip == rows[v].ip ==> u == v
  }

  /** An INSERT succeeds exactly when it violates neither constraint; otherwise it raises IntegrityError. */
  predicate Insertable(rows: Table, user: string, ip: string) {
    user !in rows && !Held(rows, ip)
  }

  /** The program points of the four public operations, between SQL statements. */
  datatype Call =
    | AllocLookup(user: string, planned: Result<Plan>)
    | AllocInsert(user: string, plan: Plan, i: nat)
    | AllocRecheck(user: string, plan: Plan, i: nat)
    | AllocReturned(user: string, ip: string)
    | AllocExhausted(user: string, plan: Plan)
    | AllocRejected(user: string, error: Failure)
    | AssignLookup(user: string, ip: string, customer: int)
    | AssignInsert(user: string, ip: string, customer: int)
    | AssignReturned(user: string, ip: string)
    | AssignConflict(user: string, ip: string)
    | AssignRejected(user: string)
    | ReleaseDelete(user: string)
    | ReleaseReturned(user: string, removed: bool)
    | ReadLookup(user: string)
    | ReadReturned(user: string, found: Option<string>)

  predicate IsRelease(c: Call) { c.ReleaseDelete? || c.ReleaseReturned? }

  predicate IsAssign(c: Call) { c.AssignLookup? || c.AssignInsert? }

  // ------------------------------------------------------------------ entry points

  function StartAllocate(digest: Digest, username: string, customer: int, cfg: Config): (c: Call)
    ensures c.AllocRejected? || (c.AllocLookup? && (c.planned.Ok? ==> |c.planned.value.probes| >= 1))
  {
    var user := Strip(username);
    if user == "" then AllocRejected(user, ValidationError)
    else AllocLookup(user, PlanFor(digest, user, customer, cfg))
  }

  function StartAssign(username: string, ip: string, customer: int): (c: Call)
    ensures c.AssignRejected? || c.AssignLookup?
  {
    var user := Strip(username);
    if user == "" || ParseAddress(ip).None? then AssignRejected(user) else AssignLookup(user, ip, customer)
  }

  function StartRelease(username: string): Call {
    var user := Strip(username);
    if user == "" then ReleaseReturned(user, false) else ReleaseDelete(user)
  }

  /** `framed_ip_for` does not strip its argument. */
  function StartRead(username: string): Call {
    if username == "" then ReadReturned(username, None) else ReadLookup(username)
  }

  /** A name as the entry points pass it on: stripped and not empty. */
  predicate IsUser(u: string) { u != "" && Strip(u) == u }

  /** What a call can be when it starts. */
  ghost predicate IsStart(digest: Digest, cfg: Config, c: Call) {
    match c
    case AllocLookup(u, planned) => IsUser(u) && exists n :: planned == PlanFor(digest, u, n, cfg)
    case AllocRejected(_, _) => true
    case AssignLookup(u, ip, _) => IsUser(u) && ParseAddress(ip).Some?
    case AssignRejected(_) => true
    case ReleaseDelete(u) => IsUser(u)
    case ReleaseReturned(_, removed) => !removed
    case ReadLookup(u) => u != ""
    case ReadReturned(_, found) => found.None?
    case _ => false
  }

  lemma EntryPointsStart(digest: Digest, cfg: Config, username: string, ip: string, customer: int)
    ensures IsStart(digest, cfg, StartAllocate(digest, username, customer, cfg))
    ensures IsStart(digest, cfg, StartAssign(username, ip, customer))
    ensures IsStart(digest, cfg, StartRelease(username))
    ensures IsStart(digest, cfg, StartRead(username))
  {
    StripTwice(username);
  }

  // ------------------------------------------------------------------ one atomic statement

  /** The next SQL statement of a call, with the Python code up to the one after it. */
  function Advance(rows: Table, c: Call): (Table, Call) {
    match c
    case AllocLookup(u, planned) =>
      if u in rows then (rows, AllocReturned(u, rows[u].ip))
      else (match planned case Err(e) => (rows, AllocRejected(u, e)) case Ok(p) => (rows, AllocInsert(u, p, 0)))
    case AllocInsert(u, p, i) =>
      var ip := if i < |p.probes| then p.probes[i] else "";
      if Insertable(rows, u, ip) then (rows[u := Row(ip, p.customer)], AllocReturned(u, ip))
      else (rows, AllocRecheck(u, p, i))
    case AllocRecheck(u, p, i) =>
      if u in rows then (rows, AllocReturned(u, rows[u].ip))
      else if i + 1 < |p.probes| then (rows, AllocInsert(u, p, i + 1))
      else (rows, AllocExhausted(u, p))
    case AssignLookup(u, ip, n) =>
      if u !in rows then (rows, AssignInsert(u, ip, n))
      else if rows[u].ip == ip then (rows, AssignReturned(u, ip))
      else (rows, AssignConflict(u, ip))
    case AssignInsert(u, ip, n) =>
      if Insertable(rows, u, ip) then (rows[u := Row(ip, n)], AssignReturned(u, ip))
      else (rows, AssignConflict(u, ip))
    case ReleaseDelete(u) => (rows - {u}, ReleaseReturned(u, u in rows))
    case ReadLookup(u) => (rows, ReadReturned(u, if u in rows then Some(rows[u].ip) else None))
    case _ => (rows, c)
  }

  // ------------------------------------------------------------------ interleavings

  datatype State = State(rows: Table, calls: map<nat, Call>)

  /** A schedule starts calls and lets calls in flight execute one statement, in any order. */
  datatype Event = Begin(id: nat, call: Call) | Run(id: nat)

  function Next(s: State, e: Event): State {
    match e
    case Begin(id, c) => if id in s.calls then s else s.(calls := s.calls[id := c])
    case Run(id) =>
      if id !in s.calls then s
      else var (rows, c) := Advance(s.rows, s.calls[id]); State(rows, s.calls[id := c])
  }

  function Exec(s: State, schedule: seq<Event>): State {
    if schedule == [] then s else Next(Exec(s, schedule[..|schedule| - 1]), schedule[|schedule| - 1])
  }

  /** Only entry points are started, all under one configuration. */
  ghost predicate Legal(digest: Digest, cfg: Config, schedule: seq<Event>) {
    forall k :: 0 <= k < |schedule| && schedule[k].Begin? ==> IsStart(digest, cfg, schedule[k].call)
  }

  predicate ReleaseFree(schedule: seq<Event>) {
    forall k :: 0 <= k < |schedule| && schedule[k].Begin? ==> !IsRelease(schedule[k].call)
  }

  predicate AssignFree(schedule: seq<Event>) {
    forall k :: 0 <= k < |schedule| && schedule[k].Begin? ==> !IsAssign(schedule[k].call)
  }

  lemma {:induction false} ExecSplit(s: State, first: seq<Event>, rest: seq<Event>)
    ensures Exec(s, first + rest) == Exec(Exec(s, first), rest)
  {
    if rest == [] {
      assert first + rest == first;
    } else {
      var n := |rest| - 1;
      ExecSplit(s, first, rest[..n]);
      assert (first + rest)[..|first + rest| - 1] == first + rest[..n];
    }
  }

  // ------------------------------------------------------------------ uniqueness in every run

  /** In every interleaving, releases included, no two users ever hold the same address text. */
  lemma {:induction false} TableStaysInjective(s: State, schedule: seq<Event>)
    requires Injective(s.rows)
    ensures Injective(Exec(s, schedule).rows)
  {
    if schedule != [] {
      TableStaysInjective(s, schedule[..|schedule| - 1]);
    }
  }

  // ------------------------------------------------------------------ what rows are made of, in every run

  /** A property of (customer, address text) pairs. */
  type Pairs = (int, string) -> bool

  ghost predicate GoodPlan(good: Pairs, p: Plan) {
    |p.probes| >= 1 && forall i :: 0 <= i < |p.probes| ==> good(p.customer, p.probes[i])
  }

  /** A call that can only ever insert good pairs. */
  ghost predicate GoodCall(good: Pairs, c: Call) {
    match c
    case AllocLookup(_, planned) => planned.Ok? ==> GoodPlan(good, planned.value)
    case AllocInsert(_, p, i) => GoodPlan(good, p) && i < |p.probes|
    case AllocRecheck(_, p, i) => GoodPlan(good, p) && i < |p.probes|
    case AssignLookup(_, ip, n) => good(n, ip)
    case AssignInsert(_, ip, n) => good(n, ip)
    case _ => true
  }

  ghost predicate GoodRows(good: Pairs, rows: Table) {
    forall u :: u in rows ==> good(rows[u].customer, rows[u].ip)
  }

  ghost predicate GoodState(good: Pairs, s: State) {
    GoodRows(good, s.rows) && forall id :: id in s.calls ==> GoodCall(good, s.calls[id])
  }

  lemma AdvanceGood(good: Pairs, rows: Table, c: Call)
    requires GoodRows(good, rows) && GoodCall(good, c)
    ensures GoodRows(good, Advance(rows, c).0) && GoodCall(good, Advance(rows, c).1)
  {
  }

  lemma {:induction false} RunsStayGood(good: Pairs, s: State, schedule: seq<Event>)
    requires GoodState(good, s)
    requires forall k :: 0 <= k < |schedule| && schedule[k].Begin? ==> GoodCall(good, schedule[k].call)
    ensures GoodState(good, Exec(s, schedule))
  {
    if schedule != [] {
      var front, e := schedule[..|schedule| - 1], schedule[|schedule| - 1];
      RunsStayGood(good, s, front);
      var t := Exec(s, front);
      if e.Run? && e.id in t.calls { AdvanceGood(good, t.rows, t.calls[e.id]); }
    }
  }

  ghost const AnyAddress: Pairs := (n: int, ip: string) => ParseAddress(ip).Some?

  lemma PlanHasAddresses(digest: Digest, user: string, customer: int, cfg: Config)
    requires PlanFor(digest, user, customer, cfg).Ok?
    ensures GoodPlan(AnyAddress, PlanFor(digest, user, customer, cfg).value)
  {
    var layout := LayoutFor(digest, user, customer, cfg).value;
    forall i | 0 <= i < layout.count ensures ParseAddress(layout.Probes()[i]).Some? {
      ParseRendered(layout.ProbeAddress(i));
    }
  }

  lemma StartHasAddresses(digest: Digest, cfg: Config, c: Call)
    requires IsStart(digest, cfg, c)
    ensures GoodCall(AnyAddress, c)
  {
    if c.AllocLookup? && c.planned.Ok? {
      var n :| c.planned == PlanFor(digest, c.user, n, cfg);
      PlanHasAddresses(digest, c.user, n, cfg);
    }
  }

  /** The table is a partial injection on addresses, not only on their texts, in every interleaving. */
  lemma NoAddressIsShared(digest: Digest, cfg: Config, s: State, schedule: seq<Event>, u: string, v: string)
    requires GoodState(AnyAddress, s) && Injective(s.rows) && Legal(digest, cfg, schedule)
    requires u in Exec(s, schedule).rows && v in Exec(s, schedule).rows && u != v
    ensures ParseAddress(Exec(s, schedule).rows[u].ip).Some?
    ensures ParseAddress(Exec(s, schedule).rows[u].ip) != ParseAddress(Exec(s, schedule).rows[v].ip)
  {
    forall k | 0 <= k < |schedule| && schedule[k].Begin? ensures GoodCall(AnyAddress, schedule[k].call) {
      StartHasAddresses(digest, cfg, schedule[k].call);
    }
    RunsStayGood(AnyAddress, s, schedule);
    TableStaysInjective(s, schedule);
    var rows := Exec(s, schedule).rows;
    assert AnyAddress(rows[u].customer, rows[u].ip) && AnyAddress(rows[v].customer, rows[v].ip);
    RenderParsed(rows[u].ip);
    RenderParsed(rows[v].ip);
  }

  /** The text is a usable address of the customer's own slice. */
  ghost predicate InSlice(cfg: Config, customer: int, ip: string) {
    && CustomerNetwork(customer, cfg).Ok?
    && exists a: Address {:trigger AddressText(a)} :: ip == AddressText(a)
                                                      && Usable(CustomerNetwork(customer, cfg).value, a)
  }

  ghost function OwnSlice(cfg: Config): Pairs {
    (n: int, ip: string) => InSlice(cfg, n, ip)
  }

  lemma PlanIsSliced(digest: Digest, user: string, customer: int, cfg: Config)
    requires PlanFor(digest, user, customer, cfg).Ok?
    ensures GoodPlan(OwnSlice(cfg), PlanFor(digest, user, customer, cfg).value)
  {
    ProbeIsABijection(digest, user, customer, cfg);
    var layout := LayoutFor(digest, user, customer, cfg).value;
    forall i | 0 <= i < layout.count ensures InSlice(cfg, customer, layout.Probes()[i]) {
      assert layout.Probes()[i] == AddressText(layout.ProbeAddress(i));
    }
  }

  /** Without imported addresses, every row of every reachable table, releases included, holds an address of its
      customer's own slice that is neither the network, the gateway nor the broadcast address. */
  lemma RowsStayInTheirSlice(digest: Digest, cfg: Config, s: State, schedule: seq<Event>)
    requires GoodState(OwnSlice(cfg), s) && Legal(digest, cfg, schedule) && AssignFree(schedule)
    ensures forall u :: u in Exec(s, schedule).rows ==>
              InSlice(cfg, Exec(s, schedule).rows[u].customer, Exec(s, schedule).rows[u].ip)
  {
    forall k | 0 <= k < |schedule| && schedule[k].Begin? ensures GoodCall(OwnSlice(cfg), schedule[k].call) {
      var c := schedule[k].call;
      if c.AllocLookup? && c.planned.Ok? {
        var n :| c.planned == PlanFor(digest, c.user, n, cfg);
        PlanIsSliced(digest, c.user, n, cfg);
      }
    }
    RunsStayGood(OwnSlice(cfg), s, schedule);
    assert forall u :: u in Exec(s, schedule).rows ==>
        OwnSlice(cfg)(Exec(s, schedule).rows[u].customer, Exec(s, schedule).rows[u].ip);
  }

  // ------------------------------------------------------------------ agreement and exhaustion without releases

  predicate HeldBefore(rows: Table, p: Plan, i: nat) {
    i <= |p.probes| && forall j :: 0 <= j < i ==> Held(rows, p.probes[j])
  }

  /** What a call knows about the table, for as long as nothing is deleted. */
  predicate Knows(rows: Table, c: Call) {
    match c
    case AllocInsert(_, p, i) => i < |p.probes| && HeldBefore(rows, p, i)
    case AllocRecheck(u, p, i) => i < |p.probes| && HeldBefore(rows, p, i) && (u in rows || Held(rows, p.probes[i]))
    case AllocReturned(u, ip) => u in rows && rows[u].ip == ip
    case AllocLookup(_, planned) => planned.Ok? ==> |planned.value.probes| >= 1
    case AllocExhausted(_, p) => HeldBefore(rows, p, |p.probes|)
    case AssignReturned(u, ip) => u in rows && rows[u].ip == ip
    case AssignConflict(u, ip) => u in rows || Held(rows, ip)
    case ReadReturned(u, found) => found.Some? ==> u in rows && rows[u].ip == found.value
    case _ => true
  }

  predicate Grows(before: Table, after: Table) {
    forall u :: u in before ==> u in after && after[u] == before[u]
  }

  ghost predicate Agreed(s: State) {
    forall id :: id in s.calls ==>
      Knows(s.rows, s.calls[id]) && !s.calls[id].ReleaseDelete?
  }

  lemma KnowledgeGrows(before: Table, after: Table, c: Call)
    requires Grows(before, after) && Knows(before, c)
    ensures Knows(after, c)
  {
    forall ip | Held(before, ip) ensures Held(after, ip) {
      var u :| u in before && before[u].ip == ip;
      assert u in after && after[u].ip == ip;
    }
  }

  lemma AdvanceKnows(rows: Table, c: Call)
    requires Knows(rows, c) && !c.ReleaseDelete?
    ensures Grows(rows, Advance(rows, c).0)
    ensures Knows(Advance(rows, c).0, Advance(rows, c).1)
  {
  }

  lemma {:induction false} AgreementStep(s: State, e: Event)
    requires Agreed(s)
    requires e.Begin? ==> Knows(s.rows, e.call) && !e.call.ReleaseDelete?
    ensures Agreed(Next(s, e)) && Grows(s.rows, Next(s, e).rows)
  {
    if e.Run? && e.id in s.calls {
      AdvanceKnows(s.rows, s.calls[e.id]);
      var t := Next(s, e);
      forall id | id in t.calls
        ensures Knows(t.rows, t.calls[id]) && !t.calls[id].ReleaseDelete?
      {
        if id != e.id { KnowledgeGrows(s.rows, t.rows, s.calls[id]); }
      }
    }
  }

  lemma StartKnowsNothing(digest: Digest, cfg: Config, rows: Table, c: Call)
    requires IsStart(digest, cfg, c) && !IsRelease(c)
    ensures Knows(rows, c) && !c.ReleaseDelete?
  {
  }

  lemma {:induction false} ReleaseFreeRuns(digest: Digest, cfg: Config, s: State, schedule: seq<Event>)
    requires Agreed(s) && Legal(digest, cfg, schedule) && ReleaseFree(schedule)
    ensures Agreed(Exec(s, schedule)) && Grows(s.rows, Exec(s, schedule).rows)
  {
    if schedule != [] {
      var front, e := schedule[..|schedule| - 1], schedule[|schedule| - 1];
      ReleaseFreeRuns(digest, cfg, s, front);
      if e.Begin? { StartKnowsNothing(digest, cfg, Exec(s, front).rows, e.call); }
      AgreementStep(Exec(s, front), e);
    }
  }

  /** In every release-free run: all allocate calls that returned for one user returned the same address, and after
      any continuation of the run that is what the table holds and what a lookup of the user reads. */
  lemma SameAddressForEver(digest: Digest, cfg: Config, s: State, first: seq<Event>, rest: seq<Event>, a: nat, b: nat)
    requires Agreed(s) && Legal(digest, cfg, first + rest) && ReleaseFree(first + rest)
    requires var t := Exec(s, first); a in t.calls && t.calls[a].AllocReturned?
    requires var w := Exec(s, first + rest); b in w.calls && w.calls[b].AllocReturned?
    requires Exec(s, first).calls[a].user == Exec(s, first + rest).calls[b].user
    ensures var t, w := Exec(s, first), Exec(s, first + rest);
            var user := t.calls[a].user;
            && t.calls[a].ip == w.calls[b].ip
            && user in w.rows && w.rows[user].ip == t.calls[a].ip
            && Advance(w.rows, ReadLookup(user)) == (w.rows, ReadReturned(user, Some(t.calls[a].ip)))
  {
    assert forall k :: 0 <= k < |first| ==> first[k] == (first + rest)[k];
    assert forall k :: 0 <= k < |rest| ==> rest[k] == (first + rest)[|first| + k];
    ReleaseFreeRuns(digest, cfg, s, first);
    ReleaseFreeRuns(digest, cfg, Exec(s, first), rest);
    ExecSplit(s, first, rest);
  }

  // ------------------------------------------------------------------ progress and the call run alone

  /** How many more statements a call can execute. */
  function Budget(c: Call): nat {
    match c
    case AllocLookup(_, planned) => (match planned case Err(_) => 1 case Ok(p) => 2 * |p.probes| + 3)
    case AllocInsert(_, p, i) => if i < |p.probes| then 2 * (|p.probes| - i) else 2
    case AllocRecheck(_, p, i) => if i < |p.probes| then 2 * (|p.probes| - i) - 1 else 1
    case AssignLookup(_, _, _) => 2
    case AssignInsert(_, _, _) => 1
    case ReleaseDelete(_) => 1
    case ReadLookup(_) => 1
    case _ => 0
  }

  predicate Finished(c: Call) { Budget(c) == 0 }

  /** Every statement a call executes brings it closer to its end, whatever other calls do in between. */
  lemma EveryStepIsProgress(rows: Table, c: Call)
    requires !Finished(c)
    ensures Budget(Advance(rows, c).1) < Budget(c)
  {
  }

  /** The call run to its end with no interference. */
  function RunAlone(rows: Table, c: Call): (Table, Call)
    decreases Budget(c)
  {
    if Finished(c) then (rows, c)
    else
      EveryStepIsProgress(rows, c);
      RunAlone(Advance(rows, c).0, Advance(rows, c).1)
  }

  /** RunAlone is a schedule of the system. */
  lemma {:induction false} AloneIsASchedule(s: State, id: nat) returns (schedule: seq<Event>)
    requires id in s.calls
    ensures forall k :: 0 <= k < |schedule| ==> schedule[k] == Run(id)
    ensures var (rows, c) := RunAlone(s.rows, s.calls[id]);
            Exec(s, schedule) == State(rows, s.calls[id := c])
    decreases Budget(s.calls[id])
  {
    if Finished(s.calls[id]) {
      schedule := [];
      assert s.calls[id := s.calls[id]] == s.calls;
    } else {
      EveryStepIsProgress(s.rows, s.calls[id]);
      var t := Next(s, Run(id));
      var rest := AloneIsASchedule(t, id);
      schedule := [Run(id)] + rest;
      assert Exec(s, [Run(id)]) == t by { assert [Run(id)][..0] == []; }
      ExecSplit(s, [Run(id)], rest);
      var (rows, c) := RunAlone(t.rows, t.calls[id]);
      assert t.calls[id := c] == s.calls[id := c];
    }
  }

  /** Some usable address of the plan is free. */
  predicate HasFree(rows: Table, p: Plan) {
    exists i :: 0 <= i < |p.probes| && !Held(rows, p.probes[i])
  }

  /** Index i is the first free probe, in cyclic order from the hash offset. */
  predicate FirstFree(rows: Table, p: Plan, i: nat) {
    i < |p.probes| && !Held(rows, p.probes[i]) && forall j :: 0 <= j < i ==> Held(rows, p.probes[j])
  }

  /** What a lone call that has found every probe before i held ends with. */
  ghost predicate ProbeOutcome(rows: Table, user: string, p: Plan, end: (Table, Call)) {
    if HasFree(rows, p) then
      exists k: nat :: FirstFree(rows, p, k)
                  && end == (rows[user := Row(p.probes[k], p.customer)], AllocReturned(user, p.probes[k]))
    else end == (rows, AllocExhausted(user, p))
  }

  lemma {:induction false} ProbingAlone(rows: Table, user: string, p: Plan, i: nat)
    requires i < |p.probes| && user !in rows
    requires forall j :: 0 <= j < i ==> Held(rows, p.probes[j])
    ensures ProbeOutcome(rows, user, p, RunAlone(rows, AllocInsert(user, p, i)))
    decreases |p.probes| - i
  {
    if !Held(rows, p.probes[i]) {
      assert FirstFree(rows, p, i);
      var after := rows[user := Row(p.probes[i], p.customer)];
      assert RunAlone(after, AllocReturned(user, p.probes[i])) == (after, AllocReturned(user, p.probes[i]));
    } else {
      assert RunAlone(rows, AllocInsert(user, p, i)) == RunAlone(rows, AllocRecheck(user, p, i));
      if i + 1 < |p.probes| { ProbingAlone(rows, user, p, i + 1); }
    }
  }

  /** Run alone, `allocate_fixed_ip` returns the stored address if there is one; otherwise it fails with the planning
      error, or succeeds exactly when a usable address is free, taking the first free one in cyclic order. */
  lemma AllocateAlone(rows: Table, user: string, planned: Result<Plan>)
    requires planned.Ok? ==> |planned.value.probes| >= 1
    ensures var (after, c) := RunAlone(rows, AllocLookup(user, planned));
            if user in rows then after == rows && c == AllocReturned(user, rows[user].ip)
            else if planned.Err? then after == rows && c == AllocRejected(user, planned.error)
            else ProbeOutcome(rows, user, planned.value, (after, c))
  {
    if user !in rows && planned.Ok? {
      ProbingAlone(rows, user, planned.value, 0);
    }
  }

  /** Releasing right after a fresh allocation restores the table. */
  lemma ReleaseUndoesAllocate(rows: Table, user: string, planned: Result<Plan>)
    requires planned.Ok? ==> |planned.value.probes| >= 1
    requires user !in rows
    ensures var (after, c) := RunAlone(rows, AllocLookup(user, planned));
            c.AllocReturned? ==> Advance(after, ReleaseDelete(user)) == (rows, ReleaseReturned(user, true))
  {
    AllocateAlone(rows, user, planned);
    var (after, c) := RunAlone(rows, AllocLookup(user, planned));
    if c.AllocReturned? {
      assert after - {user} == rows;
    }
  }
}
