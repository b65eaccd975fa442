/** What concurrent calls of the allocator (app/radius/fixed_ip.py) can and cannot be told: when `FixedIpExhausted`
    means a full slice although addresses are released, and when the conflict of an import means that the pair is
    taken. */
module FixedIpRaces {
  import opened Text
  import opened Arith
  import opened FixedIpSlices
  import opened FixedIpSystem

  // ------------------------------------------------------------------ events of a run

  /** The statement of call `id` that is next in state t, if the event runs a call in flight. */
  predicate Executes(t: State, e: Event, c: Call) {
    e.Run? && e.id in t.calls && t.calls[e.id] == c
  }

  /** The event deletes the row of v. */
  predicate Deletes(t: State, e: Event, v: string) {
    Executes(t, e, ReleaseDelete(v)) && v in t.rows
  }

  /** The state before event k. */
  function At(s: State, schedule: seq<Event>, k: nat): State
    requires k <= |schedule|
  {
    Exec(s, schedule[..k])
  }

  lemma AtFront(s: State, schedule: seq<Event>, front: seq<Event>, k: nat)
    requires front <= schedule && k <= |front|
    ensures At(s, schedule, k) == At(s, front, k)
  {
    assert schedule[..k] == front[..k];
  }

  lemma ExecSnoc(s: State, schedule: seq<Event>, e: Event)
    ensures Exec(s, schedule + [e]) == Next(Exec(s, schedule), e)
  {
    assert (schedule + [e])[..|schedule|] == schedule;
  }

  // ------------------------------------------------------------------ exhaustion, sharply

  /** All of the first i candidates are held. */
  predicate HeldUpTo(rows: Table, probes: seq<string>, i: int) {
    forall j :: 0 <= j < i && j < |probes| ==> Held(rows, probes[j])
  }

  /** What a call knows of the table while neither its candidates nor its own user's row is released. */
  predicate Found(rows: Table, c: Call) {
    match c
    case AllocInsert(_, p, i) => HeldUpTo(rows, p.probes, i)
    case AllocRecheck(u, p, i) => HeldUpTo(rows, p.probes, i) && (u in rows || HeldUpTo(rows, p.probes, i + 1))
    case AllocExhausted(_, p) => HeldUpTo(rows, p.probes, |p.probes|)
    case _ => true
  }

  /** No release that runs deletes a row that holds one of the candidates, or the row of the user itself. */
  ghost predicate Keeps(s: State, schedule: seq<Event>, user: string, probes: seq<string>) {
    forall k, v :: 0 <= k < |schedule| && Deletes(At(s, schedule, k), schedule[k], v) ==>
      v != user && At(s, schedule, k).rows[v].ip !in probes
  }

  /** The call is probing, or has probed, these candidates for this user. */
  predicate Probing(c: Call, user: string, probes: seq<string>) {
    (c.AllocInsert? || c.AllocRecheck? || c.AllocExhausted?) && c.user == user && c.plan.probes == probes
  }

  /** What one event leaves of the rows that matter. */
  lemma RowsKeep(t: State, e: Event, user: string, probes: seq<string>)
    requires forall v :: Deletes(t, e, v) ==> v != user && t.rows[v].ip !in probes
    ensures user in t.rows ==> user in Next(t, e).rows
    ensures forall j :: 0 <= j < |probes| && Held(t.rows, probes[j]) ==> Held(Next(t, e).rows, probes[j])
  {
    var rows := Next(t, e).rows;
    forall v | v in t.rows && (v == user || t.rows[v].ip in probes) ensures v in rows && rows[v] == t.rows[v] {
      assert !Deletes(t, e, v);
    }
    forall j | 0 <= j < |probes| && Held(t.rows, probes[j]) ensures Held(rows, probes[j]) {
      var v :| v in t.rows && t.rows[v].ip == probes[j];
      assert rows[v].ip == probes[j];
    }
  }

  lemma OwnStepFinds(rows: Table, c: Call, user: string, probes: seq<string>)
    requires Probing(c, user, probes) ==> Found(rows, c)
    ensures var (rows', c') := Advance(rows, c); Probing(c', user, probes) ==> Found(rows', c')
  {
  }

  ghost predicate FoundBy(s: State, id: nat, user: string, probes: seq<string>) {
    id in s.calls && Probing(s.calls[id], user, probes) ==> Found(s.rows, s.calls[id])
  }

  lemma FoundStep(t: State, e: Event, id: nat, user: string, probes: seq<string>)
    requires FoundBy(t, id, user, probes)
    requires forall v :: Deletes(t, e, v) ==> v != user && t.rows[v].ip !in probes
    requires e.Begin? ==> !Probing(e.call, user, probes)
    ensures FoundBy(Next(t, e), id, user, probes)
  {
    if e.Run? && e.id in t.calls {
      if e.id == id {
        OwnStepFinds(t.rows, t.calls[id], user, probes);
      } else {
        RowsKeep(t, e, user, probes);
      }
    }
  }

  lemma {:induction false} FoundInRun(digest: Digest, cfg: Config, s: State, schedule: seq<Event>, id: nat,
                                      user: string, probes: seq<string>)
    requires Legal(digest, cfg, schedule) && Keeps(s, schedule, user, probes) && FoundBy(s, id, user, probes)
    ensures FoundBy(Exec(s, schedule), id, user, probes)
  {
    if schedule != [] {
      var n := |schedule| - 1;
      var front := schedule[..n];
      forall k, v | 0 <= k < |front| && Deletes(At(s, front, k), front[k], v)
        ensures v != user && At(s, front, k).rows[v].ip !in probes
      {
        AtFront(s, schedule, front, k);
      }
      FoundInRun(digest, cfg, s, front, id, user, probes);
      forall v | Deletes(Exec(s, front), schedule[n], v) ensures v != user && Exec(s, front).rows[v].ip !in probes {
        assert Deletes(At(s, schedule, n), schedule[n], v);
      }
      FoundStep(Exec(s, front), schedule[n], id, user, probes);
    }
  }

  /** `FixedIpExhausted` is raised only when every usable address of the slice is held, in every interleaving in which
      no release that runs deletes a row of the slice or the row of the user itself. Other releases do no harm. */
  lemma ExhaustedMeansFull(digest: Digest, cfg: Config, s: State, schedule: seq<Event>, id: nat, a: int,
                           user: string, customer: int)
    requires Legal(digest, cfg, schedule) && PlanFor(digest, user, customer, cfg).Ok?
    requires var p := PlanFor(digest, user, customer, cfg).value;
             && FoundBy(s, id, user, p.probes) && Keeps(s, schedule, user, p.probes)
             && id in Exec(s, schedule).calls && Exec(s, schedule).calls[id] == AllocExhausted(user, p)
    requires Usable(CustomerNetwork(customer, cfg).value, a)
    ensures 0 <= a < 0x1_0000_0000 && Held(Exec(s, schedule).rows, AddressText(a))
  {
    var p := PlanFor(digest, user, customer, cfg).value;
    FoundInRun(digest, cfg, s, schedule, id, user, p.probes);
    var i := ProbeOf(digest, user, customer, cfg, a);
  }

  lemma ProbeOf(digest: Digest, user: string, customer: int, cfg: Config, a: int) returns (i: nat)
    requires PlanFor(digest, user, customer, cfg).Ok? && Usable(CustomerNetwork(customer, cfg).value, a)
    ensures var p := PlanFor(digest, user, customer, cfg).value;
            0 <= a < 0x1_0000_0000 && i < |p.probes| && p.probes[i] == AddressText(a)
  {
    ProbeIsABijection(digest, user, customer, cfg);
    var layout := LayoutFor(digest, user, customer, cfg).value;
    i :| 0 <= i < layout.count && layout.ProbeAddress(i) == a;
  }

  lemma {:induction false} NothingDeletedWithoutReleases(digest: Digest, cfg: Config, s: State, schedule: seq<Event>)
    requires Agreed(s) && Legal(digest, cfg, schedule) && ReleaseFree(schedule)
    ensures forall k, v :: 0 <= k < |schedule| ==> !Deletes(At(s, schedule, k), schedule[k], v)
  {
    forall k, v | 0 <= k < |schedule| ensures !Deletes(At(s, schedule, k), schedule[k], v) {
      ReleaseFreeRuns(digest, cfg, s, schedule[..k]);
    }
  }

  /** In particular, in every release-free interleaving exhaustion means a full slice. */
  lemma ExhaustedMeansFullWithoutReleases(digest: Digest, cfg: Config, s: State, schedule: seq<Event>, id: nat, a: int,
                                          user: string, customer: int)
    requires Agreed(s) && Legal(digest, cfg, schedule) && ReleaseFree(schedule)
    requires id in Exec(s, schedule).calls && PlanFor(digest, user, customer, cfg).Ok?
    requires Exec(s, schedule).calls[id] == AllocExhausted(user, PlanFor(digest, user, customer, cfg).value)
    requires Usable(CustomerNetwork(customer, cfg).value, a)
    ensures 0 <= a < 0x1_0000_0000 && Held(Exec(s, schedule).rows, AddressText(a))
  {
    NothingDeletedWithoutReleases(digest, cfg, s, schedule);
    ExhaustedMeansFull(digest, cfg, s, schedule, id, a, user, customer);
  }

  // ------------------------------------------------------------------ what an exhausted call saw, in every run

  /** Event k is the INSERT of call `id` for candidate j. */
  predicate Tries(s: State, schedule: seq<Event>, k: nat, id: nat, user: string, p: Plan, j: nat) {
    k < |schedule| && schedule[k] == Run(id) && Executes(At(s, schedule, k), schedule[k], AllocInsert(user, p, j))
  }

  /** The row of the user is deleted after event k. */
  ghost predicate OwnRowDeleted(s: State, schedule: seq<Event>, k: nat, user: string) {
    exists m :: k < m < |schedule| && Deletes(At(s, schedule, m), schedule[m], user)
  }

  ghost predicate WasTaken(s: State, schedule: seq<Event>, k: nat, user: string, ip: string) {
    && k < |schedule|
    && (Held(At(s, schedule, k).rows, ip) || (user in At(s, schedule, k).rows && OwnRowDeleted(s, schedule, k, user)))
  }

  /** Candidate j was tried, and was held then; or the user had a row then, which was deleted later. */
  ghost predicate SawHeld(s: State, schedule: seq<Event>, id: nat, user: string, p: Plan, j: nat) {
    && j < |p.probes|
    && exists k :: Tries(s, schedule, k, id, user, p, j) && WasTaken(s, schedule, k, user, p.probes[j])
  }

  /** The same, with the user's row possibly still there. */
  ghost predicate SawTaken(s: State, schedule: seq<Event>, id: nat, user: string, p: Plan, j: nat) {
    SawHeld(s, schedule, id, user, p, j)
    || (user in Exec(s, schedule).rows
        && exists k :: Tries(s, schedule, k, id, user, p, j) && user in At(s, schedule, k).rows)
  }

  /** What call `id` has behind it. */
  ghost predicate Past(s: State, schedule: seq<Event>, id: nat, c: Call) {
    match c
    case AllocLookup(_, planned) => planned.Ok? ==> |planned.value.probes| >= 1
    case AllocInsert(u, p, i) => i < |p.probes| && forall j :: 0 <= j < i ==> SawHeld(s, schedule, id, u, p, j)
    case AllocRecheck(u, p, i) =>
      i < |p.probes| && SawTaken(s, schedule, id, u, p, i)
        && forall j :: 0 <= j < i ==> SawHeld(s, schedule, id, u, p, j)
    case AllocExhausted(u, p) => forall j :: 0 <= j < |p.probes| ==> SawHeld(s, schedule, id, u, p, j)
    case _ => true
  }

  lemma OwnRowStaysDeleted(s: State, front: seq<Event>, e: Event, k: nat, user: string)
    requires OwnRowDeleted(s, front, k, user)
    ensures OwnRowDeleted(s, front + [e], k, user)
  {
    var m :| k < m < |front| && Deletes(At(s, front, m), front[m], user);
    AtFront(s, front + [e], front, m);
    assert (front + [e])[m] == front[m];
    assert Deletes(At(s, front + [e], m), (front + [e])[m], user);
  }

  lemma TriesStay(s: State, front: seq<Event>, e: Event, k: nat, id: nat, user: string, p: Plan, j: nat)
    requires Tries(s, front, k, id, user, p, j)
    ensures Tries(s, front + [e], k, id, user, p, j) && At(s, front + [e], k) == At(s, front, k)
  {
    AtFront(s, front + [e], front, k);
    assert (front + [e])[k] == front[k];
  }

  lemma SawHeldStays(s: State, front: seq<Event>, e: Event, id: nat, user: string, p: Plan, j: nat)
    requires SawHeld(s, front, id, user, p, j)
    ensures SawHeld(s, front + [e], id, user, p, j)
  {
    var k :| Tries(s, front, k, id, user, p, j) && WasTaken(s, front, k, user, p.probes[j]);
    TriesStay(s, front, e, k, id, user, p, j);
    if !Held(At(s, front, k).rows, p.probes[j]) { OwnRowStaysDeleted(s, front, e, k, user); }
  }

  /** A row that is there no longer after an event has been deleted by it. */
  lemma GoneIsDeleted(t: State, e: Event, user: string)
    requires user in t.rows && user !in Next(t, e).rows
    ensures Deletes(t, e, user)
  {
  }

  lemma SawTakenStays(s: State, front: seq<Event>, e: Event, id: nat, user: string, p: Plan, j: nat)
    requires SawTaken(s, front, id, user, p, j) && j < |p.probes|
    ensures SawTaken(s, front + [e], id, user, p, j)
  {
    if SawHeld(s, front, id, user, p, j) {
      SawHeldStays(s, front, e, id, user, p, j);
    } else {
      var k :| Tries(s, front, k, id, user, p, j) && user in At(s, front, k).rows;
      TriesStay(s, front, e, k, id, user, p, j);
      ExecSnoc(s, front, e);
      if user !in Exec(s, front + [e]).rows {
        GoneIsDeleted(Exec(s, front), e, user);
        assert At(s, front + [e], |front|) == Exec(s, front) by { assert (front + [e])[..|front|] == front; }
        assert Deletes(At(s, front + [e], |front|), (front + [e])[|front|], user);
        assert OwnRowDeleted(s, front + [e], k, user);
      }
    }
  }

  lemma PastStays(s: State, front: seq<Event>, e: Event, id: nat, c: Call)
    requires Past(s, front, id, c)
    ensures Past(s, front + [e], id, c)
  {
    if c.AllocInsert? || c.AllocRecheck? || c.AllocExhausted? {
      forall j | 0 <= j < |c.plan.probes| && SawHeld(s, front, id, c.user, c.plan, j)
        ensures SawHeld(s, front + [e], id, c.user, c.plan, j)
      {
        SawHeldStays(s, front, e, id, c.user, c.plan, j);
      }
      if c.AllocRecheck? { SawTakenStays(s, front, e, id, c.user, c.plan, c.i); }
    }
  }

  /** A failed INSERT saw its candidate held or the user's row. */
  lemma InsertSees(s: State, front: seq<Event>, id: nat, user: string, p: Plan, j: nat)
    requires var t := Exec(s, front); id in t.calls && t.calls[id] == AllocInsert(user, p, j)
    requires j < |p.probes| && !Insertable(Exec(s, front).rows, user, p.probes[j])
    ensures SawTaken(s, front + [Run(id)], id, user, p, j)
  {
    var all := front + [Run(id)];
    assert all[..|front|] == front;
    ExecSnoc(s, front, Run(id));
    assert Tries(s, all, |front|, id, user, p, j);
  }

  /** A re-check that finds no row of the user. */
  lemma RecheckSees(s: State, front: seq<Event>, id: nat, user: string, p: Plan, j: nat)
    requires SawTaken(s, front, id, user, p, j) && user !in Exec(s, front).rows && j < |p.probes|
    ensures SawHeld(s, front + [Run(id)], id, user, p, j)
  {
    SawHeldStays(s, front, Run(id), id, user, p, j);
  }

  lemma InsertPast(s: State, front: seq<Event>, id: nat)
    requires var t := Exec(s, front); id in t.calls && t.calls[id].AllocInsert? && Past(s, front, id, t.calls[id])
    ensures Past(s, front + [Run(id)], id, Advance(Exec(s, front).rows, Exec(s, front).calls[id]).1)
  {
    var t := Exec(s, front);
    var c := t.calls[id];
    PastStays(s, front, Run(id), id, c);
    if !Insertable(t.rows, c.user, c.plan.probes[c.i]) { InsertSees(s, front, id, c.user, c.plan, c.i); }
  }

  lemma RecheckPast(s: State, front: seq<Event>, id: nat)
    requires var t := Exec(s, front); id in t.calls && t.calls[id].AllocRecheck? && Past(s, front, id, t.calls[id])
    ensures Past(s, front + [Run(id)], id, Advance(Exec(s, front).rows, Exec(s, front).calls[id]).1)
  {
    var t := Exec(s, front);
    var c, all := t.calls[id], front + [Run(id)];
    if c.user !in t.rows {
      forall j | 0 <= j <= c.i ensures SawHeld(s, all, id, c.user, c.plan, j) {
        if j < c.i {
          SawHeldStays(s, front, Run(id), id, c.user, c.plan, j);
        } else {
          RecheckSees(s, front, id, c.user, c.plan, j);
        }
      }
    }
  }

  lemma PastStep(s: State, front: seq<Event>, id: nat)
    requires var t := Exec(s, front); id in t.calls && Past(s, front, id, t.calls[id])
    ensures var t := Exec(s, front + [Run(id)]); id in t.calls && Past(s, front + [Run(id)], id, t.calls[id])
  {
    var t := Exec(s, front);
    var c := t.calls[id];
    ExecSnoc(s, front, Run(id));
    if c.AllocInsert? {
      InsertPast(s, front, id);
    } else if c.AllocRecheck? {
      RecheckPast(s, front, id);
    } else {
      PastStays(s, front, Run(id), id, c);
    }
  }

  lemma {:induction false} PastInRun(digest: Digest, cfg: Config, s: State, schedule: seq<Event>, id: nat)
    requires Legal(digest, cfg, schedule) && id !in s.calls
    ensures var t := Exec(s, schedule); id in t.calls ==> Past(s, schedule, id, t.calls[id])
  {
    if schedule != [] {
      var n := |schedule| - 1;
      var front, e := schedule[..n], schedule[n];
      PastInRun(digest, cfg, s, front, id);
      assert schedule == front + [e];
      ExecSnoc(s, front, e);
      var t := Exec(s, front);
      if id in t.calls {
        if e == Run(id) { PastStep(s, front, id); } else { PastStays(s, front, e, id, t.calls[id]); }
      }
    }
  }

  /** In every interleaving, releases included: a call that ends exhausted tried every usable address of the slice, and
      each was held when it was tried, or the user had a row then that was deleted before the end. */
  lemma ExhaustedSawEachHeld(digest: Digest, cfg: Config, s: State, schedule: seq<Event>, id: nat, a: int,
                             user: string, customer: int)
    returns (k: nat, j: nat)
    requires Legal(digest, cfg, schedule) && id !in s.calls
    requires id in Exec(s, schedule).calls && PlanFor(digest, user, customer, cfg).Ok?
    requires Exec(s, schedule).calls[id] == AllocExhausted(user, PlanFor(digest, user, customer, cfg).value)
    requires Usable(CustomerNetwork(customer, cfg).value, a)
    ensures 0 <= a < 0x1_0000_0000
    ensures Tries(s, schedule, k, id, user, PlanFor(digest, user, customer, cfg).value, j)
    ensures var p := PlanFor(digest, user, customer, cfg).value; j < |p.probes| && p.probes[j] == AddressText(a)
    ensures Held(At(s, schedule, k).rows, AddressText(a))
            || (user in At(s, schedule, k).rows && OwnRowDeleted(s, schedule, k, user))
  {
    var p := PlanFor(digest, user, customer, cfg).value;
    PastInRun(digest, cfg, s, schedule, id);
    j := ProbeOf(digest, user, customer, cfg, a);
    assert SawHeld(s, schedule, id, user, p, j);
    k :| Tries(s, schedule, k, id, user, p, j) && WasTaken(s, schedule, k, user, p.probes[j]);
  }

  // ------------------------------------------------------------------ both conditions are needed

  /** n statements of call `id`, and the state they lead to. */
  function Runs(id: nat, n: nat): (r: seq<Event>)
    ensures |r| == n
  {
    seq(n, _ => Run(id))
  }

  ghost function AfterRuns(s: State, id: nat, n: nat): State {
    if n == 0 then s else Next(AfterRuns(s, id, n - 1), Run(id))
  }

  lemma {:induction false} ExecRuns(s: State, id: nat, n: nat)
    ensures Exec(s, Runs(id, n)) == AfterRuns(s, id, n)
  {
    if n > 0 {
      ExecRuns(s, id, n - 1);
      assert Runs(id, n)[..n - 1] == Runs(id, n - 1);
    }
  }

  /** One more statement of the call, which leaves the table as it is. */
  lemma NextOf(s: State, id: nat, c: Call, d: Call)
    requires Advance(s.rows, c) == (s.rows, d)
    ensures Next(State(s.rows, s.calls[id := c]), Run(id)) == State(s.rows, s.calls[id := d])
  {
    assert s.calls[id := c][id := d] == s.calls[id := d];
  }

  lemma InsertFails(rows: Table, user: string, p: Plan, i: nat)
    requires i < |p.probes| && Held(rows, p.probes[i])
    ensures Advance(rows, AllocInsert(user, p, i)) == (rows, AllocRecheck(user, p, i))
  {
  }

  /** While every candidate is held, a call goes on to the next candidate. */
  lemma {:induction false} ProbesFail(s: State, id: nat, user: string, p: Plan, i: nat)
    requires id in s.calls && s.calls[id] == AllocInsert(user, p, 0) && user !in s.rows && i < |p.probes|
    requires forall j :: 0 <= j <= i ==> Held(s.rows, p.probes[j])
    ensures AfterRuns(s, id, 2 * i + 1) == State(s.rows, s.calls[id := AllocRecheck(user, p, i)])
  {
    if i == 0 {
      assert s.calls[id := AllocInsert(user, p, i)] == s.calls;
    } else {
      ProbesFail(s, id, user, p, i - 1);
      NextOf(s, id, AllocRecheck(user, p, i - 1), AllocInsert(user, p, i));
    }
    assert AfterRuns(s, id, 2 * i) == State(s.rows, s.calls[id := AllocInsert(user, p, i)]);
    InsertFails(s.rows, user, p, i);
    NextOf(s, id, AllocInsert(user, p, i), AllocRecheck(user, p, i));
  }

  lemma Then(s: State, schedule: seq<Event>, t: State, e: Event)
    requires Exec(s, schedule) == t
    ensures Exec(s, schedule + [e]) == Next(t, e)
  {
    ExecSnoc(s, schedule, e);
  }

  /** Up to the last re-check of an allocation that finds every candidate held. */
  function ProbeAll(user: string, p: Plan): seq<Event>
    requires |p.probes| >= 1
  {
    StartProbing(user, p) + Runs(0, 2 * (|p.probes| - 1) + 1)
  }

  function StartProbing(user: string, p: Plan): seq<Event> {
    [Begin(0, AllocLookup(user, Ok(p)))] + [Run(0)]
  }

  lemma LookupFails(rows: Table, user: string, p: Plan)
    requires user !in rows
    ensures Exec(State(rows, map[]), StartProbing(user, p)) == State(rows, map[0 := AllocInsert(user, p, 0)])
  {
    var s, b := State(rows, map[]), Begin(0, AllocLookup(user, Ok(p)));
    Then(s, [], s, b);
    assert [] + [b] == [b];
    Then(s, [b], Next(s, b), Run(0));
  }

  lemma ProbeAllFails(rows: Table, user: string, p: Plan)
    requires user !in rows && |p.probes| >= 1 && HeldUpTo(rows, p.probes, |p.probes|)
    ensures Exec(State(rows, map[]), ProbeAll(user, p)) == State(rows, map[0 := AllocRecheck(user, p, |p.probes| - 1)])
  {
    var i := |p.probes| - 1;
    var t := State(rows, map[0 := AllocInsert(user, p, 0)]);
    assert Exec(State(rows, map[]), ProbeAll(user, p)) == AfterRuns(t, 0, 2 * i + 1) by {
      LookupFails(rows, user, p);
      ThenRuns(State(rows, map[]), StartProbing(user, p), t, 0, 2 * i + 1);
    }
    assert AfterRuns(t, 0, 2 * i + 1) == State(rows, map[0 := AllocRecheck(user, p, i)]) by {
      ProbesFail(t, 0, user, p, i);
      OneCall(AllocInsert(user, p, 0), AllocRecheck(user, p, i));
    }
  }

  lemma OneCall(c: Call, d: Call)
    ensures map[0 := c][0 := d] == map[0 := d]
  {
  }

  lemma ThenRuns(s: State, first: seq<Event>, t: State, id: nat, n: nat)
    requires Exec(s, first) == t
    ensures Exec(s, first + Runs(id, n)) == AfterRuns(t, id, n)
  {
    ExecRuns(t, id, n);
    ExecSplit(s, first, Runs(id, n));
  }

  /** Three more events. */
  lemma ThenThree(s: State, first: seq<Event>, t: State, e: Event, f: Event, g: Event)
    requires Exec(s, first) == t
    ensures Exec(s, first + [e] + [f] + [g]) == Next(Next(Next(t, e), f), g)
  {
    Then(s, first, t, e);
    Then(s, first + [e], Next(t, e), f);
    Then(s, first + [e] + [f], Next(Next(t, e), f), g);
  }

  /** A release of an address of the slice forges exhaustion: from every table that holds all candidates, and for every
      holder v of one of them, this legal schedule raises `FixedIpExhausted` while v's address is free. */
  lemma ReleaseForgesExhaustion(digest: Digest, cfg: Config, rows: Table, user: string, customer: int, v: string)
    returns (schedule: seq<Event>)
    requires PlanFor(digest, user, customer, cfg).Ok? && Injective(rows) && user !in rows && v in rows
    requires IsUser(user) && IsUser(v)
    requires var p := PlanFor(digest, user, customer, cfg).value;
             HeldUpTo(rows, p.probes, |p.probes|) && rows[v].ip in p.probes
    ensures Legal(digest, cfg, schedule)
    ensures schedule == ProbeAll(user, PlanFor(digest, user, customer, cfg).value) + [Begin(1, ReleaseDelete(v))]
            + [Run(1)] + [Run(0)]
    ensures var p := PlanFor(digest, user, customer, cfg).value;
            Exec(State(rows, map[]), schedule) ==
              State(rows - {v}, map[0 := AllocExhausted(user, p), 1 := ReleaseReturned(v, true)])
    ensures !Held(rows - {v}, rows[v].ip)
  {
    var p := PlanFor(digest, user, customer, cfg).value;
    var s := State(rows, map[]);
    ProbeAllFails(rows, user, p);
    ReleaseBeforeRecheck(rows, user, p, v);
    var probing := ProbeAll(user, p);
    ThenThree(s, probing, Exec(s, probing), Begin(1, ReleaseDelete(v)), Run(1), Run(0));
    schedule := probing + [Begin(1, ReleaseDelete(v))] + [Run(1)] + [Run(0)];
    LegalStart(digest, cfg, user, customer);
  }

  lemma LegalStart(digest: Digest, cfg: Config, user: string, customer: int)
    requires PlanFor(digest, user, customer, cfg).Ok? && IsUser(user)
    ensures Legal(digest, cfg, ProbeAll(user, PlanFor(digest, user, customer, cfg).value))
  {
    var p := PlanFor(digest, user, customer, cfg).value;
    assert IsStart(digest, cfg, AllocLookup(user, Ok(p)));
  }

  lemma ReleaseBeforeRecheck(rows: Table, user: string, p: Plan, v: string)
    requires user !in rows && v in rows && |p.probes| >= 1
    ensures Next(Next(Next(State(rows, map[0 := AllocRecheck(user, p, |p.probes| - 1)]), Begin(1, ReleaseDelete(v))),
                      Run(1)), Run(0))
         == State(rows - {v}, map[0 := AllocExhausted(user, p), 1 := ReleaseReturned(v, true)])
  {
    var last := AllocRecheck(user, p, |p.probes| - 1);
    assert Next(State(rows, map[0 := last]), Begin(1, ReleaseDelete(v)))
           == State(rows, map[0 := last, 1 := ReleaseDelete(v)]);
    assert Next(State(rows, map[0 := last, 1 := ReleaseDelete(v)]), Run(1))
        == State(rows - {v}, map[0 := last, 1 := ReleaseReturned(v, true)]);
  }

  /** The two calls that take and give back the user's row around one INSERT of call 0. */
  function OwnRound(user: string, ip: string, n: int, k: nat): seq<Event> {
    [Begin(k, AssignLookup(user, ip, n)), Run(k), Run(k), Run(0), Begin(k + 1, ReleaseDelete(user)), Run(k + 1), Run(0)]
  }

  /** Where call 0 stands after its re-check for candidate i. */
  function AfterRecheck(user: string, p: Plan, i: nat): Call {
    if i + 1 < |p.probes| then AllocInsert(user, p, i + 1) else AllocExhausted(user, p)
  }

  lemma OwnRoundFails(s: State, user: string, p: Plan, i: nat, ip: string, n: int, k: nat)
    requires 0 in s.calls && s.calls[0] == AllocInsert(user, p, i) && i < |p.probes| && k >= 1
    requires k !in s.calls && k + 1 !in s.calls && user !in s.rows && !Held(s.rows, ip)
    ensures Exec(s, OwnRound(user, ip, n, k)) ==
            State(s.rows, s.calls[0 := AfterRecheck(user, p, i)][k := AssignReturned(user, ip)]
                                 [k + 1 := ReleaseReturned(user, true)])
  {
    var taken := State(s.rows[user := Row(ip, n)],
                       s.calls[k := AssignReturned(user, ip)][0 := AllocRecheck(user, p, i)]);
    var e := OwnRound(user, ip, n, k);
    assert Next(Next(Next(Next(s, e[0]), e[1]), e[2]), e[3]) == taken by { RowTaken(s, user, p, i, ip, n, k); }
    RowGivenBack(s.rows, taken, user, p, i, k);
    assert Next(Next(Next(taken, e[4]), e[5]), e[6])
        == State(s.rows, taken.calls[k + 1 := ReleaseReturned(user, true)][0 := AfterRecheck(user, p, i)]);
    ExecSeven(s, e);
    Reordered(s.calls, k, AssignReturned(user, ip), AllocRecheck(user, p, i), ReleaseReturned(user, true),
              AfterRecheck(user, p, i));
  }

  lemma Reordered(calls: map<nat, Call>, k: nat, a: Call, b: Call, c: Call, d: Call)
    requires k >= 1
    ensures calls[k := a][0 := b][k + 1 := c][0 := d] == calls[0 := d][k := a][k + 1 := c]
  {
  }

  /** An import gives the user a row; the INSERT of call 0 fails on the primary key. */
  lemma RowTaken(s: State, user: string, p: Plan, i: nat, ip: string, n: int, k: nat)
    requires 0 in s.calls && s.calls[0] == AllocInsert(user, p, i) && i < |p.probes| && k >= 1
    requires k !in s.calls && user !in s.rows && !Held(s.rows, ip)
    ensures Next(Next(Next(Next(s, Begin(k, AssignLookup(user, ip, n))), Run(k)), Run(k)), Run(0)) ==
            State(s.rows[user := Row(ip, n)], s.calls[k := AssignReturned(user, ip)][0 := AllocRecheck(user, p, i)])
  {
    NextOf(s, k, AssignLookup(user, ip, n), AssignInsert(user, ip, n));
    var t := State(s.rows, s.calls[k := AssignInsert(user, ip, n)]);
    var rows := s.rows[user := Row(ip, n)];
    assert Next(t, Run(k)) == State(rows, s.calls[k := AssignReturned(user, ip)]) by {
      assert t.calls[k := AssignReturned(user, ip)] == s.calls[k := AssignReturned(user, ip)];
    }
  }

  /** A release takes the row away again; the re-check of call 0 finds none. */
  lemma RowGivenBack(rows: Table, t: State, user: string, p: Plan, i: nat, k: nat)
    requires 0 in t.calls && t.calls[0] == AllocRecheck(user, p, i) && i < |p.probes|
    requires k + 1 !in t.calls && user in t.rows && user !in rows && t.rows - {user} == rows
    ensures Next(Next(Next(t, Begin(k + 1, ReleaseDelete(user))), Run(k + 1)), Run(0)) ==
            State(rows, t.calls[k + 1 := ReleaseReturned(user, true)][0 := AfterRecheck(user, p, i)])
  {
    var u := State(t.rows, t.calls[k + 1 := ReleaseDelete(user)]);
    assert Next(u, Run(k + 1)) == State(rows, t.calls[k + 1 := ReleaseReturned(user, true)]) by {
      assert u.calls[k + 1 := ReleaseReturned(user, true)] == t.calls[k + 1 := ReleaseReturned(user, true)];
    }
  }

  lemma ExecSeven(s: State, e: seq<Event>)
    requires |e| == 7
    ensures Exec(s, e) == Next(Next(Next(Next(Next(Next(Next(s, e[0]), e[1]), e[2]), e[3]), e[4]), e[5]), e[6])
  {
    var t := Next(Next(Next(s, e[0]), e[1]), e[2]);
    var three := [] + [e[0]] + [e[1]] + [e[2]];
    ThenThree(s, [], s, e[0], e[1], e[2]);
    ThenThree(s, three, t, e[3], e[4], e[5]);
    Then(s, three + [e[3]] + [e[4]] + [e[5]], Next(Next(Next(t, e[3]), e[4]), e[5]), e[6]);
    assert e == three + [e[3]] + [e[4]] + [e[5]] + [e[6]];
  }

  /** A supernet 10.0.0.0/8 cut into slices of four addresses, one of which is usable. */
  const TINY := Config(V4(0x0A00_0000, 8), 30)

  lemma TinyPlan(digest: Digest, user: string)
    ensures PlanFor(digest, user, 0, TINY) == Ok(Plan(0, ["10.0.0.2"]))
  {
    TinyLayout(digest, user);
    TinyText();
    var layout := Layout(0x0A00_0000, 1, 0);
    assert layout.ProbeAddress(0) == 0x0A00_0002;
    assert layout.Probes() == ["10.0.0.2"];
  }

  lemma TinyLayout(digest: Digest, user: string)
    ensures LayoutFor(digest, user, 0, TINY) == Ok(Layout(0x0A00_0000, 1, 0))
  {
    assert Pow2(24) == 0x100_0000 by { assert Pow2(8) == 256; Pow2Sum(8, 8); Pow2Sum(16, 8); }
    assert BlockSize(TINY) == 4;
    assert SupernetOf(TINY) == Ok(Network(0x0A00_0000, 8));
    CountIsPower(TINY);
    assert CustomerNetwork(0, TINY) == Ok(Network(0x0A00_0000, 30));
  }

  lemma TinyText()
    ensures AddressText(0x0A00_0002) == "10.0.0.2"
  {
    var o := Octets(0x0A00_0002);
    assert o == [10, 0, 0, 2];
    assert Decimal(0) == "0" && Decimal(1) == "1" && Decimal(2) == "2";
    assert Decimal(10) == Decimal(1) + [DigitOf(0)] == "10";
    assert seq(4, i requires 0 <= i < 4 => Decimal(o[i])) == ["10", "0", "0", "2"];
    assert Join(["2"], '.') == "2" && Join(["0", "2"], '.') == "0.2";
    assert ["0", "0", "2"][1..] == ["0", "2"] && ["10", "0", "0", "2"][1..] == ["0", "0", "2"];
    assert Join(["0", "0", "2"], '.') == "0.0.2";
  }

  /** The concrete case: one usable address, held by "a" when "b" tries to insert it and released before the re-check.
      The table is empty when `FixedIpExhausted` is raised, and every call of the schedule is one the system can
      start. */
  lemma ReleaseCanForgeExhaustion(digest: Digest) returns (schedule: seq<Event>)
    ensures Legal(digest, TINY, schedule)
    ensures Exec(State(map["a" := Row("10.0.0.2", 0)], map[]), schedule) ==
            State(map[], map[0 := AllocExhausted("b", Plan(0, ["10.0.0.2"])), 1 := ReleaseReturned("a", true)])
  {
    TinyPlan(digest, "b");
    var rows: Table := map["a" := Row("10.0.0.2", 0)];
    assert Held(rows, "10.0.0.2") by { assert rows["a"].ip == "10.0.0.2"; }
    assert rows - {"a"} == map[];
    assert IsUser("a") && IsUser("b");
    schedule := ReleaseForgesExhaustion(digest, TINY, rows, "b", 0, "a");
  }

  // ------------------------------------------------------------------ conflicts of imports

  predicate Holds(rows: Table, user: string, ip: string) { user in rows && rows[user].ip == ip }

  /** Somebody stands in the way: the user holds another address, or another user holds this one. */
  ghost predicate Taken(rows: Table, user: string, ip: string) {
    (user in rows && rows[user].ip != ip) || exists v :: v != user && Holds(rows, v, ip)
  }

  /** The answer of an import whose SELECT sees r0 and whose INSERT, if it comes to that, sees r1. */
  function ImportAnswer(r0: Table, r1: Table, user: string, ip: string, n: int): Call {
    var c := Advance(r0, AssignLookup(user, ip, n)).1;
    if c.AssignInsert? then Advance(r1, c).1 else c
  }

  /** The table that decides: the one at the INSERT if there is one. */
  function Decisive(r0: Table, r1: Table, user: string): Table { if user in r0 then r0 else r1 }

  /** For any two tables: the import is refused exactly when somebody stands in the way, or falsely, which is exactly
      when the pair itself appeared between its two statements. */
  lemma ConflictIff(r0: Table, r1: Table, user: string, ip: string, n: int)
    requires Injective(r0) && Injective(r1)
    ensures var c := ImportAnswer(r0, r1, user, ip, n);
            && (c == AssignConflict(user, ip) || c == AssignReturned(user, ip))
            && (c.AssignConflict? <==> Taken(Decisive(r0, r1, user), user, ip) || (user !in r0 && Holds(r1, user, ip)))
            && (c.AssignConflict? && Holds(Decisive(r0, r1, user), user, ip) <==> user !in r0 && Holds(r1, user, ip))
  {
    if user !in r0 && user !in r1 && Held(r1, ip) {
      var v :| v in r1 && r1[v].ip == ip;
      assert v != user && Holds(r1, v, ip);
    }
  }

  /** The event inserts a row for the user. */
  predicate InsertsFor(t: State, e: Event, user: string) {
    e.Run? && e.id in t.calls && user !in t.rows && user in Next(t, e).rows
  }

  /** No call for the user executes an INSERT. */
  ghost predicate NoRival(s: State, schedule: seq<Event>, user: string) {
    forall k :: 0 <= k < |schedule| && schedule[k].Run? && schedule[k].id in At(s, schedule, k).calls ==>
      var c := At(s, schedule, k).calls[schedule[k].id]; !((c.AllocInsert? || c.AssignInsert?) && c.user == user)
  }

  /** The last change to the user's row is that event k inserts it. */
  ghost predicate InsertedAt(s: State, schedule: seq<Event>, k: nat, user: string) {
    && k < |schedule| && InsertsFor(At(s, schedule, k), schedule[k], user)
    && forall m :: k < m <= |schedule| ==> user in At(s, schedule, m).rows
  }

  lemma {:induction false} RowsAppearByInsert(s: State, schedule: seq<Event>, user: string)
    requires user !in s.rows
    ensures user in Exec(s, schedule).rows <==> exists k :: InsertedAt(s, schedule, k, user)
  {
    if exists k :: InsertedAt(s, schedule, k, user) {
      assert At(s, schedule, |schedule|) == Exec(s, schedule) by { assert schedule[..|schedule|] == schedule; }
    } else if schedule != [] && user in Exec(s, schedule).rows {
      var n := |schedule| - 1;
      var front := schedule[..n];
      assert At(s, schedule, |schedule|) == Exec(s, schedule) by { assert schedule[..|schedule|] == schedule; }
      if user !in Exec(s, front).rows {
        assert InsertedAt(s, schedule, n, user);
      } else {
        RowsAppearByInsert(s, front, user);
        var k :| InsertedAt(s, front, k, user);
        InsertedStays(s, front, schedule, k, user);
      }
    }
  }

  lemma InsertedStays(s: State, front: seq<Event>, schedule: seq<Event>, k: nat, user: string)
    requires InsertedAt(s, front, k, user) && schedule != [] && front == schedule[..|schedule| - 1]
    requires user in Exec(s, schedule).rows
    ensures InsertedAt(s, schedule, k, user)
  {
    forall m | k <= m <= |front| ensures At(s, schedule, m) == At(s, front, m) {
      AtFront(s, schedule, front, m);
    }
    assert schedule[..|schedule|] == schedule;
  }

  predicate OthersOnly(schedule: seq<Event>, id: nat) { forall k :: 0 <= k < |schedule| ==> schedule[k] != Run(id) }

  lemma {:induction false} OthersKeepCall(s: State, schedule: seq<Event>, id: nat)
    requires id in s.calls && OthersOnly(schedule, id)
    ensures var t := Exec(s, schedule); id in t.calls && t.calls[id] == s.calls[id]
  {
    if schedule != [] { OthersKeepCall(s, schedule[..|schedule| - 1], id); }
  }

  /** The whole of an import: what other calls do before it, its SELECT, what they do in between, its INSERT. */
  function ImportRun(before: seq<Event>, between: seq<Event>, id: nat): seq<Event> {
    before + [Run(id)] + between + [Run(id)]
  }

  lemma ImportRunAnswers(s: State, before: seq<Event>, between: seq<Event>, id: nat, user: string, ip: string, n: int)
    requires OthersOnly(between, id) && Injective(s.rows)
    requires var t := Exec(s, before); id in t.calls && t.calls[id] == AssignLookup(user, ip, n)
    ensures var r0, t := Exec(s, before).rows, Exec(s, before + [Run(id)]);
            var r1, end := Exec(t, between).rows, Exec(s, ImportRun(before, between, id));
            && id in end.calls && end.calls[id] == ImportAnswer(r0, r1, user, ip, n)
            && t.rows == r0 && Injective(r0) && Injective(r1)
  {
    var t := Exec(s, before + [Run(id)]);
    Then(s, before, Exec(s, before), Run(id));
    OthersKeepCall(t, between, id);
    ExecSplit(s, before + [Run(id)], between);
    Then(s, before + [Run(id)] + between, Exec(t, between), Run(id));
    TableStaysInjective(s, before);
    TableStaysInjective(t, between);
  }

  /** In every interleaving an import ends in a conflict if and only if the user holds another address or another user
      holds this one when it is decided, or the pair itself appeared between its statements. In the last case alone it
      is refused although the table holds the pair; then another call's INSERT for the user came in between. */
  lemma FalseConflictIff(s: State, before: seq<Event>, between: seq<Event>, id: nat, user: string, ip: string, n: int)
    requires OthersOnly(between, id) && Injective(s.rows)
    requires var t := Exec(s, before); id in t.calls && t.calls[id] == AssignLookup(user, ip, n)
    ensures var r0, t := Exec(s, before).rows, Exec(s, before + [Run(id)]);
            var r1, end := Exec(t, between).rows, Exec(s, ImportRun(before, between, id));
            var rows := Decisive(r0, r1, user);
            && id in end.calls && (end.calls[id] == AssignConflict(user, ip)
                                   || end.calls[id] == AssignReturned(user, ip))
            && (end.calls[id].AssignConflict? <==> Taken(rows, user, ip) || (user !in r0 && Holds(r1, user, ip)))
            && (end.calls[id].AssignConflict? && Holds(rows, user, ip) <==>
                user !in r0 && Holds(r1, user, ip) && exists k :: InsertedAt(t, between, k, user))
  {
    ImportRunAnswers(s, before, between, id, user, ip, n);
    var r0, t := Exec(s, before).rows, Exec(s, before + [Run(id)]);
    ConflictIff(r0, Exec(t, between).rows, user, ip, n);
    if user !in r0 { RowsAppearByInsert(t, between, user); }
  }

  /** In every interleaving in which no other call for the user executes an INSERT between the two statements, an
      import is refused if and only if the user holds another address or another user holds this one. */
  lemma ConflictMeansTaken(s: State, before: seq<Event>, between: seq<Event>, id: nat, user: string, ip: string, n: int)
    requires OthersOnly(between, id) && Injective(s.rows)
    requires var t := Exec(s, before); id in t.calls && t.calls[id] == AssignLookup(user, ip, n)
    requires NoRival(Exec(s, before + [Run(id)]), between, user)
    ensures var r0, t := Exec(s, before).rows, Exec(s, before + [Run(id)]);
            var r1, end := Exec(t, between).rows, Exec(s, ImportRun(before, between, id));
            && id in end.calls
            && (end.calls[id] == AssignConflict(user, ip) <==> Taken(Decisive(r0, r1, user), user, ip))
            && (end.calls[id] == AssignReturned(user, ip) <==> !Taken(Decisive(r0, r1, user), user, ip))
  {
    FalseConflictIff(s, before, between, id, user, ip, n);
    NothingInserted(Exec(s, before + [Run(id)]), between, user);
  }

  lemma NothingInserted(s: State, schedule: seq<Event>, user: string)
    requires NoRival(s, schedule, user)
    ensures forall k :: !InsertedAt(s, schedule, k, user)
  {
  }

  /** Two racing imports of one free pair, from every table: one returns, the other is refused although the table then
      holds exactly the pair it asked for. */
  lemma RacingImportsConflict(digest: Digest, cfg: Config, rows: Table, user: string, ip: string, n: int)
    requires IsUser(user) && user !in rows && !Held(rows, ip) && ParseAddress(ip).Some?
    ensures var c := AssignLookup(user, ip, n);
            var before := [Begin(0, c), Begin(1, c)];
            var between := [Run(0), Run(0)];
            && Legal(digest, cfg, ImportRun(before, between, 1))
            && Exec(State(rows, map[]), ImportRun(before, between, 1)) ==
               State(rows[user := Row(ip, n)], map[0 := AssignReturned(user, ip), 1 := AssignConflict(user, ip)])
  {
    var c, s := AssignLookup(user, ip, n), State(rows, map[]);
    var three := [] + [Begin(0, c)] + [Begin(1, c)] + [Run(1)];
    var t := State(rows, map[0 := c, 1 := AssignInsert(user, ip, n)]);
    assert Exec(s, three) == t by {
      ThenThree(s, [], s, Begin(0, c), Begin(1, c), Run(1));
      RaceStarts(rows, user, ip, n);
    }
    assert ImportRun([Begin(0, c), Begin(1, c)], [Run(0), Run(0)], 1) == three + [Run(0)] + [Run(0)] + [Run(1)];
    ThenThree(s, three, t, Run(0), Run(0), Run(1));
    RaceDecided(rows, user, ip, n);
  }

  lemma RaceStarts(rows: Table, user: string, ip: string, n: int)
    requires user !in rows
    ensures var c := AssignLookup(user, ip, n);
            Next(Next(Next(State(rows, map[]), Begin(0, c)), Begin(1, c)), Run(1)) ==
            State(rows, map[0 := c, 1 := AssignInsert(user, ip, n)])
  {
    var c := AssignLookup(user, ip, n);
    assert Next(State(rows, map[]), Begin(0, c)) == State(rows, map[0 := c]);
    assert Next(State(rows, map[0 := c]), Begin(1, c)) == State(rows, map[0 := c, 1 := c]);
  }

  lemma RaceDecided(rows: Table, user: string, ip: string, n: int)
    requires user !in rows && !Held(rows, ip)
    ensures var t := State(rows, map[0 := AssignLookup(user, ip, n), 1 := AssignInsert(user, ip, n)]);
            Next(Next(Next(t, Run(0)), Run(0)), Run(1)) ==
            State(rows[user := Row(ip, n)], map[0 := AssignReturned(user, ip), 1 := AssignConflict(user, ip)])
  {
    var d := AssignInsert(user, ip, n);
    var t := State(rows, map[0 := AssignLookup(user, ip, n), 1 := d]);
    assert Next(t, Run(0)) == State(rows, map[0 := d, 1 := d]);
    assert Next(State(rows, map[0 := d, 1 := d]), Run(0)) ==
           State(rows[user := Row(ip, n)], map[0 := AssignReturned(user, ip), 1 := d]);
  }
}
