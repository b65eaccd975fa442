/** Which releases the allocator of app/radius/fixed_ip.py can stand: exactly those that delete neither a row of the
    slice nor the row of the user itself leave `FixedIpExhausted` its meaning. */
module FixedIpReleases {
  import opened Text
  import opened FixedIpSlices
  import opened FixedIpSystem
  import opened FixedIpRaces

  // ------------------------------------------------------------------ what a schedule deletes

  /** Which rows may be deleted: of this user, holding this address. */
  type Deletions = (string, string) -> bool

  ghost predicate DeletesOnly(s: State, schedule: seq<Event>, d: Deletions) {
    forall k, v :: 0 <= k < |schedule| && Deletes(At(s, schedule, k), schedule[k], v)
      ==> d(v, At(s, schedule, k).rows[v].ip)
  }

  /** No release is waiting to run. */
  ghost predicate Calm(s: State) { forall id :: id in s.calls ==> !s.calls[id].ReleaseDelete? }

  predicate BeginsNoRelease(schedule: seq<Event>) {
    forall k :: 0 <= k < |schedule| && schedule[k].Begin? ==> !schedule[k].call.ReleaseDelete?
  }

  lemma DeletesSnoc(s: State, schedule: seq<Event>, e: Event, d: Deletions)
    requires DeletesOnly(s, schedule, d)
    requires forall v :: Deletes(Exec(s, schedule), e, v) ==> d(v, Exec(s, schedule).rows[v].ip)
    ensures DeletesOnly(s, schedule + [e], d)
  {
    var all := schedule + [e];
    forall k, v | 0 <= k < |all| && Deletes(At(s, all, k), all[k], v) ensures d(v, At(s, all, k).rows[v].ip) {
      AtFront(s, all, schedule, k);
      assert At(s, schedule, |schedule|) == Exec(s, schedule) by { assert schedule[..|schedule|] == schedule; }
    }
  }

  lemma CalmStep(s: State, e: Event)
    requires Calm(s) && (e.Begin? ==> !e.call.ReleaseDelete?)
    ensures Calm(Next(s, e)) && forall v :: !Deletes(s, e, v)
  {
  }

  lemma {:induction false} CalmRun(s: State, first: seq<Event>, rest: seq<Event>, d: Deletions)
    requires DeletesOnly(s, first, d) && Calm(Exec(s, first)) && BeginsNoRelease(rest)
    ensures DeletesOnly(s, first + rest, d) && Calm(Exec(s, first + rest))
  {
    if rest == [] {
      assert first + rest == first;
    } else {
      var n := |rest| - 1;
      CalmRun(s, first, rest[..n], d);
      assert first + rest == first + rest[..n] + [rest[n]];
      CalmStep(Exec(s, first + rest[..n]), rest[n]);
      DeletesSnoc(s, first + rest[..n], rest[n], d);
      ExecSnoc(s, first + rest[..n], rest[n]);
    }
  }

  /** A release of v's row that runs at once. */
  lemma ReleaseRuns(s: State, first: seq<Event>, id: nat, v: string, d: Deletions)
    requires DeletesOnly(s, first, d) && Calm(Exec(s, first))
    requires var t := Exec(s, first); id !in t.calls && v in t.rows && d(v, t.rows[v].ip)
    ensures var all := first + [Begin(id, ReleaseDelete(v))] + [Run(id)]; DeletesOnly(s, all, d) && Calm(Exec(s, all))
  {
    var t, begun := Exec(s, first), first + [Begin(id, ReleaseDelete(v))];
    var t' := Next(t, Begin(id, ReleaseDelete(v)));
    DeletesSnoc(s, first, Begin(id, ReleaseDelete(v)), d);
    ExecSnoc(s, first, Begin(id, ReleaseDelete(v)));
    assert t' == State(t.rows, t.calls[id := ReleaseDelete(v)]);
    DeletesSnoc(s, begun, Run(id), d);
    ExecSnoc(s, begun, Run(id));
  }

  // ------------------------------------------------------------------ forging with the user's own row

  function TakeRow(user: string, ip: string, n: int, k: nat): seq<Event> {
    [Begin(k, AssignLookup(user, ip, n)), Run(k), Run(k), Run(0)]
  }

  lemma RoundParts(first: seq<Event>, user: string, ip: string, n: int, k: nat)
    ensures first + OwnRound(user, ip, n, k)
         == first + TakeRow(user, ip, n, k) + [Begin(k + 1, ReleaseDelete(user))] + [Run(k + 1)] + [Run(0)]
  {
  }

  lemma ExecTakeRow(s: State, first: seq<Event>, user: string, p: Plan, i: nat, ip: string, n: int, k: nat)
    requires var t := Exec(s, first);
             && 0 in t.calls && t.calls[0] == AllocInsert(user, p, i) && i < |p.probes| && k >= 1
             && k !in t.calls && user !in t.rows && !Held(t.rows, ip)
    ensures var t := Exec(s, first);
            Exec(s, first + TakeRow(user, ip, n, k)) ==
            State(t.rows[user := Row(ip, n)], t.calls[k := AssignReturned(user, ip)][0 := AllocRecheck(user, p, i)])
  {
    var t, c := Exec(s, first), AssignLookup(user, ip, n);
    RowTaken(t, user, p, i, ip, n, k);
    ThenThree(s, first, t, Begin(k, c), Run(k), Run(k));
    var three := first + [Begin(k, c)] + [Run(k)] + [Run(k)];
    Then(s, three, Exec(s, three), Run(0));
    assert three + [Run(0)] == first + TakeRow(user, ip, n, k);
  }

  /** One round deletes the user's row and no other. */
  lemma RoundDeletes(s: State, first: seq<Event>, user: string, p: Plan, i: nat, ip: string, n: int, k: nat,
                     d: Deletions)
    requires var t := Exec(s, first);
             && 0 in t.calls && t.calls[0] == AllocInsert(user, p, i) && i < |p.probes| && k >= 1
             && k !in t.calls && k + 1 !in t.calls && user !in t.rows && !Held(t.rows, ip)
    requires DeletesOnly(s, first, d) && Calm(Exec(s, first)) && d(user, ip)
    ensures var all := first + OwnRound(user, ip, n, k); DeletesOnly(s, all, d) && Calm(Exec(s, all))
  {
    var taken := first + TakeRow(user, ip, n, k);
    CalmRun(s, first, TakeRow(user, ip, n, k), d);
    ExecTakeRow(s, first, user, p, i, ip, n, k);
    ReleaseRuns(s, taken, k + 1, user, d);
    CalmRun(s, taken + [Begin(k + 1, ReleaseDelete(user))] + [Run(k + 1)], [Run(0)], d);
    RoundParts(first, user, ip, n, k);
  }

  /** Rounds for all candidates from i on. */
  lemma {:induction false} OwnRounds(digest: Digest, cfg: Config, s: State, first: seq<Event>, user: string, p: Plan,
                                     i: nat, ip: string, n: int, k: nat, d: Deletions)
    returns (schedule: seq<Event>)
    requires var t := Exec(s, first);
             && 0 in t.calls && t.calls[0] == AllocInsert(user, p, i) && i < |p.probes| && k >= 1
             && (forall id :: id >= k ==> id !in t.calls) && user !in t.rows && !Held(t.rows, ip)
    requires DeletesOnly(s, first, d) && Calm(Exec(s, first)) && Legal(digest, cfg, first)
    requires IsUser(user) && d(user, ip) && ParseAddress(ip).Some?
    ensures Legal(digest, cfg, schedule) && DeletesOnly(s, schedule, d)
    ensures var t := Exec(s, schedule);
            t.rows == Exec(s, first).rows && 0 in t.calls && t.calls[0] == AllocExhausted(user, p)
    decreases |p.probes| - i
  {
    var t := Exec(s, first);
    OwnRoundFails(t, user, p, i, ip, n, k);
    RoundDeletes(s, first, user, p, i, ip, n, k, d);
    ExecSplit(s, first, OwnRound(user, ip, n, k));
    schedule := first + OwnRound(user, ip, n, k);
    if i + 1 < |p.probes| {
      schedule := OwnRounds(digest, cfg, s, schedule, user, p, i + 1, ip, n, k + 2, d);
    }
  }

  /** Releases of the user's own row forge exhaustion: from every table without a row of the user, for every plan and
      every free address, this legal schedule raises `FixedIpExhausted` and leaves the table as it was, be it empty.
      It deletes rows of the user with that address only. */
  lemma OwnReleasesForgeExhaustion(digest: Digest, cfg: Config, rows: Table, user: string, customer: int, ip: string,
                                   d: Deletions)
    returns (schedule: seq<Event>)
    requires PlanFor(digest, user, customer, cfg).Ok? && IsUser(user)
    requires user !in rows && !Held(rows, ip) && ParseAddress(ip).Some? && d(user, ip)
    ensures Legal(digest, cfg, schedule) && DeletesOnly(State(rows, map[]), schedule, d)
    ensures var t := Exec(State(rows, map[]), schedule);
            t.rows == rows && 0 in t.calls
            && t.calls[0] == AllocExhausted(user, PlanFor(digest, user, customer, cfg).value)
  {
    var p, s := PlanFor(digest, user, customer, cfg).value, State(rows, map[]);
    LookupFails(rows, user, p);
    CalmRun(s, [], StartProbing(user, p), d);
    assert [] + StartProbing(user, p) == StartProbing(user, p);
    schedule := OwnRounds(digest, cfg, s, StartProbing(user, p), user, p, 0, ip, customer, 1, d);
  }

  // ------------------------------------------------------------------ forging with a row of the slice

  /** Everybody holds one candidate. */
  ghost function Crowd(p: Plan, name: nat -> string, n: nat): Table
    requires n <= |p.probes|
  {
    if n == 0 then map[] else Crowd(p, name, n - 1)[name(n - 1) := Row(p.probes[n - 1], p.customer)]
  }

  lemma {:induction false} CrowdHolds(p: Plan, name: nat -> string, n: nat)
    requires n <= |p.probes| && forall i: nat, j: nat :: i < j < n ==> name(i) != name(j)
    ensures forall j: nat :: j < n ==> Holds(Crowd(p, name, n), name(j), p.probes[j])
    ensures forall u :: u in Crowd(p, name, n) ==> exists j: nat :: j < n && u == name(j)
                                                                   && Crowd(p, name, n)[u].ip == p.probes[j]
  {
    if n > 0 {
      CrowdHolds(p, name, n - 1);
      var rows, rows' := Crowd(p, name, n - 1), Crowd(p, name, n);
      forall u | u in rows' ensures exists j: nat :: j < n && u == name(j) && rows'[u].ip == p.probes[j] {
        if u == name(n - 1) {
          assert rows'[u].ip == p.probes[n - 1];
        } else {
          var j: nat :| j < n - 1 && u == name(j) && rows[u].ip == p.probes[j];
          assert rows'[u].ip == p.probes[j];
        }
      }
    }
  }

  lemma ProbesDiffer(digest: Digest, user: string, customer: int, cfg: Config, i: nat, j: nat)
    requires PlanFor(digest, user, customer, cfg).Ok? && i < j < |PlanFor(digest, user, customer, cfg).value.probes|
    ensures var p := PlanFor(digest, user, customer, cfg).value; p.probes[i] != p.probes[j]
  {
    ProbeIsABijection(digest, user, customer, cfg);
    var layout := LayoutFor(digest, user, customer, cfg).value;
    if layout.Probes()[i] == layout.Probes()[j] {
      AddressTextInjective(layout.ProbeAddress(i), layout.ProbeAddress(j));
    }
  }

  /** Names for the holders: v for candidate k, and names longer than both for the others. */
  function HolderNames(user: string, v: string, k: nat): nat -> string {
    (j: nat) => if j == k then v else user + v + seq(j + 1, _ => 'x')
  }

  lemma NamesDiffer(user: string, v: string, k: nat, i: nat, j: nat)
    requires i < j
    ensures HolderNames(user, v, k)(i) != HolderNames(user, v, k)(j)
    ensures HolderNames(user, v, k)(i) == user ==> i == k
  {
    var a, b := HolderNames(user, v, k)(i), HolderNames(user, v, k)(j);
    assert i != k ==> |a| == |user| + |v| + i + 1;
    assert j != k ==> |b| == |user| + |v| + j + 1;
  }

  /** A table in which every candidate is held, candidate k by v, and the user has no row. */
  lemma FullTable(digest: Digest, cfg: Config, user: string, customer: int, v: string, k: nat) returns (rows: Table)
    requires PlanFor(digest, user, customer, cfg).Ok? && k < |PlanFor(digest, user, customer, cfg).value.probes|
             && v != user
    ensures var p := PlanFor(digest, user, customer, cfg).value;
            && Injective(rows) && GoodRows(AnyAddress, rows) && user !in rows
            && Holds(rows, v, p.probes[k]) && HeldUpTo(rows, p.probes, |p.probes|)
  {
    var p, name := PlanFor(digest, user, customer, cfg).value, HolderNames(user, v, k);
    var n := |p.probes|;
    forall i: nat, j: nat | i < j < n ensures name(i) != name(j) && p.probes[i] != p.probes[j] {
      NamesDiffer(user, v, k, i, j);
      ProbesDiffer(digest, user, customer, cfg, i, j);
    }
    PlanHasAddresses(digest, user, customer, cfg);
    assert name(k) == v;
    forall j: nat | j < n ensures name(j) != user { NamesDiffer(user, v, k, j, j + 1); }
    rows := CrowdTable(p, name, user, k);
  }

  lemma CrowdTable(p: Plan, name: nat -> string, user: string, k: nat) returns (rows: Table)
    requires forall i: nat, j: nat :: i < j < |p.probes| ==> name(i) != name(j) && p.probes[i] != p.probes[j]
    requires (forall j: nat :: j < |p.probes| ==> name(j) != user) && k < |p.probes| && GoodPlan(AnyAddress, p)
    ensures Injective(rows) && GoodRows(AnyAddress, rows) && user !in rows
    ensures Holds(rows, name(k), p.probes[k]) && HeldUpTo(rows, p.probes, |p.probes|)
  {
    rows := Crowd(p, name, |p.probes|);
    CrowdHolds(p, name, |p.probes|);
    CrowdIsGood(rows, p, name);
    forall j | 0 <= j < |p.probes| ensures Held(rows, p.probes[j]) { assert Holds(rows, name(j), p.probes[j]); }
  }

  lemma CrowdIsGood(rows: Table, p: Plan, name: nat -> string)
    requires forall i: nat, j: nat :: i < j < |p.probes| ==> p.probes[i] != p.probes[j]
    requires forall u :: u in rows ==> exists j: nat :: j < |p.probes| && u == name(j) && rows[u].ip == p.probes[j]
    requires GoodPlan(AnyAddress, p)
    ensures Injective(rows) && GoodRows(AnyAddress, rows)
  {
    forall u, w | u in rows && w in rows && rows[u].ip == rows[w].ip ensures u == w {
      var i: nat :| i < |p.probes| && u == name(i) && rows[u].ip == p.probes[i];
      var j: nat :| j < |p.probes| && w == name(j) && rows[w].ip == p.probes[j];
      assert i == j;
    }
    forall u | u in rows ensures AnyAddress(rows[u].customer, rows[u].ip) {
      var i: nat :| i < |p.probes| && u == name(i) && rows[u].ip == p.probes[i];
      assert AnyAddress(p.customer, p.probes[i]);
    }
  }

  lemma ForgingDeletes(rows: Table, user: string, p: Plan, v: string, d: Deletions)
    requires user !in rows && v in rows && |p.probes| >= 1 && HeldUpTo(rows, p.probes, |p.probes|) && d(v, rows[v].ip)
    ensures DeletesOnly(State(rows, map[]), ProbeAll(user, p) + [Begin(1, ReleaseDelete(v))] + [Run(1)] + [Run(0)], d)
  {
    var s, probing := State(rows, map[]), ProbeAll(user, p);
    CalmRun(s, [], probing, d);
    assert [] + probing == probing;
    ProbeAllFails(rows, user, p);
    ReleaseRuns(s, probing, 1, v, d);
    CalmRun(s, probing + [Begin(1, ReleaseDelete(v))] + [Run(1)], [Run(0)], d);
  }

  // ------------------------------------------------------------------ exactly which releases are harmless

  /** Exhaustion means that every candidate is held, in this run. */
  ghost predicate MeansFull(s: State, schedule: seq<Event>, id: nat, user: string, p: Plan) {
    var t := Exec(s, schedule);
    id in t.calls && t.calls[id] == AllocExhausted(user, p) ==> HeldUpTo(t.rows, p.probes, |p.probes|)
  }

  /** … in every run from a table of addresses that deletes allowed rows only. */
  ghost predicate AlwaysMeansFull(digest: Digest, cfg: Config, user: string, p: Plan, d: Deletions) {
    forall rows, schedule, id :: AllowedRun(digest, cfg, rows, schedule, d)
      ==> MeansFull(State(rows, map[]), schedule, id, user, p)
  }

  ghost predicate AllowedRun(digest: Digest, cfg: Config, rows: Table, schedule: seq<Event>, d: Deletions) {
    && Injective(rows) && GoodRows(AnyAddress, rows)
    && Legal(digest, cfg, schedule) && DeletesOnly(State(rows, map[]), schedule, d)
  }

  /** The user's own row and the rows of the slice are not among those that may be deleted. (Only rows under names
      that the entry points let through, with addresses they let through, are ever made or deleted.) */
  ghost predicate Harmless(d: Deletions, user: string, probes: seq<string>) {
    forall v, ip :: d(v, ip) && IsUser(v) && ParseAddress(ip).Some? ==> v != user && ip !in probes
  }

  /** Releases in flight are of names the entry point lets through. */
  ghost predicate UserReleases(s: State) {
    forall id :: id in s.calls && s.calls[id].ReleaseDelete? ==> IsUser(s.calls[id].user)
  }

  lemma {:induction false} RunsReleaseUsers(digest: Digest, cfg: Config, s: State, schedule: seq<Event>)
    requires UserReleases(s) && Legal(digest, cfg, schedule)
    ensures UserReleases(Exec(s, schedule))
  {
    if schedule != [] { RunsReleaseUsers(digest, cfg, s, schedule[..|schedule| - 1]); }
  }

  lemma HarmlessKeeps(digest: Digest, cfg: Config, rows: Table, schedule: seq<Event>, d: Deletions, user: string,
                      probes: seq<string>)
    requires GoodRows(AnyAddress, rows) && Legal(digest, cfg, schedule)
    requires DeletesOnly(State(rows, map[]), schedule, d) && Harmless(d, user, probes)
    ensures Keeps(State(rows, map[]), schedule, user, probes)
  {
    var s := State(rows, map[]);
    forall k, v | 0 <= k < |schedule| && Deletes(At(s, schedule, k), schedule[k], v)
      ensures v != user && At(s, schedule, k).rows[v].ip !in probes
    {
      var front := schedule[..k];
      forall i | 0 <= i < |front| && front[i].Begin? ensures GoodCall(AnyAddress, front[i].call) {
        assert front[i] == schedule[i];
        StartHasAddresses(digest, cfg, front[i].call);
      }
      RunsStayGood(AnyAddress, s, front);
      RunsReleaseUsers(digest, cfg, s, front);
      var t := At(s, schedule, k);
      assert AnyAddress(t.rows[v].customer, t.rows[v].ip);
    }
  }

  /** For every plan: `FixedIpExhausted` means a full slice in all runs that delete allowed rows only, if and only if
      no row of the slice and no row of the user itself may be deleted. */
  lemma HarmlessReleasesIff(digest: Digest, cfg: Config, user: string, customer: int, d: Deletions)
    requires PlanFor(digest, user, customer, cfg).Ok? && IsUser(user)
    ensures var p := PlanFor(digest, user, customer, cfg).value;
            AlwaysMeansFull(digest, cfg, user, p, d) <==> Harmless(d, user, p.probes)
  {
    var p := PlanFor(digest, user, customer, cfg).value;
    if Harmless(d, user, p.probes) {
      forall rows, schedule, id | AllowedRun(digest, cfg, rows, schedule, d)
        ensures MeansFull(State(rows, map[]), schedule, id, user, p)
      {
        HarmlessKeeps(digest, cfg, rows, schedule, d, user, p.probes);
        FoundInRun(digest, cfg, State(rows, map[]), schedule, id, user, p.probes);
      }
    } else {
      var v, ip :| d(v, ip) && IsUser(v) && ParseAddress(ip).Some? && (v == user || ip in p.probes);
      if v == user {
        OwnRowForges(digest, cfg, user, customer, ip, d);
      } else {
        SliceRowForges(digest, cfg, user, customer, v, ip, d);
      }
    }
  }

  lemma OwnRowForges(digest: Digest, cfg: Config, user: string, customer: int, ip: string, d: Deletions)
    requires PlanFor(digest, user, customer, cfg).Ok? && IsUser(user) && d(user, ip) && ParseAddress(ip).Some?
    ensures !AlwaysMeansFull(digest, cfg, user, PlanFor(digest, user, customer, cfg).value, d)
  {
    var p, rows: Table := PlanFor(digest, user, customer, cfg).value, map[];
    var schedule := OwnReleasesForgeExhaustion(digest, cfg, rows, user, customer, ip, d);
    NotAlways(digest, cfg, user, p, d, rows, schedule, 0);
  }

  lemma SliceRowForges(digest: Digest, cfg: Config, user: string, customer: int, v: string, ip: string, d: Deletions)
    requires PlanFor(digest, user, customer, cfg).Ok? && IsUser(user) && IsUser(v) && v != user && d(v, ip)
    requires ip in PlanFor(digest, user, customer, cfg).value.probes
    ensures !AlwaysMeansFull(digest, cfg, user, PlanFor(digest, user, customer, cfg).value, d)
  {
    var p := PlanFor(digest, user, customer, cfg).value;
    var k :| 0 <= k < |p.probes| && p.probes[k] == ip;
    var rows := FullTable(digest, cfg, user, customer, v, k);
    var schedule := ReleaseForgesExhaustion(digest, cfg, rows, user, customer, v);
    ForgingDeletes(rows, user, p, v, d);
    NotAlways(digest, cfg, user, p, d, rows, schedule, k);
  }

  lemma NotAlways(digest: Digest, cfg: Config, user: string, p: Plan, d: Deletions, rows: Table, schedule: seq<Event>,
                  k: nat)
    requires AllowedRun(digest, cfg, rows, schedule, d) && k < |p.probes|
    requires var t := Exec(State(rows, map[]), schedule);
             0 in t.calls && t.calls[0] == AllocExhausted(user, p) && !Held(t.rows, p.probes[k])
    ensures !AlwaysMeansFull(digest, cfg, user, p, d)
  {
    assert !MeansFull(State(rows, map[]), schedule, 0, user, p);
  }
}
