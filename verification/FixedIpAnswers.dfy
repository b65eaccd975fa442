/** What the public operations of app/radius/fixed_ip.py answer when nothing interferes, said in names, numbers and
    the table alone. */
module FixedIpAnswers {
  import opened Text
  import opened Arith
  import opened FixedIpSlices
  import opened FixedIpSystem

  /** What the caller of a finished call sees. */
  function Outcome(c: Call): Result<string> {
    match c
    case AllocReturned(_, ip) => Ok(ip)
    case AllocExhausted(_, _) => Err(Exhausted)
    case AllocRejected(_, e) => Err(e)
    case AssignReturned(_, ip) => Ok(ip)
    case AssignConflict(_, _) => Err(Conflict)
    case _ => Err(ValidationError)
  }

  lemma FinishedAlone(rows: Table, c: Call)
    requires Finished(c)
    ensures RunAlone(rows, c) == (rows, c)
  {
  }

  lemma AssignAlone(rows: Table, user: string, ip: string, customer: int)
    ensures RunAlone(rows, AssignLookup(user, ip, customer))
            == if user in rows then (rows, if rows[user].ip == ip then AssignReturned(user, ip)
                                     else AssignConflict(user, ip))
               else if Held(rows, ip) then (rows, AssignConflict(user, ip))
               else (rows[user := Row(ip, customer)], AssignReturned(user, ip))
  {
    if user !in rows {
      assert RunAlone(rows, AssignLookup(user, ip, customer)) == RunAlone(rows, AssignInsert(user, ip, customer));
      if !Held(rows, ip) {
        FinishedAlone(rows[user := Row(ip, customer)], AssignReturned(user, ip));
      } else {
        FinishedAlone(rows, AssignConflict(user, ip));
      }
    }
  }

  // ------------------------------------------------------------------ what the operations do, in numbers

  /** Somebody holds the address with this number. */
  predicate Taken(rows: Table, n: int) { exists u :: u in rows && ParseAddress(rows[u].ip) == Some(n) }

  /** Where the slice of a customer starts in the supernet a/p cut into slices of prefix length q. */
  function SliceStart(customer: nat, a: nat, p: nat, q: nat): int
    requires p <= q <= 32
  {
    a - a % Pow2(32 - p) + customer % Pow2(q - p) * Pow2(32 - q)
  }

  /** The address tried in round k: from the third of the slice on, starting at the hash and wrapping round in front
      of the last one. */
  function Choice(digest: Digest, user: string, customer: nat, a: nat, p: nat, q: nat, k: nat): int
    requires p <= q <= 30
  {
    ChoicesCount(q);
    SliceStart(customer, a, p, q) + 2 + (digest(customer, user) + k) % (Pow2(32 - q) - 3)
  }

  lemma ChoicesCount(q: nat)
    requires q <= 30
    ensures Pow2(32 - q) > 3
  {
    Pow2Sum(30 - q, 2);
    assert Pow2(2) == 4;
  }

  ghost function Choices(digest: Digest, user: string, customer: nat, a: nat, p: nat, q: nat): nat -> int
    requires p <= q <= 30
  {
    (k: nat) => Choice(digest, user, customer, a, p, q, k)
  }

  /** Of n choices the first that is not taken is stored and answered; or all are taken. */
  ghost predicate TakesFirst(rows: Table, user: string, customer: int, choice: nat -> int, n: nat, after: Table,
                             r: Result<string>)
  {
    || (exists k: nat :: k < n && FirstNotTaken(rows, choice, k)
                         && r.Ok? && ParseAddress(r.value) == Some(choice(k))
                           && after == rows[user := Row(r.value, customer)])
    || ((forall k: nat :: k < n ==> Taken(rows, choice(k))) && r == Err(Exhausted) && after == rows)
  }

  ghost predicate FirstNotTaken(rows: Table, choice: nat -> int, k: nat) {
    !Taken(rows, choice(k)) && forall j: nat :: j < k ==> Taken(rows, choice(j))
  }

  /** `allocate_fixed_ip` without interference: the errors of the name, the customer and the configuration, the stored
      address, or the first choice that is not taken. */
  ghost predicate Allocated(digest: Digest, cfg: Config, username: string, customer: int, rows: Table, after: Table,
                            r: Result<string>)
  {
    var user, q := Strip(username), cfg.customerPrefix;
    if user == "" then r == Err(ValidationError) && after == rows
    else if user in rows then r == Ok(rows[user].ip) && after == rows
    else if customer < 0 then r == Err(ValidationError) && after == rows
    else match cfg.supernet
      case Malformed => r == Err(ValueError) && after == rows
      case V6 => r == Err(ValidationError) && after == rows
      case V4(a, p) =>
        if !(p <= q <= 30) then r == Err(ValidationError) && after == rows
        else
          ChoicesCount(q);
          TakesFirst(rows, user, customer, Choices(digest, user, customer, a, p, q), Pow2(32 - q) - 3, after, r)
  }

  /** `assign_specific_ip` without interference. */
  ghost predicate Assigned(username: string, ip: string, customer: int, rows: Table, after: Table, r: Result<string>) {
    var user := Strip(username);
    if user == "" || ParseAddress(ip).None? then r == Err(ValidationError) && after == rows
    else if user in rows then r == (if rows[user].ip == ip then Ok(ip) else Err(Conflict)) && after == rows
    else if Taken(rows, ParseAddress(ip).value) then r == Err(Conflict) && after == rows
    else r == Ok(ip) && after == rows[user := Row(ip, customer)]
  }

  lemma HeldIsTaken(rows: Table, ip: string)
    requires ParseAddress(ip).Some?
    ensures Held(rows, ip) <==> Taken(rows, ParseAddress(ip).value)
  {
    RenderParsed(ip);
    if u :| u in rows && ParseAddress(rows[u].ip) == ParseAddress(ip) { RenderParsed(rows[u].ip); }
  }

  lemma AssignedAlone(username: string, ip: string, customer: int, rows: Table)
    ensures var (after, c) := RunAlone(rows, StartAssign(username, ip, customer));
            Assigned(username, ip, customer, rows, after, Outcome(c))
  {
    var user := Strip(username);
    if user == "" || ParseAddress(ip).None? {
      FinishedAlone(rows, AssignRejected(user));
    } else {
      HeldIsTaken(rows, ip);
      AssignAlone(rows, user, ip, customer);
      var end := RunAlone(rows, AssignLookup(user, ip, customer));
      assert RunAlone(rows, StartAssign(username, ip, customer)) == end;
      AssignCases(rows, user, ip, customer, Taken(rows, ParseAddress(ip).value), end);
    }
  }

  lemma AssignCases(rows: Table, user: string, ip: string, customer: int, taken: bool, end: (Table, Call))
    requires Held(rows, ip) <==> taken
    requires end == if user in rows then (rows, if rows[user].ip == ip then AssignReturned(user, ip)
                                                else AssignConflict(user, ip))
                    else if Held(rows, ip) then (rows, AssignConflict(user, ip))
                    else (rows[user := Row(ip, customer)], AssignReturned(user, ip))
    ensures if user in rows then Outcome(end.1) == (if rows[user].ip == ip then Ok(ip) else Err(Conflict))
            && end.0 == rows
            else if taken then Outcome(end.1) == Err(Conflict) && end.0 == rows
            else Outcome(end.1) == Ok(ip) && end.0 == rows[user := Row(ip, customer)]
  {
  }

  lemma ModPlus(d: nat, i: nat, n: nat)
    requires n > 0
    ensures (d % n + i) % n == (d + i) % n
  {
    DivMod(d, n);
    DivMod(d % n + i, n);
    var q, r := (d % n + i) / n, (d % n + i) % n;
    assert d + i == n * (d / n + q) + r;
    DivUnique(d + i, n, d / n + q, r);
  }

  /** A plan exists exactly for accepted numbers. */
  lemma PlanExistsIff(digest: Digest, user: string, customer: int, cfg: Config)
    ensures var r := PlanFor(digest, user, customer, cfg);
            && (r.Ok? <==> customer >= 0 && cfg.supernet.V4? && cfg.supernet.prefix <= cfg.customerPrefix <= 30)
            && (r.Err? ==> r.error == if customer >= 0 && cfg.supernet.Malformed? then ValueError else ValidationError)
  {
    if customer >= 0 && cfg.supernet.V4? && cfg.supernet.prefix <= cfg.customerPrefix <= 32 {
      if cfg.customerPrefix <= 30 { ChoicesCount(cfg.customerPrefix); }
      assert Pow2(0) == 1 && Pow2(1) == 2;
    }
  }

  /** The probes of the plan are the choices. */
  ghost predicate ProbesAre(plan: Plan, choice: nat -> int, n: nat) {
    |plan.probes| == n && forall i: nat :: i < n ==> ParseAddress(plan.probes[i]) == Some(choice(i))
  }

  lemma SliceStartIs(customer: nat, cfg: Config)
    requires SupernetOf(cfg).Ok?
    ensures CustomerNetwork(customer, cfg).value.base
            == SliceStart(customer, cfg.supernet.address, cfg.supernet.prefix, cfg.customerPrefix)
  {
    CountIsPower(cfg);
    var a, m := cfg.supernet.address, Pow2(32 - cfg.supernet.prefix);
    DivMod(a, m);
  }

  lemma LayoutIs(digest: Digest, user: string, customer: nat, cfg: Config, n: nat)
    requires cfg.supernet.V4? && cfg.supernet.prefix <= cfg.customerPrefix <= 30
    requires n > 0 && n == BlockSize(cfg) - 3
    ensures var r := LayoutFor(digest, user, customer, cfg);
            && r.Ok? && r.value.count == n && r.value.first == digest(customer, user) % n
            && r.value.base == SliceStart(customer, cfg.supernet.address, cfg.supernet.prefix, cfg.customerPrefix)
  {
    SliceStartIs(customer, cfg);
  }

  lemma ProbesFrom(layout: Layout, d: nat, customer: int, choice: nat -> int)
    requires layout.Valid() && layout.first == d % layout.count
    requires forall i: nat :: choice(i) == layout.base + 2 + (d + i) % layout.count
    ensures ProbesAre(Plan(customer, layout.Probes()), choice, layout.count)
  {
    forall i: nat | i < layout.count ensures ParseAddress(layout.Probes()[i]) == Some(choice(i)) {
      ParseRendered(layout.ProbeAddress(i));
      ModPlus(d, i, layout.count);
    }
  }

  lemma ProbesAreChoices(digest: Digest, user: string, customer: nat, cfg: Config)
    requires PlanFor(digest, user, customer, cfg).Ok? && cfg.supernet.V4?
             && cfg.supernet.prefix <= cfg.customerPrefix <= 30
    ensures Pow2(32 - cfg.customerPrefix) > 3
    ensures ProbesAre(PlanFor(digest, user, customer, cfg).value,
                      Choices(digest, user, customer, cfg.supernet.address, cfg.supernet.prefix, cfg.customerPrefix),
                      Pow2(32 - cfg.customerPrefix) - 3)
    ensures PlanFor(digest, user, customer, cfg).value.customer == customer
  {
    ChoicesCount(cfg.customerPrefix);
    LayoutIs(digest, user, customer, cfg, Pow2(32 - cfg.customerPrefix) - 3);
    ProbesFrom(LayoutFor(digest, user, customer, cfg).value, digest(customer, user), customer,
               Choices(digest, user, customer, cfg.supernet.address, cfg.supernet.prefix, cfg.customerPrefix));
  }

  lemma ProbeOutcomeTakesFirst(rows: Table, user: string, plan: Plan, choice: nat -> int, n: nat, end: (Table, Call))
    requires ProbesAre(plan, choice, n) && ProbeOutcome(rows, user, plan, end)
    ensures TakesFirst(rows, user, plan.customer, choice, n, end.0, Outcome(end.1))
  {
    forall i: nat | i < n ensures Held(rows, plan.probes[i]) <==> Taken(rows, choice(i)) {
      HeldIsTaken(rows, plan.probes[i]);
    }
    if HasFree(rows, plan) {
      var k: nat :| FirstFree(rows, plan, k)
                    && end == (rows[user := Row(plan.probes[k], plan.customer)], AllocReturned(user, plan.probes[k]));
      forall j: nat | j < k ensures Taken(rows, choice(j)) { assert Held(rows, plan.probes[j]); }
      assert FirstNotTaken(rows, choice, k);
    } else {
      forall k: nat | k < n ensures Taken(rows, choice(k)) { assert Held(rows, plan.probes[k]); }
    }
  }

  lemma AllocatedAlone(digest: Digest, cfg: Config, username: string, customer: int, rows: Table)
    ensures var (after, c) := RunAlone(rows, StartAllocate(digest, username, customer, cfg));
            Allocated(digest, cfg, username, customer, rows, after, Outcome(c))
  {
    var start := StartAllocate(digest, username, customer, cfg);
    if start.AllocRejected? {
      FinishedAlone(rows, start);
    } else {
      var user := Strip(username);
      AllocateAlone(rows, user, start.planned);
      PlanExistsIff(digest, user, customer, cfg);
      if user !in rows && start.planned.Ok? { FirstChoiceAlone(digest, cfg, user, customer, rows); }
    }
  }

  lemma FirstChoiceAlone(digest: Digest, cfg: Config, user: string, customer: nat, rows: Table)
    requires user !in rows && PlanFor(digest, user, customer, cfg).Ok?
    requires cfg.supernet.V4? && cfg.supernet.prefix <= cfg.customerPrefix <= 30 && Pow2(32 - cfg.customerPrefix) > 3
    ensures var (after, c) := RunAlone(rows, AllocLookup(user, PlanFor(digest, user, customer, cfg)));
            TakesFirst(rows, user, customer,
                       Choices(digest, user, customer, cfg.supernet.address, cfg.supernet.prefix, cfg.customerPrefix),
                       Pow2(32 - cfg.customerPrefix) - 3, after, Outcome(c))
  {
    var planned := PlanFor(digest, user, customer, cfg);
    AllocateAlone(rows, user, planned);
    ProbesAreChoices(digest, user, customer, cfg);
    ProbeOutcomeTakesFirst(rows, user, planned.value,
      Choices(digest, user, customer, cfg.supernet.address, cfg.supernet.prefix, cfg.customerPrefix),
      Pow2(32 - cfg.customerPrefix) - 3, RunAlone(rows, AllocLookup(user, planned)));
  }
}
