/** `_can_submit` of app/__init__.py: the per-request memo of the panel guard's decision, with its paired
    check of the form behind a "new" or "edit" link and its save and restore of the denial reason. */
module SubmitMemo {
  import opened Text

  /** What `rbac_denial_status` answers; Raised stands for any exception (the display layer then fails open). */
  datatype Verdict = Allowed | Refused | Raised

  /** Everything outside this function that it consults, fixed for the request. */
  datatype Site = Site(
    isSuper: bool,
    loggedIn: bool,                               // "permissions" in the session
    views: set<string>,                           // app.view_functions
    route: (string, string) -> string,            // the endpoint that really receives this method on this path
    guard: (string, string) -> Verdict,
    reason: (string, string) -> Option<string>)   // what the guard writes to g._rbac_denial

  type Key = (string, string)

  function ViewName(endpoint: string): string {
    if StartsAt(endpoint, 0, "radius.") then endpoint[7..] else endpoint
  }

  function UpperChar(c: char): char {
    if 'a' <= c <= 'z' then ((c as int) - 32) as char else c
  }

  /** `(method or "POST").upper()`, for ASCII. */
  function MethodName(m: string): string {
    if m == "" then "POST" else seq(|m|, i requires 0 <= i < |m| => UpperChar(m[i]))
  }

  predicate EndsWith(s: string, p: string) { StartsAt(s, |s| - |p|, p) }

  /** The view that saves the form a link opens. */
  function PairOf(name: string): string {
    if EndsWith(name, "_new") then name[..|name| - 4] + "_create"
    else if EndsWith(name, "_edit") then name[..|name| - 5] + "_update"
    else ""
  }

  // ------------------------------------------------------------------ the answer without a cache

  function GuardSays(site: Site, name: string, meth: string): bool {
    !site.guard(site.route(name, meth), meth).Refused?
  }

  predicate HasPair(site: Site, name: string, meth: string) {
    var pair := PairOf(site.route(name, meth));
    meth == "GET" && pair != "" && "radius." + pair in site.views
  }

  /** A link is shown when the guard lets it through and, for a form link, also lets the form's POST through. */
  function Answer(site: Site, key: Key): bool {
    && GuardSays(site, key.0, key.1)
    && (HasPair(site, key.0, key.1) ==> GuardSays(site, ViewName(PairOf(site.route(key.0, key.1))), "POST"))
  }

  function CanSubmitFresh(site: Site, endpoint: string, httpMethod: string): bool {
    site.isSuper || !site.loggedIn || Answer(site, (ViewName(endpoint), MethodName(httpMethod)))
  }

  // ------------------------------------------------------------------ the memo

  class Request {
    const site: Site
    var cache: map<Key, bool>
    var denial: Option<string>

    constructor (site: Site, denial: Option<string>)
      ensures this.site == site && this.denial == denial && cache == map[]
    {
      this.site, this.denial, cache := site, denial, map[];
    }

    /** Every entry is the cache-free answer, except entries a call further up has written provisionally. */
    predicate Sound(pending: set<Key>)
      reads this
    {
      forall k :: k in cache && k !in pending ==> cache[k] == Answer(site, k)
    }

    /** The guard is consulted under save and restore of the denial reason. */
    method AskGuard(name: string, meth: string) returns (res: bool)
      modifies this`denial
      ensures res == !site.guard(name, meth).Refused?
      ensures denial == old(denial)
    {
      var saved := denial;
      denial := site.reason(name, meth);
      res := site.guard(name, meth) != Refused;
      denial := saved;
    }

    method CanSubmit(endpoint: string, httpMethod: string, ghost pending: set<Key>) returns (r: bool)
      requires Sound(pending)
      requires forall k :: k in pending ==> k.1 == "GET"
      requires pending == {} || MethodName(httpMethod) == "POST"
      modifies this
      ensures r == CanSubmitFresh(site, endpoint, httpMethod)
      ensures denial == old(denial)
      ensures Sound(pending)
      ensures forall k :: k in old(cache) ==> k in cache
      decreases if MethodName(httpMethod) == "GET" then 1 else 0
    {
      if site.isSuper || !site.loggedIn { return true; }
      var name, meth := ViewName(endpoint), MethodName(httpMethod);
      var key := (name, meth);
      if key in cache { return cache[key]; }
      name := site.route(name, meth);
      var res := AskGuard(name, meth);
      if res && meth == "GET" {
        var pair := PairOf(name);
        if pair != "" && "radius." + pair in site.views {
          cache := cache[key := res];  // provisional
          assert MethodName("POST") == "POST";
          res := CanSubmit(pair, "POST", {key});
        }
      }
      cache := cache[key := res];
      return res;
    }
  }

  /** Every question of a request, in any order and with any repetitions, gets the cache-free answer, and the reason a
      403 page will show is still there at the end. */
  method AskAll(site: Site, denial: Option<string>, questions: seq<(string, string)>)
    returns (answers: seq<bool>, denialAfter: Option<string>)
    ensures |answers| == |questions|
    ensures forall i :: 0 <= i < |questions| ==> answers[i] == CanSubmitFresh(site, questions[i].0, questions[i].1)
    ensures denialAfter == denial
  {
    var r := new Request(site, denial);
    answers := [];
    for i := 0 to |questions|
      invariant r.site == site && r.denial == denial && r.Sound({}) && |answers| == i
      invariant forall j :: 0 <= j < i ==> answers[j] == CanSubmitFresh(site, questions[j].0, questions[j].1)
    {
      var a := r.CanSubmit(questions[i].0, questions[i].1, {});
      answers := answers + [a];
    }
    denialAfter := r.denial;
  }

  /** A paired link is shown only if its form can be saved: the answer for GET implies the answer for the pair's
      POST. */
  lemma ShownLinkCanBeSaved(site: Site, endpoint: string)
    requires site.loggedIn && !site.isSuper
    requires HasPair(site, ViewName(endpoint), "GET") && CanSubmitFresh(site, endpoint, "GET")
    ensures CanSubmitFresh(site, PairOf(site.route(ViewName(endpoint), "GET")), "POST")
  {
    assert MethodName("GET") == "GET" && MethodName("POST") == "POST";
  }

  // ------------------------------------------------------------------ names

  lemma EditName(name: string, stem: string)
    requires name == stem + "_edit"
    ensures EndsWith(name, "_edit") && !EndsWith(name, "_new") && name[..|name| - 5] == stem
  {
    var n := |stem|;
    assert name[n + 1] == 'e' && name[n..] == "_edit";
    assert name[n + 1..n + 5][0] == name[n + 1];
  }

  /** A link whose name ends in `_new` is paired with the view of the same name that ends in `_create`, `_edit` with
      `_update`, and no other name with any. */
  lemma PairIs(name: string, stem: string)
    ensures name == stem + "_new" ==> PairOf(name) == stem + "_create"
    ensures name == stem + "_edit" ==> PairOf(name) == stem + "_update"
    ensures PairOf(name) != "" ==>
              exists s :: (name == s + "_new" && PairOf(name) == s + "_create")
                          || (name == s + "_edit" && PairOf(name) == s + "_update")
  {
    if name == stem + "_new" {
      assert name[|name| - 4..] == "_new" && name[..|name| - 4] == stem;
    }
    if name == stem + "_edit" { EditName(name, stem); }
    if EndsWith(name, "_new") {
      assert name == name[..|name| - 4] + "_new";
    } else if EndsWith(name, "_edit") {
      assert name == name[..|name| - 5] + "_edit";
    }
  }

  /** The blueprint's prefix is dropped from an endpoint, and nothing else. */
  lemma ViewNameIs(endpoint: string, name: string)
    ensures endpoint == "radius." + name ==> ViewName(endpoint) == name
    ensures ViewName(endpoint) == endpoint || endpoint == "radius." + ViewName(endpoint)
  {
    if endpoint == "radius." + name { assert endpoint[0..7] == "radius."; }
    if StartsAt(endpoint, 0, "radius.") { assert endpoint == endpoint[0..7] + endpoint[7..]; }
  }

  const SMALL := "abcdefghijklmnopqrstuvwxyz"
  const CAPITAL := "ABCDEFGHIJKLMNOPQRSTUVWXYZ"

  /** Methods are read in capital letters, and a missing one is POST. */
  lemma MethodNameIs(m: string, i: nat, k: nat)
    requires i < |m| && k < 26
    ensures MethodName("") == "POST" && |MethodName(m)| == |m|
    ensures m[i] == SMALL[k] || m[i] == CAPITAL[k] ==> MethodName(m)[i] == CAPITAL[k]
    ensures (forall j :: 0 <= j < 26 ==> m[i] != SMALL[j]) ==> MethodName(m)[i] == m[i]
  {
    forall j | 0 <= j < 26 ensures SMALL[j] as int == 'a' as int + j && CAPITAL[j] as int == 'A' as int + j {
      LettersInOrder(j);
    }
    if 'a' <= m[i] <= 'z' { assert SMALL[(m[i] as int) - ('a' as int)] == m[i]; }
  }

  lemma LettersInOrder(j: nat)
    requires j < 26
    ensures SMALL[j] as int == 'a' as int + j && CAPITAL[j] as int == 'A' as int + j
  {
    if j < 13 { assert SMALL[0] == 'a'; } else { assert SMALL[25] == 'z'; }
  }
}
