/** Route registration: the slash check, grouping of responders by the resource
    they are bound to, and the strict-mode validate-then-register loop. */
module Routing {
  import opened Wrappers
  import opened Text
  import opened Responders

  /** The object a group of responders is registered under: the resource a bound
      responder belongs to, or the one shared catch-all resource. */
  datatype Resource = Catchall | Obj(id: nat)

  /** `getattr(responder, "__self__", _catchall_resource)` */
  function OwnerOf(h: Handler): (r: Resource)
    ensures r == Catchall <==> h.owner.None?
    ensures h.owner.Some? ==> r == Obj(h.owner.value)
  {
    if h.owner.Some? then Obj(h.owner.value) else Catchall
  }

  /** Two responders share a group exactly when they are bound to the same object or
      are both unbound. */
  lemma OwnerShared(h1: Handler, h2: Handler)
    ensures OwnerOf(h1) == OwnerOf(h2) <==> h1.owner == h2.owner
  {
  }

  /** A method map, `dict[str, responder]`, as its items in insertion order. */
  type MethodMap = seq<(string, Handler)>

  datatype Group = Group(resource: Resource, methods: MethodMap)

  /** One call of the base router's `add_route(template, resource, ...)`. */
  datatype Registration = Registration(template: string, resource: Resource, methods: MethodMap)

  datatype RouterError =
    | BadTemplate(template: string)                         // route must begin with slash
    | Invalid(error: ValidationError)                       // raised as is by `add_route`
    | HandlerInvalid(handler: Handler, error: ValidationError) // wrapped by `add`

  // ---------------------------------------------------------------------------
  // Dictionaries kept as item sequences

  function KeyIndex(m: MethodMap, k: string): (r: Option<nat>)
    ensures r.Some? ==> r.value < |m| && m[r.value].0 == k
    ensures r.None? ==> forall i :: 0 <= i < |m| ==> m[i].0 != k
    decreases |m|
  {
    if |m| == 0 then None
    else if m[|m| - 1].0 == k then Some(|m| - 1)
    else KeyIndex(m[..|m| - 1], k)
  }

  /** `d[k] = h`: replaces the value in place when `k` is a key, appends otherwise. */
  function Put(m: MethodMap, k: string, h: Handler): MethodMap {
    match KeyIndex(m, k)
    case Some(i) => m[i := (k, h)]
    case None => m + [(k, h)]
  }

  function GroupIndex(gs: seq<Group>, r: Resource): (i: Option<nat>)
    ensures i.Some? ==> i.value < |gs| && gs[i.value].resource == r
    ensures i.None? ==> forall j :: 0 <= j < |gs| ==> gs[j].resource != r
    decreases |gs|
  {
    if |gs| == 0 then None
    else if gs[|gs| - 1].resource == r then Some(|gs| - 1)
    else GroupIndex(gs[..|gs| - 1], r)
  }

  /** `by_resource.setdefault(r, {})[k] = h` */
  function SetDefaultPut(gs: seq<Group>, r: Resource, k: string, h: Handler): seq<Group> {
    match GroupIndex(gs, r)
    case Some(i) => gs[i := Group(r, Put(gs[i].methods, k, h))]
    case None => gs + [Group(r, [(k, h)])]
  }

  /** The keys of a method map, in insertion order. */
  function Keys(m: MethodMap): (ks: seq<string>)
    ensures |ks| == |m| && forall i :: 0 <= i < |m| ==> ks[i] == m[i].0
  {
    seq(|m|, i requires 0 <= i < |m| => m[i].0)
  }

  /** `d.get(k)` */
  function Lookup(m: MethodMap, k: string): Option<Handler> {
    match KeyIndex(m, k)
    case Some(i) => Some(m[i].1)
    case None => None
  }

  /** Where a key is found depends only on the keys. */
  lemma {:induction false} KeyIndexByKeys(m1: MethodMap, m2: MethodMap, k: string)
    requires Keys(m1) == Keys(m2)
    ensures KeyIndex(m1, k) == KeyIndex(m2, k)
    decreases |m1|
  {
    var n := |m1|;
    if n > 0 {
      assert m1[n - 1].0 == Keys(m1)[n - 1] == m2[n - 1].0;
      var p1, p2 := m1[..n - 1], m2[..n - 1];
      assert Keys(p1) == Keys(p2) by {
        forall i | 0 <= i < n - 1 ensures Keys(p1)[i] == Keys(p2)[i] {
          assert Keys(m1)[i] == Keys(m2)[i];
        }
      }
      KeyIndexByKeys(p1, p2, k);
    }
  }

  /** `d[k] = h` is a dictionary update: `k` now maps to `h` and every other key keeps
      its value; a new key goes last and an existing one keeps its place. */
  lemma PutDict(m: MethodMap, k: string, h: Handler, k2: string)
    ensures Lookup(Put(m, k, h), k2) == (if k2 == k then Some(h) else Lookup(m, k2))
    ensures Keys(Put(m, k, h)) == (if k in Keys(m) then Keys(m) else Keys(m) + [k])
  {
    var p := Put(m, k, h);
    match KeyIndex(m, k)
    case Some(i) =>
      assert Keys(m)[i] == k;
      assert Keys(p) == Keys(m);
      KeyIndexByKeys(p, m, k2);
    case None =>
      assert p == m + [(k, h)] && p[..|m|] == m;
      assert Keys(p) == Keys(m) + [k];
  }

  /** `by_resource.get(r, {})` */
  function MethodsOf(gs: seq<Group>, r: Resource): MethodMap {
    match GroupIndex(gs, r)
    case Some(i) => gs[i].methods
    case None => []
  }

  /** Where a resource's group is found depends only on the groups' resources. */
  lemma {:induction false} GroupIndexByResources(gs1: seq<Group>, gs2: seq<Group>, r: Resource)
    requires Resources(gs1) == Resources(gs2)
    ensures GroupIndex(gs1, r) == GroupIndex(gs2, r)
    decreases |gs1|
  {
    var n := |gs1|;
    if n > 0 {
      assert gs1[n - 1].resource == Resources(gs1)[n - 1] == gs2[n - 1].resource;
      var p1, p2 := gs1[..n - 1], gs2[..n - 1];
      assert Resources(p1) == Resources(p2) by {
        forall i | 0 <= i < n - 1 ensures Resources(p1)[i] == Resources(p2)[i] {
          assert Resources(gs1)[i] == Resources(gs2)[i];
        }
      }
      GroupIndexByResources(p1, p2, r);
    }
  }

  /** `by_resource.setdefault(r, {})[k] = h` updates only the method map of `r`,
      starting from an empty one, and a new resource goes last. */
  lemma SetDefaultPutDict(gs: seq<Group>, r: Resource, k: string, h: Handler, r2: Resource)
    ensures MethodsOf(SetDefaultPut(gs, r, k, h), r2) ==
      (if r2 == r then Put(MethodsOf(gs, r), k, h) else MethodsOf(gs, r2))
    ensures Resources(SetDefaultPut(gs, r, k, h)) ==
      (if r in Resources(gs) then Resources(gs) else Resources(gs) + [r])
  {
    var ng := SetDefaultPut(gs, r, k, h);
    match GroupIndex(gs, r)
    case Some(i) =>
      assert Resources(gs)[i] == r;
      ResourcesUpdate(gs, i, Group(r, Put(gs[i].methods, k, h)));
      GroupIndexByResources(ng, gs, r2);
    case None =>
      assert ng == gs + [Group(r, [(k, h)])] && ng[..|gs|] == gs;
      ResourcesAppend(gs, Group(r, [(k, h)]));
      assert KeyIndex([], k).None?;
  }

  // ---------------------------------------------------------------------------
  // What `add` computes

  /** `by_meth`: the five named methods, then the extra keyword arguments. */
  function ByMeth(get: Option<Handler>, post: Option<Handler>, put: Option<Handler>,
                  delete: Option<Handler>, options: Option<Handler>,
                  extras: seq<(string, Option<Handler>)>): (r: seq<(string, Option<Handler>)>)
    ensures |r| == 5 + |extras| && r[5..] == extras
    ensures r[0] == ("GET", get) && r[1] == ("POST", post) && r[2] == ("PUT", put)
    ensures r[3] == ("DELETE", delete) && r[4] == ("OPTIONS", options)
  {
    [("GET", get), ("POST", post), ("PUT", put), ("DELETE", delete), ("OPTIONS", options)] + extras
  }

  /** `by_resource` after the grouping loop has seen every item of `bm`. */
  function Groups(bm: seq<(string, Option<Handler>)>): seq<Group>
    decreases |bm|
  {
    if |bm| == 0 then []
    else
      var gs := Groups(bm[..|bm| - 1]);
      var (k, oh) := bm[|bm| - 1];
      if oh.None? then gs else SetDefaultPut(gs, OwnerOf(oh.value), k, oh.value)
  }

  /** The position of the first `false` at or after `from`, or the length of the
      sequence when there is none. */
  function FirstFalse(bs: seq<bool>, from: nat): (i: nat)
    requires from <= |bs|
    ensures from <= i <= |bs|
    ensures forall j :: from <= j < i ==> bs[j]
    ensures i < |bs| ==> !bs[i]
    decreases |bs| - from
  {
    if from == |bs| then from
    else if !bs[from] then from
    else FirstFalse(bs, from + 1)
  }

  /** Whether each responder of a method map passes validation. */
  function Verdicts(ms: MethodMap, route: Route): (vs: seq<bool>)
    ensures |vs| == |ms|
    ensures forall j :: 0 <= j < |ms| ==> vs[j] == ValidateResponder(ms[j].0, ms[j].1, route).Ok?
  {
    seq(|ms|, j requires 0 <= j < |ms| => ValidateResponder(ms[j].0, ms[j].1, route).Ok?)
  }

  /** The position of the first responder of a method map that fails validation,
      or the map's length when all of them pass. */
  function FirstFailure(ms: MethodMap, route: Route): (i: nat)
    ensures i <= |ms|
    ensures forall j :: 0 <= j < i ==> ValidateResponder(ms[j].0, ms[j].1, route).Ok?
    ensures i < |ms| ==> ValidateResponder(ms[i].0, ms[i].1, route).Err?
  {
    FirstFalse(Verdicts(ms, route), 0)
  }

  /** The first responder of a method map that fails validation, with its error. */
  function FirstInvalid(ms: MethodMap, route: Route): Option<(Handler, ValidationError)> {
    var i := FirstFailure(ms, route);
    if i < |ms| then Some((ms[i].1, ValidateResponder(ms[i].0, ms[i].1, route).error)) else None
  }

  /** Whether each group holds only responders that pass validation. */
  function GroupVerdicts(gs: seq<Group>, route: Route): (vs: seq<bool>)
    ensures |vs| == |gs|
    ensures forall j :: 0 <= j < |gs| ==> vs[j] == FirstInvalid(gs[j].methods, route).None?
  {
    seq(|gs|, j requires 0 <= j < |gs| => FirstInvalid(gs[j].methods, route).None?)
  }

  /** Strict mode over the groups in order: the position of the first group holding
      an invalid responder, or the number of groups when every responder passes. */
  function FailingGroup(gs: seq<Group>, route: Route): (k: nat)
    ensures k <= |gs|
    ensures forall j :: 0 <= j < k ==> FirstInvalid(gs[j].methods, route).None?
    ensures k < |gs| ==> FirstInvalid(gs[k].methods, route).Some?
  {
    FirstFalse(GroupVerdicts(gs, route), 0)
  }

  /** How many groups `add` registers: all of them unless strict mode stops early. */
  function Registered(strict: bool, gs: seq<Group>, route: Route): nat {
    if strict then FailingGroup(gs, route) else |gs|
  }

  /** The error `add` raises after the grouping, if any: the first invalid responder
      of the failing group, wrapped with that responder. */
  function Raised(strict: bool, gs: seq<Group>, route: Route): Option<RouterError> {
    var k := Registered(strict, gs, route);
    if k < |gs| then
      var bad := FirstInvalid(gs[k].methods, route).value;
      Some(HandlerInvalid(bad.0, bad.1))
    else None
  }

  /** The Python exception class of each router error: the slash check and the
      wrapping in `add` raise `ValueError`, while `add_route` lets the validation
      error through with its own class. */
  function ErrorClass(e: RouterError): (c: ExceptionClass)
    ensures e.Invalid? ==> c == ClassOf(e.error)
    ensures !e.Invalid? ==> c == ValueError
  {
    match e
    case Invalid(v) => ClassOf(v)
    case _ => ValueError
  }

  /** The error `add_route` raises in strict mode has the class of the first invalid
      responder's validation error. */
  lemma AddRouteErrorClass(methods: MethodMap, route: Route)
    requires FirstInvalid(methods, route).Some?
    ensures var i := FirstFailure(methods, route);
      i < |methods| &&
      ErrorClass(Invalid(FirstInvalid(methods, route).value.1)) ==
        ClassOf(ValidateResponder(methods[i].0, methods[i].1, route).error)
  {
  }

  /** Whatever `add` raises after the slash check is a `ValueError`. */
  lemma AddRaisesValueError(strict: bool, gs: seq<Group>, route: Route)
    ensures Raised(strict, gs, route).Some? ==> ErrorClass(Raised(strict, gs, route).value) == ValueError
  {
  }

  /** One registration per group, in group order. */
  function Registrations(template: string, gs: seq<Group>): (r: seq<Registration>)
    ensures |r| == |gs|
    ensures forall i :: 0 <= i < |gs| ==> r[i] == Registration(template, gs[i].resource, gs[i].methods)
    decreases |gs|
  {
    if |gs| == 0 then []
    else Registrations(template, gs[..|gs| - 1]) + [Registration(template, gs[|gs| - 1].resource, gs[|gs| - 1].methods)]
  }

  /** Python accepts no duplicate keyword argument: the extra method names are
      distinct and none of them is one of the five named ones. */
  predicate ExtrasDistinct(extras: seq<(string, Option<Handler>)>) {
    (forall i, j :: 0 <= i < j < |extras| ==> extras[i].0 != extras[j].0) &&
    forall i :: 0 <= i < |extras| ==> extras[i].0 !in ["GET", "POST", "PUT", "DELETE", "OPTIONS"]
  }

  // ---------------------------------------------------------------------------
  // The router

  class Router {
    const strict: bool
    /** The base router's `add_route` calls so far, oldest first. */
    var registrations: seq<Registration>

    constructor(strict: bool)
      ensures this.strict == strict && registrations == []
    {
      this.strict := strict;
      registrations := [];
    }

    /** `add_route(route, resource, **kwargs)`, where `methods` is the method map the
        base router derives from the resource. In strict mode every responder is
        validated first and the first failure is raised unchanged. */
    method AddRoute(route: Route, resource: Resource, methods: MethodMap) returns (r: Result<Route, RouterError>)
      modifies this
      ensures !StartsWith(route.template, "/") ==>
        r == Err(BadTemplate(route.template)) && registrations == old(registrations)
      ensures StartsWith(route.template, "/") && strict && FirstInvalid(methods, route).Some? ==>
        r == Err(Invalid(FirstInvalid(methods, route).value.1)) && registrations == old(registrations)
      ensures StartsWith(route.template, "/") && !(strict && FirstInvalid(methods, route).Some?) ==>
        r == Ok(route) && registrations == old(registrations) + [Registration(route.template, resource, methods)]
    {
      if !StartsWith(route.template, "/") {
        return Err(BadTemplate(route.template));
      }
      if strict {
        var bad := ValidateAll(methods, route);
        if bad.Some? {
          return Err(Invalid(bad.value.1));
        }
      }
      registrations := registrations + [Registration(route.template, resource, methods)];
      return Ok(route);
    }

    /** `add(route, GET=..., POST=..., PUT=..., DELETE=..., OPTIONS=..., **extras)` */
    method Add(route: Route, get: Option<Handler>, post: Option<Handler>, put: Option<Handler>,
               delete: Option<Handler>, options: Option<Handler>,
               extras: seq<(string, Option<Handler>)>) returns (r: Result<Route, RouterError>)
      requires ExtrasDistinct(extras)
      modifies this
      ensures !StartsWith(route.template, "/") ==>
        r == Err(BadTemplate(route.template)) && registrations == old(registrations)
      ensures StartsWith(route.template, "/") ==>
        var gs := Groups(ByMeth(get, post, put, delete, options, extras));
        registrations == old(registrations) + Registrations(route.template, gs[..Registered(strict, gs, route)]) &&
        r == (if Raised(strict, gs, route).Some? then Err(Raised(strict, gs, route).value) else Ok(route))
    {
      var template := route.template;
      if !StartsWith(template, "/") {
        return Err(BadTemplate(template));
      }
      var byMeth := ByMeth(get, post, put, delete, options, extras);
      var byResource := GroupByResource(byMeth);
      r := RegisterGroups(template, byResource, route);
    }

    /** The registration loop of `add`: in strict mode each group's responders are
        validated before the group is registered; the first failure stops the loop,
        groups registered before it staying registered. */
    method RegisterGroups(template: string, groups: seq<Group>, route: Route) returns (r: Result<Route, RouterError>)
      modifies this
      ensures registrations == old(registrations) + Registrations(template, groups[..Registered(strict, groups, route)])
      ensures r == (if Raised(strict, groups, route).Some? then Err(Raised(strict, groups, route).value) else Ok(route))
    {
      ghost var k := Registered(strict, groups, route);
      for g := 0 to |groups|
        invariant registrations == old(registrations) + Registrations(template, groups[..g])
        invariant k >= g
      {
        var resps := groups[g].methods;
        if strict {
          var bad := ValidateAll(resps, route);
          if bad.Some? {
            FailAtFirst(groups, route, g);
            return Err(HandlerInvalid(bad.value.0, bad.value.1));
          }
          FailAtPasses(groups, route, g);
        }
        assert groups[..g + 1][..g] == groups[..g];
        registrations := registrations + [Registration(template, groups[g].resource, resps)];
      }
      assert groups[..|groups|] == groups;
      return Ok(route);
    }
  }

  /** The grouping loop of `add`: each present responder goes into the method map
      of the resource it is bound to, a new group opening at a resource's first
      responder. */
  method GroupByResource(byMeth: seq<(string, Option<Handler>)>) returns (byResource: seq<Group>)
    ensures byResource == Groups(byMeth)
  {
    byResource := [];
    for n := 0 to |byMeth|
      invariant byResource == Groups(byMeth[..n])
    {
      assert byMeth[..n + 1][..n] == byMeth[..n];
      var (k, oh) := byMeth[n];
      if oh.Some? {
        byResource := SetDefaultPut(byResource, OwnerOf(oh.value), k, oh.value);
      }
    }
    assert byMeth[..|byMeth|] == byMeth;
  }

  /** The validation loop over one method map: stops at the first failure. */
  method ValidateAll(resps: MethodMap, route: Route) returns (bad: Option<(Handler, ValidationError)>)
    ensures bad == FirstInvalid(resps, route)
  {
    for i := 0 to |resps|
      invariant forall j :: 0 <= j < i ==> ValidateResponder(resps[j].0, resps[j].1, route).Ok?
    {
      var v := ValidateResponder(resps[i].0, resps[i].1, route);
      if v.Err? {
        FirstInvalidAt(resps, route, i);
        return Some((resps[i].1, v.error));
      }
    }
    FirstInvalidNone(resps, route);
    return None;
  }

  // ---------------------------------------------------------------------------
  // Lemmas about validation order

  /** The responder at `i` is the first invalid one when all before it pass. */
  lemma FirstInvalidAt(ms: MethodMap, route: Route, i: nat)
    requires i < |ms| && ValidateResponder(ms[i].0, ms[i].1, route).Err?
    requires forall j :: 0 <= j < i ==> ValidateResponder(ms[j].0, ms[j].1, route).Ok?
    ensures FirstInvalid(ms, route) == Some((ms[i].1, ValidateResponder(ms[i].0, ms[i].1, route).error))
  {
    var k := FirstFailure(ms, route);
    assert k == i;
  }

  /** No responder is invalid when all pass. */
  lemma FirstInvalidNone(ms: MethodMap, route: Route)
    requires forall j :: 0 <= j < |ms| ==> ValidateResponder(ms[j].0, ms[j].1, route).Ok?
    ensures FirstInvalid(ms, route).None?
  {
  }

  /** Group `g` is where strict mode stops when it fails and strict mode has not
      stopped before it. */
  lemma FailAtFirst(gs: seq<Group>, route: Route, g: nat)
    requires g < |gs| && FirstInvalid(gs[g].methods, route).Some?
    requires FailingGroup(gs, route) >= g
    ensures FailingGroup(gs, route) == g
  {
  }

  /** A group that passes does not stop strict mode. */
  lemma FailAtPasses(gs: seq<Group>, route: Route, g: nat)
    requires g < |gs| && FirstInvalid(gs[g].methods, route).None?
    requires FailingGroup(gs, route) >= g
    ensures FailingGroup(gs, route) >= g + 1
  {
  }

  // ---------------------------------------------------------------------------
  // Grouping: reference definitions and their agreement with `by_resource`

  /** The owning resource of every present responder, in `by_meth` order. */
  function Owners(bm: seq<(string, Option<Handler>)>): seq<Resource>
    decreases |bm|
  {
    if |bm| == 0 then []
    else Owners(bm[..|bm| - 1]) + (if bm[|bm| - 1].1.Some? then [OwnerOf(bm[|bm| - 1].1.value)] else [])
  }

  /** Each resource once, at its first occurrence. */
  function FirstSeen(rs: seq<Resource>): seq<Resource>
    decreases |rs|
  {
    if |rs| == 0 then []
    else
      var prior := FirstSeen(rs[..|rs| - 1]);
      if rs[|rs| - 1] in prior then prior else prior + [rs[|rs| - 1]]
  }

  /** The present responders bound to `r`, with their methods, in `by_meth` order. */
  function Owned(bm: seq<(string, Option<Handler>)>, r: Resource): MethodMap
    decreases |bm|
  {
    if |bm| == 0 then []
    else
      var (k, oh) := bm[|bm| - 1];
      Owned(bm[..|bm| - 1], r) + (if oh.Some? && OwnerOf(oh.value) == r then [(k, oh.value)] else [])
  }

  function Resources(gs: seq<Group>): (rs: seq<Resource>)
    ensures |rs| == |gs| && forall i :: 0 <= i < |gs| ==> rs[i] == gs[i].resource
  {
    seq(|gs|, i requires 0 <= i < |gs| => gs[i].resource)
  }

  predicate KeysDistinct(bm: seq<(string, Option<Handler>)>) {
    forall i, j :: 0 <= i < j < |bm| ==> bm[i].0 != bm[j].0
  }

  predicate Distinct(rs: seq<Resource>) {
    forall i, j :: 0 <= i < j < |rs| ==> rs[i] != rs[j]
  }

  lemma {:induction false} FirstSeenHas(rs: seq<Resource>, x: Resource)
    ensures x in FirstSeen(rs) <==> x in rs
    decreases |rs|
  {
    if |rs| > 0 {
      FirstSeenHas(rs[..|rs| - 1], x);
      assert rs == rs[..|rs| - 1] + [rs[|rs| - 1]];
    }
  }

  lemma {:induction false} FirstSeenDistinct(rs: seq<Resource>)
    ensures Distinct(FirstSeen(rs))
    decreases |rs|
  {
    if |rs| > 0 {
      FirstSeenDistinct(rs[..|rs| - 1]);
    }
  }

  lemma {:induction false} OwnedAbsent(bm: seq<(string, Option<Handler>)>, r: Resource)
    ensures r !in Owners(bm) <==> Owned(bm, r) == []
    decreases |bm|
  {
    if |bm| > 0 {
      OwnedAbsent(bm[..|bm| - 1], r);
    }
  }

  /** A method name absent from `bm` is absent from every group drawn from it. */
  lemma {:induction false} OwnedKeyAbsent(bm: seq<(string, Option<Handler>)>, r: Resource, k: string)
    requires forall i :: 0 <= i < |bm| ==> bm[i].0 != k
    ensures forall j :: 0 <= j < |Owned(bm, r)| ==> Owned(bm, r)[j].0 != k
    decreases |bm|
  {
    if |bm| > 0 {
      OwnedKeyAbsent(bm[..|bm| - 1], r, k);
    }
  }

  predicate GroupsMatch(bm: seq<(string, Option<Handler>)>, gs: seq<Group>) {
    Resources(gs) == FirstSeen(Owners(bm)) &&
    forall j :: 0 <= j < |gs| ==> gs[j].methods == Owned(bm, gs[j].resource)
  }

  /** The recursive definitions, one present responder further. */
  lemma Snoc(prefix: seq<(string, Option<Handler>)>, k: string, h: Handler)
    ensures var bm := prefix + [(k, Some(h))];
      Groups(bm) == SetDefaultPut(Groups(prefix), OwnerOf(h), k, h) &&
      Owners(bm) == Owners(prefix) + [OwnerOf(h)] &&
      forall x :: Owned(bm, x) == Owned(prefix, x) + (if OwnerOf(h) == x then [(k, h)] else [])
  {
    var bm := prefix + [(k, Some(h))];
    assert bm[..|bm| - 1] == prefix;
  }

  /** Adding a responder to a group already open keeps the groups matching. */
  lemma {:induction false} GroupsStepOld(prefix: seq<(string, Option<Handler>)>, k: string, h: Handler, i: nat)
    requires forall j :: 0 <= j < |prefix| ==> prefix[j].0 != k
    requires GroupsMatch(prefix, Groups(prefix))
    requires GroupIndex(Groups(prefix), OwnerOf(h)) == Some(i)
    ensures GroupsMatch(prefix + [(k, Some(h))], Groups(prefix + [(k, Some(h))]))
  {
    var gs := Groups(prefix);
    var r := OwnerOf(h);
    var bm := prefix + [(k, Some(h))];
    Snoc(prefix, k, h);
    OwnedKeyAbsent(prefix, r, k);
    assert KeyIndex(gs[i].methods, k).None?;
    var ng := gs[i := Group(r, gs[i].methods + [(k, h)])];
    assert Groups(bm) == ng;
    assert r in FirstSeen(Owners(prefix)) by {
      assert Resources(gs)[i] == r;
    }
    ResourcesUpdate(gs, i, Group(r, gs[i].methods + [(k, h)]));
    FirstSeenDistinct(Owners(prefix));
    OldMethods(bm, gs, ng, i);
  }

  lemma {:induction false} OldMethods(bm: seq<(string, Option<Handler>)>, gs: seq<Group>, ng: seq<Group>, i: nat)
    requires i < |gs| == |ng| && Distinct(Resources(gs))
    requires forall j :: 0 <= j < |gs| && j != i ==> ng[j] == gs[j] && Owned(bm, gs[j].resource) == gs[j].methods
    requires ng[i].resource == gs[i].resource && ng[i].methods == Owned(bm, gs[i].resource)
    ensures forall j :: 0 <= j < |ng| ==> ng[j].methods == Owned(bm, ng[j].resource)
  {
  }

  /** Opening a new group for a responder keeps the groups matching. */
  lemma {:induction false} GroupsStepNew(prefix: seq<(string, Option<Handler>)>, k: string, h: Handler)
    requires GroupsMatch(prefix, Groups(prefix))
    requires GroupIndex(Groups(prefix), OwnerOf(h)).None?
    ensures GroupsMatch(prefix + [(k, Some(h))], Groups(prefix + [(k, Some(h))]))
  {
    var gs := Groups(prefix);
    var r := OwnerOf(h);
    var bm := prefix + [(k, Some(h))];
    Snoc(prefix, k, h);
    var ng := gs + [Group(r, [(k, h)])];
    assert Groups(bm) == ng;
    ResourcesAppend(gs, Group(r, [(k, h)]));
    assert r !in Resources(gs) by {
      assert forall j :: 0 <= j < |gs| ==> Resources(gs)[j] != r;
    }
    FirstSeenHas(Owners(prefix), r);
    OwnedAbsent(prefix, r);
    OthersUnchanged(prefix, k, h, gs);
    assert Owned(bm, r) == [(k, h)];
    NewMethods(bm, gs, ng, r, (k, h));
  }

  lemma ResourcesAppend(gs: seq<Group>, g: Group)
    ensures Resources(gs + [g]) == Resources(gs) + [g.resource]
  {
  }

  lemma ResourcesUpdate(gs: seq<Group>, i: nat, g: Group)
    requires i < |gs| && g.resource == gs[i].resource
    ensures Resources(gs[i := g]) == Resources(gs)
  {
  }

  /** Groups of other resources keep their responders. */
  lemma {:induction false} OthersUnchanged(prefix: seq<(string, Option<Handler>)>, k: string, h: Handler, gs: seq<Group>)
    requires forall j :: 0 <= j < |gs| ==> gs[j].methods == Owned(prefix, gs[j].resource) && gs[j].resource != OwnerOf(h)
    ensures forall j :: 0 <= j < |gs| ==> Owned(prefix + [(k, Some(h))], gs[j].resource) == gs[j].methods
  {
    Snoc(prefix, k, h);
    forall j | 0 <= j < |gs| ensures Owned(prefix + [(k, Some(h))], gs[j].resource) == gs[j].methods {
      assert Owned(prefix + [(k, Some(h))], gs[j].resource) == Owned(prefix, gs[j].resource) + [];
    }
  }

  lemma {:induction false} NewMethods(bm: seq<(string, Option<Handler>)>, gs: seq<Group>, ng: seq<Group>,
                                      r: Resource, item: (string, Handler))
    requires ng == gs + [Group(r, [item])] && Owned(bm, r) == [item]
    requires forall j :: 0 <= j < |gs| ==> Owned(bm, gs[j].resource) == gs[j].methods
    ensures forall j :: 0 <= j < |ng| ==> ng[j].methods == Owned(bm, ng[j].resource)
  {
    forall j | 0 <= j < |ng| ensures ng[j].methods == Owned(bm, ng[j].resource) {
      if j < |gs| {
        assert ng[j] == gs[j];
      }
    }
  }

  /** `by_resource` holds one group per owning resource, in the order the resources
      first appear among the present responders, and each group's method map holds
      exactly the present responders bound to that resource, in `by_meth` order. */
  lemma {:induction false} GroupsSpec(bm: seq<(string, Option<Handler>)>)
    requires KeysDistinct(bm)
    ensures GroupsMatch(bm, Groups(bm))
    decreases |bm|
  {
    if |bm| > 0 {
      var prefix := bm[..|bm| - 1];
      var (k, oh) := bm[|bm| - 1];
      assert KeysDistinct(prefix);
      GroupsSpec(prefix);
      assert bm == prefix + [(k, oh)];
      if oh.None? {
        assert Groups(bm) == Groups(prefix) && Owners(bm) == Owners(prefix);
        forall j | 0 <= j < |Groups(bm)| ensures Groups(bm)[j].methods == Owned(bm, Groups(bm)[j].resource) {
          assert Owned(bm, Groups(bm)[j].resource) == Owned(prefix, Groups(bm)[j].resource) + [];
        }
      } else {
        match GroupIndex(Groups(prefix), OwnerOf(oh.value))
        case Some(i) => GroupsStepOld(prefix, k, oh.value, i);
        case None => GroupsStepNew(prefix, k, oh.value);
      }
    }
  }

  /** Under Python's keyword rules the methods of `by_meth` are distinct. */
  lemma ByMethDistinct(get: Option<Handler>, post: Option<Handler>, put: Option<Handler>,
                       delete: Option<Handler>, options: Option<Handler>,
                       extras: seq<(string, Option<Handler>)>)
    requires ExtrasDistinct(extras)
    ensures KeysDistinct(ByMeth(get, post, put, delete, options, extras))
  {
    var bm := ByMeth(get, post, put, delete, options, extras);
    forall i, j | 0 <= i < j < |bm| ensures bm[i].0 != bm[j].0 {
      if j >= 5 {
        assert bm[j] == extras[j - 5];
        if i >= 5 {
          assert bm[i] == extras[i - 5];
        }
      }
    }
  }

  /** The groups `add` registers: distinct resources, each with a non-empty method
      map holding its own responders, covering every present responder. */
  lemma AddGroups(get: Option<Handler>, post: Option<Handler>, put: Option<Handler>,
                  delete: Option<Handler>, options: Option<Handler>,
                  extras: seq<(string, Option<Handler>)>)
    requires ExtrasDistinct(extras)
    ensures var bm := ByMeth(get, post, put, delete, options, extras);
      var gs := Groups(bm);
      Resources(gs) == FirstSeen(Owners(bm)) &&
      Distinct(Resources(gs)) &&
      (forall j :: 0 <= j < |gs| ==> gs[j].methods == Owned(bm, gs[j].resource) && gs[j].methods != []) &&
      (forall r :: r in Owners(bm) <==> r in Resources(gs))
  {
    var bm := ByMeth(get, post, put, delete, options, extras);
    ByMethDistinct(get, post, put, delete, options, extras);
    GroupsSpec(bm);
    var gs := Groups(bm);
    FirstSeenDistinct(Owners(bm));
    forall j | 0 <= j < |gs| ensures gs[j].methods != [] {
      FirstSeenHas(Owners(bm), gs[j].resource);
      assert Resources(gs)[j] == gs[j].resource;
      OwnedAbsent(bm, gs[j].resource);
    }
    forall r ensures r in Owners(bm) <==> r in Resources(gs) {
      FirstSeenHas(Owners(bm), r);
    }
  }

  /** In strict mode, when `add` raises, every responder of every earlier group has
      passed validation, and the error is the first failure in the failing group. */
  lemma StrictFailure(gs: seq<Group>, route: Route)
    requires Raised(true, gs, route).Some?
    ensures var k := Registered(true, gs, route);
      k < |gs| &&
      (forall j, i :: 0 <= j < k && 0 <= i < |gs[j].methods| ==>
        ValidateResponder(gs[j].methods[i].0, gs[j].methods[i].1, route).Ok?) &&
      var ms := gs[k].methods;
      var i := FirstFailure(ms, route);
      i < |ms| && Raised(true, gs, route) ==
        Some(HandlerInvalid(ms[i].1, ValidateResponder(ms[i].0, ms[i].1, route).error))
  {
    var k := Registered(true, gs, route);
    forall j, i | 0 <= j < k && 0 <= i < |gs[j].methods|
      ensures ValidateResponder(gs[j].methods[i].0, gs[j].methods[i].1, route).Ok?
    {
      assert FirstInvalid(gs[j].methods, route).None?;
    }
  }

  /** Without strict mode `add` never raises after the slash check and registers
      every group. */
  lemma LenientRegistersAll(template: string, gs: seq<Group>, route: Route)
    ensures Raised(false, gs, route).None?
    ensures Registrations(template, gs[..Registered(false, gs, route)]) == Registrations(template, gs)
  {
    assert gs[..|gs|] == gs;
  }
}
