/** The strict-mode check of one responder against a route: its name, its first
    two parameters, and its keyword-only parameters against the route's fields. */
module Responders {
  import opened Wrappers
  import opened Text

  /** The kinds of a Python function parameter. */
  datatype ParamKind = PositionalOnly | PositionalOrKeyword | VarPositional | KeywordOnly | VarKeyword

  /** One parameter of a responder's signature; `annotation` is `None` when the
      parameter carries no type annotation, otherwise the annotated type's name. */
  datatype Param = Param(name: string, kind: ParamKind, hasDefault: bool, annotation: Option<string>)

  /** A responder: its function name, the resource it is bound to (`__self__`), if
      any, as an object identity, and its parameters in declaration order. */
  datatype Handler = Handler(name: string, owner: Option<nat>, params: seq<Param>)

  /** One field of a route template with the type it is converted to. */
  datatype RouteArg = RouteArg(id: string, anno: string)

  /** A parsed route: its template text and its fields in template order. */
  datatype Route = Route(template: string, args: seq<RouteArg>)

  datatype ValidationError =
    | BadName                         // name must begin with on_
    | TooFewParams                    // fewer than two parameters to unpack
    | WrongReq                        // wrong req parameter
    | WrongResp                       // wrong resp parameter
    | NoMatchingArgument(diff: seq<string>)
    | HasDefault(param: string)       // parameter must have no default value
    | MissingAnnotation(param: string)
    | AnnotationMismatch(param: string, declared: string, expected: string)

  datatype ExceptionClass = TypeError | ValueError

  /** The Python exception class each failure is raised as: the checks of a
      parameter's kind or default raise `TypeError`, all others `ValueError`. */
  function ClassOf(e: ValidationError): (r: ExceptionClass)
    ensures r == TypeError <==> e == WrongReq || e == WrongResp || e.HasDefault?
  {
    match e
    case WrongReq => TypeError
    case WrongResp => TypeError
    case HasDefault(_) => TypeError
    case _ => ValueError
  }

  // ---------------------------------------------------------------------------
  // Sorted symmetric difference

  /** Python's string order: lexicographic by code point, a proper prefix first. */
  predicate Less(a: string, b: string)
    decreases |a|
  {
    if |a| == 0 then |b| > 0
    else if |b| == 0 then false
    else a[0] < b[0] || (a[0] == b[0] && Less(a[1..], b[1..]))
  }

  /** Any two different strings are ordered one way or the other. */
  lemma {:induction false} LessTotal(a: string, b: string)
    requires a != b
    ensures Less(a, b) || Less(b, a)
    decreases |a|
  {
    if |a| > 0 && |b| > 0 && a[0] == b[0] {
      assert a == [a[0]] + a[1..] && b == [b[0]] + b[1..];
      LessTotal(a[1..], b[1..]);
    }
  }

  /** The order is strict: no string comes before itself, and never both ways. */
  lemma {:induction false} LessAsymmetric(a: string, b: string)
    ensures !(Less(a, b) && Less(b, a))
    decreases |a|
  {
    if |a| > 0 && |b| > 0 && a[0] == b[0] {
      LessAsymmetric(a[1..], b[1..]);
    }
  }

  predicate StrictlySorted(s: seq<string>) {
    forall i :: 0 <= i < |s| - 1 ==> Less(s[i], s[i + 1])
  }

  lemma ElemsConcat(a: seq<string>, b: seq<string>)
    ensures (set y | y in a + b) == (set y | y in a) + (set y | y in b)
  {
  }

  /** Insert `x` into a strictly sorted sequence, unless it is already there. */
  function InsertUnique(x: string, s: seq<string>): (r: seq<string>)
    requires StrictlySorted(s)
    ensures StrictlySorted(r)
    ensures (set y | y in r) == (set y | y in s) + {x}
    ensures |r| > 0 && (r[0] == x || (|s| > 0 && r[0] == s[0]))
    decreases |s|
  {
    if |s| == 0 then [x]
    else if x == s[0] then s
    else if Less(x, s[0]) then [x] + s
    else
      LessTotal(x, s[0]);
      assert forall i :: 0 <= i < |s[1..]| - 1 ==> Less(s[1..][i], s[1..][i + 1]) by {
        forall i | 0 <= i < |s[1..]| - 1 ensures Less(s[1..][i], s[1..][i + 1]) {
          assert s[1..][i] == s[i + 1] && s[1..][i + 1] == s[i + 2];
        }
      }
      var rest := InsertUnique(x, s[1..]);
      assert s == [s[0]] + s[1..];
      ElemsConcat([s[0]], s[1..]);
      ElemsConcat([s[0]], rest);
      [s[0]] + rest
  }

  /** The distinct elements of `xs`, strictly sorted. */
  function SortDistinct(xs: seq<string>): (r: seq<string>)
    ensures StrictlySorted(r)
    ensures (set y | y in r) == (set y | y in xs)
    decreases |xs|
  {
    if |xs| == 0 then []
    else
      assert xs == xs[..|xs| - 1] + [xs[|xs| - 1]];
      ElemsConcat(xs[..|xs| - 1], [xs[|xs| - 1]]);
      InsertUnique(xs[|xs| - 1], SortDistinct(xs[..|xs| - 1]))
  }

  /** The elements of `a` that are not in `b`, in order. */
  function OnlyIn(a: seq<string>, b: seq<string>): (r: seq<string>)
    ensures (set y | y in r) == (set y | y in a) - (set y | y in b)
    decreases |a|
  {
    if |a| == 0 then []
    else
      assert a == [a[0]] + a[1..];
      ElemsConcat([a[0]], a[1..]);
      ElemsConcat(if a[0] in b then [] else [a[0]], OnlyIn(a[1..], b));
      (if a[0] in b then [] else [a[0]]) + OnlyIn(a[1..], b)
  }

  /** `sorted(set(a) ^ set(b))`: the names in exactly one of the two lists, each
      once, in Python's string order. */
  function SortedDiff(a: seq<string>, b: seq<string>): (r: seq<string>)
    ensures StrictlySorted(r)
    ensures (set y | y in r) ==
      ((set y | y in a) - (set y | y in b)) + ((set y | y in b) - (set y | y in a))
  {
    ElemsConcat(OnlyIn(a, b), OnlyIn(b, a));
    SortDistinct(OnlyIn(a, b) + OnlyIn(b, a))
  }

  /** A list element is in the set of the other list when the two sets agree. */
  lemma InOther(a: seq<string>, b: seq<string>, i: nat)
    requires i < |a| && (set y | y in a) == (set y | y in b)
    ensures a[i] in b
  {
    var sb := set y | y in b;
    assert a[i] in sb;
  }

  /** No difference means the two lists hold the same names. */
  lemma SortedDiffEmpty(a: seq<string>, b: seq<string>)
    ensures SortedDiff(a, b) == [] <==> (set y | y in a) == (set y | y in b)
  {
    var sa := set y | y in a;
    var sb := set y | y in b;
    if SortedDiff(a, b) == [] {
      assert (set y | y in SortedDiff(a, b)) == {};
      assert sa - sb == {} && sb - sa == {};
    } else {
      var d := SortedDiff(a, b);
      assert d[0] in (set y | y in d);
    }
  }

  // ---------------------------------------------------------------------------
  // The check

  /** `req` and `resp`: positional (only, or positional-or-keyword) without default. */
  predicate PlainPositional(p: Param) {
    (p.kind == PositionalOnly || p.kind == PositionalOrKeyword) && !p.hasDefault
  }

  /** The keyword-only parameters, in declaration order. */
  function KeywordParams(ps: seq<Param>): (r: seq<Param>)
    ensures forall i :: 0 <= i < |r| ==> r[i].kind == KeywordOnly
    ensures forall p :: p in r <==> p in ps && p.kind == KeywordOnly
    decreases |ps|
  {
    if |ps| == 0 then []
    else
      assert forall p :: p in ps <==> p == ps[0] || p in ps[1..];
      (if ps[0].kind == KeywordOnly then [ps[0]] else []) + KeywordParams(ps[1..])
  }

  /** The filter keeps declaration order: filtering a concatenation concatenates
      the filtered parts. */
  lemma {:induction false} KeywordParamsConcat(a: seq<Param>, b: seq<Param>)
    ensures KeywordParams(a + b) == KeywordParams(a) + KeywordParams(b)
    decreases |a|
  {
    if |a| == 0 {
      assert a + b == b;
    } else {
      assert (a + b)[1..] == a[1..] + b;
      KeywordParamsConcat(a[1..], b);
    }
  }

  function ParamNames(ps: seq<Param>): (r: seq<string>)
    ensures |r| == |ps| && forall i :: 0 <= i < |ps| ==> r[i] == ps[i].name
  {
    seq(|ps|, i requires 0 <= i < |ps| => ps[i].name)
  }

  function ArgIds(args: seq<RouteArg>): (r: seq<string>)
    ensures |r| == |args| && forall i :: 0 <= i < |args| ==> r[i] == args[i].id
  {
    seq(|args|, i requires 0 <= i < |args| => args[i].id)
  }

  /** The first parameter with the given name, as Python's `next(...)` finds it. */
  function FindParam(ps: seq<Param>, name: string): (r: Option<Param>)
    ensures r.Some? <==> name in ParamNames(ps)
    ensures r.Some? ==> r.value.name == name && r.value in ps
    decreases |ps|
  {
    if |ps| == 0 then None
    else if ps[0].name == name then Some(ps[0])
    else
      assert forall i :: 0 <= i < |ps| - 1 ==> ParamNames(ps[1..])[i] == ParamNames(ps)[i + 1];
      assert ParamNames(ps) == [ps[0].name] + ParamNames(ps[1..]);
      FindParam(ps[1..], name)
  }

  /** A route field's parameter is acceptable: no default, and annotated with
      exactly the field's type. */
  predicate Fits(p: Param, arg: RouteArg) {
    !p.hasDefault && p.annotation == Some(arg.anno)
  }

  /** The checks of one route field, in order: default, then missing annotation,
      then a different annotation. */
  function ArgProblem(p: Param, arg: RouteArg): (r: Option<ValidationError>)
    ensures r.None? <==> Fits(p, arg)
    ensures r.Some? ==>
      (r.value.HasDefault? || r.value.MissingAnnotation? || r.value.AnnotationMismatch?) && r.value.param == p.name
    ensures p.hasDefault ==> r == Some(HasDefault(p.name))
    ensures !p.hasDefault && p.annotation.None? ==> r == Some(MissingAnnotation(p.name))
    ensures !p.hasDefault && p.annotation.Some? && p.annotation.value != arg.anno ==>
      r == Some(AnnotationMismatch(p.name, p.annotation.value, arg.anno))
  {
    if p.hasDefault then Some(HasDefault(p.name))
    else if p.annotation.None? then Some(MissingAnnotation(p.name))
    else if p.annotation.value != arg.anno then Some(AnnotationMismatch(p.name, p.annotation.value, arg.anno))
    else None
  }

  predicate Findable(args: seq<RouteArg>, kw: seq<Param>) {
    forall i :: 0 <= i < |args| ==> FindParam(kw, args[i].id).Some?
  }

  /** The per-field loop: the first field in route order that fails decides. */
  function CheckArgs(args: seq<RouteArg>, kw: seq<Param>): (r: Result<(), ValidationError>)
    requires Findable(args, kw)
    ensures r.Ok? <==> forall i :: 0 <= i < |args| ==> Fits(FindParam(kw, args[i].id).value, args[i])
    decreases |args|
  {
    if |args| == 0 then Ok(())
    else
      assert forall i :: 0 <= i < |args| - 1 ==> args[1..][i] == args[i + 1];
      match ArgProblem(FindParam(kw, args[0].id).value, args[0])
      case Some(e) => Err(e)
      case None => CheckArgs(args[1..], kw)
  }

  /** `_validate_responder`. `meth` is accepted and not used, as in the source. */
  function ValidateResponder(meth: string, h: Handler, route: Route): (r: Result<(), ValidationError>)
  {
    if !StartsWith(h.name, "on_") then Err(BadName)
    else if |h.params| < 2 then Err(TooFewParams)
    else if !PlainPositional(h.params[0]) then Err(WrongReq)
    else if !PlainPositional(h.params[1]) then Err(WrongResp)
    else
      var kw := KeywordParams(h.params[2..]);
      var diff := SortedDiff(ArgIds(route.args), ParamNames(kw));
      if diff != [] then Err(NoMatchingArgument(diff))
      else
        SortedDiffEmpty(ArgIds(route.args), ParamNames(kw));
        assert forall i :: 0 <= i < |route.args| ==> route.args[i].id in ParamNames(kw) by {
          forall i | 0 <= i < |route.args| ensures route.args[i].id in ParamNames(kw) {
            InOther(ArgIds(route.args), ParamNames(kw), i);
          }
        }
        CheckArgs(route.args, kw)
  }

  // ---------------------------------------------------------------------------
  // Properties

  /** The responder's keyword-only parameters. */
  function Keywords(h: Handler): seq<Param>
    requires |h.params| >= 2
  {
    KeywordParams(h.params[2..])
  }

  /** Reference definition of an acceptable responder, independent of the order of
      the checks: an `on_` name, plain `req` and `resp`, keyword-only parameters named
      exactly like the route's fields, and each field's parameter fitting it. */
  predicate Accepts(h: Handler, route: Route) {
    StartsWith(h.name, "on_") && |h.params| >= 2 &&
    PlainPositional(h.params[0]) && PlainPositional(h.params[1]) &&
    (set y | y in ArgIds(route.args)) == (set y | y in ParamNames(Keywords(h))) &&
    forall i :: 0 <= i < |route.args| ==>
      FindParam(Keywords(h), route.args[i].id).Some? &&
      Fits(FindParam(Keywords(h), route.args[i].id).value, route.args[i])
  }

  /** Validation passes exactly for the responders the reference definition accepts. */
  lemma ValidateAccepts(meth: string, h: Handler, route: Route)
    ensures ValidateResponder(meth, h, route).Ok? <==> Accepts(h, route)
  {
    if StartsWith(h.name, "on_") && |h.params| >= 2 && PlainPositional(h.params[0]) && PlainPositional(h.params[1]) {
      var kw := Keywords(h);
      SortedDiffEmpty(ArgIds(route.args), ParamNames(kw));
      if (set y | y in ArgIds(route.args)) == (set y | y in ParamNames(kw)) {
        forall i | 0 <= i < |route.args| ensures FindParam(kw, route.args[i].id).Some? {
          InOther(ArgIds(route.args), ParamNames(kw), i);
        }
      }
    }
  }

  /** The name is checked before anything else. */
  lemma NameCheckedFirst(meth: string, h: Handler, route: Route)
    requires !StartsWith(h.name, "on_")
    ensures ValidateResponder(meth, h, route) == Err(BadName)
  {
  }

  /** With a good name, a bad first parameter is reported whatever the second is,
      and a bad second parameter is reported only after a good first one. */
  lemma ReqBeforeResp(meth: string, h: Handler, route: Route)
    requires StartsWith(h.name, "on_") && |h.params| >= 2
    ensures !PlainPositional(h.params[0]) ==> ValidateResponder(meth, h, route) == Err(WrongReq)
    ensures PlainPositional(h.params[0]) && !PlainPositional(h.params[1]) ==>
      ValidateResponder(meth, h, route) == Err(WrongResp)
  {
  }

  /** With a good name, fewer than two parameters fail the unpacking of `req` and
      `resp`, which Python reports as a `ValueError`. */
  lemma TooFewParamsRaised(meth: string, h: Handler, route: Route)
    requires StartsWith(h.name, "on_") && |h.params| < 2
    ensures ValidateResponder(meth, h, route) == Err(TooFewParams)
    ensures ClassOf(TooFewParams) == ValueError
  {
  }

  /** The exception class of each check before the per-field loop: the name and the
      unpacking raise `ValueError`, a bad `req` or `resp` `TypeError`, and names that
      do not match `ValueError`. */
  lemma ValidateErrorClasses(meth: string, h: Handler, route: Route)
    ensures !StartsWith(h.name, "on_") ==> ClassOf(ValidateResponder(meth, h, route).error) == ValueError
    ensures StartsWith(h.name, "on_") && |h.params| < 2 ==>
      ClassOf(ValidateResponder(meth, h, route).error) == ValueError
    ensures (StartsWith(h.name, "on_") && |h.params| >= 2 &&
             (!PlainPositional(h.params[0]) || !PlainPositional(h.params[1]))) ==>
      ClassOf(ValidateResponder(meth, h, route).error) == TypeError
    ensures (StartsWith(h.name, "on_") && |h.params| >= 2 &&
             PlainPositional(h.params[0]) && PlainPositional(h.params[1]) &&
             SortedDiff(ArgIds(route.args), ParamNames(Keywords(h))) != []) ==>
      ClassOf(ValidateResponder(meth, h, route).error) == ValueError
  {
  }

  /** In the per-field loop a default value raises `TypeError` and an annotation
      problem `ValueError`. */
  lemma ArgProblemClass(p: Param, arg: RouteArg)
    requires !Fits(p, arg)
    ensures ClassOf(ArgProblem(p, arg).value) == TypeError <==> p.hasDefault
  {
  }

  /** A parameter that is not keyword-only, placed anywhere after `req` and `resp`
      (an injected positional, `*args`, a trailing `**kwargs`), changes nothing. */
  lemma IgnoresNonKeywordOnly(meth: string, h: Handler, route: Route, p: Param, j: nat)
    requires 2 <= j <= |h.params| && p.kind != KeywordOnly
    ensures ValidateResponder(meth, h.(params := h.params[..j] + [p] + h.params[j..]), route) ==
            ValidateResponder(meth, h, route)
  {
    var ps := h.params[..j] + [p] + h.params[j..];
    var front := h.params[2..j];
    var back := h.params[j..];
    assert ps[0] == h.params[0] && ps[1] == h.params[1];
    assert ps[2..] == front + ([p] + back);
    assert h.params[2..] == front + back;
    KeywordParamsConcat(front, [p] + back);
    KeywordParamsConcat(front, back);
    assert KeywordParams([p] + back) == KeywordParams(back) by {
      assert ([p] + back)[1..] == back;
    }
  }

  /** When the field names and the keyword-only names differ, validation fails with
      the sorted names found on one side only. */
  lemma MismatchedNames(meth: string, h: Handler, route: Route)
    requires StartsWith(h.name, "on_") && |h.params| >= 2
    requires PlainPositional(h.params[0]) && PlainPositional(h.params[1])
    requires (set y | y in ArgIds(route.args)) != (set y | y in ParamNames(Keywords(h)))
    ensures var r := ValidateResponder(meth, h, route);
      r.Err? && r.error.NoMatchingArgument? && StrictlySorted(r.error.diff) &&
      (set y | y in r.error.diff) ==
        ((set y | y in ArgIds(route.args)) - (set y | y in ParamNames(Keywords(h)))) +
        ((set y | y in ParamNames(Keywords(h))) - (set y | y in ArgIds(route.args)))
  {
    SortedDiffEmpty(ArgIds(route.args), ParamNames(Keywords(h)));
  }

  /** One step of the per-field loop: a fitting first field passes on to the rest, a
      failing one decides the error. */
  lemma CheckArgsHead(args: seq<RouteArg>, kw: seq<Param>)
    requires Findable(args, kw) && |args| > 0
    ensures Fits(FindParam(kw, args[0].id).value, args[0]) ==> CheckArgs(args, kw) == CheckArgs(args[1..], kw)
    ensures !Fits(FindParam(kw, args[0].id).value, args[0]) ==>
      CheckArgs(args, kw) == Err(ArgProblem(FindParam(kw, args[0].id).value, args[0]).value)
  {
    var p := FindParam(kw, args[0].id).value;
    if Fits(p, args[0]) {
      assert ArgProblem(p, args[0]).None?;
    }
  }

  /** Dropping a fitting first field: the loop goes on with the rest, where the first
      failing field is one place earlier. */
  lemma DropFitting(args: seq<RouteArg>, kw: seq<Param>, j: nat)
    requires Findable(args, kw) && 0 < j < |args|
    requires forall i :: 0 <= i < j ==> Fits(FindParam(kw, args[i].id).value, args[i])
    requires !Fits(FindParam(kw, args[j].id).value, args[j])
    ensures Findable(args[1..], kw)
    ensures forall i :: 0 <= i < j - 1 ==> Fits(FindParam(kw, args[1..][i].id).value, args[1..][i])
    ensures !Fits(FindParam(kw, args[1..][j - 1].id).value, args[1..][j - 1])
    ensures args[1..][j - 1] == args[j]
    ensures CheckArgs(args, kw) == CheckArgs(args[1..], kw)
  {
    var rest := args[1..];
    assert forall i :: 0 <= i < |rest| ==> rest[i] == args[i + 1];
    CheckArgsHead(args, kw);
  }

  /** The first route field, in route order, whose parameter does not fit decides the
      error. */
  lemma {:induction false} FirstFailingArg(args: seq<RouteArg>, kw: seq<Param>, j: nat)
    requires Findable(args, kw) && j < |args|
    requires forall i :: 0 <= i < j ==> Fits(FindParam(kw, args[i].id).value, args[i])
    requires !Fits(FindParam(kw, args[j].id).value, args[j])
    ensures CheckArgs(args, kw) == Err(ArgProblem(FindParam(kw, args[j].id).value, args[j]).value)
    decreases j
  {
    if j == 0 {
      CheckArgsHead(args, kw);
    } else {
      DropFitting(args, kw, j);
      FirstFailingArg(args[1..], kw, j - 1);
    }
  }

  /** After the name, parameter and name-set checks pass, the per-field loop decides. */
  lemma FieldsDecide(meth: string, h: Handler, route: Route)
    requires StartsWith(h.name, "on_") && |h.params| >= 2
    requires PlainPositional(h.params[0]) && PlainPositional(h.params[1])
    requires (set y | y in ArgIds(route.args)) == (set y | y in ParamNames(Keywords(h)))
    ensures Findable(route.args, Keywords(h))
    ensures ValidateResponder(meth, h, route) == CheckArgs(route.args, Keywords(h))
  {
    SortedDiffEmpty(ArgIds(route.args), ParamNames(Keywords(h)));
    forall i | 0 <= i < |route.args| ensures FindParam(Keywords(h), route.args[i].id).Some? {
      InOther(ArgIds(route.args), ParamNames(Keywords(h)), i);
    }
  }
}
