# falcon-url in Dafny

A Dafny model of the core of falcon-url. The library is a small routing layer
over the Falcon web framework. It has two parts:

- **The `Url` value.** It is immutable and has five parts: root, path segments,
  location, query pairs and fragment. Copies change one part (`with_location`,
  `with_query`, `with_fragment`, `with_root`, `/` on either side, indexing and
  slicing). `as_str` renders it as percent-encoded text, `__eq__` compares the
  rendered texts, and `__html__` renders it HTML-escaped. `with_query` turns
  Python keyword values into ordered text pairs (`_tostr`, `_make_qs`).
- **The router's registration path.** `Router.add` checks that the template
  begins with `/`, collects the responders into `by_meth` and groups them by the
  resource they are bound to (`by_resource`). In strict mode it validates each
  group's responders against the route before registering that group.
  `Router.add_route` does the same for a resource's own responders.
  `_validate_responder` checks the naming and signature rules every responder
  must follow.

Files:

| file | module | contents |
|---|---|---|
| `wrappers.dfy` | `Wrappers` | `Option`, `Result` |
| `text.dfy` | `Text` | `startswith`, `join`/`split`, `str(int)` and its inverse, split at first character |
| `encoding.dfy` | `Encoding` | UTF-8, `quote`, `quote_plus`, `urlencode(doseq=True)`, `html.escape`, and reference decoders for each |
| `url.dfy` | `UrlValue` | `_tostr`, `_make_qs`, the `Url` value and all its operations |
| `validate.dfy` | `Responders` | the responder signature model and `_validate_responder` |
| `router.dfy` | `Routing` | the `Router` class (`add`, `add_route`), the grouping and registration loops |

The library functions the code calls are written out as functions, then
independent decoders are proved to invert them:

- `urllib.parse.quote` and `quote_plus`: UTF-8 followed by `%XX` escaping of
  every byte outside the unreserved set of section 2.3 of RFC 3986 and the safe
  set.
- `urlencode`: `quote_plus` on keys and values, `=` inside a pair, `&` between
  pairs.
- `html.escape(quote=True)`.

The main result of this part is `UrlValue.RenderRoundTrip`. After the location,
the text `as_str` produces splits at its first `#` and then its first `?`, and
the pieces decode to the joined path, every query pair in order, and the
fragment exactly when one is set. So the rendering is unambiguous.

The router is an imperative `class Router`:

- `strict` is a constant field.
- `registrations` is a sequence that records every call to the base router's
  `add_route`.
- `Add` and `AddRoute` are methods that change it.
- The grouping loop and the validation loops are methods with loop invariants.
- Each loop is proved against a specification function: `Groups`,
  `FirstInvalid`, `Registered`/`Raised`.
- Lemmas prove what those functions mean. `Responders.ValidateAccepts`
  characterises validation by an order-free reference predicate.
  `Routing.AddGroups` characterises the grouping by owners in first-seen order.
  `Routing.StrictFailure` characterises strict mode's partial registration.

Python dictionaries are modelled as sequences of items in insertion order.
Assigning to a present key replaces its item in place, and assigning a new key
appends. Signatures are modelled as `Param` records (kind, default present,
annotation name).

## Model

| member | source | states |
|---|---|---|
| UrlValue.ToStr | src/falcon_url/url.py:8-13 | `True`/`False` become `true`/`false`; an `int` becomes its canonical decimal text (a minus sign exactly when negative, no leading zero, no `-0`), which reads back as the same integer; `str` and `float` text are unchanged |
| UrlValue.KeyPairs | src/falcon_url/url.py:19-27 | one keyword gives no pair for `None` or for an iterable holding a non-scalar, exactly the pair `(k, _tostr(v))` for a scalar, and one pair per element, in element order, for an iterable of scalars; every pair carries the keyword as its key |
| UrlValue.QueryPairs | src/falcon_url/url.py:16-29 | the query pairs of an argument list, specified through `UrlValue.QueryPairsConcat` (each keyword contributes its `KeyPairs` independently, in argument order) and `UrlValue.QueryPairsKeys` |
| UrlValue.MakeQs | src/falcon_url/url.py:16-29 | the loop over the keyword arguments returns exactly the concatenation, in argument order, of each keyword's pairs |
| UrlValue.QueryPairsConcat | src/falcon_url/url.py:19-27 | keywords contribute independently: the pairs of concatenated argument lists are the concatenated pairs |
| UrlValue.QueryPairsKeys | src/falcon_url/url.py:20-27 | every query pair comes from a keyword whose value is not `None` and carries that keyword as its key |
| UrlValue.KeyPairsAsWritten | src/falcon_url/url.py:26-27 | as written, a one-shot iterator yields no pair, because `all()` drains it before the comprehension runs; every other value agrees with `KeyPairs` |
| UrlValue.GeneratorDropped | src/falcon_url/url.py:26-27 | a generator of `1, 2` under key `b` yields no pairs as written; `b=1`, `b=2` was intended |
| UrlValue.KeyPairsAgree | src/falcon_url/url.py:26-27 | the code as written and the corrected coercion differ exactly on non-empty one-shot iterators of scalars |
| UrlValue.AsStr | src/falcon_url/url.py:57-73 | the rendering, specified through `UrlValue.RenderRoundTrip` (it decodes back to the components), `UrlValue.LocationPrepended` and `UrlValue.DivRendersSlash` |
| UrlValue.LocationPrepended | src/falcon_url/url.py:64-65 | the location is prepended unquoted; an absent or empty location adds nothing |
| UrlValue.RenderRoundTrip | src/falcon_url/url.py:57-73 | after the location, the rendered text splits at the first `#` and the first `?` and decodes back to the UTF-8 path joined by `/`, every query pair in order, and the fragment exactly when one is set |
| UrlValue.DecodeParts | src/falcon_url/url.py:59-72 | path, query part and fragment part together decode to the Url's components |
| UrlValue.QueryTextShape | src/falcon_url/url.py:67-70 | the query part is `?` plus the `urlencode` text exactly when the query has pairs; that text has no `#` and form-decodes to the pairs |
| UrlValue.PathTextShape | src/falcon_url/url.py:59-63 | the quoted path contains neither `?` nor `#` and percent-decodes to the UTF-8 of the segments joined by `/` |
| UrlValue.FragmentTextShape | src/falcon_url/url.py:71-72 | a set fragment, even an empty one, renders as `#` and its quoted text, which decodes back to it; an absent one renders as nothing |
| UrlValue.GetItem | src/falcon_url/url.py:75-85 | an integer index succeeds exactly for `-n <= i < n`; it selects one segment, counting negative indices from the end, and keeps root, location, query and fragment |
| UrlValue.SliceBound | src/falcon_url/url.py:76 | CPython's slice adjustment of one bound: an absent bound defaults to `0`/`n` for a positive step and `n-1`/`-1` for a negative one; an in-range bound is kept, a negative one counted from the end; an out-of-range one is clamped to `0..n` or `-1..n-1` |
| UrlValue.Slice | src/falcon_url/url.py:75-85 | a slice fails exactly for a zero step; otherwise it keeps root, location, query and fragment, and segment `j` of the result is the segment at `a + j*step` for the adjusted start `a`, every picked index lying before the adjusted stop and the next one not |
| UrlValue.PickIndices | src/falcon_url/url.py:76 | element `j` of a slice is the segment at `start + j*step`, all picked indices lie before `stop`, and the next one does not |
| UrlValue.SliceContiguous | src/falcon_url/url.py:75-85 | with step 1, or no step, a slice keeps every other component and replaces the segments by the contiguous range between the clamped bounds |
| UrlValue.SliceUndoesDiv | src/falcon_url/url.py:90-98 | `(url / s)[:-1]` equals `url` |
| UrlValue.SliceUndoesRDiv | src/falcon_url/url.py:100-108 | `(s / url)[1:]` equals `url` |
| UrlValue.IndexFindsAppended | src/falcon_url/url.py:75-108 | `(url / s)[-1]` and `(s / url)[0]` hold the single segment `s` |
| UrlValue.Div | src/falcon_url/url.py:90-98 | `url / right` appends one segment and keeps every other component |
| UrlValue.RDiv | src/falcon_url/url.py:100-108 | `left / url` prepends one segment and keeps every other component |
| UrlValue.DivRendersSlash | src/falcon_url/url.py:57-73 | for any Url, `url / right` renders the quoted segment at the end of the path, before the query and fragment parts: behind a `/` when the path was non-empty, alone otherwise |
| UrlValue.Equal | src/falcon_url/url.py:115-120 | two Urls are equal exactly when their renderings are, and `UrlValue.EqualIsEquivalence` and `UrlValue.EqualIgnoresFields` state what follows |
| UrlValue.EqualIsEquivalence | src/falcon_url/url.py:115-120 | equality is reflexive, as the `is` shortcut assumes, symmetric and transitive |
| UrlValue.EqualIgnoresFields | src/falcon_url/url.py:115-120 | equality compares renderings: an empty query list equals no query, and a root `""` equals a leading empty segment although the fields differ |
| UrlValue.Html | src/falcon_url/url.py:122-124 | the HTML rendering contains no `<`, `>`, `"` or `'`, every `&` in it begins one of the five entities (so the `&` between query pairs appears as `&amp;`), and unescaping it gives the rendered text back |
| UrlValue.WithLocation | src/falcon_url/url.py:126-135 | sets the location and keeps root, segments, query and fragment |
| UrlValue.WithQuery | src/falcon_url/url.py:137-155 | replaces the query by the coerced keyword pairs and keeps every other component |
| UrlValue.WithQueryReplaces | src/falcon_url/url.py:137-155 | a second `with_query` discards the first one's pairs instead of merging |
| UrlValue.WithFragment | src/falcon_url/url.py:157-166 | sets the fragment and keeps every other component |
| UrlValue.WithRoot | src/falcon_url/url.py:168-178 | sets the root and keeps every other component |
| UrlValue.WithRootRebases | src/falcon_url/url.py:168-178 | for a Url without a root and with at least one segment, rebasing renders the location, the quoted root and `/` before the old rendering |
| Encoding.Quote | src/falcon_url/url.py:63 | `quote`, specified exactly through `Encoding.QuoteKeepsSafeText`, `Encoding.QuoteEscapesAscii`, `Encoding.QuoteEscapesNonAscii` and `Encoding.QuoteConcat`, and by its decoder through `Encoding.QuoteDecode` |
| Encoding.QuoteKeepsSafeText | src/falcon_url/url.py:63 | text made only of ASCII unreserved and safe characters comes out of `quote` unchanged |
| Encoding.QuoteEscapesAscii | src/falcon_url/url.py:63 | an ASCII character that is neither unreserved nor safe becomes `%` and its two upper-case hex digits |
| Encoding.QuoteEscapesNonAscii | src/falcon_url/url.py:63 | a character outside ASCII becomes `%XX` for each byte of its UTF-8 encoding |
| Encoding.QuoteDecode | src/falcon_url/url.py:63 | percent-decoding the output of `quote` gives back the UTF-8 bytes of its input |
| Encoding.QuoteConcat | src/falcon_url/url.py:62-63 | quoting distributes over concatenation, so the path can be quoted segment by segment with `/` kept |
| Encoding.QuotedFormAvoids | src/falcon_url/url.py:63 | quoted text contains no character outside the unreserved set, the safe set and `%`, so `?` and `#` never occur in the path |
| Encoding.QuotePlus | src/falcon_url/url.py:68 | `quote_plus`, specified exactly through `Encoding.QuotePlusSpace`, `Encoding.QuotePlusKeepsUnreserved`, `Encoding.QuotePlusEscapesAscii`, `Encoding.QuotePlusEscapesNonAscii` and `Encoding.QuotePlusConcat`, and by its decoder through `Encoding.QuotePlusDecode` |
| Encoding.QuotePlusConcat | src/falcon_url/url.py:68 | `quote_plus` distributes over concatenation |
| Encoding.QuotePlusSpace | src/falcon_url/url.py:68 | a space becomes `+` wherever it occurs |
| Encoding.QuotePlusKeepsUnreserved | src/falcon_url/url.py:68 | text made only of ASCII unreserved characters comes out of `quote_plus` unchanged |
| Encoding.QuotePlusEscapesAscii | src/falcon_url/url.py:68 | an ASCII character other than a space that is not unreserved, the slash included, becomes `%` and two upper-case hex digits |
| Encoding.QuotePlusEscapesNonAscii | src/falcon_url/url.py:68 | a character outside ASCII becomes `%XX` for each byte of its UTF-8 encoding |
| Encoding.QuotePlusSample | tests/test_router.py:68-69 | the query value `" , ,Я"` of the router's rendering test encodes to `+%2C+%2C%D0%AF` |
| Encoding.QuotePlusDecode | src/falcon_url/url.py:68 | form-decoding the output of `quote_plus` gives back the UTF-8 bytes of its input |
| Encoding.QuotePlusAvoids | src/falcon_url/url.py:68 | `quote_plus` escapes `&`, `=` and `#`, so they separate the query's pairs unambiguously |
| Encoding.UrlEncode | src/falcon_url/url.py:68 | `urlencode(doseq=True)`, specified through `Encoding.FormRoundTrip` and `Encoding.UrlEncodeShape` |
| Encoding.FormRoundTrip | src/falcon_url/url.py:68 | decoding a non-empty `urlencode` result gives back every pair, in order, as UTF-8 bytes |
| Encoding.UrlEncodeShape | src/falcon_url/url.py:68-70 | `urlencode` of at least one pair is non-empty, and it never contains `#` |
| Encoding.HtmlEscape | src/falcon_url/url.py:124 | `html.escape`, specified through `Encoding.HtmlRoundTrip`, `Encoding.HtmlEscapeSafe` and `Encoding.HtmlEscapeEntities` |
| Encoding.HtmlRoundTrip | src/falcon_url/url.py:124 | unescaping the output of `html.escape` gives back its input |
| Encoding.HtmlEscapeSafe | src/falcon_url/url.py:124 | the output of `html.escape` contains none of `<`, `>`, `"`, `'` |
| Encoding.HtmlEscapeEntities | src/falcon_url/url.py:124 | every `&` in the output of `html.escape` begins one of `&amp;`, `&lt;`, `&gt;`, `&quot;`, `&#x27;` |
| Text.IntToDecimal | src/falcon_url/url.py:13 | `str(int)` is canonical decimal text (no leading zero, zero as `0`), signed exactly for negative integers |
| Text.DecimalRoundTrip | src/falcon_url/url.py:13 | `str(i)` reads back as `i` |
| Text.SplitJoin | src/falcon_url/url.py:62 | splitting a join at a separator that no part contains gives the parts back |
| Responders.SortedDiff | src/falcon_url/router.py:63-67 | `sorted(argset ^ parset)` is strictly sorted in code-point order and holds exactly the names found in one set only |
| Responders.SortedDiffEmpty | src/falcon_url/router.py:65-66 | the difference is empty exactly when the route's field names and the keyword-only names are the same set |
| Responders.LessTotal | src/falcon_url/router.py:67 | Python's string order places any two different strings one way or the other |
| Responders.KeywordParams | src/falcon_url/router.py:60 | the filter keeps exactly the keyword-only parameters: a parameter is in the result iff it is in the input and keyword-only |
| Responders.KeywordParamsConcat | src/falcon_url/router.py:60 | the filter keeps declaration order: filtering a concatenation concatenates the filtered parts |
| Responders.FindParam | src/falcon_url/router.py:70 | `next(...)` finds a parameter exactly when the name occurs, and the parameter found has that name |
| Responders.ArgProblem | src/falcon_url/router.py:72-78 | one route field is accepted exactly when its parameter has no default and is annotated with the field's type; a default gives the no-default error whatever the annotation, then a missing annotation gives the missing-annotation error, then a different annotation gives the mismatch error with both types |
| Responders.CheckArgs | src/falcon_url/router.py:69-78 | the per-field loop passes exactly when every field's parameter fits |
| Responders.FirstFailingArg | src/falcon_url/router.py:69-78 | the first field in route order whose parameter does not fit decides the error |
| Responders.ValidateResponder | src/falcon_url/router.py:32-78 | `_validate_responder`, specified through `Responders.ValidateAccepts` (passes iff the order-free reference predicate holds) and the lemmas below on which error is raised, including `Responders.TooFewParamsRaised` |
| Responders.ValidateAccepts | src/falcon_url/router.py:32-78 | validation passes exactly when the handler has an `on_` name, plain `req` and `resp`, keyword-only parameters named exactly like the route's fields, and each field's parameter fits |
| Responders.NameCheckedFirst | src/falcon_url/router.py:39-41 | a name without the `on_` prefix is rejected before any other check |
| Responders.TooFewParamsRaised | src/falcon_url/router.py:46 | with a good name, fewer than two parameters fail the unpacking of `req` and `resp` with the too-few-parameters error, a `ValueError` |
| Responders.ReqBeforeResp | src/falcon_url/router.py:49-57 | a bad `req` is reported whatever `resp` is, and a bad `resp` only after a good `req` |
| Responders.IgnoresNonKeywordOnly | src/falcon_url/router.py:46-60 | a parameter that is not keyword-only, inserted anywhere after `req` and `resp` (including a trailing `**kwargs`), changes nothing |
| Responders.MismatchedNames | src/falcon_url/router.py:62-67 | different name sets raise the no-match error carrying the sorted symmetric difference |
| Responders.ClassOf | src/falcon_url/router.py:41-78 | a failure is a `TypeError` exactly for a bad `req`, a bad `resp` or a parameter default, and a `ValueError` otherwise |
| Responders.ValidateErrorClasses | src/falcon_url/router.py:39-67 | a bad name, too few parameters and mismatched names raise `ValueError`; a bad `req` or `resp` raises `TypeError` |
| Responders.ArgProblemClass | src/falcon_url/router.py:72-78 | in the per-field loop a failure is a `TypeError` exactly when the parameter has a default |
| Responders.FieldsDecide | src/falcon_url/router.py:62-78 | once names and parameters pass, the per-field loop alone decides the result |
| Routing.Router.constructor | src/falcon_url/router.py:90-92 | a new router keeps its strict flag and has no registration |
| Routing.Router.AddRoute | src/falcon_url/router.py:94-119 | a template without a leading slash fails and registers nothing; in strict mode the first invalid responder's error is raised unwrapped and nothing is registered; otherwise exactly one registration is appended |
| Routing.Router.Add | src/falcon_url/router.py:121-178 | a template without a leading slash fails and registers nothing; otherwise the groups of `by_meth` are registered in order up to strict mode's first failing group, and the result is that group's wrapped error or the route |
| Routing.Router.RegisterGroups | src/falcon_url/router.py:169-176 | the registration loop registers exactly the groups before the first failing one (all of them when not strict) and raises the wrapped error of that group's first invalid responder |
| Routing.GroupByResource | src/falcon_url/router.py:163-167 | the grouping loop computes `Groups` of `by_meth` |
| Routing.ValidateAll | src/falcon_url/router.py:115-116 | the validation loop over a method map returns the first invalid responder with its error, or nothing when all pass |
| Routing.FirstFailure | src/falcon_url/router.py:170-175 | responders before the reported position pass validation and the responder at it fails |
| Routing.FailingGroup | src/falcon_url/router.py:169-176 | groups before the reported position hold only valid responders and the group at it holds an invalid one |
| Routing.OwnerOf | src/falcon_url/router.py:166 | a bound responder belongs to its `__self__` object, and an unbound one to the catch-all resource |
| Routing.OwnerShared | src/falcon_url/router.py:166 | two responders share a group exactly when they are bound to the same object or are both unbound |
| Routing.ByMeth | src/falcon_url/router.py:154-161 | `by_meth` holds GET, POST, PUT, DELETE and OPTIONS in that order, then the extra keyword arguments |
| Routing.PutDict | src/falcon_url/router.py:167 | `d[m] = responder` maps `m` to the responder, keeps every other key's value, appends a new key and keeps an existing key in its place |
| Routing.SetDefaultPutDict | src/falcon_url/router.py:167 | `setdefault(resource, {})[m] = responder` updates only the method map of that resource, starting from an empty map, and appends a new resource |
| Routing.Registrations | src/falcon_url/router.py:176 | one base-router `add_route` call per group, in group order, with the template, the group's resource and its method map |
| Routing.ErrorClass | src/falcon_url/router.py:169-175 | the wrapping in `add` raises `ValueError`, as do both slash checks (router.py lines 111 and 151); `add_route` lets a validation error through with its own class |
| Routing.AddRouteErrorClass | src/falcon_url/router.py:113-116 | the error `add_route` raises in strict mode has the class of the first invalid responder's validation error |
| Routing.AddRaisesValueError | src/falcon_url/router.py:169-176 | whatever `add` raises after the slash check is a `ValueError` |
| Routing.KeyIndex | src/falcon_url/router.py:167 | a key is found exactly when it is one of the method map's keys |
| Routing.Groups | src/falcon_url/router.py:163-167 | `by_resource` after the grouping loop, specified through `Routing.GroupsSpec` and `Routing.AddGroups` |
| Routing.GroupsSpec | src/falcon_url/router.py:163-167 | for distinct method names, `by_resource` holds one group per owner in first-seen order, each holding exactly that owner's present responders in `by_meth` order |
| Routing.ByMethDistinct | src/falcon_url/router.py:154-161 | under Python's keyword rules the methods of `by_meth` are distinct |
| Routing.AddGroups | src/falcon_url/router.py:154-167 | the groups `add` builds have distinct resources and non-empty method maps of their own responders, and they cover every resource that owns a present responder |
| Routing.Registered | src/falcon_url/router.py:169-176 | how many groups `add` registers: up to the first failing group in strict mode (`Routing.FailingGroup`), all of them otherwise (`Routing.LenientRegistersAll`) |
| Routing.Raised | src/falcon_url/router.py:169-176 | the error `add` raises after grouping, specified through `Routing.StrictFailure` and `Routing.LenientRegistersAll` |
| Routing.StrictFailure | src/falcon_url/router.py:169-176 | when strict `add` raises, every responder of every earlier group has passed, and the error wraps the first invalid responder of the failing group |
| Routing.LenientRegistersAll | src/falcon_url/router.py:169-176 | without strict mode `add` does not raise after the slash check and registers every group |

## Left out

- `Url.__hash__` and `Url.__bytes__` are not modelled. Neither feeds any other
  operation, and hashing is Python runtime behaviour.
- A `float` query value is carried as the text `str()` gives it. Python's
  shortest round-trip float formatting is not modelled.
- `UrlValue.ToStr`: does not model CPython's limit on the digits of
  `str(int)`, which raises for integers above 4300 digits.
- A string containing a lone surrogate is not modelled. Dafny's `char` is a
  Unicode scalar value, and for such strings `quote` raises while encoding to
  UTF-8.
- `__eq__` returning `NotImplemented` for a non-`Url` operand is outside the
  model, which compares `Url` values only.
- `with_query` receives its keywords as a sequence of `(name, value)` items. The
  model does not enforce Python's rule that keyword names are distinct, because
  `_make_qs` does not depend on it.
- Route templates, `Route`, `BoundRoute` and the parameter converters are not
  part of this model. A route is the template text `str(route)` plus its field
  names and types, as `_get_params` returns them.
- `inspect.signature(..., eval_str=True)` is modelled by its result. A
  responder's signature is given as `Param` records, and an annotation as the
  name of its type. Type objects comparing equal is modelled as equal names.
- The text of each error message is left out. Failures are modelled as
  `ValidationError` variants, and `ClassOf` maps each to its Python exception
  class.
- The `meth` argument of `_validate_responder` is accepted and unused, as in
  the source.
- The base `CompiledRouter` is an external library and is not modelled: its
  `add_route`, `map_http_methods`, `find` and `compile`. A call to its
  `add_route` is recorded as a `Registration`. In `AddRoute`, the method map
  that `map_http_methods` derives from the resource is a parameter.
- `Router.map_http_methods` with `_cooked` and `Router.compile` only forward to
  the base router, so they are left out with it.
- `inspect_routes` is a call into Falcon's inspection module and is not
  modelled.
- `UrlValue.MakeQs`: an iterable is read into a list once and then expanded. For a
  non-empty one-shot iterator of scalars, such as a generator, it yields one pair
  per element, whereas `_make_qs` as written yields none (see "## Findings").
- `UrlValue.WithQuery`: uses the same corrected coercion, so for a one-shot
  iterator of scalars it differs from `with_query` as written (see "## Findings").
- `Routing.Router.Add`: requires `ExtrasDistinct`. The Python call syntax
  itself rejects a repeated keyword argument or an extra named like one of the
  five named methods before `add` runs.
- `Routing.Router.Add`: does not model exceptions raised by the base router's
  `add_route` itself, such as a conflicting route.
- Responder truthiness (`if responder:`) is modelled as "present". A function
  object is always true and only `None` is false.
- Resource identity is modelled by a `nat` (`Obj(id)`). A bound method's
  `__self__` is compared by the default object identity.

## Findings

| source | as written | input that shows it | evidently intended | confidence | as-written member | corrected member |
|---|---|---|---|---|---|---|
| src/falcon_url/url.py:26-27 | `all(...)` traverses the iterable `v` and the list comprehension traverses it again; a one-shot iterator is drained by the first pass | `with_query(b=(x for x in [1, 2]))` produces no `b` pair | one pair per element, `b=1&b=2`, as the docstring's "Iterables are encoded as repeated key-value pairs" says | not executed | UrlValue.KeyPairsAsWritten | UrlValue.KeyPairs |

`UrlValue.GeneratorDropped` exhibits the input. `UrlValue.KeyPairsAgree` proves
that the two definitions differ only on non-empty one-shot iterators of
scalars. The rest of the model, `UrlValue.MakeQs` and `UrlValue.WithQuery`,
uses the corrected coercion. That coercion reads an iterable into a list once
and then expands it.
