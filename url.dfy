/** The immutable `Url` value of falcon_url (src/falcon_url/url.py): its five
    components, the operations that copy it with one component changed, the
    renderer `as_str`, equality by rendered text, the HTML-safe rendering, and
    the coercion of `with_query` keyword values into ordered text pairs. */
module UrlValue {
  import opened Wrappers
  import opened Text
  import opened Encoding

  // ---------------------------------------------------------------------------
  // Query values

  /** A scalar query value: `str`, `bool`, `int`, or `float` (a float is carried
      as the text `str()` gives it). */
  datatype Scalar = SStr(s: string) | SBool(b: bool) | SInt(i: int) | SFloat(text: string)

  /** An element of an iterable query value; `NonScalar` is anything else
      (`None`, a nested list, an arbitrary object). */
  datatype Element = Sc(v: Scalar) | NonScalar

  /** A keyword value of `with_query`: `None`, a scalar, or an iterable. `oneShot`
      marks an iterator that can be traversed only once, such as a generator. */
  datatype QArg = Null | One(v: Scalar) | Many(elements: seq<Element>, oneShot: bool)

  type QueryPair = (string, string)

  /** `_tostr`: `True` and `False` become `true` and `false`, an `int` its decimal
      text (read back as the same integer), a `str` or `float` its plain text. */
  function ToStr(v: Scalar): (r: string)
    ensures v.SBool? ==> r == (if v.b then "true" else "false")
    ensures v.SInt? ==> ParseInt(r) == Some(v.i) && CanonicalDecimal(r) && (r[0] == '-' <==> v.i < 0)
    ensures v.SStr? ==> r == v.s
    ensures v.SFloat? ==> r == v.text
  {
    match v
    case SBool(b) => if b then "true" else "false"
    case SInt(i) => DecimalRoundTrip(i); IntToDecimal(i)
    case SStr(s) => s
    case SFloat(t) => t
  }

  predicate AllScalar(es: seq<Element>) {
    forall i :: 0 <= i < |es| ==> es[i].Sc?
  }

  /** One pair per element, in element order, under the same key. */
  function Expand(k: string, es: seq<Element>): (r: seq<QueryPair>)
    requires AllScalar(es)
    ensures |r| == |es|
    ensures forall i :: 0 <= i < |es| ==> r[i] == (k, ToStr(es[i].v))
  {
    seq(|es|, i requires 0 <= i < |es| => (k, ToStr(es[i].v)))
  }

  /** The pairs one keyword contributes: none for `None`, one for a scalar, one per
      element for an iterable of scalars, none for an iterable holding anything
      else. An iterator is read into a list first (see `KeyPairsAsWritten`). */
  function KeyPairs(k: string, v: QArg): (r: seq<QueryPair>)
    ensures r == [] <==> v.Null? || (v.Many? && (!AllScalar(v.elements) || v.elements == []))
    ensures v.One? ==> r == [(k, ToStr(v.v))]
    ensures v.Many? && AllScalar(v.elements) ==>
      |r| == |v.elements| && forall i :: 0 <= i < |r| ==> r[i] == (k, ToStr(v.elements[i].v))
    ensures forall i :: 0 <= i < |r| ==> r[i].0 == k
  {
    match v
    case Null => []
    case One(x) => [(k, ToStr(x))]
    case Many(es, _) => if AllScalar(es) then Expand(k, es) else []
  }

  /** The query pairs of a sequence of keyword arguments, key by key in order. */
  function QueryPairs(args: seq<(string, QArg)>): seq<QueryPair>
    decreases |args|
  {
    if |args| == 0 then [] else KeyPairs(args[0].0, args[0].1) + QueryPairs(args[1..])
  }

  /** The pairs of concatenated argument lists are the concatenated pairs: each
      keyword contributes independently and the input order is kept. */
  lemma {:induction false} QueryPairsConcat(a: seq<(string, QArg)>, b: seq<(string, QArg)>)
    ensures QueryPairs(a + b) == QueryPairs(a) + QueryPairs(b)
    decreases |a|
  {
    if |a| == 0 {
      assert a + b == b;
    } else {
      assert (a + b)[1..] == a[1..] + b;
      QueryPairsConcat(a[1..], b);
    }
  }

  /** Every pair comes from a keyword whose value is not `None`, and carries that
      keyword as its key. */
  lemma {:induction false} QueryPairsKeys(args: seq<(string, QArg)>, j: nat)
    requires j < |QueryPairs(args)|
    ensures exists n :: 0 <= n < |args| && args[n].0 == QueryPairs(args)[j].0 && !args[n].1.Null?
    decreases |args|
  {
    var head := KeyPairs(args[0].0, args[0].1);
    if j < |head| {
      assert args[0].0 == QueryPairs(args)[j].0 && !args[0].1.Null?;
    } else {
      QueryPairsKeys(args[1..], j - |head|);
      var n :| 0 <= n < |args[1..]| && args[1..][n].0 == QueryPairs(args[1..])[j - |head|].0 && !args[1..][n].1.Null?;
      assert args[n + 1].0 == QueryPairs(args)[j].0 && !args[n + 1].1.Null?;
    }
  }

  /** `_make_qs`: walks the keyword arguments in order, skipping `None`, appending one
      pair for a scalar and extending by one pair per element for an iterable of
      scalars. */
  method MakeQs(args: seq<(string, QArg)>) returns (query: seq<QueryPair>)
    ensures query == QueryPairs(args)
  {
    query := [];
    for n := 0 to |args|
      invariant query == QueryPairs(args[..n])
    {
      var (k, v) := args[n];
      QueryPairsStep(args, n);
      if v.One? {
        query := query + [(k, ToStr(v.v))];
      } else if v.Many? {
        var es := v.elements;
        if AllScalar(es) {
          query := query + Expand(k, es);
        }
      }
    }
    assert args[..|args|] == args;
  }

  lemma QueryPairsStep(args: seq<(string, QArg)>, n: nat)
    requires n < |args|
    ensures QueryPairs(args[..n + 1]) == QueryPairs(args[..n]) + KeyPairs(args[n].0, args[n].1)
  {
    assert args[..n + 1] == args[..n] + [args[n]];
    QueryPairsConcat(args[..n], [args[n]]);
    assert QueryPairs([args[n]]) == KeyPairs(args[n].0, args[n].1) + QueryPairs([]);
  }

  /** `_make_qs` as written for one keyword: `all(...)` traverses an iterable once
      and the comprehension traverses it again, so a one-shot iterator reaches the
      comprehension already drained. */
  function KeyPairsAsWritten(k: string, v: QArg): (r: seq<QueryPair>)
    ensures v.Many? && v.oneShot ==> r == []
    ensures !(v.Many? && v.oneShot) ==> r == KeyPairs(k, v)
  {
    match v
    case Null => []
    case One(x) => [(k, ToStr(x))]
    case Many(es, oneShot) =>
      var left := if oneShot then [] else es;
      if AllScalar(es) then Expand(k, left) else []
  }

  /** A generator of scalars contributes no pair at all, where its elements were
      meant to be expanded one pair each. */
  lemma GeneratorDropped()
    ensures KeyPairsAsWritten("b", Many([Sc(SInt(1)), Sc(SInt(2))], true)) == []
    ensures KeyPairs("b", Many([Sc(SInt(1)), Sc(SInt(2))], true)) == [("b", "1"), ("b", "2")]
  {
    assert ToStr(SInt(1)) == "1" && ToStr(SInt(2)) == "2";
  }

  /** For every value that is not a one-shot iterator the corrected coercion agrees
      with the code as written; the two differ only on one-shot iterators of scalars. */
  lemma KeyPairsAgree(k: string, v: QArg)
    ensures !(v.Many? && v.oneShot) ==> KeyPairsAsWritten(k, v) == KeyPairs(k, v)
    ensures v.Many? && v.oneShot ==>
      (KeyPairsAsWritten(k, v) == KeyPairs(k, v) <==> !(AllScalar(v.elements) && |v.elements| > 0))
  {
    if v.Many? && v.oneShot && AllScalar(v.elements) && |v.elements| > 0 {
      assert |KeyPairs(k, v)| > 0;
    }
  }

  // ---------------------------------------------------------------------------
  // The Url value

  /** `Url(root, *segments, location=..., query=..., fragment=...)`. */
  datatype Url = Url(
    root: Option<string>,
    location: Option<string>,
    segments: seq<string>,
    query: Option<seq<QueryPair>>,
    fragment: Option<string>)

  /** The root, when present, followed by the segments. */
  function PathSegments(u: Url): seq<string> {
    if u.root.Some? then [u.root.value] + u.segments else u.segments
  }

  /** The joined path, percent-encoded with `/` kept. */
  function PathText(u: Url): string {
    Quote(Join("/", PathSegments(u)), PathSafe)
  }

  /** `?` and the form-encoded pairs, when there are pairs and they encode to
      something. */
  function QueryText(u: Url): string {
    if u.query.Some? && u.query.value != [] then
      var qs := UrlEncode(u.query.value);
      if qs != "" then "?" + qs else ""
    else ""
  }

  /** `#` and the percent-encoded fragment, whenever a fragment is set. */
  function FragmentText(u: Url): string {
    if u.fragment.Some? then "#" + Quote(u.fragment.value, PathSafe) else ""
  }

  /** What the location contributes: its text, unescaped, when it is set; an
      empty location contributes nothing, as `if self._loc` skips it. */
  function LocationText(u: Url): string {
    if u.location.Some? then u.location.value else ""
  }

  /** `as_str`: the location, the quoted path, the query part and the fragment part,
      in that order. */
  function AsStr(u: Url): string {
    LocationText(u) + PathText(u) + QueryText(u) + FragmentText(u)
  }

  lemma SamePath(u: Url, w: Url)
    requires u.root == w.root && u.segments == w.segments
    ensures PathText(u) == PathText(w)
  {
  }

  lemma SameQuery(u: Url, w: Url)
    requires u.query == w.query
    ensures QueryText(u) == QueryText(w)
  {
  }

  lemma SameFragment(u: Url, w: Url)
    requires u.fragment == w.fragment
    ensures FragmentText(u) == FragmentText(w)
  {
  }

  lemma Unlocated(u: Url)
    ensures LocationText(u.(location := None)) == ""
  {
  }

  lemma Assoc(l: string, p: string, q: string, f: string)
    ensures l + p + q + f == l + (p + q + f)
  {
  }

  /** The location is prepended verbatim, and an empty or absent location adds
      nothing. */
  lemma LocationPrepended(u: Url)
    ensures AsStr(u) == LocationText(u) + AsStr(u.(location := None))
  {
    var w := u.(location := None);
    SamePath(u, w);
    SameQuery(u, w);
    SameFragment(u, w);
    Unlocated(u);
    Assoc(LocationText(u), PathText(u), QueryText(u), FragmentText(u));
  }

  /** What decoding a rendered URL recovers, as UTF-8 bytes. */
  datatype Decoded = Decoded(path: seq<Byte>, query: seq<(seq<Byte>, seq<Byte>)>, fragment: Option<seq<Byte>>)

  /** Reference parser of a rendered URL without its location: split at the first
      `#`, then at the first `?`, and decode each piece. */
  function DecodeRendered(t: string): Option<Decoded> {
    var (beforeHash, frag) := SplitFirst(t, '#');
    var (pathText, queryText) := SplitFirst(beforeHash, '?');
    var path := PercentDecode(pathText, false);
    var query := if queryText.Some? then FormDecode(queryText.value) else Some([]);
    var fragment := if frag.Some? then PercentDecode(frag.value, false) else Some([]);
    if path.None? || query.None? || fragment.None? then None
    else Some(Decoded(path.value, query.value, if frag.Some? then Some(fragment.value) else None))
  }

  /** The components of a Url as UTF-8 bytes. */
  function Expected(u: Url): Decoded {
    Decoded(
      Utf8(Join("/", PathSegments(u))),
      if u.query.Some? then PairBytes(u.query.value) else [],
      if u.fragment.Some? then Some(Utf8(u.fragment.value)) else None)
  }

  lemma QuotedPathAvoids(s: string, x: char)
    requires x == '?' || x == '#'
    ensures x !in Quote(s, PathSafe)
  {
    QuoteForm(s, PathSafe);
    QuotedFormAvoids(Quote(s, PathSafe), PathSafe, x);
  }

  /** Text followed by an optional `c`-prefixed suffix splits back at its first `c`. */
  lemma SplitOptional(a: string, c: char, x: Option<string>)
    requires c !in a
    ensures SplitFirst(a + (if x.Some? then [c] + x.value else ""), c) == (a, x)
  {
    if x.Some? {
      assert a + ([c] + x.value) == a + [c] + x.value;
      SplitFirstAt(a, c, x.value);
    } else {
      assert a + "" == a;
      SplitFirstAbsent(a, c);
    }
  }

  /** Decoding text assembled from a piece `p` without `?` or `#`, an optional
      `?q` with no `#` in `q`, and an optional `#f`. */
  lemma DecodeAssembled(p: string, q: Option<string>, f: Option<string>)
    requires '?' !in p && '#' !in p
    requires q.Some? ==> '#' !in q.value
    ensures DecodeRendered(p + (if q.Some? then "?" + q.value else "") + (if f.Some? then "#" + f.value else "")) ==
      var path := PercentDecode(p, false);
      var query := if q.Some? then FormDecode(q.value) else Some([]);
      var fragment := if f.Some? then PercentDecode(f.value, false) else Some([]);
      if path.None? || query.None? || fragment.None? then None
      else Some(Decoded(path.value, query.value, if f.Some? then Some(fragment.value) else None))
  {
    var qt := if q.Some? then "?" + q.value else "";
    var ft := if f.Some? then "#" + f.value else "";
    assert '#' !in p + qt;
    SplitOptional(p + qt, '#', f);
    SplitOptional(p, '?', q);
  }

  /** The query part is `?` and the `urlencode` text exactly when there are pairs. */
  lemma QueryTextShape(u: Url)
    ensures u.query.Some? && u.query.value != [] ==>
      QueryText(u) == "?" + UrlEncode(u.query.value) && '#' !in UrlEncode(u.query.value) &&
      FormDecode(UrlEncode(u.query.value)) == Some(PairBytes(u.query.value))
    ensures !(u.query.Some? && u.query.value != []) ==> QueryText(u) == ""
  {
    if u.query.Some? && u.query.value != [] {
      UrlEncodeShape(u.query.value);
      FormRoundTrip(u.query.value);
    }
  }

  lemma PathTextShape(u: Url)
    ensures '?' !in PathText(u) && '#' !in PathText(u)
    ensures PercentDecode(PathText(u), false) == Some(Utf8(Join("/", PathSegments(u))))
  {
    var path := Join("/", PathSegments(u));
    QuotedPathAvoids(path, '?');
    QuotedPathAvoids(path, '#');
    QuoteDecode(path, PathSafe);
  }

  lemma FragmentTextShape(u: Url)
    ensures u.fragment.Some? ==>
      FragmentText(u) == "#" + Quote(u.fragment.value, PathSafe) &&
      PercentDecode(Quote(u.fragment.value, PathSafe), false) == Some(Utf8(u.fragment.value))
    ensures u.fragment.None? ==> FragmentText(u) == ""
  {
    if u.fragment.Some? {
      QuoteDecode(u.fragment.value, PathSafe);
    }
  }

  /** Everything after the location decodes to the Url's components. */
  lemma DecodeParts(u: Url)
    ensures DecodeRendered(PathText(u) + QueryText(u) + FragmentText(u)) == Some(Expected(u))
  {
    PathTextShape(u);
    QueryTextShape(u);
    FragmentTextShape(u);
    var hasQuery := u.query.Some? && u.query.value != [];
    var q: Option<string> := if hasQuery then Some(UrlEncode(u.query.value)) else None;
    var f: Option<string> := if u.fragment.Some? then Some(Quote(u.fragment.value, PathSafe)) else None;
    DecodeAssembled(PathText(u), q, f);
    if u.query.Some? && !hasQuery {
      assert PairBytes(u.query.value) == [];
    }
  }

  /** Rendering is unambiguous: after the location, the rendered text decodes back
      to the joined path, every query pair in order, and the fragment exactly when
      one is set. */
  lemma RenderRoundTrip(u: Url)
    ensures StartsWith(AsStr(u), LocationText(u))
    ensures DecodeRendered(AsStr(u)[|LocationText(u)|..]) == Some(Expected(u))
  {
    var l := LocationText(u);
    var t := PathText(u) + QueryText(u) + FragmentText(u);
    DecodeParts(u);
    Assoc(l, PathText(u), QueryText(u), FragmentText(u));
    assert AsStr(u) == l + t;
    assert AsStr(u)[..|l|] == l && AsStr(u)[|l|..] == t;
  }

  // ---------------------------------------------------------------------------
  // Copies with one component changed

  /** `with_location` */
  function WithLocation(u: Url, location: string): (r: Url)
    ensures r.location == Some(location)
    ensures r.root == u.root && r.segments == u.segments && r.query == u.query && r.fragment == u.fragment
  {
    u.(location := Some(location))
  }

  /** `with_query`: the query is replaced by the coerced keyword pairs, not merged. */
  function WithQuery(u: Url, keyvals: seq<(string, QArg)>): (r: Url)
    ensures r.query == Some(QueryPairs(keyvals))
    ensures r.root == u.root && r.location == u.location && r.segments == u.segments && r.fragment == u.fragment
  {
    u.(query := Some(QueryPairs(keyvals)))
  }

  /** `with_fragment` */
  function WithFragment(u: Url, fragment: string): (r: Url)
    ensures r.fragment == Some(fragment)
    ensures r.root == u.root && r.location == u.location && r.segments == u.segments && r.query == u.query
  {
    u.(fragment := Some(fragment))
  }

  /** `with_root` */
  function WithRoot(u: Url, root: string): (r: Url)
    ensures r.root == Some(root)
    ensures r.location == u.location && r.segments == u.segments && r.query == u.query && r.fragment == u.fragment
  {
    u.(root := Some(root))
  }

  /** `url / right`: one more segment at the end. */
  function Div(u: Url, right: string): (r: Url)
    ensures r.segments == u.segments + [right]
    ensures r.root == u.root && r.location == u.location && r.query == u.query && r.fragment == u.fragment
  {
    u.(segments := u.segments + [right])
  }

  /** `left / url`: one more segment at the front. */
  function RDiv(left: string, u: Url): (r: Url)
    ensures r.segments == [left] + u.segments
    ensures r.root == u.root && r.location == u.location && r.query == u.query && r.fragment == u.fragment
  {
    u.(segments := [left] + u.segments)
  }

  /** A second `with_query` discards the first one's pairs. */
  lemma WithQueryReplaces(u: Url, a: seq<(string, QArg)>, b: seq<(string, QArg)>)
    ensures WithQuery(WithQuery(u, a), b) == WithQuery(u, b)
  {
  }

  /** Without query and fragment a Url renders as its location and quoted path. */
  lemma AsStrPathOnly(u: Url)
    requires u.query.None? && u.fragment.None?
    ensures AsStr(u) == LocationText(u) + PathText(u)
  {
    assert QueryText(u) == "" && FragmentText(u) == "";
  }

  /** Quoting a slash-joined pair of texts keeps the slash between the quoted texts. */
  lemma QuoteAroundSlash(a: string, b: string)
    ensures Quote(a + "/" + b, PathSafe) == Quote(a, PathSafe) + "/" + Quote(b, PathSafe)
  {
    QuoteConcat(a + "/", b, PathSafe);
    QuoteConcat(a, "/", PathSafe);
    QuoteSlash();
  }

  lemma DivPath(u: Url, right: string)
    requires PathSegments(u) != []
    ensures PathText(Div(u, right)) == PathText(u) + "/" + Quote(right, PathSafe)
  {
    var ps := PathSegments(u);
    assert PathSegments(Div(u, right)) == ps + [right];
    JoinAppend("/", ps, right);
    QuoteAroundSlash(Join("/", ps), right);
  }

  /** `url / right` renders the new segment at the end of the path, before the query
      and fragment parts: behind a slash when the path was non-empty, alone otherwise. */
  lemma DivRendersSlash(u: Url, right: string)
    ensures PathSegments(u) != [] ==>
      AsStr(Div(u, right)) ==
        LocationText(u) + PathText(u) + "/" + Quote(right, PathSafe) + QueryText(u) + FragmentText(u)
    ensures PathSegments(u) == [] ==>
      AsStr(Div(u, right)) == LocationText(u) + Quote(right, PathSafe) + QueryText(u) + FragmentText(u)
  {
    if PathSegments(u) != [] {
      DivAfterPath(u, right);
    } else {
      DivAlone(u, right);
    }
  }

  lemma DivAfterPath(u: Url, right: string)
    requires PathSegments(u) != []
    ensures AsStr(Div(u, right)) ==
      LocationText(u) + PathText(u) + "/" + Quote(right, PathSafe) + QueryText(u) + FragmentText(u)
  {
    var v := Div(u, right);
    SameQuery(u, v);
    SameFragment(u, v);
    DivPath(u, right);
    assert LocationText(v) == LocationText(u);
    Regroup(LocationText(u), PathText(u), Quote(right, PathSafe), QueryText(u), FragmentText(u));
  }

  lemma Regroup(l: string, p: string, x: string, q: string, f: string)
    ensures l + (p + "/" + x) + q + f == l + p + "/" + x + q + f
  {
  }

  lemma DivAlone(u: Url, right: string)
    requires PathSegments(u) == []
    ensures AsStr(Div(u, right)) == LocationText(u) + Quote(right, PathSafe) + QueryText(u) + FragmentText(u)
  {
    var v := Div(u, right);
    SameQuery(u, v);
    SameFragment(u, v);
    assert PathSegments(v) == [right];
    assert LocationText(v) == LocationText(u);
  }

  lemma RootedPath(u: Url, root: string)
    requires u.root.None? && u.segments != []
    ensures PathText(WithRoot(u, root)) == Quote(root, PathSafe) + "/" + PathText(u)
  {
    var v := WithRoot(u, root);
    var rest := Join("/", u.segments);
    assert PathSegments(v) == [root] + u.segments;
    assert Join("/", PathSegments(v)) == root + "/" + rest;
    QuoteAroundSlash(root, rest);
  }

  lemma Assoc6(l: string, r: string, p: string, q: string, f: string)
    ensures l + (r + "/" + p) + q + f == l + r + "/" + ("" + p + q + f)
  {
  }

  /** Rebasing a root-less Url renders the quoted root, a slash, then the old path,
      behind the location. */
  lemma WithRootRebases(u: Url, root: string)
    requires u.root.None? && u.segments != []
    ensures AsStr(WithRoot(u, root)) ==
      LocationText(u) + Quote(root, PathSafe) + "/" + AsStr(u.(location := None))
  {
    var v := WithRoot(u, root);
    var w := u.(location := None);
    RootedPath(u, root);
    SamePath(u, w);
    SameQuery(v, w);
    SameFragment(v, w);
    assert LocationText(v) == LocationText(u) && LocationText(w) == "";
    Assoc6(LocationText(u), Quote(root, PathSafe), PathText(u), QueryText(w), FragmentText(w));
  }

  // ---------------------------------------------------------------------------
  // Indexing and slicing

  datatype ItemError = IndexOutOfRange | ZeroStep

  /** `url[i]` for an integer: Python indexing, negative indices counting from the
      end; the selected segment becomes the only one. */
  function GetItem(u: Url, i: int): (r: Result<Url, ItemError>)
    ensures r.Ok? <==> -|u.segments| <= i < |u.segments|
    ensures r.Ok? ==> r.value.segments == [u.segments[if i < 0 then i + |u.segments| else i]]
    ensures r.Ok? ==> r.value.root == u.root && r.value.location == u.location
                       && r.value.query == u.query && r.value.fragment == u.fragment
  {
    var n := |u.segments|;
    if -n <= i < n then Ok(u.(segments := [u.segments[if i < 0 then i + n else i]]))
    else Err(IndexOutOfRange)
  }

  /** One slice bound as CPython's slice adjustment reads it: the default when
      absent, negative values counted from the end, then clamped (to `0..n` for a
      positive step, to `-1..n-1` for a negative one). */
  function SliceBound(b: Option<int>, n: nat, step: int, isStart: bool): (r: int)
    requires step != 0
    ensures step > 0 ==> 0 <= r <= n
    ensures step < 0 ==> -1 <= r <= n - 1
    ensures b.None? && step > 0 ==> r == (if isStart then 0 else n)
    ensures b.None? && step < 0 ==> r == (if isStart then n - 1 else -1)
    ensures b.Some? && -(n as int) <= b.value < n ==> r == (if b.value < 0 then b.value + n else b.value)
    ensures b.Some? && b.value >= n ==> r == (if step > 0 then n as int else n - 1)
    ensures b.Some? && b.value < -(n as int) ==> r == (if step > 0 then 0 as int else -1)
  {
    var lo := if step < 0 then -1 else 0;
    var hi := if step < 0 then n - 1 else n;
    match b
    case None => if isStart == (step > 0) then lo else hi
    case Some(x) =>
      if x < 0 then (if x + n < 0 then lo else x + n)
      else if x >= n then hi
      else x
  }

  /** The elements at `i, i + step, ...` strictly before `stop`. */
  function Pick(s: seq<string>, i: int, stop: int, step: int): seq<string>
    requires step != 0
    requires step > 0 ==> 0 <= i && stop <= |s|
    requires step < 0 ==> i < |s| && -1 <= stop
    decreases if step > 0 then stop - i else i - stop
  {
    if (step > 0 && i < stop) || (step < 0 && i > stop) then [s[i]] + Pick(s, i + step, stop, step)
    else []
  }

  lemma NextIndex(i: int, step: int, j: int)
    ensures i + step + (j - 1) * step == i + j * step
  {
  }

  /** Element `j` of a pick is the element at `i + j * step`, every picked index lies
      before `stop`, and the first index not picked does not. */
  lemma {:induction false} PickIndices(s: seq<string>, i: int, stop: int, step: int)
    requires step != 0
    requires step > 0 ==> 0 <= i && stop <= |s|
    requires step < 0 ==> i < |s| && -1 <= stop
    ensures var r := Pick(s, i, stop, step);
      (forall j :: 0 <= j < |r| ==> 0 <= i + j * step < |s| && r[j] == s[i + j * step]) &&
      (forall j :: 0 <= j < |r| ==> (if step > 0 then i + j * step < stop else i + j * step > stop)) &&
      (if step > 0 then i + |r| * step >= stop else i + |r| * step <= stop)
    decreases if step > 0 then stop - i else i - stop
  {
    var r := Pick(s, i, stop, step);
    if (step > 0 && i < stop) || (step < 0 && i > stop) {
      var rest := Pick(s, i + step, stop, step);
      PickIndices(s, i + step, stop, step);
      assert r == [s[i]] + rest;
      forall j | 0 <= j < |r|
        ensures 0 <= i + j * step < |s| && r[j] == s[i + j * step]
        ensures if step > 0 then i + j * step < stop else i + j * step > stop
      {
        if j > 0 {
          NextIndex(i, step, j);
          assert r[j] == rest[j - 1];
        }
      }
      NextIndex(i, step, |r|);
    }
  }

  /** `url[start:stop:step]`: a zero step is an error; otherwise the segments at
      `a, a + step, ...` strictly before `b`, for the adjusted bounds `a` and `b`,
      everything else kept. */
  function Slice(u: Url, start: Option<int>, stop: Option<int>, step: Option<int>): (r: Result<Url, ItemError>)
    ensures r.Err? <==> step == Some(0)
    ensures r.Ok? ==> r.value.root == u.root && r.value.location == u.location
                       && r.value.query == u.query && r.value.fragment == u.fragment
    ensures r.Ok? ==>
      var st := if step.Some? then step.value else 1;
      var n := |u.segments|;
      var a := SliceBound(start, n, st, true);
      var b := SliceBound(stop, n, st, false);
      var segs := r.value.segments;
      (forall j :: 0 <= j < |segs| ==> 0 <= a + j * st < n && segs[j] == u.segments[a + j * st]) &&
      (forall j :: 0 <= j < |segs| ==> if st > 0 then a + j * st < b else a + j * st > b) &&
      (if st > 0 then a + |segs| * st >= b else a + |segs| * st <= b)
  {
    var st := if step.Some? then step.value else 1;
    if st == 0 then Err(ZeroStep)
    else
      var n := |u.segments|;
      var a := SliceBound(start, n, st, true);
      var b := SliceBound(stop, n, st, false);
      PickIndices(u.segments, a, b, st);
      Ok(u.(segments := Pick(u.segments, a, b, st)))
  }

  lemma {:induction false} PickStepOne(s: seq<string>, i: int, stop: int)
    requires 0 <= i && stop <= |s|
    ensures Pick(s, i, stop, 1) == if i < stop then s[i..stop] else []
    decreases stop - i
  {
    if i < stop {
      PickStepOne(s, i + 1, stop);
      assert s[i..stop] == [s[i]] + s[i + 1..stop];
    }
  }

  /** With step one a slice keeps root, location, query and fragment and replaces
      the segments with a contiguous sub-range. */
  lemma SliceContiguous(u: Url, start: Option<int>, stop: Option<int>)
    ensures var n := |u.segments|;
            var a := SliceBound(start, n, 1, true);
            var b := SliceBound(stop, n, 1, false);
            Slice(u, start, stop, None) == Slice(u, start, stop, Some(1)) ==
            Ok(u.(segments := if a < b then u.segments[a..b] else []))
  {
    var n := |u.segments|;
    PickStepOne(u.segments, SliceBound(start, n, 1, true), SliceBound(stop, n, 1, false));
  }

  /** `(url / s)[:-1]` is `url` again. */
  lemma SliceUndoesDiv(u: Url, s: string)
    ensures Slice(Div(u, s), None, Some(-1), None) == Ok(u)
  {
    var v := Div(u, s);
    var n := |v.segments|;
    assert SliceBound(None, n, 1, true) == 0;
    assert SliceBound(Some(-1), n, 1, false) == n - 1;
    SliceContiguous(v, None, Some(-1));
    assert v.segments[0..n - 1] == u.segments;
    assert v.(segments := u.segments) == u;
  }

  /** `(s / url)[1:]` is `url` again. */
  lemma SliceUndoesRDiv(u: Url, s: string)
    ensures Slice(RDiv(s, u), Some(1), None, None) == Ok(u)
  {
    var v := RDiv(s, u);
    var n := |v.segments|;
    assert SliceBound(Some(1), n, 1, true) == 1;
    assert SliceBound(None, n, 1, false) == n;
    SliceContiguous(v, Some(1), None);
    assert v.segments[1..n] == u.segments;
    assert v.(segments := u.segments) == u;
  }

  /** `(url / s)[-1]` and `(s / url)[0]` hold the one segment `s`. */
  lemma IndexFindsAppended(u: Url, s: string)
    ensures GetItem(Div(u, s), -1) == Ok(u.(segments := [s]))
    ensures GetItem(RDiv(s, u), 0) == Ok(u.(segments := [s]))
  {
  }

  // ---------------------------------------------------------------------------
  // Equality and HTML

  /** `__eq__` between two Urls: equal rendered text. */
  predicate Equal(a: Url, b: Url) {
    AsStr(a) == AsStr(b)
  }

  /** Equality is an equivalence relation; the `other is self` shortcut agrees with it. */
  lemma EqualIsEquivalence(a: Url, b: Url, c: Url)
    ensures Equal(a, a)
    ensures Equal(a, b) ==> Equal(b, a)
    ensures Equal(a, b) && Equal(b, c) ==> Equal(a, c)
  {
  }

  /** Equality compares renderings, not fields: an empty query list equals no
      query, and a root can be traded for a leading segment. */
  lemma EqualIgnoresFields()
    ensures Equal(Url(None, None, ["a"], None, None), Url(None, None, ["a"], Some([]), None))
    ensures Equal(Url(Some(""), None, ["a"], None, None), Url(None, None, ["", "a"], None, None))
    ensures Url(Some(""), None, ["a"], None, None) != Url(None, None, ["", "a"], None, None)
  {
    assert PathSegments(Url(Some(""), None, ["a"], None, None)) == ["", "a"];
  }

  /** `__html__`: the rendered text with `&`, `<`, `>`, `"` and `'` entity-escaped;
      unescaping gives the rendered text back. */
  function Html(u: Url): (r: string)
    ensures HtmlUnescape(r) == AsStr(u)
    ensures '<' !in r && '>' !in r && '"' !in r && '\'' !in r
    ensures AmpersandsEscaped(r)
  {
    var s := AsStr(u);
    HtmlEscapeEntities(s);
    HtmlRoundTrip(s);
    HtmlEscapeSafe(s, '<');
    HtmlEscapeSafe(s, '>');
    HtmlEscapeSafe(s, '"');
    HtmlEscapeSafe(s, '\'');
    HtmlEscape(s)
  }
}
