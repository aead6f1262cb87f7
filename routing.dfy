/**
 * The rule table and the request matcher (`Manager`): `setRules` flattens
 * builder rules into the table, `match` scans it for the first rule that
 * admits a request, and `replaceVariables` fills the `{key}` placeholders of
 * the chosen target.
 */
module Routing {
  import opened Maybe
  import opened PhpText
  import opened Pcre
  import opened RulePattern
  import opened RuleData
  import opened RuleBuilder
  import opened Routes

  /**
   * What `match` reads from a request: its method, its `Host` and
   * `X-Requested-With` header lines, and its URL-decoded path.
   */
  datatype Request = Request(httpMethod: string, host: string, requestedWith: string, path: string)

  /** The path that is matched: the request path without spaces and slashes at either end. */
  function RequestPath(req: Request): (p: string)
    ensures IsTrimmed(p, {' ', '/'})
  {
    Trim(req.path, {' ', '/'})
  }

  // ----- The filters -----

  /** A rule with a non-empty methods list admits only the methods it lists. */
  predicate PassesMethods(rec: RuleRecord, req: Request) {
    rec.methods == [] || req.httpMethod in rec.methods
  }

  /** A rule with a truthy hostname admits only requests for that host. */
  predicate PassesHost(rec: RuleRecord, req: Request) {
    rec.hostname.Some? && IsTruthy(rec.hostname.value) ==> rec.hostname.value == req.host
  }

  /** A rule whose ajax flag is true admits only requests with a truthy X-Requested-With. */
  predicate PassesAjax(rec: RuleRecord, req: Request) {
    rec.ajax == Some(true) ==> IsTruthy(req.requestedWith)
  }

  predicate PassesFilters(rec: RuleRecord, req: Request) {
    PassesMethods(rec, req) && PassesHost(rec, req) && PassesAjax(rec, req)
  }

  /** The named captures of the rule's regexp on the request path, when it matches. */
  function Captures(rec: RuleRecord, req: Request): Option<map<string, string>> {
    PregMatch(rec.regexp, RequestPath(req))
  }

  /** The rule admits the request: every filter passes and its regexp matches. */
  predicate Selects(rec: RuleRecord, req: Request) {
    PassesFilters(rec, req) && Captures(rec, req).Some?
  }

  // ----- Placeholder substitution -----

  /** The replacement pairs `replaceVariables` hands to strtr, for the keys ks of args. */
  function VarsOf(args: map<string, string>, ks: set<string>): (vars: map<string, string>)
    requires ks <= args.Keys
    ensures forall k :: k in ks ==> Braced(k) in vars && vars[Braced(k)] == args[k]
  {
    BracedInjective();
    map k | k in ks :: Braced(k) := args[k]
  }

  /** `{k}` for every key k of args, mapped to args[k]. */
  function Vars(args: map<string, string>): map<string, string> {
    VarsOf(args, args.Keys)
  }

  /** Different keys give different placeholders. */
  lemma BracedInjective()
    ensures forall a, b :: Braced(a) == Braced(b) ==> a == b
  {
    forall a, b | Braced(a) == Braced(b)
      ensures a == b
    {
      BracedDistinct(a, b);
    }
  }

  /** The placeholders of two keys differ unless the keys do not. */
  lemma BracedDistinct(a: string, b: string)
    ensures Braced(a) == Braced(b) ==> a == b
  {
    assert a == Braced(a)[1..|a| + 1];
    assert b == Braced(b)[1..|b| + 1];
  }

  /** Every replacement key is the placeholder of a key. */
  lemma VarsKey(args: map<string, string>, ks: set<string>, x: string) returns (k: string)
    requires ks <= args.Keys && x in VarsOf(args, ks)
    ensures k in ks && x == Braced(k)
  {
    k :| k in ks && x == Braced(k);
  }

  /** Adding one key to the pairs built so far. */
  lemma VarsAdd(args: map<string, string>, ks: set<string>, k: string)
    requires ks <= args.Keys && k in args && k !in ks
    ensures VarsOf(args, ks + {k}) == VarsOf(args, ks)[Braced(k) := args[k]]
  {
    var before, after := VarsOf(args, ks), VarsOf(args, ks + {k});
    var grown := before[Braced(k) := args[k]];
    forall x | x in after
      ensures x in grown && after[x] == grown[x]
    {
      var j := VarsKey(args, ks + {k}, x);
      if j != k {
        BracedDistinct(j, k);
        assert x in before;
      }
    }
    forall x | x in grown
      ensures x in after
    {
      if x != Braced(k) {
        var j := VarsKey(args, ks, x);
      }
    }
  }

  /** One more key done, in the terms of the loop of `replaceVariables`. */
  lemma VarsDone(args: map<string, string>, todo: set<string>, k: string)
    requires todo <= args.Keys && k in todo
    ensures todo - {k} <= args.Keys
    ensures VarsOf(args, args.Keys - (todo - {k})) == VarsOf(args, args.Keys - todo)[Braced(k) := args[k]]
  {
    assert (args.Keys - todo) + {k} == args.Keys - (todo - {k});
    VarsAdd(args, args.Keys - todo, k);
  }

  /** strtr applied to every element of an array target (`array_map`). */
  function StrtrEach(items: seq<string>, vars: map<string, string>): (r: seq<string>)
    ensures |r| == |items|
  {
    seq(|items|, i requires 0 <= i < |items| => Strtr(items[i], vars))
  }

  /** The target after `replaceVariables`: an array target element-wise, a string target as a whole; any other target as it is. */
  function Resolved(target: Target, args: map<string, string>): Target {
    match target
    case Items(items) => Items(StrtrEach(items, Vars(args)))
    case Text(text) => Text(Strtr(text, Vars(args)))
    case _ => target
  }

  predicate IsBrace(c: char) {
    c == '{' || c == '}'
  }

  /** No key of args holds a brace. */
  predicate BraceFreeKeys(args: map<string, string>) {
    forall k :: k in args ==> '{' !in k && '}' !in k
  }

  /** The first index from i on that holds a brace, or |s|. */
  function NextBrace(s: string, i: nat): (j: nat)
    requires i <= |s|
    ensures i <= j <= |s|
    ensures forall m :: i <= m < j ==> !IsBrace(s[m])
    ensures j < |s| ==> IsBrace(s[j])
    decreases |s| - i
  {
    if i == |s| || IsBrace(s[i]) then i else NextBrace(s, i + 1)
  }

  /** The first brace from i on is at j. */
  lemma NextBraceIs(s: string, i: nat, j: nat)
    requires i <= j < |s| && IsBrace(s[j])
    requires forall m :: i <= m < j ==> !IsBrace(s[m])
    ensures NextBrace(s, i) == j
  {
  }

  /** The placeholder `{k}`, for k without braces, ends where its text says. */
  lemma BracedEnd(k: string, q: string)
    requires BraceFree(k)
    ensures NextBrace(Braced(k) + q, 1) == |k| + 1
    ensures (Braced(k) + q)[1..|k| + 1] == k
    ensures (Braced(k) + q)[0] == '{' && (Braced(k) + q)[|k| + 1] == '}'
    ensures (Braced(k) + q)[1..] == k + "}" + q
    ensures (Braced(k) + q)[|k| + 2..] == q
  {
    var s := Braced(k) + q;
    forall x | 1 <= x < |k| + 1
      ensures !IsBrace(s[x])
    {
      assert s[x] == k[x - 1];
    }
    assert s[|k| + 1] == '}';
    NextBraceIs(s, 1, |k| + 1);
  }

  /**
   * The length of the placeholder `{k}` at the start of s, for a key k of
   * args without braces of its own; 0 when s does not start with one.
   */
  function KnownPlaceholder(s: string, args: map<string, string>): (l: nat)
    ensures l == 0 || (2 <= l <= |s| && s[0] == '{' && s[l - 1] == '}' && s[1..l - 1] in args)
  {
    if s != [] && s[0] == '{' && NextBrace(s, 1) < |s| && s[NextBrace(s, 1)] == '}' && s[1..NextBrace(s, 1)] in args
    then NextBrace(s, 1) + 1
    else 0
  }

  /**
   * The intended reading of `replaceVariables`, defined without strtr: from
   * left to right, each `{k}` with k a key of args becomes args[k], and every
   * other character, unknown placeholders included, is kept.
   */
  function Substitute(s: string, args: map<string, string>): string
    decreases |s|
  {
    if s == [] then []
    else if KnownPlaceholder(s, args) == 0 then [s[0]] + Substitute(s[1..], args)
    else
      var l := KnownPlaceholder(s, args);
      args[s[1..l - 1]] + Substitute(s[l..], args)
  }

  /** A replacement key that starts s is exactly the known placeholder there. */
  lemma KeyIsPlaceholder(s: string, args: map<string, string>, m: nat)
    requires BraceFreeKeys(args)
    requires 1 <= m <= |s| && s[..m] in Vars(args)
    ensures KnownPlaceholder(s, args) == m
  {
    var k := VarsKey(args, args.Keys, s[..m]);
    assert |k| == m - 2;
    assert s[0] == '{' && s[m - 1] == '}';
    forall x | 1 <= x < m - 1
      ensures !IsBrace(s[x])
    {
      assert s[x] == s[..m][x] == k[x - 1];
    }
    assert s[1..m - 1] == k by {
      assert s[1..m - 1] == s[..m][1..m - 1];
    }
    NextBraceIs(s, 1, m - 1);
  }

  /** With brace-free keys, the longest key strtr finds at s is the known placeholder there. */
  lemma LongestIsPlaceholder(s: string, args: map<string, string>)
    requires BraceFreeKeys(args)
    ensures LongestKey(s, Vars(args), |s|) == KnownPlaceholder(s, args)
  {
    var l := LongestKey(s, Vars(args), |s|);
    var p := KnownPlaceholder(s, args);
    if l > 0 {
      KeyIsPlaceholder(s, args, l);
    } else if p > 0 {
      PlaceholderIsKey(s, args);
    }
  }

  /** A known placeholder at the start of s is a replacement key. */
  lemma PlaceholderIsKey(s: string, args: map<string, string>)
    requires KnownPlaceholder(s, args) > 0
    ensures s[..KnownPlaceholder(s, args)] in Vars(args)
  {
    var p := KnownPlaceholder(s, args);
    assert s[..p] == Braced(s[1..p - 1]);
  }

  /** strtr with the pairs of `replaceVariables` is Substitute, when no key holds a brace. */
  lemma {:induction false} StrtrIsSubstitute(s: string, args: map<string, string>)
    requires BraceFreeKeys(args)
    ensures Strtr(s, Vars(args)) == Substitute(s, args)
    decreases |s|
  {
    if s != [] {
      LongestIsPlaceholder(s, args);
      var l := KnownPlaceholder(s, args);
      if l == 0 {
        StrtrIsSubstitute(s[1..], args);
      } else {
        assert s[..l] == Braced(s[1..l - 1]);
        StrtrIsSubstitute(s[l..], args);
      }
    }
  }

  /** Text without braces is kept as it is. */
  predicate BraceFree(s: string) {
    '{' !in s && '}' !in s
  }

  /** A character other than `{` is copied. */
  lemma SubstituteCopies(s: string, args: map<string, string>)
    requires s != [] && s[0] != '{'
    ensures Substitute(s, args) == [s[0]] + Substitute(s[1..], args)
  {
  }

  /** Text without `{` is copied, and substitution goes on after it. */
  lemma {:induction false} SubstitutePlain(p: string, r: string, args: map<string, string>)
    requires '{' !in p
    ensures Substitute(p + r, args) == p + Substitute(r, args)
    decreases |p|
  {
    if p == [] {
      assert p + r == r;
    } else {
      var s := p + r;
      assert s[0] == p[0] && s[1..] == p[1..] + r;
      SubstituteCopies(s, args);
      SubstitutePlain(p[1..], r, args);
      assert [p[0]] + p[1..] == p;
    }
  }

  /** A known placeholder `{k}` at the start becomes args[k]. */
  lemma SubstituteHere(k: string, q: string, args: map<string, string>)
    requires BraceFree(k) && k in args
    ensures Substitute(Braced(k) + q, args) == args[k] + Substitute(q, args)
  {
    var s := Braced(k) + q;
    BracedEnd(k, q);
    assert KnownPlaceholder(s, args) == |k| + 2;
  }

  /** An unknown placeholder `{k}` at the start is kept. */
  lemma SubstituteKept(k: string, q: string, args: map<string, string>)
    requires BraceFree(k) && k !in args
    ensures Substitute(Braced(k) + q, args) == Braced(k) + Substitute(q, args)
  {
    var s := Braced(k) + q;
    BracedEnd(k, q);
    assert KnownPlaceholder(s, args) == 0;
    assert Substitute(s, args) == "{" + Substitute(k + "}" + q, args);
    SubstitutePlain(k + "}", q, args);
  }

  /** Text without braces, then `{k}` for a known key k: the text is kept and the placeholder becomes args[k]. */
  lemma SubstituteKnown(p: string, k: string, q: string, args: map<string, string>)
    requires BraceFree(p) && BraceFree(k) && k in args
    ensures Substitute(p + Braced(k) + q, args) == p + args[k] + Substitute(q, args)
  {
    assert p + Braced(k) + q == p + (Braced(k) + q);
    SubstitutePlain(p, Braced(k) + q, args);
    SubstituteHere(k, q, args);
  }

  /** Text without braces, then `{k}` for a key k args lacks: everything is kept. */
  lemma SubstituteUnknown(p: string, k: string, q: string, args: map<string, string>)
    requires BraceFree(p) && BraceFree(k) && k !in args
    ensures Substitute(p + Braced(k) + q, args) == p + Braced(k) + Substitute(q, args)
  {
    assert p + Braced(k) + q == p + (Braced(k) + q);
    SubstitutePlain(p, Braced(k) + q, args);
    SubstituteKept(k, q, args);
  }

  /**
   * What `replaceVariables` does to a target, when no key holds a brace: a
   * string target is substituted, an array target element by element with
   * its length kept, and any other target is left alone.
   */
  lemma ResolvedMeaning(target: Target, args: map<string, string>)
    requires BraceFreeKeys(args)
    ensures target.Text? ==> Resolved(target, args) == Text(Substitute(target.text, args))
    ensures target.Items? ==> Resolved(target, args).Items?
    ensures target.Items? ==> |Resolved(target, args).items| == |target.items|
    ensures target.Items? ==> forall i :: 0 <= i < |target.items| ==>
      Resolved(target, args).items[i] == Substitute(target.items[i], args)
    ensures !target.Text? && !target.Items? ==> Resolved(target, args) == target
  {
    match target
    case Text(text) =>
      StrtrIsSubstitute(text, args);
    case Items(items) =>
      forall i | 0 <= i < |items|
        ensures Resolved(target, args).items[i] == Substitute(items[i], args)
      {
        StrtrIsSubstitute(items[i], args);
      }
    case _ =>
  }

  // ----- The matched route -----

  /**
   * The route built from rule rec and the captures of its regexp: the
   * captures, with the rule's static args beneath them, and the target with
   * its placeholders filled in, unless it is a callable.
   */
  function RouteFor(rec: RuleRecord, caps: map<string, string>): (route: MatchedRoute)
    ensures route.rule == Some(rec) && route.name == rec.name && route.targetType == rec.targetType
    ensures route.args.Keys == caps.Keys + rec.args.Keys
    ensures forall k :: k in caps ==> route.args[k] == caps[k]
    ensures forall k :: k in rec.args && k !in caps ==> route.args[k] == rec.args[k]
    ensures rec.target.Invocable? ==> route.target == rec.target
    ensures !rec.target.Invocable? ==> route.target == Resolved(rec.target, route.args)
  {
    var args := ArrayUnion(caps, rec.args);
    MatchedRoute(rec.name, Some(rec), args, rec.targetType, if rec.target.Invocable? then rec.target else Resolved(rec.target, args))
  }

  /** What `match` answers: the route of the first rule of rs that admits the request, or none. */
  function FirstMatch(rs: seq<RuleRecord>, req: Request): (route: Option<MatchedRoute>)
    ensures route.Some? ==> route.value.rule.Some? && route.value.rule.value in rs
    ensures route.Some? ==> Selects(route.value.rule.value, req)
    decreases |rs|
  {
    if rs == [] then None
    else if Selects(rs[0], req) then Some(RouteFor(rs[0], Captures(rs[0], req).value))
    else FirstMatch(rs[1..], req)
  }

  /** A match comes from the first admitting rule k, and is the route built from it. */
  lemma {:induction false} FirstMatchAt(rs: seq<RuleRecord>, req: Request) returns (k: nat)
    requires FirstMatch(rs, req).Some?
    ensures k < |rs| && Selects(rs[k], req)
    ensures forall j :: 0 <= j < k ==> !Selects(rs[j], req)
    ensures FirstMatch(rs, req) == Some(RouteFor(rs[k], Captures(rs[k], req).value))
    decreases |rs|
  {
    if Selects(rs[0], req) {
      k := 0;
    } else {
      var k1 := FirstMatchAt(rs[1..], req);
      k := k1 + 1;
      forall j | 0 <= j < k
        ensures !Selects(rs[j], req)
      {
        if j > 0 {
          assert rs[j] == rs[1..][j - 1];
        }
      }
    }
  }

  /** Conversely, the first admitting rule is the one matched. */
  lemma {:induction false} FirstMatchOf(rs: seq<RuleRecord>, req: Request, k: nat)
    requires k < |rs| && Selects(rs[k], req)
    requires forall j :: 0 <= j < k ==> !Selects(rs[j], req)
    ensures FirstMatch(rs, req) == Some(RouteFor(rs[k], Captures(rs[k], req).value))
    decreases k
  {
    if k > 0 {
      forall j | 0 <= j < k - 1
        ensures !Selects(rs[1..][j], req)
      {
        assert rs[1..][j] == rs[j + 1];
      }
      FirstMatchOf(rs[1..], req, k - 1);
    }
  }

  /** There is no match exactly when no rule admits the request. */
  lemma {:induction false} NoMatch(rs: seq<RuleRecord>, req: Request)
    ensures FirstMatch(rs, req).None? <==> forall k :: 0 <= k < |rs| ==> !Selects(rs[k], req)
    decreases |rs|
  {
    if rs != [] {
      NoMatch(rs[1..], req);
      if !Selects(rs[0], req) {
        assert forall k :: 1 <= k < |rs| ==> rs[k] == rs[1..][k - 1];
      }
    }
  }

  /** The matched rule passes every filter, and its regexp matches the trimmed path. */
  lemma MatchedPassesFilters(rs: seq<RuleRecord>, req: Request, route: MatchedRoute, rec: RuleRecord)
    requires FirstMatch(rs, req) == Some(route) && route.rule == Some(rec)
    ensures rec.methods != [] ==> req.httpMethod in rec.methods
    ensures rec.hostname.Some? && IsTruthy(rec.hostname.value) ==> rec.hostname.value == req.host
    ensures rec.ajax == Some(true) ==> IsTruthy(req.requestedWith)
    ensures PregMatch(rec.regexp, RequestPath(req)).Some?
  {
    var k := FirstMatchAt(rs, req);
  }

  /** Rules after the table's first match are never consulted. */
  lemma {:induction false} FirstMatchAppend(rs: seq<RuleRecord>, more: seq<RuleRecord>, req: Request)
    ensures FirstMatch(rs + more, req) == if FirstMatch(rs, req).Some? then FirstMatch(rs, req) else FirstMatch(more, req)
    decreases |rs|
  {
    if rs == [] {
      assert rs + more == more;
    } else {
      assert (rs + more)[0] == rs[0];
      assert (rs + more)[1..] == rs[1..] + more;
      FirstMatchAppend(rs[1..], more, req);
    }
  }

  /** A table without ajax-only rules answers the same whatever X-Requested-With says. */
  lemma {:induction false} AjaxIgnored(rs: seq<RuleRecord>, req: Request, header: string)
    requires forall i :: 0 <= i < |rs| ==> rs[i].ajax != Some(true)
    ensures FirstMatch(rs, req) == FirstMatch(rs, req.(requestedWith := header))
    decreases |rs|
  {
    if rs != [] {
      var other := req.(requestedWith := header);
      assert RequestPath(other) == RequestPath(req);
      assert Selects(rs[0], req) == Selects(rs[0], other);
      assert forall i :: 0 <= i < |rs| - 1 ==> rs[1..][i] == rs[i + 1];
      AjaxIgnored(rs[1..], req, header);
    }
  }

  /** Spaces and slashes around the request path make no difference. */
  lemma PaddedPath(rs: seq<RuleRecord>, req: Request, pre: string, post: string)
    requires forall i :: 0 <= i < |pre| ==> pre[i] == ' ' || pre[i] == '/'
    requires forall i :: 0 <= i < |post| ==> post[i] == ' ' || post[i] == '/'
    ensures FirstMatch(rs, req.(path := pre + req.path + post)) == FirstMatch(rs, req)
  {
    var padded := req.(path := pre + req.path + post);
    TrimPadded(pre, req.path, post, {' ', '/'});
    assert RequestPath(padded) == RequestPath(req);
    SameRequest(rs, padded, req);
  }

  /** Two requests with the same method, headers and trimmed path get the same answer. */
  lemma {:induction false} SameRequest(rs: seq<RuleRecord>, a: Request, b: Request)
    requires a.httpMethod == b.httpMethod && a.host == b.host && a.requestedWith == b.requestedWith
    requires RequestPath(a) == RequestPath(b)
    ensures FirstMatch(rs, a) == FirstMatch(rs, b)
    decreases |rs|
  {
    if rs != [] {
      SameRequest(rs[1..], a, b);
    }
  }

  // ----- The table -----

  /** The records `setRules` puts in the table: those without a truthy property, in order. */
  function Routable(recs: seq<RuleRecord>): (r: seq<RuleRecord>)
    ensures |r| <= |recs|
    ensures forall i :: 0 <= i < |r| ==> r[i] in recs && r[i].property == map[]
    decreases |recs|
  {
    if recs == [] then []
    else
      var last := recs[|recs| - 1];
      Routable(recs[..|recs| - 1]) + (if last.property == map[] then [last] else [])
  }

  /** The property maps of the records, merged into props in order, later keys winning (`array_merge`). */
  function MergedProps(props: map<string, string>, recs: seq<RuleRecord>): map<string, string>
    decreases |recs|
  {
    if recs == [] then props
    else
      var before := MergedProps(props, recs[..|recs| - 1]);
      var last := recs[|recs| - 1];
      if last.property != map[] then before + last.property else before
  }

  /** Every processed record of the trees, tree by tree. */
  function AllProcessed(ts: seq<RuleTree>): seq<RuleRecord>
    decreases |ts|
  {
    if ts == [] then [] else AllProcessed(ts[..|ts| - 1]) + Processed(ts[|ts| - 1])
  }

  /** A record is in the table exactly when it is among the records and has no property. */
  lemma {:induction false} RoutableMembers(recs: seq<RuleRecord>, rec: RuleRecord)
    ensures rec in Routable(recs) <==> rec in recs && rec.property == map[]
    decreases |recs|
  {
    if recs != [] {
      var init := recs[..|recs| - 1];
      RoutableMembers(init, rec);
      assert recs == init + [recs[|recs| - 1]];
    }
  }

  /** The table of a concatenation is the concatenation of the tables. */
  lemma {:induction false} RoutableAppend(a: seq<RuleRecord>, b: seq<RuleRecord>)
    ensures Routable(a + b) == Routable(a) + Routable(b)
    decreases |b|
  {
    if b == [] {
      assert a + b == a;
    } else {
      var init := b[..|b| - 1];
      assert (a + b)[..|a + b| - 1] == a + init;
      RoutableAppend(a, init);
    }
  }

  /** Merging the properties of a concatenation is merging those of each part in turn. */
  lemma {:induction false} MergedAppend(props: map<string, string>, a: seq<RuleRecord>, b: seq<RuleRecord>)
    ensures MergedProps(props, a + b) == MergedProps(MergedProps(props, a), b)
    decreases |b|
  {
    if b == [] {
      assert a + b == a;
    } else {
      var init := b[..|b| - 1];
      assert (a + b)[..|a + b| - 1] == a + init;
      MergedAppend(props, a, init);
    }
  }

  /** The merged keys are those of props and of every record's property. */
  lemma {:induction false} MergedKeys(props: map<string, string>, recs: seq<RuleRecord>, k: string)
    ensures k in MergedProps(props, recs) <==> k in props || exists i :: 0 <= i < |recs| && k in recs[i].property
    decreases |recs|
  {
    if recs != [] {
      var init := recs[..|recs| - 1];
      MergedKeys(props, init, k);
      assert forall i :: 0 <= i < |init| ==> init[i] == recs[i];
    }
  }

  /** A key takes its value from the last record whose property holds it. */
  lemma {:induction false} MergedLaterWins(props: map<string, string>, recs: seq<RuleRecord>, i: nat, k: string)
    requires i < |recs| && k in recs[i].property
    requires forall j :: i < j < |recs| ==> k !in recs[j].property
    ensures k in MergedProps(props, recs) && MergedProps(props, recs)[k] == recs[i].property[k]
    decreases |recs|
  {
    var init := recs[..|recs| - 1];
    if i < |recs| - 1 {
      assert init[i] == recs[i];
      assert forall j :: i < j < |init| ==> init[j] == recs[j];
      MergedLaterWins(props, init, i, k);
    }
  }

  /** A key no record's property holds keeps its value from props. */
  lemma {:induction false} MergedUntouched(props: map<string, string>, recs: seq<RuleRecord>, k: string)
    requires k in props
    requires forall j :: 0 <= j < |recs| ==> k !in recs[j].property
    ensures k in MergedProps(props, recs) && MergedProps(props, recs)[k] == props[k]
    decreases |recs|
  {
    if recs != [] {
      var init := recs[..|recs| - 1];
      assert forall j :: 0 <= j < |init| ==> init[j] == recs[j];
      MergedUntouched(props, init, k);
    }
  }

  /** The processed records of one more tree. */
  lemma ProcessedStep(trees: seq<RuleTree>, i: nat, props: map<string, string>)
    requires i < |trees|
    ensures Routable(AllProcessed(trees[..i + 1])) == Routable(AllProcessed(trees[..i])) + Routable(Processed(trees[i]))
    ensures MergedProps(props, AllProcessed(trees[..i + 1])) == MergedProps(MergedProps(props, AllProcessed(trees[..i])), Processed(trees[i]))
  {
    assert trees[..i + 1][..i] == trees[..i];
    assert AllProcessed(trees[..i + 1]) == AllProcessed(trees[..i]) + Processed(trees[i]);
    RoutableAppend(AllProcessed(trees[..i]), Processed(trees[i]));
    MergedAppend(props, AllProcessed(trees[..i]), Processed(trees[i]));
  }

  /** The table and the properties after one more record. */
  lemma RecordStep(data: seq<RuleRecord>, i: nat, rules0: seq<RuleRecord>, props0: map<string, string>)
    requires i < |data|
    ensures data[i].property == map[] ==> rules0 + Routable(data[..i + 1]) == (rules0 + Routable(data[..i])) + [data[i]]
    ensures data[i].property != map[] ==> Routable(data[..i + 1]) == Routable(data[..i])
    ensures data[i].property != map[] ==> MergedProps(props0, data[..i + 1]) == MergedProps(props0, data[..i]) + data[i].property
    ensures data[i].property == map[] ==> MergedProps(props0, data[..i + 1]) == MergedProps(props0, data[..i])
  {
    assert data[..i + 1][..i] == data[..i];
    ConcatAssoc(rules0, Routable(data[..i]), [data[i]]);
  }

  /** Concatenation regroups. */
  lemma ConcatAssoc<T>(a: seq<T>, b: seq<T>, c: seq<T>)
    ensures (a + b) + c == a + (b + c)
  {
  }

  /** Rule r is consistent, owns exactly repr and stands for tree. */
  ghost predicate Holds(r: Rule, repr: set<object>, tree: RuleTree)
    reads r, repr
  {
    r.Repr == repr && r.Valid() && r.Tree == tree
  }

  /** The raw rule manager: the rule table and the merged properties. */
  class Manager {
    var rules: seq<RuleRecord>
    var properties: map<string, string>

    /** No record in the table has a property. */
    ghost predicate Valid()
      reads this
    {
      forall i :: 0 <= i < |rules| ==> rules[i].property == map[]
    }

    constructor()
      ensures Valid() && rules == [] && properties == map[]
    {
      rules := [];
      properties := map[];
    }

    /**
     * `setRules(array)`: the processed records of every raw rule, in order, go
     * to the end of the table, except those with a truthy property, whose
     * maps are merged into the properties instead.
     */
    method SetRules(raw: seq<Rule>)
      requires Valid()
      requires forall i :: 0 <= i < |raw| ==> raw[i].Valid()
      requires Separate(raw, {this})
      modifies this, Union(ReprsOf(raw))
      ensures Valid()
      ensures rules == old(rules) + Routable(AllProcessed(old(TreesOf(raw))))
      ensures properties == MergedProps(old(properties), AllProcessed(old(TreesOf(raw))))
      ensures forall i :: 0 <= i < |raw| ==>
        raw[i].Valid() && raw[i].Repr == old(raw[i].Repr) && raw[i].Tree == WithRegexps(old(raw[i].Tree))
    {
      ghost var trees := TreesOf(raw);
      ghost var reprs := ReprsOf(raw);
      for i := 0 to |raw|
        invariant Valid()
        invariant rules == old(rules) + Routable(AllProcessed(trees[..i]))
        invariant properties == MergedProps(old(properties), AllProcessed(trees[..i]))
        invariant forall j :: 0 <= j < |raw| ==>
          Holds(raw[j], reprs[j], if j < i then WithRegexps(trees[j]) else trees[j]) && this !in reprs[j]
        invariant forall a, b :: 0 <= a < b < |raw| ==> reprs[a] !! reprs[b]
      {
        SetRulesStep(raw, i, reprs, trees, old(rules), old(properties));
      }
      assert trees[..|raw|] == trees;
    }

    /** One turn of the outer loop of `setRules`: raw rule i is processed and its records are added. */
    method SetRulesStep(raw: seq<Rule>, i: nat, ghost reprs: seq<set<object>>, ghost trees: seq<RuleTree>,
                        ghost rules0: seq<RuleRecord>, ghost props0: map<string, string>)
      requires i < |raw| == |reprs| == |trees|
      requires Valid()
      requires rules == rules0 + Routable(AllProcessed(trees[..i]))
      requires properties == MergedProps(props0, AllProcessed(trees[..i]))
      requires forall j :: 0 <= j < |raw| ==>
          Holds(raw[j], reprs[j], if j < i then WithRegexps(trees[j]) else trees[j]) && this !in reprs[j]
      requires forall a, b :: 0 <= a < b < |raw| ==> reprs[a] !! reprs[b]
      modifies this, reprs[i]
      ensures Valid()
      ensures rules == rules0 + Routable(AllProcessed(trees[..i + 1]))
      ensures properties == MergedProps(props0, AllProcessed(trees[..i + 1]))
      ensures forall j :: 0 <= j < |raw| ==>
          Holds(raw[j], reprs[j], if j < i + 1 then WithRegexps(trees[j]) else trees[j]) && this !in reprs[j]
    {
      ProcessedStep(trees, i, props0);
      var data := raw[i].GetProcessedData();
      forall j | 0 <= j < |raw| && j != i
        ensures Holds(raw[j], reprs[j], old(raw[j].Tree))
      {
        assert raw[j] in reprs[j] && reprs[i] !! reprs[j];
      }
      AddRecords(data);
      ConcatAssoc(rules0, Routable(AllProcessed(trees[..i])), Routable(data));
    }

    /** The inner loop of `setRules` over the processed records of one raw rule. */
    method AddRecords(data: seq<RuleRecord>)
      requires Valid()
      modifies this
      ensures Valid()
      ensures rules == old(rules) + Routable(data)
      ensures properties == MergedProps(old(properties), data)
    {
      for i := 0 to |data|
        invariant Valid()
        invariant rules == old(rules) + Routable(data[..i])
        invariant properties == MergedProps(old(properties), data[..i])
      {
        var rec := data[i];
        RecordStep(data, i, old(rules), old(properties));
        if rec.property != map[] {
          properties := properties + rec.property;
          continue;
        }
        rules := rules + [rec];
      }
      assert data[..|data|] == data;
    }

    /** `getRules()`: the table. */
    method GetRules() returns (r: seq<RuleRecord>)
      ensures r == rules
    {
      r := rules;
    }

    /**
     * `replaceVariables(source, args)`: the pairs `{key}` => value are built
     * one key at a time, and then strtr rewrites a string target, or each
     * element of an array target.
     */
    method ReplaceVariables(source: Target, args: map<string, string>) returns (result: Target)
      ensures result == Resolved(source, args)
    {
      var vars: map<string, string> := map[];
      var todo := args.Keys;
      while todo != {}
        invariant todo <= args.Keys
        invariant vars == VarsOf(args, args.Keys - todo)
        decreases todo
      {
        var k :| k in todo;
        VarsDone(args, todo, k);
        vars := vars[Braced(k) := args[k]];
        todo := todo - {k};
      }
      assert args.Keys - todo == args.Keys;
      match source
      case Items(items) =>
        result := Items(StrtrEach(items, vars));
      case Text(text) =>
        result := Text(Strtr(text, vars));
      case _ =>
        result := source;
    }

    /**
     * `match(request)`: the rules are tried in table order; the first that
     * passes the method, host and ajax filters and whose regexp matches the
     * trimmed path gives the route, and no later rule is looked at.
     */
    method Match(req: Request) returns (route: Option<MatchedRoute>)
      ensures route == FirstMatch(rules, req)
      ensures route.Some? && Valid() ==> route.value.rule.Some? && route.value.rule.value.property == map[]
    {
      var path := Trim(req.path, {' ', '/'});
      var i := 0;
      while i < |rules|
        invariant i <= |rules|
        invariant FirstMatch(rules[i..], req) == FirstMatch(rules, req)
      {
        var rec := rules[i];
        assert rules[i..][1..] == rules[i + 1..];
        if rec.methods != [] && req.httpMethod !in rec.methods {
          i := i + 1;
          continue;
        }
        if rec.hostname.Some? && IsTruthy(rec.hostname.value) && rec.hostname.value != req.host {
          i := i + 1;
          continue;
        }
        if rec.ajax == Some(true) && !IsTruthy(req.requestedWith) {
          i := i + 1;
          continue;
        }
        var captures := PregMatch(rec.regexp, path);
        if captures.Some? {
          var args := ArrayUnion(captures.value, rec.args);
          var target;
          if rec.target.Invocable? {
            target := rec.target;
          } else {
            target := ReplaceVariables(rec.target, args);
          }
          return Some(MatchedRoute(rec.name, Some(rec), args, rec.targetType, target));
        }
        i := i + 1;
      }
      return None;
    }
  }

  // ----- A worked table -----

  /**
   * `(new Rule)->method('GET')->setPath($dir . '/' . '{' . $variable . '}')->view($view)`,
   * processed: a GET rule whose path ends in one placeholder and whose
   * target is a view.
   */
  function ViewRule(dir: string, variable: string, view: string): (rec: RuleRecord)
    ensures rec.methods == ["GET"] && rec.target == Text(view) && rec.targetType == ViewType
    ensures rec.path == dir + "/" + Braced(variable)
  {
    Compiled(DefaultRecord.(methods := ["GET"], path := dir + "/" + Braced(variable), targetType := ViewType, target := Text(view)))
  }

  /** A directory name usable as literal regexp text and as the start of a trimmed path. */
  predicate IsDir(dir: string) {
    dir != [] && IsTrimmed(dir, {' ', '/'}) && IsPlain(dir) && '\n' !in dir
  }

  /** The one-segment rule captures a single segment after `dir/`, and nothing with a `/` in it. */
  lemma SlugCaptures(dir: string, s: string)
    requires IsPlain(dir) && '\n' !in s
    ensures var n := |dir| + 1;
      PregMatch(ViewRule(dir, "slug", "post").regexp, s)
        == if n < |s| && s[..n] == dir + "/" && '/' !in s[n..] then Some(map["slug" := s[n..]]) else None
  {
    var p := dir + "/";
    assert IsPlain(p) by {
      assert forall i :: 0 <= i < |dir| ==> p[i] == dir[i];
    }
    assert dir + "/" + Braced("slug") == p + Braced("slug") + "";
    CompiledSegment(dir + "/" + Braced("slug"), p, "slug", "", s);
    if |p| <= |s| {
      assert s[|s| - 0..] == "" && s[|p|..|s| - 0] == s[|p|..];
    }
  }

  /** The catch-all rule captures everything after `dir/`, slashes included. */
  lemma RestCaptures(dir: string, s: string)
    requires IsPlain(dir) && '\n' !in s
    ensures var n := |dir| + 1;
      PregMatch(ViewRule(dir, "*rest", "catchall").regexp, s)
        == if n < |s| && s[..n] == dir + "/" then Some(map["rest" := s[n..]]) else None
  {
    var p := dir + "/";
    assert IsPlain(p) by {
      assert forall i :: 0 <= i < |dir| ==> p[i] == dir[i];
    }
    assert dir + "/" + Braced("*rest") == p + Braced("*" + "rest") + "";
    CompiledCatchAll(dir + "/" + Braced("*rest"), p, "rest", "", s);
    if |p| <= |s| {
      assert s[|s| - 0..] == "" && s[|p|..|s| - 0] == s[|p|..];
    }
  }

  /** The request path `/dir/v`, for v trimmed of spaces and slashes, is matched as `dir/v`. */
  lemma DirPath(req: Request, dir: string, v: string)
    requires IsDir(dir) && v != [] && IsTrimmed(v, {' ', '/'})
    requires req.path == "/" + dir + "/" + v
    ensures RequestPath(req) == dir + "/" + v
  {
    var cs := {' ', '/'};
    var t := dir + "/" + v;
    assert req.path == "/" + t + "";
    TrimPadded("/", t, "", cs);
    assert t[0] == dir[0] && t[|t| - 1] == v[|v| - 1];
    TrimOfTrimmed(t, cs);
  }

  /** After `dir/`, the rest of the path. */
  lemma AfterDir(dir: string, v: string)
    requires '\n' !in dir && '\n' !in v
    ensures var s, n := dir + "/" + v, |dir| + 1;
      '\n' !in s && n <= |s| && s[..n] == dir + "/" && s[n..] == v
  {
  }

  /**
   * With the one-segment rule listed before the catch-all rule, a GET for
   * `/dir/` and one segment (`/blog/hello-world`, say) goes to the first,
   * which captures that segment as slug.
   */
  lemma OneSegmentRequest(dir: string, host: string, v: string)
    requires IsDir(dir)
    requires v != [] && IsTrimmed(v, {' ', '/'}) && '/' !in v && '\n' !in v
    ensures FirstMatch([ViewRule(dir, "slug", "post"), ViewRule(dir, "*rest", "catchall")], Request("GET", host, "", "/" + dir + "/" + v))
         == Some(RouteFor(ViewRule(dir, "slug", "post"), map["slug" := v]))
  {
    var req := Request("GET", host, "", "/" + dir + "/" + v);
    var path := dir + "/" + v;
    DirPath(req, dir, v);
    AfterDir(dir, v);
    SlugCaptures(dir, path);
    assert Selects(ViewRule(dir, "slug", "post"), req) && Captures(ViewRule(dir, "slug", "post"), req) == Some(map["slug" := v]);
    FirstMatchOf([ViewRule(dir, "slug", "post"), ViewRule(dir, "*rest", "catchall")], req, 0);
  }

  /** A path of several segments after `dir/` fails the one-segment rule's regexp and is all captured by the catch-all's. */
  lemma SegmentsCaptured(dir: string, v: string)
    requires IsDir(dir) && '/' in v && '\n' !in v
    ensures PregMatch(ViewRule(dir, "slug", "post").regexp, dir + "/" + v) == None
    ensures PregMatch(ViewRule(dir, "*rest", "catchall").regexp, dir + "/" + v) == Some(map["rest" := v])
  {
    AfterDir(dir, v);
    SlugCaptures(dir, dir + "/" + v);
    RestCaptures(dir, dir + "/" + v);
  }

  /**
   * A GET for `/dir/` and several segments (`/blog/a/b/c`, say), which the
   * one-segment rule rejects, goes to the catch-all rule, which captures them
   * all as rest.
   */
  lemma SeveralSegmentsRequest(dir: string, host: string, v: string)
    requires IsDir(dir)
    requires v != [] && IsTrimmed(v, {' ', '/'}) && '/' in v && '\n' !in v
    ensures FirstMatch([ViewRule(dir, "slug", "post"), ViewRule(dir, "*rest", "catchall")], Request("GET", host, "", "/" + dir + "/" + v))
         == Some(RouteFor(ViewRule(dir, "*rest", "catchall"), map["rest" := v]))
  {
    var req := Request("GET", host, "", "/" + dir + "/" + v);
    DirPath(req, dir, v);
    SegmentsCaptured(dir, v);
    FallsThrough(req, dir, dir + "/" + v, map["rest" := v]);
  }

  /** A GET that the one-segment rule's regexp rejects and the catch-all's accepts goes to the catch-all. */
  lemma FallsThrough(req: Request, dir: string, path: string, caps: map<string, string>)
    requires req.httpMethod == "GET" && RequestPath(req) == path
    requires PregMatch(ViewRule(dir, "slug", "post").regexp, path) == None
    requires PregMatch(ViewRule(dir, "*rest", "catchall").regexp, path) == Some(caps)
    ensures FirstMatch([ViewRule(dir, "slug", "post"), ViewRule(dir, "*rest", "catchall")], req) == Some(RouteFor(ViewRule(dir, "*rest", "catchall"), caps))
  {
    assert !Selects(ViewRule(dir, "slug", "post"), req);
    assert Selects(ViewRule(dir, "*rest", "catchall"), req) && Captures(ViewRule(dir, "*rest", "catchall"), req) == Some(caps);
    FirstMatchOf([ViewRule(dir, "slug", "post"), ViewRule(dir, "*rest", "catchall")], req, 1);
  }
}
