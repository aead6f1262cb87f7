/**
 * The part of `preg_match` the router relies on: the regexps that
 * `Rule::buildRegexp` stores (`%^` body `$%u`) whose body is literal text and
 * the two named groups `(?<name>[^/]+?)` and `(?<name>.+?)`, matched with
 * PCRE's backtracking order (a lazy group first tries its shortest
 * extension), and the named captures such a match yields.
 */
module Pcre {
  import opened Maybe
  import opened RulePattern

  /** What one named group may consume: `[^/]` (anything but `/`) or `.` (anything but a newline). */
  datatype Kind = Segment | CatchAll

  /** One element of a parsed regexp body. */
  datatype Token = Lit(c: char) | Group(name: string, kind: Kind)

  /** Whether a group of this kind may consume c. */
  predicate Admits(kind: Kind, c: char) {
    match kind
    case Segment => c != '/'
    case CatchAll => c != '\n'
  }

  /**
   * Characters of a body that are not plain literal text here: regexp syntax
   * outside this subset, and `%`, which would end the pattern early.
   */
  predicate IsSpecial(c: char) {
    c in {'.', '*', '+', '?', '[', ']', '|', '\\', '^', '$', '(', ')', '{', '%'}
  }

  /** Text made only of plain literal characters. */
  predicate IsPlain(s: string) {
    forall i :: 0 <= i < |s| ==> !IsSpecial(s[i])
  }

  /** The tokens that match the characters of s one by one. */
  function Lits(s: string): (ts: seq<Token>)
    ensures |ts| == |s|
  {
    if s == [] then [] else [Lit(s[0])] + Lits(s[1..])
  }

  predicate StartsWith(s: string, w: string) {
    |w| <= |s| && s[..|w|] == w
  }

  /** The index of the first `>` of s at or after i. */
  function AngleFrom(s: string, i: nat): (k: Option<nat>)
    ensures k.Some? ==> i <= k.value < |s| && s[k.value] == '>'
    ensures k.Some? ==> forall j :: i <= j < k.value ==> s[j] != '>'
    ensures k.None? ==> forall j :: i <= j < |s| ==> s[j] != '>'
    decreases |s| - i
  {
    if i >= |s| then None else if s[i] == '>' then Some(i) else AngleFrom(s, i + 1)
  }

  /**
   * The group that starts s, when s starts with `(?<name>` followed by
   * `[^/]+?)` or `.+?)`, and the number of characters it spans.
   */
  function GroupAt(s: string): (g: Option<(Token, nat)>)
    ensures g.Some? ==> 0 < g.value.1 <= |s|
    ensures g.Some? ==> g.value.0.Group?
  {
    if !StartsWith(s, "(?<") then None
    else
      match AngleFrom(s, 3)
      case None => None
      case Some(k) =>
        var name := s[3..k];
        if !IsIdentifier(name) then None
        else if StartsWith(s[k..], ">[^/]+?)") then Some((Group(name, Segment), k + 8))
        else if StartsWith(s[k..], ">.+?)") then Some((Group(name, CatchAll), k + 5))
        else None
  }

  /** Puts ts in front of a parse result, keeping a failure a failure. */
  function Prepend(ts: seq<Token>, o: Option<seq<Token>>): (r: Option<seq<Token>>)
    ensures r.Some? <==> o.Some?
    ensures r.Some? ==> r.value == ts + o.value
  {
    match o
    case None => None
    case Some(rest) => Some(ts + rest)
  }

  /** The tokens of a body; None where it uses syntax outside the subset. */
  function ParseBody(b: string): Option<seq<Token>>
    decreases |b|
  {
    if b == [] then Some([])
    else if b[0] == '(' then
      match GroupAt(b)
      case None => None
      case Some((t, n)) => Prepend([t], ParseBody(b[n..]))
    else if IsSpecial(b[0]) then None
    else Prepend([Lit(b[0])], ParseBody(b[1..]))
  }

  /** The names of the groups among ts. */
  function GroupNames(ts: seq<Token>): seq<string> {
    if ts == [] then []
    else if ts[0].Group? then [ts[0].name] + GroupNames(ts[1..])
    else GroupNames(ts[1..])
  }

  /** No two groups share a name (PCRE refuses to compile a pattern where two do). */
  predicate DistinctNames(ts: seq<Token>) {
    var ns := GroupNames(ts);
    forall i, j :: 0 <= i < j < |ns| ==> ns[i] != ns[j]
  }

  /**
   * The first match of ts against all of s in backtracking order, with the
   * text each group captured. The final `$` also accepts a single newline
   * left at the end of s.
   */
  function MatchTokens(ts: seq<Token>, s: string): Option<map<string, string>>
    decreases |ts|, 1, 0
  {
    if ts == [] then
      if s == [] || s == "\n" then Some(map[]) else None
    else
      match ts[0]
      case Lit(c) => if s != [] && s[0] == c then MatchTokens(ts[1..], s[1..]) else None
      case Group(name, kind) => LazyGroup(name, kind, ts[1..], s, 1)
  }

  /**
   * A lazy group that has so far consumed s[..n - 1]: it consumes one more
   * character, tries the rest of the pattern, and only when that fails
   * consumes one character more.
   */
  function LazyGroup(name: string, kind: Kind, rest: seq<Token>, s: string, n: nat): Option<map<string, string>>
    requires n >= 1
    decreases |rest| + 1, 0, |s| - n + 1
  {
    if n > |s| || !Admits(kind, s[n - 1]) then None
    else
      match MatchTokens(rest, s[n..])
      case Some(m) => Some(m[name := s[..n]])
      case None => LazyGroup(name, kind, rest, s, n + 1)
  }

  /**
   * `preg_match($regexp, $subject)` for a regexp of the shape buildRegexp
   * writes, and then only its string-keyed (named) captures; None when it
   * does not match, when it is not of that shape, or when it does not compile.
   */
  function PregMatch(regexp: string, subject: string): Option<map<string, string>> {
    if |regexp| < 5 || regexp[..2] != "%^" || regexp[|regexp| - 3..] != "$%u" then None
    else
      match ParseBody(regexp[2..|regexp| - 3])
      case None => None
      case Some(ts) => if DistinctNames(ts) then MatchTokens(ts, subject) else None
  }

  // ----- Parsing what buildRegexp emits -----

  /** Plain text parses into one literal per character. */
  lemma {:induction false} ParsePlain(x: string, r: string)
    requires IsPlain(x)
    ensures ParseBody(x + r) == Prepend(Lits(x), ParseBody(r))
    decreases |x|
  {
    if x == [] {
      assert x + r == r;
      PrependAssoc([], [], ParseBody(r));
    } else {
      var b := x + r;
      assert b[0] == x[0] && b[1..] == x[1..] + r;
      assert !IsSpecial(x[0]);
      ParsePlain(x[1..], r);
      assert Lits(x) == [Lit(x[0])] + Lits(x[1..]);
      PrependAssoc([Lit(x[0])], Lits(x[1..]), ParseBody(r));
    }
  }

  /** Prepending twice is prepending the concatenation. */
  lemma PrependAssoc(ts: seq<Token>, us: seq<Token>, o: Option<seq<Token>>)
    ensures Prepend(ts, Prepend(us, o)) == Prepend(ts + us, o)
    ensures Prepend([], o) == o
  {
    match o
    case None =>
    case Some(rest) =>
      assert ts + (us + rest) == ts + us + rest;
      assert [] + rest == rest;
  }

  /** The text of a segment group, followed by anything, starts with that group. */
  lemma GroupOfSegment(v: string, r: string)
    requires IsIdentifier(v)
    ensures GroupAt(SegmentGroup(v) + r) == Some((Group(v, Segment), |v| + 11))
  {
    var g := SegmentGroup(v);
    var tail := ">[^/]+?)";
    var b := g + r;
    Pieces("(?<", v, tail);
    assert b[..|g|] == g;
    assert b[..3] == g[..3];
    assert b[3..3 + |v|] == g[3..3 + |v|] == v;
    assert b[3 + |v|] == tail[0];
    forall j | 3 <= j < 3 + |v|
      ensures b[j] != '>'
    {
      assert b[j] == v[j - 3];
      assert IsIdentPart(v[j - 3]) || j == 3;
    }
    assert AngleFrom(b, 3) == Some(3 + |v|) by {
      AngleFirst(b, 3, 3 + |v|);
    }
    assert b[3 + |v|..][..8] == tail;
  }

  /** The text of a catch-all group, followed by anything, starts with that group. */
  lemma GroupOfCatchAll(v: string, r: string)
    requires IsIdentifier(v)
    ensures GroupAt(CatchAllGroup(v) + r) == Some((Group(v, CatchAll), |v| + 8))
  {
    var g := CatchAllGroup(v);
    var tail := ">.+?)";
    var b := g + r;
    Pieces("(?<", v, tail);
    assert b[..|g|] == g;
    assert b[..3] == g[..3];
    assert b[3..3 + |v|] == g[3..3 + |v|] == v;
    assert b[3 + |v|] == tail[0];
    forall j | 3 <= j < 3 + |v|
      ensures b[j] != '>'
    {
      assert b[j] == v[j - 3];
      assert IsIdentPart(v[j - 3]) || j == 3;
    }
    assert AngleFrom(b, 3) == Some(3 + |v|) by {
      AngleFirst(b, 3, 3 + |v|);
    }
    assert !StartsWith(b[3 + |v|..], ">[^/]+?)") by {
      assert b[3 + |v|..][1] == tail[1] == '.';
    }
    assert b[3 + |v|..][..5] == tail;
  }

  /** The first `>` at or after i is found at k when none lies between. */
  lemma {:induction false} AngleFirst(s: string, i: nat, k: nat)
    requires i <= k < |s| && s[k] == '>'
    requires forall j :: i <= j < k ==> s[j] != '>'
    ensures AngleFrom(s, i) == Some(k)
    decreases k - i
  {
    if i < k {
      AngleFirst(s, i + 1, k);
    }
  }

  /** A segment group parses into its group token. */
  lemma ParseSegment(v: string, r: string)
    requires IsIdentifier(v)
    ensures ParseBody(SegmentGroup(v) + r) == Prepend([Group(v, Segment)], ParseBody(r))
  {
    GroupOfSegment(v, r);
    var b := SegmentGroup(v) + r;
    assert b[0] == '(';
    assert b[|v| + 11..] == r;
  }

  /** A catch-all group parses into its group token. */
  lemma ParseCatchAll(v: string, r: string)
    requires IsIdentifier(v)
    ensures ParseBody(CatchAllGroup(v) + r) == Prepend([Group(v, CatchAll)], ParseBody(r))
  {
    GroupOfCatchAll(v, r);
    var b := CatchAllGroup(v) + r;
    assert b[0] == '(';
    assert b[|v| + 8..] == r;
  }

  /** The body buildRegexp writes for one `{name}`: the literals of p, the segment group, the literals of q. */
  lemma ParseWithSegment(p: string, v: string, q: string)
    requires IsPlain(p) && IsPlain(q) && IsIdentifier(v)
    ensures ParseBody(p + SegmentGroup(v) + q) == Some(Lits(p) + [Group(v, Segment)] + Lits(q))
  {
    var g := SegmentGroup(v);
    PlainThenEnd(q);
    ParseSegment(v, q);
    ParsePlain(p, g + q);
    assert p + g + q == p + (g + q);
    PrependAssoc(Lits(p), [Group(v, Segment)], Some(Lits(q)));
  }

  /** The body buildRegexp writes for one `{*name}`: the literals of p, the catch-all group, the literals of q. */
  lemma ParseWithCatchAll(p: string, v: string, q: string)
    requires IsPlain(p) && IsPlain(q) && IsIdentifier(v)
    ensures ParseBody(p + CatchAllGroup(v) + q) == Some(Lits(p) + [Group(v, CatchAll)] + Lits(q))
  {
    var g := CatchAllGroup(v);
    PlainThenEnd(q);
    ParseCatchAll(v, q);
    ParsePlain(p, g + q);
    assert p + g + q == p + (g + q);
    PrependAssoc(Lits(p), [Group(v, CatchAll)], Some(Lits(q)));
  }

  /** Plain text on its own parses into its literals. */
  lemma PlainThenEnd(q: string)
    requires IsPlain(q)
    ensures ParseBody(q) == Some(Lits(q))
  {
    ParsePlain(q, "");
    assert q + "" == q;
    assert Lits(q) + [] == Lits(q);
  }

  /** The regexp `%^` body `$%u` is read back into its body. */
  lemma PregOfCompiled(body: string, subject: string)
    ensures PregMatch("%^" + body + "$%u", subject)
         == match ParseBody(body)
            case None => None
            case Some(ts) => if DistinctNames(ts) then MatchTokens(ts, subject) else None
  {
    var re := "%^" + body + "$%u";
    Pieces("%^", body, "$%u");
    assert re[2..|re| - 3] == body;
  }

  // ----- Matching -----

  /** The matcher gives equal token runs the same answer on the same subject. */
  lemma MatchOnSame(ts: seq<Token>, us: seq<Token>, s: string)
    requires ts == us
    ensures MatchTokens(ts, s) == MatchTokens(us, s)
  {
  }

  /** Literal tokens consume exactly their own characters. */
  lemma {:induction false} MatchLits(p: string, ts: seq<Token>, s: string)
    ensures MatchTokens(Lits(p) + ts, s)
         == if |p| <= |s| && s[..|p|] == p then MatchTokens(ts, s[|p|..]) else None
    decreases |p|
  {
    if p == [] {
      MatchOnSame(Lits(p) + ts, ts, s);
    } else {
      var all := Lits(p) + ts;
      assert all[0] == Lit(p[0]);
      if s != [] && s[0] == p[0] {
        assert MatchTokens(all, s) == MatchTokens(Lits(p[1..]) + ts, s[1..]) by {
          assert all[1..] == Lits(p[1..]) + ts;
          MatchOnSame(all[1..], Lits(p[1..]) + ts, s[1..]);
        }
        MatchLits(p[1..], ts, s[1..]);
        if |p| <= |s| {
          PrefixStep(p, s);
        }
      } else if |p| <= |s| {
        assert s[..|p|][0] != p[0] || s == [];
      }
    }
  }

  /** Past a common first character, p prefixes s exactly when the rest of p prefixes the rest of s. */
  lemma PrefixStep(p: string, s: string)
    requires p != [] && |p| <= |s| && s[0] == p[0]
    ensures |p| - 1 <= |s[1..]| && s[1..][|p| - 1..] == s[|p|..]
    ensures (s[..|p|] == p) == (s[1..][..|p| - 1] == p[1..])
  {
    assert s[..|p|] == [s[0]] + s[1..][..|p| - 1];
    assert p == [p[0]] + p[1..];
  }

  /** With no newline in s, a pattern of literals only matches s exactly when they spell s. */
  lemma MatchLitsOnly(q: string, s: string)
    requires '\n' !in s
    ensures MatchTokens(Lits(q), s) == if s == q then Some(map[]) else None
  {
    assert Lits(q) + [] == Lits(q);
    MatchLits(q, [], s);
    if |q| <= |s| && s[..|q|] == q {
      assert s[|q|..] != "\n" by {
        if |s| > |q| {
          assert s[|q|..][0] == s[|q|];
        }
      }
      if s[|q|..] == [] {
        assert s == s[..|q|];
      }
    }
  }

  /**
   * A lazy group followed by literal text q, having consumed s[..n - 1], ends
   * where q begins: it captures s[..|s| - |q|] when that is long enough, every
   * character it still has to take is admitted, and the text after it is q.
   */
  lemma {:induction false} LazyGroupBeforeLits(name: string, kind: Kind, q: string, s: string, n: nat)
    requires n >= 1 && '\n' !in s
    ensures LazyGroup(name, kind, Lits(q), s, n)
         == if n <= |s| - |q| && s[|s| - |q|..] == q && forall k :: n - 1 <= k < |s| - |q| ==> Admits(kind, s[k])
            then Some(map[name := s[..|s| - |q|]]) else None
    decreases |s| - n + 1
  {
    if n <= |s| && Admits(kind, s[n - 1]) {
      assert '\n' !in s[n..] by {
        forall k | 0 <= k < |s| - n ensures s[n..][k] != '\n' {
          assert s[n..][k] == s[n + k];
        }
      }
      MatchLitsOnly(q, s[n..]);
      if s[n..] != q {
        LazyGroupBeforeLits(name, kind, q, s, n + 1);
        if n == |s| - |q| {
          assert s[|s| - |q|..] == s[n..];
        }
      } else {
        assert |s| - |q| == n;
        assert map[][name := s[..n]] == map[name := s[..n]];
      }
    }
  }

  /** A group followed by literal text q matches s when s ends with q after at least one admitted character. */
  lemma GroupThenLits(name: string, kind: Kind, q: string, s: string)
    requires '\n' !in s
    ensures MatchTokens([Group(name, kind)] + Lits(q), s)
         == if 1 <= |s| - |q| && s[|s| - |q|..] == q && forall k :: 0 <= k < |s| - |q| ==> Admits(kind, s[k])
            then Some(map[name := s[..|s| - |q|]]) else None
  {
    var ts := [Group(name, kind)] + Lits(q);
    assert ts[0] == Group(name, kind) && ts[1..] == Lits(q);
    LazyGroupBeforeLits(name, kind, q, s, 1);
  }

  /** A match consumes every literal of the pattern, so a literal absent from s (other than a newline) rules it out. */
  lemma {:induction false} MissingLiteral(ts: seq<Token>, s: string, c: char)
    requires Lit(c) in ts && c !in s && c != '\n'
    ensures MatchTokens(ts, s) == None
    decreases |ts|, 1, 0
  {
    match ts[0]
    case Lit(d) =>
      if s != [] && s[0] == d {
        assert d != c;
        assert Lit(c) in ts[1..];
        assert c !in s[1..];
        MissingLiteral(ts[1..], s[1..], c);
      }
    case Group(name, kind) =>
      assert Lit(c) in ts[1..];
      MissingLiteralLazy(name, kind, ts[1..], s, c, 1);
  }

  /** The lazy-group half of MissingLiteral. */
  lemma {:induction false} MissingLiteralLazy(name: string, kind: Kind, rest: seq<Token>, s: string, c: char, n: nat)
    requires n >= 1 && Lit(c) in rest && c !in s && c != '\n'
    ensures LazyGroup(name, kind, rest, s, n) == None
    decreases |rest| + 1, 0, |s| - n + 1
  {
    if n <= |s| && Admits(kind, s[n - 1]) {
      assert c !in s[n..];
      MissingLiteral(rest, s[n..], c);
      MissingLiteralLazy(name, kind, rest, s, c, n + 1);
    }
  }

  // ----- The regexps of path templates -----

  /** Literal tokens name no group. */
  lemma {:induction false} NoGroupInLits(x: string)
    ensures GroupNames(Lits(x)) == []
    decreases |x|
  {
    if x != [] {
      NoGroupInLits(x[1..]);
    }
  }

  /** The group names of two token runs, one after the other. */
  lemma {:induction false} GroupNamesAppend(ts: seq<Token>, us: seq<Token>)
    ensures GroupNames(ts + us) == GroupNames(ts) + GroupNames(us)
    decreases |ts|
  {
    if ts == [] {
      assert ts + us == us;
    } else {
      assert (ts + us)[0] == ts[0] && (ts + us)[1..] == ts[1..] + us;
      GroupNamesAppend(ts[1..], us);
    }
  }

  /** The tokens of a one-group body name just that group. */
  lemma OneGroupDistinct(p: string, g: Token, q: string)
    requires g.Group?
    ensures GroupNames(Lits(p) + [g] + Lits(q)) == [g.name]
    ensures DistinctNames(Lits(p) + [g] + Lits(q))
  {
    NoGroupInLits(p);
    NoGroupInLits(q);
    GroupNamesAppend(Lits(p), [g]);
    GroupNamesAppend(Lits(p) + [g], Lits(q));
    assert GroupNames([g]) == [g.name] + GroupNames([g][1..]);
    assert [g][1..] == [];
  }

  /** No newline in s leaves none in a suffix of s. */
  lemma NoNewlineFrom(s: string, i: nat)
    requires '\n' !in s && i <= |s|
    ensures '\n' !in s[i..]
  {
    forall k | 0 <= k < |s| - i ensures s[i..][k] != '\n' {
      assert s[i..][k] == s[i + k];
    }
  }

  /**
   * Literals p, one group, literals q, against s: a match exactly when s is
   * p, then at least one character the group admits, then q; the group
   * captures the text in between.
   */
  lemma MatchOneGroup(p: string, v: string, kind: Kind, q: string, s: string)
    requires '\n' !in s
    ensures MatchTokens(Lits(p) + [Group(v, kind)] + Lits(q), s)
         == if |p| + |q| < |s| && s[..|p|] == p && s[|s| - |q|..] == q
              && forall k :: |p| <= k < |s| - |q| ==> Admits(kind, s[k])
            then Some(map[v := s[|p|..|s| - |q|]]) else None
  {
    var us := [Group(v, kind)] + Lits(q);
    assert MatchTokens(Lits(p) + [Group(v, kind)] + Lits(q), s) == MatchTokens(Lits(p) + us, s) by {
      TokensAssoc(Lits(p), [Group(v, kind)], Lits(q));
      MatchOnSame(Lits(p) + [Group(v, kind)] + Lits(q), Lits(p) + us, s);
    }
    MatchLits(p, us, s);
    if |p| <= |s| && s[..|p|] == p {
      var t := s[|p|..];
      NoNewlineFrom(s, |p|);
      GroupThenLits(v, kind, q, t);
      if |p| + |q| < |s| {
        GroupAfterPrefix(p, v, kind, q, t, s);
      }
    }
  }

  /** Concatenation of token runs is associative. */
  lemma TokensAssoc(x: seq<Token>, y: seq<Token>, z: seq<Token>)
    ensures x + y + z == x + (y + z)
  {
  }

  /** GroupThenLits on the part of s after p, counted back in s. */
  lemma GroupAfterPrefix(p: string, v: string, kind: Kind, q: string, t: string, s: string)
    requires |p| + |q| < |s| && t == s[|p|..]
    ensures |t| - |q| == |s| - |q| - |p|
    ensures (t[|t| - |q|..] == q) == (s[|s| - |q|..] == q)
    ensures map[v := t[..|t| - |q|]] == map[v := s[|p|..|s| - |q|]]
    ensures (forall k :: 0 <= k < |t| - |q| ==> Admits(kind, t[k]))
        <==> (forall k :: |p| <= k < |s| - |q| ==> Admits(kind, s[k]))
  {
    var l := |t| - |q|;
    assert t[l..] == s[|s| - |q|..];
    assert t[..l] == s[|p|..|s| - |q|];
    forall k | 0 <= k < l ensures t[k] == s[|p| + k] {}
    if forall k :: 0 <= k < l ==> Admits(kind, t[k]) {
      forall k | |p| <= k < |s| - |q| ensures Admits(kind, s[k]) {
        assert s[k] == t[k - |p|];
      }
    }
  }

  /** Plain text has no `{`. */
  lemma PlainHasNoBrace(s: string)
    requires IsPlain(s)
    ensures '{' !in s
  {
    forall i | 0 <= i < |s| ensures s[i] != '{' {
      assert !IsSpecial(s[i]);
    }
  }

  /** A template of plain text only matches exactly itself (for a subject without a newline). */
  lemma CompiledLiteral(template: string, s: string)
    requires IsPlain(template) && '\n' !in s
    ensures PregMatch(CompiledRegexp(template), s) == if s == template then Some(map[]) else None
  {
    PlainHasNoBrace(template);
    BodyWithoutPlaceholder(template);
    PregOfCompiled(template, s);
    PlainThenEnd(template);
    NoGroupInLits(template);
    MatchLitsOnly(template, s);
  }

  /**
   * The regexp of p + `{v}` + q matches s exactly when s is p, then a
   * non-empty run without `/`, then q, and it captures that run under v.
   */
  lemma CompiledSegment(template: string, p: string, v: string, q: string, s: string)
    requires template == p + Braced(v) + q
    requires IsPlain(p) && IsPlain(q) && IsIdentifier(v) && '\n' !in s
    ensures PregMatch(CompiledRegexp(template), s)
         == if |p| + |q| < |s| && s[..|p|] == p && s[|s| - |q|..] == q && '/' !in s[|p|..|s| - |q|]
            then Some(map[v := s[|p|..|s| - |q|]]) else None
  {
    PlainHasNoBrace(p);
    PlainHasNoBrace(q);
    BodyWithSegment(template, p, v, q);
    PregOfCompiled(p + SegmentGroup(v) + q, s);
    ParseWithSegment(p, v, q);
    OneGroupDistinct(p, Group(v, Segment), q);
    MatchOneGroup(p, v, Segment, q, s);
    if |p| + |q| < |s| {
      var mid := s[|p|..|s| - |q|];
      assert ('/' !in mid) == (forall k :: |p| <= k < |s| - |q| ==> Admits(Segment, s[k])) by {
        forall k | |p| <= k < |s| - |q| ensures s[k] == mid[k - |p|] {}
      }
    }
  }

  /**
   * The regexp of p + `{*v}` + q matches s exactly when s is p, then at
   * least one character, then q, and it captures what lies between.
   */
  lemma CompiledCatchAll(template: string, p: string, v: string, q: string, s: string)
    requires template == p + Braced("*" + v) + q
    requires IsPlain(p) && IsPlain(q) && IsIdentifier(v) && '\n' !in s
    ensures PregMatch(CompiledRegexp(template), s)
         == if |p| + |q| < |s| && s[..|p|] == p && s[|s| - |q|..] == q
            then Some(map[v := s[|p|..|s| - |q|]]) else None
  {
    PlainHasNoBrace(p);
    PlainHasNoBrace(q);
    BodyWithCatchAll(template, p, v, q);
    PregOfCompiled(p + CatchAllGroup(v) + q, s);
    ParseWithCatchAll(p, v, q);
    OneGroupDistinct(p, Group(v, CatchAll), q);
    MatchOneGroup(p, v, CatchAll, q, s);
  }

  /**
   * Because of the shifted splice, the regexp of a template with two `{name}`
   * placeholders needs a literal `}` in the subject, so no ordinary path
   * (one without `}`) ever matches it.
   */
  lemma CompiledTwoSegmentsNeedBrace(template: string, p: string, a: string, m: string, b: string, q: string, s: string)
    requires template == p + Braced(a) + m + Braced(b) + q
    requires IsPlain(p) && IsPlain(m) && IsPlain(q) && IsIdentifier(a) && IsIdentifier(b) && m != []
    requires '}' !in s
    ensures PregMatch(CompiledRegexp(template), s) == None
  {
    PlainHasNoBrace(p);
    PlainHasNoBrace(m);
    PlainHasNoBrace(q);
    SecondPlaceholderShifted(template, p, a, m, b, q);
    ShiftedBodyNeedsBrace(p, a, m, b, q, s);
  }

  /** The body buildRegexp leaves for two plain placeholders holds a literal `}`, which a subject without one never matches. */
  lemma ShiftedBodyNeedsBrace(p: string, a: string, m: string, b: string, q: string, s: string)
    requires IsPlain(p) && IsPlain(m) && IsPlain(q) && IsIdentifier(a) && IsIdentifier(b) && m != []
    requires '}' !in s
    ensures PregMatch("%^" + (p + SegmentGroup(a) + m[..|m| - 1] + SegmentGroup(b) + ("}" + q)) + "$%u", s) == None
  {
    var m1 := m[..|m| - 1];
    var tail := "}" + q;
    var ga, gb := SegmentGroup(a), SegmentGroup(b);
    var body := p + ga + m1 + gb + tail;
    PregOfCompiled(body, s);
    assert IsPlain(m1) by {
      forall i | 0 <= i < |m1| ensures !IsSpecial(m1[i]) {
        assert m1[i] == m[i];
      }
    }
    assert IsPlain(tail) by {
      forall i | 0 <= i < |tail| ensures !IsSpecial(tail[i]) {
        if i > 0 {
          assert tail[i] == q[i - 1];
        }
      }
    }
    var ts := BodyTokensOfTwo(p, a, m1, b, tail);
    Regroup(p, ga, m1, gb, tail);
    assert Lit('}') in ts by {
      var front := Lits(p) + [Group(a, Segment)] + (Lits(m1) + [Group(b, Segment)]);
      assert ts == front + Lits(tail);
      assert ts[|front|] == Lits(tail)[0] == Lit('}');
    }
    if DistinctNames(ts) {
      MissingLiteral(ts, s, '}');
    }
  }

  /** Five strings joined left to right are the same five joined right to left. */
  lemma Regroup(a: string, b: string, c: string, d: string, e: string)
    ensures a + b + c + d + e == a + (b + (c + (d + e)))
  {
  }

  /** The tokens of p, segment a, m, segment b, t, for plain p, m, t. */
  lemma BodyTokensOfTwo(p: string, a: string, m: string, b: string, t: string) returns (ts: seq<Token>)
    requires IsPlain(p) && IsPlain(m) && IsPlain(t) && IsIdentifier(a) && IsIdentifier(b)
    ensures ts == Lits(p) + [Group(a, Segment)] + (Lits(m) + [Group(b, Segment)] + Lits(t))
    ensures ParseBody(p + (SegmentGroup(a) + (m + (SegmentGroup(b) + t)))) == Some(ts)
  {
    var rest := Lits(m) + [Group(b, Segment)] + Lits(t);
    ParseWithSegment(m, b, t);
    assert m + SegmentGroup(b) + t == m + (SegmentGroup(b) + t);
    SegmentAfterPlain(p, a, m + (SegmentGroup(b) + t), rest);
    ts := Lits(p) + [Group(a, Segment)] + rest;
  }

  /** Plain p and a segment group in front of a body that parses. */
  lemma SegmentAfterPlain(p: string, a: string, r: string, rest: seq<Token>)
    requires IsPlain(p) && IsIdentifier(a)
    requires ParseBody(r) == Some(rest)
    ensures ParseBody(p + (SegmentGroup(a) + r)) == Some(Lits(p) + [Group(a, Segment)] + rest)
  {
    ParseSegment(a, r);
    ParsePlain(p, SegmentGroup(a) + r);
    PrependAssoc(Lits(p), [Group(a, Segment)], Some(rest));
  }

  /** The template `{a}/{b}` never matches `x/y`. */
  lemma TwoSegmentsExample()
    ensures PregMatch(CompiledRegexp("{a}/{b}"), "x/y") == None
  {
    assert "{a}/{b}" == "" + "{" + "a" + "}" + "/" + "{" + "b" + "}" + "";
    CompiledTwoSegmentsNeedBrace("{a}/{b}", "", "a", "/", "b", "", "x/y");
  }
}
