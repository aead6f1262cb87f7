/**
 * The path-template compiler of `Rule::buildRegexp`: the placeholder scan
 * that `preg_match_all` performs with `\{(\*?IDENT)\}` and the splice
 * arithmetic that rewrites each placeholder into a named sub-pattern,
 * including the extra `- 1` of the offset bookkeeping.
 */
module RulePattern {
  import opened Maybe

  /** A first character of the identifier class `[a-zA-Z_\x80-\xff]`. */
  predicate IsIdentStart(c: char) {
    ('a' <= c <= 'z') || ('A' <= c <= 'Z') || c == '_' || ('\U{80}' <= c <= '\U{FF}')
  }

  /** A later character of the identifier class `[a-zA-Z0-9_\x80-\xff]`. */
  predicate IsIdentPart(c: char) {
    IsIdentStart(c) || ('0' <= c <= '9')
  }

  /** A PHP identifier: at least one character, the first of them not a digit. */
  predicate IsIdentifier(s: string) {
    |s| >= 1 && IsIdentStart(s[0]) && forall i :: 1 <= i < |s| ==> IsIdentPart(s[i])
  }

  /** What capture group 1 of the placeholder pattern can hold: an identifier, optionally after a `*`. */
  predicate IsVariable(v: string) {
    IsIdentifier(v) || (|v| >= 2 && v[0] == '*' && IsIdentifier(v[1..]))
  }

  /** The index of the first `}` of s at or after i. */
  function CloseFrom(s: string, i: nat): (j: Option<nat>)
    ensures j.Some? ==> i <= j.value < |s| && s[j.value] == '}'
    ensures j.Some? ==> forall k :: i <= k < j.value ==> s[k] != '}'
    ensures j.None? ==> forall k :: i <= k < |s| ==> s[k] != '}'
    decreases |s| - i
  {
    if i >= |s| then None else if s[i] == '}' then Some(i) else CloseFrom(s, i + 1)
  }

  /**
   * Where the placeholder pattern matches at i, the index of its closing `}`.
   * The identifier characters exclude `}`, so a match at i must end at the
   * first `}` after it, and every character in between must fit the group.
   */
  function PlaceholderAt(s: string, i: nat): (j: Option<nat>)
    ensures j.Some? ==> i < j.value < |s| && s[i] == '{' && s[j.value] == '}' && IsVariable(s[i + 1..j.value])
  {
    if i < |s| && s[i] == '{' then
      match CloseFrom(s, i + 1)
      case Some(j) => if IsVariable(s[i + 1..j]) then Some(j) else None
      case None => None
    else None
  }

  /** One placeholder found by the scan: its offset and the text of group 1. */
  datatype Placeholder = Placeholder(offset: nat, variable: string)

  /** A variable between braces, as a placeholder is written in a path template. */
  function Braced(v: string): (w: string)
    ensures |w| == |v| + 2
  {
    "{" + v + "}"
  }

  /** The full text the placeholder pattern matched: `{`, group 1, `}`. */
  function MatchedText(p: Placeholder): string {
    Braced(p.variable)
  }

  /** Every placeholder in the list is one the pattern can match, lying inside s. */
  predicate AreFound(s: string, ps: seq<Placeholder>) {
    forall k :: 0 <= k < |ps| ==>
      && IsVariable(ps[k].variable)
      && ps[k].offset + |MatchedText(ps[k])| <= |s|
      && s[ps[k].offset..ps[k].offset + |MatchedText(ps[k])|] == MatchedText(ps[k])
  }

  /** Each placeholder ends at or before the offset of the next one: left to right, without overlap. */
  predicate InOrder(ps: seq<Placeholder>) {
    forall k :: 0 <= k < |ps| - 1 ==> ps[k].offset + |MatchedText(ps[k])| <= ps[k + 1].offset
  }

  /**
   * `preg_match_all` with the placeholder pattern from position i: the
   * non-overlapping matches, left to right, each scan resuming after the
   * previous match.
   */
  function PlaceholdersFrom(s: string, i: nat): (ps: seq<Placeholder>)
    ensures AreFound(s, ps)
    ensures forall k :: 0 <= k < |ps| ==> i <= ps[k].offset
    decreases |s| - i
  {
    if i >= |s| then []
    else
      match PlaceholderAt(s, i)
      case Some(j) =>
        var p := Placeholder(i, s[i + 1..j]);
        assert s[i..j + 1] == MatchedText(p);
        [p] + PlaceholdersFrom(s, j + 1)
      case None => PlaceholdersFrom(s, i + 1)
  }

  /** A placeholder ending before the first of an ordered list keeps the list ordered. */
  lemma InOrderCons(p: Placeholder, rest: seq<Placeholder>)
    requires InOrder(rest)
    requires rest != [] ==> p.offset + |MatchedText(p)| <= rest[0].offset
    ensures InOrder([p] + rest)
  {
    var ps := [p] + rest;
    forall k | 0 <= k < |ps| - 1
      ensures ps[k].offset + |MatchedText(ps[k])| <= ps[k + 1].offset
    {
      if k > 0 {
        assert ps[k] == rest[k - 1] && ps[k + 1] == rest[k];
      }
    }
  }

  /** The scan reports its matches left to right, each ending before the next begins. */
  lemma {:induction false} PlaceholdersInOrder(s: string, i: nat)
    ensures InOrder(PlaceholdersFrom(s, i))
    decreases |s| - i
  {
    if i < |s| {
      var r := PlaceholderAt(s, i);
      if r.Some? {
        var j := r.value;
        var p, rest := Placeholder(i, s[i + 1..j]), PlaceholdersFrom(s, j + 1);
        assert |MatchedText(p)| == j + 1 - i;
        assert rest != [] ==> j + 1 <= rest[0].offset;
        PlaceholdersInOrder(s, j + 1);
        InOrderCons(p, rest);
        assert PlaceholdersFrom(s, i) == [p] + rest;
      } else {
        PlaceholdersInOrder(s, i + 1);
      }
    }
  }

  /** All placeholders of a path template. */
  function Placeholders(s: string): seq<Placeholder> {
    PlaceholdersFrom(s, 0)
  }

  /** The named group a `{name}` placeholder becomes: one or more characters other than `/`, lazily. */
  function SegmentGroup(name: string): (g: string)
    ensures |g| == |name| + 11
  {
    "(?<" + name + ">[^/]+?)"
  }

  /** The named group a `{*name}` placeholder becomes: one or more characters of any kind, lazily. */
  function CatchAllGroup(name: string): (g: string)
    ensures |g| == |name| + 8
  {
    "(?<" + name + ">.+?)"
  }

  /** The named sub-pattern a placeholder becomes: `.+?` for a `*` variable, `[^/]+?` otherwise. */
  function SubPattern(variable: string): (sub: string)
    requires |variable| >= 1
    ensures |sub| == |variable| + (if variable[0] == '*' then 7 else 11)
  {
    if variable[0] == '*' then CatchAllGroup(variable[1..]) else SegmentGroup(variable)
  }

  /** mb_substr($s, 0, $n) for a non-negative n. */
  function MbPrefix(s: string, n: nat): string {
    if n <= |s| then s[..n] else s
  }

  /** mb_substr($s, $n) for a non-negative n. */
  function MbFrom(s: string, n: nat): string {
    if n <= |s| then s[n..] else ""
  }

  /** What `$offset` grows by after one placeholder, as written: the length change minus one. */
  function OffsetStep(p: Placeholder): nat
    requires |p.variable| >= 1
  {
    |SubPattern(p.variable)| - |MatchedText(p)| - 1
  }

  /** Splicing one placeholder's sub-pattern into path, at the placeholder's offset shifted by `offset`. */
  function SpliceOne(path: string, p: Placeholder, offset: nat): string
    requires |p.variable| >= 1
  {
    var start := p.offset + offset;
    MbPrefix(path, start) + SubPattern(p.variable) + MbFrom(path, start + |MatchedText(p)|)
  }

  /** The loop of buildRegexp over the remaining placeholders, with the current path and offset. */
  function SpliceAll(path: string, ps: seq<Placeholder>, offset: nat): string
    requires forall k :: 0 <= k < |ps| ==> |ps[k].variable| >= 1
    decreases |ps|
  {
    if ps == [] then path
    else SpliceAll(SpliceOne(path, ps[0], offset), ps[1..], offset + OffsetStep(ps[0]))
  }

  /** Every placeholder found has a non-empty variable. */
  lemma PlaceholderVariables(s: string)
    ensures forall i :: 0 <= i < |Placeholders(s)| ==> |Placeholders(s)[i].variable| >= 1
  {
    assert AreFound(s, Placeholders(s));
  }

  /** The text between the delimiters of the regexp that buildRegexp stores. */
  function RegexpBody(path: string): string {
    var ps := Placeholders(path);
    assert forall k :: 0 <= k < |ps| ==> |ps[k].variable| >= 1 by {
      assert AreFound(path, ps);
    }
    SpliceAll(path, ps, 0)
  }

  /** The regexp buildRegexp stores for a path: `%^body$%u`. */
  function CompiledRegexp(path: string): string {
    "%^" + RegexpBody(path) + "$%u"
  }

  // ----- What the scan finds -----

  /** A stretch without `{` holds no placeholder, so the scan skips it. */
  lemma {:induction false} ScanSkipsPlain(s: string, i: nat, j: nat)
    requires i <= j <= |s|
    requires '{' !in s[i..j]
    ensures PlaceholdersFrom(s, i) == PlaceholdersFrom(s, j)
    decreases j - i
  {
    if i < j {
      assert s[i] == s[i..j][0];
      assert s[i + 1..j] == s[i..j][1..];
      ScanSkipsPlain(s, i + 1, j);
    }
  }

  /** A template without `{` has no placeholder. */
  lemma NoBraceNoPlaceholder(s: string)
    requires '{' !in s
    ensures Placeholders(s) == []
  {
    assert s[0..|s|] == s;
    ScanSkipsPlain(s, 0, |s|);
  }

  /** The first `}` at or after i is found at j when none lies between. */
  lemma {:induction false} CloseFromFirst(s: string, i: nat, j: nat)
    requires i <= j < |s| && s[j] == '}'
    requires forall k :: i <= k < j ==> s[k] != '}'
    ensures CloseFrom(s, i) == Some(j)
    decreases j - i
  {
    if i < j {
      CloseFromFirst(s, i + 1, j);
    }
  }

  /** Where `{v}` stands at i, its braces and its inside can be read off s directly. */
  lemma BracedAt(s: string, i: nat, v: string)
    requires i + |v| + 2 <= |s| && s[i..i + |v| + 2] == Braced(v)
    ensures s[i] == '{' && s[i + |v| + 1] == '}' && s[i + 1..i + |v| + 1] == v
  {
    var w := s[i..i + |v| + 2];
    assert s[i] == w[0];
    assert s[i + |v| + 1] == w[|v| + 1];
    Pieces("{", v, "}");
    SliceOfSlice(s, i, i + |v| + 2, 1, |v| + 1);
  }

  /** A variable holds no `}`. */
  lemma NoCloseInVariable(v: string)
    requires IsVariable(v)
    ensures forall k :: 0 <= k < |v| ==> v[k] != '}'
  {
    if !IsIdentifier(v) {
      forall k | 0 <= k < |v| ensures v[k] != '}' {
        if k > 0 {
          assert v[k] == v[1..][k - 1];
        }
      }
    }
  }

  /** Where `{v}` stands at i, for a variable v, the scan reports it and resumes after its `}`. */
  lemma ScanFindsAt(s: string, i: nat, v: string)
    requires IsVariable(v)
    requires i + |v| + 2 <= |s| && s[i..i + |v| + 2] == Braced(v)
    ensures PlaceholdersFrom(s, i) == [Placeholder(i, v)] + PlaceholdersFrom(s, i + |v| + 2)
  {
    var j := i + |v| + 1;
    BracedAt(s, i, v);
    NoCloseInVariable(v);
    forall k | i + 1 <= k < j
      ensures s[k] != '}'
    {
      assert s[k] == s[i + 1..j][k - i - 1];
    }
    CloseFromFirst(s, i + 1, j);
    assert PlaceholderAt(s, i) == Some(j);
  }

  /** A slice of a slice is a slice of the whole. */
  lemma SliceOfSlice(s: string, i: nat, j: nat, a: nat, b: nat)
    requires i <= j <= |s| && a <= b <= j - i
    ensures s[i..j][a..b] == s[i + a..i + b]
  {
    forall k | 0 <= k < b - a
      ensures s[i..j][a..b][k] == s[i + a..i + b][k]
    {
      assert s[i..j][a..b][k] == s[i..j][a + k] == s[i + a + k];
    }
  }

  /** The three pieces of x + y + z, recovered by slicing. */
  lemma Pieces(x: string, y: string, z: string)
    ensures (x + y + z)[..|x|] == x
    ensures (x + y + z)[|x|..|x| + |y|] == y
    ensures (x + y + z)[|x| + |y|..] == z
  {
  }

  /** The three pieces of p + "{v}" + q, recovered by slicing. */
  lemma SliceFactsOne(s: string, p: string, v: string, q: string)
    requires s == p + Braced(v) + q
    ensures |s| == |p| + |v| + |q| + 2
    ensures s[..|p|] == p && s[|p|..|p| + |v| + 2] == Braced(v) && s[|p| + |v| + 2..] == q
  {
    Pieces(p, Braced(v), q);
  }

  /** From a `{b}` at j followed only by plain text, the scan finds just that placeholder. */
  lemma ScanLast(s: string, j: nat, b: string)
    requires IsVariable(b)
    requires j + |b| + 2 <= |s| && s[j..j + |b| + 2] == Braced(b)
    requires '{' !in s[j + |b| + 2..]
    ensures PlaceholdersFrom(s, j) == [Placeholder(j, b)]
  {
    var e := j + |b| + 2;
    ScanFindsAt(s, j, b);
    assert s[e..|s|] == s[e..];
    ScanSkipsPlain(s, e, |s|);
  }

  /** A scan over plain text, one `{v}` at i and plain text again finds just that placeholder. */
  lemma ScanOne(s: string, i: nat, v: string)
    requires IsVariable(v)
    requires i + |v| + 2 <= |s|
    requires '{' !in s[..i] && '{' !in s[i + |v| + 2..]
    requires s[i..i + |v| + 2] == Braced(v)
    ensures Placeholders(s) == [Placeholder(i, v)]
  {
    assert s[0..i] == s[..i];
    ScanSkipsPlain(s, 0, i);
    ScanLast(s, i, v);
  }

  /** The scan of s = p + "{v}" + q, for p and q without `{` and v a variable, finds exactly that placeholder. */
  lemma OnePlaceholderFound(s: string, p: string, v: string, q: string)
    requires '{' !in p && '{' !in q && IsVariable(v)
    requires s == p + Braced(v) + q
    ensures Placeholders(s) == [Placeholder(|p|, v)]
  {
    SliceFactsOne(s, p, v, q);
    ScanOne(s, |p|, v);
  }

  /** Up to j, a scan over plain text, one `{a}` at i and plain text again finds just that placeholder. */
  lemma ScanFirst(s: string, i: nat, a: string, j: nat)
    requires IsVariable(a)
    requires i + |a| + 2 <= j <= |s|
    requires '{' !in s[..i] && '{' !in s[i + |a| + 2..j]
    requires s[i..i + |a| + 2] == Braced(a)
    ensures PlaceholdersFrom(s, 0) == [Placeholder(i, a)] + PlaceholdersFrom(s, j)
  {
    var k := i + |a| + 2;
    assert PlaceholdersFrom(s, 0) == PlaceholdersFrom(s, i) by {
      assert s[0..i] == s[..i];
      ScanSkipsPlain(s, 0, i);
    }
    assert PlaceholdersFrom(s, i) == [Placeholder(i, a)] + PlaceholdersFrom(s, k) by {
      ScanFindsAt(s, i, a);
    }
    assert PlaceholdersFrom(s, k) == PlaceholdersFrom(s, j) by {
      ScanSkipsPlain(s, k, j);
    }
  }

  /** The scan of s = p + "{a}" + m + "{b}" + q, with no other `{`, finds both placeholders. */
  lemma TwoPlaceholdersFound(s: string, p: string, a: string, m: string, b: string, q: string)
    requires '{' !in p && '{' !in m && '{' !in q && IsVariable(a) && IsVariable(b)
    requires s == p + Braced(a) + m + Braced(b) + q
    ensures Placeholders(s) == [Placeholder(|p|, a), Placeholder(|p| + |a| + 2 + |m|, b)]
  {
    var j := |p| + |a| + 2 + |m|;
    SliceFacts(s, p, a, m, b, q);
    ScanFirst(s, |p|, a, j);
    ScanLast(s, j, b);
    ChainScans(s, |p|, a, j, b);
  }

  /** Chains the two halves of a two-placeholder scan. */
  lemma ChainScans(s: string, i: nat, a: string, j: nat, b: string)
    requires PlaceholdersFrom(s, 0) == [Placeholder(i, a)] + PlaceholdersFrom(s, j)
    requires PlaceholdersFrom(s, j) == [Placeholder(j, b)]
    ensures Placeholders(s) == [Placeholder(i, a), Placeholder(j, b)]
  {
  }

  /** The five pieces of p + "{a}" + m + "{b}" + q, recovered by slicing. */
  lemma SliceFacts(s: string, p: string, a: string, m: string, b: string, q: string)
    requires s == p + Braced(a) + m + Braced(b) + q
    ensures |s| == |p| + |a| + 2 + |m| + |b| + 2 + |q|
    ensures s[..|p|] == p && s[|p|..|p| + |a| + 2] == Braced(a)
    ensures s[|p| + |a| + 2..|p| + |a| + 2 + |m|] == m
    ensures s[|p| + |a| + 2 + |m|..|p| + |a| + 2 + |m| + |b| + 2] == Braced(b)
    ensures s[|p| + |a| + 2 + |m| + |b| + 2..] == q
  {
    FivePieces(p, Braced(a), m, Braced(b), q);
  }

  /** The five pieces of x1 + x2 + x3 + x4 + x5, recovered by slicing. */
  lemma FivePieces(x1: string, x2: string, x3: string, x4: string, x5: string)
    ensures var s, e1, e2 := x1 + x2 + x3 + x4 + x5, |x1| + |x2|, |x1| + |x2| + |x3|;
      && s[..|x1|] == x1 && s[|x1|..e1] == x2 && s[e1..e2] == x3
      && s[e2..e2 + |x4|] == x4 && s[e2 + |x4|..] == x5
  {
    var s := x1 + x2 + x3 + x4 + x5;
    var left := x1 + x2 + x3;
    Pieces(x1, x2, x3);
    Pieces(left, x4, x5);
    assert s[..|left|] == left;
    SliceOfSlice(s, 0, |left|, 0, |x1|);
    SliceOfSlice(s, 0, |left|, |x1|, |x1| + |x2|);
    SliceOfSlice(s, 0, |left|, |x1| + |x2|, |left|);
  }

  // ----- What buildRegexp produces -----

  /** With no placeholder in the template, the regexp body is the template itself. */
  lemma BodyWithoutPlaceholder(path: string)
    requires '{' !in path
    ensures RegexpBody(path) == path
    ensures CompiledRegexp(path) == "%^" + path + "$%u"
  {
    NoBraceNoPlaceholder(path);
  }

  /** A single placeholder is spliced once, at its own offset. */
  lemma SpliceSingle(s: string, ph: Placeholder)
    requires |ph.variable| >= 1
    ensures SpliceAll(s, [ph], 0) == SpliceOne(s, ph, 0)
  {
    assert [ph][1..] == [];
  }

  /** Splicing a placeholder that lies inside the text replaces exactly its characters. */
  lemma SpliceInside(t: string, ph: Placeholder, offset: nat)
    requires |ph.variable| >= 1
    requires ph.offset + offset + |ph.variable| + 2 <= |t|
    ensures SpliceOne(t, ph, offset)
         == t[..ph.offset + offset] + SubPattern(ph.variable) + t[ph.offset + offset + |ph.variable| + 2..]
  {
  }

  /** With one placeholder `{v}` at i and no other `{`, the body is s with just that placeholder replaced. */
  lemma BodyOfOne(s: string, i: nat, v: string)
    requires IsVariable(v)
    requires i + |v| + 2 <= |s|
    requires '{' !in s[..i] && '{' !in s[i + |v| + 2..]
    requires s[i..i + |v| + 2] == Braced(v)
    ensures RegexpBody(s) == s[..i] + SubPattern(v) + s[i + |v| + 2..]
  {
    var ph := Placeholder(i, v);
    assert Placeholders(s) == [ph] by {
      ScanOne(s, i, v);
    }
    assert SpliceAll(s, [ph], 0) == SpliceOne(s, ph, 0) by {
      SpliceSingle(s, ph);
    }
    assert SpliceOne(s, ph, 0) == s[..i] + SubPattern(v) + s[i + |v| + 2..] by {
      SpliceInside(s, ph, 0);
    }
  }

  /** With exactly one `{name}`, that placeholder becomes `(?<name>[^/]+?)` and every other character is kept. */
  lemma BodyWithSegment(s: string, p: string, name: string, q: string)
    requires '{' !in p && '{' !in q && IsIdentifier(name)
    requires s == p + Braced(name) + q
    ensures RegexpBody(s) == p + SegmentGroup(name) + q
  {
    SliceFactsOne(s, p, name, q);
    BodyOfOne(s, |p|, name);
  }

  /** With exactly one `{*name}`, that placeholder becomes `(?<name>.+?)` and every other character is kept. */
  lemma BodyWithCatchAll(s: string, p: string, name: string, q: string)
    requires '{' !in p && '{' !in q && IsIdentifier(name)
    requires s == p + Braced("*" + name) + q
    ensures RegexpBody(s) == p + CatchAllGroup(name) + q
  {
    var v := "*" + name;
    assert v[1..] == name;
    SliceFactsOne(s, p, v, q);
    BodyOfOne(s, |p|, v);
  }

  /** Cutting x + y at a point inside y. */
  lemma ConcatCut(x: string, y: string, n: nat)
    requires n <= |y|
    ensures (x + y)[..|x| + n] == x + y[..n]
    ensures (x + y)[|x| + n..] == y[n..]
  {
  }

  /** Cutting a suffix of s again. */
  lemma SuffixCut(s: string, k: nat, n: nat)
    requires k + n <= |s|
    ensures s[k..][..n] == s[k..k + n]
    ensures s[k..][n..] == s[k + n..]
  {
  }

  /**
   * With two plain placeholders `{a}` at i and `{b}` at j and no other `{`,
   * the second sub-pattern lands one character early: it replaces the
   * character before `{b}` and all of `{b}` but its closing `}`.
   */
  lemma BodyOfTwo(s: string, i: nat, a: string, j: nat, b: string, x: string)
    requires IsIdentifier(a) && IsIdentifier(b)
    requires i + |a| + 2 < j && j + |b| + 2 <= |s|
    requires Placeholders(s) == [Placeholder(i, a), Placeholder(j, b)]
    requires x == s[..i] + SegmentGroup(a)
    ensures RegexpBody(s) == x + s[i + |a| + 2..j - 1] + SegmentGroup(b) + s[j + |b| + 1..]
  {
    TwoSplices(s, Placeholder(i, a), Placeholder(j, b));
    SplicesOfTwo(s, i, a, j, b, x);
  }

  /** Both splices of a path with two plain placeholders, in the original text's terms. */
  lemma SplicesOfTwo(s: string, i: nat, a: string, j: nat, b: string, x: string)
    requires IsIdentifier(a) && IsIdentifier(b)
    requires i + |a| + 2 < j && j + |b| + 2 <= |s|
    requires x == s[..i] + SegmentGroup(a)
    ensures SpliceOne(SpliceOne(s, Placeholder(i, a), 0), Placeholder(j, b), OffsetStep(Placeholder(i, a)))
         == x + s[i + |a| + 2..j - 1] + SegmentGroup(b) + s[j + |b| + 1..]
  {
    var k := i + |a| + 2;
    FirstSplice(s, i, a);
    SpliceOnSame(SpliceOne(s, Placeholder(i, a), 0), x + s[k..], Placeholder(j, b), 8);
    SecondSplice(s, x, k, j, b);
  }

  /** Splicing equal texts gives equal results. */
  lemma SpliceOnSame(t: string, u: string, p: Placeholder, offset: nat)
    requires |p.variable| >= 1 && t == u
    ensures SpliceOne(t, p, offset) == SpliceOne(u, p, offset)
  {
  }

  /** The scan of plain text, `{a}` at i, plain text, `{b}` at j and plain text finds exactly those two. */
  lemma ScanTwo(s: string, i: nat, a: string, j: nat, b: string)
    requires IsVariable(a) && IsVariable(b)
    requires i + |a| + 2 <= j && j + |b| + 2 <= |s|
    requires '{' !in s[..i] && '{' !in s[i + |a| + 2..j] && '{' !in s[j + |b| + 2..]
    requires s[i..i + |a| + 2] == Braced(a) && s[j..j + |b| + 2] == Braced(b)
    ensures Placeholders(s) == [Placeholder(i, a), Placeholder(j, b)]
  {
    ScanFirst(s, i, a, j);
    ScanLast(s, j, b);
    ChainScans(s, i, a, j, b);
  }

  /** The first splice of a plain `{a}` at i puts its segment group in its place. */
  lemma FirstSplice(s: string, i: nat, a: string)
    requires IsIdentifier(a) && i + |a| + 2 <= |s|
    ensures SpliceOne(s, Placeholder(i, a), 0) == s[..i] + SegmentGroup(a) + s[i + |a| + 2..]
    ensures OffsetStep(Placeholder(i, a)) == 8
  {
    SegmentOfIdentifier(a, i);
    SpliceInside(s, Placeholder(i, a), 0);
  }

  /** The sub-pattern of a plain identifier is its segment group, 8 characters longer than one less than `{v}`. */
  lemma SegmentOfIdentifier(v: string, offset: nat)
    requires IsIdentifier(v)
    ensures SubPattern(v) == SegmentGroup(v) && OffsetStep(Placeholder(offset, v)) == 8
  {
  }

  /** With exactly two placeholders, the body is two splices, the second shifted by the first step. */
  lemma TwoSplices(s: string, pa: Placeholder, pb: Placeholder)
    requires |pa.variable| >= 1 && |pb.variable| >= 1
    requires Placeholders(s) == [pa, pb]
    ensures RegexpBody(s) == SpliceOne(SpliceOne(s, pa, 0), pb, OffsetStep(pa))
  {
    var first := SpliceOne(s, pa, 0);
    assert [pa, pb][1..] == [pb];
    assert [pb][1..] == [];
    assert SpliceAll(s, [pa, pb], 0) == SpliceAll(first, [pb], OffsetStep(pa));
    assert SpliceAll(first, [pb], OffsetStep(pa))
        == SpliceAll(SpliceOne(first, pb, OffsetStep(pa)), [], OffsetStep(pa) + OffsetStep(pb));
  }

  /** The second splice, 8 characters further on, counted back in the original text. */
  lemma SecondSplice(s: string, x: string, k: nat, j: nat, b: string)
    requires IsIdentifier(b)
    requires |x| == k + 9 && k < j && j + |b| + 2 <= |s|
    ensures SpliceOne(x + s[k..], Placeholder(j, b), 8)
         == x + s[k..j - 1] + SegmentGroup(b) + s[j + |b| + 1..]
  {
    CutsAfter(s, x, k, j - 1 - k, j + 8, j - 1);
    CutsAfter(s, x, k, j + |b| + 1 - k, j + 8 + |b| + 2, j + |b| + 1);
    SegmentOfIdentifier(b, j);
    SpliceInside(x + s[k..], Placeholder(j, b), 8);
  }

  /** Cutting x + s[k..] at a point past x, counted back in s. */
  lemma CutsAfter(s: string, x: string, k: nat, n: nat, cut: nat, at: nat)
    requires k + n <= |s| && cut == |x| + n && at == k + n
    ensures (x + s[k..])[..cut] == x + s[k..at]
    ensures (x + s[k..])[cut..] == s[at..]
  {
    ConcatCut(x, s[k..], n);
    SuffixCut(s, k, n);
  }

  /**
   * The offset bookkeeping subtracts one more than the length change, so with
   * two `{name}` placeholders the second is spliced one character early: the
   * last character before it is swallowed and its closing `}` survives.
   */
  lemma SecondPlaceholderShifted(s: string, p: string, a: string, m: string, b: string, q: string)
    requires '{' !in p && '{' !in m && '{' !in q && IsIdentifier(a) && IsIdentifier(b)
    requires m != []
    requires s == p + Braced(a) + m + Braced(b) + q
    ensures RegexpBody(s) == p + SegmentGroup(a) + m[..|m| - 1] + SegmentGroup(b) + ("}" + q)
  {
    SliceFacts(s, p, a, m, b, q);
    ShiftedPieces(s, p, a, m, b, q);
    ShiftedBodyOfPieces(s, p, a, m, b, q);
  }

  /** The body of p + "{a}" + m + "{b}" + q, with the text around the second group still as slices of s. */
  lemma ShiftedBodyOfPieces(s: string, p: string, a: string, m: string, b: string, q: string)
    requires '{' !in p && '{' !in m && '{' !in q && IsIdentifier(a) && IsIdentifier(b)
    requires m != []
    requires |s| == |p| + |a| + 2 + |m| + |b| + 2 + |q|
    requires s[..|p|] == p && s[|p|..|p| + |a| + 2] == Braced(a)
    requires s[|p| + |a| + 2..|p| + |a| + 2 + |m|] == m
    requires s[|p| + |a| + 2 + |m|..|p| + |a| + 2 + |m| + |b| + 2] == Braced(b)
    requires s[|p| + |a| + 2 + |m| + |b| + 2..] == q
    ensures RegexpBody(s) == s[..|p|] + SegmentGroup(a) + s[|p| + |a| + 2..|p| + |a| + 2 + |m| - 1]
      + SegmentGroup(b) + s[|p| + |a| + 2 + |m| + |b| + 1..]
  {
    ShiftedBody(s, |p|, a, |p| + |a| + 2 + |m|, b);
  }

  /** The body of a path whose only placeholders are a plain `{a}` at i and a plain `{b}` at j. */
  lemma ShiftedBody(s: string, i: nat, a: string, j: nat, b: string)
    requires IsIdentifier(a) && IsIdentifier(b)
    requires i + |a| + 2 < j && j + |b| + 2 <= |s|
    requires '{' !in s[..i] && '{' !in s[i + |a| + 2..j] && '{' !in s[j + |b| + 2..]
    requires s[i..i + |a| + 2] == Braced(a) && s[j..j + |b| + 2] == Braced(b)
    ensures Placeholders(s) == [Placeholder(i, a), Placeholder(j, b)]
    ensures RegexpBody(s) == s[..i] + SegmentGroup(a) + s[i + |a| + 2..j - 1] + SegmentGroup(b) + s[j + |b| + 1..]
  {
    ScanTwo(s, i, a, j, b);
    BodyOfTwo(s, i, a, j, b, s[..i] + SegmentGroup(a));
  }

  /** The pieces of p + "{a}" + m + "{b}" + q that survive a splice one character early. */
  lemma ShiftedPieces(s: string, p: string, a: string, m: string, b: string, q: string)
    requires m != []
    requires s == p + Braced(a) + m + Braced(b) + q
    ensures |p| + |a| + 2 + |m| + |b| + 1 <= |s|
    ensures s[|p| + |a| + 2..|p| + |a| + 2 + |m| - 1] == m[..|m| - 1]
    ensures s[|p| + |a| + 2 + |m| + |b| + 1..] == "}" + q
  {
    var i, j := |p|, |p| + |a| + 2 + |m|;
    SliceFacts(s, p, a, m, b, q);
    BracedAt(s, j, b);
    SliceOfSlice(s, i + |a| + 2, j, 0, |m| - 1);
    assert s[j + |b| + 1..] == [s[j + |b| + 1]] + s[j + |b| + 2..];
  }
}
