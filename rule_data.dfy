/**
 * The `$rule` record of a routing rule, the tree that `include` builds out
 * of rules, and what path prefixing and flattening do to that tree.
 */
module RuleData {
  import opened Maybe
  import opened PhpText
  import opened RulePattern

  /** The `target_type` entry: one of the four TARGET_ constants. */
  datatype TargetType = ViewType | ControllerType | CallableType | ClassType

  /** The string value of each TARGET_ constant. */
  function TypeName(t: TargetType): string {
    match t
    case ViewType => "view"
    case ControllerType => "controller"
    case CallableType => "callable"
    case ClassType => "class"
  }

  /**
   * The `target` entry: PHP null, an array of strings (a controller class
   * and method), an invocable object (never inspected) or a string (a view name).
   */
  datatype Target = NoTarget | Items(items: seq<string>) | Invocable(ref: nat) | Text(text: string)

  /**
   * The `$rule` array. `hostname`, `ajax` and `name` are null or a value;
   * `property` is an empty map where the PHP code holds null. Argument keys
   * are strings, with PHP's integer keys written in decimal.
   */
  datatype RuleRecord = RuleRecord(
    methods: seq<string>,
    hostname: Option<string>,
    ajax: Option<bool>,
    path: string,
    regexp: string,
    name: Option<string>,
    target: Target,
    property: map<string, string>,
    targetType: TargetType,
    args: map<string, string>)

  /** The initial value of `$rule`. */
  const DefaultRecord := RuleRecord([], None, None, "", "", None, NoTarget, map[], ClassType, map[])

  /** A rule with the rules it has included, in inclusion order. */
  datatype RuleTree = Node(record: RuleRecord, children: seq<RuleTree>)

  // ----- Path prefixing -----

  /** The path `combine` gives a rule under a parent path. */
  function JoinPath(parent: string, path: string): (r: string)
    ensures IsTrimmed(r, {'/'})
  {
    Trim(parent + "/" + path, {'/'})
  }

  /** Two non-empty trimmed paths join with one `/` between them. */
  lemma JoinTrimmed(parent: string, path: string)
    requires parent != [] && path != []
    requires IsTrimmed(parent, {'/'}) && IsTrimmed(path, {'/'})
    ensures JoinPath(parent, path) == parent + "/" + path
  {
    TrimJoin(parent, path);
  }

  /** Under an empty parent path, a trimmed path stays as it is. */
  lemma JoinUnderEmpty(path: string)
    requires IsTrimmed(path, {'/'})
    ensures JoinPath("", path) == path
  {
    TrimJoinEmptyParent(path);
  }

  /** An empty path under a trimmed parent is the parent itself: `combine` adds no trailing `/`. */
  lemma JoinEmptyChild(parent: string)
    requires IsTrimmed(parent, {'/'})
    ensures JoinPath(parent, "") == parent
  {
    TrimPadded("", parent, "/", {'/'});
    assert "" + parent + "/" == parent + "/" + "";
    TrimOfTrimmed(parent, {'/'});
  }

  /** Prefixing twice, first by p and then by g, is prefixing once by the join of g and p. */
  lemma JoinTwice(g: string, p: string, path: string)
    requires IsTrimmed(g, {'/'}) && IsTrimmed(p, {'/'}) && IsTrimmed(path, {'/'})
    ensures JoinPath(g, JoinPath(p, path)) == JoinPath(JoinPath(g, p), path)
  {
    if g == [] {
      JoinUnderEmpty(JoinPath(p, path));
      JoinUnderEmpty(p);
    } else if p == [] {
      JoinUnderEmpty(path);
      JoinEmptyChild(g);
    } else if path == [] {
      JoinEmptyChild(p);
      JoinEmptyChild(JoinPath(g, p));
    } else {
      JoinNested(g, p, path);
      JoinOfJoined(g, p, path);
      assert g + "/" + (p + "/" + path) == g + "/" + p + "/" + path;
    }
  }

  /** The inner join first: g/(p/path). */
  lemma JoinNested(g: string, p: string, path: string)
    requires g != [] && p != [] && path != []
    requires IsTrimmed(g, {'/'}) && IsTrimmed(p, {'/'}) && IsTrimmed(path, {'/'})
    ensures JoinPath(g, JoinPath(p, path)) == g + "/" + (p + "/" + path)
  {
    var pp := p + "/" + path;
    assert JoinPath(p, path) == pp && IsTrimmed(pp, {'/'}) by {
      JoinTrimmed(p, path);
      SlashJoinTrimmed(p, path);
    }
    assert pp != [];
    assert JoinPath(g, pp) == g + "/" + pp by {
      JoinTrimmed(g, pp);
    }
  }

  /** The outer join first: (g/p)/path. */
  lemma JoinOfJoined(g: string, p: string, path: string)
    requires g != [] && p != [] && path != []
    requires IsTrimmed(g, {'/'}) && IsTrimmed(p, {'/'}) && IsTrimmed(path, {'/'})
    ensures JoinPath(JoinPath(g, p), path) == g + "/" + p + "/" + path
  {
    var gp := g + "/" + p;
    assert JoinPath(g, p) == gp && IsTrimmed(gp, {'/'}) by {
      JoinTrimmed(g, p);
      SlashJoinTrimmed(g, p);
    }
    assert gp != [];
    assert JoinPath(gp, path) == gp + "/" + path by {
      JoinTrimmed(gp, path);
    }
  }

  /** Joining two non-empty trimmed paths with `/` gives a trimmed path. */
  lemma SlashJoinTrimmed(x: string, y: string)
    requires x != [] && y != []
    requires IsTrimmed(x, {'/'}) && IsTrimmed(y, {'/'})
    ensures IsTrimmed(x + "/" + y, {'/'})
  {
    assert (x + "/" + y)[0] == x[0];
    assert (x + "/" + y)[|x + "/" + y| - 1] == y[|y| - 1];
  }

  /** What `combine(parent)` does to a rule and, recursively, to every rule it includes. */
  function Combined(t: RuleTree, parent: string): (c: RuleTree)
    ensures |c.children| == |t.children|
    ensures c.record == t.record.(path := JoinPath(parent, t.record.path))
    decreases t, 1
  {
    Node(t.record.(path := JoinPath(parent, t.record.path)), CombinedAll(t.children, parent))
  }

  /** Each of a list of trees combined under the same parent path, in order. */
  function CombinedAll(ts: seq<RuleTree>, parent: string): (cs: seq<RuleTree>)
    ensures |cs| == |ts|
    decreases ts, 0
  {
    if ts == [] then [] else [Combined(ts[0], parent)] + CombinedAll(ts[1..], parent)
  }

  /** Element i of a combined list is tree i combined. */
  lemma {:induction false} CombinedAllAt(ts: seq<RuleTree>, parent: string, i: nat)
    requires i < |ts|
    ensures CombinedAll(ts, parent)[i] == Combined(ts[i], parent)
    decreases |ts|
  {
    if i > 0 {
      CombinedAllAt(ts[1..], parent, i - 1);
    }
  }
  /** A list whose every element is the matching tree combined is the combined list. */
  lemma CombinedAllIs(ts: seq<RuleTree>, parent: string, cs: seq<RuleTree>)
    requires |cs| == |ts| && forall i :: 0 <= i < |ts| ==> cs[i] == Combined(ts[i], parent)
    ensures cs == CombinedAll(ts, parent)
  {
    forall i | 0 <= i < |ts|
      ensures cs[i] == CombinedAll(ts, parent)[i]
    {
      CombinedAllAt(ts, parent, i);
    }
  }


  /** Combining changes paths only: the shape of the tree and every other field stay. */
  lemma {:induction false} CombinedKeepsShape(t: RuleTree, parent: string)
    ensures SameShape(Combined(t, parent), t)
    decreases t
  {
    var c := Combined(t, parent);
    forall i | 0 <= i < |t.children|
      ensures SameShape(c.children[i], t.children[i])
    {
      CombinedAllAt(t.children, parent, i);
      CombinedKeepsShape(t.children[i], parent);
    }
  }

  /** Two trees with the same shape whose records differ at most in their paths. */
  ghost predicate SameShape(a: RuleTree, b: RuleTree)
    decreases a
  {
    && a.record.(path := b.record.path) == b.record
    && |a.children| == |b.children|
    && forall i :: 0 <= i < |a.children| ==> SameShape(a.children[i], b.children[i])
  }

  // ----- Flattening -----

  /** A record with the regexp buildRegexp writes for its path. */
  function Compiled(rec: RuleRecord): (c: RuleRecord)
    ensures c.regexp == CompiledRegexp(rec.path)
    ensures c.(regexp := rec.regexp) == rec
  {
    rec.(regexp := CompiledRegexp(rec.path))
  }

  /** The tree after `getProcessedData`: every rule without includes has its regexp built. */
  function WithRegexps(t: RuleTree): (w: RuleTree)
    ensures |w.children| == |t.children|
    ensures w.record == if t.children == [] then Compiled(t.record) else t.record
    decreases t, 1
  {
    if t.children == [] then Node(Compiled(t.record), [])
    else Node(t.record, WithRegexpsAll(t.children))
  }

  /** WithRegexps of each tree of a list. */
  function WithRegexpsAll(ts: seq<RuleTree>): (ws: seq<RuleTree>)
    ensures |ws| == |ts|
    decreases ts, 0
  {
    if ts == [] then [] else [WithRegexps(ts[0])] + WithRegexpsAll(ts[1..])
  }

  /** Element i of WithRegexpsAll is WithRegexps of tree i. */
  lemma {:induction false} WithRegexpsAllAt(ts: seq<RuleTree>, i: nat)
    requires i < |ts|
    ensures WithRegexpsAll(ts)[i] == WithRegexps(ts[i])
    decreases |ts|
  {
    if i > 0 {
      WithRegexpsAllAt(ts[1..], i - 1);
    }
  }
  /** A list whose every element is WithRegexps of the matching tree is WithRegexpsAll. */
  lemma WithRegexpsAllIs(ts: seq<RuleTree>, ws: seq<RuleTree>)
    requires |ws| == |ts| && forall i :: 0 <= i < |ts| ==> ws[i] == WithRegexps(ts[i])
    ensures ws == WithRegexpsAll(ts)
  {
    forall i | 0 <= i < |ts|
      ensures ws[i] == WithRegexpsAll(ts)[i]
    {
      WithRegexpsAllAt(ts, i);
    }
  }


  /**
   * What `getProcessedData` returns: the rule's own compiled record when it
   * includes nothing, and otherwise the first record of each included rule.
   */
  function Processed(t: RuleTree): (r: seq<RuleRecord>)
    ensures |r| == if t.children == [] then 1 else |t.children|
    decreases t, 1
  {
    if t.children == [] then [Compiled(t.record)] else FirstsOf(t.children)
  }

  /** The first processed record of each tree of a list. */
  function FirstsOf(ts: seq<RuleTree>): (r: seq<RuleRecord>)
    ensures |r| == |ts|
    decreases ts, 0
  {
    if ts == [] then [] else [Processed(ts[0])[0]] + FirstsOf(ts[1..])
  }

  /** Element i of FirstsOf is the first processed record of tree i. */
  lemma {:induction false} FirstsOfAt(ts: seq<RuleTree>, i: nat)
    requires i < |ts|
    ensures FirstsOf(ts)[i] == Processed(ts[i])[0]
    decreases |ts|
  {
    if i > 0 {
      FirstsOfAt(ts[1..], i - 1);
    }
  }
  /** A list whose every element is the first processed record of the matching tree is FirstsOf. */
  lemma {:induction false} FirstsOfIs(ts: seq<RuleTree>, rs: seq<RuleRecord>)
    requires |rs| == |ts| && forall i :: 0 <= i < |ts| ==> rs[i] == Processed(ts[i])[0]
    ensures rs == FirstsOf(ts)
    decreases |ts|
  {
    if ts != [] {
      forall i | 0 <= i < |ts| - 1
        ensures rs[1..][i] == Processed(ts[1..][i])[0]
      {
        assert rs[1..][i] == rs[i + 1] && ts[1..][i] == ts[i + 1];
      }
      FirstsOfIs(ts[1..], rs[1..]);
      assert rs == [rs[0]] + rs[1..];
    }
  }


  /** The rule reached from t by always following its first included rule. */
  function FirstLeaf(t: RuleTree): (leaf: RuleRecord)
    decreases t
  {
    if t.children == [] then t.record else FirstLeaf(t.children[0])
  }

  /** The first processed record of any rule is its first leaf, compiled. */
  lemma {:induction false} ProcessedHead(t: RuleTree)
    ensures Processed(t)[0] == Compiled(FirstLeaf(t))
    decreases t
  {
    if t.children != [] {
      ProcessedHead(t.children[0]);
    }
  }

  /**
   * A rule with includes yields, in inclusion order, the compiled first leaf
   * of each included rule, and nothing of its own record.
   */
  lemma ProcessedOfIncludes(t: RuleTree)
    requires t.children != []
    ensures |Processed(t)| == |t.children|
    ensures forall i :: 0 <= i < |t.children| ==> Processed(t)[i] == Compiled(FirstLeaf(t.children[i]))
  {
    forall i | 0 <= i < |t.children|
      ensures Processed(t)[i] == Compiled(FirstLeaf(t.children[i]))
    {
      FirstsOfAt(t.children, i);
      ProcessedHead(t.children[i]);
    }
  }

  /**
   * Only element 0 of an included rule's own output is kept: a rule that
   * includes one rule which itself includes two yields just the first of those two.
   */
  lemma NestedIncludeKeepsFirst(top: RuleRecord, mid: RuleRecord, a: RuleRecord, b: RuleRecord)
    ensures Processed(Node(top, [Node(mid, [Node(a, []), Node(b, [])])])) == [Compiled(a)]
  {
    var inner := Node(mid, [Node(a, []), Node(b, [])]);
    assert Processed(Node(a, [])) == [Compiled(a)];
    assert Processed(inner)[0] == Compiled(a);
  }

  /** The path a child's path becomes under a non-empty parent: `parent/child`, or the parent alone for an empty child. */
  function UnderParent(parent: string, child: string): string {
    if child == [] then parent else parent + "/" + child
  }

  /**
   * A rule with a non-empty path that includes rules without includes of
   * their own yields, in order, each of them compiled under the path
   * `parent/child`, or under the parent's own path when the child's path
   * is empty.
   */
  lemma IncludedLeafPaths(rec: RuleRecord, kids: seq<RuleTree>)
    requires kids != [] && rec.path != [] && IsTrimmed(rec.path, {'/'})
    requires forall i :: 0 <= i < |kids| ==>
      kids[i].children == [] && IsTrimmed(kids[i].record.path, {'/'})
    ensures |Processed(Node(rec, CombinedAll(kids, rec.path)))| == |kids|
    ensures forall i :: 0 <= i < |kids| ==>
      Processed(Node(rec, CombinedAll(kids, rec.path)))[i]
        == Compiled(kids[i].record.(path := UnderParent(rec.path, kids[i].record.path)))
  {
    var t := Node(rec, CombinedAll(kids, rec.path));
    ProcessedOfIncludes(t);
    forall i | 0 <= i < |kids|
      ensures Processed(t)[i] == Compiled(kids[i].record.(path := UnderParent(rec.path, kids[i].record.path)))
    {
      CombinedAllAt(kids, rec.path, i);
      if kids[i].record.path == [] {
        JoinEmptyChild(rec.path);
      } else {
        JoinTrimmed(rec.path, kids[i].record.path);
      }
    }
  }

  /** Slashes on either side of the join do not double: `admin/` over `/users` is `admin/users`. */
  lemma JoinExample()
    ensures JoinPath(Trim("admin/", {'/'}), Trim("/users", {'/'})) == "admin/users"
  {
    assert Trim("admin/", {'/'}) == "admin" by {
      assert "admin/"[..5] == "admin";
    }
    assert Trim("/users", {'/'}) == "users" by {
      assert "/users"[1..] == "users";
    }
    JoinTrimmed("admin", "users");
  }
}
