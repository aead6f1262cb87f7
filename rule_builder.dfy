/**
 * The `Rule` builder: a mutable object holding the `$rule` record and the
 * rules it has included. `Tree` is the ghost abstraction of the object and
 * everything it owns; `Repr` is the set of those objects.
 */
module RuleBuilder {
  import opened Maybe
  import opened PhpText
  import opened RulePattern
  import opened RuleData

  /** What `setTarget` is given: null, an array of strings, a Closure, or a string. */
  datatype TargetArg = NoArg | ArrayArg(items: seq<string>) | ClosureArg(ref: nat) | TextArg(text: string)

  /** What `include` is given: an array of rules, or anything else (such as a file name), which it ignores. */
  datatype IncludeSource = RuleList(rules: seq<Rule>) | Other(locator: string)

  /** The rules `include` works through: those of an array, none otherwise. */
  function RulesOf(source: IncludeSource): (rs: seq<Rule>)
    ensures source.Other? ==> rs == []
  {
    if source.RuleList? then source.rules else []
  }

  /** The record after `setPath(path)`: a truthy path is stored trimmed of `/`; null, "" and "0" change nothing. */
  function PathSet(rec: RuleRecord, path: Option<string>): (r: RuleRecord)
    ensures r.(path := rec.path) == rec
    ensures IsTrimmed(rec.path, {'/'}) ==> IsTrimmed(r.path, {'/'})
  {
    if path.Some? && IsTruthy(path.value) then rec.(path := Trim(path.value, {'/'})) else rec
  }

  /**
   * The record after `setTarget(target)`: an array goes to `controller` (its
   * second element, if any, is the method, otherwise 'default'), a Closure to
   * `callable`, and a string to `controller` with method 'default'.
   */
  function TargetSet(rec: RuleRecord, target: TargetArg): (r: RuleRecord)
    requires target.ArrayArg? ==> |target.items| >= 1
  {
    match target
    case ArrayArg(items) =>
      rec.(targetType := ControllerType, target := Items([items[0], if |items| >= 2 then items[1] else "default"]))
    case ClosureArg(ref) => rec.(targetType := CallableType, target := Invocable(ref))
    case TextArg(s) => rec.(targetType := ControllerType, target := Items([s, "default"]))
    case NoArg => rec
  }

  /** The record a factory builds: `methods` set to verbs, then `setPath`, then `setTarget`. */
  function FactoryRecord(verbs: seq<string>, path: Option<string>, target: TargetArg): RuleRecord
    requires target.ArrayArg? ==> |target.items| >= 1
  {
    TargetSet(PathSet(DefaultRecord.(methods := verbs), path), target)
  }

  /** A factory's rule allows exactly the verbs it was made with, and nothing but path and target differ from the default. */
  lemma FactoryFields(verbs: seq<string>, path: Option<string>, target: TargetArg)
    requires target.ArrayArg? ==> |target.items| >= 1
    ensures var r := FactoryRecord(verbs, path, target);
      && r.methods == verbs
      && r.hostname.None? && r.ajax.None? && r.name.None?
      && r.regexp == "" && r.property == map[] && r.args == map[]
      && r.path == (if path.Some? && IsTruthy(path.value) then Trim(path.value, {'/'}) else "")
  {
  }

  /** Setting a path trims it; a falsy path leaves the stored one alone. */
  lemma PathSetTrims(rec: RuleRecord, p: string)
    ensures IsTruthy(p) ==> PathSet(rec, Some(p)).path == Trim(p, {'/'})
    ensures IsTruthy(p) ==> IsTrimmed(PathSet(rec, Some(p)).path, {'/'})
    ensures !IsTruthy(p) ==> PathSet(rec, Some(p)) == rec
    ensures PathSet(rec, None) == rec
  {
  }

  /** The three shapes of target, and what each becomes. */
  lemma TargetSetShapes(rec: RuleRecord, c: string, m: string, ref: nat)
    ensures TargetSet(rec, ArrayArg([c, m])).target == Items([c, m])
    ensures TargetSet(rec, ArrayArg([c])).target == Items([c, "default"])
    ensures TargetSet(rec, TextArg(c)).target == Items([c, "default"])
    ensures TargetSet(rec, TextArg(c)).targetType == ControllerType
    ensures TargetSet(rec, ClosureArg(ref)) == rec.(targetType := CallableType, target := Invocable(ref))
  {
  }

  /** The abstract trees of a list of rules. */
  ghost function TreesOf(rs: seq<Rule>): (ts: seq<RuleTree>)
    reads rs
    ensures |ts| == |rs| && forall i :: 0 <= i < |rs| ==> ts[i] == rs[i].Tree
  {
    seq(|rs|, i reads rs requires 0 <= i < |rs| => rs[i].Tree)
  }

  /** The representation sets of a list of rules. */
  ghost function ReprsOf(rs: seq<Rule>): (ps: seq<set<object>>)
    reads rs
    ensures |ps| == |rs| && forall i :: 0 <= i < |rs| ==> ps[i] == rs[i].Repr
  {
    seq(|rs|, i reads rs requires 0 <= i < |rs| => rs[i].Repr)
  }

  /** The union of a sequence of sets. */
  ghost function Union(ps: seq<set<object>>): (u: set<object>)
    ensures forall i :: 0 <= i < |ps| ==> ps[i] <= u
    decreases |ps|
  {
    if ps == [] then {} else Union(ps[..|ps| - 1]) + ps[|ps| - 1]
  }

  /** Rules that may be handed to `include`: each consistent, and none sharing an object with another or with the includer. */
  ghost predicate Separate(rs: seq<Rule>, owner: set<object>)
    reads rs
  {
    && (forall i :: 0 <= i < |rs| ==> rs[i].Repr !! owner)
    && (forall i, j :: 0 <= i < j < |rs| ==> rs[i].Repr !! rs[j].Repr)
  }

  /** The union grows by exactly the set appended. */
  lemma UnionAppend(ps: seq<set<object>>, p: set<object>)
    ensures Union(ps + [p]) == Union(ps) + p
  {
    assert (ps + [p])[..|ps|] == ps;
  }

  /** Appending one element after a concatenation. */
  lemma AppendAssoc<T>(a: seq<T>, b: seq<T>, x: T)
    ensures (a + b) + [x] == a + (b + [x])
  {
  }

  /**
   * The loop of `buildRegexp` over the placeholders it found: each, in order,
   * is replaced by its sub-pattern (SpliceOne) at its offset shifted by the
   * running `$offset`, which then grows by OffsetStep.
   */
  method SplicePlaceholders(original: string, matches: seq<Placeholder>) returns (path: string)
    requires forall i :: 0 <= i < |matches| ==> |matches[i].variable| >= 1
    ensures path == SpliceAll(original, matches, 0)
  {
    path := original;
    var offset: nat := 0;
    var rest := matches;
    while rest != []
      invariant forall i :: 0 <= i < |rest| ==> |rest[i].variable| >= 1
      invariant SpliceAll(path, rest, offset) == SpliceAll(original, matches, 0)
      decreases |rest|
    {
      path := SpliceOne(path, rest[0], offset);
      offset := offset + OffsetStep(rest[0]);
      rest := rest[1..];
    }
  }


  class Rule {
    var rule: RuleRecord
    var includedRules: seq<Rule>
    ghost var Repr: set<object>
    ghost var Tree: RuleTree
    /** The objects owned by each included rule. */
    ghost var Parts: seq<set<object>>

    /** The ownership layout, which only this object's fields describe: each included rule owns its own disjoint part of Repr. */
    ghost predicate Owns()
      reads this
    {
      && this in Repr
      && |Parts| == |includedRules|
      && (forall i :: 0 <= i < |includedRules| ==>
            includedRules[i] in Parts[i] && Parts[i] <= Repr && this !in Parts[i])
      && (forall i, j :: 0 <= i < j < |Parts| ==> Parts[i] !! Parts[j])
    }

    /** The record is the tree's root and the included rules, each consistent, are its children. */
    ghost predicate Valid()
      reads this, Repr
      ensures Valid() ==> this in Repr
      decreases Repr
    {
      && Owns()
      && Tree.record == rule
      && |Tree.children| == |includedRules|
      && (forall i :: 0 <= i < |includedRules| ==>
            && includedRules[i].Repr == Parts[i]
            && includedRules[i].Valid()
            && includedRules[i].Tree == Tree.children[i])
    }

    /** A new rule holds the default record and includes nothing. */
    constructor()
      ensures Valid() && fresh(Repr)
      ensures rule == DefaultRecord && includedRules == []
      ensures Tree == Node(DefaultRecord, [])
    {
      rule := DefaultRecord;
      includedRules := [];
      Repr := {this};
      Tree := Node(DefaultRecord, []);
      Parts := [];
    }
    /** Every write to `$this->rule`: the record is replaced and the included rules stay. */
    method Store(rec: RuleRecord)
      requires Valid()
      modifies this
      ensures Valid() && Repr == old(Repr) && includedRules == old(includedRules)
      ensures rule == rec && Tree == Node(rec, old(Tree).children)
    {
      rule := rec;
      Tree := Node(rec, Tree.children);
    }

    /** `method(...)`: the allowed methods become exactly the given ones. */
    method Method(methods: seq<string>)
      requires Valid()
      modifies this
      ensures Valid() && Repr == old(Repr) && includedRules == old(includedRules)
      ensures rule == old(rule).(methods := methods)
      ensures Tree == Node(rule, old(Tree).children)
    {
      Store(rule.(methods := methods));
    }

    /** `methods(...)`: the same as `method(...)`. */
    method Methods(methods: seq<string>)
      requires Valid()
      modifies this
      ensures Valid() && Repr == old(Repr) && includedRules == old(includedRules)
      ensures rule == old(rule).(methods := methods)
      ensures Tree == Node(rule, old(Tree).children)
    {
      Method(methods);
    }

    /** `setPath(path)`. */
    method SetPath(path: Option<string>)
      requires Valid()
      modifies this
      ensures Valid() && Repr == old(Repr) && includedRules == old(includedRules)
      ensures rule == PathSet(old(rule), path)
      ensures Tree == Node(rule, old(Tree).children)
    {
      if path.Some? && IsTruthy(path.value) {
        Store(rule.(path := Trim(path.value, {'/'})));
      }
    }

    /** `getPath()`. */
    method GetPath() returns (path: string)
      ensures path == rule.path
    {
      path := rule.path;
    }

    /** `setTarget(target)`. */
    method SetTarget(target: TargetArg)
      requires Valid()
      requires target.ArrayArg? ==> |target.items| >= 1
      modifies this
      ensures Valid() && Repr == old(Repr) && includedRules == old(includedRules)
      ensures rule == TargetSet(old(rule), target)
      ensures Tree == Node(rule, old(Tree).children)
    {
      match target
      case ArrayArg(items) =>
        Controller(items[0], if |items| >= 2 then items[1] else "default");
      case ClosureArg(ref) =>
        Callable(ref);
      case TextArg(s) =>
        Controller(s, "default");
      case NoArg =>
    }

    /** `ajax(active)`: the rule asks for (true) or ignores (false) the AJAX header. */
    method Ajax(active: bool)
      requires Valid()
      modifies this
      ensures Valid() && Repr == old(Repr) && includedRules == old(includedRules)
      ensures rule == old(rule).(ajax := Some(active))
      ensures Tree == Node(rule, old(Tree).children)
    {
      Store(rule.(ajax := Some(active)));
    }

    /** `name(name)`. */
    method Name(name: string)
      requires Valid()
      modifies this
      ensures Valid() && Repr == old(Repr) && includedRules == old(includedRules)
      ensures rule == old(rule).(name := Some(name))
      ensures Tree == Node(rule, old(Tree).children)
    {
      Store(rule.(name := Some(name)));
    }

    /** `args(...)`: the given arguments are merged over the stored ones, the given ones winning. */
    method Args(given: map<string, string>)
      requires Valid()
      modifies this
      ensures Valid() && Repr == old(Repr) && includedRules == old(includedRules)
      ensures rule == old(rule).(args := ArrayUnion(given, old(rule).args))
      ensures rule.args.Keys == given.Keys + old(rule).args.Keys
      ensures forall k :: k in given ==> rule.args[k] == given[k]
      ensures forall k :: k in old(rule).args && k !in given ==> rule.args[k] == old(rule).args[k]
      ensures Tree == Node(rule, old(Tree).children)
    {
      Store(rule.(args := ArrayUnion(given, rule.args)));
    }

    /** `controller(class, method)`. */
    method Controller(controller: string, action: string)
      requires Valid()
      modifies this
      ensures Valid() && Repr == old(Repr) && includedRules == old(includedRules)
      ensures rule == old(rule).(targetType := ControllerType, target := Items([controller, action]))
      ensures Tree == Node(rule, old(Tree).children)
    {
      Store(rule.(targetType := ControllerType, target := Items([controller, action])));
    }

    /** `callable(fn)`: the invocable is stored as it is. */
    method Callable(ref: nat)
      requires Valid()
      modifies this
      ensures Valid() && Repr == old(Repr) && includedRules == old(includedRules)
      ensures rule == old(rule).(targetType := CallableType, target := Invocable(ref))
      ensures Tree == Node(rule, old(Tree).children)
    {
      Store(rule.(targetType := CallableType, target := Invocable(ref)));
    }

    /** `view(name)`. */
    method View(name: string)
      requires Valid()
      modifies this
      ensures Valid() && Repr == old(Repr) && includedRules == old(includedRules)
      ensures rule == old(rule).(targetType := ViewType, target := Text(name))
      ensures Tree == Node(rule, old(Tree).children)
    {
      Store(rule.(targetType := ViewType, target := Text(name)));
    }

    /**
     * `combine(parent)`: this rule's path goes under the parent's path, and so,
     * recursively, do the paths of every rule it has included.
     */
    method Combine(parent: Rule)
      requires Valid() && parent !in Repr
      modifies Repr
      ensures Valid() && Repr == old(Repr) && includedRules == old(includedRules)
      ensures Tree == Combined(old(Tree), old(parent.rule.path))
      decreases Repr, 1
    {
      var parentPath := parent.GetPath();
      Store(rule.(path := JoinPath(parentPath, rule.path)));
      for i := 0 to |includedRules|
        invariant Valid() && Repr == old(Repr) && includedRules == old(includedRules)
        invariant parent.rule.path == parentPath
        invariant rule == old(rule).(path := JoinPath(parentPath, old(rule).path))
        invariant forall j :: 0 <= j < i ==> Tree.children[j] == Combined(old(Tree).children[j], parentPath)
        invariant forall j :: i <= j < |includedRules| ==> Tree.children[j] == old(Tree).children[j]
      {
        CombineChild(i, parent);
      }
      CombinedAllIs(old(Tree).children, parentPath, Tree.children);
    }

    /** One turn of the loop in `combine`: included rule i is combined with the parent. */
    method CombineChild(i: nat, parent: Rule)
      requires Valid() && i < |includedRules| && parent !in Repr
      modifies Repr
      ensures Valid() && Repr == old(Repr) && includedRules == old(includedRules) && rule == old(rule)
      ensures Tree == Node(rule, old(Tree).children[i := Combined(old(Tree).children[i], old(parent.rule.path))])
      decreases Repr, 0
    {
      var child := includedRules[i];
      child.Combine(parent);
      Tree := Node(rule, Tree.children[i := child.Tree]);
    }

    /**
     * `include(rules)`: each given rule, in order, is put under this rule's
     * path and appended to the included rules; anything but an array is ignored.
     */
    method Include(source: IncludeSource)
      requires Valid()
      requires forall i :: 0 <= i < |RulesOf(source)| ==> RulesOf(source)[i].Valid()
      requires Separate(RulesOf(source), Repr)
      modifies this, Union(ReprsOf(RulesOf(source)))
      ensures Valid() && rule == old(rule)
      ensures includedRules == old(includedRules) + RulesOf(source)
      ensures Repr == old(Repr) + Union(old(ReprsOf(RulesOf(source))))
      ensures Tree == Node(rule, old(Tree).children + CombinedAll(old(TreesOf(RulesOf(source))), old(rule).path))
    {
      var rules := RulesOf(source);
      ghost var trees := TreesOf(rules);
      ghost var reprs := ReprsOf(rules);
      ghost var kids: seq<RuleTree> := [];
      for i := 0 to |rules|
        invariant Valid() && rule == old(rule)
        invariant includedRules == old(includedRules) + rules[..i]
        invariant Repr == old(Repr) + Union(reprs[..i])
        invariant Tree.children == old(Tree).children + kids
        invariant |kids| == i
        invariant forall j :: 0 <= j < i ==> kids[j] == Combined(trees[j], rule.path)
        invariant forall j :: i <= j < |rules| ==>
          && rules[j].Valid() && rules[j].Repr == reprs[j] && rules[j].Tree == trees[j]
          && reprs[j] !! Repr
        invariant forall a, b :: i <= a < b < |rules| ==> reprs[a] !! reprs[b]
      {
        kids := IncludeStep(rules, i, reprs, trees, kids, old(includedRules), old(Repr), old(Tree).children);
      }
      assert rules[..|rules|] == rules;
      assert reprs[..|rules|] == reprs;
      CombinedAllIs(trees, rule.path, kids);
    }

    /** One turn of the loop in `include`: rule i joins the included rules, and the loop's invariant carries over to i + 1. */
    method IncludeStep(rules: seq<Rule>, i: nat, ghost reprs: seq<set<object>>, ghost trees: seq<RuleTree>, ghost kids: seq<RuleTree>,
                       ghost included0: seq<Rule>, ghost repr0: set<object>, ghost children0: seq<RuleTree>) returns (ghost kids': seq<RuleTree>)
      requires i < |rules| == |reprs| == |trees|
      requires Valid()
      requires includedRules == included0 + rules[..i]
      requires Repr == repr0 + Union(reprs[..i])
      requires Tree.children == children0 + kids
      requires |kids| == i
      requires forall j :: 0 <= j < i ==> kids[j] == Combined(trees[j], rule.path)
      requires forall j :: i <= j < |rules| ==>
          && rules[j].Valid() && rules[j].Repr == reprs[j] && rules[j].Tree == trees[j]
          && reprs[j] !! Repr
      requires forall a, b :: i <= a < b < |rules| ==> reprs[a] !! reprs[b]
      modifies this, reprs[i]
      ensures Valid() && rule == old(rule)
      ensures includedRules == included0 + rules[..i + 1]
      ensures Repr == repr0 + Union(reprs[..i + 1])
      ensures Tree.children == children0 + kids'
      ensures |kids'| == i + 1
      ensures forall j :: 0 <= j < i + 1 ==> kids'[j] == Combined(trees[j], rule.path)
      ensures forall j :: i + 1 <= j < |rules| ==>
          && rules[j].Valid() && rules[j].Repr == reprs[j] && rules[j].Tree == trees[j]
          && reprs[j] !! Repr
    {
      IncludeOne(rules[i]);
      AppendAssoc(children0, kids, Combined(trees[i], rule.path));
      kids' := kids + [Combined(trees[i], rule.path)];
      assert rules[..i + 1] == rules[..i] + [rules[i]];
      UnionAppend(reprs[..i], reprs[i]);
      assert reprs[..i + 1] == reprs[..i] + [reprs[i]];
    }

    /** One step of `include`: `$this->included_rules[] = $rule->combine($this)`. */
    method IncludeOne(r: Rule)
      requires Valid() && r.Valid() && r.Repr !! Repr
      modifies this, r.Repr
      ensures Valid() && rule == old(rule)
      ensures includedRules == old(includedRules) + [r]
      ensures Repr == old(Repr) + old(r.Repr)
      ensures Tree == Node(rule, old(Tree).children + [Combined(old(r.Tree), rule.path)])
    {
      r.Combine(this);
      Adopt(r);
    }

    /** Appending a consistent rule that owns nothing of this one to the included rules. */
    method Adopt(r: Rule)
      requires Valid() && r.Valid() && r.Repr !! Repr
      modifies this
      ensures Valid() && rule == old(rule)
      ensures includedRules == old(includedRules) + [r]
      ensures Repr == old(Repr) + r.Repr
      ensures Tree == Node(rule, old(Tree).children + [r.Tree])
    {
      includedRules := includedRules + [r];
      Parts := Parts + [r.Repr];
      Repr := Repr + r.Repr;
      Tree := Node(rule, Tree.children + [r.Tree]);
    }

    /**
     * `getProcessedData()`: a rule that includes others yields the first record
     * of each of them; one that includes nothing builds its regexp and yields its record.
     */
    method GetProcessedData() returns (records: seq<RuleRecord>)
      requires Valid()
      modifies Repr
      ensures Valid() && Repr == old(Repr) && includedRules == old(includedRules)
      ensures records == Processed(old(Tree))
      ensures Tree == WithRegexps(old(Tree))
      decreases Repr, 1
    {
      if includedRules != [] {
        records := [];
        for i := 0 to |includedRules|
          invariant Valid() && Repr == old(Repr) && includedRules == old(includedRules) && rule == old(rule)
          invariant |records| == i
          invariant forall j :: 0 <= j < i ==>
            Tree.children[j] == WithRegexps(old(Tree).children[j]) && records[j] == Processed(old(Tree).children[j])[0]
          invariant forall j :: i <= j < |includedRules| ==> Tree.children[j] == old(Tree).children[j]
        {
          var first := ProcessChild(i);
          records := records + [first];
        }
        WithRegexpsAllIs(old(Tree).children, Tree.children);
        FirstsOfIs(old(Tree).children, records);
      } else {
        BuildRegexp();
        records := [rule];
      }
    }

    /** One turn of the loop in `getProcessedData`: element 0 of included rule i's processed data. */
    method ProcessChild(i: nat) returns (first: RuleRecord)
      requires Valid() && i < |includedRules|
      modifies Repr
      ensures Valid() && Repr == old(Repr) && includedRules == old(includedRules) && rule == old(rule)
      ensures first == Processed(old(Tree).children[i])[0]
      ensures Tree == Node(rule, old(Tree).children[i := WithRegexps(old(Tree).children[i])])
      decreases Repr, 0
    {
      var child := includedRules[i];
      var data := child.GetProcessedData();
      first := data[0];
      Tree := Node(rule, Tree.children[i := child.Tree]);
    }

    /** `buildRegexp()`: each placeholder of the path is spliced over with its sub-pattern, and the result is delimited. */
    method BuildRegexp()
      requires Valid()
      modifies this
      ensures Valid() && Repr == old(Repr) && includedRules == old(includedRules)
      ensures rule == old(rule).(regexp := CompiledRegexp(old(rule).path))
      ensures Tree == Node(rule, old(Tree).children)
    {
      var matches := Placeholders(rule.path);
      PlaceholderVariables(rule.path);
      var body := SplicePlaceholders(rule.path, matches);
      Store(rule.(regexp := "%^" + body + "$%u"));
    }

    /** `Rule::path(path, target)`: a rule for any method. */
    static method Path(path: Option<string>, target: TargetArg) returns (r: Rule)
      requires target.ArrayArg? ==> |target.items| >= 1
      ensures r.Valid() && fresh(r.Repr)
      ensures r.rule == FactoryRecord([], path, target) && r.includedRules == []
    {
      r := new Rule();
      r.SetPath(path);
      r.SetTarget(target);
    }

    /** The shape of `Rule::get` and its siblings: one verb, then path and target. */
    static method ForVerb(verb: string, path: Option<string>, target: TargetArg) returns (r: Rule)
      requires target.ArrayArg? ==> |target.items| >= 1
      ensures r.Valid() && fresh(r.Repr)
      ensures r.rule == FactoryRecord([verb], path, target) && r.includedRules == []
    {
      r := new Rule();
      r.Method([verb]);
      r.SetPath(path);
      r.SetTarget(target);
    }

    /** `Rule::get(path, target)`. */
    static method Get(path: Option<string>, target: TargetArg) returns (r: Rule)
      requires target.ArrayArg? ==> |target.items| >= 1
      ensures r.Valid() && fresh(r.Repr)
      ensures r.rule == FactoryRecord(["GET"], path, target) && r.includedRules == []
    {
      r := ForVerb("GET", path, target);
    }

    /** `Rule::post(path, target)`. */
    static method Post(path: Option<string>, target: TargetArg) returns (r: Rule)
      requires target.ArrayArg? ==> |target.items| >= 1
      ensures r.Valid() && fresh(r.Repr)
      ensures r.rule == FactoryRecord(["POST"], path, target) && r.includedRules == []
    {
      r := ForVerb("POST", path, target);
    }

    /** `Rule::put(path, target)`. */
    static method Put(path: Option<string>, target: TargetArg) returns (r: Rule)
      requires target.ArrayArg? ==> |target.items| >= 1
      ensures r.Valid() && fresh(r.Repr)
      ensures r.rule == FactoryRecord(["PUT"], path, target) && r.includedRules == []
    {
      r := ForVerb("PUT", path, target);
    }

    /** `Rule::patch(path, target)`. */
    static method Patch(path: Option<string>, target: TargetArg) returns (r: Rule)
      requires target.ArrayArg? ==> |target.items| >= 1
      ensures r.Valid() && fresh(r.Repr)
      ensures r.rule == FactoryRecord(["PATCH"], path, target) && r.includedRules == []
    {
      r := ForVerb("PATCH", path, target);
    }

    /** `Rule::delete(path, target)`. */
    static method Delete(path: Option<string>, target: TargetArg) returns (r: Rule)
      requires target.ArrayArg? ==> |target.items| >= 1
      ensures r.Valid() && fresh(r.Repr)
      ensures r.rule == FactoryRecord(["DELETE"], path, target) && r.includedRules == []
    {
      r := ForVerb("DELETE", path, target);
    }
  }
}
