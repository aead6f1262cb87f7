/**
 * The route `match` hands back, and the one-line description of it that
 * `MatchedRoute::__toString` renders for diagnostics.
 */
module Routes {
  import opened Maybe
  import opened PhpText
  import opened RuleData

  /**
   * The fields of a matched route. `rule` is None where the PHP object still
   * holds its default empty array; `name` is the rule's name or null.
   */
  datatype MatchedRoute = MatchedRoute(
    name: Option<string>,
    rule: Option<RuleRecord>,
    args: map<string, string>,
    targetType: TargetType,
    target: Target)

  /** The arrow glyph between the path and the target type (U+1F862). */
  const Arrow: string := "\U{1F862}"

  /** The first part: the methods joined with commas, or ANY when the list is empty. */
  function MethodsText(methods: seq<string>): (r: string)
    ensures methods == [] ==> r == "ANY"
    ensures |methods| == 1 ==> r == methods[0]
  {
    if methods != [] then Join(",", methods) else "ANY"
  }

  /** The target part: an array target joined with `::`, anything else as `??`. */
  function TargetText(target: Target): (r: string)
    ensures !target.Items? ==> r == "??"
  {
    if target.Items? then Join("::", target.items) else "??"
  }

  /** The name part, present only for a truthy name. */
  function NameParts(name: Option<string>): (ps: seq<string>)
    ensures |ps| <= 1
    ensures ps != [] <==> name.Some? && IsTruthy(name.value)
  {
    if name.Some? && IsTruthy(name.value) then ["(" + name.value + ")"] else []
  }

  /** The parts `__toString` joins with single spaces. */
  function Parts(rec: RuleRecord): (ps: seq<string>)
    ensures 5 <= |ps| <= 6
  {
    [MethodsText(rec.methods), "'" + rec.path + "'", Arrow, ToUpper(TypeName(rec.targetType)), TargetText(rec.target)]
      + NameParts(rec.name)
  }

  /**
   * `__toString()`: the empty string for a route without a rule, otherwise
   * the parts of its rule record joined with single spaces. Only the rule
   * record is read: the route's own target fields play no part.
   */
  function ToString(route: MatchedRoute): (r: string)
    ensures r == "" <==> route.rule.None?
  {
    if route.rule.None? then ""
    else
      var ps := Parts(route.rule.value);
      assert Join(" ", ps) == ps[0] + " " + Join(" ", ps[1..]);
      Join(" ", ps)
  }

  /** What a truthy name adds at the end of the rendering. */
  function NameText(name: Option<string>): string {
    if name.Some? && IsTruthy(name.value) then " (" + name.value + ")" else ""
  }

  /**
   * The rendering written out: the methods, the quoted path, the arrow, the
   * upper-cased type, the target and, for a truthy name, the name in parentheses.
   */
  lemma Rendering(route: MatchedRoute, rec: RuleRecord)
    requires route.rule == Some(rec)
    ensures ToString(route)
         == MethodsText(rec.methods) + " '" + rec.path + "' " + Arrow + " "
            + ToUpper(TypeName(rec.targetType)) + " " + TargetText(rec.target) + NameText(rec.name)
  {
    var a, b, c, d, e := MethodsText(rec.methods), "'" + rec.path + "'", Arrow, ToUpper(TypeName(rec.targetType)), TargetText(rec.target);
    assert ToString(route) == Join(" ", [a, b, c, d, e]) + NameText(rec.name) by {
      PartsJoin(rec);
    }
    JoinFive(a, b, c, d, e);
    Spell(a, rec.path, d, e, NameText(rec.name));
  }

  /** The parts joined: the five fixed parts, then the name part. */
  lemma PartsJoin(rec: RuleRecord)
    ensures Join(" ", Parts(rec))
         == Join(" ", [MethodsText(rec.methods), "'" + rec.path + "'", Arrow, ToUpper(TypeName(rec.targetType)), TargetText(rec.target)])
            + NameText(rec.name)
  {
    var five := [MethodsText(rec.methods), "'" + rec.path + "'", Arrow, ToUpper(TypeName(rec.targetType)), TargetText(rec.target)];
    if rec.name.Some? && IsTruthy(rec.name.value) {
      var n := "(" + rec.name.value + ")";
      assert Parts(rec) == five + [n];
      JoinAppend(" ", five, n);
      assert " " + n == NameText(rec.name);
    } else {
      assert Parts(rec) == five;
    }
  }

  /** Regrouping the joined parts into the written-out rendering. */
  lemma Spell(a: string, path: string, d: string, e: string, tail: string)
    ensures a + " " + ("'" + path + "'") + " " + Arrow + " " + d + " " + e + tail
         == a + " '" + path + "' " + Arrow + " " + d + " " + e + tail
  {
  }

  /** Joining five parts, one by one. */
  lemma JoinFive(a: string, b: string, c: string, d: string, e: string)
    ensures Join(" ", [a, b, c, d, e]) == a + " " + b + " " + c + " " + d + " " + e
  {
    var de := d + " " + e;
    var cde := c + " " + de;
    var bcde := b + " " + cde;
    assert Join(" ", [d, e]) == de by {
      assert [d, e][1..] == [e];
    }
    assert Join(" ", [c, d, e]) == cde by {
      assert [c, d, e][1..] == [d, e];
    }
    assert Join(" ", [b, c, d, e]) == bcde by {
      assert [b, c, d, e][1..] == [c, d, e];
    }
    assert Join(" ", [a, b, c, d, e]) == a + " " + bcde by {
      assert [a, b, c, d, e][1..] == [b, c, d, e];
    }
  }

  /** The methods part can be split back into the methods list, when no method holds a comma. */
  lemma MethodsRoundTrip(methods: seq<string>)
    requires methods != []
    requires forall i :: 0 <= i < |methods| ==> ',' !in methods[i]
    ensures Split(MethodsText(methods), ',') == methods
  {
    SplitJoin(methods, ',');
  }

  /** The type part for each target type. */
  lemma TypeLabels()
    ensures ToUpper(TypeName(ViewType)) == "VIEW"
    ensures ToUpper(TypeName(ControllerType)) == "CONTROLLER"
    ensures ToUpper(TypeName(CallableType)) == "CALLABLE"
    ensures ToUpper(TypeName(ClassType)) == "CLASS"
  {
  }
}
