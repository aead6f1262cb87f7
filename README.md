# Routing rules and the request matcher, in Dafny

This project models the core of a PHP URL router (namespace `Vendimia\Routing`).

- **`Rule`** is a fluent builder. Its setters write the fields of a `$rule` record: methods, path, AJAX flag, name, args and target. `include()` attaches child rules under the rule's path. `getProcessedData()` flattens a rule into matcher-ready records. `buildRegexp()` compiles the path template. In the template, `{name}` becomes a one-segment named group and `{*name}` a catch-all named group.
- **`Manager`** holds the ordered rule table. `setRules()` fills it. `match()` scans it for the first rule that admits a request. It then merges the captured variables over the rule's static args and fills the `{key}` placeholders of the target.
- **`MatchedRoute::__toString`** renders a matched route as a one-line diagnostic string.

Modules, leaf first:

- `Maybe`: the optional value, standing for PHP `null`.
- `PhpText`: the PHP built-ins the router calls. These are `trim`, `join`, `strtr`, `strtoupper`, the array union `+` and string truthiness. `explode`, which the router never calls, is modelled only as the inverse of `join`, to state that the rendered methods list reads back (`SplitJoin`, `MethodsRoundTrip`). `array_merge` of string-keyed arrays is modelled in `Routing` (`MergedProps`); `in_array` appears as sequence membership in the method filter.
- `RulePattern`: the placeholder scan of `buildRegexp` and its splice arithmetic, as written.
- `Pcre`: `preg_match` restricted to the regexps `buildRegexp` emits. That is literal text plus the `[^/]+?` and `.+?` named groups, tried in PCRE's backtracking order.
- `RuleData`: the `$rule` record and the tree of included rules. It also holds what `combine` and `getProcessedData` do to that tree, as functions.
- `RuleBuilder`: the `Rule` class. Its methods update the record and the included rules in place. A ghost `Tree` holds the abstract value, and every method's `ensures` ties the new `Tree` to the old one through the `RuleData` functions.
- `Routes`: the matched route and its rendering.
- `Routing`: the `Manager` class, the specification of `match` (`FirstMatch`) and the lemmas about the table.

Several behaviours of the code are easy to miss:

- `getProcessedData` keeps only element `[0]` of each included rule's output. A rule with includes therefore yields exactly one record per direct child, not every descendant (`NestedIncludeKeepsFirst`).
- The offset bookkeeping of `buildRegexp` subtracts one more than the length change. With two `{name}` placeholders separated by non-empty text, the second group replaces the character before its placeholder, and that placeholder's closing `}` survives (`SecondPlaceholderShifted`). The resulting regexp then never matches a path without `}` (`CompiledTwoSegmentsNeedBrace`, and `TwoSegmentsExample` for `{a}/{b}`). Correctness of the compiled regexp is therefore stated for templates with no placeholder or exactly one placeholder.
- Bare `{*}` is not a placeholder: the identifier needs at least one character. Malformed placeholders are not errors; they stay as literal text.
- A rule whose `ajax` is `false` is never rejected on AJAX grounds. Only `true` asks for a truthy `X-Requested-With` header.
- `replaceVariables` rewrites array (controller) targets element by element, as well as string targets.
- `Rule` has no setter for the `hostname` and `property` fields, so they keep their defaults: no host filter and no property.

## Model

| member | source | states |
|---|---|---|
| `PhpText.Trim` | src/Rule.php:86 | `trim` leaves no character of the set at either end and never lengthens the string |
| `PhpText.TrimSlice` | src/Rule.php:86 | what `trim` keeps is one contiguous slice of the input, and everything cut on either side is a character of the set |
| `PhpText.TrimUnique` | src/Manager.php:82 | conversely, a slice with only set characters around it and none at its own ends is exactly what `trim` keeps |
| `PhpText.TrimIdempotent` | src/Rule.php:223 | trimming twice is trimming once |
| `PhpText.TrimPadded` | src/Manager.php:82 | set characters added at either end make no difference to `trim` |
| `PhpText.ArrayUnion` | src/Rule.php:156 | PHP `$left + $right`: the keys of both sides, the left value on a shared key, the right value elsewhere |
| `PhpText.SplitJoin` | src/MatchedRoute.php:45 | `explode` undoes `join` with a one-character separator when no part holds the separator |
| `PhpText.StrtrUntouched` | src/Manager.php:70 | `strtr` copies a string in which no replacement key's first character occurs |
| `RulePattern.CloseFrom` | src/Rule.php:264 | finds the first `}` at or after a position, or reports that there is none |
| `RulePattern.PlaceholderAt` | src/Rule.php:264 | a placeholder found at i runs from `{` to the first `}` after it and holds an identifier, optionally after `*` |
| `RulePattern.PlaceholdersFrom` | src/Rule.php:264-265 | every match the scan reports is a placeholder lying in the path at its reported offset, at or after the scan's start |
| `RulePattern.PlaceholdersInOrder` | src/Rule.php:264-265 | the scan reports its matches left to right, each ending at or before the offset of the next, as the splice offsets assume |
| `RulePattern.SubPattern` | src/Rule.php:268-274 | `{*name}` becomes the `.+?` group and `{name}` the `[^/]+?` group, with the lengths these give |
| `RulePattern.NoBraceNoPlaceholder` | src/Rule.php:264 | a path without `{` holds no placeholder |
| `RulePattern.OnePlaceholderFound` | src/Rule.php:264-266 | with one placeholder and no other `{`, the scan reports exactly that placeholder at its offset |
| `RulePattern.TwoPlaceholdersFound` | src/Rule.php:264-266 | with two placeholders and no other `{`, the scan reports both, in order, at their offsets |
| `RulePattern.BodyWithoutPlaceholder` | src/Rule.php:258-288 | with no `{` in the path, the regexp is `%^` + path + `$%u` |
| `RulePattern.BodyWithSegment` | src/Rule.php:273-281 | with exactly one `{name}`, it becomes `(?<name>[^/]+?)` and every other character is kept |
| `RulePattern.BodyWithCatchAll` | src/Rule.php:268-281 | with exactly one `{*name}`, it becomes `(?<name>.+?)` and every other character is kept |
| `RulePattern.TwoSplices` | src/Rule.php:265-284 | with two placeholders, the second is spliced at its offset shifted by the first step of `$offset` |
| `RulePattern.SecondPlaceholderShifted` | src/Rule.php:277-283 | with two `{name}` placeholders separated by non-empty text, the second group swallows the character before it and leaves its `}` behind |
| `Pcre.ParseWithSegment` | src/Rule.php:273 | the body emitted for one `{name}` reads back as literals, one `[^/]+?` group and literals |
| `Pcre.ParseWithCatchAll` | src/Rule.php:271 | the body emitted for one `{*name}` reads back as literals, one `.+?` group and literals |
| `Pcre.MatchOneGroup` | src/Manager.php:98 | literals p, one lazy group and literals q match s exactly when s is p, at least one admitted character, then q; the group captures the middle |
| `Pcre.MissingLiteral` | src/Manager.php:98 | a literal of the pattern that the subject lacks rules out a match |
| `Pcre.CompiledLiteral` | src/Rule.php:287 | a template without placeholders matches exactly the path equal to it, with no captures |
| `Pcre.CompiledSegment` | src/Rule.php:273 | `p{v}q` matches exactly p, a non-empty run without `/`, then q, and captures that run as v |
| `Pcre.CompiledCatchAll` | src/Rule.php:271 | `p{*v}q` matches exactly p, at least one character (slashes included), then q, and captures it as v |
| `Pcre.CompiledTwoSegmentsNeedBrace` | src/Rule.php:283 | the regexp of a template with two `{name}` placeholders separated by non-empty text never matches a path without `}` |
| `Pcre.TwoSegmentsExample` | src/Rule.php:283 | the template `{a}/{b}` does not match `x/y` |
| `RuleData.JoinPath` | src/Rule.php:223 | the combined path has no `/` at either end |
| `RuleData.JoinTrimmed` | src/Rule.php:223 | two non-empty trimmed paths combine to `parent/child` |
| `RuleData.JoinUnderEmpty` | src/Rule.php:223 | under an empty parent path a trimmed path is unchanged |
| `RuleData.JoinEmptyChild` | src/Rule.php:223 | a rule with an empty path combined under a trimmed parent takes the parent's path, with no trailing `/` |
| `RuleData.JoinTwice` | src/Rule.php:223-228 | for any `/`-trimmed paths, empty ones included, combining under p and then under g is combining once under the join of g and p |
| `RuleData.JoinExample` | src/Rule.php:86 | paths `admin/` and `/users` combine to `admin/users` |
| `RuleData.Combined` | src/Rule.php:221-231 | `combine` re-prefixes the rule's own path and keeps the number of included rules |
| `RuleData.CombinedKeepsShape` | src/Rule.php:221-231 | `combine` changes paths only: the tree's shape and every other field stay |
| `RuleData.Compiled` | src/Rule.php:287 | `buildRegexp` writes the regexp of the path and changes nothing else in the record |
| `RuleData.WithRegexps` | src/Rule.php:238-251 | processing builds the regexp of a rule without includes and leaves a rule with includes as it is |
| `RuleData.Processed` | src/Rule.php:238-251 | a rule without includes yields one record; a rule with includes yields one record per included rule |
| `RuleData.ProcessedHead` | src/Rule.php:244 | the first record of any rule is its first-child-chain leaf, compiled |
| `RuleData.ProcessedOfIncludes` | src/Rule.php:241-246 | a rule with includes yields, in order, the compiled first leaf of each included rule and nothing of its own |
| `RuleData.NestedIncludeKeepsFirst` | src/Rule.php:244 | of a nested include of two rules, only the first survives flattening |
| `RuleData.IncludedLeafPaths` | src/Rule.php:205-249 | including plain rules under a non-empty path and processing yields each child, in order, compiled under `parent/child`, or under `parent` alone when the child's path is empty |
| `RuleBuilder.RulesOf` | src/Rule.php:207 | `include` works through the rules of an array and through nothing otherwise |
| `RuleBuilder.PathSet` | src/Rule.php:83-90 | `setPath` changes only the path, and keeps a trimmed path trimmed |
| `RuleBuilder.PathSetTrims` | src/Rule.php:83-90 | a truthy path is stored trimmed of `/`; null, `""` and `"0"` leave the record as it is |
| `RuleBuilder.TargetSetShapes` | src/Rule.php:108-123 | an array gives controller `[class, method]` (method `default` when missing), a string gives `[string, 'default']`, a Closure gives callable |
| `RuleBuilder.FactoryFields` | src/Rule.php:295-348 | a factory's rule allows exactly the given verbs and differs from the default only in path and target |
| `RuleBuilder.SplicePlaceholders` | src/Rule.php:263-285 | the loop over the placeholders computes the splice sequence `SpliceAll`, offset bookkeeping included |
| `RuleBuilder.Rule.constructor` | src/Rule.php:22-55 | a new rule holds the default record and includes nothing |
| `RuleBuilder.Rule.Method` | src/Rule.php:62-66 | the methods list becomes exactly the given names; nothing else changes |
| `RuleBuilder.Rule.Methods` | src/Rule.php:73-76 | the same effect as `Method` |
| `RuleBuilder.Rule.SetPath` | src/Rule.php:83-90 | the record becomes `PathSet` of the old one; the included rules stay |
| `RuleBuilder.Rule.GetPath` | src/Rule.php:98-101 | returns the stored path |
| `RuleBuilder.Rule.SetTarget` | src/Rule.php:108-123 | the record becomes `TargetSet` of the old one |
| `RuleBuilder.Rule.Ajax` | src/Rule.php:130-135 | the ajax flag becomes the given boolean |
| `RuleBuilder.Rule.Name` | src/Rule.php:142-147 | the name becomes the given string |
| `RuleBuilder.Rule.Args` | src/Rule.php:154-158 | new args win, and the other existing args are kept |
| `RuleBuilder.Rule.Controller` | src/Rule.php:165-174 | the target becomes `[class, method]` of type controller |
| `RuleBuilder.Rule.Callable` | src/Rule.php:181-187 | the target becomes the invocable, of type callable |
| `RuleBuilder.Rule.View` | src/Rule.php:192-198 | the target becomes the view name, of type view |
| `RuleBuilder.Rule.Combine` | src/Rule.php:221-231 | the rule's tree becomes `Combined` of the old tree under the parent's path |
| `RuleBuilder.Rule.Include` | src/Rule.php:205-214 | the given rules are appended in order, each combined under this rule's path; a non-array leaves the rule as it is |
| `RuleBuilder.Rule.IncludeOne` | src/Rule.php:209 | one included rule is combined under this rule's path and appended |
| `RuleBuilder.Rule.GetProcessedData` | src/Rule.php:238-251 | returns `Processed` of the old tree, and leaves every leaf with its regexp built |
| `RuleBuilder.Rule.BuildRegexp` | src/Rule.php:258-288 | the regexp becomes `%^` + the spliced body + `$%u`, and nothing else changes |
| `RuleBuilder.Rule.Path` | src/Rule.php:295-298 | the new rule allows any method and holds the given path and target |
| `RuleBuilder.Rule.Get` | src/Rule.php:305-308 | the new rule allows exactly GET |
| `RuleBuilder.Rule.Post` | src/Rule.php:315-318 | the new rule allows exactly POST |
| `RuleBuilder.Rule.Put` | src/Rule.php:325-328 | the new rule allows exactly PUT |
| `RuleBuilder.Rule.Patch` | src/Rule.php:335-338 | the new rule allows exactly PATCH |
| `RuleBuilder.Rule.Delete` | src/Rule.php:345-348 | the new rule allows exactly DELETE |
| `Routes.MethodsText` | src/MatchedRoute.php:44-48 | `ANY` for an empty methods list, otherwise the methods joined with commas |
| `Routes.MethodsRoundTrip` | src/MatchedRoute.php:45 | the methods part splits back into the methods list when no method holds a comma |
| `Routes.TargetText` | src/MatchedRoute.php:54 | a target that is not an array renders as `??` |
| `Routes.NameParts` | src/MatchedRoute.php:57-59 | a name part is present exactly when the name is truthy |
| `Routes.Parts` | src/MatchedRoute.php:49-59 | five fixed parts, and a sixth only for a name |
| `Routes.ToString` | src/MatchedRoute.php:38-62 | the rendering is empty exactly when the route holds no rule |
| `Routes.Rendering` | src/MatchedRoute.php:44-61 | methods, quoted path, arrow, upper-cased type, target and `(name)`, separated by single spaces |
| `Routes.TypeLabels` | src/MatchedRoute.php:53 | the type part of each target type, upper-cased |
| `Routing.RequestPath` | src/Manager.php:82 | the matched path has no space or `/` at either end |
| `Routing.PaddedPath` | src/Manager.php:82 | spaces and slashes around the request path do not change the answer of `match` |
| `Routing.VarsOf` | src/Manager.php:62-65 | every key k of args gets the pair `{k}` => args[k] |
| `Routing.VarsAdd` | src/Manager.php:63-64 | one more key adds exactly its pair to the replacement map |
| `Routing.KnownPlaceholder` | src/Manager.php:70 | recognises a `{k}` with k a key of args at the start of a string |
| `Routing.StrtrIsSubstitute` | src/Manager.php:70 | with brace-free keys, `strtr` with those pairs is placeholder substitution from left to right |
| `Routing.SubstituteKnown` | src/Manager.php:70 | a known `{k}` becomes args[k] and the text around it is kept |
| `Routing.SubstituteUnknown` | src/Manager.php:70 | an unknown `{k}` is left literally |
| `Routing.ResolvedMeaning` | src/Manager.php:60-72 | a string target is substituted, an array target element by element with its length kept, and any other target is unchanged |
| `Routing.RouteFor` | src/Manager.php:102-114 | the route's args are the captures over the static args, a capture winning; an object target is unchanged and any other target is resolved |
| `Routing.FirstMatch` | src/Manager.php:87-118 | a match comes from a rule of the table that passes every filter and whose regexp matches |
| `Routing.FirstMatchAt` | src/Manager.php:87-115 | a match comes from the first admitting rule, and no earlier rule admits the request |
| `Routing.FirstMatchOf` | src/Manager.php:87-115 | conversely, the first admitting rule is the one matched |
| `Routing.NoMatch` | src/Manager.php:118 | there is no match exactly when no rule admits the request |
| `Routing.MatchedPassesFilters` | src/Manager.php:88-98 | the matched rule's methods, host and ajax filters pass, and its regexp matches the trimmed path |
| `Routing.FirstMatchAppend` | src/Manager.php:87-115 | rules after the first match are never consulted |
| `Routing.AjaxIgnored` | src/Manager.php:94 | a table without ajax-true rules answers the same whatever the header says |
| `Routing.SameRequest` | src/Manager.php:79-82 | requests that agree on method, headers and trimmed path get the same answer |
| `Routing.Routable` | src/Manager.php:37-44 | the table holds only records of the input without a property, in order |
| `Routing.RoutableMembers` | src/Manager.php:37-44 | a record is in the table exactly when it is an input record without a property |
| `Routing.RoutableAppend` | src/Manager.php:35-46 | the table of two runs of records is the two tables one after the other |
| `Routing.MergedKeys` | src/Manager.php:38-41 | the merged properties have the old keys and those of every record's property |
| `Routing.MergedLaterWins` | src/Manager.php:38-41 | a key takes its value from the last property that holds it |
| `Routing.MergedUntouched` | src/Manager.php:38-41 | a key that no property holds keeps its old value |
| `Routing.Manager.constructor` | src/Manager.php:13-24 | a new manager has an empty table and no properties |
| `Routing.Manager.SetRules` | src/Manager.php:35-46 | the table grows by the routable processed records of every raw rule, in order, and the properties absorb the rest; every raw rule stays consistent, keeps its objects and is left with its regexps built, so the list can be passed again |
| `Routing.Manager.AddRecords` | src/Manager.php:36-45 | the records of one raw rule are appended or merged, in order |
| `Routing.Manager.GetRules` | src/Manager.php:52-55 | returns the table |
| `Routing.Manager.ReplaceVariables` | src/Manager.php:60-72 | builds the pairs one key at a time and returns `Resolved` of the target |
| `Routing.Manager.Match` | src/Manager.php:77-119 | the scan with `continue` and early `return` answers `FirstMatch` of the table; a matched rule never carries a property, since `setRules` keeps those out of the table |
| `Routing.SlugCaptures` | src/Rule.php:258-289 | the rule with path `dir/{slug}` matches exactly `dir/` followed by one segment, and captures it as slug |
| `Routing.RestCaptures` | src/Rule.php:258-289 | the rule with path `dir/{*rest}` matches exactly `dir/` followed by anything, and captures it as rest |
| `Routing.OneSegmentRequest` | src/Manager.php:87-115 | with the slug rule listed first, `GET /dir/v` for one segment v goes to it, with slug = v |
| `Routing.SeveralSegmentsRequest` | src/Manager.php:87-115 | `GET /dir/v` for several segments falls through to the catch-all rule, with rest = v |

## Left out

- Loading rules from a file (`setRules` with a string, which runs `require`) is I/O and is not modelled. `include` with a non-array is modelled only as the no-op it is in the code.
- The PSR request object and `urldecode` are not modelled. A `Request` holds the method, the `Host` and `X-Requested-With` header lines and the already decoded path as plain strings.
- Pcre.PregMatch: only regexp bodies made of plain literal text and the two named groups are modelled. A template holding a regexp metacharacter (`.`, `+`, `(` and so on), which the code does not escape, makes `PregMatch` answer no match instead of running full PCRE. The `u` flag's UTF-8 check is not modelled. PCRE2's limit on the length of a group name (32 code units before version 10.43, 128 from then on) is not modelled: a placeholder with a longer name compiles and matches here, where PHP's `preg_match` fails to compile the regexp and the rule never matches.
- Characters are single units. The byte offsets of `PREG_OFFSET_CAPTURE` and the character offsets of `mb_substr` agree here; multibyte text, where they differ, is not modelled.
- Callable targets are opaque tokens (`Invocable`) that are never inspected. A callable given as a string or an array, which PHP's `is_object` would not treat as an object, is not modelled.
- The `DataContainer` base class of `MatchedRoute` is not part of this model; the matched route is a plain record.
- The attribute classes under src/MethodRoute/ are not modelled.
- The unused `$default_rule` field of `Manager` is not modelled.
- RuleBuilder.Rule.Name: models the intended field write. As written, the `str` type hint names a class that does not exist, so PHP would reject every call.
- RuleBuilder.TargetSet: a null target leaves the record unchanged, where PHP's `controller(null)` raises a TypeError.
- RuleBuilder.Rule.SetTarget: requires a non-empty array, where PHP raises an ArgumentCountError. Arrays with string keys, which PHP spreads as named arguments, are not modelled.
- Routing.Resolved: a null target is passed through unchanged, where `replaceVariables` would raise a TypeError.
- Routing.PassesMethods and Routing.PassesHost compare strings exactly. PHP's loose `in_array` and `!=` also equate different numeric strings (`"10"` and `"1e1"`); that is not modelled.
- RuleBuilder.Rule.Include: rules passed to `include` must not share objects with each other or with the including rule. Including the same rule object twice, which PHP would combine twice, is not modelled.
- Routing.Manager.SetRules: the raw rules must be distinct objects that share nothing. Passing the same `Rule` twice, which PHP processes twice into two equal runs of records, is not modelled.
- Routing.MergedProps: property keys are strings and every key is overwritten by the later array. Integer keys and numeric-string keys such as `"5"`, which `array_merge` renumbers from 0 and appends instead of overwriting, are not modelled; so `Routing.MergedKeys`, `Routing.MergedLaterWins`, `Routing.MergedUntouched` and the properties clauses of `Routing.Manager.SetRules` and `Routing.Manager.AddRecords` hold only for non-numeric keys. No `Rule` setter writes `property`, so such keys cannot come from the builder.
- RuleBuilder.Rule.Args: argument values are modelled as their string form. `args(...$args)` accepts any PHP value; `strtr`'s conversion of integers, booleans and null to text, the `"Array"` conversion with its warning, and the Error for an object without `__toString` are not modelled.
- Routing.ResolvedMeaning: stated only for argument keys without braces. `Resolved` itself models `strtr` for every key.
- Pcre.MatchOneGroup, Pcre.CompiledLiteral, Pcre.CompiledSegment, Pcre.CompiledCatchAll, Routing.SlugCaptures, Routing.RestCaptures, Routing.OneSegmentRequest and Routing.SeveralSegmentsRequest: stated only for request paths without a newline. For a path ending in one newline (`/dir/x` followed by a decoded `%0A`) the code and `PregMatch` both match and capture the text before the newline; no lemma states that case. `PregMatch` itself models `$` accepting one final newline.
- Pcre.CompiledTwoSegmentsNeedBrace and RulePattern.SecondPlaceholderShifted: state the effect of the shifted splice only for two `{name}` placeholders separated by non-empty text. Adjacent placeholders (`{a}{b}`), where the shift swallows the first group's `)` and the regexp does not compile, have no lemma. Templates with two placeholders of other kinds, or with three or more, are modelled by `SpliceAll` but have no lemma.
