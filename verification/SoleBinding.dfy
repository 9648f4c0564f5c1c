/** Reading one string constant of a Python module from its syntax tree, and when every run of the
    module agrees with it, tools/verify_dual_machine_release_readiness.py. */
module SoleBinding {
  import opened Wrappers
  import Paths

  datatype Const = Text(text: string) | OtherConst

  datatype Context = Load | Store | Del

  datatype Alias = Alias(name: string, asname: Option<string>)

  /** The syntax tree, as far as the visitor tells its nodes apart. */
  datatype Node =
    | Name(id: string, context: Context)
    | Constant(value: Const)
    | Assign(targets: seq<Node>, expr: Node)
    | AnnAssign(target: Node, annotation: Node, given: Option<Node>)
    // decorators, defaults and the return annotation; parameter annotations; the body
    | FunctionDef(name: string, evaluated: seq<Node>, annotations: seq<Node>, body: seq<Node>)
    | ClassDef(name: string, evaluated: seq<Node>, body: seq<Node>)
    | Lambda(defaults: seq<Node>, result: Node)
    | Comprehension(own: seq<Node>, parts: seq<Node>)
    | Import(aliases: seq<Alias>)
    | ImportFrom(aliases: seq<Alias>)
    | ExceptHandler(caught: Option<string>, children: seq<Node>)
    | MatchAs(capture: Option<string>, pattern: Option<Node>)
    | MatchStar(capture: Option<string>)
    | MatchMapping(rest: Option<string>, children: seq<Node>)
    | Other(children: seq<Node>)

  function Optional(node: Option<Node>): seq<Node> {
    if node.Some? then [node.value] else []
  }

  /** The children `ModuleAssignmentVisitor` goes on to. */
  function Visited(node: Node): (r: seq<Node>)
    ensures forall i :: 0 <= i < |r| ==> r[i] < node
  {
    match node
    case Assign(targets, expr) => targets + [expr]
    case AnnAssign(target, annotation, given) => [target, annotation] + Optional(given)
    case FunctionDef(_, evaluated, _, _) => evaluated
    case ClassDef(_, evaluated, _) => evaluated
    case Comprehension(own, parts) => own + parts
    case ExceptHandler(_, children) => children
    case MatchAs(_, pattern) => Optional(pattern)
    case MatchMapping(_, children) => children
    case Other(children) => children
    case _ => []
  }

  /** What the visitor goes on to from each kind of node. */
  ghost predicate GoesOnTo(node: Node, child: Node) {
    match node
    case Name(_, _) | Constant(_) | Lambda(_, _) | Import(_) | ImportFrom(_) | MatchStar(_) => false
    case Assign(targets, expr) => child in targets || child == expr
    case AnnAssign(target, annotation, given) => child in {target, annotation} || given == Some(child)
    case FunctionDef(_, evaluated, _, _) => child in evaluated
    case ClassDef(_, evaluated, _) => child in evaluated
    case Comprehension(own, parts) => child in own || child in parts
    case ExceptHandler(_, children) => child in children
    case MatchAs(_, pattern) => pattern == Some(child)
    case MatchMapping(_, children) => child in children
    case Other(children) => child in children
  }

  lemma VisitedExactly(node: Node, child: Node)
    ensures child in Visited(node) <==> GoesOnTo(node, child)
  {
  }

  /** Children that Python evaluates in the module's scope although the visitor passes them by. */
  function PassedBy(node: Node): (r: seq<Node>)
    ensures forall i :: 0 <= i < |r| ==> r[i] < node
  {
    match node
    case FunctionDef(_, _, annotations, _) => annotations
    case Lambda(defaults, _) => defaults
    case _ => []
  }

  /** Children that Python evaluates in the module's scope: not the body of a function, lambda or class, nor
      the variables of a comprehension, which are its own. */
  function Evaluated(node: Node): (r: seq<Node>)
    ensures forall i :: 0 <= i < |r| ==> r[i] < node
  {
    match node
    case Name(_, _) | Constant(_) | Import(_) | ImportFrom(_) | MatchStar(_) => []
    case Assign(targets, expr) => targets + [expr]
    case AnnAssign(target, annotation, None) => [target, annotation]
    case AnnAssign(target, annotation, Some(expr)) => [target, annotation, expr]
    case FunctionDef(_, evaluated, annotations, _) => evaluated + annotations
    case ClassDef(_, evaluated, _) => evaluated
    case Lambda(defaults, _) => defaults
    case Comprehension(_, parts) => parts
    case MatchAs(_, None) => []
    case MatchAs(_, Some(pattern)) => [pattern]
    case ExceptHandler(_, children) => children
    case MatchMapping(_, children) => children
    case Other(children) => children
  }

  /** What runs in the module's scope is either gone on to or passed by, and what is passed by runs there. */
  lemma EvaluatedSources(node: Node)
    ensures forall child :: child in Evaluated(node) ==> child in Visited(node) || child in PassedBy(node)
    ensures forall child :: child in PassedBy(node) ==> child in Evaluated(node)
    ensures !node.Comprehension? ==> forall child :: child in Visited(node) ==> child in Evaluated(node)
  {
  }

  // ---------- the analysis

  function AliasSites(bound: Alias -> string, aliases: seq<Alias>, name: string, path: seq<nat>): seq<seq<nat>> {
    if aliases == [] then []
    else
      AliasSites(bound, aliases[..|aliases| - 1], name, path) +
      (if bound(aliases[|aliases| - 1]) == name then [path + [|aliases| - 1]] else [])
  }

  function ImportBinds(a: Alias): string {
    if a.asname.Some? then a.asname.value else Paths.Split(a.name, '.')[0]
  }

  function ImportFromBinds(a: Alias): string {
    if a.asname.Some? then a.asname.value else a.name
  }

  /** The addresses the visitor notes at the node itself. */
  function OwnSites(node: Node, name: string, path: seq<nat>): seq<seq<nat>> {
    var here := [path];
    match node
    case Name(id, context) => if id == name && context != Load then here else []
    case FunctionDef(n, _, _, _) => if n == name then here else []
    case ClassDef(n, _, _) => if n == name then here else []
    case Import(aliases) => AliasSites(ImportBinds, aliases, name, path)
    case ImportFrom(aliases) => AliasSites(ImportFromBinds, aliases, name, path)
    case ExceptHandler(caught, _) => if caught == Some(name) then here else []
    case MatchAs(capture, _) => if capture == Some(name) then here else []
    case MatchStar(capture) => if capture == Some(name) then here else []
    case MatchMapping(rest, _) => if rest == Some(name) then here else []
    case _ => []
  }

  /** `ModuleAssignmentVisitor().visit`: the addresses of the bindings below a node, in its order. */
  function Sites(node: Node, name: string, path: seq<nat>): seq<seq<nat>>
    decreases node, |Visited(node)| + 1
  {
    OwnSites(node, name, path) + ChildSites(node, name, path, |Visited(node)|)
  }

  function ChildSites(node: Node, name: string, path: seq<nat>, n: nat): seq<seq<nat>>
    requires n <= |Visited(node)|
    decreases node, n
  {
    if n == 0 then []
    else ChildSites(node, name, path, n - 1) + Sites(Visited(node)[n - 1], name, path + [n - 1])
  }

  function Bindings(body: seq<Node>, name: string): seq<seq<nat>> {
    if body == [] then []
    else Bindings(body[..|body| - 1], name) + Sites(body[|body| - 1], name, [|body| - 1])
  }

  predicate IsName(node: Node, name: string) {
    node.Name? && node.id == name
  }

  /** An assignment statement with the name as its only target. */
  predicate Assigns(node: Node, name: string) {
    || (node.Assign? && |node.targets| == 1 && IsName(node.targets[0], name))
    || (node.AnnAssign? && IsName(node.target, name))
  }

  function AssignedText(node: Node, name: string): Option<string>
    requires Assigns(node, name)
  {
    var given := if node.Assign? then Some(node.expr) else node.given;
    if given.Some? && given.value.Constant? && given.value.value.Text? then Some(given.value.value.text) else None
  }

  /** `NAME = "s"` and `NAME: annotation = "s"`. */
  ghost predicate Stores(node: Node, name: string, s: string) {
    || (exists context :: node == Assign([Name(name, context)], Constant(Text(s))))
    || (exists context, note :: node == AnnAssign(Name(name, context), note, Some(Constant(Text(s)))))
  }

  lemma StoresExactly(node: Node, name: string, s: string)
    ensures Stores(node, name, s) <==> Assigns(node, name) && AssignedText(node, name) == Some(s)
  {
    if Assigns(node, name) && AssignedText(node, name) == Some(s) {
      if node.Assign? {
        assert node.targets == [Name(name, node.targets[0].context)];
        assert node == Assign([Name(name, node.targets[0].context)], Constant(Text(s)));
      } else {
        assert node == AnnAssign(Name(name, node.target.context), node.annotation, Some(Constant(Text(s))));
      }
    }
  }

  /** A parsed tree marks assignment targets as stored. */
  ghost predicate TargetsStored(body: seq<Node>, name: string) {
    forall i :: 0 <= i < |body| && Assigns(body[i], name) ==> Visited(body[i])[0].context == Store
  }

  /** Statement `i` assigns text `s`, and the visitor notes no binding but its target. */
  ghost predicate SoleAssignment(body: seq<Node>, name: string, i: int, s: string) {
    && 0 <= i < |body|
    && Assigns(body[i], name) && AssignedText(body[i], name) == Some(s)
    && Bindings(body, name) == [[i, 0]]
  }

  lemma {:induction false} ChildSiteNoted(node: Node, name: string, path: seq<nat>, n: nat, k: nat, site: seq<nat>)
    requires k < n <= |Visited(node)| && site in Sites(Visited(node)[k], name, path + [k])
    ensures site in ChildSites(node, name, path, n)
  {
    hide Sites, Visited;
    if k < n - 1 { ChildSiteNoted(node, name, path, n - 1, k, site); }
  }

  lemma TargetNoted(node: Node, name: string, i: nat)
    requires Assigns(node, name) && Visited(node)[0].context == Store
    ensures [i, 0] in Sites(node, name, [i])
  {
    assert [i] + [0] == [i, 0];
    assert OwnSites(Visited(node)[0], name, [i, 0]) == [[i, 0]];
    ChildSiteNoted(node, name, [i], |Visited(node)|, 0, [i, 0]);
  }

  lemma {:induction false} BindingNoted(body: seq<Node>, name: string, i: nat, site: seq<nat>)
    requires i < |body| && site in Sites(body[i], name, [i])
    ensures site in Bindings(body, name)
  {
    if i < |body| - 1 { BindingNoted(body[..|body| - 1], name, i, site); }
  }

  /** `_python_top_level_string_assignment` on the parsed module. */
  method TopLevelStringAssignment(body: seq<Node>, name: string) returns (r: Option<string>)
    requires TargetsStored(body, name)
    ensures forall s :: r == Some(s) <==> exists i :: SoleAssignment(body, name, i, s)
  {
    var assignment: Option<nat> := None;
    for n := 0 to |body|
      invariant assignment.Some? ==> assignment.value < n && Assigns(body[assignment.value], name)
      invariant forall i :: 0 <= i < n && Assigns(body[i], name) ==> assignment == Some(i)
    {
      if Assigns(body[n], name) {
        if assignment.Some? {
          TwoTargets(body, name, assignment.value, n);
          return None;
        }
        assignment := Some(n);
      }
    }
    if assignment.None? { return None; }
    var at := assignment.value;
    if AssignedText(body[at], name).None? { return None; }
    var bindings := Bindings(body, name);
    if |bindings| != 1 || bindings[0] != [at, 0] { return None; }
    r := AssignedText(body[at], name);
    assert SoleAssignment(body, name, at, r.value);
  }

  lemma TwoTargets(body: seq<Node>, name: string, i: nat, j: nat)
    requires TargetsStored(body, name) && i < j < |body| && Assigns(body[i], name) && Assigns(body[j], name)
    ensures forall k, s :: !SoleAssignment(body, name, k, s)
  {
    TargetNoted(body[i], name, i);
    TargetNoted(body[j], name, j);
    BindingNoted(body, name, i, [i, 0]);
    BindingNoted(body, name, j, [j, 0]);
    assert [i, 0][0] != [j, 0][0];
  }

  // ---------- running a module

  /** What the name stands for. */
  datatype Value = Unbound | Bound(value: Const)

  predicate ImportsAll(node: Node) {
    node.ImportFrom? && exists i | 0 <= i < |node.aliases| ::
      node.aliases[i].name == "*" && node.aliases[i].asname.None?
  }

  /** The name an alias binds in `import a.b`: the one behind `as`, else what stands before the first dot. */
  ghost predicate ImportedAs(a: Alias, name: string) {
    if a.asname.Some? then a.asname.value == name
    else '.' !in name && (a.name == name || name + "." <= a.name)
  }

  /** Whether executing the node itself, apart from its children, may bind or unbind the name. */
  ghost predicate Binds(node: Node, name: string) {
    match node
    case Name(id, context) => id == name && (context == Store || context == Del)
    case FunctionDef(own, _, _, _) => own == name
    case ClassDef(own, _, _) => own == name
    case Import(aliases) => exists i :: 0 <= i < |aliases| && ImportedAs(aliases[i], name)
    case ImportFrom(aliases) =>
      exists i :: 0 <= i < |aliases|
               && aliases[i] in {Alias(name, None), Alias(aliases[i].name, Some(name)), Alias("*", None)}
    case ExceptHandler(caught, _) => caught == Some(name)
    case MatchAs(capture, _) => capture == Some(name)
    case MatchStar(capture) => capture == Some(name)
    case MatchMapping(rest, _) => rest == Some(name)
    case Assign(_, _) | AnnAssign(_, _, _) | Lambda(_, _) | Comprehension(_, _) | Constant(_) | Other(_) => false
  }

  lemma FirstPart(text: string, name: string)
    ensures Paths.Split(text, '.')[0] == name <==> '.' !in name && (text == name || name + "." <= text)
  {
    hide Paths.Split;
    var parts := Paths.Split(text, '.');
    var head := parts[0];
    Paths.SplitExactly(text, '.', parts);
    assert Paths.LiesAt(text, '.', parts, 0);
    if |parts| > 1 {
      assert Paths.LiesAt(text, '.', parts, 1) && Paths.PlaceOf(parts, 1) == |head| + 1;
      assert text[..|head| + 1] == head + ".";
    } else {
      assert text == head;
    }
    if '.' !in name && (text == name || name + "." <= text) {
      FirstDot(text, head, name);
    }
  }

  /** What stands before the first dot is one text. */
  lemma FirstDot(text: string, a: string, b: string)
    requires '.' !in a && (text == a || a + "." <= text)
    requires '.' !in b && (text == b || b + "." <= text)
    ensures a == b
  {
    assert a == text[..|a|] && b == text[..|b|];
    assert |a| < |text| ==> text[|a|] == (a + ".")[|a|] == '.';
    assert |b| < |text| ==> text[|b|] == (b + ".")[|b|] == '.';
    assert forall i | 0 <= i < |a| :: a[i] != '.' && text[i] == a[i];
    assert forall i | 0 <= i < |b| :: b[i] != '.' && text[i] == b[i];
    assert |a| == |b|;
  }

  lemma {:induction false} AliasesNoted(bound: Alias -> string, aliases: seq<Alias>, name: string, path: seq<nat>)
    ensures AliasSites(bound, aliases, name, path) != [] <==>
      exists i :: 0 <= i < |aliases| && bound(aliases[i]) == name
  {
    if aliases != [] {
      var last := |aliases| - 1;
      AliasesNoted(bound, aliases[..last], name, path);
      if i :| 0 <= i < last && bound(aliases[..last][i]) == name { assert bound(aliases[i]) == name; }
      if i :| 0 <= i < |aliases| && bound(aliases[i]) == name {
        if i < last { assert bound(aliases[..last][i]) == name; }
      }
    }
  }

  /** The visitor notes at a node what binds there, save the import of every name. */
  lemma OwnExactly(node: Node, name: string, path: seq<nat>)
    ensures Binds(node, name) <==> OwnSites(node, name, path) != [] || ImportsAll(node)
  {
    hide AliasSites, ImportBinds, ImportFromBinds;
    match node
    case Import(aliases) => ImportsExactly(aliases, name, path);
    case ImportFrom(aliases) => FromsExactly(aliases, name, path);
    case _ =>
  }

  lemma ImportsExactly(aliases: seq<Alias>, name: string, path: seq<nat>)
    ensures AliasSites(ImportBinds, aliases, name, path) != [] <==>
      exists i :: 0 <= i < |aliases| && ImportedAs(aliases[i], name)
  {
    AliasesNoted(ImportBinds, aliases, name, path);
    forall i | 0 <= i < |aliases| ensures ImportBinds(aliases[i]) == name <==> ImportedAs(aliases[i], name) {
      FirstPart(aliases[i].name, name);
    }
  }

  lemma FromsExactly(aliases: seq<Alias>, name: string, path: seq<nat>)
    ensures AliasSites(ImportFromBinds, aliases, name, path) != [] || ImportsAll(ImportFrom(aliases)) <==>
      Binds(ImportFrom(aliases), name)
  {
    AliasesNoted(ImportFromBinds, aliases, name, path);
    hide AliasSites;
    forall i | 0 <= i < |aliases|
      ensures aliases[i] in {Alias(name, None), Alias(aliases[i].name, Some(name)), Alias("*", None)} <==>
        ImportFromBinds(aliases[i]) == name || (aliases[i].name == "*" && aliases[i].asname.None?)
    {
    }
  }

  /** Executing a node may take the name from `before` to `after`. A node that binds may do anything
      to it; any other evaluates its children in any order and number, which covers branches,
      loops, short circuits and handlers. */
  ghost predicate Steps(node: Node, name: string, before: Value, after: Value)
    decreases node, 2
  {
    Binds(node, name) ||
    exists trail: seq<Value> :: Trail(node, name, trail) && trail[0] == before && trail[|trail| - 1] == after
  }

  ghost predicate Trail(node: Node, name: string, trail: seq<Value>)
    decreases node, 1
  {
    trail != [] && forall i :: 0 < i < |trail| ==> ChildSteps(node, name, trail[i - 1], trail[i])
  }

  ghost predicate ChildSteps(node: Node, name: string, before: Value, after: Value)
    decreases node, 0
  {
    exists k | 0 <= k < |Evaluated(node)| :: Steps(Evaluated(node)[k], name, before, after)
  }

  /** Executing a statement of the module: a plain assignment stores its constant, and an annotation
      is evaluated behind it. */
  ghost predicate Executes(node: Node, name: string, before: Value, after: Value) {
    if Assigns(node, name) && node.Assign? && node.expr.Constant? then after == Bound(node.expr.value)
    else if Assigns(node, name) && node.AnnAssign? && node.given.Some? && node.given.value.Constant? then
      Steps(node.annotation, name, Bound(node.given.value.value), after)
    else Steps(node, name, before, after)
  }

  /** The first `n` statements may take the name from `start` to `end`. */
  ghost predicate Runs(body: seq<Node>, name: string, n: nat, start: Value, end: Value)
    requires n <= |body|
  {
    if n == 0 then start == end
    else
      var last := n - 1;
      exists middle :: Runs(body, name, last, start, middle) && Executes(body[last], name, middle, end)
  }

  // ---------- what the visitor misses

  ghost predicate MayBind(node: Node, name: string) {
    Binds(node, name) || exists k | 0 <= k < |Evaluated(node)| :: MayBind(Evaluated(node)[k], name)
  }

  /** A binding in a parameter annotation or the default of a lambda, or an import of every name. */
  ghost predicate Hides(node: Node, name: string) {
    || ImportsAll(node)
    || (exists k | 0 <= k < |PassedBy(node)| :: MayBind(PassedBy(node)[k], name))
    || (exists k | 0 <= k < |Evaluated(node)| :: Hides(Evaluated(node)[k], name))
  }

  /** Where the visitor notes nothing, only what it passes by can bind. */
  lemma {:induction false} UnnotedIsHidden(node: Node, name: string, path: seq<nat>)
    requires Sites(node, name, path) == [] && MayBind(node, name)
    ensures Hides(node, name)
    decreases node
  {
    hide Sites, Visited, PassedBy, Evaluated, OwnSites, ImportsAll, Binds;
    OwnUnnoted(node, name, path);
    if !ImportsAll(node) {
      var k :| 0 <= k < |Evaluated(node)| && MayBind(Evaluated(node)[k], name);
      var child := Evaluated(node)[k];
      EvaluatedSources(node);
      if child in PassedBy(node) {
        var j :| 0 <= j < |PassedBy(node)| && PassedBy(node)[j] == child;
      } else {
        var j :| 0 <= j < |Visited(node)| && Visited(node)[j] == child;
        ChildUnnoted(node, name, path, j);
        UnnotedIsHidden(child, name, path + [j]);
      }
    }
  }

  lemma OwnUnnoted(node: Node, name: string, path: seq<nat>)
    requires Sites(node, name, path) == []
    ensures Binds(node, name) ==> ImportsAll(node)
  {
    hide OwnSites, Binds, ImportsAll;
    OwnExactly(node, name, path);
  }

  lemma ChildUnnoted(node: Node, name: string, path: seq<nat>, j: nat)
    requires j < |Visited(node)| && Sites(node, name, path) == []
    ensures Sites(Visited(node)[j], name, path + [j]) == []
  {
    var below := Sites(Visited(node)[j], name, path + [j]);
    if below != [] {
      ChildSiteNoted(node, name, path, |Visited(node)|, j, below[0]);
    }
  }

  /** A node that cannot bind leaves the name alone. */
  lemma {:induction false} HarmlessStep(node: Node, name: string, before: Value, after: Value)
    requires !MayBind(node, name) && Steps(node, name, before, after)
    ensures before == after
    decreases node, 1, 0
  {
    var trail :| Trail(node, name, trail) && trail[0] == before && trail[|trail| - 1] == after;
    HarmlessTrail(node, name, trail, |trail| - 1);
  }

  lemma {:induction false} HarmlessTrail(node: Node, name: string, trail: seq<Value>, n: nat)
    requires !MayBind(node, name) && Trail(node, name, trail) && n < |trail|
    ensures trail[n] == trail[0]
    decreases node, 0, n
  {
    if n > 0 {
      HarmlessTrail(node, name, trail, n - 1);
      assert ChildSteps(node, name, trail[n - 1], trail[n]);
      var k :| 0 <= k < |Evaluated(node)| && Steps(Evaluated(node)[k], name, trail[n - 1], trail[n]);
      HarmlessStep(Evaluated(node)[k], name, trail[n - 1], trail[n]);
    }
  }

  /** A node that may bind may leave the name at anything. */
  lemma {:induction false} BindingStep(node: Node, name: string, before: Value, after: Value)
    requires MayBind(node, name)
    ensures Steps(node, name, before, after)
    decreases node
  {
    if !Binds(node, name) {
      var k :| 0 <= k < |Evaluated(node)| && MayBind(Evaluated(node)[k], name);
      BindingStep(Evaluated(node)[k], name, before, after);
      var trail := [before, after];
      assert ChildSteps(node, name, before, after);
      assert Trail(node, name, trail);
    }
  }

  lemma IdleStep(node: Node, name: string, value: Value)
    ensures Steps(node, name, value, value)
  {
    var trail := [value];
    assert Trail(node, name, trail);
  }

  lemma {:induction false} HiddenMayBind(node: Node, name: string)
    requires Hides(node, name)
    ensures MayBind(node, name)
    decreases node
  {
    if !ImportsAll(node) {
      if k :| 0 <= k < |PassedBy(node)| && MayBind(PassedBy(node)[k], name) {
        assert Evaluated(node)[|Visited(node)| + k] == PassedBy(node)[k];
      } else {
        var k :| 0 <= k < |Evaluated(node)| && Hides(Evaluated(node)[k], name);
        HiddenMayBind(Evaluated(node)[k], name);
      }
    }
  }

  // ---------- when the constant can be relied on

  lemma {:induction false} AliasSitesBelow(bound: Alias -> string, aliases: seq<Alias>, name: string, path: seq<nat>,
                                           site: seq<nat>)
    requires site in AliasSites(bound, aliases, name, path)
    ensures path <= site
  {
    if site in AliasSites(bound, aliases[..|aliases| - 1], name, path) {
      AliasSitesBelow(bound, aliases[..|aliases| - 1], name, path, site);
    }
  }

  lemma {:induction false} SitesBelow(node: Node, name: string, path: seq<nat>, site: seq<nat>)
    requires site in Sites(node, name, path)
    ensures path <= site
    decreases node, |Visited(node)| + 1
  {
    if site in OwnSites(node, name, path) {
      if node.Import? { AliasSitesBelow(ImportBinds, node.aliases, name, path, site); }
      if node.ImportFrom? { AliasSitesBelow(ImportFromBinds, node.aliases, name, path, site); }
    } else {
      ChildSitesBelow(node, name, path, |Visited(node)|, site);
    }
  }

  lemma {:induction false} ChildSitesBelow(node: Node, name: string, path: seq<nat>, n: nat, site: seq<nat>)
    requires n <= |Visited(node)| && site in ChildSites(node, name, path, n)
    ensures path <= site
    decreases node, n
  {
    if site in ChildSites(node, name, path, n - 1) {
      ChildSitesBelow(node, name, path, n - 1, site);
    } else {
      SitesBelow(Visited(node)[n - 1], name, path + [n - 1], site);
    }
  }

  /** Every other statement is free of noted bindings, and so is the annotation of the assignment. */
  lemma OthersUnnoted(body: seq<Node>, name: string, i: nat, s: string, j: nat)
    requires SoleAssignment(body, name, i, s) && j < |body|
    ensures j != i ==> Sites(body[j], name, [j]) == []
    ensures body[i].AnnAssign? ==> Sites(body[i].annotation, name, [i, 1]) == []
  {
    hide Sites, Bindings, ChildSites, Assigns, AssignedText;
    assert [j][0] == [i, 0][0] <==> j == i;
    if j != i && Sites(body[j], name, [j]) != [] {
      var site := Sites(body[j], name, [j])[0];
      SitesBelow(body[j], name, [j], site);
      BindingNoted(body, name, j, site);
    }
    if body[i].AnnAssign? { AnnotationUnnoted(body, name, i); }
  }

  lemma AnnotationUnnoted(body: seq<Node>, name: string, i: nat)
    requires i < |body| && body[i].AnnAssign? && Bindings(body, name) == [[i, 0]]
    ensures Sites(body[i].annotation, name, [i, 1]) == []
  {
    hide Bindings, ChildSites;
    var sites := Sites(body[i].annotation, name, [i, 1]);
    assert [i, 1][1] != [i, 0][1];
    if sites != [] {
      AnnotationNoted(body[i], name, i, sites[0]);
      BindingNoted(body, name, i, sites[0]);
    }
  }

  lemma AnnotationNoted(node: Node, name: string, i: nat, site: seq<nat>)
    requires node.AnnAssign? && site in Sites(node.annotation, name, [i, 1])
    ensures [i, 1] <= site && site in Sites(node, name, [i])
  {
    hide ChildSites;
    assert [i] + [1] == [i, 1];
    SitesBelow(node.annotation, name, [i, 1], site);
    ChildSiteNoted(node, name, [i], |Visited(node)|, 1, site);
  }

  lemma SoleText(body: seq<Node>, name: string, i: int, s: string)
    requires SoleAssignment(body, name, i, s)
    ensures Assigns(body[i], name)
    ensures body[i].Assign? ==> body[i].expr == Constant(Text(s))
    ensures body[i].AnnAssign? ==> body[i].given == Some(Constant(Text(s)))
  {
  }

  lemma NotAnother(body: seq<Node>, name: string, i: nat, s: string, j: nat)
    requires TargetsStored(body, name) && SoleAssignment(body, name, i, s) && i < j < |body|
    ensures !Assigns(body[j], name)
  {
    OthersUnnoted(body, name, i, s, j);
    if Assigns(body[j], name) { TargetNoted(body[j], name, j); }
  }

  /** What can spoil the constant: a hidden binding in the assignment's own annotation or behind it. */
  ghost predicate HiddenAfter(body: seq<Node>, name: string, i: nat)
    requires i < |body|
  {
    || (body[i].AnnAssign? && Hides(body[i].annotation, name))
    || exists j :: i < j < |body| && Hides(body[j], name)
  }

  lemma {:induction false} StaysBound(body: seq<Node>, name: string, i: nat, s: string, n: nat, start: Value,
                                      end: Value)
    requires TargetsStored(body, name) && SoleAssignment(body, name, i, s) && !HiddenAfter(body, name, i)
    requires i < n <= |body| && Runs(body, name, n, start, end)
    ensures end == Bound(Text(s))
  {
    hide Sites, Hides, MayBind, Bindings, Steps, AssignedText;
    SoleText(body, name, i, s);
    var middle :| Runs(body, name, n - 1, start, middle) && Executes(body[n - 1], name, middle, end);
    OthersUnnoted(body, name, i, s, n - 1);
    if n - 1 == i {
      if body[i].AnnAssign? {
        if MayBind(body[i].annotation, name) { UnnotedIsHidden(body[i].annotation, name, [i, 1]); }
        HarmlessStep(body[i].annotation, name, Bound(Text(s)), end);
      }
    } else {
      StaysBound(body, name, i, s, n - 1, start, middle);
      NotAnother(body, name, i, s, n - 1);
      if MayBind(body[n - 1], name) { UnnotedIsHidden(body[n - 1], name, [n - 1]); }
      HarmlessStep(body[n - 1], name, middle, end);
    }
  }

  lemma SomeStep(node: Node, name: string, before: Value) returns (after: Value)
    ensures Executes(node, name, before, after)
  {
    if Assigns(node, name) && node.Assign? && node.expr.Constant? {
      after := Bound(node.expr.value);
    } else if Assigns(node, name) && node.AnnAssign? && node.given.Some? && node.given.value.Constant? {
      after := Bound(node.given.value.value);
      IdleStep(node.annotation, name, after);
    } else {
      after := before;
      IdleStep(node, name, before);
    }
  }

  /** One more statement. */
  lemma RunsOn(body: seq<Node>, name: string, n: nat, start: Value, middle: Value, end: Value)
    requires n < |body| && Runs(body, name, n, start, middle) && Executes(body[n], name, middle, end)
    ensures Runs(body, name, n + 1, start, end)
  {
    hide Executes;
    var m := n + 1;
    var last := m - 1;
    assert Runs(body, name, last, start, middle) && Executes(body[last], name, middle, end);
  }

  lemma {:induction false} SomeRun(body: seq<Node>, name: string, n: nat, start: Value) returns (end: Value)
    requires n <= |body|
    ensures Runs(body, name, n, start, end)
  {
    if n == 0 {
      end := start;
    } else {
      var middle := SomeRun(body, name, n - 1, start);
      end := SomeStep(body[n - 1], name, middle);
      RunsOn(body, name, n - 1, start, middle, end);
    }
  }

  lemma {:induction false} CarriesOn(body: seq<Node>, name: string, i: nat, s: string, n: nat, m: nat, start: Value,
                                     value: Value)
    requires TargetsStored(body, name) && SoleAssignment(body, name, i, s)
    requires i < n <= m <= |body| && Runs(body, name, n, start, value)
    ensures Runs(body, name, m, start, value)
  {
    hide Sites, SoleAssignment, TargetsStored, Steps, Runs;
    if n < m {
      CarriesOn(body, name, i, s, n, m - 1, start, value);
      NotAnother(body, name, i, s, m - 1);
      IdleStep(body[m - 1], name, value);
      RunsOn(body, name, m - 1, start, value, value);
    }
  }

  /** A hidden binding can leave the name at any value. */
  lemma SpoiledRun(body: seq<Node>, name: string, i: nat, s: string, start: Value, value: Value)
    requires TargetsStored(body, name) && SoleAssignment(body, name, i, s) && HiddenAfter(body, name, i)
    ensures Runs(body, name, |body|, start, value)
  {
    hide Sites, Hides, MayBind, Bindings, Steps, AssignedText, TargetsStored, Runs;
    SoleText(body, name, i, s);
    if body[i].AnnAssign? && Hides(body[i].annotation, name) {
      var middle := SomeRun(body, name, i, start);
      HiddenMayBind(body[i].annotation, name);
      BindingStep(body[i].annotation, name, Bound(Text(s)), value);
      RunsOn(body, name, i, start, middle, value);
      CarriesOn(body, name, i, s, i + 1, |body|, start, value);
    } else {
      var j :| i < j < |body| && Hides(body[j], name);
      var middle := SomeRun(body, name, j, start);
      HiddenMayBind(body[j], name);
      BindingStep(body[j], name, middle, value);
      NotAnother(body, name, i, s, j);
      RunsOn(body, name, j, start, middle, value);
      CarriesOn(body, name, i, s, j + 1, |body|, start, value);
    }
  }

  /** The constant read is what every completed run leaves, exactly when nothing the visitor passes
      by binds the name from the assignment on. */
  lemma ReliableExactly(body: seq<Node>, name: string, i: nat, s: string, start: Value)
    requires TargetsStored(body, name) && SoleAssignment(body, name, i, s)
    ensures (forall end :: Runs(body, name, |body|, start, end) ==> end == Bound(Text(s)))
      <==> !HiddenAfter(body, name, i)
  {
    hide Assigns, AssignedText, Bindings, TargetsStored, Runs, HiddenAfter;
    if HiddenAfter(body, name, i) {
      SpoiledRun(body, name, i, s, start, Unbound);
    } else {
      forall end | Runs(body, name, |body|, start, end) ensures end == Bound(Text(s)) {
        StaysBound(body, name, i, s, |body|, start, end);
      }
    }
  }

  // ---------- the three ways past the visitor

  function Rebinding(): Node {
    Other([Name("K", Store), Constant(OtherConst)])
  }

  /** `K = "v"` followed by one more statement. */
  function Module(more: Node): seq<Node> {
    [Assign([Name("K", Store)], Constant(Text("v"))), more]
  }

  /** `def f(x: (K := 0)): ...`, `lambda x=(K := 0): x` and `from m import *` each rebind the name
      behind an accepted assignment. */
  lemma RebindingsUnseen(more: Node, end: Value)
    requires more == FunctionDef("f", [], [Rebinding()], []) || more == Other([Lambda([Rebinding()], Name("x", Load))])
             || more == ImportFrom([Alias("*", None)])
    ensures TargetsStored(Module(more), "K") && SoleAssignment(Module(more), "K", 0, "v")
    ensures Runs(Module(more), "K", 2, Unbound, end)
  {
    hide Sites, ChildSites, Rebinding, Hides, Runs;
    var body := Module(more);
    NoSites(more);
    TargetOnly(body[0]);
    TwoStatements(body);
    HiddenThere(more);
    assert body[1] == more && Hides(body[1], "K");
    assert HiddenAfter(body, "K", 0);
    SpoiledRun(body, "K", 0, "v", Unbound, end);
  }

  lemma TwoStatements(body: seq<Node>)
    requires |body| == 2
    ensures Bindings(body, "K") == Sites(body[0], "K", [0]) + Sites(body[1], "K", [1])
  {
    hide Sites;
    var first := body[..1];
    assert first[..0] == [] && first == [body[0]];
    assert Bindings([], "K") == [];
    assert Bindings(first, "K") == Sites(body[0], "K", [0]);
  }

  lemma TargetOnly(node: Node)
    requires node == Assign([Name("K", Store)], Constant(Text("v")))
    ensures Sites(node, "K", [0]) == [[0, 0]]
  {
    assert Visited(node) == [Name("K", Store), Constant(Text("v"))];
    assert [0] + [0] == [0, 0];
    assert Sites(Visited(node)[0], "K", [0, 0]) == [[0, 0]];
    assert Sites(Visited(node)[1], "K", [0] + [1]) == [];
    assert ChildSites(node, "K", [0], 0) == [];
    assert ChildSites(node, "K", [0], 1) == [[0, 0]];
    assert ChildSites(node, "K", [0], 2) == [[0, 0]];
  }

  lemma NoSites(more: Node)
    requires more == FunctionDef("f", [], [Rebinding()], []) || more == Other([Lambda([Rebinding()], Name("x", Load))])
             || more == ImportFrom([Alias("*", None)])
    ensures Sites(more, "K", [1]) == []
  {
    if more.Other? {
      var child := Visited(more)[0];
      assert Sites(child, "K", [1] + [0]) == [];
      assert ChildSites(more, "K", [1], 0) == [];
      assert ChildSites(more, "K", [1], 1) == [];
    }
  }

  lemma RebindingBinds()
    ensures MayBind(Rebinding(), "K")
  {
    assert Evaluated(Rebinding())[0] == Name("K", Store);
    assert Binds(Name("K", Store), "K");
  }

  lemma HiddenThere(more: Node)
    requires more == FunctionDef("f", [], [Rebinding()], []) || more == Other([Lambda([Rebinding()], Name("x", Load))])
             || more == ImportFrom([Alias("*", None)])
    ensures Hides(more, "K")
  {
    hide Hides, MayBind, Rebinding;
    RebindingBinds();
    if more.FunctionDef? {
      assert PassedBy(more)[0] == Rebinding();
      HidesAt(more, "K", 0);
    } else if more.Other? {
      var child := Evaluated(more)[0];
      assert PassedBy(child)[0] == Rebinding();
      HidesAt(child, "K", 0);
      HidesBelow(more, "K", 0);
    } else {
      assert more.aliases[0].name == "*";
      StarHides(more, "K");
    }
  }

  lemma HidesAt(node: Node, name: string, k: nat)
    requires k < |PassedBy(node)| && MayBind(PassedBy(node)[k], name)
    ensures Hides(node, name)
  {
    hide MayBind, PassedBy, Evaluated, ImportsAll;
  }

  lemma HidesBelow(node: Node, name: string, k: nat)
    requires k < |Evaluated(node)| && Hides(Evaluated(node)[k], name)
    ensures Hides(node, name)
  {
    hide MayBind, PassedBy, Evaluated, ImportsAll;
  }

  lemma StarHides(node: Node, name: string)
    requires ImportsAll(node)
    ensures Hides(node, name)
  {
    hide MayBind, PassedBy, Evaluated, ImportsAll;
  }
}
