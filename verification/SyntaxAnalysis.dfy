/**
  Two analyses of one Python syntax tree: the breadth-first `analyze_exception_usage` of
  src/infra/migration_tools.py and the recursive `ResultMigrationAnalyzer` of
  scripts/migrate_to_result.py.
*/
module SyntaxAnalysis {
  import opened Selections
  import opened Wrappers

  /** The node classes the analyses tell apart; a handler carries the class names it lists. */
  datatype Kind =
    | Try(hasFinally: bool)
    | ExceptHandler(names: seq<string>)
    | Raise
    | FunctionDef(name: string)
    | AsyncFunctionDef(name: string)
    | Import(modules: seq<string>)
    | ImportFrom(parent: Option<string>, aliases: seq<string>)
    | Call
    | Name(ident: string)
    | Other

  /** `id` is the identity of the node object; children come in iter_child_nodes order. */
  datatype Node = Node(id: nat, kind: Kind, children: seq<Node>)

  function Preorder(n: Node): seq<Node>
    decreases n, 1
  {
    [n] + PreorderAll(n.children)
  }

  function PreorderAll(ns: seq<Node>): seq<Node>
    decreases ns, 0
  {
    if ns == [] then [] else Preorder(ns[0]) + PreorderAll(ns[1..])
  }

  lemma {:induction false} PreorderAllConcat(a: seq<Node>, b: seq<Node>)
    ensures PreorderAll(a + b) == PreorderAll(a) + PreorderAll(b)
  {
    if a == [] {
      assert a + b == b;
    } else {
      assert (a + b)[1..] == a[1..] + b;
      PreorderAllConcat(a[1..], b);
    }
  }

  // ---------------------------------------------------------------- ast.walk

  lemma FrontReplaced(queue: seq<Node>)
    requires queue != []
    ensures |PreorderAll(queue[1..] + queue[0].children)| + 1 == |PreorderAll(queue)|
  {
    PreorderAllConcat(queue[1..], queue[0].children);
    assert Preorder(queue[0]) == [queue[0]] + PreorderAll(queue[0].children);
  }

  /** The nodes ast.walk yields from a queue: the front, then the rest with the front's children behind. */
  function Walk(queue: seq<Node>): seq<Node>
    decreases |PreorderAll(queue)|
  {
    if queue == [] then []
    else
      FrontReplaced(queue);
      [queue[0]] + Walk(queue[1..] + queue[0].children)
  }

  method AstWalk(root: Node) returns (nodes: seq<Node>)
    ensures nodes == Walk([root])
  {
    var todo := [root];
    nodes := [];
    while todo != []
      invariant nodes + Walk(todo) == Walk([root])
      decreases |PreorderAll(todo)|
    {
      var node := todo[0];
      FrontReplaced(todo);
      assert nodes + [node] + Walk(todo[1..] + node.children) == nodes + Walk(todo);
      todo := todo[1..] + node.children;
      nodes := nodes + [node];
    }
  }

  /** Breadth-first and depth-first list the same nodes, each as often. */
  lemma {:induction false} WalkIsPermutation(queue: seq<Node>)
    ensures multiset(Walk(queue)) == multiset(PreorderAll(queue))
    decreases |PreorderAll(queue)|
  {
    if queue != [] {
      var front, rest := queue[0], queue[1..];
      FrontReplaced(queue);
      PreorderAllConcat(rest, front.children);
      WalkIsPermutation(rest + front.children);
      assert PreorderAll(queue) == [front] + PreorderAll(front.children) + PreorderAll(rest);
    }
  }

  lemma WalkOfRoot(root: Node)
    ensures multiset(Walk([root])) == multiset(Preorder(root))
    ensures forall n :: n in Walk([root]) <==> n in Preorder(root)
  {
    WalkIsPermutation([root]);
    assert PreorderAll([root]) == Preorder(root) + PreorderAll([]) == Preorder(root);
    assert forall n :: n in Walk([root]) <==> n in multiset(Walk([root]));
    assert forall n :: n in Preorder(root) <==> n in multiset(Preorder(root));
  }

  lemma WalkMembers(root: Node)
    ensures forall n :: n in Walk([root]) <==> n in Preorder(root)
  {
    WalkOfRoot(root);
  }

  // ---------------------------------------------------------------- what is counted

  predicate IsTry(n: Node) { n.kind.Try? }

  predicate IsRaise(n: Node) { n.kind.Raise? }

  predicate IsFunction(n: Node) { n.kind.FunctionDef? || n.kind.AsyncFunctionDef? }

  /** The class name of `raise Name(...)`. */
  function RaisedClass(n: Node): Option<string> {
    if n.kind.Raise? && n.children != [] && n.children[0].kind.Call?
       && n.children[0].children != [] && n.children[0].children[0].kind.Name?
    then Some(n.children[0].children[0].kind.ident)
    else None
  }

  function Handlers(ns: seq<Node>): seq<Node> {
    if ns == [] then []
    else (if ns[0].kind.ExceptHandler? then [ns[0]] else []) + Handlers(ns[1..])
  }

  /** The nodes of a listing that satisfy p, in order. */
  function Filter(p: Node -> bool, ns: seq<Node>): seq<Node> {
    if ns == [] then [] else (if p(ns[0]) then [ns[0]] else []) + Filter(p, ns[1..])
  }

  lemma {:induction false} FilterConcat(p: Node -> bool, a: seq<Node>, b: seq<Node>)
    ensures Filter(p, a + b) == Filter(p, a) + Filter(p, b)
  {
    if a == [] {
      assert a + b == b;
    } else {
      assert (a + b)[1..] == a[1..] + b && (a + b)[0] == a[0];
      FilterConcat(p, a[1..], b);
      var front := if p(a[0]) then [a[0]] else [];
      assert front + Filter(p, a[1..]) + Filter(p, b) == front + (Filter(p, a[1..]) + Filter(p, b));
    }
  }

  lemma {:induction false} FilterCounts(p: Node -> bool, ns: seq<Node>, n: Node)
    ensures multiset(Filter(p, ns))[n] == if p(n) then multiset(ns)[n] else 0
  {
    if ns != [] {
      assert ns == [ns[0]] + ns[1..];
      FilterCounts(p, ns[1..], n);
    }
  }

  /** Permuted listings have permuted matches. */
  lemma FilterPermutation(p: Node -> bool, a: seq<Node>, b: seq<Node>)
    requires multiset(a) == multiset(b)
    ensures multiset(Filter(p, a)) == multiset(Filter(p, b))
    ensures |Filter(p, a)| == |Filter(p, b)|
  {
    forall n
      ensures multiset(Filter(p, a))[n] == multiset(Filter(p, b))[n]
    {
      FilterCounts(p, a, n);
      FilterCounts(p, b, n);
    }
    assert multiset(Filter(p, a)) == multiset(Filter(p, b));
    assert |Filter(p, a)| == |multiset(Filter(p, a))|;
  }

  function RaisedClasses(ns: seq<Node>): set<string> {
    set n | n in ns && RaisedClass(n).Some? :: RaisedClass(n).value
  }

  predicate ContainsTry(f: Node) {
    exists c :: c in Preorder(f) && IsTry(c)
  }

  function FunctionName(f: Node): string
    requires IsFunction(f)
  {
    f.kind.name
  }

  // ---------------------------------------------------------------- analyze_exception_usage

  datatype Usage = Usage(tryBlocks: nat, handlers: nat, raises: nat, functions: set<string>, custom: set<string>)

  function HandlerCount(ns: seq<Node>): nat {
    if ns == [] then 0
    else (if IsTry(ns[0]) then |Handlers(ns[0].children)| else 0) + HandlerCount(ns[1..])
  }

  lemma {:induction false} HandlerCountSnoc(ns: seq<Node>, n: Node)
    ensures HandlerCount(ns + [n]) == HandlerCount(ns) + (if IsTry(n) then |Handlers(n.children)| else 0)
  {
    if ns == [] {
      assert [n][1..] == [] && ns + [n] == [n];
    } else {
      assert (ns + [n])[1..] == ns[1..] + [n];
      HandlerCountSnoc(ns[1..], n);
    }
  }

  /** Object identity: nodes with one id are one node. */
  predicate IdsIdentify(ns: seq<Node>) {
    forall a, b :: a in ns && b in ns && a.id == b.id ==> a == b
  }

  /** The walk of the function meets the node itself. */
  predicate WalkMeets(f: Node, node: Node) {
    exists c :: c in Walk([f]) && c.id == node.id
  }

  /** The functions, not coroutines, whose walk meets the node itself. */
  function Enclosing(parents: seq<Node>, node: Node): set<string> {
    set f | f in parents && f.kind.FunctionDef? && WalkMeets(f, node) :: f.kind.name
  }

  function AllEnclosing(parents: seq<Node>, ns: seq<Node>): set<string> {
    set n, name | n in ns && IsTry(n) && name in Enclosing(parents, n) :: name
  }

  function SetOf(names: seq<string>): set<string> {
    set name | name in names
  }

  lemma SetOfConcat(a: seq<string>, b: seq<string>)
    ensures SetOf(a + b) == SetOf(a) + SetOf(b)
  {
  }

  lemma EnclosingSnoc(parents: seq<Node>, p: Node, node: Node)
    ensures Enclosing(parents + [p], node) == Enclosing(parents, node) +
              if p.kind.FunctionDef? && WalkMeets(p, node) then {p.kind.name} else {}
  {
  }

  lemma AllEnclosingSnoc(parents: seq<Node>, ns: seq<Node>, n: Node)
    ensures AllEnclosing(parents, ns + [n]) ==
            AllEnclosing(parents, ns) + if IsTry(n) then Enclosing(parents, n) else {}
  {
  }

  method Meets(parent: Node, node: Node) returns (found: bool)
    ensures found <==> WalkMeets(parent, node)
  {
    var children := AstWalk(parent);
    for j := 0 to |children|
      invariant forall k :: 0 <= k < j ==> children[k].id != node.id
    {
      if children[j].id == node.id {
        return true;
      }
    }
    return false;
  }

  method FindEnclosing(tree: Node, node: Node) returns (names: seq<string>)
    ensures SetOf(names) == Enclosing(Walk([tree]), node)
  {
    names := [];
    var parents := AstWalk(tree);
    for i := 0 to |parents|
      invariant SetOf(names) == Enclosing(parents[..i], node)
    {
      var parent := parents[i];
      assert parents[..i + 1] == parents[..i] + [parent];
      EnclosingSnoc(parents[..i], parent, node);
      if parent.kind.FunctionDef? {
        var found := Meets(parent, node);
        if found {
          SetOfConcat(names, [parent.kind.name]);
          names := names + [parent.kind.name];
        }
      }
    }
    assert parents[..|parents|] == parents;
  }

  /** The analysis of the nodes `ns` of a walk over `all`. */
  function UsageIn(all: seq<Node>, ns: seq<Node>): Usage {
    Usage(|Filter(IsTry, ns)|, HandlerCount(ns), |Filter(IsRaise, ns)|, AllEnclosing(all, ns), RaisedClasses(ns))
  }

  /** What analyze_exception_usage returns for the tree. */
  function UsageOf(tree: Node): Usage {
    UsageIn(Walk([tree]), Walk([tree]))
  }

  lemma UsageSnoc(all: seq<Node>, ns: seq<Node>, n: Node)
    ensures UsageIn(all, ns + [n]) ==
            var u := UsageIn(all, ns);
            if IsTry(n) then
              u.(tryBlocks := u.tryBlocks + 1, handlers := u.handlers + |Handlers(n.children)|,
                 functions := u.functions + Enclosing(all, n))
            else if IsRaise(n) then
              u.(raises := u.raises + 1,
                 custom := u.custom + if RaisedClass(n).Some? then {RaisedClass(n).value} else {})
            else u
  {
    FilterConcat(IsTry, ns, [n]);
    FilterConcat(IsRaise, ns, [n]);
    assert [n][1..] == [];
    HandlerCountSnoc(ns, n);
    AllEnclosingSnoc(all, ns, n);
    assert RaisedClasses(ns + [n]) == RaisedClasses(ns) + if RaisedClass(n).Some? then {RaisedClass(n).value} else {};
  }

  method AnalyzeExceptionUsage(tree: Node) returns (u: Usage)
    ensures u == UsageOf(tree)
  {
    var nodes := AstWalk(tree);
    var tryBlocks: nat, handlers: nat, raises: nat := 0, 0, 0;
    var functions: seq<string>, custom: set<string> := [], {};
    for i := 0 to |nodes|
      invariant Usage(tryBlocks, handlers, raises, SetOf(functions), custom) == UsageIn(nodes, nodes[..i])
    {
      var node := nodes[i];
      assert nodes[..i + 1] == nodes[..i] + [node];
      UsageSnoc(nodes, nodes[..i], node);
      if node.kind.Try? {
        tryBlocks := tryBlocks + 1;
        handlers := handlers + |Handlers(node.children)|;
        var names := FindEnclosing(tree, node);
        SetOfConcat(functions, names);
        functions := functions + names;
      } else if node.kind.Raise? {
        raises := raises + 1;
        var raised := RaisedClass(node);
        if raised.Some? {
          custom := custom + {raised.value};
        }
      }
    }
    assert nodes[..|nodes|] == nodes;
    u := Usage(tryBlocks, handlers, raises, SetOf(functions), custom);
  }

  // ---------------------------------------------------------------- ResultMigrationAnalyzer

  datatype TryBlock = TryBlock(hasFinally: bool, exceptTypes: seq<string>, complex: bool)

  function NamesOf(handlers: seq<Node>): seq<string> {
    if handlers == [] then []
    else (if handlers[0].kind.ExceptHandler? then handlers[0].kind.names else []) + NamesOf(handlers[1..])
  }

  function BlockOf(n: Node): TryBlock
    requires n.kind.Try?
  {
    TryBlock(n.kind.hasFinally, NamesOf(Handlers(n.children)), |Handlers(n.children)| > 2)
  }

  function BlocksOf(ns: seq<Node>): seq<TryBlock> {
    if ns == [] then [] else (if IsTry(ns[0]) then [BlockOf(ns[0])] else []) + BlocksOf(ns[1..])
  }

  /** The exception type noted for each raise statement, in order. */
  function RaisesOf(ns: seq<Node>): seq<Option<string>> {
    if ns == [] then [] else (if IsRaise(ns[0]) then [RaisedClass(ns[0])] else []) + RaisesOf(ns[1..])
  }

  function ImportsOf(ns: seq<Node>): set<string> {
    set n, name | n in ns && name in ImportedBy(n) :: name
  }

  function ImportedBy(n: Node): set<string> {
    match n.kind
    case Import(modules) => set m | m in modules
    case ImportFrom(Some(parent), aliases) => set a | a in aliases :: parent + "." + a
    case _ => {}
  }

  lemma {:induction false} BlocksConcat(a: seq<Node>, b: seq<Node>)
    ensures BlocksOf(a + b) == BlocksOf(a) + BlocksOf(b)
  {
    if a == [] {
      assert a + b == b;
    } else {
      assert (a + b)[1..] == a[1..] + b && (a + b)[0] == a[0];
      BlocksConcat(a[1..], b);
      var front := if IsTry(a[0]) then [BlockOf(a[0])] else [];
      assert front + BlocksOf(a[1..]) + BlocksOf(b) == front + (BlocksOf(a[1..]) + BlocksOf(b));
    }
  }

  lemma {:induction false} RaisesConcat(a: seq<Node>, b: seq<Node>)
    ensures RaisesOf(a + b) == RaisesOf(a) + RaisesOf(b)
  {
    if a == [] {
      assert a + b == b;
    } else {
      assert (a + b)[1..] == a[1..] + b && (a + b)[0] == a[0];
      RaisesConcat(a[1..], b);
      var front := if IsRaise(a[0]) then [RaisedClass(a[0])] else [];
      assert front + RaisesOf(a[1..]) + RaisesOf(b) == front + (RaisesOf(a[1..]) + RaisesOf(b));
    }
  }

  lemma SetsConcat(a: seq<Node>, b: seq<Node>)
    ensures RaisedClasses(a + b) == RaisedClasses(a) + RaisedClasses(b)
    ensures Migrating(a + b) == Migrating(a) + Migrating(b)
    ensures ImportsOf(a + b) == ImportsOf(a) + ImportsOf(b)
  {
  }

  /** Functions and coroutines with a try statement somewhere inside. */
  function Migrating(ns: seq<Node>): set<string> {
    set f | f in ns && IsFunction(f) && ContainsTry(f) :: FunctionName(f)
  }

  /** Everything the visitor has noted. */
  datatype Notes = Notes(tryBlocks: seq<TryBlock>, raises: seq<Option<string>>, classes: set<string>,
                         functions: set<string>, imports: set<string>) {
    function With(ns: seq<Node>): Notes {
      Notes(tryBlocks + BlocksOf(ns), raises + RaisesOf(ns), classes + RaisedClasses(ns),
            functions + Migrating(ns), imports + ImportsOf(ns))
    }
  }

  lemma NotesConcat(notes: Notes, a: seq<Node>, b: seq<Node>)
    ensures notes.With(a).With(b) == notes.With(a + b)
  {
    BlocksConcat(a, b);
    RaisesConcat(a, b);
    SetsConcat(a, b);
    assert notes.tryBlocks + BlocksOf(a) + BlocksOf(b) == notes.tryBlocks + (BlocksOf(a) + BlocksOf(b));
    assert notes.raises + RaisesOf(a) + RaisesOf(b) == notes.raises + (RaisesOf(a) + RaisesOf(b));
  }

  /** What one visit adds to the notes. */
  function NotedWith(notes: Notes, n: Node): Notes {
    match n.kind
    case Try(_) => notes.(tryBlocks := notes.tryBlocks + [BlockOf(n)])
    case Raise =>
      var raised := RaisedClass(n);
      notes.(raises := notes.raises + [raised],
             classes := if raised.Some? then notes.classes + {raised.value} else notes.classes)
    case FunctionDef(name) =>
      notes.(functions := if ContainsTry(n) then notes.functions + {name} else notes.functions)
    case AsyncFunctionDef(name) =>
      notes.(functions := if ContainsTry(n) then notes.functions + {name} else notes.functions)
    case _ => notes.(imports := notes.imports + ImportedBy(n))
  }

  lemma NotedIsWith(notes: Notes, n: Node)
    ensures NotedWith(notes, n) == notes.With([n])
  {
    NotesOfOne(n);
  }

  lemma NotesOfOne(n: Node)
    ensures BlocksOf([n]) == if IsTry(n) then [BlockOf(n)] else []
    ensures RaisesOf([n]) == if IsRaise(n) then [RaisedClass(n)] else []
    ensures RaisedClasses([n]) == if RaisedClass(n).Some? then {RaisedClass(n).value} else {}
    ensures Migrating([n]) == if IsFunction(n) && ContainsTry(n) then {FunctionName(n)} else {}
    ensures ImportsOf([n]) == ImportedBy(n)
  {
    assert [n][1..] == [];
  }

  class ResultMigrationAnalyzer {
    var tryBlocks: seq<TryBlock>
    var raiseStatements: seq<Option<string>>
    var exceptionClasses: set<string>
    var functionsNeedingMigration: set<string>
    var imports: set<string>

    ghost function View(): Notes
      reads this
    {
      Notes(tryBlocks, raiseStatements, exceptionClasses, functionsNeedingMigration, imports)
    }

    constructor ()
      ensures View() == Notes([], [], {}, {}, {})
    {
      tryBlocks, raiseStatements, exceptionClasses, functionsNeedingMigration, imports := [], [], {}, {}, {};
    }

    /** The visit methods: note the node itself, then visit its children. */
    method Visit(node: Node)
      modifies this
      ensures View() == old(View()).With(Preorder(node))
      decreases node, 1
    {
      Note(node);
      NotedIsWith(old(View()), node);
      GenericVisit(node.children);
      NotesConcat(old(View()), [node], PreorderAll(node.children));
    }

    method GenericVisit(children: seq<Node>)
      modifies this
      ensures View() == old(View()).With(PreorderAll(children))
      decreases children, 0
    {
      var i := 0;
      assert children[..0] == [];
      while i < |children|
        invariant 0 <= i <= |children|
        invariant View() == old(View()).With(PreorderAll(children[..i]))
      {
        assert children[..i + 1] == children[..i] + [children[i]];
        PreorderAllConcat(children[..i], [children[i]]);
        assert PreorderAll([children[i]]) == Preorder(children[i]) + PreorderAll([]) == Preorder(children[i]);
        NotesConcat(old(View()), PreorderAll(children[..i]), Preorder(children[i]));
        Visit(children[i]);
        i := i + 1;
      }
      assert children[..i] == children;
    }

    method Note(node: Node)
      modifies this
      ensures View() == NotedWith(old(View()), node)
    {
      match node.kind
      case Try(_) =>
        tryBlocks := tryBlocks + [BlockOf(node)];
      case Raise =>
        var raised := RaisedClass(node);
        if raised.Some? {
          exceptionClasses := exceptionClasses + {raised.value};
        }
        raiseStatements := raiseStatements + [raised];
      case FunctionDef(_) =>
        NoteFunction(node);
      case AsyncFunctionDef(_) =>
        NoteFunction(node);
      case _ =>
        imports := imports + ImportedBy(node);
    }

    method NoteFunction(node: Node)
      requires IsFunction(node)
      modifies this`functionsNeedingMigration
      ensures functionsNeedingMigration ==
              old(functionsNeedingMigration) + if ContainsTry(node) then {FunctionName(node)} else {}
    {
      var nodes := AstWalk(node);
      WalkMembers(node);
      for i := 0 to |nodes|
        invariant functionsNeedingMigration == old(functionsNeedingMigration)
        invariant forall k :: 0 <= k < i ==> !IsTry(nodes[k])
      {
        if nodes[i].kind.Try? {
          assert nodes[i] in Preorder(node);
          functionsNeedingMigration := functionsNeedingMigration + {FunctionName(node)};
          return;
        }
      }
    }
  }

  // ---------------------------------------------------------------- the two agree

  lemma {:induction false} BlocksAreTries(ns: seq<Node>)
    ensures |BlocksOf(ns)| == |Filter(IsTry, ns)|
    ensures |RaisesOf(ns)| == |Filter(IsRaise, ns)|
  {
    if ns != [] {
      BlocksAreTries(ns[1..]);
    }
  }

  /** What the visitor has noted after visiting the tree. */
  function NotesOf(tree: Node): Notes {
    Notes([], [], {}, {}, {}).With(Preorder(tree))
  }

  /** For every tree both count the same try and raise statements and name the same classes. */
  lemma CountsAgree(tree: Node)
    ensures UsageOf(tree).tryBlocks == |NotesOf(tree).tryBlocks|
    ensures UsageOf(tree).raises == |NotesOf(tree).raises|
    ensures UsageOf(tree).custom == NotesOf(tree).classes
  {
    WalkOfRoot(tree);
    FilterPermutation(IsTry, Walk([tree]), Preorder(tree));
    FilterPermutation(IsRaise, Walk([tree]), Preorder(tree));
    BlocksAreTries(Preorder(tree));
  }

  predicate IsHandler(n: Node) { n.kind.ExceptHandler? }

  lemma {:induction false} HandlerCountConcat(a: seq<Node>, b: seq<Node>)
    ensures HandlerCount(a + b) == HandlerCount(a) + HandlerCount(b)
  {
    if a == [] {
      assert a + b == b;
    } else {
      assert (a + b)[1..] == a[1..] + b;
      HandlerCountConcat(a[1..], b);
    }
  }

  /** Breadth-first and depth-first count the same handlers. */
  lemma {:induction false} HandlersOfWalk(queue: seq<Node>)
    ensures HandlerCount(Walk(queue)) == HandlerCount(PreorderAll(queue))
    decreases |PreorderAll(queue)|
  {
    if queue != [] {
      var front, rest := queue[0], queue[1..];
      FrontReplaced(queue);
      HandlersOfWalk(rest + front.children);
      PreorderAllConcat(rest, front.children);
      HandlerCountConcat(PreorderAll(rest), PreorderAll(front.children));
      HandlerCountConcat([front], PreorderAll(front.children));
      HandlerCountConcat(Preorder(front), PreorderAll(rest));
      HandlerCountConcat([front], Walk(rest + front.children));
    }
  }

  /** Handlers stand under try statements only, as in every parsed program. */
  predicate HandlersUnderTries(ns: seq<Node>) {
    forall n, c :: n in ns && !IsTry(n) && c in n.children ==> !IsHandler(c)
  }

  lemma {:induction false} HandlersAreChildren(ns: seq<Node>)
    ensures |Handlers(ns)| == |Filter(IsHandler, ns)|
    ensures (forall n :: n in ns ==> !IsHandler(n)) ==> Handlers(ns) == []
  {
    if ns != [] {
      HandlersAreChildren(ns[1..]);
    }
  }

  lemma {:induction false} HandlersInTree(n: Node)
    requires HandlersUnderTries(Preorder(n))
    ensures |Filter(IsHandler, Preorder(n))| == HandlerCount(Preorder(n)) + if IsHandler(n) then 1 else 0
    decreases n, 1
  {
    var below := PreorderAll(n.children);
    assert n in Preorder(n) && forall m :: m in below ==> m in Preorder(n);
    HandlersInForest(n.children);
    HandlersAreChildren(n.children);
    FilterConcat(IsHandler, [n], below);
    HandlerCountConcat([n], below);
    assert [n][1..] == [];
  }

  lemma {:induction false} HandlersInForest(ns: seq<Node>)
    requires HandlersUnderTries(PreorderAll(ns))
    ensures |Filter(IsHandler, PreorderAll(ns))| == HandlerCount(PreorderAll(ns)) + |Handlers(ns)|
    decreases ns, 0
  {
    if ns != [] {
      var first, rest := Preorder(ns[0]), PreorderAll(ns[1..]);
      assert forall m :: m in first || m in rest ==> m in PreorderAll(ns);
      HandlersInTree(ns[0]);
      HandlersInForest(ns[1..]);
      FilterConcat(IsHandler, first, rest);
      HandlerCountConcat(first, rest);
    }
  }

  /** The handlers counted try by try are all handlers of the program. */
  lemma HandlersAreAllCounted(tree: Node)
    requires HandlersUnderTries(Preorder(tree)) && !IsHandler(tree)
    ensures UsageOf(tree).handlers == |Filter(IsHandler, Preorder(tree))|
  {
    HandlersOfWalk([tree]);
    assert PreorderAll([tree]) == Preorder(tree) + PreorderAll([]) == Preorder(tree);
    HandlersInTree(tree);
  }

  /** `raise E(...)` names E; a bare raise, a raised object, and a call through an attribute name nothing. */
  lemma RaisedClassByShape(id: nat, call: Node, callee: Node, args: seq<Node>, cause: seq<Node>, name: string)
    requires call.kind == Call && call.children == [callee] + args
    ensures callee.kind == Name(name) ==> RaisedClass(Node(id, Raise, [call] + cause)) == Some(name)
    ensures !callee.kind.Name? ==> RaisedClass(Node(id, Raise, [call] + cause)) == None
    ensures RaisedClass(Node(id, Raise, [])) == RaisedClass(Node(id, Raise, [callee.(kind := Name(name))] + cause)) ==
            None
    ensures RaisedClass(call) == None
  {
  }

  /**
    An import notes its modules, a from-import its names behind the module's, a relative one without a
    module nothing.
   */
  lemma ImportsByShape(n: Node, a: string, b: string)
    ensures n.kind == Import([a, b]) ==> ImportedBy(n) == {a, b}
    ensures n.kind == ImportFrom(Some(a), [b]) ==> ImportedBy(n) == {a + "." + b}
    ensures n.kind == ImportFrom(None, [b]) ==> ImportedBy(n) == {}
  {
    if n.kind == ImportFrom(Some(a), [b]) {
      assert b in [b];
    }
  }

  /** A block is complex from the third handler on, and names the types of all its handlers. */
  lemma BlockByHandlers(n: Node, caught: string)
    requires IsTry(n)
    ensures BlockOf(n).complex <==> |Filter(IsHandler, n.children)| >= 3
    ensures BlockOf(n).hasFinally == n.kind.hasFinally
    ensures caught in BlockOf(n).exceptTypes <==> exists h :: h in n.children && IsHandler(h) && caught in h.kind.names
  {
    HandlersAreChildren(n.children);
    HandledTypes(n.children, caught);
  }

  lemma {:induction false} HandledTypes(ns: seq<Node>, caught: string)
    ensures caught in NamesOf(Handlers(ns)) <==> exists h :: h in ns && IsHandler(h) && caught in h.kind.names
  {
    if ns != [] {
      HandledTypes(ns[1..], caught);
      assert forall h :: h in ns <==> h == ns[0] || h in ns[1..];
      if IsHandler(ns[0]) {
        assert ([ns[0]] + Handlers(ns[1..]))[1..] == Handlers(ns[1..]);
      } else {
        assert [] + Handlers(ns[1..]) == Handlers(ns[1..]);
      }
    }
  }

  /** The names of the plain functions that contain a try statement. */
  function PlainWithTry(ns: seq<Node>): set<string> {
    set f | f in ns && f.kind.FunctionDef? && ContainsTry(f) :: f.kind.name
  }

  lemma SubtreeNodes(tree: Node, f: Node, c: Node)
    requires f in Preorder(tree) && c in Preorder(f)
    ensures c in Preorder(tree)
    decreases tree, 1
  {
    if f != tree {
      SubtreeNodesAll(tree.children, f, c);
    }
  }

  lemma SubtreeNodesAll(trees: seq<Node>, f: Node, c: Node)
    requires f in PreorderAll(trees) && c in Preorder(f)
    ensures c in PreorderAll(trees)
    decreases trees, 0
  {
    if f in Preorder(trees[0]) {
      SubtreeNodes(trees[0], f, c);
    } else {
      SubtreeNodesAll(trees[1..], f, c);
    }
  }

  lemma WalkFindsPlainFunctions(tree: Node)
    requires IdsIdentify(Preorder(tree))
    ensures UsageOf(tree).functions == PlainWithTry(Preorder(tree))
  {
    var nodes := Walk([tree]);
    WalkOfRoot(tree);
    forall name | name in UsageOf(tree).functions
      ensures name in PlainWithTry(Preorder(tree))
    {
      var n :| n in nodes && IsTry(n) && name in Enclosing(nodes, n);
      var f :| f in nodes && f.kind.FunctionDef? && WalkMeets(f, n) && f.kind.name == name;
      var c :| c in Walk([f]) && c.id == n.id;
      WalkOfRoot(f);
      SubtreeNodes(tree, f, c);
    }
    forall name | name in PlainWithTry(Preorder(tree))
      ensures name in UsageOf(tree).functions
    {
      var f :| f in Preorder(tree) && f.kind.FunctionDef? && ContainsTry(f) && f.kind.name == name;
      var c :| c in Preorder(f) && IsTry(c);
      WalkOfRoot(f);
      SubtreeNodes(tree, f, c);
      assert WalkMeets(f, c);
      assert name in Enclosing(nodes, c);
    }
  }

  /**
    The functions the walk reports are among those the visitor marks; they are all of them
    exactly when each coroutine that contains a try shares its name with such a function.
   */
  lemma FunctionsAgreeExactly(tree: Node)
    requires IdsIdentify(Preorder(tree))
    ensures UsageOf(tree).functions <= NotesOf(tree).functions
    ensures UsageOf(tree).functions == NotesOf(tree).functions
       <==> forall f :: f in Preorder(tree) && f.kind.AsyncFunctionDef? && ContainsTry(f) ==>
              exists g :: g in Preorder(tree) && g.kind.FunctionDef? && ContainsTry(g) && g.kind.name == f.kind.name
  {
    WalkFindsPlainFunctions(tree);
    PlainOrAll(Preorder(tree));
  }

  lemma PlainOrAll(ns: seq<Node>)
    ensures PlainWithTry(ns) <= Migrating(ns)
    ensures PlainWithTry(ns) == Migrating(ns)
       <==> forall f :: f in ns && f.kind.AsyncFunctionDef? && ContainsTry(f) ==>
              exists g :: g in ns && g.kind.FunctionDef? && ContainsTry(g) && g.kind.name == f.kind.name
  {
    assert forall f :: f in ns && IsFunction(f) && ContainsTry(f) ==> FunctionName(f) in Migrating(ns);
    assert forall g :: g in ns && g.kind.FunctionDef? && ContainsTry(g) ==> g.kind.name in PlainWithTry(ns);
  }

  // ---------------------------------------------------------------- calculate_priority

  datatype Priority = Low | Medium | High

  function BlockScore(b: TryBlock): nat {
    2 + (if b.complex then 3 else 0) + (if |b.exceptTypes| > 2 then 2 else 0)
  }

  function BlocksScore(bs: seq<TryBlock>): nat {
    if bs == [] then 0 else BlockScore(bs[0]) + BlocksScore(bs[1..])
  }

  function PriorityOf(score: nat): Priority {
    if score >= 20 then High else if score >= 10 then Medium else Low
  }

  lemma {:induction false} BlocksScoreConcat(a: seq<TryBlock>, b: seq<TryBlock>)
    ensures BlocksScore(a + b) == BlocksScore(a) + BlocksScore(b)
  {
    if a == [] {
      assert a + b == b;
    } else {
      assert (a + b)[1..] == a[1..] + b;
      BlocksScoreConcat(a[1..], b);
    }
  }

  /** Two for each block, three more for a complex one, two more for one that names more than two types. */
  lemma {:induction false} ScoreByCounts(bs: seq<TryBlock>)
    ensures BlocksScore(bs) == 2 * |bs| + 3 * Count(bs, (b: TryBlock) => b.complex)
                               + 2 * Count(bs, (b: TryBlock) => |b.exceptTypes| > 2)
  {
    if bs != [] {
      var front, last := bs[..|bs| - 1], bs[|bs| - 1];
      ScoreByCounts(front);
      BlocksScoreConcat(front, [last]);
      assert bs == front + [last] && [last][1..] == [];
    }
  }

  method CalculatePriority(analyzer: ResultMigrationAnalyzer) returns (p: Priority)
    ensures p == PriorityOf(BlocksScore(analyzer.tryBlocks) + |analyzer.raiseStatements|)
    ensures
      var blocks := analyzer.tryBlocks;
      var score := 2 * |blocks| + 3 * Count(blocks, (b: TryBlock) => b.complex)
                   + 2 * Count(blocks, (b: TryBlock) => |b.exceptTypes| > 2) + |analyzer.raiseStatements|;
      p == if score >= 20 then High else if score >= 10 then Medium else Low
  {
    var blocks := analyzer.tryBlocks;
    ScoreByCounts(blocks);
    var score := |blocks| * 2;
    for i := 0 to |blocks|
      invariant score == 2 * (|blocks| - i) + BlocksScore(blocks[..i])
    {
      assert blocks[..i + 1] == blocks[..i] + [blocks[i]];
      BlocksScoreConcat(blocks[..i], [blocks[i]]);
      assert [blocks[i]][1..] == [];
      if blocks[i].complex {
        score := score + 3;
      }
      if |blocks[i].exceptTypes| > 2 {
        score := score + 2;
      }
    }
    assert blocks[..|blocks|] == blocks;
    score := score + |analyzer.raiseStatements|;
    p := if score >= 20 then High else if score >= 10 then Medium else Low;
  }

  function ScoreOf(ns: seq<Node>): nat {
    BlocksScore(BlocksOf(ns)) + |RaisesOf(ns)|
  }

  /** A piece of code never scores above the code it is part of. */
  lemma ScoreIsMonotone(tree: Node, part: Node)
    requires part in Preorder(tree)
    ensures ScoreOf(Preorder(part)) <= ScoreOf(Preorder(tree))
    decreases tree, 1
  {
    if part != tree {
      ScoreIsMonotoneAll(tree.children, part);
      ScoreConcat([tree], PreorderAll(tree.children));
    }
  }

  lemma ScoreIsMonotoneAll(trees: seq<Node>, part: Node)
    requires part in PreorderAll(trees)
    ensures ScoreOf(Preorder(part)) <= ScoreOf(PreorderAll(trees))
    decreases trees, 0
  {
    ScoreConcat(Preorder(trees[0]), PreorderAll(trees[1..]));
    if part in Preorder(trees[0]) {
      ScoreIsMonotone(trees[0], part);
    } else {
      ScoreIsMonotoneAll(trees[1..], part);
    }
  }

  lemma ScoreConcat(a: seq<Node>, b: seq<Node>)
    ensures ScoreOf(a + b) == ScoreOf(a) + ScoreOf(b)
  {
    BlocksConcat(a, b);
    RaisesConcat(a, b);
    BlocksScoreConcat(BlocksOf(a), BlocksOf(b));
  }
}
