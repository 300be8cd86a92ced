/**
  The coverage-report loader of the CodeCoverage add-in (class
  `CodeCoverageResults`): it reads `module`, `method` and `seqpnt` elements
  into a list of modules, each holding its methods, each holding its sequence
  points, and then drops the excluded modules and the excluded methods.

  Modules and methods are objects in the source. Here they are values; the
  identity of each object is its `id`, drawn from the results object's
  `nextId` counter where the source allocates with `new`. Two methods are
  therefore equal exactly when they are the same object, which is how
  `List<T>.Remove` compares them as long as the module and method classes keep
  the default reference equality.

  `CodeCoverageModule.IsExcluded`, `CodeCoverageMethod.IsExcluded` and
  `CodeCoverageModule.GetSequencePoints` are defined in files that are not part
  of this model: the results object receives them as functions.
 */
module CodeCoverage {
  import opened Wrappers
  import opened Sequences
  import opened TextConversions
  import opened XmlNodes

  /** The arguments a `seqpnt` element passes to the `CodeCoverageSequencePoint` constructor. */
  datatype SequencePoint = SequencePoint(
    document: Option<string>,
    visitCount: int,
    line: int,
    column: int,
    endLine: int,
    endColumn: int,
    isExcluded: bool)

  /** A `CodeCoverageMethod` object: its identity, its constructor's arguments and its `SequencePoints` list. */
  datatype Method = Method(id: nat, name: Option<string>, className: Option<string>, sequencePoints: seq<SequencePoint>)

  /** A `CodeCoverageModule` object: its identity, its assembly name and its `Methods` list. */
  datatype Module = Module(id: nat, assembly: Option<string>, methods: seq<Method>)

  /** `GetInteger`: the attribute's value when it parses as an Int32, and 0 otherwise (also when it is missing). */
  function GetInteger(s: Option<string>): (r: int)
    ensures Int32Min <= r <= Int32Max
    ensures s.None? ==> r == 0
  {
    match s
    case None => 0
    case Some(text) =>
      match TryParseInt32(text)
      case Some(value) => value
      case None => 0
  }

  /** `IsExcluded`: the `excluded` attribute parsed as a boolean; false when it is missing or does not parse. */
  function IsExcluded(node: Node): (r: bool)
    ensures r ==> "excluded" in node.attributes
  {
    match GetAttribute(node, "excluded")
    case None => false
    case Some(value) =>
      match TryParseBoolean(value)
      case Some(excluded) => excluded
      case None => false
  }

  function NewModule(id: nat, node: Node): Module
  {
    Module(id, GetAttribute(node, "assembly"), [])
  }

  function NewMethod(id: nat, node: Node): Method
  {
    Method(id, GetAttribute(node, "name"), GetAttribute(node, "class"), [])
  }

  function NewSequencePoint(node: Node): SequencePoint
  {
    SequencePoint(
      GetAttribute(node, "document"),
      GetInteger(GetAttribute(node, "visitcount")),
      GetInteger(GetAttribute(node, "line")),
      GetInteger(GetAttribute(node, "column")),
      GetInteger(GetAttribute(node, "endline")),
      GetInteger(GetAttribute(node, "endcolumn")),
      IsExcluded(node))
  }

  /** Where a method object sits: its module's position in the list and its own position in that module. */
  datatype MethodRef = MethodRef(moduleIndex: nat, methodIndex: nat)

  /** The list of modules and the two cursors of `ReadResults` (None where the source's reference is null). */
  datatype ReadState = ReadState(
    modules: seq<Module>,
    currentModule: Option<nat>,
    currentMethod: Option<MethodRef>,
    nextId: nat)

  /** The state `ReadResults` starts from: both cursors null. */
  function Start(modules: seq<Module>, nextId: nat): ReadState
  {
    ReadState(modules, None, None, nextId)
  }

  ghost predicate ValidRef(modules: seq<Module>, ref: MethodRef)
  {
    ref.moduleIndex < |modules| && ref.methodIndex < |modules[ref.moduleIndex].methods|
  }

  /** The current module is always the last one added; the current method is some method already read. */
  ghost predicate Consistent(s: ReadState)
  {
    && (s.currentModule.Some? ==> s.currentModule.value + 1 == |s.modules|)
    && (s.currentMethod.Some? ==> ValidRef(s.modules, s.currentMethod.value))
  }

  /** `module.Methods.Add(method)` on the module at position `at`. */
  function WithMethod(modules: seq<Module>, at: nat, added: Method): seq<Module>
    requires at < |modules|
  {
    modules[at := modules[at].(methods := modules[at].methods + [added])]
  }

  /** `method.SequencePoints.Add(point)` on the method that `ref` designates. */
  function WithSequencePoint(modules: seq<Module>, ref: MethodRef, point: SequencePoint): seq<Module>
    requires ValidRef(modules, ref)
  {
    var owner := modules[ref.moduleIndex];
    var target := owner.methods[ref.methodIndex];
    modules[ref.moduleIndex := owner.(methods := owner.methods[ref.methodIndex := target.(sequencePoints := target.sequencePoints + [point])])]
  }

  /** One turn of the `while (reader.Read())` loop of `ReadResults`. */
  function Step(s: ReadState, node: Node): (r: ReadState)
    requires Consistent(s)
    ensures Consistent(r)
  {
    if node.nodeType != Element then s
    else if node.name == "module" then
      s.(modules := s.modules + [NewModule(s.nextId, node)],
         currentModule := Some(|s.modules|),
         nextId := s.nextId + 1)
    else if node.name == "method" && s.currentModule.Some? then
      var at := s.currentModule.value;
      s.(modules := WithMethod(s.modules, at, NewMethod(s.nextId, node)),
         currentMethod := Some(MethodRef(at, |s.modules[at].methods|)),
         nextId := s.nextId + 1)
    else if node.name == "seqpnt" && s.currentMethod.Some? then
      s.(modules := WithSequencePoint(s.modules, s.currentMethod.value, NewSequencePoint(node)))
    else s
  }

  /** The state after the loop of `ReadResults` has consumed `nodes`. */
  function Read(start: ReadState, nodes: seq<Node>): (r: ReadState)
    requires Consistent(start)
    ensures Consistent(r)
    decreases |nodes|
  {
    if nodes == [] then start
    else Step(Read(start, nodes[..|nodes| - 1]), nodes[|nodes| - 1])
  }

  /** A module with its excluded methods removed (`RemoveExcludedMethods` on one module). */
  function WithoutExcludedMethods(m: Module, methodExcluded: Method -> bool): Module
  {
    m.(methods := WithoutExcluded(methodExcluded, m.methods))
  }

  function FilterMethods(modules: seq<Module>, methodExcluded: Method -> bool): (r: seq<Module>)
    ensures |r| == |modules|
    ensures forall k :: 0 <= k < |r| ==> r[k] == WithoutExcludedMethods(modules[k], methodExcluded)
  {
    seq(|modules|, k requires 0 <= k < |modules| => WithoutExcludedMethods(modules[k], methodExcluded))
  }

  /** The modules a freshly constructed `CodeCoverageResults` holds after reading `nodes`. */
  function Load(nodes: seq<Node>, moduleExcluded: Module -> bool, methodExcluded: Method -> bool): seq<Module>
  {
    FilterMethods(WithoutExcluded(moduleExcluded, Read(Start([], 0), nodes).modules), methodExcluded)
  }

  /** The sequence points of every module for `fileName`, module after module. */
  function PointsOf(modules: seq<Module>, modulePoints: (Module, string) -> seq<SequencePoint>, fileName: string): seq<SequencePoint>
  {
    if modules == [] then []
    else PointsOf(modules[..|modules| - 1], modulePoints, fileName) + modulePoints(modules[|modules| - 1], fileName)
  }

  ghost function MethodIds(methods: seq<Method>): set<nat>
  {
    set m | m in methods :: m.id
  }

  /**
    Every method identity is below the allocator's next identity, and no
    identity is shared by two modules.
   */
  ghost predicate IdentitiesFresh(modules: seq<Module>, nextId: nat)
  {
    && (forall i, id :: 0 <= i < |modules| && id in MethodIds(modules[i].methods) ==> id < nextId)
    && (forall i, j :: 0 <= i < j < |modules| ==> MethodIds(modules[i].methods) !! MethodIds(modules[j].methods))
  }

  /** No method object belongs to both modules. */
  ghost predicate MethodsApart(a: Module, b: Module)
  {
    forall m :: m in a.methods ==> m !in b.methods
  }

  lemma MethodIdsAppend(methods: seq<Method>, m: Method)
    ensures MethodIds(methods + [m]) == MethodIds(methods) + {m.id}
  {
    forall id | id in MethodIds(methods + [m])
      ensures id in MethodIds(methods) + {m.id}
    {
      var x :| x in methods + [m] && x.id == id;
      if x != m {
        assert x in methods;
      }
    }
    assert m in methods + [m];
    forall id | id in MethodIds(methods)
      ensures id in MethodIds(methods + [m])
    {
      var x :| x in methods && x.id == id;
      assert x in methods + [m];
    }
  }

  lemma MethodIdsUpdate(methods: seq<Method>, at: nat, m: Method)
    requires at < |methods| && m.id == methods[at].id
    ensures MethodIds(methods[at := m]) == MethodIds(methods)
  {
    var updated := methods[at := m];
    forall id | id in MethodIds(updated)
      ensures id in MethodIds(methods)
    {
      var x :| x in updated && x.id == id;
      var q :| 0 <= q < |updated| && updated[q] == x;
      assert methods[if q == at then at else q] in methods;
    }
    forall id | id in MethodIds(methods)
      ensures id in MethodIds(updated)
    {
      var x :| x in methods && x.id == id;
      var q :| 0 <= q < |methods| && methods[q] == x;
      assert updated[q] in updated;
    }
  }

  /** Allocating from `nextId` keeps method identities fresh and unshared. */
  lemma StepKeepsIdentitiesFresh(s: ReadState, node: Node)
    requires Consistent(s) && IdentitiesFresh(s.modules, s.nextId)
    ensures IdentitiesFresh(Step(s, node).modules, Step(s, node).nextId)
  {
    var r := Step(s, node);
    if node.nodeType != Element {
    } else if node.name == "module" {
      assert MethodIds(r.modules[|s.modules|].methods) == {};
      assert forall i :: 0 <= i < |s.modules| ==> r.modules[i] == s.modules[i];
    } else if node.name == "method" && s.currentModule.Some? {
      var at := s.currentModule.value;
      MethodIdsAppend(s.modules[at].methods, NewMethod(s.nextId, node));
      assert forall i :: 0 <= i < |s.modules| && i != at ==> r.modules[i] == s.modules[i];
    } else if node.name == "seqpnt" && s.currentMethod.Some? {
      var ref := s.currentMethod.value;
      var methods := s.modules[ref.moduleIndex].methods;
      var target := methods[ref.methodIndex];
      MethodIdsUpdate(methods, ref.methodIndex, target.(sequencePoints := target.sequencePoints + [NewSequencePoint(node)]));
      assert forall i :: 0 <= i < |s.modules| && i != ref.moduleIndex ==> r.modules[i] == s.modules[i];
    }
  }

  lemma {:induction false} ReadKeepsIdentitiesFresh(start: ReadState, nodes: seq<Node>)
    requires Consistent(start) && IdentitiesFresh(start.modules, start.nextId)
    ensures IdentitiesFresh(Read(start, nodes).modules, Read(start, nodes).nextId)
    decreases |nodes|
  {
    if nodes != [] {
      ReadKeepsIdentitiesFresh(start, nodes[..|nodes| - 1]);
      StepKeepsIdentitiesFresh(Read(start, nodes[..|nodes| - 1]), nodes[|nodes| - 1]);
    }
  }

  /** Unshared identities mean that no method object sits in two modules. */
  lemma FreshIdentitiesKeepMethodsApart(modules: seq<Module>, nextId: nat)
    requires IdentitiesFresh(modules, nextId)
    ensures Pairwise(MethodsApart, modules)
  {
    forall i, j | 0 <= i < j < |modules|
      ensures MethodsApart(modules[i], modules[j])
    {
      forall m | m in modules[i].methods
        ensures m !in modules[j].methods
      {
        assert m.id in MethodIds(modules[i].methods);
      }
    }
  }

  class CodeCoverageResults {
    var modules: seq<Module>
    /** The next object identity: stands for the allocator, which gives every `new` object its own identity. */
    var nextId: nat
    /** `CodeCoverageModule.IsExcluded`. */
    const moduleExcluded: Module -> bool
    /** `CodeCoverageMethod.IsExcluded`. */
    const methodExcluded: Method -> bool
    /** `CodeCoverageModule.GetSequencePoints(fileName)`. */
    const moduleSequencePoints: (Module, string) -> seq<SequencePoint>

    ghost predicate NoExcludedMethods()
      reads this
    {
      forall k, m :: 0 <= k < |modules| && m in modules[k].methods ==> !methodExcluded(m)
    }

    /** `CodeCoverageResults(XmlReader)`: reads the whole document, then drops what is excluded. */
    constructor (nodes: seq<Node>, moduleExcluded: Module -> bool, methodExcluded: Method -> bool,
                 moduleSequencePoints: (Module, string) -> seq<SequencePoint>)
      ensures this.moduleExcluded == moduleExcluded && this.methodExcluded == methodExcluded
      ensures this.moduleSequencePoints == moduleSequencePoints
      ensures modules == Load(nodes, moduleExcluded, methodExcluded)
      ensures NoExcludedMethods()
    {
      this.moduleExcluded := moduleExcluded;
      this.methodExcluded := methodExcluded;
      this.moduleSequencePoints := moduleSequencePoints;
      modules := [];
      nextId := 0;
      new;
      ReadResults(nodes);
    }

    /** The sequence points of every module for `fileName`, in module order. */
    method GetSequencePoints(fileName: string) returns (sequencePoints: seq<SequencePoint>)
      ensures sequencePoints == PointsOf(modules, moduleSequencePoints, fileName)
    {
      sequencePoints := [];
      for i := 0 to |modules|
        invariant sequencePoints == PointsOf(modules[..i], moduleSequencePoints, fileName)
      {
        assert modules[..i + 1][..i] == modules[..i];
        sequencePoints := sequencePoints + moduleSequencePoints(modules[i], fileName);
      }
      assert modules[..|modules|] == modules;
    }

    /** `Modules`: the current modules. */
    function Modules(): (r: seq<Module>)
      reads this
      ensures r == modules
    {
      modules
    }

    method ReadResults(nodes: seq<Node>)
      requires IdentitiesFresh(modules, nextId)
      modifies this
      ensures var read := Read(Start(old(modules), old(nextId)), nodes);
              && modules == FilterMethods(WithoutExcluded(moduleExcluded, read.modules), methodExcluded)
              && nextId == read.nextId
      ensures NoExcludedMethods()
    {
      ghost var start := Start(modules, nextId);
      var currentModule: Option<nat> := None;
      var currentMethod: Option<MethodRef> := None;
      var i := 0;
      while i < |nodes|
        invariant 0 <= i <= |nodes|
        invariant ReadState(modules, currentModule, currentMethod, nextId) == Read(start, nodes[..i])
      {
        assert nodes[..i + 1][..i] == nodes[..i];
        var node := nodes[i];
        match node.nodeType {
          case Element =>
            if node.name == "module" {
              var added := AddModule(node);
              currentModule := Some(added);
            } else if node.name == "method" && currentModule.Some? {
              var added := AddMethod(currentModule.value, node);
              currentMethod := Some(added);
            } else if node.name == "seqpnt" && currentMethod.Some? {
              AddSequencePoint(currentMethod.value, node);
            }
          case _ =>
        }
        i := i + 1;
      }
      assert nodes[..|nodes|] == nodes;
      ReadKeepsIdentitiesFresh(start, nodes);
      ghost var read := modules;
      FreshIdentitiesKeepMethodsApart(read, nextId);
      RemoveExcludedModules();
      PairwiseWithoutExcluded(MethodsApart, moduleExcluded, read);
      RemoveExcludedMethods();
      forall k, m | 0 <= k < |modules| && m in modules[k].methods
        ensures !methodExcluded(m)
      {
        WithoutExcludedMembership(methodExcluded, WithoutExcluded(moduleExcluded, read)[k].methods, m);
      }
    }

    method AddModule(node: Node) returns (added: nat)
      modifies this
      ensures modules == old(modules) + [NewModule(old(nextId), node)]
      ensures nextId == old(nextId) + 1
      ensures added == |old(modules)|
    {
      added := |modules|;
      modules := modules + [NewModule(nextId, node)];
      nextId := nextId + 1;
    }

    method AddMethod(owner: nat, node: Node) returns (added: MethodRef)
      requires owner < |modules|
      modifies this
      ensures modules == WithMethod(old(modules), owner, NewMethod(old(nextId), node))
      ensures nextId == old(nextId) + 1
      ensures added == MethodRef(owner, |old(modules)[owner].methods|)
    {
      added := MethodRef(owner, |modules[owner].methods|);
      modules := WithMethod(modules, owner, NewMethod(nextId, node));
      nextId := nextId + 1;
    }

    method AddSequencePoint(target: MethodRef, node: Node)
      requires ValidRef(modules, target)
      modifies this`modules
      ensures modules == WithSequencePoint(old(modules), target, NewSequencePoint(node))
    {
      modules := WithSequencePoint(modules, target, NewSequencePoint(node));
    }

    /** Collects the excluded modules, then removes each one from the list. */
    method RemoveExcludedModules()
      modifies this`modules
      ensures modules == WithoutExcluded(moduleExcluded, old(modules))
    {
      var excludedModules: seq<Module> := [];
      for i := 0 to |modules|
        invariant modules == old(modules)
        invariant excludedModules == OnlyExcluded(moduleExcluded, modules[..i])
      {
        assert modules[..i + 1] == modules[..i] + [modules[i]];
        OnlyExcludedAppend(moduleExcluded, modules[..i], [modules[i]]);
        if moduleExcluded(modules[i]) {
          excludedModules := excludedModules + [modules[i]];
        }
      }
      assert modules[..|modules|] == modules && excludedModules[0..] == excludedModules;
      modules := RemoveEach(modules, excludedModules, moduleExcluded, 0);
    }

    /**
      Collects the excluded methods module by module into one list that is
      never cleared, and after each module removes every method collected so
      far from that module's list.
     */
    method RemoveExcludedMethods()
      requires Pairwise(MethodsApart, modules)
      modifies this`modules
      ensures modules == FilterMethods(old(modules), methodExcluded)
    {
      ghost var orig := modules;
      var excludedMethods: seq<Method> := [];
      for k := 0 to |modules|
        invariant |modules| == |orig|
        invariant forall i :: 0 <= i < k ==> modules[i] == WithoutExcludedMethods(orig[i], methodExcluded)
        invariant forall i :: k <= i < |modules| ==> modules[i] == orig[i]
        invariant forall m, i :: m in excludedMethods && k <= i < |orig| ==> m !in orig[i].methods
      {
        var current := modules[k];
        label Collect:
        ghost var previous := excludedMethods;
        ghost var own := current.methods;
        for p := 0 to |current.methods|
          invariant modules == old@Collect(modules)
          invariant excludedMethods == previous + OnlyExcluded(methodExcluded, own[..p])
        {
          assert own[..p + 1] == own[..p] + [own[p]];
          OnlyExcludedAppend(methodExcluded, own[..p], [own[p]]);
          if methodExcluded(current.methods[p]) {
            excludedMethods := excludedMethods + [current.methods[p]];
          }
        }
        assert excludedMethods[|previous|..] == OnlyExcluded(methodExcluded, own) by {
          assert own[..|own|] == own;
        }
        forall q | 0 <= q < |previous|
          ensures excludedMethods[q] !in current.methods
        {
          assert excludedMethods[q] == previous[q] && previous[q] in previous;
        }
        var methods := RemoveEach(current.methods, excludedMethods, methodExcluded, |previous|);
        modules := modules[k := current.(methods := methods)];
        forall m, i | m in excludedMethods && k + 1 <= i < |orig|
          ensures m !in orig[i].methods
        {
          if m !in previous {
            OnlyExcludedMembership(methodExcluded, own, m);
            assert MethodsApart(orig[k], orig[i]);
          }
        }
      }
    }
  }
}
