/**
  What the coverage loader promises, stated over the reading function `Read`
  and the loading function `Load`: which nodes matter, how the lists grow in
  document order, the cursor behaviour across modules, the attribute
  conversions, what the filtering keeps, and how the sequence-point query
  concatenates.
 */
module CoverageProperties {
  import opened Wrappers
  import opened Sequences
  import opened TextConversions
  import opened XmlNodes
  import opened CodeCoverage

  predicate IsElementNamed(node: Node, name: string)
  {
    node.nodeType == Element && node.name == name
  }

  /** The nodes the reading loop reacts to: `module`, `method` and `seqpnt` elements. */
  predicate Recognised(node: Node)
  {
    IsElementNamed(node, "module") || IsElementNamed(node, "method") || IsElementNamed(node, "seqpnt")
  }

  // ---------------------------------------------------------------------------
  // Reading

  /** Reading two stretches of nodes one after the other is reading them together. */
  lemma {:induction false} ReadAppend(start: ReadState, a: seq<Node>, b: seq<Node>)
    requires Consistent(start)
    ensures Read(start, a + b) == Read(Read(start, a), b)
    decreases |b|
  {
    if b == [] {
      assert a + b == a;
    } else {
      var c := a + b;
      assert c[..|c| - 1] == a + b[..|b| - 1];
      assert c[|c| - 1] == b[|b| - 1];
      ReadAppend(start, a, b[..|b| - 1]);
    }
  }

  /** Nodes other than `module`, `method` and `seqpnt` elements change neither the lists nor the cursors. */
  lemma {:induction false} ReadIgnoresUnrecognised(start: ReadState, nodes: seq<Node>)
    requires Consistent(start)
    requires forall i :: 0 <= i < |nodes| ==> !Recognised(nodes[i])
    ensures Read(start, nodes) == start
    decreases |nodes|
  {
    if nodes != [] {
      ReadIgnoresUnrecognised(start, nodes[..|nodes| - 1]);
    }
  }

  /** An unrecognised node can be inserted anywhere in the document without effect. */
  lemma InsertUnrecognised(start: ReadState, a: seq<Node>, node: Node, b: seq<Node>)
    requires Consistent(start) && !Recognised(node)
    ensures Read(start, a + [node] + b) == Read(start, a + b)
  {
    ReadAppend(start, a + [node], b);
    ReadAppend(start, a, [node]);
    ReadIgnoresUnrecognised(Read(start, a), [node]);
    ReadAppend(start, a, b);
  }

  /**
    Without a `module` element, `method` elements have no module to go to and
    `seqpnt` elements no method: a document without modules reads as nothing.
   */
  lemma {:induction false} NoModuleReadsNothing(modules: seq<Module>, nextId: nat, nodes: seq<Node>)
    requires forall i :: 0 <= i < |nodes| ==> !IsElementNamed(nodes[i], "module")
    ensures Read(Start(modules, nextId), nodes) == Start(modules, nextId)
    decreases |nodes|
  {
    if nodes != [] {
      NoModuleReadsNothing(modules, nextId, nodes[..|nodes| - 1]);
    }
  }

  /**
    Without a `method` element there is never a current method, so every
    `seqpnt` is dropped: the modules read have no methods.
   */
  lemma {:induction false} NoMethodReadsNoMethods(modules: seq<Module>, nextId: nat, nodes: seq<Node>)
    requires forall i :: 0 <= i < |nodes| ==> !IsElementNamed(nodes[i], "method")
    ensures var r := Read(Start(modules, nextId), nodes);
            && r.currentMethod.None?
            && |modules| <= |r.modules| && r.modules[..|modules|] == modules
            && forall k :: |modules| <= k < |r.modules| ==> r.modules[k].methods == []
    decreases |nodes|
  {
    if nodes != [] {
      NoMethodReadsNoMethods(modules, nextId, nodes[..|nodes| - 1]);
      var s := Read(Start(modules, nextId), nodes[..|nodes| - 1]);
      var r := Read(Start(modules, nextId), nodes);
      assert r.modules[..|s.modules|] == s.modules;
      assert r.modules[..|modules|] == s.modules[..|modules|];
    }
  }

  /** The assembly names of the modules, in list order. */
  function Assemblies(modules: seq<Module>): (r: seq<Option<string>>)
    ensures |r| == |modules|
    ensures forall k :: 0 <= k < |r| ==> r[k] == modules[k].assembly
  {
    seq(|modules|, k requires 0 <= k < |modules| => modules[k].assembly)
  }

  /** The `assembly` attributes of the `module` elements, in document order. */
  function ModuleElementAssemblies(nodes: seq<Node>): seq<Option<string>>
  {
    if nodes == [] then []
    else
      var last := nodes[|nodes| - 1];
      ModuleElementAssemblies(nodes[..|nodes| - 1])
        + (if IsElementNamed(last, "module") then [GetAttribute(last, "assembly")] else [])
  }

  lemma StepAssemblies(s: ReadState, node: Node)
    requires Consistent(s)
    ensures Assemblies(Step(s, node).modules)
         == Assemblies(s.modules) + (if IsElementNamed(node, "module") then [GetAttribute(node, "assembly")] else [])
  {
    var r := Step(s, node);
    if IsElementNamed(node, "module") {
      assert r.modules == s.modules + [NewModule(s.nextId, node)];
    } else {
      assert |r.modules| == |s.modules|;
      assert forall k :: 0 <= k < |s.modules| ==> r.modules[k].assembly == s.modules[k].assembly;
    }
  }

  /**
    Each `module` element appends exactly one module, at the end of the list,
    with that element's assembly name; nothing else adds or removes a module.
   */
  lemma {:induction false} ReadAppendsModules(start: ReadState, nodes: seq<Node>)
    requires Consistent(start)
    ensures Assemblies(Read(start, nodes).modules) == Assemblies(start.modules) + ModuleElementAssemblies(nodes)
    ensures |Read(start, nodes).modules| == |start.modules| + |ModuleElementAssemblies(nodes)|
    decreases |nodes|
  {
    if nodes != [] {
      var prefix := nodes[..|nodes| - 1];
      ReadAppendsModules(start, prefix);
      StepAssemblies(Read(start, prefix), nodes[|nodes| - 1]);
    }
  }

  /** `b` is `a` after appends only: the same methods keep their names, sequence points are only added at the end. */
  ghost predicate MethodGrows(a: Method, b: Method)
  {
    b.id == a.id && b.name == a.name && b.className == a.className && a.sequencePoints <= b.sequencePoints
  }

  /** `b` is `a` after appends only: modules and their methods are added at the end of their lists, never removed or moved. */
  ghost predicate ModulesGrow(a: seq<Module>, b: seq<Module>)
  {
    && |a| <= |b|
    && forall k :: 0 <= k < |a| ==>
         && b[k].id == a[k].id && b[k].assembly == a[k].assembly
         && |a[k].methods| <= |b[k].methods|
         && forall j :: 0 <= j < |a[k].methods| ==> MethodGrows(a[k].methods[j], b[k].methods[j])
  }

  lemma ModulesGrowTransitive(a: seq<Module>, b: seq<Module>, c: seq<Module>)
    requires ModulesGrow(a, b) && ModulesGrow(b, c)
    ensures ModulesGrow(a, c)
  {
    forall k, j | 0 <= k < |a| && 0 <= j < |a[k].methods|
      ensures MethodGrows(a[k].methods[j], c[k].methods[j])
    {
      assert MethodGrows(a[k].methods[j], b[k].methods[j]);
      assert MethodGrows(b[k].methods[j], c[k].methods[j]);
    }
  }

  lemma StepGrows(s: ReadState, node: Node)
    requires Consistent(s)
    ensures ModulesGrow(s.modules, Step(s, node).modules)
  {
    var r := Step(s, node);
    if IsElementNamed(node, "seqpnt") && s.currentMethod.Some? {
      var ref := s.currentMethod.value;
      forall k, j | 0 <= k < |s.modules| && 0 <= j < |s.modules[k].methods|
        ensures MethodGrows(s.modules[k].methods[j], r.modules[k].methods[j])
      {
        if k == ref.moduleIndex && j == ref.methodIndex {
          assert s.modules[k].methods[j].sequencePoints <= r.modules[k].methods[j].sequencePoints;
        }
      }
    }
  }

  /** Reading only ever appends: to the modules list, to a module's methods and to a method's sequence points. */
  lemma {:induction false} ReadGrows(start: ReadState, nodes: seq<Node>)
    requires Consistent(start)
    ensures ModulesGrow(start.modules, Read(start, nodes).modules)
    decreases |nodes|
  {
    if nodes == [] {
      forall k, j | 0 <= k < |start.modules| && 0 <= j < |start.modules[k].methods|
        ensures MethodGrows(start.modules[k].methods[j], start.modules[k].methods[j])
      {
      }
    } else {
      var prefix := nodes[..|nodes| - 1];
      ReadGrows(start, prefix);
      StepGrows(Read(start, prefix), nodes[|nodes| - 1]);
      ModulesGrowTransitive(start.modules, Read(start, prefix).modules, Read(start, nodes).modules);
    }
  }

  /** An accepted `method` element adds one method at the end of the current module and nowhere else, and makes it current. */
  lemma StepAddsMethodToCurrentModule(s: ReadState, node: Node)
    requires Consistent(s) && IsElementNamed(node, "method") && s.currentModule.Some?
    ensures var r := Step(s, node);
            var at := s.currentModule.value;
            && at == |s.modules| - 1
            && |r.modules| == |s.modules|
            && r.modules[at].methods == s.modules[at].methods + [NewMethod(s.nextId, node)]
            && (forall k :: 0 <= k < |s.modules| && k != at ==> r.modules[k] == s.modules[k])
            && r.currentMethod == Some(MethodRef(at, |s.modules[at].methods|))
            && r.modules[at].methods[r.currentMethod.value.methodIndex] == NewMethod(s.nextId, node)
  {
  }

  /** An accepted `seqpnt` element adds one sequence point at the end of the current method and changes nothing else. */
  lemma StepAddsPointToCurrentMethod(s: ReadState, node: Node)
    requires Consistent(s) && IsElementNamed(node, "seqpnt") && s.currentMethod.Some?
    ensures var r := Step(s, node);
            var ref := s.currentMethod.value;
            var before := s.modules[ref.moduleIndex].methods[ref.methodIndex];
            && |r.modules| == |s.modules|
            && |r.modules[ref.moduleIndex].methods| == |s.modules[ref.moduleIndex].methods|
            && r.modules[ref.moduleIndex].methods[ref.methodIndex]
               == before.(sequencePoints := before.sequencePoints + [NewSequencePoint(node)])
            && (forall k :: 0 <= k < |s.modules| && k != ref.moduleIndex ==> r.modules[k] == s.modules[k])
            && (forall j :: 0 <= j < |s.modules[ref.moduleIndex].methods| && j != ref.methodIndex
                  ==> r.modules[ref.moduleIndex].methods[j] == s.modules[ref.moduleIndex].methods[j])
            && r.currentModule == s.currentModule && r.currentMethod == s.currentMethod
            && r.nextId == s.nextId
  {
  }

  // ---------------------------------------------------------------------------
  // The current method survives a new module

  /**
    A `module` element does not clear the current method: a `seqpnt` that
    follows it before any `method` element goes to the method of the previous
    module, and the new module stays without methods.
   */
  lemma SeqpntAfterNewModuleJoinsPreviousMethod(s: ReadState, moduleNode: Node, pointNode: Node)
    requires Consistent(s) && s.currentMethod.Some?
    requires IsElementNamed(moduleNode, "module") && IsElementNamed(pointNode, "seqpnt")
    ensures var r := Step(Step(s, moduleNode), pointNode);
            && s.currentMethod.value.moduleIndex < |s.modules|
            && r.modules == WithSequencePoint(s.modules, s.currentMethod.value, NewSequencePoint(pointNode))
                            + [NewModule(s.nextId, moduleNode)]
            && r.modules[|s.modules|].methods == []
  {
    var ref := s.currentMethod.value;
    var point := NewSequencePoint(pointNode);
    var added := s.modules + [NewModule(s.nextId, moduleNode)];
    assert added[ref.moduleIndex] == s.modules[ref.moduleIndex];
    assert WithSequencePoint(added, ref, point) == WithSequencePoint(s.modules, ref, point) + [NewModule(s.nextId, moduleNode)];
  }

  function ElementNode(name: string, attributes: map<string, string>): Node
  {
    Node(Element, name, attributes)
  }

  lemma ReadFour(start: ReadState, n0: Node, n1: Node, n2: Node, n3: Node)
    requires Consistent(start)
    ensures Read(start, [n0, n1, n2, n3]) == Step(Step(Step(Step(start, n0), n1), n2), n3)
  {
    assert Read(start, [n0]) == Step(start, n0) by {
      assert [n0][..0] == [];
    }
    assert Read(start, [n0, n1]) == Step(Read(start, [n0]), n1) by {
      assert [n0, n1][..1] == [n0];
    }
    assert Read(start, [n0, n1, n2]) == Step(Read(start, [n0, n1]), n2) by {
      assert [n0, n1, n2][..2] == [n0, n1];
    }
    assert [n0, n1, n2, n3][..3] == [n0, n1, n2];
  }

  lemma ElementNamesDiffer()
    ensures "method" != "module" && "seqpnt" != "module" && "seqpnt" != "method"
  {
    assert "method"[1] != "module"[1] && "seqpnt"[0] != "module"[0] && "seqpnt"[0] != "method"[0];
  }

  /** A `module` element followed by a `method` element reads as one module holding one method, which is current. */
  lemma ModuleThenMethod(n0: Node, n1: Node)
    requires n0 == ElementNode("module", map["assembly" := "A"]) && n1 == ElementNode("method", map["name" := "M"])
    ensures Step(Step(Start([], 0), n0), n1)
         == ReadState([Module(0, Some("A"), [Method(1, Some("M"), None, [])])], Some(0), Some(MethodRef(0, 0)), 2)
  {
    ElementNamesDiffer();
    var s1 := Step(Start([], 0), n0);
    assert s1 == ReadState([Module(0, Some("A"), [])], Some(0), None, 1);
    var m := Method(1, Some("M"), None, []);
    assert "class" !in n1.attributes;
    assert NewMethod(1, n1) == m;
    assert s1.modules[0].methods + [m] == [m];
  }

  /**
    The document `<module A><method M/></module><module B><seqpnt P/></module>`
    gives `P` to method `M` of module `A`; module `B` has no methods.
   */
  lemma SeqpntInMethodlessModuleExample(p: map<string, string>)
    ensures var nodes := [ElementNode("module", map["assembly" := "A"]), ElementNode("method", map["name" := "M"]),
                          ElementNode("module", map["assembly" := "B"]), ElementNode("seqpnt", p)];
            var r := Read(Start([], 0), nodes);
            && |r.modules| == 2
            && r.modules[0].assembly == Some("A") && r.modules[1].assembly == Some("B")
            && r.modules[0].methods == [Method(1, Some("M"), None, [NewSequencePoint(ElementNode("seqpnt", p))])]
            && r.modules[1].methods == []
  {
    var n0 := ElementNode("module", map["assembly" := "A"]);
    var n1 := ElementNode("method", map["name" := "M"]);
    var n2 := ElementNode("module", map["assembly" := "B"]);
    var n3 := ElementNode("seqpnt", p);
    var s0 := Start([], 0);
    ReadFour(s0, n0, n1, n2, n3);
    var s2 := Step(Step(s0, n0), n1);
    ModuleThenMethod(n0, n1);
    SeqpntAfterNewModuleJoinsPreviousMethod(s2, n2, n3);
    var point := NewSequencePoint(n3);
    assert [] + [point] == [point];
  }

  // ---------------------------------------------------------------------------
  // Attribute conversion

  /** `GetInteger` returns every Int32, written as `Int32.ToString` writes it and padded with white space. */
  lemma GetIntegerOfFormatted(n: int, lead: string, trail: string)
    requires Int32Min <= n <= Int32Max
    requires forall i :: 0 <= i < |lead| ==> IsNumberWhite(lead[i])
    requires forall i :: 0 <= i < |trail| ==> IsNumberWhite(trail[i])
    ensures GetInteger(Some(lead + FormatInt32(n) + trail)) == n
  {
    TryParseInt32OfFormatted(n, lead, trail);
  }

  /** A number outside the Int32 range reads as 0. */
  lemma GetIntegerOutOfRange(n: int)
    requires n < Int32Min || Int32Max < n
    ensures GetInteger(Some(FormatInt32(n))) == 0
  {
    TryParseInt32OutOfRange(n);
  }

  /** Text without a single digit reads as 0. */
  lemma GetIntegerWithoutDigits(s: string)
    requires forall i :: 0 <= i < |s| ==> !IsDigit(s[i])
    ensures GetInteger(Some(s)) == 0
  {
    TryParseInt32NeedsDigits(s);
  }

  /** A non-zero result always comes from text that parses as that Int32. */
  lemma GetIntegerNonZero(s: Option<string>)
    requires GetInteger(s) != 0
    ensures s.Some? && TryParseInt32(s.value) == Some(GetInteger(s))
  {
  }

  /** `IsExcluded` holds exactly when the `excluded` attribute is present and parses as boolean true. */
  lemma IsExcludedIff(node: Node)
    ensures IsExcluded(node) <==> "excluded" in node.attributes && TryParseBoolean(node.attributes["excluded"]) == Some(true)
  {
  }

  /** An `excluded` attribute written as `Boolean.ToString` writes it, with any trimmed padding, gives that value. */
  lemma IsExcludedOfFormatted(node: Node, b: bool, lead: string, trail: string)
    requires forall i :: 0 <= i < |lead| ==> IsBooleanTrimmed(lead[i])
    requires forall i :: 0 <= i < |trail| ==> IsBooleanTrimmed(trail[i])
    requires "excluded" in node.attributes && node.attributes["excluded"] == lead + FormatBoolean(b) + trail
    ensures IsExcluded(node) == b
  {
    TryParseBooleanOfFormatted(b, lead, trail);
  }

  // ---------------------------------------------------------------------------
  // Filtering

  /**
    The modules the constructor keeps: the modules read that are not excluded,
    in their order, with their identities and names. Module exclusion is
    judged on the module as read, before its methods are filtered.
   */
  lemma LoadModules(nodes: seq<Node>, moduleExcluded: Module -> bool, methodExcluded: Method -> bool)
    ensures var read := Read(Start([], 0), nodes).modules;
            var kept := WithoutExcluded(moduleExcluded, read);
            var loaded := Load(nodes, moduleExcluded, methodExcluded);
            && |loaded| == |kept|
            && (forall m :: m in kept <==> m in read && !moduleExcluded(m))
            && (forall k :: 0 <= k < |loaded| ==>
                  loaded[k].id == kept[k].id && loaded[k].assembly == kept[k].assembly && !moduleExcluded(kept[k]))
  {
    var read := Read(Start([], 0), nodes).modules;
    var kept := WithoutExcluded(moduleExcluded, read);
    forall m
      ensures m in kept <==> m in read && !moduleExcluded(m)
    {
      WithoutExcludedMembership(moduleExcluded, read, m);
    }
    forall k | 0 <= k < |kept|
      ensures !moduleExcluded(kept[k])
    {
      assert kept[k] in kept;
    }
  }

  /** Each kept module holds exactly its own methods that are not excluded. */
  lemma LoadMethods(nodes: seq<Node>, moduleExcluded: Module -> bool, methodExcluded: Method -> bool)
    ensures var kept := WithoutExcluded(moduleExcluded, Read(Start([], 0), nodes).modules);
            var loaded := Load(nodes, moduleExcluded, methodExcluded);
            forall k, m :: 0 <= k < |loaded| ==> (m in loaded[k].methods <==> m in kept[k].methods && !methodExcluded(m))
  {
    var kept := WithoutExcluded(moduleExcluded, Read(Start([], 0), nodes).modules);
    var loaded := Load(nodes, moduleExcluded, methodExcluded);
    forall k, m | 0 <= k < |loaded|
      ensures m in loaded[k].methods <==> m in kept[k].methods && !methodExcluded(m)
    {
      assert loaded[k] == WithoutExcludedMethods(kept[k], methodExcluded);
      WithoutExcludedMembership(methodExcluded, kept[k].methods, m);
    }
  }

  /** After loading, no method that remains is excluded. */
  lemma LoadLeavesNoExcludedMethod(nodes: seq<Node>, moduleExcluded: Module -> bool, methodExcluded: Method -> bool)
    ensures forall k, m :: 0 <= k < |Load(nodes, moduleExcluded, methodExcluded)| && m in Load(nodes, moduleExcluded, methodExcluded)[k].methods
              ==> !methodExcluded(m)
  {
    LoadMethods(nodes, moduleExcluded, methodExcluded);
  }

  /** A method stays in the module that read it: no loaded method belongs to two modules. */
  lemma LoadKeepsMethodsApart(nodes: seq<Node>, moduleExcluded: Module -> bool, methodExcluded: Method -> bool)
    ensures Pairwise(MethodsApart, Load(nodes, moduleExcluded, methodExcluded))
  {
    var read := Read(Start([], 0), nodes).modules;
    var kept := WithoutExcluded(moduleExcluded, read);
    var loaded := Load(nodes, moduleExcluded, methodExcluded);
    ReadKeepsIdentitiesFresh(Start([], 0), nodes);
    FreshIdentitiesKeepMethodsApart(read, Read(Start([], 0), nodes).nextId);
    PairwiseWithoutExcluded(MethodsApart, moduleExcluded, read);
    forall i, j | 0 <= i < j < |loaded|
      ensures MethodsApart(loaded[i], loaded[j])
    {
      forall m | m in loaded[i].methods
        ensures m !in loaded[j].methods
      {
        WithoutExcludedMembership(methodExcluded, kept[i].methods, m);
        WithoutExcludedMembership(methodExcluded, kept[j].methods, m);
        assert MethodsApart(kept[i], kept[j]);
      }
    }
  }

  ghost predicate ModuleBefore(a: Module, b: Module)
  {
    a.id < b.id
  }

  ghost predicate MethodBefore(a: Method, b: Method)
  {
    a.id < b.id
  }

  /** Objects are created in document order: identities ascend along every list and are all below `nextId`. */
  ghost predicate AllocatedInOrder(modules: seq<Module>, nextId: nat)
  {
    && Pairwise(ModuleBefore, modules)
    && forall k :: 0 <= k < |modules| ==>
         && modules[k].id < nextId
         && Pairwise(MethodBefore, modules[k].methods)
         && forall j :: 0 <= j < |modules[k].methods| ==> modules[k].methods[j].id < nextId
  }

  /** Lists with the same identities in the same places are equally ordered. */
  lemma AllocatedInOrderByIdentities(a: seq<Module>, b: seq<Module>, nextId: nat)
    requires AllocatedInOrder(a, nextId) && |a| == |b|
    requires forall k :: 0 <= k < |a| ==> b[k].id == a[k].id && |b[k].methods| == |a[k].methods|
    requires forall k, j :: 0 <= k < |a| && 0 <= j < |a[k].methods| ==> b[k].methods[j].id == a[k].methods[j].id
    ensures AllocatedInOrder(b, nextId)
  {
    forall k | 0 <= k < |b|
      ensures Pairwise(MethodBefore, b[k].methods)
    {
      assert Pairwise(MethodBefore, a[k].methods);
    }
  }

  lemma MethodAllocatedInOrder(s: ReadState, node: Node)
    requires Consistent(s) && AllocatedInOrder(s.modules, s.nextId)
    requires IsElementNamed(node, "method") && s.currentModule.Some?
    ensures AllocatedInOrder(Step(s, node).modules, Step(s, node).nextId)
    ensures forall k :: 0 <= k < |s.modules| ==> s.modules[k].id < NewMethod(s.nextId, node).id
    ensures forall k, j :: 0 <= k < |s.modules| && 0 <= j < |s.modules[k].methods| ==>
              s.modules[k].methods[j].id < NewMethod(s.nextId, node).id
  {
    var r := Step(s, node);
    var at := s.currentModule.value;
    var methods := r.modules[at].methods;
    assert methods == s.modules[at].methods + [NewMethod(s.nextId, node)];
    assert forall j :: 0 <= j < |methods| - 1 ==> methods[j] == s.modules[at].methods[j];
    assert Pairwise(MethodBefore, methods) by {
      assert Pairwise(MethodBefore, s.modules[at].methods);
    }
    assert forall k :: 0 <= k < |s.modules| && k != at ==> r.modules[k] == s.modules[k];
  }

  lemma StepAllocatedInOrder(s: ReadState, node: Node)
    requires Consistent(s) && AllocatedInOrder(s.modules, s.nextId)
    ensures AllocatedInOrder(Step(s, node).modules, Step(s, node).nextId)
  {
    var r := Step(s, node);
    if IsElementNamed(node, "module") {
      assert r.modules == s.modules + [NewModule(s.nextId, node)];
    } else if IsElementNamed(node, "method") && s.currentModule.Some? {
      MethodAllocatedInOrder(s, node);
    } else if IsElementNamed(node, "seqpnt") && s.currentMethod.Some? {
      AllocatedInOrderByIdentities(s.modules, r.modules, s.nextId);
    }
  }

  lemma {:induction false} ReadAllocatedInOrder(start: ReadState, nodes: seq<Node>)
    requires Consistent(start) && AllocatedInOrder(start.modules, start.nextId)
    ensures AllocatedInOrder(Read(start, nodes).modules, Read(start, nodes).nextId)
    decreases |nodes|
  {
    if nodes != [] {
      ReadAllocatedInOrder(start, nodes[..|nodes| - 1]);
      StepAllocatedInOrder(Read(start, nodes[..|nodes| - 1]), nodes[|nodes| - 1]);
    }
  }

  /** Filtering keeps the document order of the surviving modules and of the surviving methods of each. */
  lemma LoadKeepsDocumentOrder(nodes: seq<Node>, moduleExcluded: Module -> bool, methodExcluded: Method -> bool)
    ensures var loaded := Load(nodes, moduleExcluded, methodExcluded);
            && Pairwise(ModuleBefore, loaded)
            && forall k :: 0 <= k < |loaded| ==> Pairwise(MethodBefore, loaded[k].methods)
  {
    var read := Read(Start([], 0), nodes).modules;
    var kept := WithoutExcluded(moduleExcluded, read);
    var loaded := Load(nodes, moduleExcluded, methodExcluded);
    ReadAllocatedInOrder(Start([], 0), nodes);
    PairwiseWithoutExcluded(ModuleBefore, moduleExcluded, read);
    assert forall i, j :: 0 <= i < j < |loaded| ==> ModuleBefore(kept[i], kept[j]);
    forall k | 0 <= k < |loaded|
      ensures Pairwise(MethodBefore, loaded[k].methods)
    {
      WithoutExcludedMembership(moduleExcluded, read, kept[k]);
      var i :| 0 <= i < |read| && read[i] == kept[k];
      PairwiseWithoutExcluded(MethodBefore, methodExcluded, kept[k].methods);
    }
  }

  // ---------------------------------------------------------------------------
  // Querying

  lemma {:induction false} PointsOfAppend(a: seq<Module>, b: seq<Module>, modulePoints: (Module, string) -> seq<SequencePoint>, fileName: string)
    ensures PointsOf(a + b, modulePoints, fileName) == PointsOf(a, modulePoints, fileName) + PointsOf(b, modulePoints, fileName)
    decreases |b|
  {
    if b == [] {
      assert a + b == a;
    } else {
      var c := a + b;
      assert c[..|c| - 1] == a + b[..|b| - 1];
      PointsOfAppend(a, b[..|b| - 1], modulePoints, fileName);
    }
  }

  /** A sequence point is returned exactly when some module returns it. */
  lemma {:induction false} PointsOfMembership(modules: seq<Module>, modulePoints: (Module, string) -> seq<SequencePoint>, fileName: string, p: SequencePoint)
    ensures p in PointsOf(modules, modulePoints, fileName) <==> exists k :: 0 <= k < |modules| && p in modulePoints(modules[k], fileName)
    decreases |modules|
  {
    if modules != [] {
      var prefix := modules[..|modules| - 1];
      PointsOfMembership(prefix, modulePoints, fileName, p);
      if p in modulePoints(modules[|modules| - 1], fileName) {
        assert 0 <= |modules| - 1 < |modules|;
      }
      if exists k :: 0 <= k < |modules| && p in modulePoints(modules[k], fileName) {
        var k :| 0 <= k < |modules| && p in modulePoints(modules[k], fileName);
        if k < |prefix| {
          assert prefix[k] == modules[k];
        }
      }
    }
  }

  /** With one module the query returns exactly that module's points; with none it returns nothing. */
  lemma PointsOfSingle(m: Module, modulePoints: (Module, string) -> seq<SequencePoint>, fileName: string)
    ensures PointsOf([], modulePoints, fileName) == []
    ensures PointsOf([m], modulePoints, fileName) == modulePoints(m, fileName)
  {
    assert [m][..0] == [];
  }
}
