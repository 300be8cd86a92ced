# Coverage-report loader

A Dafny model of `CodeCoverageResults`, the class of SharpDevelop's
CodeCoverage add-in that loads a coverage report. It reads the report's XML
nodes one at a time:

- a `module` element appends a module;
- a `method` element appends a method to the current module;
- a `seqpnt` element appends a sequence point to the current method.

Once the document is read, the loader drops the excluded modules, then the
excluded methods, editing its lists in place. Afterwards it answers
`GetSequencePoints(fileName)` by concatenating what each module returns for
that file.

The project has these files:

- `xml_nodes.dfy` holds the XML input, already split into nodes (kind, name, attribute map), and `XmlReader.GetAttribute`.
- `text_conversions.dfy` holds `Int32.TryParse` and `Boolean.TryParse` written out, with the formatting functions whose output they accept.
- `sequences.dfy` holds the list operations:
  - keeping or collecting the excluded elements;
  - `List<T>.Remove`, which drops the first equal element;
  - the "collect, then remove each" loop.
- `code_coverage.dfy` holds the loader:
  - the reading loop as a fold `Read` of one-node steps `Step`;
  - the `CodeCoverageResults` class, whose methods update `modules` in place and are proved against `Read`, `WithoutExcluded`, `FilterMethods` and `PointsOf`.
- `coverage_properties.dfy` holds what the loader promises, proved about those functions.

Modules and methods are objects in C#. The model takes it that
`List<T>.Remove` compares them by reference, which holds when their classes
keep the default `Equals`. In the model they are values that carry an `id`. The class
draws every id from its `nextId` counter, which stands for the allocator.
So two methods are equal exactly when they are the same object. The
cursors `currentModule` and `currentMethod` are positions in the lists.
The lists only grow while the document is read, so a position always
designates the object the C# reference would designate.

`RemoveExcludedMethods` never clears its `excludedMethods` list, so every
module is also asked to remove the methods excluded in the modules before
it. The model proves that such a removal is a no-op, because no method
object belongs to two modules. The net effect is filtering each module on
its own.

## Model

| member | source | states |
|---|---|---|
| XmlNodes.GetAttribute | src/AddIns/Misc/CodeCoverage/Project/Src/CodeCoverageResults.cs:139 | the result is present exactly when the node has the attribute, and is then its value (null otherwise) |
| TextConversions.TryParseInt32 | src/AddIns/Misc/CodeCoverage/Project/Src/CodeCoverageResults.cs:100 | a successful parse yields a value in the Int32 range |
| TextConversions.TryParseInt32OfFormatted | src/AddIns/Misc/CodeCoverage/Project/Src/CodeCoverageResults.cs:100 | every Int32, formatted and padded with white space, parses back to itself |
| TextConversions.TryParseInt32OutOfRange | src/AddIns/Misc/CodeCoverage/Project/Src/CodeCoverageResults.cs:100 | a correctly written number outside the Int32 range is rejected |
| TextConversions.TryParseInt32WithPlus | src/AddIns/Misc/CodeCoverage/Project/Src/CodeCoverageResults.cs:100 | a leading plus sign is accepted |
| TextConversions.TryParseInt32NeedsDigits | src/AddIns/Misc/CodeCoverage/Project/Src/CodeCoverageResults.cs:100 | text containing no digit never parses |
| TextConversions.ParseSignedDigitsOfFormatted | src/AddIns/Misc/CodeCoverage/Project/Src/CodeCoverageResults.cs:100 | after trimming, formatted text parses to the number when it is in range and is rejected otherwise |
| TextConversions.TrimOfPadded | src/AddIns/Misc/CodeCoverage/Project/Src/CodeCoverageResults.cs:100 | trimming removes exactly the padding around a text that neither starts nor ends with a trimmed character |
| TextConversions.TryParseBoolean | src/AddIns/Misc/CodeCoverage/Project/Src/CodeCoverageResults.cs:142 | the result is true exactly when the trimmed text is "true" in some ASCII letter case, and false exactly when it is "false" in some ASCII letter case; any other text fails |
| TextConversions.TryParseBooleanOfFormatted | src/AddIns/Misc/CodeCoverage/Project/Src/CodeCoverageResults.cs:142 | both results of `Boolean.ToString`, with any trimmed padding, parse back to their value |
| TextConversions.BooleanLiteralOfFormatted | src/AddIns/Misc/CodeCoverage/Project/Src/CodeCoverageResults.cs:142 | the exact texts "True" and "False" that `Boolean.ToString` writes are recognised as true and false |
| Sequences.RemoveFirst | src/AddIns/Misc/CodeCoverage/Project/Src/CodeCoverageResults.cs:117 | `List<T>.Remove` drops one element when the value is present and none otherwise |
| Sequences.RemoveFirstAbsent | src/AddIns/Misc/CodeCoverage/Project/Src/CodeCoverageResults.cs:132 | removing a value that is not in the list leaves the list unchanged |
| Sequences.RemoveFirstAfter | src/AddIns/Misc/CodeCoverage/Project/Src/CodeCoverageResults.cs:117 | when the value does not occur before a given position, the occurrence at that position is the one removed |
| Sequences.RemoveNextExcluded | src/AddIns/Misc/CodeCoverage/Project/Src/CodeCoverageResults.cs:116-118 | removing the next collected excluded element extends the filtered prefix just past that element |
| Sequences.RemoveEach | src/AddIns/Misc/CodeCoverage/Project/Src/CodeCoverageResults.cs:116-118 | removing, in order, elements absent from the list and then the list's own excluded elements in their collection order leaves exactly the elements that are not excluded |
| Sequences.WithoutExcludedMembership | src/AddIns/Misc/CodeCoverage/Project/Src/CodeCoverageResults.cs:106-119 | an element survives filtering exactly when it was present and is not excluded |
| Sequences.OnlyExcludedMembership | src/AddIns/Misc/CodeCoverage/Project/Src/CodeCoverageResults.cs:108-114 | an element is collected exactly when it is present and excluded |
| Sequences.WithoutExcludedAppend | src/AddIns/Misc/CodeCoverage/Project/Src/CodeCoverageResults.cs:110-118 | filtering a concatenation is concatenating the filtered parts, so filtering keeps order |
| Sequences.OnlyExcludedAppend | src/AddIns/Misc/CodeCoverage/Project/Src/CodeCoverageResults.cs:110-114 | the collect loop appends the excluded elements of each new item in order |
| Sequences.NothingExcluded | src/AddIns/Misc/CodeCoverage/Project/Src/CodeCoverageResults.cs:116-118 | with nothing collected, the list is left as it is |
| Sequences.PairwiseWithoutExcluded | src/AddIns/Misc/CodeCoverage/Project/Src/CodeCoverageResults.cs:106-135 | any relation that holds between every earlier and later element still holds after filtering, so survivors keep their relative order |
| CodeCoverage.GetInteger | src/AddIns/Misc/CodeCoverage/Project/Src/CodeCoverageResults.cs:97-104 | the result is always an Int32, and is 0 for a missing attribute |
| CodeCoverage.IsExcluded | src/AddIns/Misc/CodeCoverage/Project/Src/CodeCoverageResults.cs:137-147 | true only when the `excluded` attribute is present |
| CodeCoverage.Step | src/AddIns/Misc/CodeCoverage/Project/Src/CodeCoverageResults.cs:52-63 | one turn of the reading loop keeps the current module the last module and the current method an existing method |
| CodeCoverage.Read | src/AddIns/Misc/CodeCoverage/Project/Src/CodeCoverageResults.cs:47-64 | reading any node sequence keeps both cursors valid |
| CodeCoverage.FilterMethods | src/AddIns/Misc/CodeCoverage/Project/Src/CodeCoverageResults.cs:121-135 | every module keeps its place and loses exactly its excluded methods |
| CodeCoverage.StepKeepsIdentitiesFresh | src/AddIns/Misc/CodeCoverage/Project/Src/CodeCoverageResults.cs:71-83 | each `new` gets an identity never used before, so no method identity is shared by two modules |
| CodeCoverage.ReadKeepsIdentitiesFresh | src/AddIns/Misc/CodeCoverage/Project/Src/CodeCoverageResults.cs:47-64 | reading a whole document keeps identities fresh and unshared |
| CodeCoverage.FreshIdentitiesKeepMethodsApart | src/AddIns/Misc/CodeCoverage/Project/Src/CodeCoverageResults.cs:123-133 | unshared identities mean no method object is in two modules, so removing an earlier module's method from a later module is a no-op |
| CodeCoverage.MethodIdsAppend | src/AddIns/Misc/CodeCoverage/Project/Src/CodeCoverageResults.cs:81 | adding a method adds exactly its identity to the module's identities |
| CodeCoverage.MethodIdsUpdate | src/AddIns/Misc/CodeCoverage/Project/Src/CodeCoverageResults.cs:94 | adding a sequence point to a method leaves the module's method identities unchanged |
| CodeCoverage.CodeCoverageResults.constructor | src/AddIns/Misc/CodeCoverage/Project/Src/CodeCoverageResults.cs:23-26 | the results hold the filtered modules of the whole document, and no remaining method is excluded |
| CodeCoverage.CodeCoverageResults.GetSequencePoints | src/AddIns/Misc/CodeCoverage/Project/Src/CodeCoverageResults.cs:32-39 | the result is the concatenation, in module order, of each module's points for the file |
| CodeCoverage.CodeCoverageResults.Modules | src/AddIns/Misc/CodeCoverage/Project/Src/CodeCoverageResults.cs:41-45 | returns the current modules |
| CodeCoverage.CodeCoverageResults.ReadResults | src/AddIns/Misc/CodeCoverage/Project/Src/CodeCoverageResults.cs:47-69 | with the identities fresh, as allocation guarantees, after the loop the state is `Read` of the document; then excluded modules are dropped, then excluded methods, and no excluded method remains |
| CodeCoverage.CodeCoverageResults.AddModule | src/AddIns/Misc/CodeCoverage/Project/Src/CodeCoverageResults.cs:71-76 | one new module with the element's assembly name is appended, and it becomes the current module |
| CodeCoverage.CodeCoverageResults.AddMethod | src/AddIns/Misc/CodeCoverage/Project/Src/CodeCoverageResults.cs:78-83 | one new method with the element's name and class is appended to the given module, and it is the method returned |
| CodeCoverage.CodeCoverageResults.AddSequencePoint | src/AddIns/Misc/CodeCoverage/Project/Src/CodeCoverageResults.cs:85-95 | one sequence point built from the element's attributes is appended to the given method, and nothing else changes |
| CodeCoverage.CodeCoverageResults.RemoveExcludedModules | src/AddIns/Misc/CodeCoverage/Project/Src/CodeCoverageResults.cs:106-119 | the list becomes exactly its modules that are not excluded, in order |
| CodeCoverage.CodeCoverageResults.RemoveExcludedMethods | src/AddIns/Misc/CodeCoverage/Project/Src/CodeCoverageResults.cs:121-135 | when no method is in two modules, the never-cleared list of collected methods filters each module on its own |
| CoverageProperties.ReadAppend | src/AddIns/Misc/CodeCoverage/Project/Src/CodeCoverageResults.cs:52-64 | reading is sequential: reading a document is reading its first part and then the rest from the state reached |
| CoverageProperties.ReadIgnoresUnrecognised | src/AddIns/Misc/CodeCoverage/Project/Src/CodeCoverageResults.cs:52-63 | nodes other than `module`, `method` and `seqpnt` elements leave the lists and both cursors unchanged |
| CoverageProperties.InsertUnrecognised | src/AddIns/Misc/CodeCoverage/Project/Src/CodeCoverageResults.cs:52-63 | inserting such a node anywhere in a document changes nothing that is read |
| CoverageProperties.NoModuleReadsNothing | src/AddIns/Misc/CodeCoverage/Project/Src/CodeCoverageResults.cs:49-60 | without a `module` element, every `method` and `seqpnt` element is an orphan and is dropped |
| CoverageProperties.NoMethodReadsNoMethods | src/AddIns/Misc/CodeCoverage/Project/Src/CodeCoverageResults.cs:50-60 | without a `method` element, every `seqpnt` element is dropped, and the new modules have no methods |
| CoverageProperties.StepAssemblies | src/AddIns/Misc/CodeCoverage/Project/Src/CodeCoverageResults.cs:55-76 | only a `module` element adds a module, at the end, with its assembly name; module names and positions never change |
| CoverageProperties.ReadAppendsModules | src/AddIns/Misc/CodeCoverage/Project/Src/CodeCoverageResults.cs:71-76 | the modules read are the `module` elements in document order, one each, so their count is the number of such elements |
| CoverageProperties.StepGrows | src/AddIns/Misc/CodeCoverage/Project/Src/CodeCoverageResults.cs:71-95 | a step only appends, to the module list, to a method list or to a sequence-point list |
| CoverageProperties.ReadGrows | src/AddIns/Misc/CodeCoverage/Project/Src/CodeCoverageResults.cs:47-64 | nothing read is ever removed, reordered or renamed while reading |
| CoverageProperties.StepAddsMethodToCurrentModule | src/AddIns/Misc/CodeCoverage/Project/Src/CodeCoverageResults.cs:57-83 | an accepted `method` element goes at the end of the last module, changes no other module, and becomes the current method |
| CoverageProperties.StepAddsPointToCurrentMethod | src/AddIns/Misc/CodeCoverage/Project/Src/CodeCoverageResults.cs:59-95 | an accepted `seqpnt` element goes at the end of the current method; every other module and method, both cursors and the identity counter stay unchanged |
| CoverageProperties.SeqpntAfterNewModuleJoinsPreviousMethod | src/AddIns/Misc/CodeCoverage/Project/Src/CodeCoverageResults.cs:55-60 | a `module` element does not reset the current method, so a following `seqpnt` goes to the previous module's method |
| CoverageProperties.SeqpntInMethodlessModuleExample | src/AddIns/Misc/CodeCoverage/Project/Src/CodeCoverageResults.cs:55-60 | in a concrete document, a point read inside a module without methods lands in the previous module's method |
| CoverageProperties.GetIntegerOfFormatted | src/AddIns/Misc/CodeCoverage/Project/Src/CodeCoverageResults.cs:97-104 | every Int32 attribute value, padded with white space, is read as itself |
| CoverageProperties.GetIntegerOutOfRange | src/AddIns/Misc/CodeCoverage/Project/Src/CodeCoverageResults.cs:97-104 | an out-of-range number is read as 0 |
| CoverageProperties.GetIntegerWithoutDigits | src/AddIns/Misc/CodeCoverage/Project/Src/CodeCoverageResults.cs:97-104 | text without digits is read as 0 |
| CoverageProperties.GetIntegerNonZero | src/AddIns/Misc/CodeCoverage/Project/Src/CodeCoverageResults.cs:97-104 | helper that unfolds the definition: a non-zero result comes only from an attribute that parses as that Int32 |
| CoverageProperties.IsExcludedIff | src/AddIns/Misc/CodeCoverage/Project/Src/CodeCoverageResults.cs:137-147 | helper that unfolds the definition: excluded exactly when the attribute is present and parses as true |
| CoverageProperties.IsExcludedOfFormatted | src/AddIns/Misc/CodeCoverage/Project/Src/CodeCoverageResults.cs:137-147 | an attribute holding "True" or "False", with any trimmed padding, gives that value |
| CoverageProperties.LoadModules | src/AddIns/Misc/CodeCoverage/Project/Src/CodeCoverageResults.cs:67-135 | the loaded modules are exactly the read modules that are not excluded, in order, with their identities and names |
| CoverageProperties.LoadMethods | src/AddIns/Misc/CodeCoverage/Project/Src/CodeCoverageResults.cs:67-135 | each loaded module holds exactly its own methods that are not excluded |
| CoverageProperties.LoadLeavesNoExcludedMethod | src/AddIns/Misc/CodeCoverage/Project/Src/CodeCoverageResults.cs:121-135 | no loaded method is excluded |
| CoverageProperties.LoadKeepsMethodsApart | src/AddIns/Misc/CodeCoverage/Project/Src/CodeCoverageResults.cs:121-135 | after loading, no method belongs to two modules |
| CoverageProperties.MethodAllocatedInOrder | src/AddIns/Misc/CodeCoverage/Project/Src/CodeCoverageResults.cs:78-83 | a new method gets an identity above every module and every method already created, and the step keeps the module list and each method list in creation order |
| CoverageProperties.StepAllocatedInOrder | src/AddIns/Misc/CodeCoverage/Project/Src/CodeCoverageResults.cs:71-95 | each step keeps modules, and the methods of each module, in order of creation |
| CoverageProperties.ReadAllocatedInOrder | src/AddIns/Misc/CodeCoverage/Project/Src/CodeCoverageResults.cs:47-64 | reading keeps the module list and each method list in creation order, which is document order |
| CoverageProperties.LoadKeepsDocumentOrder | src/AddIns/Misc/CodeCoverage/Project/Src/CodeCoverageResults.cs:106-135 | surviving modules, and the surviving methods of each module, keep their document order |
| CoverageProperties.PointsOfAppend | src/AddIns/Misc/CodeCoverage/Project/Src/CodeCoverageResults.cs:35-37 | the query over a concatenation of module lists is the concatenation of the queries |
| CoverageProperties.PointsOfMembership | src/AddIns/Misc/CodeCoverage/Project/Src/CodeCoverageResults.cs:35-37 | a sequence point is returned exactly when some module returns it for the file |
| CoverageProperties.PointsOfSingle | src/AddIns/Misc/CodeCoverage/Project/Src/CodeCoverageResults.cs:34-38 | helper that unfolds the definition: with no modules the result is empty, with one module it is that module's points |

## Left out

- The constructors that take a file name or a `TextReader` (lines 19-21 and 28-30), and `reader.Close()` (line 65), are I/O. The model's constructor takes the nodes the `XmlReader` would report.
- Tokenising XML text into nodes is left to the XML library and is not modelled. Attribute values are plain strings; an attribute that is absent is the null of `GetAttribute`.
- `CodeCoverageModule`, `CodeCoverageMethod` and `CodeCoverageSequencePoint` are not part of this model. Their `IsExcluded` properties and `CodeCoverageModule.GetSequencePoints` are functions that the constructor receives, and they are not given definitions. A sequence point is the tuple of its constructor's arguments.
- Object identity is an `id` drawn from a counter, and the cursors are positions. References that alias nested lists are not modelled otherwise.
- The classes `CodeCoverageModule` and `CodeCoverageMethod` are assumed to keep the default reference `Equals`. A new module is assumed to start with an empty `Methods` list, and a new method with an empty `SequencePoints` list. Both properties are assumed to return the same list every time. The proof that the never-cleared `excludedMethods` list (line 123) does nothing to later modules rests on these assumptions. An `Equals` that compared, say, name and class would instead remove a same-named method from a later module, and the model does not capture that.
- CodeCoverage.CodeCoverageResults.Modules: the C# property returns the list object itself, so a caller that edits it changes the results object. The model returns the modules as a value, and that aliasing is not captured.
- Module exclusion is judged on each module as read, before its methods are filtered. After loading, a module's value has changed, so "no remaining module is excluded" is stated about the value as read (`CoverageProperties.LoadModules`).
- TextConversions.TryParseInt32: assumes invariant culture. A culture's own sign symbols are not modelled, nor are the trailing NUL characters that .NET accepts. White space is U+0009 to U+000D and the space character.
- TextConversions.TryParseBoolean: compares letters ASCII-case-insensitively, whereas .NET folds case over all of Unicode. The difference affects only unusual spellings of "false" (such as one with a long s). Those parse as false in .NET and fail to parse here, and both give `IsExcluded` false.
- Sequences.RemoveFirst: its contract gives the length of the result. Its contents are fixed by `RemoveFirstAbsent` and `RemoveFirstAfter`, which is all the loops need.
