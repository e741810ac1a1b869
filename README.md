# Class metadata queries of the JnJVM virtual machine

This project models the query side of the class metadata of JnJVM, the Java
virtual machine of vmkit (`lib/JnJVM/VMCore/JavaClass.cpp`):

- attribute lookup by name, on classes, methods and fields;
- method and field resolution: first the class itself, then everything the
  superclass's own lookup searches (its chain and, for static members, the
  interfaces of the classes on it, the root's first), then, for static
  members only, the class's own direct interfaces in declaration order;
- the type tests: `subclassOf` (constant-time display test), `implements`,
  `instantiationOfArray`, `isAssignableFrom`, `inheritName` and
  `isOfTypeName`;
- `ClassArray::arrayLoader`, the defining loader of an array class, found
  from its descriptor.

The class records form a graph (`ClassGraph.Graph`), a map from class id to
record. Two class references are the same exactly when their ids are equal. A
well-formed graph numbers its classes topologically: the superclass, every
direct interface and the component class of an array class all have smaller
ids than the class that refers to them. The display table that class
resolution builds is an input field of each record. `ClassGraph.DisplayInvariant`
states what resolution establishes about it. Lemmas that rely on the display
say so in their `requires`.

The specification side is independent of the runtime's algorithms:

- the superclass chain (`ClassGraph.Chain`);
- paths along superclass and interface edges (`ClassGraph.Reaches`);
- descriptors built from their parts (`Descriptors.ArrayDescriptor`,
  `Descriptors.PrimitiveArrayDescriptor`).

Where the source works by loops, the model has methods:

- `Attributes.LookupAttribut`, whose contract states the first-match
  property directly;
- `MemberResolver.LookupDontThrow`, proved equal to the function
  `MemberResolver.Resolve`;
- `TypeHierarchy.IsOfTypeName`, proved equal to the function
  `TypeHierarchy.OfTypeName`.

The recursive operations are functions, as in the source, each named after
the function it models:

- `TypeHierarchy.SubclassOf` models `CommonClass::subclassOf` (lines 399-405);
- `TypeHierarchy.Implements` and `TypeHierarchy.ImplementsVia` model
  `CommonClass::implements` (lines 367-380), the second being its loop over
  the interfaces;
- `TypeHierarchy.InstantiationOfArray` models
  `CommonClass::instantiationOfArray` (lines 382-397);
- `TypeHierarchy.IsAssignableFrom` models `CommonClass::isAssignableFrom`
  (lines 407-417);
- `TypeHierarchy.InheritName` and `TypeHierarchy.InheritNameVia` model
  `CommonClass::inheritName` (lines 326-339);
- `MemberResolver.Resolve` and `MemberResolver.ResolveVia` model the search
  order of `lookupMethodDontThrow` and `lookupFieldDontThrow` (lines 229-261
  and 274-306);
- `ArrayClasses.ArrayLoader` models `ClassArray::arrayLoader`
  (lines 168-183).

Their properties are stated by the lemmas of the table below.

Modelling decisions:

- **Reads past the end of a name.** `elements[i]` read past the end of a name
  is modelled as a NUL character (`Descriptors.At`). NUL is neither the array
  marker nor the reference marker.
- **Reversed extract.** `UTF8::extract` is defined outside JavaClass.cpp.
  The model reads an empty or reversed range as the empty name
  (`Descriptors.Slice`). That is the model's choice for malformed names; see
  "Left out".
- **Attribute lookup.** `JavaField::lookupAttribut` and
  `JavaMethod::lookupAttribut` (lines 67-85) run the same loop as
  `Class::lookupAttribut` over the member's own attribute list.
  `Attributes.LookupAttribut` takes that list as input, so one method models
  all three.
- **Names as characters.** The runtime's UTF8 strings hold 16-bit code units
  (lines 104 and 122). A Dafny `char` is a Unicode scalar value, so a name
  holding an unpaired surrogate, which a class file may contain, cannot be
  represented in the model.
- **References as positions.** A reference to an attribute is its position in the
  attribute list. A reference to a method or field is a `MemberRef`: the owning
  class, the static or virtual table, and the position in it.
- **Throwing lookups.** `lookupMethod` and `lookupField` throw
  `NoSuchMethodError` / `NoSuchFieldError` when the member is missing. The
  model returns a `Failure` that carries the error, the name searched for and
  the class searched from.
- **Loading by name.** `Jnjvm::loadName` is a parameter of `ArrayLoader`: a
  function from a class name and an initiating loader to either the defining
  loader of the loaded class or the error raised when the class cannot be
  loaded (`ArrayClasses.LoadError`). `ArrayLoader` passes that error on.
- **Internal names.** `UTF8::javaToInternal` is defined outside
  JavaClass.cpp. It is modelled as the rewrite of every '.' into '/'
  (`ArrayClasses.JavaToInternal`, an instance of `ArrayClasses.Translate`).

Arrays of different dimensions can be assignable. `instantiationOfArray`
compares the component classes with `isAssignableFrom` (lines 389-393), so a
two-dimensional array of `Object` is assignable to a one-dimensional one, as
in Java, and not the converse.
`HierarchyProperties.NestedArrayAssignableToObjectArray` proves both on a
concrete graph.

## Model

| member | source | states |
|---|---|---|
| Attributes.LookupAttribut | lib/JnJVM/VMCore/JavaClass.cpp:57-85 | Answers the position of the first attribute whose name equals the key; no earlier attribute has that name; None exactly when no attribute has it |
| MemberResolver.FirstMatch | lib/JnJVM/VMCore/JavaClass.cpp:238-244 | The first member whose name and type both match, with none matching before it; None exactly when none matches |
| MemberResolver.LookupDontThrow | lib/JnJVM/VMCore/JavaClass.cpp:229-261 | The loops of the lookup compute the resolution function: the local table, then the superclass, then for static members the interfaces in order |
| MemberResolver.LookupMethodDontThrow | lib/JnJVM/VMCore/JavaClass.cpp:229-261 | Method resolution over the static or virtual method tables, equal to the resolution function for methods |
| MemberResolver.LookupFieldDontThrow | lib/JnJVM/VMCore/JavaClass.cpp:274-306 | Field resolution over the static or virtual field tables, equal to the resolution function for fields |
| MemberResolver.LookupMethod | lib/JnJVM/VMCore/JavaClass.cpp:263-272 | Succeeds exactly when resolution finds a method, with that method; otherwise fails with NoSuchMethodError naming the method and the class |
| MemberResolver.LookupField | lib/JnJVM/VMCore/JavaClass.cpp:308-318 | Succeeds exactly when resolution finds a field, with that field; otherwise fails with NoSuchFieldError naming the field and the class |
| MemberResolver.NonRecursiveLookupIsLocal | lib/JnJVM/VMCore/JavaClass.cpp:233-245 | Without recursion only the class's own table is searched |
| MemberResolver.ResolveSound | lib/JnJVM/VMCore/JavaClass.cpp:229-261 | A found member exists in its owner's table of the requested kind, matches name and type, has the owner reachable from the starting class, and belongs to the class itself when not recursing |
| MemberResolver.ResolveViaSound | lib/JnJVM/VMCore/JavaClass.cpp:251-257 | The same soundness for the search through the direct interfaces |
| MemberResolver.FirstOnChain | lib/JnJVM/VMCore/JavaClass.cpp:247-250 | The first class of a superclass chain that declares a matching member; the member found lies on the chain |
| MemberResolver.ResolveFollowsChain | lib/JnJVM/VMCore/JavaClass.cpp:247-258 | Recursive resolution finds the first declaration along the superclass chain; for virtual members this includes the case where no class on the chain declares one, so interfaces are never searched |
| MemberResolver.InterfacesInDeclarationOrder | lib/JnJVM/VMCore/JavaClass.cpp:251-257 | When a static member is found neither locally nor through the superclass, the result is the first direct interface's result that is present; None exactly when all are None |
| MemberResolver.ResolveViaFirst | lib/JnJVM/VMCore/JavaClass.cpp:252-256 | The interface loop from position i returns the first present result from i on, or None when there is none |
| MemberResolver.StaticLookupComplete | lib/JnJVM/VMCore/JavaClass.cpp:247-258 | A static recursive lookup from c finds a member whenever some class reachable from c through superclass and interface links declares a match |
| MemberResolver.StaticLookupFailsIffUndeclared | lib/JnJVM/VMCore/JavaClass.cpp:232-258 | A static recursive lookup fails exactly when no class reachable from c declares a match in its static list |
| MemberResolver.SuperclassInterfacesBeforeOwn | lib/JnJVM/VMCore/JavaClass.cpp:247-256 | With C extends B implements I, B implements J, and f declared in both I and J, the static lookup of f from C finds J's f: the superclass's whole lookup, interfaces included, runs before C's own interfaces |
| ClassGraph.Chain | lib/JnJVM/VMCore/JavaClass.cpp:375-378 | A specification device, not a model of one function: the sequence of classes that the superclass walks of the source visit (lines 248, 331 and 375), starting at the class and staying inside the graph |
| ClassGraph.ChainTransitive | lib/JnJVM/VMCore/JavaClass.cpp:399-405 | An ancestor of an ancestor is an ancestor |
| ClassGraph.ReachesTransitive | lib/JnJVM/VMCore/JavaClass.cpp:367-380 | Reachability through superclasses and interfaces is transitive: two paths that meet join into one |
| ClassGraph.DisplayIsAncestorTable | lib/JnJVM/VMCore/JavaClass.cpp:399-405 | Under the display invariant, display entry d is the ancestor at depth d, and the chain has depth + 1 classes |
| ClassGraph.DisplayExtends | lib/JnJVM/VMCore/JavaClass.cpp:399-405 | The display of a class is its superclass's display followed by the class |
| HierarchyProperties.SubclassOfIffOnChain | lib/JnJVM/VMCore/JavaClass.cpp:399-405 | Under the display invariant, the display test holds exactly when cl is on the superclass chain |
| HierarchyProperties.SubclassOfTransitive | lib/JnJVM/VMCore/JavaClass.cpp:399-405 | subclassOf is transitive |
| HierarchyProperties.ImplementsClosure | lib/JnJVM/VMCore/JavaClass.cpp:367-380 | implements holds exactly for self, a direct interface or what it implements, or what the superclass implements |
| HierarchyProperties.ImplementsViaExists | lib/JnJVM/VMCore/JavaClass.cpp:370-374 | The interface loop from position i succeeds exactly when some interface from i on is cl or implements it |
| HierarchyProperties.ImplementsReaches | lib/JnJVM/VMCore/JavaClass.cpp:367-380 | Whatever a class implements is reachable from it |
| HierarchyProperties.PathImplements | lib/JnJVM/VMCore/JavaClass.cpp:367-380 | The first class of any path implements the last |
| HierarchyProperties.ImplementsIffReaches | lib/JnJVM/VMCore/JavaClass.cpp:367-380 | implements is exactly reachability through superclasses and interfaces |
| HierarchyProperties.ImplementsTransitive | lib/JnJVM/VMCore/JavaClass.cpp:367-380 | implements is transitive |
| HierarchyProperties.ChainImplements | lib/JnJVM/VMCore/JavaClass.cpp:376-378 | A class implements every class on its superclass chain |
| HierarchyProperties.SubclassOfImpliesImplements | lib/JnJVM/VMCore/JavaClass.cpp:367-405 | Under the display invariant subclassOf implies implements |
| HierarchyProperties.InheritNameViaExists | lib/JnJVM/VMCore/JavaClass.cpp:335-337 | The interface loop from position i succeeds exactly when some interface from i on inherits the name |
| HierarchyProperties.InheritNameClosure | lib/JnJVM/VMCore/JavaClass.cpp:326-339 | inheritName holds exactly when the class has the name or stands for a primitive type, or its superclass or a direct interface inherits the name |
| HierarchyProperties.InheritNameReaches | lib/JnJVM/VMCore/JavaClass.cpp:326-339 | Whenever the name is inherited, a reachable class has it or stands for a primitive type |
| HierarchyProperties.PathInheritsName | lib/JnJVM/VMCore/JavaClass.cpp:326-339 | The start of a path inherits the name of its end, and inherits every name when the end stands for a primitive type |
| HierarchyProperties.InheritNameIffReaches | lib/JnJVM/VMCore/JavaClass.cpp:326-339 | inheritName holds exactly when some reachable class has the name or stands for a primitive type |
| HierarchyProperties.ImplementsInheritsName | lib/JnJVM/VMCore/JavaClass.cpp:326-380 | The name test agrees with the reference test: a class inherits the name of everything it implements |
| TypeHierarchy.InstantiationOfArray | lib/JnJVM/VMCore/JavaClass.cpp:382-397 | Only identical classes or two array classes are related |
| HierarchyProperties.AssignableReflexive | lib/JnJVM/VMCore/JavaClass.cpp:407-410 | Every class is assignable to itself |
| HierarchyProperties.AssignableToInterface | lib/JnJVM/VMCore/JavaClass.cpp:407-412 | A class is assignable to an interface exactly when it reaches the interface |
| HierarchyProperties.AssignableToPlainClass | lib/JnJVM/VMCore/JavaClass.cpp:407-417 | Under the display invariant, a class is assignable to a class that is neither an interface nor an array class exactly when the target is on its superclass chain |
| HierarchyProperties.AssignableToArrayNeedsArray | lib/JnJVM/VMCore/JavaClass.cpp:413-414 | Only the class itself or an array class is assignable to an array class |
| HierarchyProperties.ArrayCovariance | lib/JnJVM/VMCore/JavaClass.cpp:382-397 | Two distinct array classes are assignable exactly when their component classes are; the implements test for two interface components gives the same answer |
| HierarchyProperties.ArrayOfClassesCovariance | lib/JnJVM/VMCore/JavaClass.cpp:382-417 | For components that are plain classes, array assignability is the superclass chain of the components |
| HierarchyProperties.NestedArrayAssignableToObjectArray | lib/JnJVM/VMCore/JavaClass.cpp:382-397 | A two-dimensional array of the root class is assignable to the one-dimensional one, and not the converse |
| TypeHierarchy.Peel | lib/JnJVM/VMCore/JavaClass.cpp:350-357 | Taking the component class n times stays inside the graph |
| TypeHierarchy.IsOfTypeName | lib/JnJVM/VMCore/JavaClass.cpp:341-365 | Equals the specification: inheritName, or for an array class a descriptor of k markers and a class name whose class, k components down, inherits the name |
| TypeHierarchy.PeelNoneStays | lib/JnJVM/VMCore/JavaClass.cpp:350-357 | Once component-taking fails it stays failed for more steps |
| HierarchyProperties.OfTypeNameOfArrayDescriptor | lib/JnJVM/VMCore/JavaClass.cpp:341-365 | On an n-dimensional reference array descriptor, isOfTypeName holds for an array class exactly when it inherits the descriptor or the class n components down inherits the class name |
| HierarchyProperties.OfTypeNameOfPrimitiveArray | lib/JnJVM/VMCore/JavaClass.cpp:341-365 | On a primitive array descriptor, isOfTypeName is inheritName |
| HierarchyProperties.TruncatedDescriptorNamesNoClass | lib/JnJVM/VMCore/JavaClass.cpp:341-365 | A name that ends at the reference marker ("[L") is not the type of the one-dimensional array of the root class: the class name read after the marker is empty |
| HierarchyProperties.ExtraMarkersNameNoType | lib/JnJVM/VMCore/JavaClass.cpp:350-357 | A name with more array markers than the class has dimensions ("[[Ljava/lang/Object;" on the one-dimensional array of the root class) is not its type |
| Descriptors.LeadingTabs | lib/JnJVM/VMCore/JavaClass.cpp:350 | The count of leading array markers: all of them are markers, and the next character is not |
| Descriptors.ArrayDescriptorParts | lib/JnJVM/VMCore/JavaClass.cpp:350-362 | A reference array descriptor parses back into its dimension and class name |
| Descriptors.PrimitiveArrayDescriptorParts | lib/JnJVM/VMCore/JavaClass.cpp:350-362 | A primitive array descriptor parses back into its dimension and type code |
| ArrayClasses.Translate | lib/JnJVM/VMCore/JavaClass.cpp:121-124 | Rewrites every occurrence of one separator into another and keeps every other character and the length; with '.' to '/' it is the internal form used at lines 175-176, with '/' to '.' the separator rewrite of lines 121-124 |
| ArrayClasses.TranslateRoundTrip | lib/JnJVM/VMCore/JavaClass.cpp:121-124 | The reverse rewrite undoes a rewrite of a name that did not already hold the target character |
| ArrayClasses.NameFormsRoundTrip | lib/JnJVM/VMCore/JavaClass.cpp:121-124 | The internal and Java forms of names without the other separator convert into each other |
| ArrayClasses.ArrayLoaderFrom | lib/JnJVM/VMCore/JavaClass.cpp:168-183 | From any position among the array markers, the answer is the result of loading the element class: its loader, or the load's error |
| ArrayClasses.ArrayLoaderOfReferenceArray | lib/JnJVM/VMCore/JavaClass.cpp:168-183 | An array of a class, of any dimension, has the loader of the element class loaded through the given loader, named in internal form; when that load fails, the same error is raised |
| ArrayClasses.PrimitiveArrayLoaderFrom | lib/JnJVM/VMCore/JavaClass.cpp:168-183 | From any position among the array markers of a primitive array descriptor, the answer is the bootstrap loader |
| ArrayClasses.ArrayLoaderOfPrimitiveArray | lib/JnJVM/VMCore/JavaClass.cpp:168-183 | An array of a primitive type, of any dimension, has the bootstrap loader and never fails |

## Left out

- `Attribut::derive` and `Attribut::toReader`: they build an attribute and a byte reader over class-file bytes. Parsing is not modelled.
- `JavaMethod::_compiledPtr`: lazy code generation through the JIT, under the class lock. Its only logic is a double-checked lock.
- `JavaField::initField`, `Class::doNew`, `staticInstance` and `createStaticInstance`: they write into object memory and allocate. Objects and the heap are not modelled.
- `initialise`, `resolveClass`, `initialiseClass`, `getClassDelegatee` and `getStatus`: class loading and initialisation. These belong to the loader and to the mutable state of the runtime.
- `Class::destroyer`: freeing memory. As written (lines 87-92), its loop never advances `i`, so it would delete the first attribute over and over; the model has no deallocation to state this about.
- `TypeHierarchy.IsOfTypeName`: the source calls `resolveClass` on each component class inside the loop. That loading side effect is left out, and so is a resolution that fails and raises an exception out of `isOfTypeName`. Only the answer for loadable classes is modelled.
- `TypeHierarchy.InstantiationOfArray` and `TypeHierarchy.IsOfTypeName`: `ClassArray::baseClass()` (lines 351, 386-387) resolves the component class lazily on first use. The model reads the component from the record; a resolution that fails there, and the exception it raises, is not modelled.
- `ClassArray::resolveComponent`: it calls `AssessorDesc::introspectArray`, which is defined outside JavaClass.cpp.
- The print functions (lines 101-138, 151-161, 209-227): output formatting. Their '/'-to-'.' separator rewrite is modelled as `ArrayClasses.InternalToJava`, which keeps every character whole. The printer stores each 16-bit character into an 8-bit buffer, which drops the high byte of every non-ASCII character; that narrowing is not modelled.
- Locks, condition variables, isolates and the multiple-VM build variants: concurrency and build configuration.
- The other files of the repository (the LLVM passes and the MMTk pragma classes).
- `ArrayClasses.ArrayLoader`: the source calls `UTF8::javaToInternal` with an unsigned length `len - 2`. For a descriptor that ends at the reference marker, that length would wrap around. The model reads the empty name there instead and does not model the out-of-bounds read.
- `TypeHierarchy.IsOfTypeName`: for a name that ends at the reference marker, such as `[L` on an array class, the source calls `extract(vm, len, len - 1)` with unsigned positions (line 361). What `extract` does with that reversed range is defined outside JavaClass.cpp. The model reads the empty name there, so the answer is whether the component class inherits the empty name; `HierarchyProperties.TruncatedDescriptorNamesNoClass` shows the answer false on a small graph.
- `TypeHierarchy.IsOfTypeName`: when the name has more array markers than self has dimensions, the loop reaches a class that is not an array. The source then casts it to `ClassArray`, reads its component and dereferences that component (lines 351-352) before its guard `curS->isArray && cl` at line 355; on a plain class that read is undefined. The model reads the record's component field, and the guard yields false, which is what line 355 evidently intends; the unguarded cast and dereference are not modelled. `HierarchyProperties.ExtraMarkersNameNoType` shows the answer on a small graph.
- Bogus primitive classes: `AssessorDesc::bogusClassToPrimitive` is defined outside JavaClass.cpp. Whether a class stands for a primitive type is a boolean field of its record.
