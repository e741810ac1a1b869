/** What the subtype tests of TypeHierarchy mean: each one against an
    independent description of the hierarchy (the superclass chain, paths
    of superclass and interface steps, descriptors built from names). */
module HierarchyProperties {
  import opened Wrappers
  import opened ClassGraph
  import opened Descriptors
  import opened TypeHierarchy

  // ---------------------------------------------------------------------
  // subclassOf and the display invariant

  /** Under the display invariant the display test is exact: self is a
      subclass of cl precisely when cl lies on self's superclass chain. So it
      is reflexive, holds for every ancestor, and fails for every class off
      the chain. */
  lemma {:induction false} SubclassOfIffOnChain(g: Graph, self: ClassId, cl: ClassId)
    requires WellFormed(g) && DisplayInvariant(g) && self in g && cl in g
    ensures SubclassOf(g, self, cl) <==> cl in Chain(g, self)
    decreases self
  {
    assert DisplayOk(g, self) && RefsBelow(g, self);
    var r := g[self];
    var d := g[cl].depth;
    match r.super
    case None =>
      assert Chain(g, self) == [self];
    case Some(s) =>
      assert DisplayOk(g, s);
      SubclassOfIffOnChain(g, s, cl);
      DisplayExtends(g, self, s);
      assert Chain(g, self) == [self] + Chain(g, s);
      if d < r.depth {
        assert r.display[d] == g[s].display[d];
      }
  }

  /** subclassOf is transitive under the display invariant. */
  lemma SubclassOfTransitive(g: Graph, a: ClassId, b: ClassId, c: ClassId)
    requires WellFormed(g) && DisplayInvariant(g) && a in g && b in g && c in g
    requires SubclassOf(g, a, b) && SubclassOf(g, b, c)
    ensures SubclassOf(g, a, c)
  {
    SubclassOfIffOnChain(g, a, b);
    SubclassOfIffOnChain(g, b, c);
    ChainTransitive(g, a, b, c);
    SubclassOfIffOnChain(g, a, c);
  }

  // ---------------------------------------------------------------------
  // implements

  lemma {:induction false} ImplementsViaExists(g: Graph, self: ClassId, i: nat, cl: ClassId)
    requires WellFormed(g) && self in g && i <= |g[self].interfaces|
    ensures RefsBelow(g, self)
    ensures ImplementsVia(g, self, i, cl) <==>
      exists j | i <= j < |g[self].interfaces| ::
        g[self].interfaces[j] == cl || Implements(g, g[self].interfaces[j], cl)
    decreases |g[self].interfaces| - i
  {
    assert RefsBelow(g, self);
    if i < |g[self].interfaces| {
      ImplementsViaExists(g, self, i + 1, cl);
    }
  }

  /** implements is the closure over interfaces and superclass: it holds of
      self and cl exactly when self is cl, or a direct interface is cl or
      implements cl, or the superclass implements cl. */
  lemma ImplementsClosure(g: Graph, self: ClassId, cl: ClassId)
    requires WellFormed(g) && self in g
    ensures RefsBelow(g, self)
    ensures Implements(g, self, cl) <==>
      || self == cl
      || (exists j | 0 <= j < |g[self].interfaces| ::
            g[self].interfaces[j] == cl || Implements(g, g[self].interfaces[j], cl))
      || (g[self].super.Some? && Implements(g, g[self].super.value, cl))
  {
    ImplementsViaExists(g, self, 0, cl);
  }

  /** Every class self implements is reachable from it. */
  lemma {:induction false} ImplementsReaches(g: Graph, self: ClassId, cl: ClassId)
    requires WellFormed(g) && self in g && Implements(g, self, cl)
    ensures Reaches(g, self, cl)
    decreases self
  {
    ImplementsClosure(g, self, cl);
    var ifs := g[self].interfaces;
    if self == cl {
      ReachesRefl(g, self);
    } else if exists j | 0 <= j < |ifs| :: ifs[j] == cl || Implements(g, ifs[j], cl) {
      var j :| 0 <= j < |ifs| && (ifs[j] == cl || Implements(g, ifs[j], cl));
      var itf := ifs[j];
      if itf == cl {
        ReachesRefl(g, itf);
      } else {
        ImplementsReaches(g, itf, cl);
      }
      ReachesStep(g, self, itf, cl);
    } else {
      var s := g[self].super.value;
      ImplementsReaches(g, s, cl);
      ReachesStep(g, self, s, cl);
    }
  }

  /** The first class of a path implements the last. */
  lemma {:induction false} PathImplements(g: Graph, p: seq<ClassId>)
    requires WellFormed(g) && IsPath(g, p)
    ensures p[0] in g && Implements(g, p[0], p[|p| - 1])
    decreases |p|
  {
    if |p| > 1 {
      PathTail(g, p);
      var t := p[1..];
      PathImplements(g, t);
      assert t[0] == p[1] && t[|t| - 1] == p[|p| - 1];
      ImplementsClosure(g, p[0], p[|p| - 1]);
      if g[p[0]].super != Some(p[1]) {
        var j :| 0 <= j < |g[p[0]].interfaces| && g[p[0]].interfaces[j] == p[1];
      }
    }
  }

  /** implements is exactly reachability along superclass and interface steps. */
  lemma ImplementsIffReaches(g: Graph, self: ClassId, cl: ClassId)
    requires WellFormed(g) && self in g
    ensures Implements(g, self, cl) <==> Reaches(g, self, cl)
  {
    if Implements(g, self, cl) {
      ImplementsReaches(g, self, cl);
    }
    if Reaches(g, self, cl) {
      var p :| IsPath(g, p) && p[0] == self && p[|p| - 1] == cl;
      PathImplements(g, p);
    }
  }

  /** implements is transitive. */
  lemma ImplementsTransitive(g: Graph, a: ClassId, b: ClassId, c: ClassId)
    requires WellFormed(g) && a in g && b in g
    requires Implements(g, a, b) && Implements(g, b, c)
    ensures Implements(g, a, c)
  {
    ImplementsIffReaches(g, a, b);
    ImplementsIffReaches(g, b, c);
    ReachesTransitive(g, a, b, c);
    ImplementsIffReaches(g, a, c);
  }

  /** Every superclass on the chain is implemented, so under the display
      invariant subclassOf implies implements. */
  lemma {:induction false} ChainImplements(g: Graph, self: ClassId, cl: ClassId)
    requires WellFormed(g) && self in g && cl in Chain(g, self)
    ensures Implements(g, self, cl)
    decreases self
  {
    ImplementsClosure(g, self, cl);
    if self != cl {
      ChainImplements(g, g[self].super.value, cl);
    }
  }

  lemma SubclassOfImpliesImplements(g: Graph, self: ClassId, cl: ClassId)
    requires WellFormed(g) && DisplayInvariant(g) && self in g && cl in g
    requires SubclassOf(g, self, cl)
    ensures Implements(g, self, cl)
  {
    SubclassOfIffOnChain(g, self, cl);
    ChainImplements(g, self, cl);
  }

  // ---------------------------------------------------------------------
  // inheritName

  /** The class a carries the searched name or stands for a primitive type. */
  predicate NamedOrBogus(g: Graph, a: ClassId, tname: Utf8)
    requires a in g
  {
    g[a].name == tname || g[a].bogusPrimitive
  }

  lemma {:induction false} InheritNameViaExists(g: Graph, self: ClassId, i: nat, tname: Utf8)
    requires WellFormed(g) && self in g && i <= |g[self].interfaces|
    ensures RefsBelow(g, self)
    ensures InheritNameVia(g, self, i, tname) <==>
      exists j | i <= j < |g[self].interfaces| :: InheritName(g, g[self].interfaces[j], tname)
    decreases |g[self].interfaces| - i
  {
    assert RefsBelow(g, self);
    if i < |g[self].interfaces| {
      InheritNameViaExists(g, self, i + 1, tname);
    }
  }

  /** inheritName holds exactly when self has the name or is a bogus
      primitive class, or its superclass or a direct interface inherits the
      name. */
  lemma InheritNameClosure(g: Graph, self: ClassId, tname: Utf8)
    requires WellFormed(g) && self in g
    ensures RefsBelow(g, self)
    ensures InheritName(g, self, tname) <==>
      || NamedOrBogus(g, self, tname)
      || (g[self].super.Some? && InheritName(g, g[self].super.value, tname))
      || (exists j | 0 <= j < |g[self].interfaces| :: InheritName(g, g[self].interfaces[j], tname))
  {
    InheritNameViaExists(g, self, 0, tname);
  }

  lemma {:induction false} InheritNameReaches(g: Graph, self: ClassId, tname: Utf8)
    requires WellFormed(g) && self in g && InheritName(g, self, tname)
    ensures exists a :: Reaches(g, self, a) && a in g && NamedOrBogus(g, a, tname)
    decreases self
  {
    InheritNameClosure(g, self, tname);
    var ifs := g[self].interfaces;
    if NamedOrBogus(g, self, tname) {
      ReachesRefl(g, self);
    } else if g[self].super.Some? && InheritName(g, g[self].super.value, tname) {
      var s := g[self].super.value;
      InheritNameReaches(g, s, tname);
      var a :| Reaches(g, s, a) && a in g && NamedOrBogus(g, a, tname);
      ReachesStep(g, self, s, a);
    } else {
      var j :| 0 <= j < |ifs| && InheritName(g, ifs[j], tname);
      InheritNameReaches(g, ifs[j], tname);
      var a :| Reaches(g, ifs[j], a) && a in g && NamedOrBogus(g, a, tname);
      ReachesStep(g, self, ifs[j], a);
    }
  }

  lemma {:induction false} PathInheritsName(g: Graph, p: seq<ClassId>, tname: Utf8)
    requires WellFormed(g) && IsPath(g, p) && NamedOrBogus(g, p[|p| - 1], tname)
    ensures p[0] in g && InheritName(g, p[0], tname)
    decreases |p|
  {
    if |p| > 1 {
      PathTail(g, p);
      var t := p[1..];
      assert t[0] == p[1] && t[|t| - 1] == p[|p| - 1];
      PathInheritsName(g, t, tname);
      InheritNameClosure(g, p[0], tname);
      if g[p[0]].super != Some(p[1]) {
        var j :| 0 <= j < |g[p[0]].interfaces| && g[p[0]].interfaces[j] == p[1];
      }
    }
  }

  /** inheritName is a search by name over everything reachable: it holds
      exactly when some class reachable from self carries the name or stands
      for a primitive type. */
  lemma InheritNameIffReaches(g: Graph, self: ClassId, tname: Utf8)
    requires WellFormed(g) && self in g
    ensures InheritName(g, self, tname) <==>
      exists a :: Reaches(g, self, a) && a in g && NamedOrBogus(g, a, tname)
  {
    if InheritName(g, self, tname) {
      InheritNameReaches(g, self, tname);
    }
    if exists a :: Reaches(g, self, a) && a in g && NamedOrBogus(g, a, tname) {
      var a :| Reaches(g, self, a) && a in g && NamedOrBogus(g, a, tname);
      var p :| IsPath(g, p) && p[0] == self && p[|p| - 1] == a;
      PathInheritsName(g, p, tname);
    }
  }

  /** The name-based test agrees with the reference-based one: a class
      inherits the name of every class it implements. */
  lemma ImplementsInheritsName(g: Graph, self: ClassId, cl: ClassId)
    requires WellFormed(g) && self in g && cl in g && Implements(g, self, cl)
    ensures InheritName(g, self, g[cl].name)
  {
    ImplementsReaches(g, self, cl);
    InheritNameIffReaches(g, self, g[cl].name);
  }

  // ---------------------------------------------------------------------
  // isAssignableFrom and instantiationOfArray

  lemma AssignableReflexive(g: Graph, c: ClassId)
    requires WellFormed(g) && c in g
    ensures IsAssignableFrom(g, c, c)
  {
  }

  /** An interface target is assignable exactly from the classes that reach it. */
  lemma AssignableToInterface(g: Graph, self: ClassId, cl: ClassId)
    requires WellFormed(g) && self in g && cl in g && IsInterface(g[cl].access)
    ensures IsAssignableFrom(g, self, cl) <==> Reaches(g, self, cl)
  {
    ImplementsIffReaches(g, self, cl);
    if self == cl {
      ReachesRefl(g, self);
    }
  }

  /** A target that is neither an interface nor an array class is assignable
      exactly from the classes that have it on their superclass chain. */
  lemma AssignableToPlainClass(g: Graph, self: ClassId, cl: ClassId)
    requires WellFormed(g) && DisplayInvariant(g) && self in g && cl in g
    requires !IsInterface(g[cl].access) && !g[cl].isArray
    ensures IsAssignableFrom(g, self, cl) <==> cl in Chain(g, self)
  {
    SubclassOfIffOnChain(g, self, cl);
  }

  /** Only an array class is assignable to another array class (that is not
      an interface). */
  lemma AssignableToArrayNeedsArray(g: Graph, self: ClassId, cl: ClassId)
    requires WellFormed(g) && self in g && cl in g
    requires g[cl].isArray && !IsInterface(g[cl].access)
    requires IsAssignableFrom(g, self, cl)
    ensures self == cl || g[self].isArray
  {
  }

  /** Array covariance: two distinct array classes are assignable exactly
      when their components are. The test by implements that the source
      applies to two interface components gives the same answer. */
  lemma ArrayCovariance(g: Graph, self: ClassId, cl: ClassId)
    requires WellFormed(g) && self in g && cl in g
    requires g[self].isArray && g[cl].isArray && !IsInterface(g[cl].access)
    ensures RefsBelow(g, self) && RefsBelow(g, cl)
    ensures IsAssignableFrom(g, self, cl) <==>
      self == cl || IsAssignableFrom(g, g[self].baseClass.value, g[cl].baseClass.value)
  {
    assert RefsBelow(g, self) && RefsBelow(g, cl);
  }

  /** Arrays of ordinary classes: an array class is assignable to another
      exactly when they are the same or the target's component is on the
      superclass chain of the source's component. */
  lemma ArrayOfClassesCovariance(g: Graph, self: ClassId, cl: ClassId)
    requires WellFormed(g) && DisplayInvariant(g) && self in g && cl in g
    requires g[self].isArray && g[cl].isArray && !IsInterface(g[cl].access)
    requires RefsBelow(g, cl) && !IsInterface(g[g[cl].baseClass.value].access)
    requires !g[g[cl].baseClass.value].isArray
    ensures RefsBelow(g, self)
    ensures IsAssignableFrom(g, self, cl) <==>
      self == cl || g[cl].baseClass.value in Chain(g, g[self].baseClass.value)
  {
    ArrayCovariance(g, self, cl);
    AssignableToPlainClass(g, g[self].baseClass.value, g[cl].baseClass.value);
  }

  /** A small graph: the root class, its one-dimensional array class and the
      two-dimensional array class, each array class a direct subclass of
      the root. */
  function ObjectArrays(): Graph
  {
    var obj := ClassRecord("java/lang/Object", 0x0001, false, false, None, [], [], [], [], [], [],
                           0, [0], None, BootstrapLoader);
    var arr1 := ClassRecord("[Ljava/lang/Object;", 0x0001, true, false, Some(0), [], [], [], [], [], [],
                            1, [0, 1], Some(0), BootstrapLoader);
    var arr2 := ClassRecord("[[Ljava/lang/Object;", 0x0001, true, false, Some(0), [], [], [], [], [], [],
                            1, [0, 2], Some(1), BootstrapLoader);
    map[0 := obj, 1 := arr1, 2 := arr2]
  }

  /** Arrays of different dimension can be assignable: the
      two-dimensional array of the root class is assignable to the
      one-dimensional one (its component, an array class, is a subclass of
      the root), while the converse does not hold. */
  lemma NestedArrayAssignableToObjectArray()
    ensures WellFormed(ObjectArrays()) && DisplayInvariant(ObjectArrays())
    ensures IsAssignableFrom(ObjectArrays(), 2, 1)
    ensures !IsAssignableFrom(ObjectArrays(), 1, 2)
  {
    var g := ObjectArrays();
    assert RefsBelow(g, 0) && RefsBelow(g, 1) && RefsBelow(g, 2);
    assert DisplayOk(g, 0) && DisplayOk(g, 1) && DisplayOk(g, 2);
    assert g[2].baseClass.value == 1 && g[1].baseClass.value == 0;
    assert SubclassOf(g, 1, 0);
    assert IsAssignableFrom(g, 1, 0);
    assert !IsAssignableFrom(g, 0, 1);
  }

  // ---------------------------------------------------------------------
  // isOfTypeName

  /** isOfTypeName on the descriptor of an n-dimensional array of a class:
      either self inherits the descriptor itself as a name, or the class n
      components down from self inherits the class's name. */
  lemma OfTypeNameOfArrayDescriptor(g: Graph, self: ClassId, n: nat, component: Utf8)
    requires WellFormed(g) && self in g && g[self].isArray
    ensures var s := ArrayDescriptor(n, component);
      OfTypeName(g, self, s) <==>
        || InheritName(g, self, s)
        || (Peel(g, self, n).Some? && InheritName(g, Peel(g, self, n).value, component))
  {
    ArrayDescriptorParts(n, component);
  }

  /** isOfTypeName on the descriptor of an array of a primitive type reduces
      to inheritName on the descriptor itself. */
  lemma OfTypeNameOfPrimitiveArray(g: Graph, self: ClassId, n: nat, code: char)
    requires WellFormed(g) && self in g && code != I_TAB && code != I_REF
    ensures var s := PrimitiveArrayDescriptor(n, code);
      OfTypeName(g, self, s) <==> InheritName(g, self, s)
  {
    PrimitiveArrayDescriptorParts(n, code);
  }

  /** A name that ends at the reference marker names no class: on the small
      graph the one-dimensional array of the root class is not of type "[L",
      since the class name read after the marker is empty. */
  lemma TruncatedDescriptorNamesNoClass()
    ensures WellFormed(ObjectArrays()) && 1 in ObjectArrays()
    ensures !OfTypeName(ObjectArrays(), 1, "[L")
  {
    var g := ObjectArrays();
    assert RefsBelow(g, 0) && RefsBelow(g, 1) && RefsBelow(g, 2);
    assert LeadingTabs("[L") == 1 by {
      assert "[L"[1..] == "L";
    }
    assert Slice("[L", 2, 1) == [];
    assert !InheritName(g, 0, []);
    assert !InheritName(g, 1, "[L");
  }

  /** A name with more array markers than self has dimensions names no
      type of self: the one-dimensional array of the root class is not of
      type "[[Ljava/lang/Object;", since the root class is not an array. */
  lemma ExtraMarkersNameNoType()
    ensures WellFormed(ObjectArrays()) && 1 in ObjectArrays()
    ensures !OfTypeName(ObjectArrays(), 1, "[[Ljava/lang/Object;")
  {
    var g := ObjectArrays();
    var t := "[[Ljava/lang/Object;";
    assert RefsBelow(g, 0) && RefsBelow(g, 1) && RefsBelow(g, 2);
    assert |t| == 20 && |g[0].name| == 16 && |g[1].name| == 19;
    assert g[0].interfaces == [] && g[1].interfaces == [] && g[0].super.None?;
    assert !InheritNameVia(g, 0, 0, t);
    assert !InheritName(g, 0, t);
    assert !InheritNameVia(g, 1, 0, t);
    assert !InheritName(g, 1, t);
    assert LeadingTabs(t) == 2 by {
      assert t[0] == '[' && t[1] == '[' && t[2] == 'L';
    }
    assert Peel(g, 1, 1) == Some(0);
    assert Peel(g, 1, 2).None?;
  }
}
