/** The subtype tests of CommonClass over the class graph: by display table,
    by interface closure, by array covariance and by name. */
module TypeHierarchy {
  import opened Wrappers
  import opened ClassGraph
  import opened Descriptors

  /** CommonClass::subclassOf, the constant-time display test: cl's depth
      indexes self's display, and the entry there is cl. */
  function SubclassOf(g: Graph, self: ClassId, cl: ClassId): bool
    requires self in g && cl in g
  {
    var d := g[cl].depth;
    if d < |g[self].display| then g[self].display[d] == cl else false
  }

  /** CommonClass::implements: self is cl, or a direct interface is cl or
      implements it (tried in declaration order), or the superclass
      implements it. */
  function Implements(g: Graph, self: ClassId, cl: ClassId): bool
    requires WellFormed(g) && self in g
    decreases self, |g[self].interfaces| + 1
  {
    assert RefsBelow(g, self);
    if self == cl then true
    else if ImplementsVia(g, self, 0, cl) then true
    else match g[self].super
      case Some(s) => Implements(g, s, cl)
      case None => false
  }

  /** The loop of implements over the direct interfaces of self, from
      position i on. */
  function ImplementsVia(g: Graph, self: ClassId, i: nat, cl: ClassId): bool
    requires WellFormed(g) && self in g && i <= |g[self].interfaces|
    decreases self, |g[self].interfaces| - i
  {
    assert RefsBelow(g, self);
    if i == |g[self].interfaces| then false
    else
      var itf := g[self].interfaces[i];
      if itf == cl then true
      else if Implements(g, itf, cl) then true
      else ImplementsVia(g, self, i + 1, cl)
  }

  /** CommonClass::instantiationOfArray: identity, or two array classes
      whose components are related by implements (both interfaces) or by
      isAssignableFrom (otherwise). */
  function InstantiationOfArray(g: Graph, self: ClassId, cl: ClassId): (r: bool)
    requires WellFormed(g) && self in g && cl in g
    ensures r ==> self == cl || (g[self].isArray && g[cl].isArray)
    decreases self, 0
  {
    assert RefsBelow(g, self) && RefsBelow(g, cl);
    if self == cl then true
    else if g[self].isArray && g[cl].isArray then
      var baseThis := g[self].baseClass.value;
      var baseCl := g[cl].baseClass.value;
      if IsInterface(g[baseThis].access) && IsInterface(g[baseCl].access) then
        Implements(g, baseThis, baseCl)
      else
        IsAssignableFrom(g, baseThis, baseCl)
    else false
  }

  /** CommonClass::isAssignableFrom: identity first, then a dispatch on the
      kind of cl: an interface goes to implements, an array class to
      instantiationOfArray, anything else to subclassOf. */
  function IsAssignableFrom(g: Graph, self: ClassId, cl: ClassId): bool
    requires WellFormed(g) && self in g && cl in g
    decreases self, 1
  {
    if self == cl then true
    else if IsInterface(g[cl].access) then Implements(g, self, cl)
    else if g[cl].isArray then InstantiationOfArray(g, self, cl)
    else SubclassOf(g, self, cl)
  }

  /** CommonClass::inheritName: self has the name, or stands for a primitive
      type, or its superclass or one of its direct interfaces inherits the
      name. */
  function InheritName(g: Graph, self: ClassId, tname: Utf8): bool
    requires WellFormed(g) && self in g
    decreases self, |g[self].interfaces| + 1
  {
    assert RefsBelow(g, self);
    if g[self].name == tname then true
    else if g[self].bogusPrimitive then true
    else if g[self].super.Some? && InheritName(g, g[self].super.value, tname) then true
    else InheritNameVia(g, self, 0, tname)
  }

  /** The loop of inheritName over the direct interfaces of self, from
      position i on. */
  function InheritNameVia(g: Graph, self: ClassId, i: nat, tname: Utf8): bool
    requires WellFormed(g) && self in g && i <= |g[self].interfaces|
    decreases self, |g[self].interfaces| - i
  {
    assert RefsBelow(g, self);
    if i == |g[self].interfaces| then false
    else if InheritName(g, g[self].interfaces[i], tname) then true
    else InheritNameVia(g, self, i + 1, tname)
  }

  /** The class reached from self by taking the component class n times,
      each time from an array class; None when a class on the way is not an
      array or has no component. */
  function Peel(g: Graph, self: ClassId, n: nat): (r: Option<ClassId>)
    requires WellFormed(g) && self in g
    ensures r.Some? ==> r.value in g
  {
    if n == 0 then Some(self)
    else match Peel(g, self, n - 1)
      case None => None
      case Some(c) =>
        assert RefsBelow(g, c);
        if g[c].isArray then g[c].baseClass else None
  }

  /** What isOfTypeName answers: self inherits the name, or self is an array
      class, the name is k array markers, the reference marker and a class
      name, and the class k components down inherits that class name. */
  function OfTypeName(g: Graph, self: ClassId, tname: Utf8): bool
    requires WellFormed(g) && self in g
  {
    || InheritName(g, self, tname)
    || (g[self].isArray &&
        var k := LeadingTabs(tname);
        && k < |tname| && tname[k] == I_REF
        && Peel(g, self, k).Some?
        && InheritName(g, Peel(g, self, k).value, Slice(tname, k + 1, |tname| - 1)))
  }

  /** CommonClass::isOfTypeName. The loop peels one array marker off the
      name and one component class off self per step, while the class being
      peeled is an array with a component and the name goes on. */
  method IsOfTypeName(g: Graph, self: ClassId, tname: Utf8) returns (r: bool)
    requires WellFormed(g) && self in g
    ensures r == OfTypeName(g, self, tname)
  {
    if InheritName(g, self, tname) {
      return true;
    }
    if !g[self].isArray {
      return false;
    }
    var curS: Option<ClassId> := Some(self);
    var prof := 0;
    var len := |tname|;
    var res := true;
    ghost var k := LeadingTabs(tname);
    while res && At(tname, prof) == I_TAB
      invariant prof <= len
      invariant res ==> prof <= k && curS == Peel(g, self, prof) && curS.Some?
      invariant res ==> prof == 0 || prof < len
      invariant !res ==> k == len || Peel(g, self, k).None?
      decreases len - prof
    {
      assert prof < k;
      var cl := g[curS.value].baseClass;
      prof := prof + 1;
      res := g[curS.value].isArray && cl.Some? && prof < len;
      if !res && prof < len {
        PeelNoneStays(g, self, prof, k);
      }
      curS := cl;
    }
    r := At(tname, prof) == I_REF && res && InheritName(g, curS.value, Slice(tname, prof + 1, len - 1));
  }

  lemma {:induction false} PeelNoneStays(g: Graph, self: ClassId, a: nat, b: nat)
    requires WellFormed(g) && self in g && a <= b && Peel(g, self, a).None?
    ensures Peel(g, self, b).None?
    decreases b - a
  {
    if a < b {
      PeelNoneStays(g, self, a + 1, b);
    }
  }
}
