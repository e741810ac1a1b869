/** CommonClass's resolution of a (name, type descriptor) pair to a declared
    method or field, searching the class itself, then everything the
    superclass's own lookup searches (its chain and, for static members, the
    interfaces of the classes on it, the root's first), then, for static
    members only, the class's own direct interfaces in declaration order. */
module MemberResolver {
  import opened Wrappers
  import opened ClassGraph

  datatype MemberKind = MethodMember | FieldMember

  /** What a lookup asks for: methods or fields, the name and the type
      descriptor, the static/virtual selector and whether to recurse. */
  datatype Query = Query(kind: MemberKind, name: Utf8, typ: Utf8, isStatic: bool, recurse: bool)

  /** A reference to a declared member: the declaring class, the list it is
      declared in (static or virtual) and its position in that list. */
  datatype MemberRef = MemberRef(owner: ClassId, isStatic: bool, index: nat)

  /** The language-level errors raised by the throwing lookups, carrying the
      searched name and the class searched from. */
  datatype LookupError =
    | NoSuchMethodError(name: Utf8, inClass: ClassId)
    | NoSuchFieldError(name: Utf8, inClass: ClassId)

  /** The member list a lookup scans: staticMethods, virtualMethods,
      staticFields or virtualFields. */
  function Members(r: ClassRecord, kind: MemberKind, isStatic: bool): seq<Member>
  {
    match kind
    case MethodMember => if isStatic then r.staticMethods else r.virtualMethods
    case FieldMember => if isStatic then r.staticFields else r.virtualFields
  }

  predicate Matches(m: Member, name: Utf8, typ: Utf8)
  {
    m.name == name && m.typ == typ
  }

  /** The position of the first member, in declaration order, whose name and
      type both match, or None when no member matches. */
  function FirstMatch(ms: seq<Member>, name: Utf8, typ: Utf8): (r: Option<nat>)
    ensures r.Some? ==> r.value < |ms| && Matches(ms[r.value], name, typ)
    ensures r.Some? ==> forall j | 0 <= j < r.value :: !Matches(ms[j], name, typ)
    ensures r.None? <==> forall j | 0 <= j < |ms| :: !Matches(ms[j], name, typ)
  {
    if ms == [] then None
    else if Matches(ms[0], name, typ) then Some(0)
    else match FirstMatch(ms[1..], name, typ)
      case None => None
      case Some(k) => Some(k + 1)
  }

  /** The member a lookup from c finds locally, in c's own list. */
  function Local(g: Graph, c: ClassId, q: Query): Option<MemberRef>
    requires c in g
  {
    match FirstMatch(Members(g[c], q.kind, q.isStatic), q.name, q.typ)
    case None => None
    case Some(i) => Some(MemberRef(c, q.isStatic, i))
  }

  /** The result of lookupMethodDontThrow / lookupFieldDontThrow on c: the local
      match; failing that, when recursing, the superclass's whole lookup (which
      for a static lookup already includes the superclass's interfaces);
      failing that, for a static lookup, the first direct interface's result. */
  function Resolve(g: Graph, c: ClassId, q: Query): Option<MemberRef>
    requires WellFormed(g) && c in g
    decreases c, |g[c].interfaces| + 1
  {
    assert RefsBelow(g, c);
    if Local(g, c, q).Some? then Local(g, c, q)
    else if !q.recurse then None
    else
      var fromSuper := if g[c].super.Some? then Resolve(g, g[c].super.value, q) else None;
      if fromSuper.Some? then fromSuper
      else if q.isStatic then ResolveVia(g, c, 0, q)
      else None
  }

  /** The search of c's direct interfaces from position i on: the first
      interface whose own resolution finds the member. */
  function ResolveVia(g: Graph, c: ClassId, i: nat, q: Query): Option<MemberRef>
    requires WellFormed(g) && c in g && i <= |g[c].interfaces|
    decreases c, |g[c].interfaces| - i
  {
    assert RefsBelow(g, c);
    if i == |g[c].interfaces| then None
    else
      var found := Resolve(g, g[c].interfaces[i], q);
      if found.Some? then found else ResolveVia(g, c, i + 1, q)
  }

  /** CommonClass::lookupMethodDontThrow and lookupFieldDontThrow, which run
      the same algorithm on the method or on the field lists. */
  method LookupDontThrow(g: Graph, c: ClassId, q: Query) returns (r: Option<MemberRef>)
    requires WellFormed(g) && c in g
    ensures r == Resolve(g, c, q)
    decreases c
  {
    assert RefsBelow(g, c);
    var ms := Members(g[c], q.kind, q.isStatic);
    var i := 0;
    while i < |ms|
      invariant 0 <= i <= |ms|
      invariant forall j | 0 <= j < i :: !Matches(ms[j], q.name, q.typ)
    {
      if Matches(ms[i], q.name, q.typ) {
        return Some(MemberRef(c, q.isStatic, i));
      }
      i := i + 1;
    }
    if q.recurse {
      var cur: Option<MemberRef> := None;
      if g[c].super.Some? {
        cur := LookupDontThrow(g, g[c].super.value, q);
      }
      if cur.Some? {
        return cur;
      }
      if q.isStatic {
        var k := 0;
        while k < |g[c].interfaces|
          invariant 0 <= k <= |g[c].interfaces|
          invariant ResolveVia(g, c, k, q) == ResolveVia(g, c, 0, q)
        {
          cur := LookupDontThrow(g, g[c].interfaces[k], q);
          if cur.Some? {
            return cur;
          }
          k := k + 1;
        }
      }
    }
    return None;
  }

  method LookupMethodDontThrow(g: Graph, c: ClassId, name: Utf8, typ: Utf8, isStatic: bool, recurse: bool)
    returns (r: Option<MemberRef>)
    requires WellFormed(g) && c in g
    ensures r == Resolve(g, c, Query(MethodMember, name, typ, isStatic, recurse))
  {
    r := LookupDontThrow(g, c, Query(MethodMember, name, typ, isStatic, recurse));
  }

  method LookupFieldDontThrow(g: Graph, c: ClassId, name: Utf8, typ: Utf8, isStatic: bool, recurse: bool)
    returns (r: Option<MemberRef>)
    requires WellFormed(g) && c in g
    ensures r == Resolve(g, c, Query(FieldMember, name, typ, isStatic, recurse))
  {
    r := LookupDontThrow(g, c, Query(FieldMember, name, typ, isStatic, recurse));
  }

  /** CommonClass::lookupMethod: the non-throwing result when there is one,
      NoSuchMethodError for the searched name in c exactly when there is none. */
  method LookupMethod(g: Graph, c: ClassId, name: Utf8, typ: Utf8, isStatic: bool, recurse: bool)
    returns (r: Result<MemberRef, LookupError>)
    requires WellFormed(g) && c in g
    ensures var found := Resolve(g, c, Query(MethodMember, name, typ, isStatic, recurse));
      && (r.Success? <==> found.Some?)
      && (r.Success? ==> r.value == found.value)
      && (r.Failure? ==> r.error == NoSuchMethodError(name, c))
  {
    var res := LookupMethodDontThrow(g, c, name, typ, isStatic, recurse);
    if res.None? {
      return Failure(NoSuchMethodError(name, c));
    }
    return Success(res.value);
  }

  /** CommonClass::lookupField: the non-throwing result when there is one,
      NoSuchFieldError for the searched name in c exactly when there is none. */
  method LookupField(g: Graph, c: ClassId, name: Utf8, typ: Utf8, isStatic: bool, recurse: bool)
    returns (r: Result<MemberRef, LookupError>)
    requires WellFormed(g) && c in g
    ensures var found := Resolve(g, c, Query(FieldMember, name, typ, isStatic, recurse));
      && (r.Success? <==> found.Some?)
      && (r.Success? ==> r.value == found.value)
      && (r.Failure? ==> r.error == NoSuchFieldError(name, c))
  {
    var res := LookupFieldDontThrow(g, c, name, typ, isStatic, recurse);
    if res.None? {
      return Failure(NoSuchFieldError(name, c));
    }
    return Success(res.value);
  }

  // ---------------------------------------------------------------------
  // Properties of the resolution order

  /** A non-recursive lookup scans only the list the selector chooses in c
      itself: it finds exactly the first matching member there. */
  lemma NonRecursiveLookupIsLocal(g: Graph, c: ClassId, q: Query)
    requires WellFormed(g) && c in g && !q.recurse
    ensures match Resolve(g, c, q)
      case None => forall j | 0 <= j < |Members(g[c], q.kind, q.isStatic)| ::
        !Matches(Members(g[c], q.kind, q.isStatic)[j], q.name, q.typ)
      case Some(m) =>
        && m.owner == c && m.isStatic == q.isStatic
        && FirstMatch(Members(g[c], q.kind, q.isStatic), q.name, q.typ) == Some(m.index)
  {
  }

  /** Whatever a lookup returns is a member declared by a supertype of c (by
      c itself when not recursing), in the list the selector chooses, whose
      name and type both match. */
  lemma {:induction false} ResolveSound(g: Graph, c: ClassId, q: Query)
    requires WellFormed(g) && c in g
    ensures match Resolve(g, c, q)
      case None => true
      case Some(m) =>
        && m.owner in g && m.isStatic == q.isStatic
        && m.index < |Members(g[m.owner], q.kind, q.isStatic)|
        && Matches(Members(g[m.owner], q.kind, q.isStatic)[m.index], q.name, q.typ)
        && (!q.recurse ==> m.owner == c)
        && Reaches(g, c, m.owner)
    decreases c, |g[c].interfaces| + 1
  {
    assert RefsBelow(g, c);
    var r := Resolve(g, c, q);
    if r.Some? {
      var m := r.value;
      if Local(g, c, q).Some? {
        ReachesRefl(g, c);
      } else {
        var s := g[c].super;
        if s.Some? && Resolve(g, s.value, q).Some? {
          ResolveSound(g, s.value, q);
          ReachesStep(g, c, s.value, m.owner);
        } else {
          ResolveViaSound(g, c, 0, q);
        }
      }
    }
  }

  lemma {:induction false} ResolveViaSound(g: Graph, c: ClassId, i: nat, q: Query)
    requires WellFormed(g) && c in g && i <= |g[c].interfaces| && q.recurse
    ensures match ResolveVia(g, c, i, q)
      case None => true
      case Some(m) =>
        && m.owner in g && m.isStatic == q.isStatic
        && m.index < |Members(g[m.owner], q.kind, q.isStatic)|
        && Matches(Members(g[m.owner], q.kind, q.isStatic)[m.index], q.name, q.typ)
        && Reaches(g, c, m.owner)
    decreases c, |g[c].interfaces| - i
  {
    assert RefsBelow(g, c);
    if i < |g[c].interfaces| {
      var itf := g[c].interfaces[i];
      var found := Resolve(g, itf, q);
      if found.Some? {
        ResolveSound(g, itf, q);
        ReachesStep(g, c, itf, found.value.owner);
      } else {
        ResolveViaSound(g, c, i + 1, q);
      }
    }
  }

  /** The first class along a superclass chain that declares a matching
      member in the selected list, with that member. */
  function FirstOnChain(g: Graph, chain: seq<ClassId>, q: Query): (r: Option<MemberRef>)
    requires forall i | 0 <= i < |chain| :: chain[i] in g
    ensures r.Some? ==> r.value.owner in chain
  {
    if chain == [] then None
    else if Local(g, chain[0], q).Some? then Local(g, chain[0], q)
    else FirstOnChain(g, chain[1..], q)
  }

  /** Recursive-lookup precedence. A match anywhere on c's superclass chain
      is found before any interface is searched, and it is the match of the
      class nearest to c (so a local match is returned without consulting the
      superclass, and a subclass's declaration shadows its superclass's); a
      virtual lookup finds exactly that, so it never returns a member found
      only through an interface. */
  lemma {:induction false} ResolveFollowsChain(g: Graph, c: ClassId, q: Query)
    requires WellFormed(g) && c in g && q.recurse
    ensures FirstOnChain(g, Chain(g, c), q).Some? ==> Resolve(g, c, q) == FirstOnChain(g, Chain(g, c), q)
    ensures !q.isStatic ==> Resolve(g, c, q) == FirstOnChain(g, Chain(g, c), q)
    decreases c
  {
    assert RefsBelow(g, c);
    var ch := Chain(g, c);
    match g[c].super
    case None =>
      assert ch == [c];
      assert ch[1..] == [];
    case Some(s) =>
      ResolveFollowsChain(g, s, q);
      assert ch[1..] == Chain(g, s);
  }

  /** A static recursive lookup that finds nothing in c nor through the
      superclass searches c's direct interfaces in declaration order: it
      returns the result of the first interface whose own lookup succeeds,
      and nothing exactly when every interface's lookup fails. */
  lemma InterfacesInDeclarationOrder(g: Graph, c: ClassId, q: Query)
    requires WellFormed(g) && c in g && q.recurse && q.isStatic
    requires Local(g, c, q).None?
    requires g[c].super.Some? ==> g[c].super.value in g && Resolve(g, g[c].super.value, q).None?
    ensures RefsBelow(g, c)
    ensures Resolve(g, c, q).Some? ==>
      exists i | 0 <= i < |g[c].interfaces| ::
        && Resolve(g, g[c].interfaces[i], q) == Resolve(g, c, q)
        && forall j | 0 <= j < i :: Resolve(g, g[c].interfaces[j], q).None?
    ensures Resolve(g, c, q).None? <==>
      forall i | 0 <= i < |g[c].interfaces| :: Resolve(g, g[c].interfaces[i], q).None?
  {
    assert RefsBelow(g, c);
    ResolveViaFirst(g, c, 0, q);
  }

  lemma {:induction false} ResolveViaFirst(g: Graph, c: ClassId, i: nat, q: Query)
    requires WellFormed(g) && c in g && i <= |g[c].interfaces|
    ensures RefsBelow(g, c)
    ensures ResolveVia(g, c, i, q).Some? ==>
      exists k | i <= k < |g[c].interfaces| ::
        && Resolve(g, g[c].interfaces[k], q) == ResolveVia(g, c, i, q)
        && forall j | i <= j < k :: Resolve(g, g[c].interfaces[j], q).None?
    ensures ResolveVia(g, c, i, q).None? <==>
      forall k | i <= k < |g[c].interfaces| :: Resolve(g, g[c].interfaces[k], q).None?
    decreases |g[c].interfaces| - i
  {
    assert RefsBelow(g, c);
    if i < |g[c].interfaces| {
      ResolveViaFirst(g, c, i + 1, q);
    }
  }

  /** Completeness of a static recursive lookup: whenever some class
      reachable from p[0] along a path declares a match, the lookup from p[0]
      finds a member (not necessarily that one). */
  lemma {:induction false} StaticLookupComplete(g: Graph, p: seq<ClassId>, q: Query)
    requires WellFormed(g) && IsPath(g, p) && q.recurse && q.isStatic
    requires Local(g, p[|p| - 1], q).Some?
    ensures p[0] in g && Resolve(g, p[0], q).Some?
    decreases |p|
  {
    if |p| > 1 {
      PathTail(g, p);
      var t := p[1..];
      assert t[0] == p[1] && t[|t| - 1] == p[|p| - 1];
      StaticLookupComplete(g, t, q);
      var c := p[0];
      assert RefsBelow(g, c);
      if Local(g, c, q).None? && g[c].super != Some(p[1]) {
        var fromSuper := if g[c].super.Some? then Resolve(g, g[c].super.value, q) else None;
        if fromSuper.None? {
          ResolveViaFirst(g, c, 0, q);
          var j :| 0 <= j < |g[c].interfaces| && g[c].interfaces[j] == p[1];
        }
      }
    }
  }

  /** A static recursive lookup fails exactly when no class reachable from c
      declares a matching member in its static list; so lookupField and
      lookupMethod raise their error only then. */
  lemma StaticLookupFailsIffUndeclared(g: Graph, c: ClassId, q: Query)
    requires WellFormed(g) && c in g && q.recurse && q.isStatic
    ensures Resolve(g, c, q).None? <==>
      forall a | Reaches(g, c, a) && a in g :: Local(g, a, q).None?
  {
    if Resolve(g, c, q).Some? {
      ResolveSound(g, c, q);
      var m := Resolve(g, c, q).value;
      assert Reaches(g, c, m.owner) && m.owner in g && Local(g, m.owner, q).Some?;
    }
    if exists a | Reaches(g, c, a) && a in g :: Local(g, a, q).Some? {
      var a :| Reaches(g, c, a) && a in g && Local(g, a, q).Some?;
      var p :| IsPath(g, p) && p[0] == c && p[|p| - 1] == a;
      StaticLookupComplete(g, p, q);
    }
  }

  /** C extends B and implements I; B implements J; I and J both declare the
      static field f of type I. */
  function SuperInterfaceFirst(): Graph
  {
    var f := Member("f", "I", []);
    var j := ClassRecord("J", 0x0601, false, false, None, [], [], [], [f], [], [], 0, [0], None, BootstrapLoader);
    var i := ClassRecord("I", 0x0601, false, false, None, [], [], [], [f], [], [], 0, [1], None, BootstrapLoader);
    var b := ClassRecord("B", 0x0001, false, false, None, [0], [], [], [], [], [], 0, [2], None, BootstrapLoader);
    var cc := ClassRecord("C", 0x0001, false, false, Some(2), [1], [], [], [], [], [], 1, [2, 3], None, BootstrapLoader);
    map[0 := j, 1 := i, 2 := b, 3 := cc]
  }

  /** The superclass's whole lookup, its own interfaces included, runs before
      the class's direct interfaces: a static lookup of f from C finds J's f,
      an interface of the superclass, not I's. */
  lemma SuperclassInterfacesBeforeOwn()
    ensures WellFormed(SuperInterfaceFirst())
    ensures Resolve(SuperInterfaceFirst(), 3, Query(FieldMember, "f", "I", true, true))
      == Some(MemberRef(0, true, 0))
  {
    var g := SuperInterfaceFirst();
    var q := Query(FieldMember, "f", "I", true, true);
    assert RefsBelow(g, 0) && RefsBelow(g, 1) && RefsBelow(g, 2) && RefsBelow(g, 3);
    assert Local(g, 0, q) == Some(MemberRef(0, true, 0));
    assert Resolve(g, 0, q) == Some(MemberRef(0, true, 0));
    assert Local(g, 2, q).None?;
    assert ResolveVia(g, 2, 0, q) == Some(MemberRef(0, true, 0));
    assert Resolve(g, 2, q) == Some(MemberRef(0, true, 0));
    assert Local(g, 3, q).None?;
  }
}
