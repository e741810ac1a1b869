/** The class-metadata records of the runtime and the graph they form.

    A class record (CommonClass, with the fields of Class and ClassArray lifted
    into it) is addressed by a ClassId: two references to classes are the same
    object exactly when their ids are equal. The registry's graph maps ids to
    records. In a well-formed graph every reference a record holds (its
    superclass, its direct interfaces and, for an array class, its component
    class) names a record of the graph with a smaller id: the graph is acyclic,
    and its ids are a topological numbering of it. */
module ClassGraph {
  import opened Wrappers

  type ClassId = nat

  /** The runtime's interned UTF8 strings, as sequences of characters. */
  type Utf8 = seq<char>

  /** ACC_INTERFACE, the access flag of an interface (section 4.1 of the Java
      Virtual Machine Specification). */
  const ACC_INTERFACE: bv16 := 0x0200

  /** isInterface(access): the interface bit is set. */
  predicate IsInterface(access: bv16)
  {
    access & ACC_INTERFACE != 0
  }

  /** A class loader object; the null loader stands for the bootstrap loader. */
  datatype Loader = BootstrapLoader | LoaderObject(id: nat)

  /** A raw attribute: its name and the byte range (start, nbb) it covers in
      the owning class's class-file bytes. */
  datatype Attribut = Attribut(name: Utf8, start: nat, nbb: nat)

  /** A declared method or field (JavaMethod, JavaField): name, type
      descriptor and attributes. */
  datatype Member = Member(name: Utf8, typ: Utf8, attributs: seq<Attribut>)

  datatype ClassRecord = ClassRecord(
    name: Utf8,
    access: bv16,
    isArray: bool,
    /** AssessorDesc::bogusClassToPrimitive: this record stands for a primitive type. */
    bogusPrimitive: bool,
    super: Option<ClassId>,
    interfaces: seq<ClassId>,
    staticMethods: seq<Member>,
    virtualMethods: seq<Member>,
    staticFields: seq<Member>,
    virtualFields: seq<Member>,
    attributs: seq<Attribut>,
    depth: nat,
    display: seq<ClassId>,
    /** ClassArray::baseClass(): the component class of an array class. */
    baseClass: Option<ClassId>,
    classLoader: Loader)

  type Graph = map<ClassId, ClassRecord>

  /** Every reference held by the record of c points into the graph, below c. */
  predicate RefsBelow(g: Graph, c: ClassId)
    requires c in g
  {
    var r := g[c];
    && (r.super.Some? ==> r.super.value in g && r.super.value < c)
    && (forall i | 0 <= i < |r.interfaces| :: r.interfaces[i] in g && r.interfaces[i] < c)
    && (r.isArray ==> r.baseClass.Some? && r.baseClass.value in g && r.baseClass.value < c)
  }

  predicate WellFormed(g: Graph)
  {
    forall c | c in g :: RefsBelow(g, c)
  }

  /** The superclass chain of c: c itself, then its superclass, and so on up
      to the root. */
  function Chain(g: Graph, c: ClassId): (ch: seq<ClassId>)
    requires WellFormed(g) && c in g
    ensures |ch| > 0 && ch[0] == c
    ensures forall i | 0 <= i < |ch| :: ch[i] in g
    decreases c
  {
    match g[c].super
    case None => [c]
    case Some(s) => [c] + Chain(g, s)
  }

  /** The chain relation is transitive: an ancestor of an ancestor is an ancestor. */
  lemma {:induction false} ChainTransitive(g: Graph, a: ClassId, b: ClassId, c: ClassId)
    requires WellFormed(g) && a in g && b in g
    requires b in Chain(g, a) && c in Chain(g, b)
    ensures c in Chain(g, a)
    decreases a
  {
    if a != b {
      var s := g[a].super.value;
      ChainTransitive(g, s, b, c);
    }
  }

  /** The display invariant that resolution establishes for the record of c:
      the display has depth + 1 entries and ends with c; a root has depth 0;
      otherwise c is one deeper than its superclass, and its display extends
      the superclass's display. */
  predicate DisplayOk(g: Graph, c: ClassId)
    requires c in g
  {
    var r := g[c];
    && |r.display| == r.depth + 1
    && r.display[r.depth] == c
    && match r.super
       case None => r.depth == 0
       case Some(s) => s in g && r.depth == g[s].depth + 1 && r.display[..r.depth] == g[s].display
  }

  predicate DisplayInvariant(g: Graph)
  {
    forall c | c in g :: DisplayOk(g, c)
  }

  /** Under the display invariant the display of c is its ancestor table:
      entry d is the ancestor of c at depth d, i.e. depth - d steps up the
      superclass chain, and the chain has exactly depth + 1 classes. */
  lemma {:induction false} DisplayIsAncestorTable(g: Graph, c: ClassId)
    requires WellFormed(g) && DisplayInvariant(g) && c in g
    ensures |Chain(g, c)| == g[c].depth + 1
    ensures forall d | 0 <= d <= g[c].depth :: g[c].display[d] == Chain(g, c)[g[c].depth - d]
    ensures forall d | 0 <= d <= g[c].depth :: g[c].display[d] in g && g[g[c].display[d]].depth == d
    decreases c
  {
    var r := g[c];
    assert DisplayOk(g, c);
    if r.super.Some? {
      var s := r.super.value;
      assert RefsBelow(g, c);
      DisplayIsAncestorTable(g, s);
      DisplayStep(g, c, s);
    }
  }

  /** The inductive step of DisplayIsAncestorTable, from the superclass s to c. */
  lemma DisplayStep(g: Graph, c: ClassId, s: ClassId)
    requires WellFormed(g) && c in g && s in g && g[c].super == Some(s)
    requires DisplayOk(g, c) && DisplayOk(g, s)
    requires |Chain(g, s)| == g[s].depth + 1
    requires forall d | 0 <= d <= g[s].depth :: g[s].display[d] == Chain(g, s)[g[s].depth - d]
    requires forall d | 0 <= d <= g[s].depth :: g[s].display[d] in g && g[g[s].display[d]].depth == d
    ensures |Chain(g, c)| == g[c].depth + 1
    ensures forall d | 0 <= d <= g[c].depth :: g[c].display[d] == Chain(g, c)[g[c].depth - d]
    ensures forall d | 0 <= d <= g[c].depth :: g[c].display[d] in g && g[g[c].display[d]].depth == d
  {
    var r := g[c];
    var ds := g[s].display;
    var chs := Chain(g, s);
    DisplayExtends(g, c, s);
    assert Chain(g, c) == [c] + chs;
    forall d | 0 <= d < r.depth
      ensures r.display[d] == ds[d] == chs[g[s].depth - d]
    {
    }
  }

  /** The display of c is the display of its superclass s followed by c. */
  lemma DisplayExtends(g: Graph, c: ClassId, s: ClassId)
    requires c in g && s in g && g[c].super == Some(s) && DisplayOk(g, c)
    ensures g[c].display == g[s].display + [c]
  {
    var r := g[c];
    assert r.display == r.display[..r.depth] + [r.display[r.depth]];
  }

  /** One step up the hierarchy: to the superclass or to a direct interface. */
  predicate Edge(g: Graph, a: ClassId, b: ClassId)
  {
    a in g && (g[a].super == Some(b) || b in g[a].interfaces)
  }

  /** A non-empty walk through the graph along Edge steps. */
  predicate IsPath(g: Graph, p: seq<ClassId>)
  {
    |p| > 0 && p[|p| - 1] in g && forall i | 0 <= i < |p| - 1 :: Edge(g, p[i], p[i + 1])
  }

  /** b is a (reflexive, transitive) supertype of a: some path leads from a to b. */
  ghost predicate Reaches(g: Graph, a: ClassId, b: ClassId)
  {
    exists p :: IsPath(g, p) && p[0] == a && p[|p| - 1] == b
  }

  lemma ReachesRefl(g: Graph, a: ClassId)
    requires a in g
    ensures Reaches(g, a, a)
  {
    assert IsPath(g, [a]);
  }

  lemma ReachesStep(g: Graph, a: ClassId, b: ClassId, c: ClassId)
    requires Edge(g, a, b) && Reaches(g, b, c)
    ensures Reaches(g, a, c)
  {
    var p :| IsPath(g, p) && p[0] == b && p[|p| - 1] == c;
    var q := [a] + p;
    forall i | 0 <= i < |q| - 1
      ensures Edge(g, q[i], q[i + 1])
    {
      if i > 0 {
        assert q[i] == p[i - 1] && q[i + 1] == p[i];
      }
    }
    assert IsPath(g, q) && q[0] == a && q[|q| - 1] == c;
  }

  /** Two paths that meet join into one. */
  lemma ReachesTransitive(g: Graph, a: ClassId, b: ClassId, c: ClassId)
    requires Reaches(g, a, b) && Reaches(g, b, c)
    ensures Reaches(g, a, c)
  {
    var p :| IsPath(g, p) && p[0] == a && p[|p| - 1] == b;
    var q :| IsPath(g, q) && q[0] == b && q[|q| - 1] == c;
    var pq := p + q[1..];
    forall i | 0 <= i < |pq| - 1
      ensures Edge(g, pq[i], pq[i + 1])
    {
      if i < |p| - 1 {
        assert pq[i] == p[i] && pq[i + 1] == p[i + 1];
      } else {
        assert pq[i] == q[i - |p| + 1] && pq[i + 1] == q[i - |p| + 2];
      }
    }
    assert pq[|pq| - 1] == c by {
      if |q| == 1 {
        assert pq == p;
      }
    }
    assert IsPath(g, pq) && pq[0] == a;
  }

  /** A path of two or more classes is an Edge step followed by a shorter path. */
  lemma PathTail(g: Graph, p: seq<ClassId>)
    requires IsPath(g, p) && |p| > 1
    ensures Edge(g, p[0], p[1]) && IsPath(g, p[1..])
  {
    var t := p[1..];
    forall i | 0 <= i < |t| - 1
      ensures Edge(g, t[i], t[i + 1])
    {
      assert t[i] == p[i + 1] && t[i + 1] == p[i + 2];
    }
  }
}
