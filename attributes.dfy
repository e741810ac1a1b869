/** The raw attributes attached to a Class, a JavaField or a JavaMethod,
    and the lookup of one of them by name. */
module Attributes {
  import opened Wrappers
  import opened ClassGraph

  /** Class::lookupAttribut, JavaField::lookupAttribut and
      JavaMethod::lookupAttribut, which are the same scan over the owner's
      attribute list: the position of the first attribute, in declaration
      order, whose name is `key`, or None (the null attribute) when no
      attribute has that name. */
  method LookupAttribut(attributs: seq<Attribut>, key: Utf8) returns (r: Option<nat>)
    ensures r.Some? ==> r.value < |attributs| && attributs[r.value].name == key
    ensures r.Some? ==> forall j | 0 <= j < r.value :: attributs[j].name != key
    ensures r.None? <==> forall j | 0 <= j < |attributs| :: attributs[j].name != key
  {
    var i := 0;
    while i < |attributs|
      invariant 0 <= i <= |attributs|
      invariant forall j | 0 <= j < i :: attributs[j].name != key
    {
      if attributs[i].name == key {
        return Some(i);
      }
      i := i + 1;
    }
    return None;
  }
}
