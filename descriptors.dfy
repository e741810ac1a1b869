/** Class descriptors as the runtime spells them: N array markers '[' in
    front of either a reference marker 'L', the internal class name and ';',
    or a primitive type code. */
module Descriptors {
  import opened ClassGraph

  /** AssessorDesc::I_TAB, the array marker. */
  const I_TAB: char := '['

  /** AssessorDesc::I_REF, the reference-type marker. */
  const I_REF: char := 'L'

  /** The terminator of a reference descriptor. */
  const I_END_REF: char := ';'

  /** The character the runtime reads at position i of a name. A read past
      the end of the name is outside the string's contents; the model reads
      there a NUL, which is neither marker. */
  function At(s: Utf8, i: int): char
  {
    if 0 <= i < |s| then s[i] else '\0'
  }

  /** UTF8::extract(from, to): the characters at positions from up to (not
      including) to. A range that is empty or reversed, or that runs past the
      end of the name (to > |s|, as when a length passed to ArrayLoader is too
      large), yields the empty name. */
  function Slice(s: Utf8, from: int, to: int): Utf8
  {
    if 0 <= from <= to <= |s| then s[from..to] else []
  }

  /** The number of array markers a descriptor starts with. */
  function LeadingTabs(s: Utf8): (k: nat)
    ensures k <= |s|
    ensures forall j | 0 <= j < k :: s[j] == I_TAB
    ensures k < |s| ==> s[k] != I_TAB
  {
    if |s| > 0 && s[0] == I_TAB then 1 + LeadingTabs(s[1..]) else 0
  }

  function Repeat(c: char, n: nat): (r: Utf8)
    ensures |r| == n && forall j | 0 <= j < n :: r[j] == c
  {
    if n == 0 then [] else [c] + Repeat(c, n - 1)
  }

  /** The descriptor of an n-dimensional array of the class with internal
      name `component` (n = 0 gives the reference descriptor of the class). */
  function ArrayDescriptor(n: nat, component: Utf8): Utf8
  {
    Repeat(I_TAB, n) + [I_REF] + component + [I_END_REF]
  }

  /** The descriptor of an n-dimensional array of the primitive type whose
      one-letter code is `code`. */
  function PrimitiveArrayDescriptor(n: nat, code: char): Utf8
  {
    Repeat(I_TAB, n) + [code]
  }

  /** The reference descriptor built from a name is parsed back into that
      name: n array markers, the reference marker at position n, and the
      class name between it and the final ';'. */
  lemma ArrayDescriptorParts(n: nat, component: Utf8)
    ensures var s := ArrayDescriptor(n, component);
      && LeadingTabs(s) == n
      && At(s, n) == I_REF
      && Slice(s, n + 1, |s| - 1) == component
  {
    var s := ArrayDescriptor(n, component);
    assert s[n] == I_REF;
    assert s[n + 1..|s| - 1] == component;
  }

  /** A primitive array descriptor has n array markers and then the code. */
  lemma PrimitiveArrayDescriptorParts(n: nat, code: char)
    requires code != I_TAB
    ensures var s := PrimitiveArrayDescriptor(n, code);
      LeadingTabs(s) == n && At(s, n) == code
  {
    var s := PrimitiveArrayDescriptor(n, code);
    assert s[n] == code;
  }
}
