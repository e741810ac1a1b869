/** The defining loader of an array class, found from its descriptor. */
module ArrayClasses {
  import opened Wrappers
  import opened ClassGraph
  import opened Descriptors

  /** The error the loader raises when it cannot load the class of the given
      name through the given initiating loader. */
  datatype LoadError = ClassNotLoaded(name: Utf8, initiating: Loader)

  /** Every occurrence of the separator `from` in a class name becomes `to`;
      every other character stays. */
  function Translate(s: Utf8, from: char, to: char): (r: Utf8)
    ensures |r| == |s|
    ensures forall i | 0 <= i < |s| :: r[i] == (if s[i] == from then to else s[i])
  {
    if |s| == 0 then [] else [if s[0] == from then to else s[0]] + Translate(s[1..], from, to)
  }

  /** The internal form of a class name: every '.' of the Java form becomes '/'. */
  function JavaToInternal(s: Utf8): Utf8
  {
    Translate(s, '.', '/')
  }

  /** The Java form of an internal class name: every '/' becomes '.'. */
  function InternalToJava(s: Utf8): Utf8
  {
    Translate(s, '/', '.')
  }

  /** A rewrite is undone by the reverse rewrite when the name did not
      already hold the target character. */
  lemma {:induction false} TranslateRoundTrip(s: Utf8, from: char, to: char)
    requires to !in s
    ensures Translate(Translate(s, from, to), to, from) == s
  {
    if |s| > 0 {
      TranslateRoundTrip(s[1..], from, to);
      assert Translate(s, from, to)[1..] == Translate(s[1..], from, to);
    }
  }

  /** The two forms convert into each other: an internal name without '.'
      comes back from its Java form, and a Java name without '/' comes back
      from its internal form. */
  lemma NameFormsRoundTrip(s: Utf8)
    ensures '.' !in s ==> JavaToInternal(InternalToJava(s)) == s
    ensures '/' !in s ==> InternalToJava(JavaToInternal(s)) == s
  {
    if '.' !in s {
      TranslateRoundTrip(s, '/', '.');
    }
    if '/' !in s {
      TranslateRoundTrip(s, '.', '/');
    }
  }

  /** ClassArray::arrayLoader: skip the array markers from position start
      on; at a reference marker load the class named by the rest of the
      descriptor without its final character, through `loader`, and answer
      that class's loader; at anything else (a primitive type) answer the
      bootstrap loader. `len` is the number of characters of the descriptor
      from start on; `load` maps a class name and an initiating loader to
      the defining loader of the class it loads, or to the error raised when
      that class cannot be loaded, which arrayLoader passes on. */
  function ArrayLoader(name: Utf8, loader: Loader, start: nat, len: int,
                       load: (Utf8, Loader) -> Result<Loader, LoadError>): Result<Loader, LoadError>
    decreases |name| - start
  {
    if At(name, start) == I_TAB then
      ArrayLoader(name, loader, start + 1, len - 1, load)
    else if At(name, start) == I_REF then
      load(JavaToInternal(Slice(name, start + 1, start + 1 + (len - 2))), loader)
    else
      Success(BootstrapLoader)
  }

  lemma {:induction false} ArrayLoaderFrom(n: nat, component: Utf8, k: nat, loader: Loader,
                                           load: (Utf8, Loader) -> Result<Loader, LoadError>)
    requires k <= n
    ensures var s := ArrayDescriptor(n, component);
      ArrayLoader(s, loader, k, |s| - k, load) == load(JavaToInternal(component), loader)
    decreases n - k
  {
    var s := ArrayDescriptor(n, component);
    ArrayDescriptorParts(n, component);
    if k < n {
      assert At(s, k) == I_TAB;
      ArrayLoaderFrom(n, component, k + 1, loader, load);
    }
  }

  /** An array of a class, of any dimension, is defined by the loader that
      defines its element class when loaded through the given loader; when
      the element class cannot be loaded, the same error is raised. */
  lemma ArrayLoaderOfReferenceArray(n: nat, component: Utf8, loader: Loader,
                                    load: (Utf8, Loader) -> Result<Loader, LoadError>)
    ensures var s := ArrayDescriptor(n, component);
      ArrayLoader(s, loader, 0, |s|, load) == load(JavaToInternal(component), loader)
  {
    ArrayLoaderFrom(n, component, 0, loader, load);
  }

  lemma {:induction false} PrimitiveArrayLoaderFrom(n: nat, code: char, k: nat, loader: Loader,
                                                    load: (Utf8, Loader) -> Result<Loader, LoadError>)
    requires k <= n && code != I_TAB && code != I_REF
    ensures var s := PrimitiveArrayDescriptor(n, code);
      ArrayLoader(s, loader, k, |s| - k, load) == Success(BootstrapLoader)
    decreases n - k
  {
    var s := PrimitiveArrayDescriptor(n, code);
    PrimitiveArrayDescriptorParts(n, code);
    if k < n {
      assert At(s, k) == I_TAB;
      PrimitiveArrayLoaderFrom(n, code, k + 1, loader, load);
    }
  }

  /** An array of a primitive type, of any dimension, belongs to the
      bootstrap loader, whatever loader is asked; nothing is loaded, so it
      never fails. */
  lemma ArrayLoaderOfPrimitiveArray(n: nat, code: char, loader: Loader,
                                    load: (Utf8, Loader) -> Result<Loader, LoadError>)
    requires code != I_TAB && code != I_REF
    ensures var s := PrimitiveArrayDescriptor(n, code);
      ArrayLoader(s, loader, 0, |s|, load) == Success(BootstrapLoader)
  {
    PrimitiveArrayLoaderFrom(n, code, 0, loader, load);
  }
}
