/**
 * The `ContainerDebugAdapter` of the Ember debugging extension: it tells an
 * inspector tool which kinds of application classes (routes, controllers, ...)
 * can be listed, and lists them by scanning the loaded namespaces for classes
 * whose name ends with the kind's classified form.
 *
 * The registry of loaded namespaces is an explicit, read-only parameter here,
 * and the string helpers and type-tag function the adapter imports are
 * supplied as a `Helpers` value, so the scan is a function of its inputs.
 */
module ContainerDebugAdapter {
  import opened AnchoredPattern

  /** One enumerable property of a namespace object, as `for...in` visits it:
      `own` tells whether the namespace has it itself or inherits it. */
  datatype Property<V> = Property(key: string, value: V, own: bool)

  /** A namespace object, its enumerable properties in enumeration order. */
  type Namespace<V> = seq<Property<V>>

  /** The library functions the adapter calls: `classify` and `dasherize` from
      the string utilities and `typeOf` from the runtime. */
  datatype Helpers<!V> = Helpers(
    classify: string -> string,
    dasherize: string -> string,
    typeOf: V -> string)

  /** The kinds for which no catalog is offered. */
  const UnsupportedTypes: set<string> := {"model", "template"}

  /** Whether a list of classes of the given kind is available. */
  function CanCatalogEntriesByType(typeName: string): (r: bool)
    ensures r <==> typeName !in UnsupportedTypes
  {
    if typeName == "model" || typeName == "template" then false else true
  }

  /** A property is catalogued when it is the namespace's own, its key ends
      with the suffix, and its value is a class. */
  predicate Qualifies<V>(p: Property<V>, suffix: string, h: Helpers<V>)
  {
    p.own && EndsWith(p.key, suffix) && h.typeOf(p.value) == "class"
  }

  /** The catalog entry for a catalogued property: its key without the
      suffix, dasherized. */
  function EntryName<V>(p: Property<V>, suffix: string, h: Helpers<V>): string
    requires EndsWith(p.key, suffix)
  {
    h.dasherize(StripSuffix(p.key, suffix))
  }

  /** The entries one namespace contributes, in enumeration order. */
  function NamespaceEntries<V>(ns: Namespace<V>, suffix: string, h: Helpers<V>): seq<string>
  {
    if ns == [] then []
    else (if Qualifies(ns[0], suffix, h) then [EntryName(ns[0], suffix, h)] else [])
         + NamespaceEntries(ns[1..], suffix, h)
  }

  /** The entries of all namespaces, namespace by namespace. */
  function Entries<V>(namespaces: seq<Namespace<V>>, suffix: string, h: Helpers<V>): seq<string>
  {
    if namespaces == [] then []
    else NamespaceEntries(namespaces[0], suffix, h) + Entries(namespaces[1..], suffix, h)
  }

  lemma {:induction false} NamespaceEntriesAppend<V>(a: Namespace<V>, b: Namespace<V>, suffix: string, h: Helpers<V>)
    ensures NamespaceEntries(a + b, suffix, h)
         == NamespaceEntries(a, suffix, h) + NamespaceEntries(b, suffix, h)
  {
    if a == [] {
      assert a + b == b;
    } else {
      assert (a + b)[1..] == a[1..] + b;
      NamespaceEntriesAppend(a[1..], b, suffix, h);
    }
  }

  lemma {:induction false} EntriesAppend<V>(a: seq<Namespace<V>>, b: seq<Namespace<V>>, suffix: string, h: Helpers<V>)
    ensures Entries(a + b, suffix, h) == Entries(a, suffix, h) + Entries(b, suffix, h)
  {
    if a == [] {
      assert a + b == b;
    } else {
      assert (a + b)[1..] == a[1..] + b;
      EntriesAppend(a[1..], b, suffix, h);
    }
  }

  /** The list of classes of the given kind found in `namespaces`: for each
      namespace in order, for each of its properties in enumeration order,
      the dasherized key without its suffix, when the property is the
      namespace's own, its key ends with `classify(typeName)` and its value is
      a class. The pattern is built from `classify(typeName)` unescaped, so
      the model needs it to be literal. */
  method CatalogEntriesByType<V>(typeName: string, namespaces: seq<Namespace<V>>, h: Helpers<V>)
    returns (types: seq<string>)
    requires IsLiteral(h.classify(typeName))
    ensures types == Entries(namespaces, h.classify(typeName), h)
  {
    types := [];
    var suffix := h.classify(typeName);
    for i := 0 to |namespaces|
      invariant types == Entries(namespaces[..i], suffix, h)
    {
      var namespace := namespaces[i];
      ghost var before := types;
      for k := 0 to |namespace|
        invariant types == before + NamespaceEntries(namespace[..k], suffix, h)
      {
        var property := namespace[k];
        NamespaceEntriesAppend(namespace[..k], [property], suffix, h);
        assert namespace[..k + 1] == namespace[..k] + [property];
        TestIsEndsWith(property.key, suffix);
        if property.own {
          if Test(property.key, suffix) {
            var klass := property.value;
            if h.typeOf(klass) == "class" {
              ReplaceIsStripSuffix(property.key, suffix);
              types := types + [h.dasherize(Replace(property.key, suffix))];
            }
          }
        }
      }
      assert namespace[..|namespace|] == namespace;
      EntriesAppend(namespaces[..i], [namespace], suffix, h);
      assert namespaces[..i + 1] == namespaces[..i] + [namespace];
    }
    assert namespaces[..|namespaces|] == namespaces;
  }
}
