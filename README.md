# Ember `ContainerDebugAdapter` catalog scan, in Dafny

This project models the part of Ember's `ContainerDebugAdapter`
(`packages/@ember/-internals/extension-support/lib/container_debug_adapter.js`)
that the Ember Inspector uses to list an application's classes by kind:

- `canCatalogEntriesByType(type)`: the fixed policy that no list is offered for
  `"model"` and `"template"`, and a list is offered for every other kind, including
  kinds the adapter has never heard of.
- `catalogEntriesByType(type)`: the scan. It goes over the registered namespaces in
  order and over each namespace's enumerable keys in `for...in` order. It keeps a key
  when three things hold: the key is the namespace's own property, the key ends with
  `classify(type)`, and `typeOf` of its value is `'class'`. For each kept key it pushes
  `dasherize` of the key without that suffix.

Files:

- `anchored_pattern.dfy` (module `AnchoredPattern`). The scan builds the regular
  expression `new RegExp(classify(type) + "$")`, tests keys with it, and removes the
  match with `replace`. The module models that expression for a literal pattern as a
  leftmost search for a match anchored at the end of the key (`FirstMatchFrom`), with
  `Test` and `Replace` built on it. It proves they agree with a plain suffix test
  (`EndsWith`) and suffix strip (`StripSuffix`).
- `container_debug_adapter.dfy` (module `ContainerDebugAdapter`).
  - The data: a namespace is a sequence of `Property(key, value, own)` in enumeration
    order.
  - The library helpers `classify`, `dasherize` and `typeOf` are bundled as a
    `Helpers` value.
  - The policy `CanCatalogEntriesByType`.
  - The reference definition of the scan's result: `Qualifies`, `EntryName`,
    `NamespaceEntries` and `Entries`.
  - The scan itself, `CatalogEntriesByType`: a method with the source's two nested
    loops that appends to a local sequence. It is proved to return exactly `Entries`.
- `catalog_properties.dfy` (module `CatalogProperties`): what the result means.
  - `Rank(i, k)` is the number of entries pushed before property `k` of namespace `i`
    is visited.
  - The lemmas show that `Rank` maps the qualifying (namespace, own key) pairs onto the
    positions of the result, one to one and in strictly increasing order. Each position
    holds the entry of its pair.
  - So the result has one entry per qualifying pair, nothing is deduplicated, and
    earlier namespaces and earlier keys come first.
  - The remaining lemmas cover the exclusions, the empty cases, the empty suffix and
    three worked examples.

Inputs that are ambient in the source are explicit here:

- The global `Namespace.NAMESPACES` is the `namespaces` parameter. It is a snapshot
  value, so the scan cannot write to it.
- The helpers are the `h` parameter.

The method works on immutable values. Two calls with the same arguments therefore
return the same list.

An empty `classify(type)` makes the pattern `$`, which matches every key, so every own
class-valued key is listed under its whole dasherized name
(`EmptySuffixListsEveryClass`, `EmptyPatternMatchesEverything`). `type` may be empty.

## Model

| member | source | states |
|---|---|---|
| `ContainerDebugAdapter.CanCatalogEntriesByType` | packages/@ember/-internals/extension-support/lib/container_debug_adapter.js:70-76 | the result is false exactly for `"model"` and `"template"` and true for every other string |
| `ContainerDebugAdapter.CatalogEntriesByType` | packages/@ember/-internals/extension-support/lib/container_debug_adapter.js:86-105 | the nested scan, with the regular-expression test and replace, returns exactly `Entries(namespaces, classify(type))`: the entries of all namespaces, namespace by namespace |
| `ContainerDebugAdapter.NamespaceEntriesAppend` | packages/@ember/-internals/extension-support/lib/container_debug_adapter.js:92-101 | within a namespace, the entries of a key sequence `a + b` are those of `a` followed by those of `b` |
| `ContainerDebugAdapter.EntriesAppend` | packages/@ember/-internals/extension-support/lib/container_debug_adapter.js:91-103 | the list for registry `a + b` is the list for `a` followed by the list for `b`: earlier namespaces come first and nothing is merged |
| `AnchoredPattern.FirstMatchFrom` | packages/@ember/-internals/extension-support/lib/container_debug_adapter.js:89-99 | the anchored pattern's search returns the leftmost position where `p$` matches, or reports that none matches |
| `AnchoredPattern.Test` | packages/@ember/-internals/extension-support/lib/container_debug_adapter.js:96 | `typeSuffixRegex.test(key)`: a match of `p$` exists; `TestIsEndsWith` proves this holds exactly when the key ends with `p` |
| `AnchoredPattern.Replace` | packages/@ember/-internals/extension-support/lib/container_debug_adapter.js:99 | `key.replace(typeSuffixRegex, '')`: the leftmost match is removed; `ReplaceIsStripSuffix` and `ReplaceRemovesOnlyTrailing` prove that only the trailing suffix goes |
| `AnchoredPattern.StripSuffix` | packages/@ember/-internals/extension-support/lib/container_debug_adapter.js:99 | the stripped key followed by the suffix gives back the key |
| `AnchoredPattern.MatchesAtIsSuffix` | packages/@ember/-internals/extension-support/lib/container_debug_adapter.js:89 | `p$` matches at position `j` exactly when the key ends with `p` and `j` is where that suffix starts |
| `AnchoredPattern.TestIsEndsWith` | packages/@ember/-internals/extension-support/lib/container_debug_adapter.js:89-96 | for a literal pattern, `test(key)` holds exactly when the key ends with the pattern |
| `AnchoredPattern.ReplaceIsStripSuffix` | packages/@ember/-internals/extension-support/lib/container_debug_adapter.js:89-99 | for a key that ends with the pattern, `replace(pattern, '')` removes exactly that trailing suffix |
| `AnchoredPattern.ReplaceRemovesOnlyTrailing` | packages/@ember/-internals/extension-support/lib/container_debug_adapter.js:89-99 | `q + p` matches, and replacing gives back `q` even when `p` also occurs inside `q` |
| `AnchoredPattern.EmptyPatternMatchesEverything` | packages/@ember/-internals/extension-support/lib/container_debug_adapter.js:89-99 | with an empty suffix, `$` matches every key and the replace leaves the key whole |
| `AnchoredPattern.RouteRouteExample` | packages/@ember/-internals/extension-support/lib/container_debug_adapter.js:99 | `"RouteRoute"` with suffix `"Route"` becomes `"Route"` |
| `ContainerDebugAdapter.Qualifies` | packages/@ember/-internals/extension-support/lib/container_debug_adapter.js:93-98 | the three-way filter (own property, key ends with the suffix, `typeOf` is `'class'`); `NonQualifyingPropertyIgnored` and `QualifyingPropertyAddsOne` prove each failing test excludes the key and passing all three adds exactly one entry |
| `CatalogProperties.SingleProperty` | packages/@ember/-internals/extension-support/lib/container_debug_adapter.js:93-100 | one property contributes its own entry when it qualifies, and nothing otherwise |
| `CatalogProperties.NamespaceEntriesSplit` | packages/@ember/-internals/extension-support/lib/container_debug_adapter.js:92-101 | a namespace's entries are those of the keys before key `k`, then key `k`'s, then those after it |
| `CatalogProperties.EntriesSplit` | packages/@ember/-internals/extension-support/lib/container_debug_adapter.js:91-103 | the list is the entries of the namespaces before namespace `i`, then namespace `i`'s, then those after it |
| `CatalogProperties.NonQualifyingPropertyIgnored` | packages/@ember/-internals/extension-support/lib/container_debug_adapter.js:93-98 | a property that is inherited, does not end with the suffix, or is not a class leaves the list as if it were absent |
| `CatalogProperties.QualifyingPropertyAddsOne` | packages/@ember/-internals/extension-support/lib/container_debug_adapter.js:96-99 | an own, suffixed, class-valued property adds exactly one entry at its place: `dasherize(key[..|key|-|suffix|])` |
| `CatalogProperties.CatalogedPairListed` | packages/@ember/-internals/extension-support/lib/container_debug_adapter.js:91-101 | completeness: every qualifying (namespace, own key) pair has its entry in the list, at position `Rank(i, k)` |
| `CatalogProperties.NamespaceEntryFromProperty` | packages/@ember/-internals/extension-support/lib/container_debug_adapter.js:92-100 | soundness within a namespace: every entry is the entry of a qualifying property, the one whose rank is its position |
| `CatalogProperties.ListedEntryFromPair` | packages/@ember/-internals/extension-support/lib/container_debug_adapter.js:91-101 | soundness: every entry equals `dasherize` of the stripped key of some qualifying own key `k` of some namespace `i`, and its position is `Rank(i, k)` |
| `CatalogProperties.RankIncreasing` | packages/@ember/-internals/extension-support/lib/container_debug_adapter.js:91-92 | ordering and no deduplication: a qualifying pair earlier in (namespace, key) order gets a strictly smaller position |
| `CatalogProperties.EmptyExactlyWhenNothingQualifies` | packages/@ember/-internals/extension-support/lib/container_debug_adapter.js:87-104 | the list is empty if and only if no namespace has a qualifying property; an empty registry gives an empty list |
| `CatalogProperties.EmptySuffixListsEveryClass` | packages/@ember/-internals/extension-support/lib/container_debug_adapter.js:89-99 | with an empty suffix, a property qualifies exactly when it is own and class-valued, and its entry is its whole key dasherized |
| `CatalogProperties.DuplicatesKept` | packages/@ember/-internals/extension-support/lib/container_debug_adapter.js:91-101 | two namespaces that both expose a `FooRoute` class give `[dasherize("Foo"), dasherize("Foo")]` |
| `CatalogProperties.RouteScanExample` | packages/@ember/-internals/extension-support/lib/container_debug_adapter.js:91-101 | `FooRoute`, `BarRoute` (classes), `BazController` (class) and `QuxRoute` (not a class) give `[dasherize("Foo"), dasherize("Bar")]` |

## Left out

- `init`, the `resolver` property and the `getOwner(this).lookup('resolver-for-debugging:main')` call (lines 44-59). They connect the adapter to Ember's dependency-injection container, which is not part of this model. The two catalog operations do not use the resolver.
- The global registry `Namespace.NAMESPACES` and its mutation by other code. The registry is passed as an immutable snapshot instead. Concurrent change during a scan is not modelled.
- The bodies of `classify`, `dasherize` and `typeOf` from `@ember/string` and `@ember/-internals/runtime`. These are not part of this model. They are arbitrary total functions supplied in `Helpers`, so every result holds for any implementation of them.
- `emberA` (the array wrapper) and `EmberObject.extend`. The result is a plain sequence.
- CatalogEntriesByType: regular-expression semantics are modelled only for a `classify(type)` without ECMAScript syntax characters (`^ $ \ . * + ? ( ) [ ] { } |`). The method requires `IsLiteral(classify(type))`. The source builds the pattern unescaped, so it can behave differently, or throw, for other suffixes.
- Keys that are not well-formed Unicode. Keys and suffixes are Dafny `string`s, sequences of Unicode scalar values, while JavaScript property keys are UTF-16 code-unit strings that may hold lone surrogates (such as `"\uD800Route"`); such keys cannot be written here. On well-formed strings the suffix test and strip by characters agree with the regular expression's code-unit matching, which runs without the `u` flag.
- JavaScript's own `for...in` enumeration order. A namespace is given as the sequence of its enumerable properties, in the order `for...in` visits them.
- `packages/@ember/polyfills/tests/assign_test.js`. It tests the deprecated `assign` polyfill, whose implementation is not part of this model.
