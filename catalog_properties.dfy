/**
 * What the catalog scan promises: the list holds one entry per catalogued
 * (namespace, property) pair, in namespace order and then enumeration order,
 * with nothing merged and nothing else added.
 *
 * `Rank(namespaces, suffix, h, i, k)` is the number of entries contributed by
 * the properties that `for...in` visits before property `k` of namespace `i`;
 * the lemmas below show that it is a strictly increasing map from the
 * catalogued pairs onto the positions of the list.
 */
module CatalogProperties {
  import opened AnchoredPattern
  import opened ContainerDebugAdapter

  function Rank<V>(namespaces: seq<Namespace<V>>, suffix: string, h: Helpers<V>, i: nat, k: nat): nat
    requires i < |namespaces| && k <= |namespaces[i]|
  {
    |Entries(namespaces[..i], suffix, h)| + |NamespaceEntries(namespaces[i][..k], suffix, h)|
  }

  /** A single property contributes its own entry or nothing. */
  lemma SingleProperty<V>(p: Property<V>, suffix: string, h: Helpers<V>)
    ensures Qualifies(p, suffix, h) ==> NamespaceEntries([p], suffix, h) == [EntryName(p, suffix, h)]
    ensures !Qualifies(p, suffix, h) ==> NamespaceEntries([p], suffix, h) == []
  {
    assert |[p][1..]| == 0;
  }

  /** Property `k` splits its namespace's entries into those before it, its
      own and those after it. */
  lemma NamespaceEntriesSplit<V>(ns: Namespace<V>, k: nat, suffix: string, h: Helpers<V>)
    requires k < |ns|
    ensures NamespaceEntries(ns, suffix, h)
         == NamespaceEntries(ns[..k], suffix, h) + NamespaceEntries([ns[k]], suffix, h)
            + NamespaceEntries(ns[k + 1..], suffix, h)
  {
    assert ns == ns[..k] + [ns[k]] + ns[k + 1..];
    NamespaceEntriesAppend(ns[..k] + [ns[k]], ns[k + 1..], suffix, h);
    NamespaceEntriesAppend(ns[..k], [ns[k]], suffix, h);
  }

  /** Namespace `i` splits the list into the entries before it, its own and
      those after it. */
  lemma EntriesSplit<V>(namespaces: seq<Namespace<V>>, i: nat, suffix: string, h: Helpers<V>)
    requires i < |namespaces|
    ensures Entries(namespaces, suffix, h)
         == Entries(namespaces[..i], suffix, h) + NamespaceEntries(namespaces[i], suffix, h)
            + Entries(namespaces[i + 1..], suffix, h)
  {
    assert namespaces == namespaces[..i] + [namespaces[i]] + namespaces[i + 1..];
    EntriesAppend(namespaces[..i] + [namespaces[i]], namespaces[i + 1..], suffix, h);
    EntriesAppend(namespaces[..i], [namespaces[i]], suffix, h);
    assert |[namespaces[i]][1..]| == 0;
  }

  /** Exclusion: a property that is inherited, lacks the suffix or is not a
      class leaves the list as if it were absent. */
  lemma {:induction false} NonQualifyingPropertyIgnored<V>(a: Namespace<V>, p: Property<V>, b: Namespace<V>, suffix: string, h: Helpers<V>)
    requires !p.own || !EndsWith(p.key, suffix) || h.typeOf(p.value) != "class"
    ensures NamespaceEntries(a + [p] + b, suffix, h) == NamespaceEntries(a + b, suffix, h)
  {
    NamespaceEntriesAppend(a + [p], b, suffix, h);
    NamespaceEntriesAppend(a, [p], suffix, h);
    NamespaceEntriesAppend(a, b, suffix, h);
    SingleProperty(p, suffix, h);
  }

  /** Inclusion: a catalogued property adds exactly its own entry, in place. */
  lemma {:induction false} QualifyingPropertyAddsOne<V>(a: Namespace<V>, p: Property<V>, b: Namespace<V>, suffix: string, h: Helpers<V>)
    requires p.own && EndsWith(p.key, suffix) && h.typeOf(p.value) == "class"
    ensures NamespaceEntries(a + [p] + b, suffix, h)
         == NamespaceEntries(a, suffix, h) + [h.dasherize(p.key[..|p.key| - |suffix|])]
            + NamespaceEntries(b, suffix, h)
  {
    NamespaceEntriesAppend(a + [p], b, suffix, h);
    NamespaceEntriesAppend(a, [p], suffix, h);
    SingleProperty(p, suffix, h);
  }

  /** Completeness: every catalogued pair has its entry at its rank. */
  lemma {:induction false} CatalogedPairListed<V>(namespaces: seq<Namespace<V>>, suffix: string, h: Helpers<V>, i: nat, k: nat)
    requires i < |namespaces| && k < |namespaces[i]|
    requires Qualifies(namespaces[i][k], suffix, h)
    ensures Rank(namespaces, suffix, h, i, k) < |Entries(namespaces, suffix, h)|
    ensures Entries(namespaces, suffix, h)[Rank(namespaces, suffix, h, i, k)]
         == EntryName(namespaces[i][k], suffix, h)
  {
    EntriesSplit(namespaces, i, suffix, h);
    NamespaceEntriesSplit(namespaces[i], k, suffix, h);
    SingleProperty(namespaces[i][k], suffix, h);
  }

  /** Soundness within one namespace: every entry comes from a catalogued
      property, the one whose rank it sits at. */
  lemma {:induction false} NamespaceEntryFromProperty<V>(ns: Namespace<V>, suffix: string, h: Helpers<V>, j: nat)
    requires j < |NamespaceEntries(ns, suffix, h)|
    ensures exists k :: 0 <= k < |ns| && Qualifies(ns[k], suffix, h)
              && |NamespaceEntries(ns[..k], suffix, h)| == j
              && NamespaceEntries(ns, suffix, h)[j] == EntryName(ns[k], suffix, h)
  {
    var n := |ns|;
    assert n != 0;
    var front := ns[..n - 1];
    assert ns == front + [ns[n - 1]];
    NamespaceEntriesAppend(front, [ns[n - 1]], suffix, h);
    SingleProperty(ns[n - 1], suffix, h);
    if j < |NamespaceEntries(front, suffix, h)| {
      NamespaceEntryFromProperty(front, suffix, h, j);
      var k :| 0 <= k < |front| && Qualifies(front[k], suffix, h)
               && |NamespaceEntries(front[..k], suffix, h)| == j
               && NamespaceEntries(front, suffix, h)[j] == EntryName(front[k], suffix, h);
      assert front[..k] == ns[..k];
    } else {
      assert Qualifies(ns[n - 1], suffix, h);
    }
  }

  /** The rank of a pair does not depend on the namespaces after it. */
  lemma RankInPrefix<V>(namespaces: seq<Namespace<V>>, m: nat, suffix: string, h: Helpers<V>, i: nat, k: nat)
    requires i < m <= |namespaces| && k <= |namespaces[i]|
    ensures Rank(namespaces[..m], suffix, h, i, k) == Rank(namespaces, suffix, h, i, k)
  {
    assert namespaces[..m][..i] == namespaces[..i];
  }

  /** `j` is the position of the entry of property `k` of namespace `i`. */
  predicate ListedAt<V>(namespaces: seq<Namespace<V>>, suffix: string, h: Helpers<V>, j: nat, i: nat, k: nat)
  {
    i < |namespaces| && k < |namespaces[i]|
    && Qualifies(namespaces[i][k], suffix, h)
    && Rank(namespaces, suffix, h, i, k) == j
    && j < |Entries(namespaces, suffix, h)|
    && Entries(namespaces, suffix, h)[j] == EntryName(namespaces[i][k], suffix, h)
  }

  /** The list is the list of all but the last namespace, then the last one's entries. */
  lemma EntriesSnoc<V>(namespaces: seq<Namespace<V>>, suffix: string, h: Helpers<V>)
    requires namespaces != []
    ensures Entries(namespaces, suffix, h)
         == Entries(namespaces[..|namespaces| - 1], suffix, h) + NamespaceEntries(namespaces[|namespaces| - 1], suffix, h)
  {
    var n := |namespaces|;
    EntriesSplit(namespaces, n - 1, suffix, h);
    assert namespaces[n..] == [];
  }

  /** An entry of the list of all but the last namespace keeps its source. */
  lemma ListedInFront<V>(namespaces: seq<Namespace<V>>, suffix: string, h: Helpers<V>, j: nat, i: nat, k: nat)
    requires namespaces != []
    requires ListedAt(namespaces[..|namespaces| - 1], suffix, h, j, i, k)
    ensures ListedAt(namespaces, suffix, h, j, i, k)
  {
    var front := namespaces[..|namespaces| - 1];
    EntriesSnoc(namespaces, suffix, h);
    RankInPrefix(namespaces, |namespaces| - 1, suffix, h, i, k);
    assert front[i] == namespaces[i];
  }

  /** An entry of the last namespace is listed after the entries of the others. */
  lemma ListedInLast<V>(namespaces: seq<Namespace<V>>, suffix: string, h: Helpers<V>, j: nat)
    requires namespaces != []
    requires var n := |namespaces|;
      |Entries(namespaces[..n - 1], suffix, h)| <= j < |Entries(namespaces, suffix, h)|
    ensures exists i, k :: ListedAt(namespaces, suffix, h, j, i, k)
  {
    var n := |namespaces|;
    var last := namespaces[n - 1];
    var m := |Entries(namespaces[..n - 1], suffix, h)|;
    EntriesSnoc(namespaces, suffix, h);
    NamespaceEntryFromProperty(last, suffix, h, j - m);
    var k :| 0 <= k < |last| && Qualifies(last[k], suffix, h)
             && |NamespaceEntries(last[..k], suffix, h)| == j - m
             && NamespaceEntries(last, suffix, h)[j - m] == EntryName(last[k], suffix, h);
    assert ListedAt(namespaces, suffix, h, j, n - 1, k);
  }

  /** Soundness: every entry of the list comes from a catalogued pair, the
      one whose rank is the entry's position. */
  lemma {:induction false} ListedEntryFromPair<V>(namespaces: seq<Namespace<V>>, suffix: string, h: Helpers<V>, j: nat)
    requires j < |Entries(namespaces, suffix, h)|
    ensures exists i, k :: ListedAt(namespaces, suffix, h, j, i, k)
  {
    var n := |namespaces|;
    assert n != 0;
    var front := namespaces[..n - 1];
    EntriesSnoc(namespaces, suffix, h);
    if j < |Entries(front, suffix, h)| {
      ListedEntryFromPair(front, suffix, h, j);
      var i, k :| ListedAt(front, suffix, h, j, i, k);
      ListedInFront(namespaces, suffix, h, j, i, k);
    } else {
      ListedInLast(namespaces, suffix, h, j);
    }
  }

  /** Ordering and no deduplication: distinct catalogued pairs get distinct
      positions, earlier namespace first and, within a namespace, earlier
      property first. */
  lemma {:induction false} RankIncreasing<V>(namespaces: seq<Namespace<V>>, suffix: string, h: Helpers<V>, i: nat, k: nat, i': nat, k': nat)
    requires i < |namespaces| && k < |namespaces[i]| && i' < |namespaces| && k' <= |namespaces[i']|
    requires Qualifies(namespaces[i][k], suffix, h)
    requires i < i' || (i == i' && k < k')
    ensures Rank(namespaces, suffix, h, i, k) < Rank(namespaces, suffix, h, i', k')
  {
    var ns := namespaces[i];
    NamespaceEntriesSplit(ns, k, suffix, h);
    SingleProperty(ns[k], suffix, h);
    if i == i' {
      assert ns[..k'] == ns[..k] + [ns[k]] + ns[k + 1..k'];
      NamespaceEntriesAppend(ns[..k] + [ns[k]], ns[k + 1..k'], suffix, h);
      NamespaceEntriesAppend(ns[..k], [ns[k]], suffix, h);
    } else {
      EntriesSplit(namespaces[..i'], i, suffix, h);
      assert namespaces[..i'][..i] == namespaces[..i];
    }
  }

  /** The list is empty exactly when no namespace has a catalogued property;
      in particular an empty registry gives an empty list. */
  lemma EmptyExactlyWhenNothingQualifies<V>(namespaces: seq<Namespace<V>>, suffix: string, h: Helpers<V>)
    ensures Entries(namespaces, suffix, h) == []
        <==> forall i, k :: 0 <= i < |namespaces| && 0 <= k < |namespaces[i]|
               ==> !Qualifies(namespaces[i][k], suffix, h)
  {
    if Entries(namespaces, suffix, h) != [] {
      ListedEntryFromPair(namespaces, suffix, h, 0);
      var i, k :| ListedAt(namespaces, suffix, h, 0, i, k);
    }
    forall i, k | 0 <= i < |namespaces| && 0 <= k < |namespaces[i]| && Qualifies(namespaces[i][k], suffix, h)
      ensures Entries(namespaces, suffix, h) != []
    {
      CatalogedPairListed(namespaces, suffix, h, i, k);
    }
  }

  /** With an empty suffix every own class-valued property is listed under
      its whole dasherized key. */
  lemma EmptySuffixListsEveryClass<V>(p: Property<V>, h: Helpers<V>)
    ensures Qualifies(p, "", h) <==> p.own && h.typeOf(p.value) == "class"
    ensures EntryName(p, "", h) == h.dasherize(p.key)
  {
    assert EndsWith(p.key, "");
    assert p.key[..|p.key|] == p.key;
  }

  /** Two namespaces that both expose a `FooRoute` class list `foo` twice. */
  lemma DuplicatesKept<V>(klass: V, h: Helpers<V>)
    requires h.typeOf(klass) == "class"
    ensures var ns := [Property("FooRoute", klass, true)];
            Entries([ns, ns], "Route", h) == [h.dasherize("Foo"), h.dasherize("Foo")]
  {
    var p := Property("FooRoute", klass, true);
    assert p.key[|p.key| - 5..] == "Route";
    assert p.key[..3] == "Foo";
    SingleProperty(p, "Route", h);
    EntriesAppend([[p]], [[p]], "Route", h);
    assert |[[p]][1..]| == 0;
  }

  /** A namespace with `FooRoute` and `BarRoute` classes, a `BazController`
      class and a `QuxRoute` that is not a class lists `foo` then `bar`. */
  lemma RouteScanExample<V>(foo: V, bar: V, baz: V, qux: V, h: Helpers<V>)
    requires h.typeOf(foo) == "class" && h.typeOf(bar) == "class"
    requires h.typeOf(baz) == "class" && h.typeOf(qux) != "class"
    ensures var ns := [Property("FooRoute", foo, true), Property("BarRoute", bar, true),
                       Property("BazController", baz, true), Property("QuxRoute", qux, true)];
            Entries([ns], "Route", h) == [h.dasherize("Foo"), h.dasherize("Bar")]
  {
    var p1, p2, p3, p4 := Property("FooRoute", foo, true), Property("BarRoute", bar, true),
                          Property("BazController", baz, true), Property("QuxRoute", qux, true);
    assert p1.key[3..] == "Route" && p1.key[..3] == "Foo";
    assert p2.key[3..] == "Route" && p2.key[..3] == "Bar";
    assert p3.key[8..] != "Route" by { assert p3.key[8] != 'R'; }
    var ns := [p1, p2, p3, p4];
    assert ns == [p1] + [p2] + [p3] + [p4];
    NamespaceEntriesAppend([p1] + [p2] + [p3], [p4], "Route", h);
    NamespaceEntriesAppend([p1] + [p2], [p3], "Route", h);
    NamespaceEntriesAppend([p1], [p2], "Route", h);
    SingleProperty(p1, "Route", h);
    SingleProperty(p2, "Route", h);
    SingleProperty(p3, "Route", h);
    SingleProperty(p4, "Route", h);
    assert |[ns][1..]| == 0;
  }
}
