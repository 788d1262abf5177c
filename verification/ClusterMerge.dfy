/** Merging the cluster resource collectors of a spec into one:
    CollectClusterResources.Merge in pkg/collect/cluster_resources.go. */
module ClusterMerge {
  import opened Text
  import opened Sorting

  /** The namespaces field: a nil slice, or a list that may be empty. */
  datatype Namespaces = Nil | Listed(names: seq<string>)

  /** Asks for every namespace: the list is missing or holds an empty name. */
  predicate IsAll(n: Namespaces) {
    n.Nil? || "" in n.names
  }

  predicate SomeIsAll(lists: seq<Namespaces>) {
    exists i :: 0 <= i < |lists| && IsAll(lists[i])
  }

  function Names(s: seq<string>): set<string> {
    set name | name in s
  }

  function Union(lists: seq<Namespaces>): set<string> {
    set i, name | 0 <= i < |lists| && lists[i].Listed? && name in lists[i].names :: name
  }

  ghost predicate StrictlySorted(s: seq<string>) {
    forall i, j :: 0 <= i < j < |s| ==> StringLess(s[i], s[j])
  }

  /** A set of names has only one strictly sorted listing. */
  lemma {:induction false} SortedListingIsUnique(s: seq<string>, t: seq<string>)
    requires StrictlySorted(s) && StrictlySorted(t) && Names(s) == Names(t)
    ensures s == t
  {
    NoNames(s);
    NoNames(t);
    if s != [] {
      LeastFirst(s, t);
      LeastFirst(t, s);
      StringLessTrichotomy(s[0], t[0]);
      WithoutFirst(s);
      WithoutFirst(t);
      SortedListingIsUnique(s[1..], t[1..]);
      assert s == [s[0]] + s[1..] && t == [t[0]] + t[1..];
    }
  }

  lemma NoNames(s: seq<string>)
    ensures Names(s) == {} <==> s == []
  {
    if s != [] {
      assert s[0] in Names(s);
    }
  }

  lemma LeastFirst(s: seq<string>, t: seq<string>)
    requires StrictlySorted(s) && s != [] && t != [] && Names(s) == Names(t)
    ensures s[0] == t[0] || StringLess(s[0], t[0])
  {
    assert t[0] in Names(s);
    var i :| 0 <= i < |s| && s[i] == t[0];
  }

  lemma WithoutFirst(s: seq<string>)
    requires StrictlySorted(s) && s != []
    ensures StrictlySorted(s[1..]) && Names(s[1..]) == Names(s) - {s[0]}
  {
    forall i | 1 <= i < |s|
      ensures s[i] != s[0]
    {
      StringLessTrichotomy(s[0], s[i]);
    }
    assert s == [s[0]] + s[1..];
  }

  /** The strictly sorted listing of a set of names. */
  ghost function Listing(names: set<string>): (s: seq<string>)
    ensures StrictlySorted(s) && Names(s) == names && |s| == |names|
  {
    SomeListing(names);
    var s :| StrictlySorted(s) && Names(s) == names && |s| == |names|;
    s
  }

  lemma {:induction false} SomeListing(names: set<string>)
    ensures exists s :: StrictlySorted(s) && Names(s) == names && |s| == |names|
  {
    if names == {} {
      assert StrictlySorted([]) && Names([]) == {};
    } else {
      var x :| x in names;
      SomeListing(names - {x});
      var s :| StrictlySorted(s) && Names(s) == names - {x} && |s| == |names - {x}|;
      var r := InsertName(s, x);
      assert StrictlySorted(r) && Names(r) == names && |r| == |names|;
    }
  }

  lemma {:induction false} InsertName(s: seq<string>, x: string) returns (r: seq<string>)
    requires StrictlySorted(s) && x !in s
    ensures StrictlySorted(r) && Names(r) == Names(s) + {x} && |r| == |s| + 1
  {
    if s == [] || StringLess(x, s[0]) {
      r := [x] + s;
      forall j | 0 <= j < |s|
        ensures StringLess(x, s[j])
      {
        if j > 0 {
          StringLessTransitive(x, s[0], s[j]);
        }
      }
    } else {
      StringLessTrichotomy(x, s[0]);
      WithoutFirst(s);
      var rest := InsertName(s[1..], x);
      r := [s[0]] + rest;
      assert s == [s[0]] + s[1..];
      forall j | 0 <= j < |rest|
        ensures StringLess(s[0], rest[j])
      {
        assert rest[j] in Names(rest);
        if rest[j] != x {
          var i :| 0 <= i < |s[1..]| && s[1..][i] == rest[j];
          assert StringLess(s[0], s[i + 1]);
        }
      }
    }
  }

  /** What merging collectors with these lists amounts to. */
  ghost function Merged(lists: seq<Namespaces>): Namespaces {
    if SomeIsAll(lists) || Union(lists) == {} then Nil else Listed(Listing(Union(lists)))
  }

  lemma StringsAreOrdered(s: seq<string>)
    ensures WeakOrderOn(StringLess, s)
  {
    forall x, y, z | x in s && y in s && z in s
      ensures StringLess(x, y) ==> !StringLess(y, x)
      ensures !StringLess(y, x) && !StringLess(z, y) ==> !StringLess(z, x)
    {
      StringLessTrichotomy(x, y);
      if !StringLess(y, x) && !StringLess(z, y) {
        StringNotLessTransitive(x, y, z);
      }
    }
  }

  lemma SortedOnceIsStrict(s: seq<string>, names: set<string>)
    requires Sorted(StringLess, s) && multiset(s) == multiset(names)
    ensures StrictlySorted(s) && Names(s) == names
  {
    forall i, j | 0 <= i < j < |s|
      ensures StringLess(s[i], s[j])
    {
      assert s == s[..j] + s[j..];
      assert s[i] in multiset(s[..j]) && s[j] in multiset(s[j..]);
      assert multiset(s)[s[j]] <= 1;
      StringLessTrichotomy(s[i], s[j]);
    }
    assert forall name :: name in s <==> name in multiset(s);
  }

  /** Collecting the keys of a set in any order and sorting them. */
  method SortedNames(names: set<string>) returns (s: seq<string>)
    ensures StrictlySorted(s) && Names(s) == names
  {
    var keys: seq<string> := [];
    var left := names;
    while left != {}
      invariant left <= names && multiset(keys) + multiset(left) == multiset(names)
      decreases left
    {
      var key :| key in left;
      keys := keys + [key];
      left := left - {key};
    }
    var a := new string[|keys|](i requires 0 <= i < |keys| => keys[i]);
    assert a[..] == keys;
    StringsAreOrdered(a[..]);
    SortSlice(a, StringLess);
    s := a[..];
    SortedOnceIsStrict(s, names);
  }

  /** Adds the names of one list, up to an empty name if there is one. */
  method AddNames(unique: set<string>, names: seq<string>) returns (more: set<string>, foundEmpty: bool)
    ensures foundEmpty <==> "" in names
    ensures !foundEmpty ==> more == unique + Names(names)
  {
    more := unique;
    for j := 0 to |names|
      invariant "" !in names[..j] && more == unique + Names(names[..j])
    {
      if names[j] == "" {
        return more, true;
      }
      assert names[..j + 1] == names[..j] + [names[j]];
      more := more + {names[j]};
    }
    assert names[..|names|] == names;
    return more, false;
  }

  class ClusterResources {
    var namespaces: Namespaces

    constructor (namespaces: Namespaces)
      ensures this.namespaces == namespaces
    {
      this.namespaces := namespaces;
    }

    /** Merges all cluster resource collectors of the list into this one. */
    method Merge(allCollectors: seq<Collector>) returns (result: seq<Collector>)
      modifies this
      ensures result == [Cluster(this)]
      ensures namespaces == old(Merged(ListsOf(allCollectors)))
    {
      ghost var lists := ListsOf(allCollectors);
      var unique: set<string> := {};
      var all := false;
      for i := 0 to |allCollectors|
        invariant SomeIsAll(lists) == SomeIsAll(ListsOf(allCollectors[i..]))
        invariant Union(lists) == unique + Union(ListsOf(allCollectors[i..]))
        invariant !all
      {
        ghost var rest := ListsOf(allCollectors[i + 1..]);
        assert allCollectors[i..][1..] == allCollectors[i + 1..];
        if allCollectors[i].Cluster? {
          var list := allCollectors[i].collector.namespaces;
          assert ListsOf(allCollectors[i..]) == [list] + rest;
          FirstList(list, rest);
          if list.Nil? {
            all := true;
            break;
          }
          unique, all := AddNames(unique, list.names);
          if all {
            break;
          }
        } else {
          assert ListsOf(allCollectors[i..]) == rest;
        }
      }
      assert all == SomeIsAll(lists);
      if all {
        namespaces := Nil;
      } else {
        assert unique == Union(lists);
        var sorted := SortedNames(unique);
        SortedListingIsUnique(sorted, Listing(unique));
        namespaces := if sorted == [] then Nil else Listed(sorted);
      }
      result := [Cluster(this)];
    }
  }

  /** The collectors of a spec: those for cluster resources, and any others. */
  datatype Collector = Cluster(collector: ClusterResources) | Other

  /** The namespaces fields of the cluster resource collectors, in order. */
  function ListsOf(collectors: seq<Collector>): seq<Namespaces>
    reads set c | c in collectors && c.Cluster? :: c.collector
  {
    if collectors == [] then []
    else (if collectors[0].Cluster? then [collectors[0].collector.namespaces] else []) + ListsOf(collectors[1..])
  }

  lemma FirstList(list: Namespaces, rest: seq<Namespaces>)
    ensures SomeIsAll([list] + rest) == (IsAll(list) || SomeIsAll(rest))
    ensures Union([list] + rest) == (if list.Listed? then Names(list.names) else {}) + Union(rest)
  {
    var lists := [list] + rest;
    assert lists[0] == list && forall i :: 0 <= i < |rest| ==> lists[i + 1] == rest[i];
    if i :| 0 <= i < |lists| && IsAll(lists[i]) {
      assert i == 0 || rest[i - 1] == lists[i];
    }
    forall name | name in Union(lists)
      ensures name in (if list.Listed? then Names(list.names) else {}) + Union(rest)
    {
      var i :| 0 <= i < |lists| && lists[i].Listed? && name in lists[i].names;
      assert i == 0 || rest[i - 1] == lists[i];
    }
    forall name | name in Union(rest)
      ensures name in Union(lists)
    {
      var i :| 0 <= i < |rest| && rest[i].Listed? && name in rest[i].names;
      assert lists[i + 1] == rest[i];
    }
  }

  /** Merging does not depend on the order of the collectors, nor on how often a list occurs. */
  lemma OrderDoesNotMatter(lists: seq<Namespaces>, lists': seq<Namespaces>)
    requires forall list :: list in lists <==> list in lists'
    ensures Merged(lists) == Merged(lists')
  {
    SomeIn(lists, lists');
    SomeIn(lists', lists);
    assert Union(lists) == Union(lists');
  }

  lemma SomeIn(lists: seq<Namespaces>, lists': seq<Namespaces>)
    requires forall list :: list in lists ==> list in lists'
    ensures SomeIsAll(lists) ==> SomeIsAll(lists')
    ensures Union(lists) <= Union(lists')
  {
    forall i | 0 <= i < |lists|
      ensures exists k :: 0 <= k < |lists'| && lists'[k] == lists[i]
    {
      assert lists[i] in lists';
    }
  }

  /** Names are listed without an empty one unless everything is asked for. */
  lemma MergedIsAllOrNamed(lists: seq<Namespaces>)
    ensures IsAll(Merged(lists)) <==> SomeIsAll(lists) || Union(lists) == {}
    ensures Merged(lists).Listed? ==> Names(Merged(lists).names) == Union(lists) != {}
  {
    if !SomeIsAll(lists) && Union(lists) != {} {
      var listing := Listing(Union(lists));
      assert "" in listing <==> "" in Names(listing);
    }
  }

  /** In terms of the lists: the result is nil when some list is nil or holds an empty name, or none
      holds any; else it holds the names that some list holds. */
  lemma MergedMeans(lists: seq<Namespaces>)
    ensures Merged(lists) == Nil <==>
            || (exists i :: 0 <= i < |lists| && (lists[i] == Nil || "" in lists[i].names))
            || (forall i :: 0 <= i < |lists| ==> lists[i] == Listed([]))
    ensures Merged(lists).Listed? ==>
              && StrictlySorted(Merged(lists).names)
              && forall name :: name in Merged(lists).names <==>
                   exists i :: 0 <= i < |lists| && lists[i].Listed? && name in lists[i].names
  {
    MergedIsAllOrNamed(lists);
    if i :| 0 <= i < |lists| && (lists[i] == Nil || "" in lists[i].names) {
      assert IsAll(lists[i]);
    }
    if Union(lists) == {} && !SomeIsAll(lists) {
      forall i | 0 <= i < |lists|
        ensures lists[i] == Listed([])
      {
        assert !IsAll(lists[i]);
        if lists[i].names != [] {
          InSomeList(lists, lists[i].names[0]);
        }
      }
    }
    if Merged(lists).Listed? {
      forall name
        ensures name in Merged(lists).names <==>
                exists i :: 0 <= i < |lists| && lists[i].Listed? && name in lists[i].names
      {
        InSomeList(lists, name);
        assert name in Names(Merged(lists).names) <==> name in Merged(lists).names;
      }
    }
  }

  function Flatten(parts: seq<seq<Namespaces>>): seq<Namespaces> {
    if parts == [] then [] else parts[0] + Flatten(parts[1..])
  }

  ghost function MergedParts(parts: seq<seq<Namespaces>>): seq<Namespaces> {
    if parts == [] then [] else [Merged(parts[0])] + MergedParts(parts[1..])
  }

  lemma AppendLists(a: seq<Namespaces>, b: seq<Namespaces>)
    ensures SomeIsAll(a + b) == (SomeIsAll(a) || SomeIsAll(b)) && Union(a + b) == Union(a) + Union(b)
    decreases |a|
  {
    if a == [] {
      assert a + b == b;
    } else {
      AppendLists(a[1..], b);
      FirstList(a[0], a[1..]);
      FirstList(a[0], a[1..] + b);
      assert a == [a[0]] + a[1..] && a + b == [a[0]] + (a[1..] + b);
    }
  }

  /** Some part asks for nothing at all: no list of it is missing and none holds a name. */
  ghost predicate SomePartIsEmpty(parts: seq<seq<Namespaces>>) {
    exists p :: 0 <= p < |parts| && !SomeIsAll(parts[p]) && Union(parts[p]) == {}
  }

  lemma {:induction false} PartsMeanTheSame(parts: seq<seq<Namespaces>>)
    ensures SomeIsAll(MergedParts(parts)) <==> SomeIsAll(Flatten(parts)) || SomePartIsEmpty(parts)
    ensures !SomeIsAll(MergedParts(parts)) ==> Union(MergedParts(parts)) == Union(Flatten(parts))
  {
    if parts != [] {
      PartsMeanTheSame(parts[1..]);
      MergedIsAllOrNamed(parts[0]);
      AppendLists(parts[0], Flatten(parts[1..]));
      FirstList(Merged(parts[0]), MergedParts(parts[1..]));
      assert SomePartIsEmpty(parts) <==>
             (!SomeIsAll(parts[0]) && Union(parts[0]) == {}) || SomePartIsEmpty(parts[1..]) by {
        if p :| 0 <= p < |parts| && !SomeIsAll(parts[p]) && Union(parts[p]) == {} {
          assert p == 0 || parts[p] == parts[1..][p - 1];
        }
        if p :| 0 <= p < |parts[1..]| && !SomeIsAll(parts[1..][p]) && Union(parts[1..][p]) == {} {
          assert parts[p + 1] == parts[1..][p];
        }
      }
    }
  }

  /** Some list holds a name, no list is missing, and none holds an empty name. */
  predicate NamesSome(lists: seq<Namespaces>) {
    !SomeIsAll(lists) && Union(lists) != {}
  }

  /** Merging the merged parts gives what merging everything gives, except that a part of empty
      lists turns into a nil list: the one way to differ is that some part is empty while the
      whole names some namespaces and not all. */
  lemma MergingPartsIsMergingAll(parts: seq<seq<Namespaces>>)
    ensures Merged(MergedParts(parts)) == Merged(Flatten(parts)) <==>
            !(SomePartIsEmpty(parts) && NamesSome(Flatten(parts)))
  {
    PartsMeanTheSame(parts);
  }

  /** Most kinds of resources are listed namespace by namespace, and listing the empty name lists all of
      them. Custom resources are listed once and then kept by the names of their namespaces. */
  datatype Kind = ListedByNamespace | CustomResource

  /** The list is missing or empty. */
  predicate IsUnset(n: Namespaces) {
    n.Nil? || n.names == []
  }

  /** The names that Collect works through for a list: those in it; for no list or an empty one the
      namespace that the collectors run in, or those it could list from the cluster when they run in
      none. */
  function NamespaceNames(own: string, listed: seq<string>, n: Namespaces): seq<string> {
    if !IsUnset(n) then n.names else if own != "" then [own] else listed
  }

  /** The namespaces of the cluster that are asked for their resources of a kind. */
  function Asked(kind: Kind, cluster: set<string>, names: seq<string>): set<string> {
    if kind == ListedByNamespace && "" in names then cluster else Names(names) * cluster
  }

  /** A list that names something asks for what it names, or for everything by an empty name if the kind
      is listed by namespace; any other asks for the namespace of the collectors, and for those they
      could list only when they run in none. */
  lemma WhatIsAsked(kind: Kind, cluster: set<string>, own: string, listed: seq<string>, n: Namespaces, name: string)
    requires "" !in listed && "" !in cluster
    ensures name in Asked(kind, cluster, NamespaceNames(own, listed, n)) <==>
            && name in cluster
            && if n == Nil || n == Listed([]) then (if own == "" then name in listed else name == own)
               else name in n.names || (kind == ListedByNamespace && "" in n.names)
  {
    var names := NamespaceNames(own, listed, n);
    assert "" in names <==> n.Listed? && "" in n.names;
  }

  /** What the collectors with these lists ask for together. */
  function AskedTogether(kind: Kind, cluster: set<string>, own: string, listed: seq<string>,
                         lists: seq<Namespaces>): set<string> {
    set i, name |
      0 <= i < |lists| && name in Asked(kind, cluster, NamespaceNames(own, listed, lists[i])) :: name
  }

  /** Some list is missing or empty. */
  predicate SomeIsUnset(lists: seq<Namespaces>) {
    exists i :: 0 <= i < |lists| && IsUnset(lists[i])
  }

  /** What the lists name of a kind: everything by an empty name, if the kind is listed by namespace. */
  function Named(kind: Kind, cluster: set<string>, lists: seq<Namespaces>): set<string> {
    if kind == ListedByNamespace && "" in Union(lists) then cluster else Union(lists) * cluster
  }

  /** What a missing or empty list asks for. */
  function Default(cluster: set<string>, own: string, listed: seq<string>): set<string> {
    if own != "" then {own} * cluster else Names(listed) * cluster
  }

  /** The merged collector asks for exactly what the separate ones would have, exactly when: if
      namespaces are named and none of the lists asks for all, every namespace that an empty list
      among them stands for is named too; if not, every named namespace is among those that a missing
      list stands for, and these are named unless some list is itself missing or empty. */
  lemma MergeKeepsCoverage(kind: Kind, cluster: set<string>, own: string, listed: seq<string>, lists: seq<Namespaces>)
    requires "" !in cluster && "" !in listed
    ensures var rest := Default(cluster, own, listed);
            Asked(kind, cluster, NamespaceNames(own, listed, Merged(lists))) ==
            AskedTogether(kind, cluster, own, listed, lists) <==>
            if NamesSome(lists) then SomeIsUnset(lists) ==> rest <= Union(lists)
            else Named(kind, cluster, lists) <= rest && (SomeIsUnset(lists) || rest <= Named(kind, cluster, lists))
  {
    AskedByMerged(kind, cluster, own, listed, lists);
    AskedBySeparate(kind, cluster, own, listed, lists);
    if NamesSome(lists) {
      assert "" !in Union(lists) by {
        InSomeList(lists, "");
      }
    }
  }

  lemma AskedByMerged(kind: Kind, cluster: set<string>, own: string, listed: seq<string>, lists: seq<Namespaces>)
    requires "" !in cluster && "" !in listed
    ensures Asked(kind, cluster, NamespaceNames(own, listed, Merged(lists))) ==
            if NamesSome(lists) then Union(lists) * cluster else Default(cluster, own, listed)
  {
    MergedIsAllOrNamed(lists);
    if NamesSome(lists) {
      NoNames(Merged(lists).names);
    } else {
      DefaultIsAsked(kind, cluster, own, listed, Merged(lists));
    }
  }

  lemma DefaultIsAsked(kind: Kind, cluster: set<string>, own: string, listed: seq<string>, n: Namespaces)
    requires "" !in listed && IsUnset(n)
    ensures Asked(kind, cluster, NamespaceNames(own, listed, n)) == Default(cluster, own, listed)
  {
    assert Names([own]) == {own};
  }

  lemma AskedBySeparate(kind: Kind, cluster: set<string>, own: string, listed: seq<string>, lists: seq<Namespaces>)
    requires "" !in cluster && "" !in listed
    ensures AskedTogether(kind, cluster, own, listed, lists) ==
            Named(kind, cluster, lists) + if SomeIsUnset(lists) then Default(cluster, own, listed) else {}
  {
    forall name
      ensures name in AskedTogether(kind, cluster, own, listed, lists) <==>
              name in Named(kind, cluster, lists) || (SomeIsUnset(lists) && name in Default(cluster, own, listed))
    {
      OneAskedBySeparate(kind, cluster, own, listed, lists, name);
    }
  }

  lemma OneAskedBySeparate(kind: Kind, cluster: set<string>, own: string, listed: seq<string>,
                           lists: seq<Namespaces>, name: string)
    requires "" !in cluster && "" !in listed
    ensures name in AskedTogether(kind, cluster, own, listed, lists) <==>
            name in Named(kind, cluster, lists) || (SomeIsUnset(lists) && name in Default(cluster, own, listed))
  {
    InSomeList(lists, name);
    InSomeList(lists, "");
    forall i | 0 <= i < |lists|
      ensures name in Asked(kind, cluster, NamespaceNames(own, listed, lists[i])) <==>
              if IsUnset(lists[i]) then name in Default(cluster, own, listed)
              else name in cluster && ((kind == ListedByNamespace && "" in lists[i].names) || name in lists[i].names)
    {
      if IsUnset(lists[i]) {
        DefaultIsAsked(kind, cluster, own, listed, lists[i]);
      }
    }
    if name in Named(kind, cluster, lists) {
      var wanted := if kind == ListedByNamespace && "" in Union(lists) then "" else name;
      var i :| 0 <= i < |lists| && lists[i].Listed? && wanted in lists[i].names;
      assert name in Asked(kind, cluster, NamespaceNames(own, listed, lists[i]));
    }
  }

  /** The union holds the names of the lists. */
  lemma InSomeList(lists: seq<Namespaces>, name: string)
    ensures name in Union(lists) <==> exists i :: 0 <= i < |lists| && lists[i].Listed? && name in lists[i].names
  {
  }

  /** Merging an empty name changes what is asked for: a list that holds only it asks for no custom
      resource at all, the merged collector for those of every namespace. */
  lemma EmptyNameGainsCustomResources(cluster: set<string>, listed: seq<string>)
    requires "" !in cluster && "" !in listed && Names(listed) == cluster
    ensures AskedTogether(CustomResource, cluster, "", listed, [Listed([""])]) == {}
    ensures Asked(CustomResource, cluster, NamespaceNames("", listed, Merged([Listed([""])]))) == cluster
  {
    var lists := [Listed([""])];
    assert IsAll(lists[0]);
    AskedBySeparate(CustomResource, cluster, "", listed, lists);
    AskedByMerged(CustomResource, cluster, "", listed, lists);
  }
}
