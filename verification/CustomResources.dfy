/** Grouping custom resources into files by definition and namespace: crsV1, crsV1beta and
    storeCustomResource in pkg/collect/cluster_resources.go. The two versions differ only in
    how they choose the version to list. */
module CustomResources {
  import opened Options
  import opened Text

  /** A listed object; None when it has no readable namespace. */
  datatype Item = Item(namespace: Option<string>, content: string)

  /** A resource definition with what listing its objects returned; None is an error. */
  datatype Crd = Crd(name: string, namespaced: bool, listing: Option<seq<Item>>)

  datatype Format = Json | Yaml

  datatype File = File(format: Format, objects: seq<string>)

  function Extension(format: Format): string {
    if format.Json? then ".json" else ".yaml"
  }

  function Objects(items: seq<Item>): seq<string> {
    seq(|items|, i requires 0 <= i < |items| => items[i].content)
  }

  lemma ObjectsAre(items: seq<Item>, i: nat)
    requires i < |items|
    ensures |Objects(items)| == |items| && Objects(items)[i] == items[i].content
  {
  }

  /** The objects of one namespace, in listing order. */
  function InNamespace(items: seq<Item>, ns: string): seq<string> {
    if items == [] then []
    else
      var last := items[|items| - 1];
      InNamespace(items[..|items| - 1], ns) + if last.namespace == Some(ns) then [last.content] else []
  }

  /** Every object of the namespace is in the group once, after those listed before it. */
  lemma {:induction false} GroupKeepsEveryObject(items: seq<Item>, ns: string, i: nat)
    requires i < |items| && items[i].namespace == Some(ns)
    ensures var place := |InNamespace(items[..i], ns)|;
            place < |InNamespace(items, ns)| && InNamespace(items, ns)[place] == items[i].content
  {
    var n := |items| - 1;
    if i < n {
      assert items[..n][..i] == items[..i];
      GroupKeepsEveryObject(items[..n], ns, i);
    }
  }

  /** And nothing else is: each place of the group comes from one object of the namespace. */
  lemma {:induction false} GroupHoldsNothingElse(items: seq<Item>, ns: string, place: nat)
    returns (i: nat)
    requires place < |InNamespace(items, ns)|
    ensures i < |items| && items[i].namespace == Some(ns) && |InNamespace(items[..i], ns)| == place
  {
    var n := |items| - 1;
    if place < |InNamespace(items[..n], ns)| {
      i := GroupHoldsNothingElse(items[..n], ns, place);
      assert items[..n][..i] == items[..i];
    } else {
      i := n;
    }
  }

  /** storeCustomResource. */
  function Store(files: map<string, File>, name: string, objects: seq<string>): map<string, File> {
    files[name + ".json" := File(Json, objects)][name + ".yaml" := File(Yaml, objects)]
  }

  function NamespaceFiles(name: string, items: seq<Item>, namespaces: seq<string>): map<string, File> {
    if namespaces == [] then map[]
    else
      var files := NamespaceFiles(name, items, namespaces[..|namespaces| - 1]);
      var ns := namespaces[|namespaces| - 1];
      if InNamespace(items, ns) == [] then files else Store(files, name + "/" + ns, InNamespace(items, ns))
  }

  function FilesOf(crd: Crd, namespaces: seq<string>): map<string, File> {
    if '/' in crd.name || crd.listing.None? || crd.listing.value == [] then map[]
    else if !crd.namespaced then Store(map[], crd.name, Objects(crd.listing.value))
    else NamespaceFiles(crd.name, crd.listing.value, namespaces)
  }

  function AllFiles(crds: seq<Crd>, namespaces: seq<string>): map<string, File> {
    if crds == [] then map[]
    else AllFiles(crds[..|crds| - 1], namespaces) + FilesOf(crds[|crds| - 1], namespaces)
  }

  /** The definitions for which an error is recorded: listing failed, or some object has no
      readable namespace. */
  predicate HasError(crd: Crd) {
    && '/' !in crd.name
    && (|| crd.listing.None?
        || (crd.namespaced && exists i :: 0 <= i < |crd.listing.value| && crd.listing.value[i].namespace.None?))
  }

  function Errors(crds: seq<Crd>): set<string> {
    set crd | crd in crds && HasError(crd) :: crd.name
  }

  lemma ErrorsAppend(crds: seq<Crd>, crd: Crd)
    ensures Errors(crds + [crd]) == Errors(crds) + if HasError(crd) then {crd.name} else {}
  {
    assert forall other :: other in crds + [crd] <==> other in crds || other == crd;
  }

  /** An error is recorded for a definition, unless its name is that of a subresource, exactly when it
      could not be listed, or is namespaced and has an object without a readable namespace. */
  lemma {:induction false} ErrorsAre(crds: seq<Crd>, name: string)
    ensures name in Errors(crds) <==>
            exists crd :: crd in crds && crd.name == name && '/' !in name
              && (crd.listing.None?
                  || (crd.namespaced && exists item :: item in crd.listing.value && item.namespace.None?))
  {
    if crds != [] {
      ErrorsAre(crds[..|crds| - 1], name);
      assert crds == crds[..|crds| - 1] + [crds[|crds| - 1]];
    }
  }

  /** The loops of crsV1. */
  method Crs(crds: seq<Crd>, namespaces: seq<string>) returns (files: map<string, File>, errors: set<string>)
    ensures files == AllFiles(crds, namespaces)
    ensures errors == Errors(crds)
  {
    files, errors := map[], {};
    for c := 0 to |crds|
      invariant files == AllFiles(crds[..c], namespaces)
      invariant errors == Errors(crds[..c])
    {
      var crd := crds[c];
      assert crds[..c + 1] == crds[..c] + [crd] && crds[..c + 1][..c] == crds[..c];
      ErrorsAppend(crds[..c], crd);
      if '/' in crd.name {
        continue;
      }
      if crd.listing.None? {
        errors := errors + {crd.name};
        continue;
      }
      if crd.listing.value == [] {
        continue;
      }
      if !crd.namespaced {
        StoreAdds(files, map[], crd.name, Objects(crd.listing.value));
        files := Store(files, crd.name, Objects(crd.listing.value));
      } else {
        var perNamespace, failed := GroupByNamespace(crd.listing.value);
        if failed {
          errors := errors + {crd.name};
        }
        files := StoreRequested(files, crd.name, crd.listing.value, perNamespace, namespaces);
      }
    }
    assert crds[..|crds|] == crds;
  }

  lemma OneMoreItem(items: seq<Item>, i: nat, ns: string)
    requires i < |items|
    ensures InNamespace(items[..i + 1], ns) ==
            if items[i].namespace == Some(ns) then InNamespace(items[..i], ns) + [items[i].content]
            else InNamespace(items[..i], ns)
  {
    assert items[..i + 1][..i] == items[..i];
  }

  /** The map holds the groups of the items. */
  ghost predicate Groups(perNamespace: map<string, seq<string>>, items: seq<Item>) {
    forall ns :: InNamespace(items, ns) == if ns in perNamespace then perNamespace[ns] else []
  }

  lemma GroupsMore(perNamespace: map<string, seq<string>>, items: seq<Item>, i: nat, more: map<string, seq<string>>)
    requires i < |items| && Groups(perNamespace, items[..i])
    requires match items[i].namespace
             case None => more == perNamespace
             case Some(ns) =>
               more == perNamespace[ns := InNamespace(items[..i], ns) + [items[i].content]]
    ensures Groups(more, items[..i + 1])
  {
    forall ns
      ensures InNamespace(items[..i + 1], ns) == if ns in more then more[ns] else []
    {
      OneMoreItem(items, i, ns);
    }
  }

  method GroupByNamespace(items: seq<Item>) returns (perNamespace: map<string, seq<string>>, failed: bool)
    ensures Groups(perNamespace, items)
    ensures failed <==> exists i :: 0 <= i < |items| && items[i].namespace.None?
  {
    perNamespace, failed := map[], false;
    for i := 0 to |items|
      invariant Groups(perNamespace, items[..i])
      invariant failed <==> exists k :: 0 <= k < i && items[k].namespace.None?
    {
      ghost var before := perNamespace;
      match items[i].namespace {
        case None => failed := true;
        case Some(ns) =>
          var group := if ns in perNamespace then perNamespace[ns] else [];
          assert group == InNamespace(items[..i], ns);
          perNamespace := perNamespace[ns := group + [items[i].content]];
      }
      GroupsMore(before, items, i, perNamespace);
    }
    assert items[..|items|] == items;
  }

  lemma StoreAdds(files: map<string, File>, added: map<string, File>, name: string, objects: seq<string>)
    ensures Store(files + added, name, objects) == files + Store(added, name, objects)
  {
  }

  method StoreRequested(files: map<string, File>, name: string, items: seq<Item>,
                        perNamespace: map<string, seq<string>>, namespaces: seq<string>)
    returns (more: map<string, File>)
    requires Groups(perNamespace, items)
    ensures more == files + NamespaceFiles(name, items, namespaces)
  {
    more := files;
    for i := 0 to |namespaces|
      invariant more == files + NamespaceFiles(name, items, namespaces[..i])
    {
      var ns := namespaces[i];
      assert namespaces[..i + 1][..i] == namespaces[..i];
      if ns in perNamespace && perNamespace[ns] != [] {
        StoreAdds(files, NamespaceFiles(name, items, namespaces[..i]), name + "/" + ns, perNamespace[ns]);
        more := Store(more, name + "/" + ns, perNamespace[ns]);
      }
    }
    assert namespaces[..|namespaces|] == namespaces;
  }

  /** The name under which a definition's objects are stored, all of them or one namespace's. */
  function KeyOf(name: string, ns: Option<string>, format: Format): string {
    (if ns.None? then name else name + "/" + ns.value) + Extension(format)
  }

  /** The keys themselves. */
  lemma KeysAre(name: string, ns: string)
    ensures KeyOf(name, None, Json) == name + ".json" && KeyOf(name, None, Yaml) == name + ".yaml"
    ensures KeyOf(name, Some(ns), Json) == name + "/" + ns + ".json"
    ensures KeyOf(name, Some(ns), Yaml) == name + "/" + ns + ".yaml"
  {
  }

  /** Keys of different definitions, namespaces or formats never collide. */
  lemma KeysNeverCollide(name: string, ns: Option<string>, format: Format,
                         name': string, ns': Option<string>, format': Format)
    requires '/' !in name && '/' !in name'
    requires KeyOf(name, ns, format) == KeyOf(name', ns', format')
    ensures name == name' && ns == ns' && format == format'
  {
    var key := KeyOf(name, ns, format);
    assert key[|key| - 1] == (if format.Json? then 'n' else 'l') == (if format'.Json? then 'n' else 'l');
    var stem := key[..|key| - 5];
    assert stem == (if ns.None? then name else name + "/" + ns.value);
    assert stem == (if ns'.None? then name' else name' + "/" + ns'.value);
    FirstSlash(name, ns, stem);
    FirstSlash(name', ns', stem);
  }

  lemma FirstSlash(name: string, ns: Option<string>, stem: string)
    requires '/' !in name && stem == if ns.None? then name else name + "/" + ns.value
    ensures Split(stem, '/')[0] == name
    ensures ns.None? <==> |Split(stem, '/')| == 1
    ensures ns.Some? ==> stem[|name| + 1..] == ns.value
  {
    SplitFirst(name, if ns.Some? then ns.value else "", '/');
  }

  /** The file that belongs under the key: the definition is listed, it is cluster-scoped or the
      namespace is requested, and the group is not empty. */
  ghost predicate Belongs(crd: Crd, namespaces: seq<string>, ns: Option<string>, file: File) {
    && '/' !in crd.name && crd.listing.Some?
    && crd.namespaced == ns.Some?
    && (ns.Some? ==> ns.value in namespaces)
    && file.objects == (if ns.Some? then InNamespace(crd.listing.value, ns.value) else Objects(crd.listing.value))
    && file.objects != []
  }

  lemma {:induction false} NamespaceFilesExact(crd: Crd, namespaces: seq<string>, key: string, file: File)
    requires '/' !in crd.name && crd.namespaced && crd.listing.Some?
    ensures (key in NamespaceFiles(crd.name, crd.listing.value, namespaces)
             && NamespaceFiles(crd.name, crd.listing.value, namespaces)[key] == file) <==>
            exists ns :: key == KeyOf(crd.name, ns, file.format) && Belongs(crd, namespaces, ns, file)
  {
    if namespaces == [] {
    } else {
      var front, ns := namespaces[..|namespaces| - 1], namespaces[|namespaces| - 1];
      NamespaceFilesExact(crd, front, key, file);
      assert namespaces == front + [ns];
      assert KeyOf(crd.name, Some(ns), Json) == crd.name + "/" + ns + ".json";
      assert KeyOf(crd.name, Some(ns), Yaml) == crd.name + "/" + ns + ".yaml";
      forall other: Option<string>, format, format'
        ensures KeyOf(crd.name, other, format) == KeyOf(crd.name, Some(ns), format') ==>
                  other == Some(ns) && format == format'
      {
        if KeyOf(crd.name, other, format) == KeyOf(crd.name, Some(ns), format') {
          KeysNeverCollide(crd.name, other, format, crd.name, Some(ns), format');
        }
      }
    }
  }

  lemma FilesOfExact(crd: Crd, namespaces: seq<string>, key: string, file: File)
    ensures (key in FilesOf(crd, namespaces) && FilesOf(crd, namespaces)[key] == file) <==>
            exists ns :: key == KeyOf(crd.name, ns, file.format) && Belongs(crd, namespaces, ns, file)
  {
    if '/' in crd.name || crd.listing.None? {
    } else if crd.listing.value == [] {
      assert Objects([]) == [] && forall ns :: InNamespace([], ns) == [];
    } else if crd.namespaced {
      NamespaceFilesExact(crd, namespaces, key, file);
    } else {
      assert KeyOf(crd.name, None, Json) == crd.name + ".json" && KeyOf(crd.name, None, Yaml) == crd.name + ".yaml";
      assert (crd.name + ".json")[|crd.name| + 4] != (crd.name + ".yaml")[|crd.name| + 4];
    }
  }

  /** With distinct definition names, as a cluster has them, the files are exactly those that
      belong: one per format for every listed definition and requested namespace with objects,
      under its own key, with all its objects in listing order. */
  lemma {:induction false} AllFilesExact(crds: seq<Crd>, namespaces: seq<string>, key: string, file: File)
    requires forall i, j :: 0 <= i < j < |crds| ==> crds[i].name != crds[j].name
    ensures (key in AllFiles(crds, namespaces) && AllFiles(crds, namespaces)[key] == file) <==>
            exists crd, ns ::
              crd in crds && key == KeyOf(crd.name, ns, file.format) && Belongs(crd, namespaces, ns, file)
  {
    if crds == [] {
    } else {
      var front, last := crds[..|crds| - 1], crds[|crds| - 1];
      assert crds == front + [last];
      AllFilesExact(front, namespaces, key, file);
      FilesOfExact(last, namespaces, key, file);
      if key in FilesOf(last, namespaces) && key in AllFiles(front, namespaces) {
        NoSharedKey(front, last, namespaces, key);
      }
    }
  }

  /** The resources of a namespace are stored exactly when the namespace is requested by its own name:
      an empty name among those requested stands for no other. */
  lemma StoredIffRequested(crd: Crd, namespaces: seq<string>, ns: string, format: Format)
    requires '/' !in crd.name && crd.namespaced && crd.listing.Some?
    ensures KeyOf(crd.name, Some(ns), format) in AllFiles([crd], namespaces) <==>
            ns in namespaces && InNamespace(crd.listing.value, ns) != []
  {
    var key := KeyOf(crd.name, Some(ns), format);
    if key in AllFiles([crd], namespaces) {
      var file := AllFiles([crd], namespaces)[key];
      AllFilesExact([crd], namespaces, key, file);
      var other, ns' :|
        other in [crd] && key == KeyOf(other.name, ns', file.format) && Belongs(other, namespaces, ns', file);
      KeysNeverCollide(crd.name, Some(ns), format, crd.name, ns', file.format);
    }
    var file := File(format, InNamespace(crd.listing.value, ns));
    AllFilesExact([crd], namespaces, key, file);
    if ns in namespaces && file.objects != [] {
      assert crd in [crd] && Belongs(crd, namespaces, Some(ns), file);
    }
  }

  lemma NoSharedKey(crds: seq<Crd>, crd: Crd, namespaces: seq<string>, key: string)
    requires forall i :: 0 <= i < |crds| ==> crds[i].name != crd.name
    ensures !(key in FilesOf(crd, namespaces) && key in AllFiles(crds, namespaces))
  {
    if key in FilesOf(crd, namespaces) && key in AllFiles(crds, namespaces) {
      var i := FromSome(crds, namespaces, key);
      FilesOfExact(crd, namespaces, key, FilesOf(crd, namespaces)[key]);
      FilesOfExact(crds[i], namespaces, key, FilesOf(crds[i], namespaces)[key]);
      var ns, ns' :| key == KeyOf(crd.name, ns, FilesOf(crd, namespaces)[key].format) && '/' !in crd.name &&
                     key == KeyOf(crds[i].name, ns', FilesOf(crds[i], namespaces)[key].format) && '/' !in crds[i].name;
      KeysNeverCollide(crd.name, ns, FilesOf(crd, namespaces)[key].format,
                       crds[i].name, ns', FilesOf(crds[i], namespaces)[key].format);
    }
  }

  lemma {:induction false} FromSome(crds: seq<Crd>, namespaces: seq<string>, key: string) returns (i: nat)
    requires key in AllFiles(crds, namespaces)
    ensures i < |crds| && key in FilesOf(crds[i], namespaces)
  {
    var n := |crds| - 1;
    if key in FilesOf(crds[n], namespaces) {
      i := n;
    } else {
      i := FromSome(crds[..n], namespaces, key);
    }
  }
}
