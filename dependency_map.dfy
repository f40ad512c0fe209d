/** The dependency map that generateWithDependencies builds from
    dependency names: each dependency's schema file, resolved against the
    schema folder, mapped to its <base><ext> binding when that exists. */
module DependencyMaps {
  import opened Wrappers
  import opened Paths

  /** The bindings found for one schema: <base><ext> in the binding folder,
      when that file exists. */
  function SchemaBindings(files: FileSystem, bindingFolder: Option<Path>, ext: string, schema: Path): (bs: seq<Path>)
    ensures |bs| <= 1
    ensures bs == [] <==> Child(bindingFolder, NameWithoutExtension(schema) + ext) !in files
    ensures forall b :: b in bs ==> b in files && b == Child(bindingFolder, NameWithoutExtension(schema) + ext)
  {
    var binding := Child(bindingFolder, NameWithoutExtension(schema) + ext);
    if binding in files then [binding] else []
  }

  /** The keys a run of map.put(key(n), ...) over the names enters. */
  function KeysOf<N, K>(names: seq<N>, key: N -> K): set<K> {
    if names == [] then {}
    else KeysOf(names[..|names| - 1], key) + {key(names[|names| - 1])}
  }

  /** The map a run of map.put(key(n), value(key(n))) over the names builds;
      a later put of the same key overwrites an earlier one. */
  function MapOf<N, K, V>(names: seq<N>, key: N -> K, value: K -> V): map<K, V> {
    if names == [] then map[]
    else
      var k := key(names[|names| - 1]);
      MapOf(names[..|names| - 1], key, value)[k := value(k)]
  }

  lemma {:induction false} KeysOfExact<N, K>(names: seq<N>, key: N -> K, k: K)
    ensures k in KeysOf(names, key) <==> exists i :: 0 <= i < |names| && k == key(names[i])
    decreases |names|
  {
    if names != [] {
      var front := names[..|names| - 1];
      KeysOfExact(front, key, k);
      if k in KeysOf(front, key) {
        var i :| 0 <= i < |front| && k == key(front[i]);
        assert names[i] == front[i];
      } else if k == key(names[|names| - 1]) {
      } else {
        forall i | 0 <= i < |names| ensures k != key(names[i]) {
          if i < |front| {
            assert names[i] == front[i];
          }
        }
      }
    }
  }

  lemma {:induction false} MapOfShape<N, K, V>(names: seq<N>, key: N -> K, value: K -> V)
    ensures MapOf(names, key, value).Keys == KeysOf(names, key)
    ensures forall k :: k in MapOf(names, key, value) ==> MapOf(names, key, value)[k] == value(k)
    decreases |names|
  {
    if names != [] {
      MapOfShape(names[..|names| - 1], key, value);
    }
  }

  lemma MapOfSnoc<N, K, V>(names: seq<N>, i: nat, key: N -> K, value: K -> V)
    requires i < |names|
    ensures MapOf(names[..i + 1], key, value) == MapOf(names[..i], key, value)[key(names[i]) := value(key(names[i]))]
  {
    var s := names[..i + 1];
    assert s[..|s| - 1] == names[..i] && s[|s| - 1] == names[i];
  }

  /** A dependency name's schema file. */
  function SchemaOf(schemaFolder: Option<Path>): string -> Path {
    n => Child(schemaFolder, n)
  }

  function BindingsOf(files: FileSystem, bindingFolder: Option<Path>, ext: string): Path -> seq<Path> {
    k => SchemaBindings(files, bindingFolder, ext, k)
  }

  /** The keys of the dependency map: one schema file per dependency name. */
  function DependencyKeys(schemaFolder: Option<Path>, names: seq<string>): set<Path> {
    KeysOf(names, SchemaOf(schemaFolder))
  }

  /** The dependency map: every dependency's schema file mapped to its
      bindings, entered in the order of the names. */
  function DependencyMap(files: FileSystem, schemaFolder: Option<Path>, bindingFolder: Option<Path>, ext: string,
                         names: seq<string>): map<Path, seq<Path>> {
    MapOf(names, SchemaOf(schemaFolder), BindingsOf(files, bindingFolder, ext))
  }

  /** The loop that fills the HashMap. */
  method BuildDependencyMap(files: FileSystem, schemaFolder: Option<Path>, bindingFolder: Option<Path>, ext: string,
                            names: seq<string>) returns (m: map<Path, seq<Path>>)
    ensures m == DependencyMap(files, schemaFolder, bindingFolder, ext, names)
  {
    m := map[];
    for i := 0 to |names|
      invariant m == DependencyMap(files, schemaFolder, bindingFolder, ext, names[..i])
    {
      var depSchema := Child(schemaFolder, names[i]);
      var depBindings := SchemaBindings(files, bindingFolder, ext, depSchema);
      MapOfSnoc(names, i, SchemaOf(schemaFolder), BindingsOf(files, bindingFolder, ext));
      m := m[depSchema := depBindings];
    }
    assert names[..|names|] == names;
  }

  /** The keys of the map are exactly the dependencies' schema files. */
  lemma DependencyMapKeys(files: FileSystem, schemaFolder: Option<Path>, bindingFolder: Option<Path>, ext: string,
                          names: seq<string>, k: Path)
    ensures k in DependencyMap(files, schemaFolder, bindingFolder, ext, names) <==>
      exists i :: 0 <= i < |names| && k == Child(schemaFolder, names[i])
  {
    KeysOfExact(names, SchemaOf(schemaFolder), k);
    MapOfShape(names, SchemaOf(schemaFolder), BindingsOf(files, bindingFolder, ext));
  }

  /** Every dependency name has its entry, and the entry holds at most the
      one existing <base><ext> binding. */
  lemma DependencyMapEntries(files: FileSystem, schemaFolder: Option<Path>, bindingFolder: Option<Path>, ext: string,
                             names: seq<string>, i: nat)
    requires i < |names|
    ensures var m := DependencyMap(files, schemaFolder, bindingFolder, ext, names);
      var k := Child(schemaFolder, names[i]);
      && k in m && m[k] == SchemaBindings(files, bindingFolder, ext, k) && |m[k]| <= 1
      && (m[k] == [] <==> Child(bindingFolder, NameWithoutExtension(k) + ext) !in files)
  {
    DependencyMapKeys(files, schemaFolder, bindingFolder, ext, names, Child(schemaFolder, names[i]));
    MapOfShape(names, SchemaOf(schemaFolder), BindingsOf(files, bindingFolder, ext));
  }
}
