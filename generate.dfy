/** The rendering-context assembly of the code generator's output stage
    (output.go of package `generate`): deterministic enumeration of structs
    and aliases, substitution of optional scalar field types by their
    "empty" sentinel types, the import registry filled by `Pkg`, and the
    package-name sanitizer. */
module Generate {
  import opened Sorting
  import opened Strings

  /** A schema property; only the attributes the output stage reads. */
  datatype Field = Field(Type: string, Required: bool)
  {
    /** The type is a pointer type. */
    function IsPointer(): (r: bool)
      ensures r <==> |Type| > 0 && Type[0] == '*'
    {
      HasPrefix(Type, "*")
    }
  }

  /** A Go `map[string]Field`: a reference, so every copy of a `Struct`
      that holds it sees the same entries. */
  class FieldMap {
    var entries: map<string, Field>

    constructor (entries: map<string, Field>)
      ensures this.entries == entries
    {
      this.entries := entries;
    }
  }

  /** A named record type. Copying a `Struct` value copies the reference to
      its field map, not the map. */
  datatype Struct = Struct(Fields: FieldMap, AdditionalType: string)
  {
    /** The struct has no properties: no fields, and no additional-properties
        type (an empty `AdditionalType` or the literal "false"). */
    function NoProp(): (r: bool)
      reads Fields
      ensures r <==> Fields.entries == map[] && AdditionalType in {"", "false"}
    {
      |Fields.entries| == 0 && (AdditionalType == "" || AdditionalType == "false")
    }
  }

  /** The schema model the output stage reads. */
  class Generator {
    var Structs: map<string, Struct>
    var Aliases: map<string, Field>

    constructor (structs: map<string, Struct>, aliases: map<string, Field>)
      ensures Structs == structs && Aliases == aliases
    {
      Structs := structs;
      Aliases := aliases;
    }
  }

  /** The fixed table from a scalar type to its "empty" sentinel type. */
  const EmptyTypeTable: map<string, string> :=
    map["string" := "EmptyString", "bool" := "EmptyBool", "int" := "EmptyInt", "float64" := "EmptyFloat64"]

  /** A non-empty type whose first character is not `*` is no pointer. */
  lemma NotPointer(t: string)
    requires |t| > 0 && t[0] != '*'
    ensures !HasPrefix(t, "*")
  {
    assert t[..1][0] == t[0];
  }

  /** No sentinel type is itself a key of the table, so substituting twice
      changes nothing more than substituting once; no key or sentinel is a
      pointer type. */
  lemma EmptyTypeTableSentinels()
    ensures forall t :: t in EmptyTypeTable.Values ==> t !in EmptyTypeTable
    ensures forall t :: t in EmptyTypeTable ==> !HasPrefix(t, "*") && !HasPrefix(EmptyTypeTable[t], "*")
  {
    NotPointer("string"); NotPointer("bool"); NotPointer("int"); NotPointer("float64");
    NotPointer("EmptyString"); NotPointer("EmptyBool"); NotPointer("EmptyInt"); NotPointer("EmptyFloat64");
    assert EmptyTypeTable.Keys == {"string", "bool", "int", "float64"};
    assert EmptyTypeTable["string"] == "EmptyString" && EmptyTypeTable["bool"] == "EmptyBool";
    assert EmptyTypeTable["int"] == "EmptyInt" && EmptyTypeTable["float64"] == "EmptyFloat64";
    forall t | t in EmptyTypeTable.Values ensures t !in EmptyTypeTable {
      var k :| k in EmptyTypeTable && EmptyTypeTable[k] == t;
    }
  }

  // ---------------------------------------------------------------------
  // Name ordering

  /** Copies the keys of `m` into a fresh array in the map's (arbitrary)
      iteration order. */
  method CollectKeys<V>(m: map<string, V>) returns (a: array<string>)
    ensures fresh(a)
    ensures a.Length == |m|
    ensures forall k :: k in m <==> k in a[..]
    ensures Distinct(a[..])
  {
    a := new string[|m|];
    var idx := 0;
    var rest := m.Keys;
    while rest != {}
      invariant 0 <= idx <= a.Length
      invariant rest <= m.Keys && idx + |rest| == a.Length
      invariant forall k :: k in m <==> k in rest || k in a[..idx]
      invariant forall i :: 0 <= i < idx ==> a[i] !in rest
      invariant Distinct(a[..idx])
      decreases rest
    {
      var k :| k in rest;
      a[idx] := k;
      assert a[..idx + 1] == a[..idx] + [k];
      rest := rest - {k};
      idx := idx + 1;
    }
    assert a[..idx] == a[..];
  }

  /** The keys of `m` collected in iteration order and then sorted in place:
      exactly the keys of `m`, each once, in ascending order. */
  method GetOrderedNames<V>(m: map<string, V>) returns (keys: seq<string>)
    ensures |keys| == |m|
    ensures forall k :: k in keys <==> k in m
    ensures StrictlySorted(keys)
    ensures keys == SortedKeys(m.Keys)
  {
    var a := CollectKeys(m);
    ghost var filled := a[..];
    DistinctMultiplicity(filled);
    SortStrings(a);
    keys := a[..];
    DistinctMultiplicity(keys);
    DistinctAdjacentSorted(keys);
    assert forall k :: k in keys <==> k in multiset(filled);
    SortedKeysSorted(m.Keys);
    StrictlySortedUnique(keys, SortedKeys(m.Keys));
  }

  method GetOrderedFieldNames(m: map<string, Field>) returns (keys: seq<string>)
    ensures keys == SortedKeys(m.Keys)
  {
    keys := GetOrderedNames(m);
  }

  method GetOrderedStructNames(m: map<string, Struct>) returns (keys: seq<string>)
    ensures keys == SortedKeys(m.Keys)
  {
    keys := GetOrderedNames(m);
  }

  /** `out` holds the values of `m` in ascending order of their keys. */
  ghost predicate InKeyOrder<V>(out: seq<V>, m: map<string, V>)
  {
    out == ValuesAt(m, SortedKeys(m.Keys))
  }

  /** The values of `m` under the keys `ks`, in the order of `ks`. */
  ghost function ValuesAt<V>(m: map<string, V>, ks: seq<string>): seq<V>
    requires forall k :: k in ks ==> k in m
  {
    if ks == [] then [] else ValuesAt(m, ks[..|ks| - 1]) + [m[ks[|ks| - 1]]]
  }

  lemma {:induction false} ValuesAtIndex<V>(m: map<string, V>, ks: seq<string>)
    requires forall k :: k in ks ==> k in m
    ensures |ValuesAt(m, ks)| == |ks|
    ensures forall i :: 0 <= i < |ks| ==> ValuesAt(m, ks)[i] == m[ks[i]]
  {
    if ks != [] {
      ValuesAtIndex(m, ks[..|ks| - 1]);
    }
  }

  /** A sequence in key order has one entry per key of the map: the value
      under the i-th smallest key is at position i. */
  lemma InKeyOrderIndex<V>(out: seq<V>, m: map<string, V>)
    requires InKeyOrder(out, m)
    ensures |out| == |m|
    ensures forall i :: 0 <= i < |out| ==> SortedKeys(m.Keys)[i] in m && out[i] == m[SortedKeys(m.Keys)[i]]
  {
    ValuesAtIndex(m, SortedKeys(m.Keys));
  }

  // ---------------------------------------------------------------------
  // Import registry

  /** What one request for a package's short name resolves to: the path to
      register, the import name recorded for it ("" when there is no
      explicit alias, the alias followed by a space otherwise), and the
      short name to use in the generated code. */
  datatype Import = Import(realPath: string, importName: string, shortName: string)

  function ResolveImport(name: string, path: seq<string>): (r: Import)
    ensures |path| == 0 ==> r.realPath == name && r.importName == ""
    ensures |path| == 0 && '/' !in name ==> r.shortName == name
    ensures |path| == 0 && '/' in name ==>
      && '/' !in r.shortName
      && |r.shortName| < |name|
      && name[|name| - |r.shortName| - 1] == '/'
      && name[|name| - |r.shortName|..] == r.shortName
    ensures |path| > 0 ==> r.realPath == path[0] && r.importName == name + " " && r.shortName == name
  {
    if |path| == 0 then
      var i := LastIndex(name, '/');
      if i != -1 then Import(name, "", name[i + 1..]) else Import(name, "", name)
    else
      Import(path[0], name + " ", name)
  }

  /** The registry after one request: the resolved path maps to its import
      name, and every other path keeps its entry. */
  function Register(paths: map<string, string>, name: string, path: seq<string>): (r: map<string, string>)
    ensures r.Keys == paths.Keys + {ResolveImport(name, path).realPath}
    ensures r[ResolveImport(name, path).realPath] == ResolveImport(name, path).importName
    ensures forall p :: p in paths && p != ResolveImport(name, path).realPath ==> r[p] == paths[p]
  {
    var imp := ResolveImport(name, path);
    paths[imp.realPath := imp.importName]
  }

  /** Asking twice for the same package leaves the registry as asking once. */
  lemma RegisterIdempotent(paths: map<string, string>, name: string, path: seq<string>)
    ensures Register(Register(paths, name, path), name, path) == Register(paths, name, path)
  {
  }

  // ---------------------------------------------------------------------
  // Empty-type substitution

  /** A field after substitution: an optional field whose type has a
      sentinel gets the sentinel type; every other field is kept. */
  function SubstituteType(f: Field, table: map<string, string>): (r: Field)
    ensures r.Required == f.Required
    ensures !f.Required && f.Type in table ==> r.Type == table[f.Type]
    ensures f.Required || f.Type !in table ==> r == f
  {
    if !f.Required && f.Type in table then f.(Type := table[f.Type]) else f
  }

  /** The field map after substitution of every field. */
  function Substituted(m: map<string, Field>, table: map<string, string>): (r: map<string, Field>)
    ensures r.Keys == m.Keys
  {
    map n | n in m :: SubstituteType(m[n], table)
  }

  /** Substitution keeps every field name and every `Required` flag; it
      gives an optional field whose type is in the table that type's
      sentinel, and leaves required fields and fields of other types as
      they are. */
  lemma SubstitutedFields(m: map<string, Field>, table: map<string, string>)
    ensures Substituted(m, table).Keys == m.Keys && |Substituted(m, table)| == |m|
    ensures forall n :: n in m ==> Substituted(m, table)[n].Required == m[n].Required
    ensures forall n :: n in m && (m[n].Required || m[n].Type !in table) ==> Substituted(m, table)[n] == m[n]
    ensures forall n :: n in m && !m[n].Required && m[n].Type in table ==>
      Substituted(m, table)[n].Type == table[m[n].Type]
  {
    assert Substituted(m, table).Keys == m.Keys;
  }

  /** When no sentinel is itself substitutable, substitution is idempotent. */
  lemma SubstitutedIdempotent(m: map<string, Field>, table: map<string, string>)
    requires forall t :: t in table.Values ==> t !in table
    ensures Substituted(Substituted(m, table), table) == Substituted(m, table)
  {
    forall n | n in m
      ensures SubstituteType(SubstituteType(m[n], table), table) == SubstituteType(m[n], table)
    {
      var f := m[n];
      if !f.Required && f.Type in table {
        assert table[f.Type] in table.Values;
      }
    }
  }

  /** Substitution with the fixed table is idempotent. */
  lemma EmptyTypesIdempotent(m: map<string, Field>)
    ensures Substituted(Substituted(m, EmptyTypeTable), EmptyTypeTable) == Substituted(m, EmptyTypeTable)
  {
    EmptyTypeTableSentinels();
    SubstitutedIdempotent(m, EmptyTypeTable);
  }

  /** Substituting with the fixed table never turns a pointer type into a
      non-pointer type or back. */
  lemma SubstitutionKeepsPointers(f: Field)
    ensures SubstituteType(f, EmptyTypeTable).IsPointer() == f.IsPointer()
  {
    EmptyTypeTableSentinels();
  }

  /** Rewrites, in place, the type of every optional field whose type has a
      sentinel, visiting the fields in arbitrary order. */
  method SubstituteFields(fields: FieldMap, table: map<string, string>)
    modifies fields
    ensures fields.entries == Substituted(old(fields.entries), table)
  {
    ghost var original := fields.entries;
    var todo := fields.entries.Keys;
    while todo != {}
      invariant todo <= original.Keys
      invariant fields.entries.Keys == original.Keys
      invariant forall n :: n in original && n !in todo ==> fields.entries[n] == SubstituteType(original[n], table)
      invariant forall n :: n in todo ==> fields.entries[n] == original[n]
      decreases todo
    {
      var n :| n in todo;
      var f := fields.entries[n];
      if !f.Required {
        if f.Type in table {
          f := f.(Type := table[f.Type]);
          fields.entries := fields.entries[n := f];
        }
      }
      todo := todo - {n};
    }
    assert fields.entries == Substituted(original, table);
  }

  // ---------------------------------------------------------------------
  // Package name

  /** The package name with every '.', '_' and '-' removed, the other
      characters kept in order. */
  function CleanPackageName(pkg: string): (r: string)
    ensures '.' !in r && '_' !in r && '-' !in r
    ensures r == Delete(pkg, {'.', '_', '-'})
  {
    DeleteTwice(pkg, {'.'}, {'_'});
    DeleteTwice(pkg, {'.'} + {'_'}, {'-'});
    assert {'.'} + {'_'} + {'-'} == {'.', '_', '-'};
    Delete(Delete(Delete(pkg, {'.'}), {'_'}), {'-'})
  }

  lemma CleanPackageNameIdempotent(pkg: string)
    ensures CleanPackageName(CleanPackageName(pkg)) == CleanPackageName(pkg)
  {
    DeleteIdempotent(pkg, {'.', '_', '-'});
  }

  /** A name that already has no '.', '_' or '-' is kept as it is. */
  lemma CleanPackageNameKeepsClean(pkg: string)
    requires '.' !in pkg && '_' !in pkg && '-' !in pkg
    ensures CleanPackageName(pkg) == pkg
  {
    DeleteNothing(pkg, {'.', '_', '-'});
  }

  // ---------------------------------------------------------------------
  // Rendering context

  ghost function FieldMaps(structs: map<string, Struct>): set<FieldMap>
  {
    set k | k in structs :: structs[k].Fields
  }

  /** Everything the templates read; `ImportPaths` is filled while the body
      template runs, through `Pkg`. */
  class OutputData {
    var ImportPaths: map<string, string>
    var PackageName: string
    var Structs: seq<Struct>
    var Aliases: seq<Field>
    var EmptyTypes: map<string, string>
    var AlwaysAcceptFalse: bool

    constructor (packageName: string, structs: seq<Struct>, aliases: seq<Field>, alwaysAcceptFalse: bool)
      ensures ImportPaths == map[] && PackageName == packageName
      ensures Structs == structs && Aliases == aliases
      ensures EmptyTypes == EmptyTypeTable && AlwaysAcceptFalse == alwaysAcceptFalse
    {
      ImportPaths := map[];
      PackageName := packageName;
      Structs := structs;
      Aliases := aliases;
      EmptyTypes := EmptyTypeTable;
      AlwaysAcceptFalse := alwaysAcceptFalse;
    }

    /** The short name to use for a package, recording its import path
        (and explicit alias, if any) in the registry. */
    method Pkg(name: string, path: seq<string>) returns (short: string)
      modifies this`ImportPaths
      ensures short == ResolveImport(name, path).shortName
      ensures ImportPaths == Register(old(ImportPaths), name, path)
    {
      var realPath: string;
      var importName := "";
      short := name;
      if |path| == 0 {
        var i := LastIndex(name, '/');
        if i != -1 {
          realPath := name;
          short := name[i + 1..];
        } else {
          realPath := name;
        }
      } else {
        realPath := path[0];
        importName := name + " ";
      }
      ImportPaths := ImportPaths[realPath := importName];
    }
  }

  /** The structs named by `keys`, in that order; when `useEmptyTypes` is
      set, each one's fields are rewritten in place first (the first loop of
      `Output`). Field maps shared by several structs are rewritten once per
      struct, which substitution's idempotence makes harmless. */
  method AssembleStructs(structs: map<string, Struct>, keys: seq<string>, useEmptyTypes: bool) returns (out: seq<Struct>)
    requires forall k :: k in keys ==> k in structs
    requires forall k :: k in structs ==> k in keys
    modifies FieldMaps(structs)
    ensures out == ValuesAt(structs, keys)
    ensures forall fm :: fm in FieldMaps(structs) ==>
      fm.entries == if useEmptyTypes then Substituted(old(fm.entries), EmptyTypeTable) else old(fm.entries)
  {
    out := [];
    ghost var done: set<FieldMap> := {};
    var i := 0;
    while i < |keys|
      invariant 0 <= i <= |keys|
      invariant out == ValuesAt(structs, keys[..i])
      invariant forall k :: k in keys[..i] ==> structs[k].Fields in done
      invariant forall fm :: fm in FieldMaps(structs) ==>
        fm.entries == if useEmptyTypes && fm in done then Substituted(old(fm.entries), EmptyTypeTable) else old(fm.entries)
    {
      assert keys[..i + 1] == keys[..i] + [keys[i]];
      var s := structs[keys[i]];
      assert s.Fields in FieldMaps(structs);
      if useEmptyTypes {
        EmptyTypesIdempotent(old(s.Fields.entries));
        SubstituteFields(s.Fields, EmptyTypeTable);
      }
      done := done + {s.Fields};
      out := out + [s];
      i := i + 1;
    }
    assert keys[..i] == keys;
    forall fm | fm in FieldMaps(structs) ensures fm in done {
      var k :| k in structs && structs[k].Fields == fm;
    }
  }

  /** The aliases named by `names`, in that order, unchanged (the second
      loop of `Output`). */
  method AssembleAliases(aliases: map<string, Field>, names: seq<string>) returns (out: seq<Field>)
    requires forall k :: k in names ==> k in aliases
    ensures |out| == |names|
    ensures forall j :: 0 <= j < |names| ==> out[j] == aliases[names[j]]
    ensures out == ValuesAt(aliases, names)
  {
    out := [];
    var j := 0;
    while j < |names|
      invariant 0 <= j <= |names|
      invariant out == ValuesAt(aliases, names[..j])
    {
      out := out + [aliases[names[j]]];
      assert names[..j + 1][..j] == names[..j];
      j := j + 1;
    }
    assert names[..j] == names;
    ValuesAtIndex(aliases, names);
  }

  /** The structs of the model in ascending name order, their field maps
      rewritten in place when `useEmptyTypes` is set; substitution keeps
      every field name, so no struct gains or loses its properties. */
  method OrderedStructs(structs: map<string, Struct>, useEmptyTypes: bool) returns (out: seq<Struct>)
    modifies FieldMaps(structs)
    ensures InKeyOrder(out, structs)
    ensures forall fm :: fm in FieldMaps(structs) ==>
      fm.entries == if useEmptyTypes then Substituted(old(fm.entries), EmptyTypeTable) else old(fm.entries)
    ensures forall k :: k in structs ==> structs[k].NoProp() == old(structs[k].NoProp())
  {
    var keys := GetOrderedStructNames(structs);
    out := AssembleStructs(structs, keys, useEmptyTypes);
    forall k | k in structs
      ensures structs[k].NoProp() == old(structs[k].NoProp())
    {
      var fm := structs[k].Fields;
      assert fm in FieldMaps(structs);
      SubstitutedFields(old(fm.entries), EmptyTypeTable);
    }
  }

  /** The aliases of the model in ascending name order. */
  method OrderedAliases(aliases: map<string, Field>) returns (out: seq<Field>)
    ensures InKeyOrder(out, aliases)
  {
    var names := GetOrderedFieldNames(aliases);
    out := AssembleAliases(aliases, names);
  }

  /** Builds the rendering context: structs in ascending name order (their
      optional scalar fields rewritten to sentinel types, in place, when
      `useEmptyTypes` is set) and aliases in ascending name order. The
      field maps are shared with `g`, so the rewrite shows in `g.Structs`. */
  method Output(g: Generator, pkg: string, alwaysAcceptFalse: bool, useEmptyTypes: bool) returns (data: OutputData)
    modifies FieldMaps(g.Structs)
    ensures fresh(data)
    ensures data.ImportPaths == map[] && data.PackageName == CleanPackageName(pkg)
    ensures data.EmptyTypes == EmptyTypeTable && data.AlwaysAcceptFalse == alwaysAcceptFalse
    ensures InKeyOrder(data.Structs, g.Structs) && InKeyOrder(data.Aliases, g.Aliases)
    ensures g.Structs == old(g.Structs) && g.Aliases == old(g.Aliases)
    ensures forall fm :: fm in FieldMaps(g.Structs) ==>
      fm.entries == if useEmptyTypes then Substituted(old(fm.entries), EmptyTypeTable) else old(fm.entries)
    ensures forall k :: k in g.Structs ==> g.Structs[k].NoProp() == old(g.Structs[k].NoProp())
  {
    var structs := g.Structs;
    var aliases := g.Aliases;
    var structsOut := OrderedStructs(structs, useEmptyTypes);
    var aliasesOut := OrderedAliases(aliases);
    data := new OutputData(CleanPackageName(pkg), structsOut, aliasesOut, alwaysAcceptFalse);
  }

  /** Two consecutive calls on the same model give the same context, even
      though the first may rewrite the shared field maps: substitution is
      idempotent with the fixed table. The field maps end as after one call
      with substitution on, if either call asked for it. */
  method OutputTwice(g: Generator, pkg: string, alwaysAcceptFalse: bool, first: bool, second: bool)
    returns (d1: OutputData, d2: OutputData)
    modifies FieldMaps(g.Structs)
    ensures d1.Structs == d2.Structs && d1.Aliases == d2.Aliases
    ensures d1.PackageName == d2.PackageName && d1.ImportPaths == d2.ImportPaths
    ensures d1.EmptyTypes == d2.EmptyTypes && d1.AlwaysAcceptFalse == d2.AlwaysAcceptFalse
    ensures forall fm :: fm in FieldMaps(g.Structs) ==>
      fm.entries == if first || second then Substituted(old(fm.entries), EmptyTypeTable) else old(fm.entries)
  {
    d1 := Output(g, pkg, alwaysAcceptFalse, first);
    d2 := Output(g, pkg, alwaysAcceptFalse, second);
    forall fm | fm in FieldMaps(g.Structs)
      ensures fm.entries == if first || second then Substituted(old(fm.entries), EmptyTypeTable) else old(fm.entries)
    {
      EmptyTypesIdempotent(old(fm.entries));
    }
  }
}
