/** Concrete instances of the output stage's behaviour, each derived from
    the general contracts. */
module Scenarios {
  import opened Sorting
  import opened Generate

  lemma SortedThreeNames()
    ensures SortedKeys({"b", "a", "c"}) == ["a", "b", "c"]
  {
    SortedKeysSorted({"b", "a", "c"});
    assert Less("a", "b") && Less("b", "c") && Less("a", "c");
    StrictlySortedUnique(["a", "b", "c"], SortedKeys({"b", "a", "c"}));
  }

  lemma ShortNameOfPath()
    ensures ResolveImport("github.com/foo/bar", []) == Import("github.com/foo/bar", "", "bar")
  {
  }

  lemma ShortNameWithAlias()
    ensures ResolveImport("alias", ["some/path"]) == Import("some/path", "alias ", "alias")
  {
  }

  /** One struct `S` with an optional field `X` of type string and one
      required alias `A` of type int, assembled with substitution on: `S`'s
      field becomes `EmptyString` (in the caller's model too, since the
      field map is shared) and the alias is kept. */
  method SingleStructScenario() returns (g: Generator, fields: FieldMap, data: OutputData)
    ensures g.Structs == map["S" := Struct(fields, "")]
    ensures data.Structs == [Struct(fields, "")]
    ensures fields.entries == map["X" := Field("EmptyString", false)]
    ensures data.Aliases == [Field("int", true)]
  {
    fields := new FieldMap(map["X" := Field("string", false)]);
    g := new Generator(map["S" := Struct(fields, "")], map["A" := Field("int", true)]);
    SingleFieldMap("S", Struct(fields, ""));
    OneFieldSubstituted();
    data := Output(g, "main", false, true);
    SingleInKeyOrder(data.Structs, "S", Struct(fields, ""));
    SingleInKeyOrder(data.Aliases, "A", Field("int", true));
  }

  lemma SingleFieldMap(k: string, s: Struct)
    ensures FieldMaps(map[k := s]) == {s.Fields}
  {
    assert map[k := s].Keys == {k};
  }

  /** The values of a one-entry map in key order are that entry's value. */
  lemma SingleInKeyOrder<V>(out: seq<V>, k: string, v: V)
    requires InKeyOrder(out, map[k := v])
    ensures out == [v]
  {
    assert map[k := v].Keys == {k};
    assert SortedKeys({k}) == [k];
    assert ValuesAt(map[k := v], [k][..0]) == [];
  }

  lemma OneFieldSubstituted()
    ensures Substituted(map["X" := Field("string", false)], EmptyTypeTable) == map["X" := Field("EmptyString", false)]
  {
    var m := map["X" := Field("string", false)];
    SubstitutedFields(m, EmptyTypeTable);
    assert Substituted(m, EmptyTypeTable).Keys == {"X"};
  }

  /** Resolving the same package twice leaves the registry as resolving it
      once, and both calls give the same short name. */
  method PkgTwice(d: OutputData, name: string, path: seq<string>) returns (first: string, second: string)
    modifies d`ImportPaths
    ensures first == second == ResolveImport(name, path).shortName
    ensures d.ImportPaths == Register(old(d.ImportPaths), name, path)
  {
    first := d.Pkg(name, path);
    second := d.Pkg(name, path);
    RegisterIdempotent(old(d.ImportPaths), name, path);
  }
}
