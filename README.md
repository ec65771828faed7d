# Output stage of json-schema-generate, in Dafny

This project models the part of the code generator that builds the rendering
context (`output.go`, package `generate`). Given the schema model (a
`Generator` with named structs and aliases), a package name and two flags,
that part:

- orders the struct names and the alias names by sorting each map's keys;
- rewrites, in place, the type of every optional scalar field to its "empty"
  sentinel type (`string` becomes `EmptyString`, and likewise for `bool`,
  `int` and `float64`) when `useEmptyTypes` is set;
- collects the structs and the aliases in name order;
- sanitizes the package name by deleting every `.`, `_` and `-`;
- offers `Pkg`, which the templates call to resolve a package reference to
  its short name and to record its import path in `ImportPaths`.

Files and modules:

- `sorting.dfy` (module `Sorting`):
  - the lexicographic order on strings;
  - an in-place sort of an array of strings, standing for `sort.Strings`;
  - `SortedKeys`, the reference definition of "the keys of a map in
    ascending order", with its uniqueness lemma.
- `strings.dfy` (module `Strings`): `strings.LastIndex`,
  `strings.HasPrefix`, and deletion of characters (`strings.Replace` with an
  empty replacement).
- `generate.dfy` (module `Generate`):
  - the entities `Field`, `Struct`, `Generator` and `OutputData`;
  - the name-ordering methods;
  - the import registry;
  - empty-type substitution;
  - the package-name sanitizer;
  - the assembly in `Output`.
- `scenarios.dfy` (module `Scenarios`): concrete instances derived from the
  general contracts. These cover three sorted names, the two import cases,
  and one struct with one alias assembled with substitution on.

Modelling decisions:

- Sharing of field maps:
  - A Go `map` is a reference, so a copy of a `Struct` value shares its
    `Fields` map with `g.Structs`.
  - The model keeps this: `Struct.Fields` is a `FieldMap` object, which the
    substitution updates in place.
  - `Output` therefore states the new contents of every field map reachable
    from `g.Structs`. The rewrite is visible to the caller, and
    `Scenarios.SingleStructScenario` shows it for a concrete model.
  - The code does not copy the map: it writes into `s.Fields[n]`, and
    `s.Fields` is the caller's map (output.go:97-103).
- Map order: Go's iteration over a map visits the keys in an unspecified
  order. Both the key collection (`CollectKeys`) and the in-place field
  rewrite (`SubstituteFields`) pick the next key with `:|` from the keys not
  yet visited. Their contracts hold for every such order.
- `SortStrings`: `sort.Strings` is modelled by an insertion sort. Its promise
  to callers is the same: the result is ordered and is a permutation of the
  input.
- `GetOrderedNames`: `getOrderedFieldNames` and `getOrderedStructNames` have
  the same body. Both are modelled by one generic method; the two wrappers
  keep the source's names.
- `OutputData` allocation: the model builds the `OutputData` after the two
  loops, with the finished sequences. The Go code builds it first and
  appends inside the loops. The only read of `data` inside the loops is
  `data.EmptyTypes` (output.go:101), which always holds the fixed table
  (next item), so the result is the same.
- Empty-types table: the substitution loop looks types up in
  `data.EmptyTypes`. That field always holds the fixed table
  `EmptyTypeTable`, and the model uses the constant directly.

## Model

| member | source | states |
|---|---|---|
| Sorting.Less | output.go:17 | the strict string order the sort uses; only a non-empty string can follow another, and no string precedes itself |
| Sorting.LessFirstDifference | output.go:17 | `a` precedes `b` exactly when, at the first position where they differ, `a` has the smaller character or has already ended |
| Sorting.LessIrreflexive | output.go:17 | no string sorts strictly before itself |
| Sorting.LessTransitive | output.go:17 | the string order used by the sort is transitive |
| Sorting.LessTotal | output.go:17 | any two different strings are ordered one way or the other |
| Sorting.LessAsymmetric | output.go:17 | two strings are never each strictly before the other |
| Sorting.LessEqAntisymmetric | output.go:17 | strings ordered both ways are equal |
| Sorting.DistinctAdjacentSorted | output.go:17 | a sequence of distinct strings whose neighbours are ordered is strictly ascending as a whole |
| Sorting.DistinctMultiplicity | output.go:13-17 | a sequence has no repeated element exactly when no element occurs twice in its multiset, so sorting keeps distinctness |
| Sorting.StrictlySortedUnique | output.go:17-18 | two strictly ascending sequences with the same elements are equal: the sorted key sequence is determined by the key set, whatever order the map was iterated in |
| Sorting.SortedKeys | output.go:10-30 | the reference key order has one entry per key and holds exactly the keys |
| Sorting.SortedKeysSorted | output.go:10-30 | the reference key order is strictly ascending |
| Sorting.SortStrings | output.go:17 | after sorting in place, the array is ordered and is a permutation of its old contents |
| Sorting.InsertIntoPrefix | output.go:17 | one insertion step extends the ordered prefix by one element and keeps the array's contents as a multiset |
| Sorting.SwapAdjacent | output.go:17 | exchanges two neighbours, leaves every other cell, keeps the multiset |
| Strings.LastIndex | output.go:51 | -1 exactly when the character is absent; otherwise a position holding the character with no later occurrence |
| Strings.HasPrefix | output.go:72 | true exactly when the prefix is no longer than the string and agrees with it at every position |
| Strings.Delete | output.go:129-131 | the result is no longer than the input and holds exactly the input's characters outside the deleted set |
| Strings.DeleteCount | output.go:129-131 | every character outside the deleted set keeps its number of occurrences, and every deleted character occurs zero times |
| Strings.DeleteAppend | output.go:129-131 | deletion distributes over concatenation, so the order of the kept characters is preserved |
| Strings.DeleteTwice | output.go:129-131 | deleting one set of characters and then another equals deleting their union in one pass |
| Strings.DeleteNothing | output.go:129-131 | a string containing no character of the set is unchanged |
| Strings.DeleteIdempotent | output.go:129-131 | deleting a set twice equals deleting it once |
| Generate.Field.IsPointer | output.go:71-73 | true exactly when the type is non-empty and its first character is `*` |
| Generate.Struct.NoProp | output.go:66-68 | true exactly when the field map is empty and the additional type is `""` or `"false"` |
| Generate.EmptyTypeTableSentinels | output.go:88-93 | no sentinel type is itself a key of the table, and no key or sentinel is a pointer type |
| Generate.CollectKeys | output.go:11-16 | the filled array has length `len(m)` and holds every key of `m` exactly once, in some order |
| Generate.GetOrderedNames | output.go:10-30 | the result has length `len(m)`, holds exactly the keys of `m`, is strictly ascending, and equals the reference order `SortedKeys` |
| Generate.GetOrderedFieldNames | output.go:10-19 | the alias names in ascending order, as `SortedKeys` defines it |
| Generate.GetOrderedStructNames | output.go:21-30 | the struct names in ascending order, as `SortedKeys` defines it |
| Generate.ValuesAtIndex | output.go:96-113 | collecting values by a key sequence gives one value per key, the i-th under the i-th key |
| Generate.InKeyOrderIndex | output.go:96-113 | a sequence in key order has one entry per map key, the value under the i-th smallest key at position i |
| Generate.ResolveImport | output.go:47-62 | with no explicit path: the name is the registered path, the import name is `""`, and the short name is the text after the last `/` (or the whole name when it has no `/`). With an explicit path: that path is registered under the name followed by a space, and the short name is the name |
| Generate.Register | output.go:61 | the registry gains the resolved path, which maps to the import name; every other entry is unchanged |
| Generate.RegisterIdempotent | output.go:57-62 | resolving the same package twice leaves the registry as resolving it once |
| Generate.OutputData.Pkg | output.go:47-63 | returns the resolved short name and updates `ImportPaths` to the registry after this request, changing no other field |
| Generate.SubstituteType | output.go:100-104 | the rewrite of one field: `Required` is kept; an optional field whose type is in the table gets the table's sentinel; every other field is returned as it is |
| Generate.Substituted | output.go:99-106 | the field map after rewriting every field; it has exactly the old field names |
| Generate.SubstitutedFields | output.go:99-106 | substitution keeps every field name and `Required` flag. An optional field whose type has a sentinel gets that sentinel; required fields and fields of other types are unchanged |
| Generate.SubstitutedIdempotent | output.go:99-106 | when no sentinel is itself a key of the table, substituting twice equals substituting once |
| Generate.EmptyTypesIdempotent | output.go:99-106 | substituting twice with the fixed table equals substituting once |
| Generate.SubstitutionKeepsPointers | output.go:71-73 | substitution with the fixed table never changes whether a field is a pointer |
| Generate.SubstituteFields | output.go:99-106 | after the in-place loop, the field map holds exactly the substituted fields of its old contents |
| Generate.CleanPackageName | output.go:128-133 | the result contains no `.`, `_` or `-`, and equals the input with exactly those characters deleted (order of the rest kept) |
| Generate.CleanPackageNameIdempotent | output.go:128-133 | sanitizing twice equals sanitizing once |
| Generate.CleanPackageNameKeepsClean | output.go:128-133 | a name without `.`, `_` or `-` is returned unchanged |
| Generate.OutputData.constructor | output.go:80-94 | a new context: empty import registry, the given package name, structs and aliases, the fixed empty-types table, and the flag |
| Generate.AssembleStructs | output.go:96-109 | returns the structs under the given keys, in key order. With the flag set, every field map reachable from the model is rewritten in place to its substituted contents; with the flag clear, none changes |
| Generate.AssembleAliases | output.go:111-113 | returns the aliases under the given names, in that order, unchanged |
| Generate.OrderedStructs | output.go:96-109 | the structs in ascending name order and the in-place substitution, as above; no struct changes its `NoProp` answer |
| Generate.OrderedAliases | output.go:111-113 | the aliases in ascending name order |
| Generate.Output | output.go:76-113 | the fresh context has an empty registry, the sanitized package name, the fixed table and the flag, the structs and aliases of `g` in ascending name order, field maps rewritten in place exactly when `useEmptyTypes` is set, `g`'s maps of structs and aliases themselves unchanged, and every struct's `NoProp` answer kept |
| Generate.OutputTwice | output.go:76-113 | two consecutive calls on the same model give equal structs, aliases, package name, registry, table and flag, although the first call may rewrite the shared field maps; the field maps end substituted once if either call had `useEmptyTypes` set, and untouched otherwise, so a later call with the flag clear still sees the sentinel types |
| Scenarios.SortedThreeNames | output.go:10-30 | the names `b`, `a`, `c` are ordered `a`, `b`, `c` |
| Scenarios.ShortNameOfPath | output.go:50-53 | `github.com/foo/bar` with no path registers itself with no alias and has short name `bar` |
| Scenarios.ShortNameWithAlias | output.go:57-60 | `alias` with path `some/path` registers `some/path` as `alias ` and has short name `alias` |
| Scenarios.PkgTwice | output.go:47-63 | two identical `Pkg` requests return the same short name and leave `ImportPaths` as one request does |
| Scenarios.SingleInKeyOrder | output.go:96-113 | the values of a one-entry map in key order are that entry's value |
| Scenarios.SingleFieldMap | output.go:97 | a one-struct model reaches exactly that struct's field map |
| Scenarios.OneFieldSubstituted | output.go:99-106 | an optional `string` field becomes `EmptyString` |
| Scenarios.SingleStructScenario | output.go:76-113 | struct `S` with an optional `string` field `X` and alias `A` of required type `int`, with substitution on: the context holds `[S]`, whose field `X` (in the caller's model too) now has type `EmptyString`, and holds `[A]` unchanged |

## Left out

- Template execution and the write to the output stream (output.go:115-125).
  The templates are not part of this model, and writing is I/O. The
  header-then-body order is not modelled.
- `panic` on a template failure (output.go:118, 122). It terminates the
  process and depends on the template engine.
- The `OneOfs` and `Backquote` fields of `OutputData` (output.go:39-40,
  84-85). They are carried through to the templates with no logic.
- Byte order of strings. Go's `sort.Strings` compares UTF-8 bytes, while the
  model orders `seq<char>` character by character. The two orders agree on
  ASCII names.
- The other attributes of `Generator`, `Struct` and `Field` that the
  schema-parsing stage fills. Besides `g.OneOfs` (previous item), only
  `Structs`, `Aliases`, `Fields`, `AdditionalType`, `Type` and `Required`
  are read here.
- A concrete run of the sanitizer on a literal name (such as
  `my.pkg_name-1`) is not included. The general contract
  `Generate.CleanPackageName` states the result for every input.
