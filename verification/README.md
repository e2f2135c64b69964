# Skaffold manifest visitor, modelled in Dafny

This project models the YAML-manifest rewriting engine that Skaffold's
kubectl deployer uses (`pkg/skaffold/deploy/kubectl/visitor.go`). The engine
has two parts:

- `recursiveVisit` walks a parsed manifest: a tree of sequences, mappings and
  scalars. For every mapping it first runs a read-only guard pass. When the
  replacer has an `ObjMatcher` and some entry has the guard key with a value
  the matcher rejects, the whole mapping is left alone. Otherwise every entry
  goes through the replace pass. A key accepted by `Replacer.Matches` has its
  value offered to `NewValue`. The value is overwritten only when `NewValue`
  accepts, and the traversal never descends below it. Every other value is
  visited recursively.
- `ManifestList.Visit` reads each manifest of a list in order and skips
  manifests that read as an empty mapping. It visits each tree, marshals it
  back and collects the results. At the first read or marshal failure it
  returns an error and no list.

Files:

- `wrappers.dfy` (`Wrappers`): `Option` and `Result`.
- `yaml.dfy` (`Yaml`): the tree. A node is `Scalar`, `Sequence` or `Mapping`.
  A mapping is a sequence of `Entry(key, value)`. `WellFormed` says that
  every mapping has unique keys, as a Go map does (float NaN keys aside, see "Left out").
- `replacer.dfy` (`Replacers`): the `Replacer` interface and its `Matcher`
  guard, as records of pure functions, plus the guard-pass predicates.
- `visitor.dfy` (`TreeVisitor`): `Visit`, the meaning of `recursiveVisit` as
  a function. `RecursiveVisit` is the loop-based traversal, proved equal to
  `Visit`. The lemmas state the traversal's properties.
- `manifest_list.dfy` (`ManifestList`): `VisitManifest` (one manifest) and
  `Collect` (the fold over the list). The `Visit` method is the loop with
  early returns, proved equal to `VisitAll`. The lemmas cover fail-fast,
  the dropping of empty manifests and order preservation.

The YAML library is a `Codec` parameter with two functions. `unmarshal` reads
a manifest into its top-level mapping or fails. `marshal` writes a tree back
or fails. `VisitAll` folds the per-manifest steps with `Collect`: for
every list `l`, `Steps(l, r, c)[i]` is `VisitManifest(l[i], r, c)`. So the
list lemmas, which are stated over steps, speak about the manifests.

Errors carry no document index: visitor.go:40 and 51 wrap the library error
with a fixed message, so `VisitError` is `ReadError` or `MarshalError`.
`FailFast` identifies the first failing manifest.

The `Replacer` interface (visitor.go:25-31) is the `Replacers.Replacer`
datatype: its fields `matches`, `newValue` and `objMatcher` are the
interface's three methods. The optional `Matcher` datatype holds the guard's
`isMatchKey` and `matches`.

## Model

| member | source | states |
|---|---|---|
| TreeVisitor.Visit | pkg/skaffold/deploy/kubectl/visitor.go:60-91 | A scalar comes back unchanged (the type switch has no default case). A sequence keeps its length, and its scalar elements are never replaced. A mapping stays a mapping with exactly the same keys in the same places. |
| TreeVisitor.VisitEntries | pkg/skaffold/deploy/kubectl/visitor.go:79-89 | The replace pass over a mapping never changes, adds or removes a key. |
| TreeVisitor.VisitEntry | pkg/skaffold/deploy/kubectl/visitor.go:80-88 | Rewriting one entry keeps its key; only the value may change (`t[k] = newValue`). |
| TreeVisitor.RecursiveVisit | pkg/skaffold/deploy/kubectl/visitor.go:60-91 | The traversal as the code runs it equals `Visit` on every input. The sequence loop visits elements in position order. The guard loop returns at the first vetoing entry. The replace loop overwrites a matched value only when NewValue accepts and otherwise recurses. |
| Replacers.GuardVetoesByPresence | pkg/skaffold/deploy/kubectl/visitor.go:71-77 | The guard pass (`GuardVetoes`: an ObjMatcher is present and some entry has the guard key with a value the matcher rejects) decides a mapping by which entries it holds alone: two mappings holding the same entries, in any order and with any repetition, get the same decision. |
| Replacers.FirstVeto | pkg/skaffold/deploy/kubectl/visitor.go:72-76 | When the guard vetoes there is a first vetoing entry, with every earlier entry passing. That the guard loop of `RecursiveVisit` returns there is carried by its loop invariant (no earlier entry vetoes) and its early return, not by this lemma. |
| TreeVisitor.GuardDecidesMapping | pkg/skaffold/deploy/kubectl/visitor.go:71-79 | States the Mapping case of `Visit` as a lemma (it follows from the definitions alone): a vetoed mapping comes back exactly as it was, nested values under non-guard keys included; an unvetoed mapping has every entry go through the replace pass; without an ObjMatcher there is never a veto. |
| TreeVisitor.MatchedValueNotDescended | pkg/skaffold/deploy/kubectl/visitor.go:81-85 | For a matching key the result depends only on NewValue of the whole value: two replacers that agree there give the same entry, whatever they do with keys nested inside. A declined NewValue leaves the value untouched. |
| TreeVisitor.InertReplacerIsIdentity | pkg/skaffold/deploy/kubectl/visitor.go:79-89 | A replacer that matches no key, or whose NewValue never accepts, leaves every tree unchanged at every depth. |
| TreeVisitor.VisitIdempotent | pkg/skaffold/deploy/kubectl/visitor.go:60-91 | If NewValue is stable on its own output, visiting an already visited tree gives the same tree, whatever the guard. |
| TreeVisitor.VisitPreservesWellFormed | pkg/skaffold/deploy/kubectl/visitor.go:79-85 | If NewValue only produces well-formed trees, a visit keeps every mapping's keys unique. |
| TreeVisitor.EntryOrderIrrelevant | pkg/skaffold/deploy/kubectl/visitor.go:72-89 | Reordering a mapping's entries changes neither the guard's decision nor the multiset of visited entries. Go's random map iteration order cannot change the outcome. |
| TreeVisitor.DeepMatchReplaced | pkg/skaffold/deploy/kubectl/visitor.go:62-87 | A matching key four levels down (sequence, mapping, sequence, mapping) is found and its value replaced. The scalar beside it in each sequence and a non-matching scalar entry beside it are unchanged. This holds with or without a guard, provided no entry vetoes. |
| ManifestList.VisitManifest | pkg/skaffold/deploy/kubectl/visitor.go:38-54 | A manifest is skipped exactly when it reads as an empty mapping. It fails with a read error exactly when reading fails. It fails with a marshal error exactly when it reads as a non-empty mapping whose visited tree cannot be marshalled. When it produces output, that output is the marshalling of the visited tree. |
| ManifestList.VisitAll | pkg/skaffold/deploy/kubectl/visitor.go:34-58 | Visiting a list fails exactly when some manifest fails. On success it yields at most one manifest per input. |
| ManifestList.Collect | pkg/skaffold/deploy/kubectl/visitor.go:37-57 | A successful visit never yields more manifests than it was given. |
| ManifestList.Visit | pkg/skaffold/deploy/kubectl/visitor.go:34-58 | The loop with its early returns gives exactly `VisitAll`: the first failure, or the rewritten non-empty manifests in order. |
| ManifestList.FailFast | pkg/skaffold/deploy/kubectl/visitor.go:37-55 | The list fails exactly when some manifest fails, and then with the error of the first failing manifest. |
| ManifestList.EmitIndicesSound | pkg/skaffold/deploy/kubectl/visitor.go:43-54 | Every position listed as producing output holds a manifest that was read, was not empty and was marshalled. |
| ManifestList.EmitIndicesIncreasing | pkg/skaffold/deploy/kubectl/visitor.go:37-54 | The producing positions are strictly increasing, so relative order is kept. |
| ManifestList.EmitIndicesComplete | pkg/skaffold/deploy/kubectl/visitor.go:43-54 | Every manifest that produces output is listed among the producing positions. |
| ManifestList.OnlyEmptyDropped | pkg/skaffold/deploy/kubectl/visitor.go:43-54 | On a successful visit of a list, a manifest produces output exactly when it does not read as an empty mapping: only empty manifests are dropped. |
| ManifestList.OutputIsOrderedSelection | pkg/skaffold/deploy/kubectl/visitor.go:37-57 | On success, output k is the rewritten form of the k-th producing manifest, so the output holds exactly those manifests in list order. |
| ManifestList.InertReplacerRoundTrip | pkg/skaffold/deploy/kubectl/visitor.go:43-52 | With a replacer that changes nothing, a non-empty manifest is written back as the marshalling of what was read. |

## Left out

- The YAML library (`yaml.Unmarshal`, `yaml.Marshal`) is not modelled. It is a parameter whose two functions may fail. Its parse/print round trip and its key sorting are not part of this model.
- The messages that `errors.Wrap` attaches (visitor.go:40, 51) are not modelled. Only the kind of error is kept.
- Concrete `Replacer` and `Matcher` implementations live elsewhere in the program and are not part of this model. They are arbitrary pure functions here. `ObjMatcher()` is read once per call as a field, which assumes every call returns the same matcher.
- The `ManifestList` type declaration is not part of this model. It is a sequence of byte strings here.
- In-place update and sharing are not modelled. The code overwrites values inside shared Go maps and slices. The model builds the rewritten tree as a new value instead. The two agree as long as no two places in a tree share one map or slice. Such sharing could only come from a `NewValue` that returns part of the tree itself.
- Go's map iteration order is not modelled. Mapping entries are kept in a fixed order, and `EntryOrderIrrelevant` shows that order cannot affect the result.
- Go's scalar types are reduced to five kinds (string, integer, float, boolean, null), each with its text. So the int `1` and the string `"1"` stay distinct keys and values for the replacer and for key uniqueness. Scalars of the same kind with the same text are treated as equal: for example, two float spellings of one number, or integer widths that Go would distinguish, are compared by text. The traversal never looks inside a scalar.
- A float NaN key is unequal to itself in Go, so `t[k] = newValue` (visitor.go:84) on a matched NaN key adds a second entry instead of overwriting the first, and the range at visitor.go:79 may or may not visit the added entry. The model overwrites the slot. So key preservation (`Visit`, `VisitEntries`), unique keys (`VisitPreservesWellFormed`) and order independence (`EntryOrderIrrelevant`) hold in the code only for keys that are equal to themselves.
- `pkg/skaffold/constants/constants.go` is static configuration with no behaviour to verify.
