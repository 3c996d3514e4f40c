# Emera Component Manager, modelled in Dafny

The Emera Component Manager (ECM) is a small dependency manager that lives inside an
Obsidian vault. It keeps a forest of component records
(`{name, version, manifest, source, filePath, protected, requires: [record]}`) in the
frontmatter of `manifest.md`. It downloads each component's source into
`${dir}/${name}.jsx` and regenerates `${dir}/index.js` with one `export` line per
component. The repository holds two forks of the manager:

- `pkg.elk.wtf/ecm/ECM.jsx`, the later fork. Its dependency check fetches the
  requirement's descriptor. Its manifest update merges by name. It adds update checks
  and upgrades.
- `pkg.elk.wtf/ecm/ECM/ECM.jsx`, the earlier fork. Its dependency check is a plain name
  search. Its manifest update replaces the stored list wholesale. Its install reports
  errors instead of throwing them.

The model covers the following:

- **Values.** Version strings, records and descriptors are values: datatypes and
  functions.
- **Networking.** `fetch` is a `Web` value. It maps a URL to the parsed JSON descriptor
  and to the text body. A URL missing from a map is a rejected fetch.
- **The vault.** It is a map from path to text. `create` refuses an existing path.
  `modify` and `trash` refuse a missing file.
- **The manifest's `components` field.** It is an `Option` of a list whose entries may
  be null.
- **State.** Each fork's React state and host state form a `Manager` class. Its fields
  are the directory, the network, the shown list, the vault files, the stored field and
  the error message. Its methods (`AddComponent`, `UpdateManifest`, `CheckUpdates`, …)
  carry out the source's loops and recursive calls step by step. Each method is proved
  equal to a module-level function (`Add`, `Merge`, `Updates`, …). The lemmas are
  stated about those functions.

Modules:

- `Base` has JavaScript's absent values, results-or-throws, errors, and `split` and
  `join` on one separator.
- `Semver` has `validateSemver`, `readSemver`, `isUpgrade` and `satisfies`.
- `Model` has records, descriptors, paths, the load filter, the delete filter and
  `find` by name.
- `Exports` has the `addExports` walk and the index text. Both forks share it.
- `LaterEcm` and `EarlierEcm` hold the two forks.

Where the code and its description disagree, the model follows the code:

- `protected` is honoured only by the UI withholding the Delete link.
  `deleteComponent` never reads it: `DeleteComponent`'s contract does not mention it.
- `isUpgrade` and `satisfies` compare the raw field strings. `isUpgrade` uses JS string
  `>`, so `1.10.0` is not an upgrade of `1.9.0`. `2.0.0 → 1.5.0` counts as an upgrade,
  because each field is judged on its own (`Semver.UpgradeAnomalies`).
- `isNaN` accepts an empty field, so `"1..3"` is a valid version
  (`Semver.EmptyIsNumeric`).
- In the later fork, `checkDependency` throws rather than returning `false` in two
  cases. It throws when nothing installed has or lists the name. It also throws when a
  record without `requires` comes before the match.
- In the later fork, the merge never adds or removes a name. A newly added component
  therefore never reaches the manifest: its file and index line are written, but the
  reload drops it. A deleted component stays in the manifest and comes back on reload.
  A fresh manifest (`components:` is null) makes the merge throw.
- In the earlier fork, an install that gave up makes the Add button store a null
  entry. The index rebuild then throws at that null, and the list is not reloaded.

## Model

| member | source | states |
|---|---|---|
| Base.Split | pkg.elk.wtf/ecm/ECM.jsx:38 | `split` on one character always yields at least one piece |
| Base.SplitJoin | pkg.elk.wtf/ecm/ECM.jsx:38 | no piece holds the separator, and joining the pieces gives the string back |
| Base.JoinSplit | pkg.elk.wtf/ecm/ECM.jsx:183-187 | joining separator-free pieces and splitting again gives the pieces back |
| Semver.ValidateSemver | pkg.elk.wtf/ecm/ECM.jsx:37-42 | it throws only "Invalid version format", and a version it accepts has at least three dot-separated pieces; which pieces pass is stated by `ReadSemverSpells`, `ReadSemverOf` and the field lemmas below |
| Semver.ReadSemver | pkg.elk.wtf/ecm/ECM.jsx:44-48 | a successful read yields three fields that each pass `isNaN`; the only error is "Invalid version format" |
| Semver.ReadSemverSpells | pkg.elk.wtf/ecm/ECM.jsx:44-48 | the fields read are dot-free, and the version is exactly major.minor.patch, optionally followed by "." and more |
| Semver.ReadSemverOf | pkg.elk.wtf/ecm/ECM.jsx:37-48 | converse: a version that starts with three dot-free numeric fields reads back as exactly those fields |
| Semver.ReadSemverDigits | pkg.elk.wtf/ecm/ECM.jsx:37-48 | three digit strings joined by dots read back unchanged |
| Semver.ReadSemverLetter | pkg.elk.wtf/ecm/ECM.jsx:37-42 | "1.a.3" throws "Invalid version format" |
| Semver.ReadSemverTwoFields | pkg.elk.wtf/ecm/ECM.jsx:37-42 | "1.2" throws, because the missing patch is undefined |
| Semver.ReadSemverOneTwoThree | pkg.elk.wtf/ecm/ECM.jsx:44-48 | "1.2.3" reads as ("1", "2", "3") |
| Semver.DigitsAreNumeric | pkg.elk.wtf/ecm/ECM.jsx:39 | every non-empty digit string passes `isNaN` |
| Semver.EmptyIsNumeric | pkg.elk.wtf/ecm/ECM.jsx:39 | the empty field converts to 0 and passes |
| Semver.MissingFieldIsNaN | pkg.elk.wtf/ecm/ECM.jsx:38-39 | a missing destructured field is NaN |
| Semver.ForeignCharIsNaN | pkg.elk.wtf/ecm/ECM.jsx:39 | a field holding a character outside the numeric-literal alphabet is NaN |
| Semver.LetterAIsNaN | pkg.elk.wtf/ecm/ECM.jsx:39 | "a" is NaN, although 'a' can occur in a hexadecimal literal |
| Semver.TrimStartGone | pkg.elk.wtf/ecm/ECM.jsx:39 | trimming leading whitespace keeps every non-space character |
| Semver.TrimEndGone | pkg.elk.wtf/ecm/ECM.jsx:39 | trimming trailing whitespace keeps every non-space character |
| Semver.StringLessIrreflexive | pkg.elk.wtf/ecm/ECM.jsx:54-56 | string `<` is irreflexive |
| Semver.StringLessTotal | pkg.elk.wtf/ecm/ECM.jsx:54-56 | any two different strings are ordered one way or the other |
| Semver.StringLessAsymmetric | pkg.elk.wtf/ecm/ECM.jsx:54-56 | string `<` is asymmetric |
| Semver.StringLessTransitive | pkg.elk.wtf/ecm/ECM.jsx:54-56 | string `<` is transitive |
| Semver.TenBeforeNine | pkg.elk.wtf/ecm/ECM.jsx:54-56 | fields compare as text: "10" < "9" |
| Semver.IsUpgrade | pkg.elk.wtf/ecm/ECM.jsx:50-59 | it throws exactly when either version is malformed, and only "Invalid version format"; its result is characterised by `NotUpgradeIffNoFieldGrows` |
| Semver.IsUpgradeIrreflexive | pkg.elk.wtf/ecm/ECM.jsx:50-59 | a valid version is never an upgrade of itself |
| Semver.NotUpgradeIffNoFieldGrows | pkg.elk.wtf/ecm/ECM.jsx:50-59 | both directions: not an upgrade exactly when no field of `latest` is a greater string than the same field of `current`, each field judged on its own |
| Semver.UpgradeAnomalies | pkg.elk.wtf/ecm/ECM.jsx:50-59 | 1.10.0 is not an upgrade of 1.9.0, while 1.5.0 is an upgrade of 2.0.0 |
| Semver.VersionExamples | pkg.elk.wtf/ecm/ECM.jsx:50-69 | worked examples of `isUpgrade` and `satisfies` on ordinary versions |
| Semver.Satisfies | pkg.elk.wtf/ecm/ECM.jsx:61-69 | it throws exactly when either version is malformed, and only "Invalid version format"; its result is characterised by `SatisfiesIff` |
| Semver.SatisfiesIff | pkg.elk.wtf/ecm/ECM.jsx:61-69 | it throws exactly when a version is malformed; otherwise it is true exactly when major and minor strings are equal |
| Semver.SatisfiesIgnoresPatch | pkg.elk.wtf/ecm/ECM.jsx:61-69 | the patch field never affects the result |
| Semver.SatisfiesEquivalence | pkg.elk.wtf/ecm/ECM.jsx:61-69 | `satisfies` is reflexive, symmetric and transitive on valid versions |
| Semver.CompatibleUpgradeIsPatch | pkg.elk.wtf/ecm/ECM.jsx:50-69 | a compatible upgrade differs only by a greater patch string |
| Model.Loaded | pkg.elk.wtf/ecm/ECM.jsx:225-231 | `loadManifest` shows exactly the non-null stored records (none for a null field); their order is fixed by `CompactAppend` |
| Model.Compact | pkg.elk.wtf/ecm/ECM.jsx:229 | dropping nulls keeps exactly the present records |
| Model.CompactAppend | pkg.elk.wtf/ecm/ECM.jsx:242 | dropping nulls keeps order: it distributes over concatenation |
| Model.CompactPresent | pkg.elk.wtf/ecm/ECM.jsx:229 | a list without nulls loads back unchanged |
| Model.FirstNamed | pkg.elk.wtf/ecm/ECM.jsx:361 | `find` by name gives the first record of that name, and nothing exactly when no record has it |
| Model.Without | pkg.elk.wtf/ecm/ECM.jsx:345 | the delete filter keeps exactly the records with another name |
| Model.WithoutAppend | pkg.elk.wtf/ecm/ECM/ECM.jsx:223 | the filter keeps relative order: it distributes over concatenation |
| Model.WithoutAbsent | pkg.elk.wtf/ecm/ECM/ECM.jsx:223 | with no record of that name, nothing is removed |
| Model.WithoutIdempotent | pkg.elk.wtf/ecm/ECM/ECM.jsx:223 | deleting twice is deleting once |
| Model.WithoutLength | pkg.elk.wtf/ecm/ECM/ECM.jsx:223 | every record of the name goes, not only the first |
| Exports.Visit | pkg.elk.wtf/ecm/ECM.jsx:159-174 | the recursive `addExports` walk; its contract is carried by `VisitExtends`, `VisitSubseq` and `VisitDistinct` |
| Exports.VisitFrom | pkg.elk.wtf/ecm/ECM.jsx:168-173 | the walk's loop over a record's requirements; its contract is carried by `VisitFromExtends`, `VisitFromSubseq` and `VisitFromDistinct` |
| Exports.VisitList | pkg.elk.wtf/ecm/ECM.jsx:176-179 | the top-level loop; its contract is carried by `VisitListExtends`, `VisitListSubseq` and `VisitListDistinct` |
| Exports.Flatten | pkg.elk.wtf/ecm/ECM.jsx:157-181 | the names `updateIndex` collects; its contract is carried by `FlattenSound`, `FlattenPreorder`, `FlattenFirstOccurrence` and `FlattenDistinct` |
| Exports.VisitExtends | pkg.elk.wtf/ecm/ECM.jsx:159-174 | `Visit`, the walk: it only appends, never collects a name twice, collects only names of the subtree, and always includes the record's own name |
| Exports.VisitFromExtends | pkg.elk.wtf/ecm/ECM.jsx:168-173 | the same for the loop over a record's requirements |
| Exports.VisitListExtends | pkg.elk.wtf/ecm/ECM.jsx:176-179 | the same for the top-level loop, which collects each present top-level name |
| Exports.FlattenSound | pkg.elk.wtf/ecm/ECM.jsx:157-181 | the export list has no duplicates, holds only names from the records, and holds every present top-level name |
| Exports.VisitSubseq | pkg.elk.wtf/ecm/ECM.jsx:159-174 | for every record and every list collected so far, the walk appends a subsequence of the subtree's preorder, repeats included |
| Exports.VisitFromSubseq | pkg.elk.wtf/ecm/ECM.jsx:168-173 | the same for the requirement loop |
| Exports.VisitListSubseq | pkg.elk.wtf/ecm/ECM.jsx:176-179 | the same for the top-level loop |
| Exports.FlattenPreorder | pkg.elk.wtf/ecm/ECM.jsx:157-181 | for every list of records, repeated names included, the export list is a subsequence of the depth-first preorder (names are dropped, never reordered) and has no repeats |
| Exports.VisitDistinct | pkg.elk.wtf/ecm/ECM.jsx:159-174 | with no repeated name, the walk is plain preorder |
| Exports.VisitFromDistinct | pkg.elk.wtf/ecm/ECM.jsx:168-173 | the same for the requirement loop |
| Exports.VisitListDistinct | pkg.elk.wtf/ecm/ECM.jsx:176-179 | the same for the top-level loop |
| Exports.FlattenDistinct | pkg.elk.wtf/ecm/ECM.jsx:157-181 | with no repeated name, the export list is the DFS preorder: top-level entries in order, each followed by its requirements in order |
| Exports.VisitDedup | pkg.elk.wtf/ecm/ECM.jsx:159-174 | when same-named records carry the same tree, and every collected name off the current path has its whole tree collected, the walk appends each new name of the subtree's preorder at its first occurrence, and keeps that closure |
| Exports.VisitFromDedup | pkg.elk.wtf/ecm/ECM.jsx:168-173 | the same for the requirement loop |
| Exports.VisitListDedup | pkg.elk.wtf/ecm/ECM.jsx:176-179 | the same for the top-level loop |
| Exports.FlattenFirstOccurrence | pkg.elk.wtf/ecm/ECM.jsx:157-181 | when same-named records carry the same requirement tree, the export list is the depth-first preorder with each repeated name kept only at its first occurrence (`DedupFrom`); `RepeatedSubtreeSkippedExample` shows the premise is needed |
| Exports.SharedRequirementExample | pkg.elk.wtf/ecm/ECM.jsx:157-181 | [A[B,C], D[B]] exports A, B, C, D |
| Exports.RepeatedSubtreeSkippedExample | pkg.elk.wtf/ecm/ECM.jsx:161-164 | a repeated name's subtree is not entered: [A[B], X[A[C]]] exports A, B, X |
| Exports.IndexText | pkg.elk.wtf/ecm/ECM.jsx:183-187 | the index text; its contract is carried by `IndexTextLines` |
| Exports.IndexTextLines | pkg.elk.wtf/ecm/ECM.jsx:183-187 | the index text, cut at line breaks, is exactly those lines; with no names it is empty |
| LaterEcm.FindRequirement | pkg.elk.wtf/ecm/ECM.jsx:102 | the inner `find` gives a listed entry of that name, gives nothing exactly when every entry is present and none has the name, and throws only TypeError; `FindRequirementAt` fixes which entry and where it throws |
| LaterEcm.FindRequirementAt | pkg.elk.wtf/ecm/ECM.jsx:102 | when every entry before position i is present with another name, a null at i makes the `find` throw, and a match at i is the result: the first match wins, and a null after it is never reached |
| LaterEcm.FindHolder | pkg.elk.wtf/ecm/ECM.jsx:101-103 | the outer `find` gives a record that has or lists the name, gives nothing exactly when no record does and none lacks `requires`, and throws only TypeError; `FindHolderAt` fixes which record and where it throws |
| LaterEcm.FindHolderAt | pkg.elk.wtf/ecm/ECM.jsx:101-103 | when every record before position i is passed over, a record at i without `requires` (or with a null requirement reached first) makes the `find` throw, and otherwise a record at i that has or lists the name is the result |
| LaterEcm.CheckDependency | pkg.elk.wtf/ecm/ECM.jsx:93-124 | `checkDependency`; its contract is carried by `CheckDependencyTrue`, `CheckDependencyUnknownThrows`, `CheckDependencySelfIsFalse`, `CheckDependencyAbsentRequiresThrows` and `CheckDependencyEmptyThrows` |
| LaterEcm.CheckDependencyTrue | pkg.elk.wtf/ecm/ECM.jsx:93-124 | `true` only when some record lists a direct requirement of that name whose version satisfies the listing record's own version |
| LaterEcm.CheckDependencyUnknownThrows | pkg.elk.wtf/ecm/ECM.jsx:101-108 | a name that nothing has or lists makes the check throw TypeError (line 104 reads `requires` of undefined) |
| LaterEcm.CheckDependencyEmptyThrows | pkg.elk.wtf/ecm/ECM.jsx:93-108 | with nothing installed, the check throws: a network error or TypeError |
| LaterEcm.CheckDependencySelfIsFalse | pkg.elk.wtf/ecm/ECM.jsx:101-108 | a first record that has the name itself, but does not list it, yields `false` |
| LaterEcm.CheckDependencyAbsentRequiresThrows | pkg.elk.wtf/ecm/ECM.jsx:101-103 | a record without `requires` at any position, with every record before it passed over, makes the check throw TypeError |
| LaterEcm.Merge | pkg.elk.wtf/ecm/ECM.jsx:242-247 | the frontmatter merge; its contract is carried by `MergeShape`, `MergeKeepsNames`, `MergeIdempotent`, `MergeDropsNewName` and `MergeKeepsDeleted` |
| LaterEcm.MergeShape | pkg.elk.wtf/ecm/ECM.jsx:242-247 | a null field throws. Otherwise the non-null stored records are kept one for one, in order and with the same names. Each is replaced by the first updated record of its name when there is one, and is otherwise unchanged |
| LaterEcm.MergeKeepsNames | pkg.elk.wtf/ecm/ECM.jsx:242-247 | the merged names are exactly the stored names: none added, none removed |
| LaterEcm.MergeIdempotent | pkg.elk.wtf/ecm/ECM.jsx:242-247 | merging the merged list again with the same records changes nothing |
| LaterEcm.MergeDropsNewName | pkg.elk.wtf/ecm/ECM.jsx:242-247 | a record whose name was never stored is not persisted, whatever list is passed |
| LaterEcm.MergeKeepsDeleted | pkg.elk.wtf/ecm/ECM.jsx:345-349 | after a delete, the stored records of the deleted name are kept exactly as they were |
| LaterEcm.Probe | pkg.elk.wtf/ecm/ECM.jsx:263-277 | one turn of the `checkUpdates` loop; its contract is carried by `UpdatesOkIff` and `UpdatesExactly` |
| LaterEcm.Updates | pkg.elk.wtf/ecm/ECM.jsx:258-283 | `checkUpdates` returns at most one descriptor per record; its contents, order and errors are stated by `UpdatesExactly`, `UpdatesAppend`, `UpdatesOkIff` and `UpdatesErrPrefix` |
| LaterEcm.UpdatesErrPrefix | pkg.elk.wtf/ecm/ECM.jsx:262-278 | once a record's turn throws, `checkUpdates` throws that error |
| LaterEcm.UpdatesAppend | pkg.elk.wtf/ecm/ECM.jsx:262-278 | the check over two lists in a row is the first list's error, else the second's, else the two results one after the other (this fixes the order) |
| LaterEcm.UpdatesOkIff | pkg.elk.wtf/ecm/ECM.jsx:262-278 | it succeeds exactly when every descriptor fetches and, where it has a version, both versions are valid |
| LaterEcm.UpdatesExactly | pkg.elk.wtf/ecm/ECM.jsx:262-282 | the result holds exactly the remote descriptors that carry a version which `isUpgrade` accepts over the installed one |
| LaterEcm.UpdatesIgnoresRequirements | pkg.elk.wtf/ecm/ECM.jsx:262-278 | only the top-level records' `manifest` and `version` matter; nested requirements never do |
| LaterEcm.FlagUpdates | pkg.elk.wtf/ecm/ECM.jsx:457-462 | the flag map; its contract is carried by `FlagUpdatesSpec` and `FlagUpdatesIdempotent` |
| LaterEcm.FlagUpdatesSpec | pkg.elk.wtf/ecm/ECM.jsx:457-462 | the flag map keeps every record in place with all other fields unchanged; a record is flagged exactly when it was before or a returned descriptor has its name |
| LaterEcm.FlagUpdatesIdempotent | pkg.elk.wtf/ecm/ECM.jsx:457-462 | flagging twice is flagging once |
| LaterEcm.FlagAfterCheck | pkg.elk.wtf/ecm/ECM.jsx:453-464 | a record whose own-named descriptor offers an upgrade is flagged after the check |
| LaterEcm.Add | pkg.elk.wtf/ecm/ECM.jsx:290-331 | `addComponent`; its contract is carried by `AddKeeps`, `AddInvalidWritesNothing`, `AddCreatesFile`, `AddManifest`, `AddRequirementsInOrder`, `AddSatisfied` and `AddFuel` |
| LaterEcm.AddRequirements | pkg.elk.wtf/ecm/ECM.jsx:302-309 | the requirement loop; its contract is carried by `AddRequirementsKeeps`, `AddRequirementsOrder`, `AddRequirementsAllPresent` and `AddRequirementsFuel` |
| LaterEcm.AddKeeps | pkg.elk.wtf/ecm/ECM.jsx:290-331 | an install never removes or overwrites an existing file, whether it succeeds or throws |
| LaterEcm.AddRequirementsKeeps | pkg.elk.wtf/ecm/ECM.jsx:302-309 | the same for the requirement loop |
| LaterEcm.AddInvalidWritesNothing | pkg.elk.wtf/ecm/ECM.jsx:292-298 | a descriptor missing name, version or source throws "Invalid manifest format" before any file is written |
| LaterEcm.AddCreatesFile | pkg.elk.wtf/ecm/ECM.jsx:311-326 | on success the record has the descriptor's name, version and source, `manifest` = the URL and `filePath` = dir/name.jsx, and its `requires` is a list with no null entry. That file did not exist before and now holds the fetched text |
| LaterEcm.AddManifest | pkg.elk.wtf/ecm/ECM.jsx:321-326 | a returned record's `manifest` is the URL it was installed from |
| LaterEcm.AddRequirementsOrder | pkg.elk.wtf/ecm/ECM.jsx:302-309 | the loop pushes one record per requirement not reported present, in descriptor order, each from its manifest |
| LaterEcm.AddRequirementsOrderInstalled | pkg.elk.wtf/ecm/ECM.jsx:307-308 | the same for the turn that installs a requirement |
| LaterEcm.AddRequirementsInOrder | pkg.elk.wtf/ecm/ECM.jsx:300-326 | a successful install's `requires` holds no null entry and is exactly the unsatisfied requirements, installed in descriptor order |
| LaterEcm.AddRequirementsAllPresent | pkg.elk.wtf/ecm/ECM.jsx:302-305 | when every remaining requirement is reported present, the loop pushes nothing and writes nothing |
| LaterEcm.AddSatisfied | pkg.elk.wtf/ecm/ECM.jsx:290-331 | when every requirement of a valid descriptor is reported present, none is installed again: a successful install writes only its own file, with the fetched text, and records no requirements, and a failed one writes nothing |
| LaterEcm.AddFuel | pkg.elk.wtf/ecm/ECM.jsx:290-331 | once the recursion fits in the fuel, more fuel changes nothing |
| LaterEcm.AddRequirementsFuel | pkg.elk.wtf/ecm/ECM.jsx:302-309 | the same for the requirement loop |
| LaterEcm.Upgrade | pkg.elk.wtf/ecm/ECM.jsx:360-429 | `updateComponent` without its requirement loop; its contract is carried by `UpgradeQuietCases`, `UpgradeResult` and `UpgradeSettles` |
| LaterEcm.UpgradeQuietCases | pkg.elk.wtf/ecm/ECM.jsx:360-379 | no record of that name, a descriptor without version, or a version that is not an upgrade: returns undefined and writes nothing |
| LaterEcm.UpgradeResult | pkg.elk.wtf/ecm/ECM.jsx:368-428 | an upgrade returns the first record of that name with the remote version and no update flag, all else unchanged. That version is an upgrade, and only that record's file is rewritten, with the fetched text |
| LaterEcm.ReplaceNamed | pkg.elk.wtf/ecm/ECM.jsx:525-527 | the Update link's map keeps the length |
| LaterEcm.ReplaceNamedKeepsOthers | pkg.elk.wtf/ecm/ECM.jsx:525-527 | replacing by a record of the same name keeps every name in place and every other record untouched; a later `find` by that name gives the replacement exactly when the name was present |
| LaterEcm.UpgradeSettles | pkg.elk.wtf/ecm/ECM.jsx:376-428 | once the upgraded record replaces the old one, a second upgrade does nothing |
| LaterEcm.AddExports | pkg.elk.wtf/ecm/ECM.jsx:159-174 | the recursive closure collects exactly the names of `Exports.Visit` |
| LaterEcm.CollectExports | pkg.elk.wtf/ecm/ECM.jsx:157-179 | the top-level loop collects exactly `Exports.Flatten` of the list |
| LaterEcm.Manager.constructor | pkg.elk.wtf/ecm/ECM.jsx:225-231 | mounting shows the stored records with nulls dropped |
| LaterEcm.Manager.UpdateIndex | pkg.elk.wtf/ecm/ECM.jsx:150-195 | the index file is set to the export text of the given records; nothing else changes |
| LaterEcm.Manager.UpdateManifest | pkg.elk.wtf/ecm/ECM.jsx:239-252 | a null stored field throws with nothing written. Otherwise the merge is stored, the index is rewritten from the given list, and the shown list becomes the merged list |
| LaterEcm.Manager.CheckUpdates | pkg.elk.wtf/ecm/ECM.jsx:258-283 | the loop returns `Updates` of the shown list |
| LaterEcm.Manager.CheckForUpdatesClicked | pkg.elk.wtf/ecm/ECM.jsx:453-465 | on success the shown list is flagged with the returned descriptors; a throwing check changes nothing |
| LaterEcm.Manager.AddComponent | pkg.elk.wtf/ecm/ECM.jsx:290-331 | the recursive install yields `Add`'s result and vault |
| LaterEcm.Manager.AddClicked | pkg.elk.wtf/ecm/ECM.jsx:485-501 | install, then merge the old list plus the new record. A throw from either leaves its message, and the files written stay |
| LaterEcm.Manager.DeleteComponent | pkg.elk.wtf/ecm/ECM.jsx:339-353 | a missing file changes nothing. Otherwise the file is trashed, the list is filtered and the merge is stored; a throwing merge leaves the file trashed and the list filtered. `protected` is never read |
| LaterEcm.Manager.UpdateComponent | pkg.elk.wtf/ecm/ECM.jsx:360-429 | the upgrade yields `Upgrade`'s result and vault |
| EarlierEcm.SomeNamed | pkg.elk.wtf/ecm/ECM/ECM.jsx:29 | `some` over a requirement list: true only for a listed name, false exactly when all entries are present and none has the name, and a throw only where there is a null entry; `SomeNamedAt` fixes where it stops |
| EarlierEcm.SomeNamedAt | pkg.elk.wtf/ecm/ECM/ECM.jsx:29 | when every entry before position i is present with another name, a null at i makes the inner `some` throw, and a match at i gives `true`, whatever follows |
| EarlierEcm.CheckDependency | pkg.elk.wtf/ecm/ECM/ECM.jsx:24-33 | the only error is TypeError |
| EarlierEcm.CheckDependencyAt | pkg.elk.wtf/ecm/ECM/ECM.jsx:26-30 | when every record before position i is passed over, the check stops at i: `true` when that record has the name, otherwise what its inner `some` gives (`true`, or the throw of a null requirement reached first) |
| EarlierEcm.CheckDependencyIff | pkg.elk.wtf/ecm/ECM/ECM.jsx:24-33 | true only for a name some record has or directly lists; with no null requirement, exactly for those names, one level deep |
| EarlierEcm.GrandchildNotFound | pkg.elk.wtf/ecm/ECM/ECM.jsx:26-30 | a name two levels down is not found |
| EarlierEcm.Index | pkg.elk.wtf/ecm/ECM/ECM.jsx:59-103 | what `updateIndex` collects; its contract is carried by `CollectExports`, `NullAppendedBreaksIndex` and `PresentIndexes` |
| EarlierEcm.AddExports | pkg.elk.wtf/ecm/ECM/ECM.jsx:68-82 | the recursive closure collects exactly `Exports.Visit`'s names |
| EarlierEcm.CollectExports | pkg.elk.wtf/ecm/ECM/ECM.jsx:66-87 | the top-level loop throws at a null record, and otherwise collects `Exports.Flatten` |
| EarlierEcm.NullAppendedBreaksIndex | pkg.elk.wtf/ecm/ECM/ECM.jsx:253-255 | the old list plus a null makes the index throw, while a reload would show the old list |
| EarlierEcm.PresentIndexes | pkg.elk.wtf/ecm/ECM/ECM.jsx:84-87 | a list without nulls always indexes |
| EarlierEcm.Add | pkg.elk.wtf/ecm/ECM/ECM.jsx:161-209 | `addComponent`; its contract is carried by `AddNeverThrows`, `AddInvalidRecords`, `AddKeeps`, `AddCreatesFile`, `AddManifest`, `AddRequirementsInOrder` and `AddSatisfied` |
| EarlierEcm.AddRequirements | pkg.elk.wtf/ecm/ECM/ECM.jsx:175-184 | the requirement loop; its contract is carried by `AddRequirementsKeeps`, `AddRequirementsOrder` and `AddRequirementsAllPresent` |
| EarlierEcm.AddNeverThrows | pkg.elk.wtf/ecm/ECM/ECM.jsx:161-209 | the install never throws (only the model's fuel bound escapes); an undefined result always leaves a message |
| EarlierEcm.AddInvalidRecords | pkg.elk.wtf/ecm/ECM/ECM.jsx:169-170 | a descriptor missing name, version or source writes nothing, records "Invalid manifest format" and returns undefined |
| EarlierEcm.AddKeeps | pkg.elk.wtf/ecm/ECM/ECM.jsx:161-209 | an install never removes or overwrites an existing file |
| EarlierEcm.AddRequirementsKeeps | pkg.elk.wtf/ecm/ECM/ECM.jsx:175-184 | the same for the requirement loop |
| EarlierEcm.AddCreatesFile | pkg.elk.wtf/ecm/ECM/ECM.jsx:186-201 | on success `filePath` = dir/name.jsx, the fields come from the descriptor, and the new file holds the fetched text |
| EarlierEcm.AddManifest | pkg.elk.wtf/ecm/ECM/ECM.jsx:196-201 | a returned record's `manifest` is the URL it was installed from |
| EarlierEcm.AddRequirementsOrder | pkg.elk.wtf/ecm/ECM/ECM.jsx:175-184 | one entry is pushed per requirement whose name was not found, in order: a record from its manifest, or null |
| EarlierEcm.AddRequirementsOrderInstalled | pkg.elk.wtf/ecm/ECM/ECM.jsx:182-183 | the same for the turn that installs a requirement |
| EarlierEcm.AddRequirementsInOrder | pkg.elk.wtf/ecm/ECM/ECM.jsx:173-201 | a successful install lists exactly the requirements whose names were not found, in descriptor order |
| EarlierEcm.AddRequirementsAllPresent | pkg.elk.wtf/ecm/ECM/ECM.jsx:175-180 | when every remaining requirement's name is found, the loop pushes nothing and writes nothing |
| EarlierEcm.AddSatisfied | pkg.elk.wtf/ecm/ECM/ECM.jsx:161-209 | when every requirement's name is found, none is fetched or installed again: a successful install writes only its own file, with the fetched text, and records no requirements, and an install that gives up writes nothing |
| EarlierEcm.DeletePersists | pkg.elk.wtf/ecm/ECM/ECM.jsx:223-227 | the filtered list, stored wholesale, loads back as itself with no record of that name |
| EarlierEcm.Manager.constructor | pkg.elk.wtf/ecm/ECM/ECM.jsx:133-139 | mounting shows the stored records with nulls dropped |
| EarlierEcm.Manager.UpdateIndex | pkg.elk.wtf/ecm/ECM/ECM.jsx:59-103 | a null record throws before anything is written; otherwise the index file holds the export text |
| EarlierEcm.Manager.UpdateManifest | pkg.elk.wtf/ecm/ECM/ECM.jsx:147-154 | the stored field becomes exactly the given list. The index is rewritten and the list reloaded, unless the index throws |
| EarlierEcm.Manager.AddComponent | pkg.elk.wtf/ecm/ECM/ECM.jsx:161-209 | the recursive install yields `Add`'s result, vault and message |
| EarlierEcm.Manager.AddClicked | pkg.elk.wtf/ecm/ECM/ECM.jsx:252-261 | the old list plus the install's result (possibly null) is stored; a null makes the index throw, so the list is not reloaded |
| EarlierEcm.Manager.DeleteComponent | pkg.elk.wtf/ecm/ECM/ECM.jsx:217-231 | a missing file changes nothing. Otherwise the file is trashed, and the filtered list is stored, indexed and shown |

## Left out

- Rendering and React are not modelled: `Modal`, `renderDependencies`, the buttons'
  markup, `alert` and `console.log`. The mount effects that create the folder and the
  manifest file are left out too. They are UI or host set-up; the model starts from a
  mounted component whose manifest file exists.
- The host's behaviour is parameters of the model:
  - `fetch` and `response.json()`/`text()` are the `Web` maps;
  - `app.vault` is the `files` map;
  - `processFrontMatter` and `readFrontmatter` are the `stored` field.
  Asynchrony is not modelled: each `await` runs to completion in program order.
- Likewise `loadManifest`, which is called without `await`, runs at once.
- `readFrontmatter` is `Components/ECM/sugar.jsx`, which is not part of this model.
  Stored records are assumed to be well shaped: string `name`, `version`, `manifest`,
  `source` and `filePath`. A YAML number as a version, where `split` would throw, is
  not modelled.
- Remote descriptors and requirement entries are assumed to be well shaped too: a
  descriptor's `name`, `version` and `source` are strings or absent, and every entry of
  its `requires` has a string `manifest` (the earlier fork also reads its `name`). A
  JSON number as a `version`, which is truthy and makes `readSemver` throw a TypeError
  at `split`, and a requirement entry without a `manifest` are not modelled.
- Descriptors keep only `name`, `version`, `source` and `requires`. In both forks,
  `{...manifest}` copies any other descriptor field into the record; the model copies
  none of them. `protected` and `update` start false.
- `LaterEcm.Upgrade`: skips the requirement loop of `updateComponent`
  (pkg.elk.wtf/ecm/ECM.jsx:383-407). It assigns a single record or undefined to
  `requires` and has no coherent behaviour to state. For a descriptor that lists
  requirements, the model therefore does not throw where that loop's `checkDependency`
  would, and it does not perform the nested upgrades.
- Exports.Flatten: its exact result is stated only when records of the same name carry
  the same requirement tree (`FlattenFirstOccurrence`). Otherwise a repeated name
  hides the different tree beneath it. For such lists the model proves the general
  bounds (`FlattenSound`, `FlattenPreorder`) and one worked case
  (`RepeatedSubtreeSkippedExample`), not a closed form.
- The `delete updatedComponent.update` of line 424 is modelled as `update := false`,
  since an absent field is falsy.
- The Update link handler (pkg.elk.wtf/ecm/ECM.jsx:521-530) is not modelled as an
  operation. Its list can hold `undefined`, and the model keeps the shown list of the
  later fork as present records. Only its map, `LaterEcm.ReplaceNamed`, is modelled.
- The recursion of `addComponent` has no cycle guard in either fork. The model bounds
  its depth with a `fuel` parameter and answers `Diverges` when the fuel runs out,
  where the source would keep recursing.
- JavaScript strings compare by UTF-16 code units; the model compares by character.
  The two orders agree on the characters a valid version field can hold.
- The other files of the repository are not part of this model: MediaManager,
  utility-hooks, ScrollView, Rolodex, Timelinear and gencontcts. They do vault listing,
  timers, DOM geometry, locale-dependent sorting, date parsing and random data.
