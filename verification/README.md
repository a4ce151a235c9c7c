# GitKraked patcher, modelled in Dafny

GitKraked is a one-file Node.js command-line tool, `gitkraked.js`. It
patches an Electron application archive, `app.asar`. It runs in these
steps:

- It checks its two arguments: an `.asar` archive and a `.json` patch
  file.
- It extracts the archive into a sibling `extracted` directory.
- It checks that the archive's `package.json` and the patch file parse and
  declare the same `version`.
- It applies the patch data's ordered literal find/replace patches to the
  extracted files.
- When every patch applies, it renames the original archive to
  `<archive>.old`, packs the patched directory at the original path and
  removes the directory.

The model has six modules:

- `Wrappers`: the `Option` type.
- `JsString`: `String.prototype.includes` and
  `String.prototype.replace` with a string search value, including the
  `$` substitution patterns of ECMA-262's GetSubstitution abstract
  operation.
- `NodePath`: `isFileType`, built on Node's POSIX `path.extname` and on
  `toLowerCase`.
- `EarlyExit`: a generic loop that runs a fallible step over a sequence
  and returns at the first failure, with nothing undone. It comes with a
  reference definition: the state after the first `k` steps, `Prefix`.
- `Patching`: `applyPatches`, with a directory modelled as a map from
  relative path to file content.
- `Gitkraked`: the decision skeleton of `main`. Its outcomes are `Usage`,
  `BadArg(i)`, `MissingPackage`, `Malformed`, `VersionMismatch`,
  `PatchFailed` and `Success(n)`. The result records what the archive path,
  the `extracted` directory and the `.old` backup hold afterwards.

The model also covers these behaviours:

- Leftovers from an earlier run. `fs.mkdirSync` is skipped when `extracted`
  already exists, and extraction then writes the archive's files over the
  old contents. Files left behind by an earlier run stay, take part in the
  `package.json` check and end up in the new archive.
- An existing `.old` backup. The tool calls `fs.renameSync`, which replaces
  an existing `<archive>.old` under POSIX rename semantics, so the model
  overwrites the backup.

## Model

| member | source | states |
|---|---|---|
| JsString.FirstIndex | gitkraked.js:41 | the search finds a position exactly when `find` occurs in the text, and the position found is the first occurrence |
| JsString.Includes | gitkraked.js:41 | `data.includes(find)` holds exactly when `find` occurs somewhere in `data`; the empty string occurs everywhere |
| JsString.Replace | gitkraked.js:45 | with no match the text is returned unchanged; otherwise only the first occurrence is replaced, by the expanded replacement template, and the rest of the text is kept; with a `$`-free template the length changes by the difference of the two lengths |
| JsString.ReplaceLiteral | gitkraked.js:45 | a replacement without `$` is inserted verbatim in place of the first occurrence |
| JsString.LaterOccurrenceKept | gitkraked.js:45 | a later, non-overlapping occurrence of `find` survives the replacement, shifted by the length difference |
| JsString.EmptyFindPrepends | gitkraked.js:41-45 | an empty `find` passes the `includes` check, and for a `$`-free replacement the replacement is put in front of the whole text |
| JsString.SubstituteEscaped | gitkraked.js:45 | doubling every `$` in a replacement makes the substitution insert the original text literally, whatever the match |
| JsString.MatchPatternExample | gitkraked.js:45 | `$&` in a replacement inserts the matched text: `"abc".replace("b", "[$&]")` is `"a[b]c"` |
| JsString.GetSubstitution | gitkraked.js:45 | a replacement template without `$` is inserted as it stands; the `$` patterns are stated by the escape round trip and the pattern examples below |
| JsString.PrefixPatternExample | gitkraked.js:45 | `` $` `` inserts the text before the match: `` "abc".replace("b", "$`") `` is `"aac"` |
| JsString.SuffixPatternExample | gitkraked.js:45 | `$'` inserts the text after the match: `"abc".replace("b", "$'")` is `"acc"` |
| JsString.DollarPatternExample | gitkraked.js:45 | `$$` inserts one `$`, and `$1` is copied as it stands because a string search has no groups: `"abc".replace("b", "$$$1")` is `"a$$1c"` |
| JsString.ReplaceFirstOnlyExample | gitkraked.js:45 | `"XaX".replace("X", "Y")` is `"YaX"`: the second `X` is left alone |
| NodePath.Extname | gitkraked.js:17 | the extension is empty or starts with `.` and holds no other `.` and no `/`; it is non-empty exactly when the last segment of the path, trailing slashes dropped, is not `..` and has a `.` after its first character; which suffix it is is stated by `NodePath.ExtnameIsSegmentSuffix` |
| NodePath.ExtnameIsSegmentSuffix | gitkraked.js:17 | a non-empty extension is a proper suffix of the last segment of the path, trailing slashes dropped; with the `Extname` contract it is the part from that segment's last `.` |
| NodePath.SegmentExt | gitkraked.js:17 | the extension of a path segment is a proper suffix of it that starts with its last `.`, with no other `.` after; it is non-empty exactly when the segment is not `..` and has a `.` after its first character, so a leading dot does not count |
| NodePath.Lower | gitkraked.js:17 | lower-casing keeps the length, leaves no upper-case ASCII letter, keeps every other character and moves each upper-case letter to its lower-case partner |
| NodePath.IsFileType | gitkraked.js:16-18 | `isFileType`: the lower-cased extension equals the expected one; its meaning is stated by `NodePath.IsFileTypeIff` |
| NodePath.IsFileTypeIff | gitkraked.js:16-18 | for a well-formed extension, `isFileType` holds exactly when the path, with trailing slashes dropped, ends in the extension in any letter case, after at least one character of the same segment |
| NodePath.ExtMatchEndsPath | gitkraked.js:16-18 | a path that passes `isFileType` ends in the extension, case-insensitively |
| NodePath.PathEndMatchesExt | gitkraked.js:16-18 | a path that ends in the extension, case-insensitively and inside its last segment, passes `isFileType` |
| NodePath.IsFileTypeUpperCase | gitkraked.js:17 | `dir/App.ASAR` passes the `.asar` check, because the extension is lower-cased before comparison |
| NodePath.IsFileTypeTrailingSlash | gitkraked.js:17 | `app.json/` passes the `.json` check, because trailing slashes are ignored |
| NodePath.IsFileTypeDotFile | gitkraked.js:17 | `.asar` alone fails the `.asar` check, because a leading dot is not an extension |
| EarlyExit.RunSteps | gitkraked.js:34-49 | the `for` loop with early return, item by item from the front; an empty list succeeds with the state unchanged; its relation to the reference is stated by `EarlyExit.RunMatchesPrefix` |
| EarlyExit.Prefix | gitkraked.js:34-49 | reference definition: the state after the first `k` items, one after another, or nothing when one failed; the lemmas below relate it to the loop |
| EarlyExit.RunMatchesPrefix | gitkraked.js:34-49 | the loop with early return gets through every item exactly when the step-by-step reference does, and then ends in the reference's state |
| EarlyExit.PrefixSomeIff | gitkraked.js:34-49 | the first `m` items succeed in turn exactly when each succeeds on what the items before it produced |
| EarlyExit.RunFailsAt | gitkraked.js:36-43 | when item `k` is the first to fail, the run reports failure with the state items `0..k-1` left |
| EarlyExit.FailureIgnoresLater | gitkraked.js:34-43 | after a failure, the items behind it are never looked at: appending items to a failing run does not change its result |
| EarlyExit.RunLoop | gitkraked.js:34-49 | the imperative loop, returning at the first failed step, computes the same result as the recursive definition |
| Patching.ApplyPatch | gitkraked.js:35-46 | one patch succeeds exactly when its file exists and contains `find`; it keeps the same set of files, leaves every other file alone and rewrites the first occurrence in its file |
| Patching.ApplyPatches | gitkraked.js:33-50 | `applyPatches` as the early-return loop over `ApplyPatch`; its contract is carried by `Patching.ApplyPatchesOkIff`, `Patching.ApplyPatchesFailsAt` and `Patching.ApplyPatchesFrame` |
| Patching.ApplyPatchesFrame | gitkraked.js:33-50 | no file is created or deleted, a file no patch names keeps its content, and an empty patch list succeeds without changes |
| Patching.ApplyPatchesOkIff | gitkraked.js:33-50 | `applyPatches` returns `true` exactly when each patch applies to what the earlier patches produced; the directory is then the result of applying them in order |
| Patching.ApplyPatchesFailsAt | gitkraked.js:36-43 | when patch `k` is the first that cannot apply, the result is `false` and the directory holds exactly what patches `0..k-1` wrote, so there is no rollback; it has the same files, and a file none of those patches names keeps its content |
| Patching.PrefixFrame | gitkraked.js:34-47 | after the first `k` patches have applied, the directory has the same files and every file none of them names keeps its content |
| Patching.MissingFileStops | gitkraked.js:36-38 | a patch naming a missing file stops the run at that patch |
| Patching.MissingFindStops | gitkraked.js:40-43 | a patch whose `find` is absent stops the run, and its file keeps the content earlier patches gave it |
| Patching.DependentPatchesCompose | gitkraked.js:34-46 | a later patch sees the output of an earlier one: for `$`-free replacements, `x -> y` then `y -> z` on a file holding `x` leaves `z` |
| Patching.DependentPatchesExample | gitkraked.js:34-46 | the patches `X -> Y` then `Y -> Z` turn `a.js` holding `X` into `Z` |
| Patching.RunPatches | gitkraked.js:33-50 | the loop of `applyPatches` as written computes `ApplyPatches` |
| Gitkraked.Extracted | gitkraked.js:70-76 | after extraction the workspace holds the archive's files and any leftovers from an earlier run; archive files win where both exist |
| Gitkraked.Main | gitkraked.js:52-115 | each outcome arises exactly when the checks before it pass and its own check fails, in source order; the rename happens exactly on success; every early return leaves the archive and backup untouched; a return before extraction leaves the workspace untouched, and one after it leaves the extracted or partially patched workspace; on success, the backup holds the original archive, the archive holds the patched tree, the workspace is removed and the reported count is the number of patches |
| Gitkraked.MainSucceedsIff | gitkraked.js:87-108 | a run succeeds exactly when the arguments and metadata are in order and every patch applies in turn; the new archive is then the tree those patches build |
| Gitkraked.MainPatchFailureLeavesPrefix | gitkraked.js:98-101 | when patch `k` is the first that cannot apply, the run ends with `PatchFailed`, archive and backup untouched, and the workspace holding what patches `0..k-1` wrote: the extracted files, each one none of those patches names unchanged |
| Gitkraked.LeftoverPackageJsonPasses | gitkraked.js:70-82 | a `package.json` left in `extracted` by an earlier run passes the metadata check even when the archive has none |
| Gitkraked.LeftoverFileRepacked | gitkraked.js:70-107 | a leftover file that the archive does not hold and that no patch names is packed, unchanged, into the new archive |
| Gitkraked.MainExample | gitkraked.js:52-115 | a whole successful run: `App.asar`, whose `package.json` is `{"version":"1.0"}`, and `patch.json` with version `1.0` and one patch, leaving the patched archive, the original as backup, and no workspace |

## Left out

- The asar codec (`asar.extractAll`, `asar.createPackage`). The archive is
  modelled as the tree of files it holds. Extraction and packing are taken
  to reproduce that tree exactly.
- Filesystem I/O: `existsSync`, `readFileSync`, `writeFileSync`,
  `mkdirSync`, `renameSync` and `rmSync`. They become map lookups and
  updates. Their failures are not modelled: permissions, a missing archive,
  a rename or repack that throws, directory/file name clashes during
  extraction.
- Directories as patch targets. The store holds files only, so a path is
  in the store exactly when a file with that path exists. In the program,
  `existsSync` also holds for a directory. A patch `file` of `""`, of `.`
  or of a subdirectory name passes the check at `gitkraked.js` line 36.
  `readFileSync` at line 40 then throws `EISDIR` out of `main`, and the run
  ends with an uncaught error. The model reports `PatchFailed` there.
- Links and letter case. The store holds regular files only. Each is keyed
  by its exact, case-sensitive name, and the store has no symbolic links,
  so two different keys are two different files. The program can break
  both assumptions:
  - Outside Windows, `asar.extractAll` (line 76) recreates the symbolic
    links an archive holds. `existsSync`, `readFileSync` and
    `writeFileSync` (lines 36, 40 and 46) follow them. A patch naming a
    link therefore rewrites the link's target, which can be a file no
    patch names, and `createPackage` (line 107) packs the changed target.
    `Patching.ApplyPatchesFrame`, `Patching.PrefixFrame` and
    `Gitkraked.LeftoverFileRepacked` assume no links, so they say that
    file keeps its content.
  - On a case-insensitive file system, the default on macOS and Windows, a
    patch `file` of `A.js` passes line 36 and rewrites `a.js`. The model
    has no key `A.js` and reports `PatchFailed` instead. The same holds for
    the `package.json` check at line 79.
- A `package.json` that is a directory. It passes the existence check at
  line 79 and makes `parseJSONFile` throw at line 29, again out of `main`.
  The model reports `MissingPackage`, because the directory is not in the
  store.
- `path.join` and `path.dirname`. A patch's `file` is used as the map key
  verbatim, so `./a.js` and `a.js` are different keys in the model. The
  model also does not cover `..` segments escaping the directory or the
  location of the `extracted` directory.
- `JSON.parse` and `parseJSONFile`. The parsed documents are inputs; a
  missing file or a falsy result is `None`. Invalid JSON, which throws out
  of `main`, is not modelled.
- Field types in the JSON documents:
  - A `version` is a string or absent.
  - `patches` is a sequence of string triples.
  - Non-string versions (objects and arrays compare by reference), other
    non-string values and a non-array `patches` are not modelled.
- Logging (`log` and the message texts). The outcome names the message
  instead.
- `async`/`await`. The repack is modelled as finishing before cleanup.
- Windows path semantics. `Extname` follows Node's POSIX algorithm.
- NodePath.Lower: models `toLowerCase` on ASCII letters only. No other
  character lower-cases to a character of `.asar` or `.json`, so the two
  checks `main` makes are exact.
- Strings are sequences of Dafny `char`, which are Unicode scalar values,
  not UTF-16 code units. Lone surrogates are not modelled, and neither are
  the code-unit lengths and positions of text outside the Basic
  Multilingual Plane (emoji, for instance). File encodings are not
  modelled.
- JsString.GetSubstitution: its own contract states only that a `$`-free
  template is inserted verbatim. For the `$` patterns there is one
  all-inputs lemma, JsString.SubstituteEscaped, for doubled `$`. Each of
  `$&`, `` $` ``, `$'`, `$$` and a group reference such as `$1` has one
  concrete example and no general lemma.
