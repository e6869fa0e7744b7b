# `$ref` rewriting for the schema-definitions repository, in Dafny

The repository's schemas refer to each other's definitions with `$ref`. Some of
these refs point at shared schemas. A script points those refs either at a
local directory or at the published server. Each ref keeps its file name and
`#/...` fragment and gets a new directory part in front of them:

- locally, `join(localPath, '/')`. With the default local path `../`, a ref
  `../company/company.json#/...` becomes `../company.json#/...`.
- remotely, `join(remotePath, folderName, '/')`, where `folderName` is the
  file name without its extension. With the default host, folder and version
  `0.0.1`, that ref becomes
  `https:/schemas.s1seven.com/shared/v0.0.1/company/company.json#/...`, with
  a single slash after the scheme (see below).

This project models that script and the constants it reads, and proves what
the rewriting does to the schemas.

- `Constants` (`constants.dfy`) models the table of directories and the
  definitions whose refs the script rewrites (`REF_MAP`). It also models the
  default server URL and the helper that puts a `v` in front of a version
  number.
- `UpdateRefs` (`update_refs.dfy`) models the rest of the script:
  - the check of the `environment` option (`remote` or `local`);
  - the version number, remote path and new path derived from the options;
  - the rewriting of one ref;
  - the two nested loops of `generateUpdatedSchemaObjects`. These are kept as
    `while` loops in `UpdateSchemaObject` and `GenerateUpdatedSchemaObjects`.
    Each loop is proved equal to a left fold (`UpdateSchema`,
    `UpdatedSchemaObjects`), and the properties are proved about the folds.
- The library calls the script makes are modelled from their documented
  behaviour:
  - `JsStrings` (`js_strings.dfy`): `startsWith`, `indexOf`, the first piece of
    `split`, and `replace` with a string pattern, including its `$` patterns;
  - `NodePath` (`node_path.dfy`): Node's POSIX `path.join` and normalisation,
    and the `base` and `name` of `path.parse`;
  - `Json` (`json.dfy`): parsed JSON values, lodash's `get` along a key path,
    and assignment at the end of a path.
  - `Wrappers` (`wrappers.dfy`) holds `Option` and `Result`.

The schema files are passed in already parsed, as a map from directory name to
JSON value. A directory missing from the map stands for a file that cannot be
read or parsed. The script's thrown TypeErrors become `Failure` values of
`RefError`. The fold functions take the per-ref rewrite as a function
parameter. `GenerateUpdatedSchemaObjects` supplies the script's own rewrite,
`RefRewriter(newPath, environment)`.

The script:

- succeeds exactly when every listed definition of every directory has a
  string `$ref` at `definitions.P.allOf[0]`;
- stores one schema per directory, under its schema file;
- replaces each listed ref by its rewrite;
- leaves every location that parts ways with the listed refs untouched.

With a non-empty file name, the rewrite replaces everything before the first
occurrence of the file name with the joined replacement path. The result keeps
the file name and the `#/...` fragment. Because `path.join` normalises `//`
to `/`, the remote path can never begin with `https://`: the default host
becomes `https:/schemas.s1seven.com/...`. For the same reason, a rewritten
ref with a non-empty file name and a replacement path without `$` never
begins with `https://`. A ref with an empty file name, such as a
same-document ref `#/x`, is different: it loses its first character to the
replacement path (`RewriteWithoutFileName`). The slash that follows can then
complete a scheme: with the local path `https:`, whose join is `https:/`,
`#/x` becomes `https://x`. The no-`https://` property above is therefore stated
only for refs with a non-empty file name (`RewrittenRefLosesSchemeSlash`).

## Model

| member | source | states |
|---|---|---|
| Constants.RefMapShape | utils/constants.js:2-6 | `REF_MAP` has three distinct directories; every list of definitions is non-empty and has no repeats; every list holds `KeyValueObject`. |
| Constants.AddVToVersionNumber | utils/constants.js:10-12 | The result starts with `v`. It is the input itself when the input starts with `v`, and `"v"` + input otherwise. It ends with the input and is at most one character longer. |
| Constants.AddVIdempotent | utils/constants.js:10-12 | Adding the `v` twice gives the same as adding it once. |
| Constants.AddVLength | utils/constants.js:10-12 | The length is unchanged exactly when the input already starts with `v`. |
| UpdateRefs.CoerceEnvironment | utils/update-refs.js:56-61 | The option is accepted exactly when it is `remote` or `local`, and keeps its name. Any other value fails with the message `Environment should be one of remote,local`. |
| UpdateRefs.CoerceEnvironmentName | utils/update-refs.js:56-61 | Each of the two environments is accepted under its own name. |
| UpdateRefs.RemotePath | utils/update-refs.js:110 | `join(host, folder, versionNumber, '/')` ends with `/` and never holds `//`. |
| UpdateRefs.DerivePaths | utils/update-refs.js:109-111 | The version number gets a leading `v` and ends with the given version. The remote path is the join of host, folder, version number and `/`. The new path is the local path in the local environment, and the remote path (ending in `/`) in the remote one. |
| UpdateRefs.RemotePathLosesSchemeSlash | utils/update-refs.js:110 | The remote path never starts with `https://`, whatever the host: the scheme's `//` is joined down to `/`. |
| UpdateRefs.RefFilePath | utils/update-refs.js:23 | `currentRef.split('#/')[0]` is a prefix of the ref. It is the whole ref, or `#/` follows it. `#/` occurs nowhere inside it. |
| UpdateRefs.FileName | utils/update-refs.js:24 | `parse(currentPath).base` of the file part. It has no contract of its own; see `NodePath.Base`. |
| UpdateRefs.FolderName | utils/update-refs.js:25 | `parse(currentPath).name` of the file part. It has no contract of its own; `NodePath.NameIsBaseBeforeLastDot` states that it is the file name up to its last dot. |
| UpdateRefs.PathToReplace | utils/update-refs.js:26 | `currentRef.split(fileName)[0]`, or the text `"undefined"` when that piece does not exist. It has no contract of its own; see `FileNameLocated` and `RewriteWithoutFileName`. |
| UpdateRefs.ReplacementPath | utils/update-refs.js:27 | The replacement path (`join(newPath, '/')` locally, `join(newPath, folderName, '/')` remotely) ends with `/` and holds no `//`. |
| UpdateRefs.RewriteRef | utils/update-refs.js:29 | `currentRef.replace(pathToReplace, replacementPath)`. It has no contract of its own; the `Rewrite*` lemmas below state what it yields. |
| UpdateRefs.RefRewriter | utils/update-refs.js:23-29 | The per-ref computation of the inner loop as a function from the old ref to the new one. It has no contract of its own. |
| UpdateRefs.FileNameLocated | utils/update-refs.js:24-26 | A non-empty file name is found in the ref, ending no later than the file part. The path to replace is everything before its first occurrence. |
| UpdateRefs.RewriteKeepsFromFileName | utils/update-refs.js:26-29 | For every replacement path, `$` patterns included, a ref with a non-empty file name keeps everything from the first occurrence of the file name on. Only the text in front of it becomes the expanded replacement path. |
| UpdateRefs.RewriteFromFileName | utils/update-refs.js:26-29 | With a non-empty file name, the new ref is the replacement path followed by the old ref from the first occurrence of the file name on. |
| UpdateRefs.RewriteKeepsFileAndFragment | utils/update-refs.js:23-29 | The new ref starts with `join(newPath, '/')` (local) or `join(newPath, folderName, '/')` (remote). The file name follows it, and the ref ends with the old ref's `#/` fragment. |
| UpdateRefs.RewriteKeepsFragment | utils/update-refs.js:23-29 | Whatever the replacement path (`$` patterns included), a ref with a non-empty file part ends, after the rewrite, with its old `#/` fragment. |
| UpdateRefs.RewritePrependsWithoutDirectory | utils/update-refs.js:26-29 | A ref that starts with its file name has nothing to replace: the replacement path is put in front of it. |
| UpdateRefs.RewriteWithoutFileName | utils/update-refs.js:24-29 | With an empty file name, `split('')` splits per character. A non-empty ref loses its first character to the replacement path. The empty ref stays empty: it has no piece 0, so `replace` searches for `"undefined"`. |
| UpdateRefs.RewrittenRefLosesSchemeSlash | utils/update-refs.js:27-29 | A rewritten ref with a file name never starts with `https://`, in either environment. |
| UpdateRefs.RefObjectPath | utils/update-refs.js:20 | lodash's lookup path `['definitions'][P]['allOf'][0]` as the key sequence `definitions`, `P`, `allOf`, `0`. It has no contract of its own; see `RefLocationsDiverge`. |
| UpdateRefs.RefLocation | utils/update-refs.js:20-22 | Where the `$ref` read at line 22 sits: the lookup path followed by the key `$ref`. It has no contract of its own; see `RefLocationsDiverge` and `CurrentRefFromObject`. |
| UpdateRefs.RefLocationsDiverge | utils/update-refs.js:20 | The lookup paths of two different definitions part ways, so rewriting one ref cannot touch the other. |
| UpdateRefs.CurrentRefFromObject | utils/update-refs.js:21-22 | There is a string ref exactly when `get` finds an object at `definitions.P.allOf[0]` whose `$ref` is a string, and that string is the ref. |
| UpdateRefs.CurrentRef | utils/update-refs.js:21-22 | `get(schemaObject, lookupPath)['$ref']` when it is a string. It has no contract of its own; see `CurrentRefFromObject`. |
| UpdateRefs.UpdateDefinition | utils/update-refs.js:20-29 | One pass of the inner loop: a missing or null reference object and a non-string `$ref` fail, and otherwise the ref is rewritten in place. It has no contract of its own; see `UpdateDefinitionSpec`. |
| UpdateRefs.UpdateDefinitionSpec | utils/update-refs.js:20-29 | One pass of the inner loop succeeds exactly when the definition has a string `$ref`. That ref becomes its rewrite, and every location that parts ways with it is unchanged. A missing or null reference object and a non-string `$ref` are told apart. |
| UpdateRefs.UpdateSchemaSpec | utils/update-refs.js:19-30 | The inner loop succeeds exactly when every listed definition has a string `$ref`. Each such ref becomes the rewrite of the value read. Every location apart from the listed refs is unchanged. |
| UpdateRefs.UpdateSchema | utils/update-refs.js:19-30 | The inner `forEach` as a left fold over the listed definitions, which the first error ends. It has no contract of its own; see `UpdateSchemaSpec` and `UpdateSchemaObject`. |
| UpdateRefs.UpdateSchemaFailureStays | utils/update-refs.js:19-30 | An error in a definition ends the inner loop with that error. |
| UpdateRefs.UpdateSchemaObject | utils/update-refs.js:19-30 | The inner `forEach`, as a loop over the parsed schema, returns the fold `UpdateSchema`, early errors included. |
| UpdateRefs.SchemaFile | utils/update-refs.js:15 | The schema file `${directory}/${directory}.json`, relative to the repository root. It has no contract of its own; see `SchemaFileInjective`. |
| UpdateRefs.SchemaFileInjective | utils/update-refs.js:15 | Distinct directories have distinct schema files `dir/dir.json`. |
| UpdateRefs.UpdatedSchemaObjectsSucceeds | utils/update-refs.js:14-33 | The outer loop succeeds exactly when every directory of the table can be read and passes its inner loop. |
| UpdateRefs.UpdateDirectory | utils/update-refs.js:15-30 | One pass of the outer loop: the directory's schema is read (failing when it is missing) and goes through the inner loop. It has no contract of its own. |
| UpdateRefs.UpdatedSchemaObjects | utils/update-refs.js:14-33 | The outer `forEach` as a left fold over the table, storing each updated schema under its file. It has no contract of its own; see the three `UpdatedSchemaObjects*` lemmas and `GenerateUpdatedSchemaObjects`. |
| UpdateRefs.UpdatedSchemaObjectsKeys | utils/update-refs.js:14-33 | A successful run stores exactly the schema files of the table's directories. |
| UpdateRefs.UpdatedSchemaObjectsValues | utils/update-refs.js:14-33 | For a table without repeated directories, each schema file holds its directory's updated schema. |
| UpdateRefs.UpdatedSchemaObjectsFailureStays | utils/update-refs.js:14-33 | An error in a directory ends the outer loop with that error. |
| UpdateRefs.GenerateUpdatedSchemaObjects | utils/update-refs.js:10-36 | The outer `forEach` over `REF_MAP`, as a loop calling `UpdateSchemaObject`, returns the fold `UpdatedSchemaObjects` with the script's rewrite. |
| UpdateRefs.RefMapSchemaFiles | utils/update-refs.js:14-15 | The schema files of `REF_MAP` are those of `commercial-transaction`, `product-description` and `validation`. |
| UpdateRefs.RefMapUpdate | utils/update-refs.js:10-36 | A successful run over `REF_MAP` yields exactly those three schema files. Each holds its directory's updated schema. |
| UpdateRefs.RefMapRewritesRefs | utils/update-refs.js:10-36 | After a successful run, in each stored schema, every listed definition's `$ref` is the rewrite of the ref read. Every location apart from those refs is as read. |
| JsStrings.StartsWith | utils/constants.js:11 | `String.prototype.startsWith`: the pattern occurs at index 0. It has no contract of its own; it is the test of `AddVToVersionNumber` and of line 109 of `utils/update-refs.js`. |
| JsStrings.SplitHead | utils/update-refs.js:23 | `split(sep)[0]`: with a separator, the text before its first occurrence (or the whole string). With the empty separator, the first character, or undefined for the empty string. |
| JsStrings.IndexOf | utils/update-refs.js:26 | The first index at which the pattern occurs, or none. The pattern occurs nowhere before it, and nowhere at all when there is none. |
| JsStrings.Replace | utils/update-refs.js:29 | `replace` with a string pattern: the first occurrence is replaced by the expanded replacement. It has no contract of its own; see `ReplaceKeepsContext`, `ReplacePrefix` and `ReplaceAbsent`. |
| JsStrings.ReplaceKeepsContext | utils/update-refs.js:29 | Only the first occurrence is replaced. The text before and after it is kept, and a pattern that does not occur leaves the string as it is. |
| JsStrings.Expand | utils/update-refs.js:29 | The replacement text with its `$$`, `$&`, `` $` `` and `$'` patterns substituted. It has no contract of its own; see `ExpandWithoutDollar`. |
| JsStrings.ExpandWithoutDollar | utils/update-refs.js:29 | A replacement without `$` is inserted as it is. |
| JsStrings.ReplacePrefix | utils/update-refs.js:29 | `replace` with a pattern the string starts with puts the expanded replacement in front of the rest. |
| JsStrings.ReplaceAbsent | utils/update-refs.js:29 | `replace` with a pattern that does not occur leaves the string as it is. |
| NodePath.Base | utils/update-refs.js:24 | `parse(p).base` is the last segment of `p`. It holds no `/`, has a separator (or the start) before it and only separators after it, and is empty exactly when `p` is only slashes. |
| NodePath.BaseIsNameThenExt | utils/update-refs.js:24-25 | `base` is `name` followed by the extension. A non-empty extension starts with the last dot, which is not the first character. |
| NodePath.Name | utils/update-refs.js:25 | `parse(p).name`. It has no contract of its own; see `BaseIsNameThenExt` and `NameIsBaseBeforeLastDot`. |
| NodePath.NameIsBaseBeforeLastDot | utils/update-refs.js:25 | The name is the base up to its last dot and the extension is the rest. When there is no dot, the dot opens the base, or the base is `..`, the name is the whole base and the extension is empty. |
| NodePath.Normalize | utils/update-refs.js:27 | `path.normalize`: segments resolved, leading and trailing `/` kept, `.` for the empty result. It has no contract of its own; see the `Normalize*` lemmas. |
| NodePath.Join | utils/update-refs.js:27 | `path.join`: the non-empty parts joined with `/` and normalised, `.` when none is left. It has no contract of its own; see the `Join*` lemmas. |
| NodePath.NormalizeNoDoubleSlash | utils/update-refs.js:27 | A normalised path is never empty and never holds `//`. |
| NodePath.NormalizeKeepsTrailingSlash | utils/update-refs.js:27 | Normalising keeps a trailing `/`. |
| NodePath.NormalizeIdempotent | utils/update-refs.js:27 | Normalising a normalised path changes nothing. |
| NodePath.JoinNoDoubleSlash | utils/update-refs.js:110 | A joined path is never empty and never holds `//`. |
| NodePath.JoinKeepsTrailingSlash | utils/update-refs.js:110 | A join whose last part ends with `/` ends with `/`. |
| NodePath.JoinIdempotent | utils/update-refs.js:27 | Joining a joined path alone gives it back. |
| NodePath.JoinSegmentsOfSegments | utils/update-refs.js:27 | Splitting a path on `/` and joining the segments with `/` gives the path back. |
| NodePath.SegmentsOfJoinSegments | utils/update-refs.js:27 | Joining slash-free segments and splitting the result gives the segments back. |
| Json.ArrayIndex | utils/update-refs.js:20 | A key, such as the `[0]` step of the lookup path, denotes an array index only as that index's decimal numeral without leading zeros, and so only one key denotes each index. `ArrayIndexOfIndexKey` gives the converse. |
| Json.ArrayIndexOfIndexKey | utils/update-refs.js:20 | The numeral of every index denotes that index, so the `[0]` step selects element 0. |
| Json.Child | utils/update-refs.js:21 | One step of `get`: an object's member, an array's element for an index key, and nothing otherwise. It has no contract of its own. |
| Json.At | utils/update-refs.js:21 | lodash `get` along a key path, which ends with nothing as soon as a step finds nothing. It has no contract of its own; see `AtAppend`, `AtSet` and `SetFrame`. |
| Json.Set | utils/update-refs.js:29 | The assignment `referenceObj['$ref'] = ...` as a new value of the whole schema. It has no contract of its own; see `AtSet` and `SetFrame`. |
| Json.AtSet | utils/update-refs.js:29 | After assigning at a path where `get` finds a value, `get` at that path reads the assigned value back. |
| Json.SetFrame | utils/update-refs.js:29 | An assignment leaves `get` unchanged along every path that parts ways with the assigned one. |
| Json.AtAppend | utils/update-refs.js:21-22 | Reading `$ref` one key past the lookup path reads that key of the value `get` found there, and nothing when `get` found nothing. |

## Left out

- Reading and parsing the schema files (lines 16-17) are not modelled. The
  parsed schemas are a parameter. A missing directory gives `Unreadable`,
  which also stands for a JSON syntax error.
- The result is keyed by `dir/dir.json` relative to the repository. The script
  uses the absolute path `resolve(__dirname, ...)` (line 15), which depends on
  where the script lives.
- Writing the files with `JSON.stringify` (lines 115-117), the console
  messages, and the `try`/`catch` that logs an error instead of failing
  (lines 113-126) are I/O and are not modelled. Key order inside objects and
  the output formatting are lost, since objects are maps.
- `stageAndCommitChanges` (lines 38-45) and the `stageAndCommit`/`husky`
  options run git, and are not modelled.
- Option parsing with yargs (lines 48-107) is not modelled. Its defaults are
  `../`, `https://schemas.s1seven.com/`, `shared` and the package version, and
  `h` is aliased twice (host and husky). `DerivePaths` takes the option
  values as parameters.
- CoerceEnvironment: takes only strings. yargs may also hand `coerce` an array
  or a number, which the script rejects with the same TypeError.
- The script throws TypeErrors, and the model distinguishes a missing or null
  reference object from a `$ref` that is not a string. lodash `get` also
  indexes the characters of a string. A string at `allOf` would therefore give
  a one-character string, and the error would be `RefNotString`. The model
  stops at strings and reports `MissingReferenceObject` there. Both cases are
  a TypeError in the script.
- Line 29 assigns to `referenceObj['$ref']`, an alias into the parsed schema.
  The model replaces the whole schema value with `Json.Set` at the same path.
  `UpdateSchemaObject` works on values, so sharing between parsed objects is
  not modelled. JSON parsing never creates such sharing.
- Paths are POSIX only, as on the systems the script runs on. Strings are
  sequences of characters rather than UTF-16 code units. JSON numbers are
  reals.
- lodash path parsing: for a definition name with brackets, dots or quotes,
  lodash would parse the lookup path differently. The path is taken as
  `["definitions", P, "allOf", "0"]`, which is how lodash reads it for the
  plain identifiers of `REF_MAP`. Array keys are limited to canonical
  decimal indices, without the 2^32 bound.
- `DEFAULT_SERVER_URL` is only a constant. Its user, `utils/update-version.js`,
  is not part of this model.
- RewriteFromFileName, RewriteKeepsFileAndFragment,
  RewritePrependsWithoutDirectory, RewriteWithoutFileName and
  RewrittenRefLosesSchemeSlash: stated for replacement paths without `$`.
  With `$$`, `$&`, `` $` `` or `$'` in the new path, `replace` substitutes
  text in the part of the ref that replaces the path. For every replacement
  path, `RewriteKeepsFromFileName` proves that the rest of the ref, from the
  file name on, is kept, and `RewriteKeepsFragment` that the fragment is
  kept. Only the expanded prefix itself is left to `JsStrings.Expand`.
- RewrittenRefLosesSchemeSlash: also stated only for refs with a non-empty
  file name. A ref with an empty file name can gain `https://`, as shown
  above. The refs themselves come from the schema files, which are not part of
  this model.
- UpdateSchemaSpec: stated for lists of definitions without repeats, which
  all `REF_MAP` lists are. A repeated definition is rewritten once per
  occurrence: the fold models this, but no lemma states it.
- UpdatedSchemaObjectsValues: stated for tables without repeated
  directories, which `REF_MAP` is.
