/**
 * The `$ref` rewriting script: its command-line environment check, the
 * version and path it derives from its options, and the rewriting of the
 * `definitions[P].allOf[0].$ref` entries listed in REF_MAP. Schema files are
 * passed in already parsed and the rewritten objects are returned, instead of
 * being read from and written to disk.
 */
module UpdateRefs {
  import opened Wrappers
  import opened JsStrings
  import opened Json
  import NodePath
  import opened Constants

  // ---------------------------------------------------------------------------
  // Options

  datatype Environment = Remote | Local {
    function Name(): string {
      match this
      case Remote => "remote"
      case Local => "local"
    }
  }

  /** The TypeError message: the list of allowed environments joined with commas. */
  const ENVIRONMENT_ERROR: string := "Environment should be one of remote,local"

  /** The `coerce` function of the `environment` option. */
  function CoerceEnvironment(value: string): (r: Result<Environment, string>)
    ensures r.Success? <==> value == "remote" || value == "local"
    ensures r.Success? ==> r.value.Name() == value
    ensures r.Failure? ==> r.error == ENVIRONMENT_ERROR
  {
    if value == Remote.Name() then Success(Remote)
    else if value == Local.Name() then Success(Local)
    else Failure(ENVIRONMENT_ERROR)
  }

  /** Every environment is accepted under its own name. */
  lemma CoerceEnvironmentName(env: Environment)
    ensures CoerceEnvironment(env.Name()) == Success(env)
  {
  }

  /** The base URL of the remote schemas: `join(host, folder, versionNumber, '/')`. */
  function RemotePath(host: string, folder: string, versionNumber: string): (r: string)
    ensures EndsWith(r, "/") && NodePath.NoDoubleSlash(r)
  {
    NodePath.JoinKeepsTrailingSlash([host, folder, versionNumber, "/"]);
    NodePath.JoinNoDoubleSlash([host, folder, versionNumber, "/"]);
    NodePath.Join([host, folder, versionNumber, "/"])
  }

  /** What the script derives from its options before rewriting. */
  datatype Paths = Paths(versionNumber: string, remotePath: string, newPath: string)

  /**
   * The version gets its leading 'v'; the new path is the local path in the
   * local environment and the remote path otherwise.
   */
  function DerivePaths(env: Environment, localPath: string, host: string, folder: string, version: string): (r: Paths)
    ensures StartsWith(r.versionNumber, "v") && EndsWith(r.versionNumber, version)
    ensures r.versionNumber == AddVToVersionNumber(version)
    ensures r.remotePath == RemotePath(host, folder, r.versionNumber)
    ensures env == Local ==> r.newPath == localPath
    ensures env == Remote ==> r.newPath == r.remotePath && EndsWith(r.newPath, "/")
  {
    var versionNumber := AddVToVersionNumber(version);
    var remotePath := RemotePath(host, folder, versionNumber);
    Paths(versionNumber, remotePath, if env == Local then localPath else remotePath)
  }

  /**
   * The remote path never starts with "https://": `join` normalises the
   * scheme's "//" to a single '/', for the default host as well.
   */
  lemma RemotePathLosesSchemeSlash(host: string, folder: string, versionNumber: string)
    ensures !StartsWith(RemotePath(host, folder, versionNumber), "https://")
  {
    var r := RemotePath(host, folder, versionNumber);
    if |r| >= 8 {
      NodePath.NoDoubleSlashAt(r, 6);
      assert r[..8][6] == r[6] && r[..8][7] == r[7];
    }
  }

  // ---------------------------------------------------------------------------
  // Rewriting one `$ref`

  /** The file part of a ref: `currentRef.split('#/')[0]`. */
  function RefFilePath(ref: string): (p: string)
    ensures StartsWith(ref, p)
    ensures p == ref || OccursAt(ref, "#/", |p|)
    ensures forall i :: 0 <= i < |p| ==> !OccursAt(ref, "#/", i)
  {
    SplitHead(ref, "#/").value
  }

  /** `parse(currentPath).base` */
  function FileName(ref: string): string
  {
    NodePath.Base(RefFilePath(ref))
  }

  /** `parse(currentPath).name` */
  function FolderName(ref: string): string
  {
    NodePath.Name(RefFilePath(ref))
  }

  /**
   * `currentRef.split(fileName)[0]`. When the file name is empty the split is
   * per character; when the ref is empty as well the piece is undefined, and
   * `replace` then searches for the text "undefined".
   */
  function PathToReplace(ref: string): string
  {
    match SplitHead(ref, FileName(ref))
    case Some(head) => head
    case None => "undefined"
  }

  /** `join(newPath, '/')` locally, `join(newPath, folderName, '/')` remotely. */
  function ReplacementPath(ref: string, newPath: string, env: Environment): (r: string)
    ensures EndsWith(r, "/") && NodePath.NoDoubleSlash(r)
  {
    var parts := match env
      case Local => [newPath, "/"]
      case Remote => [newPath, FolderName(ref), "/"];
    NodePath.JoinKeepsTrailingSlash(parts);
    NodePath.JoinNoDoubleSlash(parts);
    NodePath.Join(parts)
  }

  /** The new ref: `currentRef.replace(pathToReplace, replacementPath)`. */
  function RewriteRef(ref: string, newPath: string, env: Environment): string
  {
    Replace(ref, PathToReplace(ref), ReplacementPath(ref, newPath, env))
  }

  /** The rewriting the script applies to every listed ref. */
  function RefRewriter(newPath: string, env: Environment): string -> string
  {
    ref => RewriteRef(ref, newPath, env)
  }

  /**
   * A non-empty file name is found in the ref no later than inside its file
   * part, and the path to replace is everything before its first occurrence.
   */
  lemma FileNameLocated(ref: string)
    requires FileName(ref) != ""
    ensures IndexOf(ref, FileName(ref)).Some?
    ensures var k := IndexOf(ref, FileName(ref)).value;
      k + |FileName(ref)| <= |RefFilePath(ref)| && PathToReplace(ref) == ref[..k]
  {
    var path := RefFilePath(ref);
    var name := FileName(ref);
    var start := NodePath.BaseStart(path);
    OccursInPrefix(ref, path, name, start);
    var k := IndexOf(ref, name).value;
    assert k <= start;
    var head := SplitHead(ref, name).value;
    assert |head| == k;
  }

  /**
   * With a non-empty file name and a replacement path without `$`, the new
   * ref is the replacement path followed by the old ref from the first
   * occurrence of the file name on.
   */
  lemma RewriteFromFileName(ref: string, newPath: string, env: Environment)
    requires FileName(ref) != ""
    requires '$' !in ReplacementPath(ref, newPath, env)
    ensures IndexOf(ref, FileName(ref)).Some?
    ensures var k := IndexOf(ref, FileName(ref)).value;
      && k + |FileName(ref)| <= |RefFilePath(ref)|
      && RewriteRef(ref, newPath, env) == ReplacementPath(ref, newPath, env) + ref[k..]
  {
    RewriteKeepsFromFileName(ref, newPath, env);
    var k := IndexOf(ref, FileName(ref)).value;
    ExpandWithoutDollar(ReplacementPath(ref, newPath, env), ref[..k], "", ref[k..]);
  }

  /**
   * For every replacement path, `$` patterns included, a ref with a non-empty
   * file name keeps everything from the first occurrence of its file name on;
   * only the text in front of it becomes the expanded replacement path.
   */
  lemma RewriteKeepsFromFileName(ref: string, newPath: string, env: Environment)
    requires FileName(ref) != ""
    ensures IndexOf(ref, FileName(ref)).Some?
    ensures var k := IndexOf(ref, FileName(ref)).value;
      && k + |FileName(ref)| <= |RefFilePath(ref)|
      && RewriteRef(ref, newPath, env)
         == Expand(ReplacementPath(ref, newPath, env), ref[..k], "", ref[k..]) + ref[k..]
  {
    FileNameLocated(ref);
    var k := IndexOf(ref, FileName(ref)).value;
    ReplacePrefix(ref, ref[..k], ReplacementPath(ref, newPath, env));
    assert ref[|ref[..k]|..] == ref[k..];
  }

  /**
   * The new ref starts with `join(newPath, '/')` locally and with
   * `join(newPath, folderName, '/')` remotely, continues with the file name,
   * and ends with the old ref's `#/...` fragment.
   */
  lemma RewriteKeepsFileAndFragment(ref: string, newPath: string, env: Environment)
    requires FileName(ref) != ""
    requires '$' !in ReplacementPath(ref, newPath, env)
    ensures StartsWith(RewriteRef(ref, newPath, env),
                       if env == Local then NodePath.Join([newPath, "/"])
                       else NodePath.Join([newPath, FolderName(ref), "/"]))
    ensures OccursAt(RewriteRef(ref, newPath, env), FileName(ref), |ReplacementPath(ref, newPath, env)|)
    ensures EndsWith(RewriteRef(ref, newPath, env), ref[|RefFilePath(ref)|..])
  {
    RewriteFromFileName(ref, newPath, env);
    var k := IndexOf(ref, FileName(ref)).value;
    var path := RefFilePath(ref);
    PrefixThenSuffix(ReplacementPath(ref, newPath, env), ref, k, |path|, FileName(ref));
  }

  /**
   * Neither does a rewritten ref with a file name: it starts with a joined
   * replacement path, and the file name that follows holds no '/'.
   */
  lemma RewrittenRefLosesSchemeSlash(ref: string, newPath: string, env: Environment)
    requires FileName(ref) != ""
    requires '$' !in ReplacementPath(ref, newPath, env)
    ensures !StartsWith(RewriteRef(ref, newPath, env), "https://")
  {
    RewriteFromFileName(ref, newPath, env);
    var k := IndexOf(ref, FileName(ref)).value;
    var name := FileName(ref);
    assert ref[k] == ref[k..k + |name|][0] == name[0];
    SlashThenSegmentLosesScheme(ReplacementPath(ref, newPath, env), ref[k..]);
  }

  /** A path ending in '/' without "//", followed by text that does not start with '/'. */
  lemma SlashThenSegmentLosesScheme(path: string, rest: string)
    requires EndsWith(path, "/") && NodePath.NoDoubleSlash(path)
    requires rest != "" && rest[0] != '/'
    ensures !StartsWith(path + rest, "https://")
  {
    var r := path + rest;
    assert path[|path| - 1] == path[|path| - 1..][0] == '/';
    assert r[|path| - 1] == '/' && r[|path|] != '/';
    if |path| >= 8 {
      NodePath.NoDoubleSlashAt(path, 6);
      assert r[..8][6] == path[6] && r[..8][7] == path[7];
    }
  }

  /**
   * Whatever the replacement path, a ref whose file part is not empty keeps
   * its `#/...` fragment at the end: the text replaced lies inside the file
   * part.
   */
  lemma RewriteKeepsFragment(ref: string, newPath: string, env: Environment)
    ensures RefFilePath(ref) != "" ==>
      EndsWith(RewriteRef(ref, newPath, env), ref[|RefFilePath(ref)|..])
  {
    var path := RefFilePath(ref);
    if path != "" {
      var k: nat;
      if FileName(ref) != "" {
        FileNameLocated(ref);
        k := IndexOf(ref, FileName(ref)).value;
      } else {
        k := 1;
        assert PathToReplace(ref) == ref[..1];
      }
      ReplaceKeepsTail(ref, k, |path|, ReplacementPath(ref, newPath, env));
    }
  }

  /** Replacing a prefix of `s` that ends at or before `m` keeps `s[m..]` at the end. */
  lemma ReplaceKeepsTail(s: string, k: nat, m: nat, replacement: string)
    requires k <= m <= |s|
    ensures EndsWith(Replace(s, s[..k], replacement), s[m..])
  {
    ReplacePrefix(s, s[..k], replacement);
    var r := Replace(s, s[..k], replacement);
    assert s[|s[..k]|..] == s[k..];
    assert r[|r| - |s[m..]|..] == s[k..][|s[k..]| - |s[m..]|..] == s[m..];
  }

  /**
   * Putting `prefix` in front of `s[k..]`, where `name` occurs at `k` and `k`
   * is at most `m`, keeps `name` right after the prefix and `s[m..]` at the end.
   */
  lemma PrefixThenSuffix(prefix: string, s: string, k: nat, m: nat, name: string)
    requires k <= m <= |s| && OccursAt(s, name, k)
    ensures StartsWith(prefix + s[k..], prefix)
    ensures OccursAt(prefix + s[k..], name, |prefix|)
    ensures EndsWith(prefix + s[k..], s[m..])
  {
    var r := prefix + s[k..];
    assert r[..|prefix|] == prefix;
    assert r[|prefix|..|prefix| + |name|] == s[k..k + |name|];
    assert r[|r| - |s[m..]|..] == s[m..];
  }

  /** A ref that starts with its file name gets the replacement path put in front of it. */
  lemma RewritePrependsWithoutDirectory(ref: string, newPath: string, env: Environment)
    requires FileName(ref) != "" && StartsWith(ref, FileName(ref))
    requires '$' !in ReplacementPath(ref, newPath, env)
    ensures PathToReplace(ref) == ""
    ensures RewriteRef(ref, newPath, env) == ReplacementPath(ref, newPath, env) + ref
  {
    RewriteFromFileName(ref, newPath, env);
    assert IndexOf(ref, FileName(ref)) == Some(0);
    FileNameLocated(ref);
    assert ref[0..] == ref;
  }

  /**
   * A ref without a file name (a same-document ref "#/...", say) loses its
   * first character to the replacement path, since splitting on the empty
   * file name splits per character; the empty ref stays empty.
   */
  lemma RewriteWithoutFileName(ref: string, newPath: string, env: Environment)
    requires FileName(ref) == ""
    requires '$' !in ReplacementPath(ref, newPath, env)
    ensures ref == "" ==> RewriteRef(ref, newPath, env) == ""
    ensures ref != "" ==> RewriteRef(ref, newPath, env) == ReplacementPath(ref, newPath, env) + ref[1..]
  {
    var repl := ReplacementPath(ref, newPath, env);
    if ref == "" {
      assert PathToReplace(ref) == "undefined";
      ReplaceAbsent(ref, "undefined", repl);
    } else {
      assert PathToReplace(ref) == ref[..1];
      ReplacePrefix(ref, ref[..1], repl);
      ExpandWithoutDollar(repl, ref[..1], "", ref[1..]);
    }
  }

  // ---------------------------------------------------------------------------
  // Rewriting the listed definitions of one schema

  /** `['definitions'][P]['allOf'][0]`: where the reference object is looked up. */
  function RefObjectPath(property: string): seq<string>
  {
    ["definitions", property, "allOf", "0"]
  }

  /** Where the `$ref` of definition `property` sits. */
  function RefLocation(property: string): seq<string>
  {
    RefObjectPath(property) + ["$ref"]
  }

  /** The `$ref` string of definition `property`, if the schema has one there. */
  function CurrentRef(schema: Json, property: string): Option<string>
  {
    match At(schema, RefLocation(property))
    case Some(Str(s)) => Some(s)
    case _ => None
  }

  /** The TypeErrors and read failures that abort the rewriting. */
  datatype RefError =
    | Unreadable(directory: string)   // the schema file could not be read or parsed
    | MissingReferenceObject          // `get` found nothing (or null): reading '$ref' throws
    | RefNotString                    // the `$ref` found has no `split`

  /** The two refs of distinct definitions sit at locations that part ways. */
  lemma RefLocationsDiverge(p1: string, p2: string)
    requires p1 != p2
    ensures Diverges(RefLocation(p1), RefLocation(p2)) && Diverges(RefObjectPath(p1), RefLocation(p2))
  {
    assert RefLocation(p1)[1] == p1 && RefLocation(p2)[1] == p2 && RefObjectPath(p1)[1] == p1;
  }

  /** The ref of the reference object is a string exactly when `CurrentRef` finds one. */
  lemma CurrentRefFromObject(schema: Json, property: string)
    ensures CurrentRef(schema, property).Some? <==>
      match At(schema, RefObjectPath(property))
      case Some(Obj(fields)) => "$ref" in fields && fields["$ref"].Str?
      case _ => false
    ensures CurrentRef(schema, property).Some? ==>
      At(schema, RefObjectPath(property)).value.fields["$ref"] == Str(CurrentRef(schema, property).value)
  {
    AtAppend(schema, RefObjectPath(property), "$ref");
    assert !IsDigit('f');
  }

  /**
   * One pass of the inner loop: the ref of `property` is rewritten, or the
   * TypeError the lookup throws is returned.
   */
  function UpdateDefinition(schema: Json, property: string, rewrite: string -> string): Result<Json, RefError>
  {
    match At(schema, RefObjectPath(property))
    case None => Failure(MissingReferenceObject)
    case Some(referenceObj) =>
      if referenceObj.Null? then Failure(MissingReferenceObject)
      else if referenceObj.Obj? && "$ref" in referenceObj.fields && referenceObj.fields["$ref"].Str? then
        Success(Set(schema, RefLocation(property), Str(rewrite(referenceObj.fields["$ref"].s))))
      else Failure(RefNotString)
  }

  /**
   * One pass succeeds exactly when the definition has a string `$ref`; that
   * ref is then rewritten and every location that parts ways with it is left
   * as it was; otherwise the error tells a missing (or null) reference object
   * from a `$ref` that is not a string.
   */
  lemma UpdateDefinitionSpec(schema: Json, property: string, rewrite: string -> string)
    ensures var r := UpdateDefinition(schema, property, rewrite);
      && (r.Success? <==> CurrentRef(schema, property).Some?)
      && (r.Success? ==>
            CurrentRef(r.value, property) == Some(rewrite(CurrentRef(schema, property).value)))
      && (r.Success? ==> forall q :: Diverges(RefLocation(property), q) ==> At(r.value, q) == At(schema, q))
      && (r.Failure? ==>
            r.error == (if At(schema, RefObjectPath(property)).None? || At(schema, RefObjectPath(property)) == Some(Null)
                        then MissingReferenceObject else RefNotString))
  {
    CurrentRefFromObject(schema, property);
    var r := UpdateDefinition(schema, property, rewrite);
    if r.Success? {
      var newRef := Str(rewrite(CurrentRef(schema, property).value));
      AtSet(schema, RefLocation(property), newRef);
      SetLeavesOthers(schema, RefLocation(property), newRef);
    }
  }

  /** The inner loop over the listed definitions, in order; the first error aborts it. */
  function UpdateSchema(schema: Json, properties: seq<string>, rewrite: string -> string): Result<Json, RefError>
    decreases |properties|
  {
    if properties == [] then Success(schema)
    else
      match UpdateSchema(schema, properties[..|properties| - 1], rewrite)
      case Failure(e) => Failure(e)
      case Success(s) => UpdateDefinition(s, properties[|properties| - 1], rewrite)
  }

  /**
   * For distinct definitions: the pass succeeds exactly when every listed
   * definition has a string `$ref`; each of those refs is then rewritten from
   * its value as read; and every location that parts ways with all of the
   * listed refs is left as read.
   */
  lemma {:induction false} UpdateSchemaSpec(schema: Json, properties: seq<string>, rewrite: string -> string)
    requires Distinct(properties)
    ensures UpdateSchema(schema, properties, rewrite).Success?
            <==> forall p :: p in properties ==> CurrentRef(schema, p).Some?
    ensures UpdateSchema(schema, properties, rewrite).Success? ==>
      forall p :: p in properties ==>
        CurrentRef(UpdateSchema(schema, properties, rewrite).value, p)
        == Some(rewrite(CurrentRef(schema, p).value))
    ensures UpdateSchema(schema, properties, rewrite).Success? ==>
      forall q :: (forall p :: p in properties ==> Diverges(RefLocation(p), q)) ==>
        At(UpdateSchema(schema, properties, rewrite).value, q) == At(schema, q)
    decreases |properties|
  {
    if properties != [] {
      var n := |properties| - 1;
      var init := properties[..n];
      var last := properties[n];
      assert forall p :: p in properties <==> p in init || p == last;
      assert last !in init;
      UpdateSchemaSpec(schema, init, rewrite);
      var mid := UpdateSchema(schema, init, rewrite);
      if mid.Success? {
        var s := mid.value;
        forall p | p in init
          ensures Diverges(RefLocation(p), RefLocation(last)) && Diverges(RefLocation(last), RefLocation(p))
        {
          RefLocationsDiverge(p, last);
          RefLocationsDiverge(last, p);
        }
        assert At(s, RefLocation(last)) == At(schema, RefLocation(last));
        assert CurrentRef(s, last) == CurrentRef(schema, last);
        UpdateDefinitionSpec(s, last, rewrite);
        var r := UpdateDefinition(s, last, rewrite);
        if r.Success? {
          forall p | p in properties
            ensures CurrentRef(r.value, p) == Some(rewrite(CurrentRef(schema, p).value))
          {
            if p != last {
              assert At(r.value, RefLocation(p)) == At(s, RefLocation(p));
            }
          }
        }
      }
    }
  }

  // ---------------------------------------------------------------------------
  // Rewriting every schema of the table

  /** The file of a directory's schema, relative to the repository root. */
  function SchemaFile(directory: string): string
  {
    directory + "/" + directory + ".json"
  }

  /** Distinct directories have distinct schema files. */
  lemma SchemaFileInjective(d1: string, d2: string)
    requires SchemaFile(d1) == SchemaFile(d2)
    ensures d1 == d2
  {
    assert |d1| == |d2|;
    assert SchemaFile(d1)[..|d1|] == d1;
    assert SchemaFile(d2)[..|d2|] == d2;
  }

  /**
   * `generateUpdatedSchemaObjects` over a table of directories: each
   * directory's schema (absent when its file cannot be read) has its listed
   * refs rewritten and is stored under its schema file; the first error
   * aborts the whole run.
   */
  function UpdatedSchemaObjects(table: seq<(string, seq<string>)>, schemas: map<string, Json>, rewrite: string -> string)
    : Result<map<string, Json>, RefError>
    decreases |table|
  {
    if table == [] then Success(map[])
    else
      match UpdatedSchemaObjects(table[..|table| - 1], schemas, rewrite)
      case Failure(e) => Failure(e)
      case Success(m) =>
        match UpdateDirectory(schemas, table[|table| - 1], rewrite)
        case Failure(e) => Failure(e)
        case Success(s) => Success(m[SchemaFile(table[|table| - 1].0) := s])
  }

  /** One pass of the outer loop: the directory's schema, read and then updated. */
  function UpdateDirectory(schemas: map<string, Json>, entry: (string, seq<string>), rewrite: string -> string)
    : Result<Json, RefError>
  {
    if entry.0 !in schemas then Failure(Unreadable(entry.0))
    else UpdateSchema(schemas[entry.0], entry.1, rewrite)
  }

  /** Whether every directory of the table can be read and passes its inner loop. */
  predicate AllUpdate(table: seq<(string, seq<string>)>, schemas: map<string, Json>, rewrite: string -> string)
  {
    forall i :: 0 <= i < |table| ==> UpdateDirectory(schemas, table[i], rewrite).Success?
  }

  /** The schema files of the table's directories. */
  function SchemaFiles(table: seq<(string, seq<string>)>): set<string>
    decreases |table|
  {
    if table == [] then {} else SchemaFiles(table[..|table| - 1]) + {SchemaFile(table[|table| - 1].0)}
  }

  /**
   * The run succeeds exactly when every directory of the table can be read
   * and passes its inner loop.
   */
  lemma {:induction false} UpdatedSchemaObjectsSucceeds(
    table: seq<(string, seq<string>)>, schemas: map<string, Json>, rewrite: string -> string)
    ensures UpdatedSchemaObjects(table, schemas, rewrite).Success? <==> AllUpdate(table, schemas, rewrite)
    decreases |table|
  {
    if table != [] {
      var n := |table| - 1;
      var init := table[..n];
      UpdatedSchemaObjectsSucceeds(init, schemas, rewrite);
      if AllUpdate(table, schemas, rewrite) {
        forall i | 0 <= i < n
          ensures UpdateDirectory(schemas, init[i], rewrite).Success?
        {
          assert init[i] == table[i];
        }
      } else if AllUpdate(init, schemas, rewrite) {
        forall i | 0 <= i < n
          ensures UpdateDirectory(schemas, table[i], rewrite).Success?
        {
          assert init[i] == table[i];
        }
      }
    }
  }

  /** A successful run stores one entry per directory, under its schema file, and nothing else. */
  lemma {:induction false} UpdatedSchemaObjectsKeys(
    table: seq<(string, seq<string>)>, schemas: map<string, Json>, rewrite: string -> string)
    ensures UpdatedSchemaObjects(table, schemas, rewrite).Success? ==>
      UpdatedSchemaObjects(table, schemas, rewrite).value.Keys == SchemaFiles(table)
    decreases |table|
  {
    if table != [] {
      UpdatedSchemaObjectsKeys(table[..|table| - 1], schemas, rewrite);
    }
  }

  /**
   * For a table without repeated directories, a successful run holds under
   * each directory's schema file that directory's updated schema.
   */
  lemma {:induction false} UpdatedSchemaObjectsValues(
    table: seq<(string, seq<string>)>, schemas: map<string, Json>, rewrite: string -> string)
    requires Distinct(Directories(table))
    ensures UpdatedSchemaObjects(table, schemas, rewrite).Success? ==>
      forall i :: 0 <= i < |table| ==>
        && SchemaFile(table[i].0) in UpdatedSchemaObjects(table, schemas, rewrite).value
        && UpdateDirectory(schemas, table[i], rewrite).Success?
        && UpdatedSchemaObjects(table, schemas, rewrite).value[SchemaFile(table[i].0)]
           == UpdateDirectory(schemas, table[i], rewrite).value
    decreases |table|
  {
    var r := UpdatedSchemaObjects(table, schemas, rewrite);
    if table != [] && r.Success? {
      var n := |table| - 1;
      assert Distinct(Directories(table[..n])) by {
        forall a, b | 0 <= a < b < n
          ensures Directories(table[..n])[a] != Directories(table[..n])[b]
        {
          assert Directories(table)[a] != Directories(table)[b];
        }
      }
      forall i | 0 <= i < |table|
        ensures SchemaFile(table[i].0) in r.value && UpdateDirectory(schemas, table[i], rewrite).Success?
        ensures r.value[SchemaFile(table[i].0)] == UpdateDirectory(schemas, table[i], rewrite).value
      {
        if i < n {
          UpdatedSchemaObjectsValues(table[..n], schemas, rewrite);
          assert table[..n][i] == table[i];
          EarlierDirectoryKept(table, schemas, rewrite, i);
        }
      }
    }
  }

  /**
   * Storing the last directory's schema keeps what the earlier run stored
   * for directory `i`, since their schema files differ.
   */
  lemma EarlierDirectoryKept(table: seq<(string, seq<string>)>, schemas: map<string, Json>, rewrite: string -> string, i: nat)
    requires Distinct(Directories(table)) && i < |table| - 1
    requires UpdatedSchemaObjects(table, schemas, rewrite).Success?
    requires var m := UpdatedSchemaObjects(table[..|table| - 1], schemas, rewrite);
      m.Success? && SchemaFile(table[i].0) in m.value
      && UpdateDirectory(schemas, table[i], rewrite).Success?
      && m.value[SchemaFile(table[i].0)] == UpdateDirectory(schemas, table[i], rewrite).value
    ensures SchemaFile(table[i].0) in UpdatedSchemaObjects(table, schemas, rewrite).value
    ensures UpdatedSchemaObjects(table, schemas, rewrite).value[SchemaFile(table[i].0)]
            == UpdateDirectory(schemas, table[i], rewrite).value
  {
    var n := |table| - 1;
    assert Directories(table)[i] != Directories(table)[n];
    if SchemaFile(table[i].0) == SchemaFile(table[n].0) {
      SchemaFileInjective(table[i].0, table[n].0);
    }
  }

  /** A failure in a prefix of the inner loop is the failure of the whole loop. */
  lemma {:induction false} UpdateSchemaFailureStays(schema: Json, properties: seq<string>, k: nat, rewrite: string -> string)
    requires k <= |properties|
    requires UpdateSchema(schema, properties[..k], rewrite).Failure?
    ensures UpdateSchema(schema, properties, rewrite) == UpdateSchema(schema, properties[..k], rewrite)
    decreases |properties| - k
  {
    if k < |properties| {
      var n := |properties| - 1;
      assert properties[..n][..k] == properties[..k];
      UpdateSchemaFailureStays(schema, properties[..n], k, rewrite);
      var e := UpdateSchema(schema, properties[..k], rewrite).error;
      assert UpdateSchema(schema, properties[..n], rewrite) == Failure(e);
    } else {
      assert properties[..k] == properties;
    }
  }

  /** A failure in a prefix of the table is the failure of the whole run. */
  lemma {:induction false} UpdatedSchemaObjectsFailureStays(
    table: seq<(string, seq<string>)>, k: nat, schemas: map<string, Json>, rewrite: string -> string)
    requires k <= |table|
    requires UpdatedSchemaObjects(table[..k], schemas, rewrite).Failure?
    ensures UpdatedSchemaObjects(table, schemas, rewrite) == UpdatedSchemaObjects(table[..k], schemas, rewrite)
    decreases |table| - k
  {
    if k < |table| {
      var n := |table| - 1;
      assert table[..n][..k] == table[..k];
      UpdatedSchemaObjectsFailureStays(table[..n], k, schemas, rewrite);
    } else {
      assert table[..k] == table;
    }
  }

  /**
   * The inner loop of `generateUpdatedSchemaObjects`: each listed definition
   * of the parsed schema gets its `$ref` rewritten in turn; a thrown
   * TypeError ends the loop.
   */
  method UpdateSchemaObject(schema: Json, properties: seq<string>, rewrite: string -> string)
    returns (r: Result<Json, RefError>)
    ensures r == UpdateSchema(schema, properties, rewrite)
  {
    var schemaObject := schema;
    var p := 0;
    while p < |properties|
      invariant 0 <= p <= |properties|
      invariant UpdateSchema(schema, properties[..p], rewrite) == Success(schemaObject)
    {
      var property := properties[p];
      assert properties[..p + 1][..p] == properties[..p];
      var referenceObj := At(schemaObject, RefObjectPath(property));
      if referenceObj.None? || referenceObj.value.Null? {
        r := Failure(MissingReferenceObject);
        UpdateSchemaFailureStays(schema, properties, p + 1, rewrite);
        return;
      }
      var obj := referenceObj.value;
      if !(obj.Obj? && "$ref" in obj.fields && obj.fields["$ref"].Str?) {
        r := Failure(RefNotString);
        UpdateSchemaFailureStays(schema, properties, p + 1, rewrite);
        return;
      }
      var currentRef := obj.fields["$ref"].s;
      schemaObject := Set(schemaObject, RefLocation(property), Str(rewrite(currentRef)));
      p := p + 1;
    }
    assert properties[..p] == properties;
    r := Success(schemaObject);
  }

  /**
   * `generateUpdatedSchemaObjects(newPath, environment)`: for each directory
   * of REF_MAP it takes the parsed schema, rewrites the listed refs and
   * stores the schema under its file; an error ends the run.
   */
  method GenerateUpdatedSchemaObjects(schemas: map<string, Json>, newPath: string, environment: Environment)
    returns (r: Result<map<string, Json>, RefError>)
    ensures r == UpdatedSchemaObjects(REF_MAP, schemas, RefRewriter(newPath, environment))
  {
    var rewrite := RefRewriter(newPath, environment);
    var updatedSchemaMap: map<string, Json> := map[];
    var d := 0;
    while d < |REF_MAP|
      invariant 0 <= d <= |REF_MAP|
      invariant UpdatedSchemaObjects(REF_MAP[..d], schemas, rewrite) == Success(updatedSchemaMap)
    {
      var (directory, properties) := REF_MAP[d];
      assert REF_MAP[..d + 1][..d] == REF_MAP[..d];
      if directory !in schemas {
        r := Failure(Unreadable(directory));
        UpdatedSchemaObjectsFailureStays(REF_MAP, d + 1, schemas, rewrite);
        return;
      }
      var schemaObject := UpdateSchemaObject(schemas[directory], properties, rewrite);
      if schemaObject.Failure? {
        r := Failure(schemaObject.error);
        UpdatedSchemaObjectsFailureStays(REF_MAP, d + 1, schemas, rewrite);
        return;
      }
      updatedSchemaMap := updatedSchemaMap[SchemaFile(directory) := schemaObject.value];
      d := d + 1;
    }
    assert REF_MAP[..d] == REF_MAP;
    r := Success(updatedSchemaMap);
  }

  /** The schema files of REF_MAP's three directories. */
  lemma RefMapSchemaFiles()
    ensures SchemaFiles(REF_MAP) ==
      {SchemaFile("commercial-transaction"), SchemaFile("product-description"), SchemaFile("validation")}
  {
    assert REF_MAP[..2][..1] == REF_MAP[..1] && REF_MAP[..1][..0] == [];
    assert SchemaFiles(REF_MAP[..1]) == {SchemaFile(REF_MAP[0].0)};
    assert SchemaFiles(REF_MAP[..2]) == {SchemaFile(REF_MAP[0].0), SchemaFile(REF_MAP[1].0)};
  }

  /**
   * For REF_MAP, a successful run yields exactly the three schema files, each
   * holding its directory's updated schema.
   */
  lemma RefMapUpdate(schemas: map<string, Json>, rewrite: string -> string)
    ensures var r := UpdatedSchemaObjects(REF_MAP, schemas, rewrite);
      r.Success? ==>
        && r.value.Keys ==
             {SchemaFile("commercial-transaction"), SchemaFile("product-description"), SchemaFile("validation")}
        && forall i :: 0 <= i < |REF_MAP| ==>
             && UpdateDirectory(schemas, REF_MAP[i], rewrite).Success?
             && r.value[SchemaFile(REF_MAP[i].0)] == UpdateDirectory(schemas, REF_MAP[i], rewrite).value
  {
    UpdatedSchemaObjectsKeys(REF_MAP, schemas, rewrite);
    RefMapSchemaFiles();
    RefMapShape();
    UpdatedSchemaObjectsValues(REF_MAP, schemas, rewrite);
  }

  /**
   * What the script does to the schemas: after a successful run, in each
   * directory's stored schema, each listed definition's `$ref` is the
   * rewrite of the one read, and every location that parts ways with all of
   * the listed refs is as read.
   */
  lemma RefMapRewritesRefs(schemas: map<string, Json>, newPath: string, env: Environment)
    ensures var r := UpdatedSchemaObjects(REF_MAP, schemas, RefRewriter(newPath, env));
      r.Success? ==>
        forall i :: 0 <= i < |REF_MAP| ==>
          var (directory, properties) := REF_MAP[i];
          && directory in schemas
          && SchemaFile(directory) in r.value
          && (forall p :: p in properties ==>
                && CurrentRef(schemas[directory], p).Some?
                && CurrentRef(r.value[SchemaFile(directory)], p)
                   == Some(RewriteRef(CurrentRef(schemas[directory], p).value, newPath, env)))
          && (forall q :: (forall p :: p in properties ==> Diverges(RefLocation(p), q)) ==>
                At(r.value[SchemaFile(directory)], q) == At(schemas[directory], q))
  {
    var rewrite := RefRewriter(newPath, env);
    var r := UpdatedSchemaObjects(REF_MAP, schemas, rewrite);
    if r.Success? {
      RefMapUpdate(schemas, rewrite);
      RefMapShape();
      forall i | 0 <= i < |REF_MAP|
        ensures REF_MAP[i].0 in schemas && SchemaFile(REF_MAP[i].0) in r.value
        ensures forall p :: p in REF_MAP[i].1 ==>
                && CurrentRef(schemas[REF_MAP[i].0], p).Some?
                && CurrentRef(r.value[SchemaFile(REF_MAP[i].0)], p)
                   == Some(RewriteRef(CurrentRef(schemas[REF_MAP[i].0], p).value, newPath, env))
        ensures forall q :: (forall p :: p in REF_MAP[i].1 ==> Diverges(RefLocation(p), q)) ==>
                At(r.value[SchemaFile(REF_MAP[i].0)], q) == At(schemas[REF_MAP[i].0], q)
      {
        var (directory, properties) := REF_MAP[i];
        UpdateSchemaSpec(schemas[directory], properties, rewrite);
      }
    }
  }
}
