/** The self-containment check of the published zod artifact, over a table of installed files. */
module ModuleClosure {
  import opened Wrappers
  import opened Reachability

  /** An existing path, directories included; `specifiers` is `None` when the file does not parse. */
  datatype FileInfo = FileInfo(isFile: bool, size: nat, specifiers: Option<seq<string>>)

  /** Node's path functions. */
  datatype Paths = Paths(
    join: (string, string) -> string,
    dirname: string -> string,
    relativeToDist: string -> string,
    isAbsolute: string -> bool)

  /** The installed package: its files, and the entry artifact's path. */
  datatype Package = Package(files: map<string, FileInfo>, entry: string, paths: Paths)

  datatype Error =
    | MissingArtifact
    | InvalidOrTooLarge(path: string)
    | Unparsable(path: string)
    | ImportsZod(path: string, specifier: string)

  const MAX_DIST_JS_BYTES: nat := 6 * 1024 * 1024

  predicate Exists(pkg: Package, path: string) {
    path != "" && path in pkg.files
  }

  // ---------- resolving one import ----------

  function Candidates(pkg: Package, importer: string, specifier: string): seq<string> {
    var base := pkg.paths.join(pkg.paths.dirname(importer), specifier);
    [base, base + ".js", base + ".mjs", base + ".cjs",
     pkg.paths.join(base, "index.js"), pkg.paths.join(base, "index.mjs"), pkg.paths.join(base, "index.cjs")]
  }

  /** Inside the dist root, and present. */
  predicate Usable(pkg: Package, path: string) {
    var relativePath := pkg.paths.relativeToDist(path);
    relativePath != "" && !(".." <= relativePath) && !pkg.paths.isAbsolute(relativePath) && Exists(pkg, path)
  }

  function FirstUsable(pkg: Package, candidates: seq<string>): (r: Option<string>)
    ensures r.Some? ==> r.value in candidates && Usable(pkg, r.value)
    ensures r.None? <==> forall c | c in candidates :: !Usable(pkg, c)
  {
    if candidates == [] then None
    else if Usable(pkg, candidates[0]) then Some(candidates[0])
    else FirstUsable(pkg, candidates[1..])
  }

  function Resolve(pkg: Package, importer: string, specifier: string): Option<string> {
    if !("." <= specifier) then None else FirstUsable(pkg, Candidates(pkg, importer, specifier))
  }

  method ResolveInstalledDistRelativeImport(pkg: Package, importer: string,
                                            specifier: string) returns (r: Option<string>)
    ensures r == Resolve(pkg, importer, specifier)
  {
    if !("." <= specifier) {
      return None;
    }
    var candidatePaths := Candidates(pkg, importer, specifier);
    for i := 0 to |candidatePaths|
      invariant FirstUsable(pkg, candidatePaths) == FirstUsable(pkg, candidatePaths[i..])
    {
      assert candidatePaths[i..][1..] == candidatePaths[i + 1..];
      var resolvedPath := candidatePaths[i];
      var relativePath := pkg.paths.relativeToDist(resolvedPath);
      if relativePath == "" || ".." <= relativePath || pkg.paths.isAbsolute(relativePath)
          || !Exists(pkg, resolvedPath) {
        continue;
      }
      return Some(resolvedPath);
    }
    return None;
  }

  // ---------- the statement to decide ----------

  predicate NamesZod(specifier: string) {
    specifier == "zod" || "zod/" <= specifier
  }

  /** One module by itself: there, a plain file within the limit, parsable, and not importing zod. */
  predicate ModuleOk(pkg: Package, path: string) {
    && Exists(pkg, path)
    && var info := pkg.files[path];
       info.isFile && info.size <= MAX_DIST_JS_BYTES && info.specifiers.Some?
       && forall s | s in info.specifiers.value :: !NamesZod(s)
  }

  /** The modules a module's relative imports resolve to. */
  function Imports(pkg: Package): string -> set<string> {
    path =>
      if path in pkg.files && pkg.files[path].specifiers.Some? then
        set s | s in pkg.files[path].specifiers.value && Resolve(pkg, path, s).Some? :: Resolve(pkg, path, s).value
      else {}
  }

  ghost predicate InClosure(pkg: Package, path: string) {
    Reachable(Imports(pkg), pkg.entry, path)
  }

  /** `e` is what is wrong with a module. */
  predicate Explains(pkg: Package, e: Error, path: string) {
    match e
    case MissingArtifact => path == pkg.entry && !Exists(pkg, path)
    case InvalidOrTooLarge(p) =>
      p == path && Exists(pkg, path) && (!pkg.files[path].isFile || pkg.files[path].size > MAX_DIST_JS_BYTES)
    case Unparsable(p) => p == path && Exists(pkg, path) && pkg.files[path].specifiers.None?
    case ImportsZod(p, s) =>
      p == path && Exists(pkg, path) && pkg.files[path].specifiers.Some? && s in pkg.files[path].specifiers.value
          && NamesZod(s)
  }

  // ---------- the worklist ----------

  ghost predicate WorkInv(pkg: Package, visited: set<string>, pending: seq<string>) {
    && (forall p | p in visited :: ModuleOk(pkg, p) && InClosure(pkg, p))
    && (forall p | p in pending :: p == pkg.entry || Exists(pkg, p))
    && (forall p | p in pending :: InClosure(pkg, p))
    && (pkg.entry in visited || pkg.entry in pending)
    && forall p, q | p in visited && q in Imports(pkg)(p) :: q in visited || q in pending
  }

  /** The pending stack after the specifiers of `path` before index `i` have been handled. */
  ghost predicate Pushed(pkg: Package, path: string, specifiers: seq<string>, i: nat, before: seq<string>,
                         pending: seq<string>)
    requires i <= |specifiers|
  {
    && (forall p | p in before :: p in pending)
    && (forall p | p in pending ::
          p in before || exists j :: 0 <= j < i && Resolve(pkg, path, specifiers[j]) == Some(p))
    && (forall j | 0 <= j < i :: !NamesZod(specifiers[j])
                                 && (Resolve(pkg, path, specifiers[j]).Some?
                                     ==> Resolve(pkg, path, specifiers[j]).value in pending))
  }

  lemma {:induction false} ResolvedExists(pkg: Package, path: string, specifier: string)
    ensures Resolve(pkg, path, specifier).Some? ==> Exists(pkg, Resolve(pkg, path, specifier).value)
  {
  }

  lemma {:induction false} VisitKeepsInv(pkg: Package, visited: set<string>, before: seq<string>, path: string,
                                         pending: seq<string>)
    requires WorkInv(pkg, visited, before + [path]) && Exists(pkg, path)
    requires pkg.files[path].isFile && pkg.files[path].size <= MAX_DIST_JS_BYTES && pkg.files[path].specifiers.Some?
    requires var ss := pkg.files[path].specifiers.value; Pushed(pkg, path, ss, |ss|, before, pending)
    ensures WorkInv(pkg, visited + {path}, pending)
  {
    var ss := pkg.files[path].specifiers.value;
    assert path in before + [path];
    assert forall p | p in before :: p in before + [path];
    assert forall p | p in before + [path] :: p in before || p == path;
    forall p | p in pending
      ensures (p == pkg.entry || Exists(pkg, p)) && InClosure(pkg, p)
    {
      if p !in before {
        var j :| 0 <= j < |ss| && Resolve(pkg, path, ss[j]) == Some(p);
        ResolvedExists(pkg, path, ss[j]);
        assert p in Imports(pkg)(path);
        StepReachable(Imports(pkg), pkg.entry, path, p);
      }
    }
    forall p, q | p in visited + {path} && q in Imports(pkg)(p)
      ensures q in visited + {path} || q in pending
    {
      if p in visited {
        assert q in visited || q in before + [path];
      } else {
        var s :| s in ss && Resolve(pkg, path, s) == Some(q);
      }
    }
  }

  lemma {:induction false} SkipKeepsInv(pkg: Package, visited: set<string>, before: seq<string>, path: string)
    requires WorkInv(pkg, visited, before + [path]) && path in visited
    ensures WorkInv(pkg, visited, before)
  {
    assert forall p | p in before :: p in before + [path];
    assert forall p | p in before + [path] :: p in before || p == path;
    forall p, q | p in visited && q in Imports(pkg)(p)
      ensures q in visited || q in before
    {
      assert q in visited || q in before + [path];
    }
  }

  lemma {:induction false} WorkDone(pkg: Package, visited: set<string>)
    requires WorkInv(pkg, visited, [])
    ensures forall p | InClosure(pkg, p) :: ModuleOk(pkg, p)
  {
    hide ModuleOk, Imports, Exists;
    forall p, q | p in visited && q in Imports(pkg)(p)
      ensures q in visited
    {
      assert q !in [];
    }
    forall p | InClosure(pkg, p)
      ensures p in visited
    {
      ClosedHoldsReachable(Imports(pkg), pkg.entry, visited, p);
    }
  }

  lemma {:induction false} WorkStarts(pkg: Package)
    ensures WorkInv(pkg, {}, [pkg.entry])
  {
    RootReachable(Imports(pkg), pkg.entry);
  }

  lemma {:induction false} TopOfStack(pkg: Package, visited: set<string>, before: seq<string>, path: string)
    requires WorkInv(pkg, visited, before + [path])
    ensures InClosure(pkg, path) && (path == pkg.entry || Exists(pkg, path))
  {
    assert path in before + [path];
  }

  /**
   No error exactly when every module in the closure of the entry is in order; otherwise the error
   names a module of the closure and says what is wrong with it.  Import cycles are harmless.
   */
  method CollectInstalledPluginSdkZodArtifactErrors(pkg: Package) returns (errors: seq<Error>)
    requires pkg.entry != ""
    ensures errors == [] <==> forall p | InClosure(pkg, p) :: ModuleOk(pkg, p)
    ensures errors == []
        || (|errors| == 1 && exists p | InClosure(pkg, p) :: Explains(pkg, errors[0], p) && !ModuleOk(pkg, p))
  {
    hide WorkInv, InClosure, Resolve;
    var pending := [pkg.entry];
    var visited: set<string> := {};
    WorkStarts(pkg);
    while |pending| > 0
      invariant WorkInv(pkg, visited, pending)
      decreases pkg.files.Keys + {pkg.entry} - visited, |pending|
    {
      var filePath := pending[|pending| - 1];
      assert pending == pending[..|pending| - 1] + [filePath];
      pending := pending[..|pending| - 1];
      TopOfStack(pkg, visited, pending, filePath);
      if filePath == "" || filePath in visited {
        SkipKeepsInv(pkg, visited, pending, filePath);
        continue;
      }
      ghost var before := pending;
      if !Exists(pkg, filePath) {
        assert Explains(pkg, MissingArtifact, filePath) && !ModuleOk(pkg, filePath);
        return [MissingArtifact];
      }
      var info := pkg.files[filePath];
      if !info.isFile || info.size > MAX_DIST_JS_BYTES {
        assert Explains(pkg, InvalidOrTooLarge(filePath), filePath) && !ModuleOk(pkg, filePath);
        return [InvalidOrTooLarge(filePath)];
      }
      if info.specifiers.None? {
        assert Explains(pkg, Unparsable(filePath), filePath) && !ModuleOk(pkg, filePath);
        return [Unparsable(filePath)];
      }
      var specifiers := info.specifiers.value;
      for i := 0 to |specifiers|
        invariant Pushed(pkg, filePath, specifiers, i, before, pending)
      {
        var specifier := specifiers[i];
        if specifier == "zod" || "zod/" <= specifier {
          assert Explains(pkg, ImportsZod(filePath, specifier), filePath) && !ModuleOk(pkg, filePath);
          return [ImportsZod(filePath, specifier)];
        }
        var resolvedPath := ResolveInstalledDistRelativeImport(pkg, filePath, specifier);
        if resolvedPath.Some? {
          pending := pending + [resolvedPath.value];
        }
      }
      VisitKeepsInv(pkg, visited, before, filePath, pending);
      visited := visited + {filePath};
    }
    WorkDone(pkg, visited);
    return [];
  }
}
