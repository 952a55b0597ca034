/** Which imports of the published artifact are followed, to which files, and what makes a module fail the check. */
module ImportResolution {
  import opened Wrappers
  import opened Reachability
  import opened ModuleClosure

  /** A present path inside the dist root: not the root itself, not above it, and not on another drive. */
  predicate InDist(pkg: Package, path: string) {
    var relativePath := pkg.paths.relativeToDist(path);
    && path != "" && path in pkg.files
    && relativePath != "" && !pkg.paths.isAbsolute(relativePath)
    && !(|relativePath| >= 2 && relativePath[0] == '.' && relativePath[1] == '.')
  }

  /** The paths an import may stand for, in the order in which they are tried. */
  function Meaning(pkg: Package, importer: string, specifier: string, i: nat): string
    requires i < 7
  {
    var base := pkg.paths.join(pkg.paths.dirname(importer), specifier);
    match i
    case 0 => base
    case 1 => base + ".js"
    case 2 => base + ".mjs"
    case 3 => base + ".cjs"
    case 4 => pkg.paths.join(base, "index.js")
    case 5 => pkg.paths.join(base, "index.mjs")
    case _ => pkg.paths.join(base, "index.cjs")
  }

  predicate Relative(specifier: string) {
    specifier != "" && specifier[0] == '.'
  }

  /** The import `specifier` leads to `path`: the first of its seven meanings that is present inside dist. */
  ghost predicate LeadsTo(pkg: Package, importer: string, specifier: string, path: string) {
    Relative(specifier) && exists i: nat :: i < 7 && FirstMeaning(pkg, importer, specifier, path, i)
  }

  ghost predicate FirstMeaning(pkg: Package, importer: string, specifier: string, path: string, i: nat)
    requires i < 7
  {
    && path == Meaning(pkg, importer, specifier, i) && InDist(pkg, path)
    && forall j: nat | j < i :: !InDist(pkg, Meaning(pkg, importer, specifier, j))
  }

  lemma {:induction false} UsableIff(pkg: Package, path: string)
    ensures Usable(pkg, path) <==> InDist(pkg, path)
  {
  }

  lemma {:induction false} FirstUsableIs(pkg: Package, candidates: seq<string>, i: nat)
    requires i < |candidates| && Usable(pkg, candidates[i]) && forall j | 0 <= j < i :: !Usable(pkg, candidates[j])
    ensures FirstUsable(pkg, candidates) == Some(candidates[i])
  {
    hide Usable;
    if i > 0 {
      FirstUsableIs(pkg, candidates[1..], i - 1);
    }
  }

  lemma {:induction false} CandidatesAre(pkg: Package, importer: string, specifier: string)
    ensures |Candidates(pkg, importer, specifier)| == 7
    ensures forall i: nat | i < 7 :: Candidates(pkg, importer, specifier)[i] == Meaning(pkg, importer, specifier, i)
  {
  }

  /** An import is followed exactly to the file it leads to: a bare specifier, or one without such a file, to none. */
  lemma {:induction false} ResolveIff(pkg: Package, importer: string, specifier: string)
    ensures forall path :: Resolve(pkg, importer, specifier) == Some(path) <==> LeadsTo(pkg, importer, specifier, path)
    ensures Resolve(pkg, importer, specifier) == None
       <==> !Relative(specifier) || forall i: nat | i < 7 :: !InDist(pkg, Meaning(pkg, importer, specifier, i))
  {
    hide Usable, InDist, FirstUsable, Candidates, Meaning;
    var paths := Candidates(pkg, importer, specifier);
    CandidatesAre(pkg, importer, specifier);
    forall i: nat | i < 7
      ensures Usable(pkg, paths[i]) <==> InDist(pkg, Meaning(pkg, importer, specifier, i))
    {
      UsableIff(pkg, paths[i]);
    }
    if Relative(specifier) {
      assert "." <= specifier;
      if i: nat :| i < 7 && Usable(pkg, paths[i]) {
        var first := FirstOf(pkg, paths, i);
        FirstUsableIs(pkg, paths, first);
        assert FirstMeaning(pkg, importer, specifier, paths[first], first);
        forall path | LeadsTo(pkg, importer, specifier, path)
          ensures path == paths[first]
        {
          var j: nat :| j < 7 && FirstMeaning(pkg, importer, specifier, path, j);
          assert !(j < first) && !(first < j);
        }
      } else {
        assert forall c | c in paths :: !Usable(pkg, c);
      }
    }
  }

  lemma {:induction false} FirstOf(pkg: Package, paths: seq<string>, i: nat) returns (first: nat)
    requires i < |paths| && Usable(pkg, paths[i])
    ensures first <= i && Usable(pkg, paths[first]) && forall j | 0 <= j < first :: !Usable(pkg, paths[j])
  {
    hide Usable;
    first := 0;
    while !Usable(pkg, paths[first])
      invariant first <= i && forall j | 0 <= j < first :: !Usable(pkg, paths[j])
      decreases i - first
    {
      first := first + 1;
    }
  }

  // ---------- the closure ----------

  /** `path` is a parsed module that imports `specifier`. */
  predicate HasImport(pkg: Package, path: string, specifier: string) {
    path in pkg.files && pkg.files[path].specifiers.Some? && specifier in pkg.files[path].specifiers.value
  }

  lemma {:induction false} ImportsIff(pkg: Package, path: string, q: string)
    ensures q in Imports(pkg)(path) <==> exists s :: HasImport(pkg, path, s) && LeadsTo(pkg, path, s, q)
  {
    hide Resolve, LeadsTo;
    forall s
      ensures Resolve(pkg, path, s) == Some(q) <==> LeadsTo(pkg, path, s, q)
    {
      ResolveIff(pkg, path, s);
    }
    if s :| HasImport(pkg, path, s) && LeadsTo(pkg, path, s, q) {
      assert Resolve(pkg, path, s) == Some(q);
    }
  }

  /** The entry is in the closure, and every file that an import of one of its modules leads to. */
  lemma {:induction false} ClosureFollows(pkg: Package, path: string, specifier: string, q: string)
    requires InClosure(pkg, path) && HasImport(pkg, path, specifier) && LeadsTo(pkg, path, specifier, q)
    ensures InClosure(pkg, pkg.entry) && InClosure(pkg, q)
  {
    hide Imports, LeadsTo, HasImport;
    RootReachable(Imports(pkg), pkg.entry);
    ImportsIff(pkg, path, q);
    StepReachable(Imports(pkg), pkg.entry, path, q);
  }

  /** Nothing else is: any other module is led to from one in it, and so lies inside dist. */
  lemma {:induction false} ClosureOnlyFollows(pkg: Package, q: string)
    requires InClosure(pkg, q) && q != pkg.entry
    ensures exists path, s :: InClosure(pkg, path) && HasImport(pkg, path, s) && LeadsTo(pkg, path, s, q)
    ensures InDist(pkg, q)
  {
    hide Imports, HasImport, InDist;
    var nodes :| IsPath(Imports(pkg), pkg.entry, nodes, q);
    var n := |nodes| - 1;
    var path := nodes[n - 1];
    assert IsPath(Imports(pkg), pkg.entry, nodes[..n], path);
    assert InClosure(pkg, path);
    ImportsIff(pkg, path, q);
    var s :| HasImport(pkg, path, s) && LeadsTo(pkg, path, s, q);
  }

  // ---------- what is wrong with a module ----------

  /** A module is in order exactly if it is a plain file of at most 6 MiB that parses and imports no part of zod. */
  lemma {:induction false} InOrderIff(pkg: Package, path: string)
    ensures ModuleOk(pkg, path) <==>
      && path != "" && path in pkg.files && pkg.files[path].isFile && pkg.files[path].size <= 6291456
      && pkg.files[path].specifiers.Some?
      && forall s | HasImport(pkg, path, s) :: s != "zod" && !(|s| >= 4 && s[..4] == "zod/")
  {
    assert forall s: string :: "zod/" <= s <==> |s| >= 4 && s[..4] == "zod/";
    if ModuleOk(pkg, path) {
      assert forall s | HasImport(pkg, path, s) :: !NamesZod(s);
    }
  }
}
