/**
 Kernel-module selection: the dependency worklist of `resolve_module_dependencies` and the
 deletion loop of `process_kernel_modules`. The dependency maps are given.
 */
module Kmod {

  type Deps = map<string, seq<string>>

  // ----- Names of module files

  function Normalize(name: string): string {
    if name == "" then "" else [if name[0] == '_' then '-' else name[0]] + Normalize(name[1..])
  }

  /** The last component of a path. */
  function BaseName(path: string): string {
    if path == "" then ""
    else if path[|path| - 1] == '/' then ""
    else BaseName(path[..|path| - 1]) + [path[|path| - 1]]
  }

  function UntilDot(name: string): string {
    if name == "" || name[0] == '.' then "" else [name[0]] + UntilDot(name[1..])
  }

  /** `module_path_to_name`. */
  function ModuleName(path: string): string {
    Normalize(UntilDot(BaseName(path)))
  }

  lemma {:induction false} BaseNameBehind(dir: string, name: string)
    requires (dir == "" || dir[|dir| - 1] == '/') && '/' !in name
    ensures BaseName(dir + name) == name
    decreases |name|
  {
    if name == "" {
      assert dir + name == dir;
    } else {
      var n := |name| - 1;
      assert (dir + name)[..|dir + name| - 1] == dir + name[..n];
      BaseNameBehind(dir, name[..n]);
    }
  }

  lemma {:induction false} DotEnds(stem: string, suffix: string)
    requires '.' !in stem && (suffix == "" || suffix[0] == '.')
    ensures UntilDot(stem + suffix) == stem
    decreases |stem|
  {
    if stem == "" {
      assert stem + suffix == suffix;
    } else {
      assert (stem + suffix)[1..] == stem[1..] + suffix;
      DotEnds(stem[1..], suffix);
    }
  }

  lemma {:induction false} NormalizeAt(name: string, i: nat)
    requires i < |name|
    ensures |Normalize(name)| == |name| && Normalize(name)[i] == if name[i] == '_' then '-' else name[i]
    decreases i
  {
    NormalizeLength(name);
    if i == 0 {
    } else {
      NormalizeAt(name[1..], i - 1);
    }
  }

  lemma {:induction false} NormalizeLength(name: string)
    ensures |Normalize(name)| == |name|
    decreases |name|
  {
    if name == "" {
    } else {
      NormalizeLength(name[1..]);
    }
  }

  /** The module in `dir/a_b.ko.xz` is called `a-b`. */
  lemma ModuleNameIs(dir: string, stem: string, suffix: string)
    requires dir == "" || dir[|dir| - 1] == '/'
    requires '/' !in stem && '.' !in stem && '/' !in suffix && (suffix == "" || suffix[0] == '.')
    ensures
      var name := ModuleName(dir + stem + suffix);
      |name| == |stem| && forall i :: 0 <= i < |stem| ==> name[i] == if stem[i] == '_' then '-' else stem[i]
  {
    assert dir + stem + suffix == dir + (stem + suffix);
    BaseNameBehind(dir, stem + suffix);
    DotEnds(stem, suffix);
    NormalizeLength(stem);
    forall i | 0 <= i < |stem| ensures Normalize(stem)[i] == if stem[i] == '_' then '-' else stem[i] {
      NormalizeAt(stem, i);
    }
  }

  // ----- Reachability

  function Elements(xs: seq<string>): set<string> {
    set x | x in xs
  }

  function DepsOf(deps: Deps, m: string): seq<string> {
    if m in deps then deps[m] else []
  }

  ghost predicate IsChain(deps: Deps, p: seq<string>) {
    forall i :: 0 <= i < |p| - 1 ==> p[i + 1] in DepsOf(deps, p[i])
  }

  /** `p` is a chain of dependencies from `a` to `b`. */
  ghost predicate Connects(deps: Deps, p: seq<string>, a: string, b: string) {
    p != [] && IsChain(deps, p) && p[0] == a && p[|p| - 1] == b
  }

  /** `b` is `a` or a transitive dependency of it. */
  ghost predicate DependsOn(deps: Deps, a: string, b: string) {
    exists p :: Connects(deps, p, a, b)
  }

  ghost predicate Reachable(deps: Deps, roots: set<string>, m: string) {
    exists r :: r in roots && DependsOn(deps, r, m)
  }

  lemma DependsOnSelf(deps: Deps, m: string)
    ensures DependsOn(deps, m, m)
  {
    assert Connects(deps, [m], m, m);
  }

  lemma ReachableNext(deps: Deps, roots: set<string>, m: string, d: string)
    requires Reachable(deps, roots, m) && d in DepsOf(deps, m)
    ensures Reachable(deps, roots, d)
  {
    var r :| r in roots && DependsOn(deps, r, m);
    var p :| Connects(deps, p, r, m);
    assert Connects(deps, p + [d], r, d);
    assert DependsOn(deps, r, d);
  }

  ghost predicate Closed(deps: Deps, s: set<string>) {
    forall m, d :: m in s && d in DepsOf(deps, m) ==> d in s
  }

  lemma {:induction false} ClosedHoldsChains(deps: Deps, s: set<string>, p: seq<string>)
    requires Closed(deps, s) && p != [] && IsChain(deps, p) && p[0] in s
    ensures p[|p| - 1] in s
    decreases |p|
  {
    if |p| == 1 {
    } else {
      assert p[1] in DepsOf(deps, p[0]);
      assert IsChain(deps, p[1..]) by {
        forall i | 0 <= i < |p[1..]| - 1 ensures p[1..][i + 1] in DepsOf(deps, p[1..][i]) {
          assert p[i + 1 + 1] in DepsOf(deps, p[i + 1]);
        }
      }
      ClosedHoldsChains(deps, s, p[1..]);
    }
  }

  lemma ClosedHoldsReachable(deps: Deps, roots: set<string>, s: set<string>, m: string)
    requires Closed(deps, s) && roots <= s && Reachable(deps, roots, m)
    ensures m in s
  {
    var r :| r in roots && DependsOn(deps, r, m);
    var p :| Connects(deps, p, r, m);
    ClosedHoldsChains(deps, s, p);
  }

  // ----- The worklist

  /** Everything between the worklist and the finished set is reachable, and nothing is missing. */
  ghost predicate Progress(deps: Deps, roots: set<string>, mods: set<string>, todo: seq<string>) {
    && (forall r :: r in roots ==> r in mods || r in todo)
    && (forall m :: m in mods || m in todo ==> Reachable(deps, roots, m))
    && (forall m, d :: m in mods && d in DepsOf(deps, m) ==> d in mods || d in todo)
  }

  lemma ProgressStart(deps: Deps, todo: seq<string>)
    ensures Progress(deps, Elements(todo), {}, todo)
  {
    RootsReachable(deps, Elements(todo));
  }

  lemma ProgressDone(deps: Deps, roots: set<string>, mods: set<string>)
    requires Progress(deps, roots, mods, [])
    ensures forall m :: m in mods <==> Reachable(deps, roots, m)
  {
    forall m | Reachable(deps, roots, m) ensures m in mods {
      ClosedHoldsReachable(deps, roots, mods, m);
    }
  }

  lemma ProgressStep(deps: Deps, roots: set<string>, mods: set<string>, todo: seq<string>)
    requires todo != [] && Progress(deps, roots, mods, todo)
    ensures
      var m, front := todo[|todo| - 1], todo[..|todo| - 1];
      Progress(deps, roots, mods + {m}, if m in mods then front else front + DepsOf(deps, m))
  {
    hide Reachable;
    var m, front := todo[|todo| - 1], todo[..|todo| - 1];
    assert todo == front + [m];
    forall d | d in DepsOf(deps, m) ensures Reachable(deps, roots, d) {
      ReachableNext(deps, roots, m, d);
    }
  }

  ghost function FirmwareOf(firmwaredep: Deps, mods: set<string>): set<string> {
    set m, f | m in mods && f in DepsOf(firmwaredep, m) :: f
  }

  lemma NoFirmware(firmwaredep: Deps)
    ensures FirmwareOf(firmwaredep, {}) == {}
  {
  }

  lemma FirmwareAdd(firmwaredep: Deps, mods: set<string>, m: string)
    ensures FirmwareOf(firmwaredep, mods + {m}) == FirmwareOf(firmwaredep, mods) + Elements(DepsOf(firmwaredep, m))
  {
  }

  method Resolve(deps: Deps, firmwaredep: Deps, builtin: seq<string>, modules: seq<string>)
    returns (mods: set<string>, firmware: set<string>)
    ensures forall m :: m in mods <==> Reachable(deps, Elements(builtin + modules), m)
    ensures firmware == FirmwareOf(firmwaredep, mods)
  {
    hide Reachable, Progress, FirmwareOf;
    var todo := builtin + modules;
    ghost var roots := Elements(builtin + modules);
    mods, firmware := {}, {};
    ProgressStart(deps, todo);
    NoFirmware(firmwaredep);
    while todo != []
      invariant Progress(deps, roots, mods, todo)
      invariant firmware == FirmwareOf(firmwaredep, mods)
      decreases |deps.Keys - mods|, |todo|
    {
      ProgressStep(deps, roots, mods, todo);
      var m := todo[|todo| - 1];
      todo := todo[..|todo| - 1];
      if m in mods {
        assert mods + {m} == mods;
        continue;
      }
      ghost var before := deps.Keys - mods;
      FirmwareAdd(firmwaredep, mods, m);
      mods := mods + {m};
      assert deps.Keys - mods == before - {m};
      todo := todo + DepsOf(deps, m);
      firmware := firmware + Elements(DepsOf(firmwaredep, m));
    }
    ProgressDone(deps, roots, mods);
  }

  lemma RootsReachable(deps: Deps, roots: set<string>)
    ensures forall r :: r in roots ==> Reachable(deps, roots, r)
  {
    forall r | r in roots ensures Reachable(deps, roots, r) {
      DependsOnSelf(deps, r);
    }
  }

  // ----- The deletion

  /** `{module_path_to_name(m): m for m in files}`, for any order of the files. */
  ghost predicate NamesFiles(nametofile: map<string, string>, files: set<string>) {
    && (forall n :: n in nametofile ==> nametofile[n] in files && ModuleName(nametofile[n]) == n)
    && (forall f :: f in files ==> ModuleName(f) in nametofile)
  }

  ghost predicate UniqueNames(files: set<string>) {
    forall f, g :: f in files && g in files && ModuleName(f) == ModuleName(g) ==> f == g
  }

  /** No kept module depends, directly or not, on an installed one that was deleted. */
  ghost predicate NothingMissing(deps: Deps, files: set<string>, kept: set<string>) {
    forall f, g :: f in kept && g in files && DependsOn(deps, ModuleName(f), ModuleName(g)) ==> g in kept
  }

  method DeleteOthers(files: set<string>, required: set<string>) returns (kept: set<string>)
    ensures kept == files * required
  {
    kept := files;
    var left := files;
    while left != {}
      invariant left <= files
      invariant kept == left + (files - left) * required
      decreases |left|
    {
      var f :| f in left;
      left := left - {f};
      if f !in required {
        kept := kept - {f};
      }
    }
  }

  /** `selected` are the modules that survive the include and exclude patterns. */
  method Process(deps: Deps, builtin: seq<string>, files: set<string>, nametofile: map<string, string>,
                 selected: seq<string>, excluding: bool) returns (kept: set<string>)
    requires NamesFiles(nametofile, files)
    ensures kept <= files
    ensures UniqueNames(files) ==> NothingMissing(deps, files, kept)
    ensures UniqueNames(files) ==> forall f :: f in files && f in selected ==> f in kept
    ensures excluding ==>
              forall f :: f in kept <==>
                && f in files && nametofile[ModuleName(f)] == f
                && Reachable(deps, Elements(builtin + ModuleNames(selected)), ModuleName(f))
  {
    if !excluding {
      return files;
    }
    var mods, _ := Resolve(deps, map[], builtin, ModuleNames(selected));
    var required := set m | m in mods && m in nametofile :: nametofile[m];
    kept := DeleteOthers(files, required);
    if UniqueNames(files) {
      KeptAreReachable(deps, builtin, files, nametofile, selected, mods, kept);
    }
  }

  function ModuleNames(paths: seq<string>): (r: seq<string>)
    ensures |r| == |paths| && forall i :: 0 <= i < |r| ==> r[i] == ModuleName(paths[i])
  {
    seq(|paths|, i requires 0 <= i < |paths| => ModuleName(paths[i]))
  }

  lemma DependsTransitive(deps: Deps, a: string, b: string, c: string)
    requires DependsOn(deps, a, b) && DependsOn(deps, b, c)
    ensures DependsOn(deps, a, c)
  {
    var p :| Connects(deps, p, a, b);
    var q :| Connects(deps, q, b, c);
    var r := p + q[1..];
    forall i | 0 <= i < |r| - 1 ensures r[i + 1] in DepsOf(deps, r[i]) {
      if i < |p| - 1 {
        assert p[i + 1] in DepsOf(deps, p[i]);
      } else {
        var j := i - (|p| - 1);
        assert r[i] == q[j] && r[i + 1] == q[j + 1];
      }
    }
    assert Connects(deps, r, a, c);
  }

  lemma KeptAreReachable(deps: Deps, builtin: seq<string>, files: set<string>, nametofile: map<string, string>,
                         selected: seq<string>, mods: set<string>, kept: set<string>)
    requires NamesFiles(nametofile, files) && UniqueNames(files)
    requires forall m :: m in mods <==> Reachable(deps, Elements(builtin + ModuleNames(selected)), m)
    requires kept == files * (set m | m in mods && m in nametofile :: nametofile[m])
    ensures forall f :: f in kept <==> f in files && ModuleName(f) in mods
    ensures NothingMissing(deps, files, kept)
    ensures forall f :: f in files && f in selected ==> f in kept
  {
    hide ModuleName;
    var roots := Elements(builtin + ModuleNames(selected));
    forall f | f in files && ModuleName(f) in mods ensures f in kept {
      assert nametofile[ModuleName(f)] == f;
    }
    forall f, g | f in kept && g in files && DependsOn(deps, ModuleName(f), ModuleName(g)) ensures g in kept {
      var r :| r in roots && DependsOn(deps, r, ModuleName(f));
      DependsTransitive(deps, r, ModuleName(f), ModuleName(g));
      assert Reachable(deps, roots, ModuleName(g));
    }
    RootsReachable(deps, roots);
    forall f | f in files && f in selected ensures f in kept {
      var i :| 0 <= i < |selected| && selected[i] == f;
      assert ModuleNames(selected)[i] in builtin + ModuleNames(selected);
    }
  }
}
