/**
 * The `clean:bundle` task: the list of globs handed to `del`, which empties
 * every package's bundle directory except for its package.json.
 */
module Clean {
  import opened Registry

  /** The glob that selects everything in a package's bundle directory. */
  function IncludeGlob(m: string): string {
    "bundle/" + m + "/*"
  }

  /** The negated glob that spares a package's package.json. */
  function ExcludeGlob(m: string): string {
    "!bundle/" + m + "/package.json"
  }

  /**
   * Builds the glob list: for each package in order, its include glob
   * immediately followed by its exclude glob.
   */
  method RemoveList(modules: seq<string>) returns (removeList: seq<string>)
    ensures |removeList| == 2 * |modules|
    ensures forall i :: 0 <= i < |modules| ==>
              removeList[2 * i] == IncludeGlob(modules[i]) && removeList[2 * i + 1] == ExcludeGlob(modules[i])
  {
    removeList := [];
    for n := 0 to |modules|
      invariant |removeList| == 2 * n
      invariant forall i :: 0 <= i < n ==>
                  removeList[2 * i] == IncludeGlob(modules[i]) && removeList[2 * i + 1] == ExcludeGlob(modules[i])
    {
      removeList := removeList + [IncludeGlob(modules[n])];
      removeList := removeList + [ExcludeGlob(modules[n])];
    }
  }

  /**
   * The globs name packages faithfully: different packages get different
   * include globs and different exclude globs, and an include glob is never
   * an exclude glob (only the latter starts with `!`).
   */
  lemma GlobsIdentifyPackages(m1: string, m2: string)
    ensures IncludeGlob(m1) == IncludeGlob(m2) <==> m1 == m2
    ensures ExcludeGlob(m1) == ExcludeGlob(m2) <==> m1 == m2
    ensures IncludeGlob(m1) != ExcludeGlob(m2)
  {
    assert IncludeGlob(m1)[0] != ExcludeGlob(m2)[0];
    if IncludeGlob(m1) == IncludeGlob(m2) {
      InfixCancels("bundle/", m1, m2, "/*");
    }
    if ExcludeGlob(m1) == ExcludeGlob(m2) {
      InfixCancels("!bundle/", m1, m2, "/package.json");
    }
  }

  /** Texts with the same surroundings are equal when the surrounded texts are. */
  lemma InfixCancels(a: string, x: string, y: string, b: string)
    requires a + x + b == a + y + b
    ensures x == y
  {
    var s, t := a + x + b, a + y + b;
    assert |x| == |y|;
    forall k | 0 <= k < |x| ensures x[k] == y[k] {
      assert x[k] == s[|a| + k] && y[k] == t[|a| + k];
    }
  }

  /** For packages listed once each, no glob appears twice in the list. */
  lemma RemoveListDistinct(modules: seq<string>, removeList: seq<string>)
    requires Distinct(modules)
    requires |removeList| == 2 * |modules|
    requires forall i :: 0 <= i < |modules| ==>
               removeList[2 * i] == IncludeGlob(modules[i]) && removeList[2 * i + 1] == ExcludeGlob(modules[i])
    ensures Distinct(removeList)
  {
    forall a, b | 0 <= a < b < |removeList| ensures removeList[a] != removeList[b] {
      var i, j := a / 2, b / 2;
      assert a == 2 * i + a % 2 && b == 2 * j + b % 2;
      GlobsIdentifyPackages(modules[i], modules[j]);
      GlobsIdentifyPackages(modules[j], modules[i]);
      if i != j {
        assert modules[i] != modules[j];
      }
    }
  }

  /** The glob list for the packages the build script declares. */
  method RegistryRemoveList() returns (removeList: seq<string>)
    ensures removeList == [IncludeGlob("common"), ExcludeGlob("common"),
                           IncludeGlob("core"), ExcludeGlob("core"),
                           IncludeGlob("extend"), ExcludeGlob("extend")]
    ensures Distinct(removeList)
  {
    removeList := RemoveList(Modules);
    assert Distinct(Modules);
    RemoveListDistinct(Modules, removeList);
    assert Modules[0] == "common" && Modules[1] == "core" && Modules[2] == "extend";
    assert removeList[2 * 0] == IncludeGlob(Modules[0]) && removeList[2 * 0 + 1] == ExcludeGlob(Modules[0]);
    assert removeList[2 * 1] == IncludeGlob(Modules[1]) && removeList[2 * 1 + 1] == ExcludeGlob(Modules[1]);
    assert removeList[2 * 2] == IncludeGlob(Modules[2]) && removeList[2 * 2 + 1] == ExcludeGlob(Modules[2]);
  }
}
