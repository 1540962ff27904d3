/**
 * The module registry of the build script: one TypeScript project per
 * package, listed in the order the packages object declares them.
 */
module Registry {

  /** The package names, in declaration order (the keys of the packages object). */
  const Modules: seq<string> := ["common", "core", "extend"]

  /** The package every other package depends on; it is compiled first. */
  const Base: string := "common"

  /** No package is listed twice. */
  predicate Distinct(ms: seq<string>) {
    forall i, j :: 0 <= i < j < |ms| ==> ms[i] != ms[j]
  }
}
