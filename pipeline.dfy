/**
 * The stage lists the `build` and `build:dev` tasks hand to gulp-sequence.
 * A stage is a task name, run on its own, or a group of task names, run
 * together; the stages run one after the other.
 */
module Pipeline {
  import opened Registry

  datatype Stage = Task(name: string) | Group(names: seq<string>)

  /** The stage runs the task, alone or as part of its group. */
  predicate Runs(stage: Stage, task: string) {
    match stage
    case Task(name) => name == task
    case Group(names) => task in names
  }

  /** The packages other than the base, in registry order. */
  function Dependents(modules: seq<string>): (deps: seq<string>)
    ensures forall m :: m in deps <==> m in modules && m != Base
    ensures |deps| <= |modules|
  {
    if modules == [] then []
    else (if modules[0] != Base then [modules[0]] else []) + Dependents(modules[1..])
  }

  /** The filter keeps the registry order: it works piece by piece. */
  lemma {:induction false} DependentsAppend(a: seq<string>, b: seq<string>)
    ensures Dependents(a + b) == Dependents(a) + Dependents(b)
  {
    if a != [] {
      assert (a + b)[0] == a[0] && (a + b)[1..] == a[1..] + b;
      DependentsAppend(a[1..], b);
      var head := if a[0] != Base then [a[0]] else [];
      assert Dependents(a + b) == head + (Dependents(a[1..]) + Dependents(b));
    } else {
      assert a + b == b;
    }
  }

  /** A list without the base package is kept whole. */
  lemma {:induction false} DependentsWithoutBase(modules: seq<string>)
    requires Base !in modules
    ensures Dependents(modules) == modules
  {
    if modules != [] {
      assert modules[0] in modules;
      assert forall m :: m in modules[1..] ==> m in modules;
      DependentsWithoutBase(modules[1..]);
    }
  }

  /** The development-mode compile task of a package. */
  function DevTask(m: string): string {
    m + ":dev"
  }

  /** The development tasks of the packages, in the same order. */
  function DevTasks(modules: seq<string>): (tasks: seq<string>)
    ensures |tasks| == |modules|
    ensures forall i :: 0 <= i < |modules| ==> tasks[i] == DevTask(modules[i])
  {
    seq(|modules|, i requires 0 <= i < |modules| => DevTask(modules[i]))
  }

  /** A task is in the list exactly when it is the development task of one of the packages. */
  lemma DevTasksMembers(modules: seq<string>)
    ensures forall t :: t in DevTasks(modules) <==> exists m :: m in modules && t == DevTask(m)
  {
    var tasks := DevTasks(modules);
    forall t | t in tasks ensures exists m :: m in modules && t == DevTask(m) {
      var i :| 0 <= i < |tasks| && tasks[i] == t;
      assert modules[i] in modules;
    }
    forall m | m in modules ensures DevTask(m) in tasks {
      var i :| 0 <= i < |modules| && modules[i] == m;
      assert tasks[i] == DevTask(m);
    }
  }

  /** Different package lists give different development task lists: the list names its packages. */
  lemma DevTasksInjective(a: seq<string>, b: seq<string>)
    ensures DevTasks(a) == DevTasks(b) <==> a == b
  {
    if DevTasks(a) == DevTasks(b) {
      forall i | 0 <= i < |a| ensures a[i] == b[i] {
        assert DevTasks(a)[i] == DevTasks(b)[i];
        DevTaskInjective(a[i], b[i]);
      }
    }
  }

  /** `build`: the base package first, then all the others together. */
  function BuildStages(modules: seq<string>): seq<Stage> {
    [Task("common"), Group(Dependents(modules))]
  }

  /** `build:dev`: clean, the base package, all the others together, then copy to the example project. */
  function BuildDevStages(modules: seq<string>): seq<Stage> {
    [Task("clean:bundle"), Task("common:dev"), Group(DevTasks(Dependents(modules))), Task("move")]
  }

  /** Different packages have different development tasks. */
  lemma DevTaskInjective(m1: string, m2: string)
    ensures DevTask(m1) == DevTask(m2) <==> m1 == m2
  {
    if DevTask(m1) == DevTask(m2) {
      var t1, t2 := DevTask(m1), DevTask(m2);
      assert |m1| == |m2|;
      forall k | 0 <= k < |m1| ensures m1[k] == m2[k] {
        assert m1[k] == t1[k] && m2[k] == t2[k];
      }
    }
  }

  /** Neither the clean task nor the copy task is a development compile task. */
  lemma NotADevTask(m: string)
    ensures DevTask(m) != "clean:bundle" && DevTask(m) != "move"
  {
    var t := DevTask(m);
    assert t[|t| - 1] == 'v';
  }

  /**
   * `build` compiles the base package in the first stage and only there;
   * every other registered package is compiled in the second stage, and
   * nothing else is.
   */
  lemma BuildOrder(modules: seq<string>)
    ensures var stages := BuildStages(modules);
            && |stages| == 2
            && (forall k :: 0 <= k < |stages| ==> (Runs(stages[k], Base) <==> k == 0))
            && (forall m :: m != Base ==> !Runs(stages[0], m))
            && (forall m :: Runs(stages[1], m) <==> m in modules && m != Base)
  {
  }

  /**
   * `build:dev` cleans first and copies last; it compiles the base package
   * in the second stage and only there, and every other registered package
   * in the third stage and only there.
   */
  lemma BuildDevOrder(modules: seq<string>)
    ensures var stages := BuildDevStages(modules);
            && |stages| == 4
            && stages[0] == Task("clean:bundle") && stages[3] == Task("move")
            && (forall k :: 0 <= k < |stages| ==> (Runs(stages[k], DevTask(Base)) <==> k == 1))
            && (forall m, k :: m != Base && 0 <= k < |stages| ==>
                  (Runs(stages[k], DevTask(m)) <==> k == 2 && m in modules))
            && (forall t :: Runs(stages[2], t) <==> exists m :: m in modules && m != Base && t == DevTask(m))
  {
    BaseDevTaskOnlySecond(modules);
    OtherDevTasksOnlyThird(modules);
    DevGroupOnly(modules);
  }

  /** `common:dev` is run in the second stage of `build:dev` and in no other. */
  lemma BaseDevTaskOnlySecond(modules: seq<string>)
    ensures forall k :: 0 <= k < 4 ==> (Runs(BuildDevStages(modules)[k], DevTask(Base)) <==> k == 1)
  {
    var stages := BuildDevStages(modules);
    assert stages[1] == Task(DevTask(Base));
    NotADevTask(Base);
    DevGroupRuns(modules, Base);
  }

  /** Every other package's dev task is run in the third stage only, and only for listed packages. */
  lemma OtherDevTasksOnlyThird(modules: seq<string>)
    ensures forall m, k :: m != Base && 0 <= k < 4 ==>
              (Runs(BuildDevStages(modules)[k], DevTask(m)) <==> k == 2 && m in modules)
  {
    var stages := BuildDevStages(modules);
    forall m, k | m != Base && 0 <= k < 4
      ensures Runs(stages[k], DevTask(m)) <==> k == 2 && m in modules
    {
      NotADevTask(m);
      DevTaskInjective(m, Base);
      DevGroupRuns(modules, m);
    }
  }

  /** The third stage runs only dev tasks of listed packages other than the base. */
  lemma DevGroupOnly(modules: seq<string>)
    ensures forall t :: Runs(BuildDevStages(modules)[2], t) <==> exists m :: m in modules && m != Base && t == DevTask(m)
  {
    var deps := Dependents(modules);
    DevTasksMembers(deps);
    assert BuildDevStages(modules)[2] == Group(DevTasks(deps));
  }

  /** A package's development task is in the grouped stage of `build:dev` exactly when it is not the base. */
  lemma DevGroupRuns(modules: seq<string>, m: string)
    ensures DevTask(m) in DevTasks(Dependents(modules)) <==> m in modules && m != Base
  {
    var deps := Dependents(modules);
    var group := DevTasks(deps);
    if DevTask(m) in group {
      var i :| 0 <= i < |group| && group[i] == DevTask(m);
      DevTaskInjective(m, deps[i]);
    }
    if m in deps {
      var i :| 0 <= i < |deps| && deps[i] == m;
      assert group[i] == DevTask(m);
    }
  }

  /** The task names the build script registers for the given packages. */
  function RegisteredTasks(modules: seq<string>): set<string> {
    (set m | m in modules :: m)
    + (set m | m in modules :: DevTask(m))
    + {"default", "clean:bundle", "build", "build:dev", "move", "patch", "feature", "release"}
  }

  /** Every task either build runs is registered, as gulp-sequence needs, when the base package is. */
  lemma StagesRegistered(modules: seq<string>)
    requires Base in modules
    ensures forall k, t :: 0 <= k < 2 && Runs(BuildStages(modules)[k], t) ==> t in RegisteredTasks(modules)
    ensures forall k, t :: 0 <= k < 4 && Runs(BuildDevStages(modules)[k], t) ==> t in RegisteredTasks(modules)
  {
    BuildDevOrder(modules);
    assert "common:dev" == DevTask(Base);
  }

  /** The stage lists for the packages the build script declares. */
  lemma RegistryStages()
    ensures BuildStages(Modules) == [Task("common"), Group(["core", "extend"])]
    ensures BuildDevStages(Modules) == [Task("clean:bundle"), Task("common:dev"), Group(["core:dev", "extend:dev"]), Task("move")]
  {
    assert Dependents(Modules) == ["core", "extend"] by {
      assert Modules[1..] == ["core", "extend"];
      assert ["core", "extend"][1..] == ["extend"];
      assert Dependents(["extend"]) == ["extend"];
    }
    var tasks := DevTasks(["core", "extend"]);
    assert tasks == [DevTask("core"), DevTask("extend")];
    assert DevTask("core") == "core:dev";
    assert DevTask("extend") == "extend:dev";
  }
}
