# cocker build script: verified model of its text and list logic

The build script of the cocker monorepo (`gulpfile.js`) compiles three
TypeScript packages (`common`, `core`, `extend`), cleans and fills their
bundle directories, and bumps and tags versions. Most of it drives gulp
plugins. This project models the parts that compute something:

- the rewrite of the `publishTag` field in the release settings file `.publishrc`:
  - a global replace of the regular expression `"publishTag":".*?"`, with the
    `$` patterns of the replacement string;
  - the `|| text` fallback of `rewriteFile`;
- the table that maps a version increment (`patch`, `minor`, `major`) to the
  tag it is published under, and the three tasks that use it;
- the `mapSources` callback of the development build, which rewrites a source
  path to `./` and its last `/`-separated piece;
- the glob list the `clean:bundle` task passes to `del`;
- the stage lists the `build` and `build:dev` tasks pass to gulp-sequence.

Modules:

- `Registry` (registry.dfy): the package list and the base package.
- `PublishTag` (publish_tag.dfy): the pattern, the scan and the replacement
  template. Lemmas cover:
  - what the rewrite keeps and what it replaces;
  - that it never empties a non-empty text;
  - that a later rewrite overrides an earlier one.
- `Version` (version.dfy):
  - the importance table;
  - `rewriteFile` and the settings-file part of `updateVersion`, as methods
    on a `SettingsFile` object whose text they replace.
- `SourceMap` (source_map.dfy): JavaScript's `split('/')` and `join('/')`,
  and the source-path rewrite.
- `Clean` (clean.dfy): the glob list, built by a loop as in the source.
- `Pipeline` (pipeline.dfy): the stages of `build` and `build:dev`, and the
  tasks they name.

## Model

| member | source | states |
|---|---|---|
| PublishTag.UpdatePublishTag | gulpfile.js:172-175 | the global replace of the pattern by the field holding the tag; its result is fixed for every text by UnchangedWithoutField and LeftmostFieldReplaced |
| PublishTag.Scan | gulpfile.js:174 | the left-to-right replace: each match found by the matcher is replaced by the expanded template and the scan resumes after it; stated by ScanWithoutMatch, ScanIsLiteral, ScanKeepsPlainText and ReplaceAt |
| PublishTag.MatchFrom | gulpfile.js:174 | the lazy matcher of the pattern; a match it reports ends after its start and past the prefix, and MatchFromExact and FieldLenExact tie it both ways to the match definition |
| PublishTag.Replacement | gulpfile.js:174 | the template literal `"publishTag":"<tag>"`; ReplacementIsField shows that for a safe tag it is itself one match, and NoDollarInReplacement that it holds no `$` when the tag holds none |
| PublishTag.FieldLenExact | gulpfile.js:174 | a stretch of text starting at a position is a match of the pattern (prefix, a run without quote or line terminator, closing quote) if and only if the lazy matcher reports a match of exactly that length there |
| PublishTag.MatchFromExact | gulpfile.js:174 | the matcher run from any point of the pattern ends exactly where the rest of the pattern is matched |
| PublishTag.Expand | gulpfile.js:174 | a replacement template without `$` is inserted literally |
| PublishTag.ScanIsLiteral | gulpfile.js:174 | the global replace with a `$`-free template replaces each match by the template, whatever text precedes it |
| PublishTag.MatchFromLocal | gulpfile.js:174 | whether a match starts at a position depends only on the text up to the first quote past the prefix |
| PublishTag.ScanWithoutMatch | gulpfile.js:174 | with any template, a text where no match starts is copied through unchanged |
| PublishTag.ScanKeepsPlainText | gulpfile.js:174 | the text before the first position where a match starts is copied through unchanged |
| PublishTag.ReplaceAt | gulpfile.js:174 | the leftmost match is replaced by the template and the scan resumes right after it, so matches never overlap |
| PublishTag.ReplacementIsField | gulpfile.js:174 | the text written for a tag without quote, line terminator or `$` is itself one match of the pattern |
| PublishTag.UnchangedWithoutField | gulpfile.js:172-175 | a text with no match of the pattern anywhere is returned unchanged |
| PublishTag.LeftmostFieldReplaced | gulpfile.js:172-175 | the text before the leftmost match is kept as it is, that match becomes `"publishTag":"<tag>"`, and the rest is rewritten the same way |
| PublishTag.ScanOverwrites | gulpfile.js:174 | a pass with a template that is itself a match, followed by any pass, equals the second pass alone |
| PublishTag.UpdateEmptyIff | gulpfile.js:172-175 | the rewritten text is empty if and only if the input is |
| PublishTag.UpdateOverwrites | gulpfile.js:172-175 | rewriting with a safe tag and then with a `$`-free tag equals rewriting with the second tag alone |
| PublishTag.UpdateIdempotent | gulpfile.js:172-175 | rewriting twice with the same safe tag equals rewriting once |
| Registry.Modules | gulpfile.js:14-21 | the keys of the packages object in declaration order, `common`, `core`, `extend`; RegistryStages and RegistryRemoveList give the stage lists and glob list built from it |
| Registry.Base | gulpfile.js:83 | the literal `common` the stage lists single out; BuildOrder and BuildDevOrder state where it is run |
| Version.TagFor | gulpfile.js:116-120 | `patch` maps to `dev`, `minor` and `major` to `latest`, and every other key finds nothing, each in both directions |
| Version.TaskImportance | gulpfile.js:182-192 | the `patch` task passes `patch`, `feature` passes `minor` and `release` passes `major`, each in both directions, and no other task passes an importance |
| Version.VersionTaskTags | gulpfile.js:182-192 | the `patch` task publishes under `dev`, `feature` and `release` under `latest` |
| Version.TagTextSafe | gulpfile.js:116-123 | every tag the table can hand to the rewrite, the missing-key `undefined` included, has no quote, line terminator or `$` |
| Version.TagText | gulpfile.js:116-120 | how the template literal prints a looked-up tag, `undefined` for a missing key; TagTextSafe shows every such text is safe to write |
| Version.PublishedText | gulpfile.js:115-123 | the settings text after the rewrite with the table's tag; LatestTaskWins and RepeatedTaskStable state how successive version tasks combine |
| Version.OrElse | gulpfile.js:157 | JavaScript's `||` on strings: the result is empty exactly when both the replacement and the original text are |
| Version.RewriteFallbackInert | gulpfile.js:157 | with the publish-tag rewrite the fallback never applies: the rewritten text is what is written |
| Version.RewriteFile | gulpfile.js:153-166 | a successful write leaves the file holding the replacement, or the original text when the replacement is empty; a failed write leaves the file as it was |
| Version.UpdateVersion | gulpfile.js:115-123 | after the tag step of `updateVersion` the settings file holds the publish-tag rewrite of its old text with the table's tag, unless the write fails |
| Version.LatestTaskWins | gulpfile.js:115-123 | running one version task and then another leaves the settings file as running only the second does |
| Version.RepeatedTaskStable | gulpfile.js:115-123 | running the same version task twice leaves the settings file as running it once does |
| Version.PatchRetagsSettings | gulpfile.js:172-175 | a patch turns `{"publishTag":"latest"}` into `{"publishTag":"dev"}` |
| SourceMap.Split | gulpfile.js:71 | splitting on `/` always yields at least one piece |
| SourceMap.SplitPiecesHaveNoSlash | gulpfile.js:71 | no piece of the split holds a `/` |
| SourceMap.SplitLastPiece | gulpfile.js:71 | the last piece of the split ends the path, right after its last `/` when it has one |
| SourceMap.JoinSplit | gulpfile.js:71 | joining the pieces with `/` gives back the path |
| SourceMap.SplitJoin | gulpfile.js:71 | splitting pieces joined with `/` gives back the pieces when none holds a `/` |
| SourceMap.MapSource | gulpfile.js:71 | the result is `./` followed by a name without `/` that ends the source path, right after its last `/` when it has one |
| SourceMap.MapSourceOfFileName | gulpfile.js:71 | a bare file name comes back as `./` and the name |
| SourceMap.MapSourceIgnoresDirectories | gulpfile.js:71 | any directories before the last `/` are dropped |
| SourceMap.MapSourceIdempotent | gulpfile.js:71 | rewriting a rewritten path changes nothing |
| Clean.IncludeGlob | gulpfile.js:42 | the glob `bundle/<m>/*`; GlobsIdentifyPackages shows it names its package |
| Clean.ExcludeGlob | gulpfile.js:43 | the glob `!bundle/<m>/package.json`; GlobsIdentifyPackages shows it names its package and is never an include glob |
| Clean.RemoveList | gulpfile.js:40-44 | the list has two globs per package; the include glob `bundle/<m>/*` and then the exclude glob `!bundle/<m>/package.json`, package by package in registry order |
| Clean.RemoveListDistinct | gulpfile.js:40-44 | for packages listed once each, the glob list has no glob twice |
| Clean.RegistryRemoveList | gulpfile.js:14-44 | for the packages the script declares the list is the include and exclude globs of `common`, `core` and `extend`, in that order, with no glob twice |
| Clean.GlobsIdentifyPackages | gulpfile.js:42-43 | different packages get different include globs and different exclude globs, and no include glob is an exclude glob |
| Pipeline.Dependents | gulpfile.js:83 | the result holds exactly the packages other than the base and is no longer than the input |
| Pipeline.DependentsAppend | gulpfile.js:83 | the filter keeps registry order: filtering a concatenation concatenates the filtered parts |
| Pipeline.DependentsWithoutBase | gulpfile.js:83 | a package list without the base is kept whole |
| Pipeline.DevTask | gulpfile.js:65 | the dev task name `<m>:dev`; DevTaskInjective and NotADevTask state that it names its package and clashes with no other task of the stage lists |
| Pipeline.BuildStages | gulpfile.js:83 | the stage list of `build`; stated by BuildOrder and RegistryStages |
| Pipeline.BuildDevStages | gulpfile.js:89-99 | the stage list of `build:dev`; stated by BuildDevOrder and RegistryStages |
| Pipeline.DevTasksMembers | gulpfile.js:93-95 | a task is in the dev task list exactly when it is `<m>:dev` for one of the packages |
| Pipeline.DevTasksInjective | gulpfile.js:93-95 | different package lists give different dev task lists |
| Pipeline.DevGroupRuns | gulpfile.js:93-95 | a package's dev task is in the grouped stage of `build:dev` exactly when the package is registered and is not `common` |
| Pipeline.DevTaskInjective | gulpfile.js:65 | different packages have different development task names |
| Pipeline.NotADevTask | gulpfile.js:89-99 | neither `clean:bundle` nor `move` is a development compile task |
| Pipeline.BuildOrder | gulpfile.js:82-84 | `build` has two stages; the base package is run in the first and only there; the second stage runs exactly the other packages |
| Pipeline.BuildDevOrder | gulpfile.js:89-99 | `build:dev` has four stages, `clean:bundle` first and `move` last; the base package's dev task is run in the second stage only; every other package's dev task is run in the third stage only, and that stage runs nothing else |
| Pipeline.BaseDevTaskOnlySecond | gulpfile.js:89-99 | `common:dev` is run in the second stage of `build:dev` and in no other |
| Pipeline.OtherDevTasksOnlyThird | gulpfile.js:89-99 | the dev task of every package other than `common` is run in the third stage of `build:dev` exactly when the package is registered, and in no other stage |
| Pipeline.DevGroupOnly | gulpfile.js:89-99 | the third stage of `build:dev` runs nothing but dev tasks of registered packages other than `common` |
| Pipeline.StagesRegistered | gulpfile.js:82-99 | every task either stage list names is registered by the script, as long as the base package is among the packages |
| Pipeline.RegistryStages | gulpfile.js:82-99 | with the packages the script declares, `build` runs `common` and then `core` and `extend` together, and `build:dev` runs `clean:bundle`, `common:dev`, `core:dev` and `extend:dev` together, then `move` |

## Left out

- gulp task registration, the `default` watch task and gulp-sequence's concurrent execution of grouped tasks: framework glue and concurrency. A stage list is modelled as data, not run.
- The TypeScript compilation and the sourcemap `init` and `write` steps of the compile tasks: calls into libraries not part of this model. Only the path callback is modelled.
- `del`, the `gulp.src`/`gulp.dest` copies (including the `move` task), and `fs.readFileSync`/`fs.writeFileSync`: filesystem I/O. The glob list is modelled, not its meaning to `del`.
- The version bump by gulp-bump, `git.commit`, the package.json filter and `tagVersion`: version-control and library I/O. `Version.UpdateVersion` covers only the settings-file step of `updateVersion`.
- `console.log`/`console.error` output and the unused `--dist` argument lookup.
- Version.RewriteFile: a failing read throws out of the task and is not modelled. The success of the write is a parameter, and a failed write is taken to leave the file untouched, not partially written.
- Version.TagFor: a JavaScript object lookup also finds inherited keys such as `toString`; the model gives nothing for them. Only the three literal importances are ever passed.
- PublishTag.UpdateOverwrites: the second tag must contain no `$`. With a `$` the replacement's `$` patterns are expanded (modelled in `PublishTag.Expand`), but the lemma is not claimed for that case.
- PublishTag: texts are sequences of code points, while JavaScript strings are UTF-16 code units. The pattern involves only characters of the Basic Multilingual Plane, so matches fall on the same characters either way.
