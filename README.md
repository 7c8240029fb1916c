# laravel-enum-helpers, modelled in Dafny

This project models the core of the Laravel package `isap-ou/laravel-enum-helpers`
as a Dafny model and proves properties of it. The package adds helpers to PHP
backed enums:

- the `HasLabel` trait turns a case into a translation key (namespace, prefix,
  the enum's short class name and the case name) and translates it;
- the `InteractWithCollection` trait shows an enum's cases as Laravel
  collections (`collection`, `keyValuePairs`, `keys`, `values`);
- the console command `enum-helpers:js:export` walks the configured enum
  directories. Every enum that implements `JsConvertibleEnum` becomes one
  `export const X = Object.freeze({...});` line, and the lines are written to one file;
- the console command `enum-helpers:migrate:enums` makes the same walk over
  enums that implement `UpdatableEnumColumns`. For each `tables()` target whose
  table and column exist, it issues
  `ALTER TABLE t MODIFY COLUMN c ENUM('v1','v2',...) ` and reports an info message.

Modules:

| file | module | models |
|---|---|---|
| wrappers.dfy | `Wrappers` | `Option`, standing for PHP's nullable values |
| php_strings.dfy | `PhpStrings` | PHP's `empty` on strings, `rtrim`, `trim`, `implode`, `Str::endsWith` and `SplFileInfo::getBasename` |
| collections.dfy | `Collections` | a Laravel collection with string keys, as an ordered list of pairs; `mapWithKeys`, `keys` and `values` |
| enums.dfy | `Enums` | what reflection reports about an enum class: short name, marker interfaces, `cases()` and `tables()` |
| discovery.dfy | `Discovery` | the directory/file/class walk both commands share |
| config.dfy | `Config` | the published configuration defaults |
| has_label.dfy | `HasLabel` | `getLabel` and `getLabels` |
| interact_with_collection.dfy | `InteractWithCollection` | the collection views |
| export_enums_to_js.dfy | `ExportEnumsToJs` | `ExportEnumsToJsCommand::handle` |
| migrate_enums.dfy | `MigrateEnums` | `MigrateEnumsCommand::handle` |

The two traits are pure code, so they are modelled as functions; lemmas state
their properties. The two `handle()` methods are imperative, so they are
Dafny methods with the source's nested `foreach` loops and `continue` skips.
Each loop over files becomes a helper method, and so does the migrate
command's loop over `tables()`. A helper method proves against a recursive
specification function what its loop accumulates: `$jsString` for the export,
and the log of `DB::statement` and `info` calls for the migration. That
function is built on `Discovery.Discover`, the walk both commands share.
Lemmas then prove what the source promises about the specification functions.

Parameters stand for the framework services:

- `File::exists` and `File::allFiles` become a `FileSystem` value: a map from
  each existing directory to the names of its files.
- `class_exists`, `class_implements` and reflection become a `ClassTable` map.
- `trans` is a function parameter.
- `Schema::hasTable` and `Schema::hasColumn` become a `Schema` value.
- `File::put` is returned as an optional `FilePut`.
- `DB::statement` and `info` are returned as a log.

Running a command twice on the same inputs gives the same output. The
methods' postconditions fix their results as functions of the inputs, so
this follows directly.

## Model

| member | source | states |
|---|---|---|
| PhpStrings.RTrim | src/Concerns/HasLabel.php:26-28 | `rtrim($s, '.')`: the result is a prefix of the input, everything cut off is the trimmed character, and the result does not end with it |
| PhpStrings.TrimStart | src/Commands/ExportEnumsToJsCommand.php:62-64 | the leading part `trim` removes is all PHP whitespace (space, tab, newline, carriage return, NUL, vertical tab), and what remains does not start with one |
| PhpStrings.TrimEnd | src/Commands/ExportEnumsToJsCommand.php:62-64 | the trailing part `trim` removes is all PHP whitespace, and what remains does not end with one |
| PhpStrings.TrimDropsFinalNewline | src/Commands/ExportEnumsToJsCommand.php:58-64 | for a string that starts and ends with a non-whitespace character, `trim` of it followed by a newline gives the string back |
| PhpStrings.ImplodeAppend | src/Commands/ExportEnumsToJsCommand.php:55 | imploding two non-empty runs of parts is imploding each and joining the two with exactly one separator |
| PhpStrings.ImplodeStartsWith | src/Commands/ExportEnumsToJsCommand.php:55 | an implosion whose first part is non-empty is non-empty and starts with that part's first character |
| PhpStrings.BasenameOfSuffixed | src/Commands/ExportEnumsToJsCommand.php:41 | `getBasename('.php')` of `X.php` is `X` for any non-empty `X` |
| Collections.Put | src/Concerns/InteractWithCollection.php:24-27 | assigning a key keeps the key set plus that key. For a key already present, the length is unchanged, the entry at that key's first position becomes the new pair, and every other entry is left as it was. A new key is appended. Distinct keys stay distinct |
| Collections.PutEntry | src/Concerns/InteractWithCollection.php:24-27 | on distinct keys, after an assignment the assigned key holds the new value and every other entry is the one that stood at that position before |
| Collections.MapWithKeysTakesLastValue | src/Concerns/InteractWithCollection.php:24-27 | under `mapWithKeys` a repeated key takes the value of its last entry |
| Collections.MapWithKeysKeepsFirstPosition | src/Concerns/InteractWithCollection.php:24-27 | under `mapWithKeys` the keys appear in the order of their first entries, so a repeated key keeps its first position |
| Collections.MapWithKeysKeys | src/Concerns/InteractWithCollection.php:24-27 | `mapWithKeys` yields distinct keys, and they are exactly the keys the callback produced |
| Collections.MapWithKeysOfDistinct | src/Concerns/HasLabel.php:38-41 | when the callback's keys are distinct, `mapWithKeys` keeps every pair, in order |
| Collections.ZipKeysValues | src/Concerns/InteractWithCollection.php:14-22 | `keys()` and `values()` have equal length and zip back to the collection |
| HasLabel.ArgumentsOverrideConfig | src/Concerns/HasLabel.php:19-24 | a null, "" or "0" prefix or namespace argument falls back to the configured value. Each argument on its own: a prefix argument that is not `empty` makes the key independent of the configured prefix, and likewise for the namespace |
| HasLabel.PrefixEndsWithOneDot | src/Concerns/HasLabel.php:26-28 | a non-empty prefix becomes the original without its trailing dots, followed by exactly one dot |
| HasLabel.PrefixNormalisationIdempotent | src/Concerns/HasLabel.php:26-28 | normalising a prefix twice equals normalising it once |
| HasLabel.NamespaceEndsWithSeparator | src/Concerns/HasLabel.php:29-31 | a non-empty namespace ends with `::` afterwards; one that already did is unchanged, and any other gets `::` appended once |
| HasLabel.NamespaceNormalisationIdempotent | src/Concerns/HasLabel.php:29-31 | normalising a namespace twice equals normalising it once |
| HasLabel.LabelKeyShape | src/Concerns/HasLabel.php:33-35 | the key always ends with `.` and the case name; with no prefix and no namespace it is `ShortName.caseName` |
| HasLabel.ZeroPrefixIsNotNormalised | src/Concerns/HasLabel.php:26-28 | because `empty("0")` holds, a resolved prefix "0" is spliced in without a dot |
| HasLabel.DefaultConfigKey | config/config.php:14-17 | with the shipped null prefix and namespace the key is `ShortName.caseName` |
| HasLabel.EnumsPrefixNormalised | src/Concerns/HasLabel.php:19-28 | a configured prefix `enums` with no argument normalises to `enums.` |
| HasLabel.StatusActiveKey | src/Concerns/HasLabel.php:17-36 | with configured prefix `enums` and no namespace, `Status::Active` looks up `enums.Status.Active` |
| HasLabel.StatusActiveKeyInNamespace | src/Concerns/HasLabel.php:17-36 | with namespace `app` as well, the key is `app::enums.Status.Active` |
| HasLabel.GetLabelsInCaseOrder | src/Concerns/HasLabel.php:38-41 | `getLabels` has one entry per case, in case order, each keyed by the case name and holding that case's translated label |
| InteractWithCollection.ViewsFollowCaseOrder | src/Concerns/InteractWithCollection.php:9-27 | `collection()` is the cases. `keyValuePairs()` pairs each case's name with its value, in order; `keys()` lists the names and `values()` the values |
| InteractWithCollection.KeysZipValues | src/Concerns/InteractWithCollection.php:14-27 | for any case list, `keys()` has no repeats and holds exactly the case names; it has the length of `values()`, and zipped with it gives back `keyValuePairs()` |
| Discovery.DiscoverStep | src/Commands/ExportEnumsToJsCommand.php:34-38 | proof step for the loop invariants: unfolds the walk by one location, which adds that location's classes |
| Discovery.FoundInStep | src/Commands/ExportEnumsToJsCommand.php:40-49 | proof step for the loop invariants: unfolds the file walk by one file, which adds its class exactly when that class exists and implements the marker |
| Discovery.FoundInAppend | src/Commands/MigrateEnumsCommand.php:40-49 | walking two runs of files gives the classes of each, in that order |
| Discovery.DiscoverAppend | src/Commands/MigrateEnumsCommand.php:34-38 | walking two runs of locations gives the classes of each, in that order |
| Discovery.MissingDirectoryContributesNothing | src/Commands/ExportEnumsToJsCommand.php:35-37 | a location whose directory does not exist changes nothing, wherever it stands |
| Discovery.FoundInMembership | src/Commands/MigrateEnumsCommand.php:41-49 | a class is kept exactly when some file names it and it exists and implements the marker; it is kept under that file's base name |
| Discovery.DiscoverMembership | src/Commands/MigrateEnumsCommand.php:34-49 | every kept class comes from an existing configured directory, and every qualifying class of such a directory is kept |
| Discovery.FoundInBound | src/Commands/ExportEnumsToJsCommand.php:40-59 | each directory contributes at most one class per file |
| Config.ShippedLocationsWalk | config/config.php:6-8 | with the shipped `enum_locations`, the walk covers only `app/Enums`: that directory's kept classes when it exists, and none otherwise |
| Config.ShippedClassName | config/config.php:6-8 | under the shipped namespace prefix, the file `Status.php` names the class `\App\Enums\Status` |
| ExportEnumsToJs.Handle | src/Commands/ExportEnumsToJsCommand.php:30-67 | nothing is written when no class qualifies. Otherwise the file at the configured path holds the statements of the qualifying classes, in walk order, joined by single newlines. The exit code is 0 |
| ExportEnumsToJs.ExportFiles | src/Commands/ExportEnumsToJsCommand.php:40-59 | the loop over one directory's files appends each qualifying class's statement and a newline to `$jsString` |
| ExportEnumsToJs.AccumulatedFileStep | src/Commands/ExportEnumsToJsCommand.php:43-58 | proof step for the invariant of `ExportFiles`: one more qualifying file appends its statement and a newline to `$jsString`, and a skipped file appends nothing |
| ExportEnumsToJs.AccumulatedSnoc | src/Commands/ExportEnumsToJsCommand.php:53-58 | proof step: unfolds `$jsString` by one kept class, which adds its statement followed by one newline |
| ExportEnumsToJs.AccumulatedIsTrimmedToStatements | src/Commands/ExportEnumsToJsCommand.php:62-64 | `$jsString` is `empty` exactly when no class was kept; otherwise `trim` leaves the statements joined by single newlines |
| ExportEnumsToJs.AccumulatedIsStatementsAndNewline | src/Commands/ExportEnumsToJsCommand.php:53-58 | `$jsString` is the statements joined by newlines, plus one final newline |
| ExportEnumsToJs.ImplodeEndsWithLast | src/Commands/ExportEnumsToJsCommand.php:62-64 | joined statements end with `;`, so `trim` cuts nothing from them |
| ExportEnumsToJs.StatementEnds | src/Commands/ExportEnumsToJsCommand.php:53-56 | every statement starts with `e` and ends with `;` |
| ExportEnumsToJs.EntriesOfTwo | src/Commands/ExportEnumsToJsCommand.php:51-55 | two cases render as `name:"value"` each, joined by `", "` |
| ExportEnumsToJs.ExampleEntries | src/Commands/ExportEnumsToJsCommand.php:51-55 | cases `A => "1"` and `B => "2"` render as `A:"1", B:"2"` |
| ExportEnumsToJs.ValuesAreNotEscaped | src/Commands/ExportEnumsToJsCommand.php:51 | case values are spliced in unescaped: one value holding `", B:"` renders exactly like two separate cases |
| ExportEnumsToJs.TwoEnumsOnTwoLines | src/Commands/ExportEnumsToJsCommand.php:53-63 | two kept enums give their two statements, in walk order, separated by a single newline |
| MigrateEnums.Handle | src/Commands/MigrateEnumsCommand.php:32-67 | for every present target of every qualifying class, in walk order, the log holds the target's statement and then its message, and holds nothing else. The exit code is 0 |
| MigrateEnums.MigrateFiles | src/Commands/MigrateEnumsCommand.php:40-63 | the loop over one directory's files migrates exactly the qualifying classes, in file order |
| MigrateEnums.MigrateTargets | src/Commands/MigrateEnumsCommand.php:52-62 | the loop over `tables()` issues, in order, a statement and a message for each present target, all with the class's one options string |
| MigrateEnums.UpdatesFileStep | src/Commands/MigrateEnumsCommand.php:41-52 | proof step for the invariant of `MigrateFiles`: one more qualifying file adds its class's updates, and a skipped file adds nothing |
| MigrateEnums.EmittedTargetStep | src/Commands/MigrateEnumsCommand.php:53-61 | proof step for the invariant of `MigrateTargets`: one more present target appends its statement and then its message, and an absent one appends nothing |
| MigrateEnums.EmittedShape | src/Commands/MigrateEnumsCommand.php:56-61 | the log has two entries per altered column: entry 2k is column k's `ALTER TABLE` statement and entry 2k+1 its info message |
| MigrateEnums.TargetUpdatesMembership | src/Commands/MigrateEnumsCommand.php:52-56 | a class alters a column exactly when it lists it as a target whose table and column exist, always with the class's options |
| MigrateEnums.TargetUpdatesAppend | src/Commands/MigrateEnumsCommand.php:52-62 | two runs of targets alter the present targets of each, in that order |
| MigrateEnums.AbsentTargetContributesNothing | src/Commands/MigrateEnumsCommand.php:53-55 | a target whose table or column is missing gives no statement and no message, wherever it stands |
| MigrateEnums.AllPresentTargetsUpdated | src/Commands/MigrateEnumsCommand.php:52-62 | when every target is present, each is altered once, in `tables()` order |
| MigrateEnums.TargetUpdatesBound | src/Commands/MigrateEnumsCommand.php:52-62 | a class alters at most one column per target |
| MigrateEnums.UpdatesAppend | src/Commands/MigrateEnumsCommand.php:34-63 | two runs of classes alter the columns of each, in that order |
| MigrateEnums.UpdatesMembership | src/Commands/MigrateEnumsCommand.php:34-63 | a run alters a column exactly when some qualifying class lists it as a present target |
| MigrateEnums.OptionsOfTwo | src/Commands/MigrateEnumsCommand.php:51 | two case values give the options string `v1','v2` |
| MigrateEnums.NoCasesGiveEmptyOptions | src/Commands/MigrateEnumsCommand.php:51 | an enum without cases gives the empty options string |
| MigrateEnums.StatusScenario | src/Commands/MigrateEnumsCommand.php:51-61 | `Status` with values `active` and `inactive` targeting `users.status` issues the statement and message for `ENUM('active','inactive')` when the column exists, and nothing when it does not |
| MigrateEnums.ValuesAreNotEscaped | src/Commands/MigrateEnumsCommand.php:51-56 | case values are spliced in unescaped: one value holding `','` gives the same options as two cases |

## Left out

- `src/ServiceProvider.php`, the framework wiring, is left out: command registration, config merge and publish, the `MigrationsEnded` listener and `Artisan::call`.
- The filesystem, database, reflection and translation services are inputs or outputs, as described above. Path resolution is not modelled. The existence check of a directory and the listing of `base_path($directory)` are taken to refer to the same directory.
- `File::allFiles` lists files recursively. The model takes, per directory, the list of file names it returns, in that order. Only a file's name enters the class name, as in the source.
- The export writes to `base_path(Config::get('js_objects_file'))`. The model leaves out that this key lacks the `enum-helpers.` prefix and takes the output path as a parameter. The shipped default is `resources/js/enums.js`.
- `PHP_EOL` is taken to be `"\n"`.
- An int-backed case value is represented by its decimal text, which is what `%s` and string interpolation produce.
- Exceptions are not modelled: a failing `DB::statement` or `File::put`, or a configured class whose `cases()` or `tables()` throws. Both methods model only runs that complete.
- `tables()` returns a PHP array, so its table names are distinct. The model accepts any list of targets and does not rely on that.
- Enum case names are distinct because PHP enforces it; lemmas that rely on this say so with `UniqueCaseNames`.
- `getPrefix()` and `getNamespace()` are modelled as the fields of a `LabelConfig` value passed to `getLabel`, not as calls to `Config::get`.
- Only the `getLabel` key construction is modelled; `trans` is an arbitrary function parameter, so nothing is stated about translations themselves.
