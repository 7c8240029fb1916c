/**
 * `enum-helpers:migrate:enums`: every enum in the configured locations that
 * implements `UpdatableEnumColumns` restricts each of its `tables()` columns
 * to the enum's case values, issuing one `ALTER TABLE` statement and one
 * info message per target whose table and column exist. The statements and
 * messages are modelled as one log, in the order they are issued.
 */
module MigrateEnums {
  import opened PhpStrings
  import opened Enums
  import opened Discovery

  /** One side effect of the command: `DB::statement($rawSql)` or `$this->info($message)`. */
  datatype LogEntry = DdlStatement(sql: string) | Info(message: string)

  /** `Schema::hasTable` and `Schema::hasColumn`: the columns of each existing table. */
  datatype Schema = Schema(columns: map<string, set<string>>)

  predicate HasTable(schema: Schema, table: string) {
    table in schema.columns
  }

  predicate HasColumn(schema: Schema, table: string, column: string) {
    table in schema.columns && column in schema.columns[table]
  }

  /** A target survives the existence check when its table exists and has the column. */
  predicate Present(schema: Schema, target: TableColumn) {
    HasTable(schema, target.table) && HasColumn(schema, target.table, target.column)
  }

  /** One column the command alters, with the options string of its enum. */
  datatype Update = Update(table: string, column: string, options: string)

  /** `pluck('value')`: the case values, in case order. */
  function CaseValues(cases: seq<EnumCase>): seq<string> {
    seq(|cases|, i requires 0 <= i < |cases| => cases[i].value)
  }

  /** The options string: the case values joined by `','`. */
  function Options(cases: seq<EnumCase>): string {
    Implode("','", CaseValues(cases))
  }

  /** The statement issued for one column, trailing space included. */
  function AlterColumn(table: string, column: string, options: string): string {
    "ALTER TABLE " + table + " MODIFY COLUMN " + column + " ENUM('" + options + "') "
  }

  /** The info message reported after one column was altered. */
  function UpdatedMessage(table: string, column: string): string {
    "Enum column " + column + " was updated in table " + table + "."
  }

  /** The columns one class alters: its present targets, in `tables()` order,
      all sharing the one options string computed for the class. */
  function TargetUpdates(targets: seq<TableColumn>, options: string, schema: Schema): seq<Update>
    decreases |targets|
  {
    if targets == [] then []
    else
      var init := TargetUpdates(targets[..|targets| - 1], options, schema);
      var t := targets[|targets| - 1];
      if Present(schema, t) then init + [Update(t.table, t.column, options)] else init
  }

  /** The columns a run alters: class by class in walk order. */
  function Updates(found: seq<Found>, schema: Schema): seq<Update>
    decreases |found|
  {
    if found == [] then []
    else
      var last := found[|found| - 1];
      Updates(found[..|found| - 1], schema)
        + TargetUpdates(last.enumClass.tables, Options(last.enumClass.cases), schema)
  }

  /** The log of a run that alters the given columns: for each, its statement and then its message. */
  function Emitted(updates: seq<Update>): seq<LogEntry>
    decreases |updates|
  {
    if updates == [] then []
    else
      var u := updates[|updates| - 1];
      Emitted(updates[..|updates| - 1])
        + [DdlStatement(AlterColumn(u.table, u.column, u.options))]
        + [Info(UpdatedMessage(u.table, u.column))]
  }

  /** `handle()`. The log holds, for every present target of every qualifying
      class in walk order, its statement followed by its message. The exit
      code is always 0. */
  method Handle(locations: seq<Location>, fs: FileSystem, classes: ClassTable, schema: Schema)
    returns (log: seq<LogEntry>, exitCode: int)
    ensures log == Emitted(Updates(Discover(locations, fs, classes, UpdatableEnumColumns), schema))
    ensures exitCode == 0
  {
    log := [];
    var i := 0;
    while i < |locations|
      invariant 0 <= i <= |locations|
      invariant log == Emitted(Updates(Discover(locations[..i], fs, classes, UpdatableEnumColumns), schema))
    {
      DiscoverStep(locations, i, fs, classes, UpdatableEnumColumns);
      var directory := locations[i].directory;
      var namespace := locations[i].namespace;
      ghost var before := Discover(locations[..i], fs, classes, UpdatableEnumColumns);
      if directory !in fs.files {
        assert before + [] == before;
        i := i + 1;
        continue;
      }
      log := MigrateFiles(log, before, namespace, fs.files[directory], classes, schema);
      i := i + 1;
    }
    assert locations[..|locations|] == locations;
    exitCode := 0;
  }

  /** The `foreach ($files as $file)` of `handle()`: migrates every qualifying
      class among one directory's files. */
  method MigrateFiles(log0: seq<LogEntry>, ghost before: seq<Found>, namespace: string,
                      files: seq<string>, classes: ClassTable, schema: Schema)
    returns (log: seq<LogEntry>)
    requires log0 == Emitted(Updates(before, schema))
    ensures log == Emitted(Updates(before + FoundIn(namespace, files, classes, UpdatableEnumColumns), schema))
  {
    log := log0;
    var j := 0;
    assert before + FoundIn(namespace, files[..0], classes, UpdatableEnumColumns) == before;
    while j < |files|
      invariant 0 <= j <= |files|
      invariant log == Emitted(Updates(before + FoundIn(namespace, files[..j], classes, UpdatableEnumColumns), schema))
    {
      UpdatesFileStep(before, namespace, files, j, classes, schema);
      var className := namespace + Basename(files[j], PhpExtension);
      if className !in classes {
        j := j + 1;
        continue;
      }
      if UpdatableEnumColumns !in classes[className].implements {
        j := j + 1;
        continue;
      }
      var options := Options(classes[className].cases);
      ghost var prior := Updates(before + FoundIn(namespace, files[..j], classes, UpdatableEnumColumns), schema);
      log := MigrateTargets(log, prior, classes[className].tables, options, schema);
      j := j + 1;
    }
    assert files[..|files|] == files;
  }

  /** The `foreach ($class::tables() as $table => $column)` of `handle()`:
      alters every present target with the class's options string. */
  method MigrateTargets(log0: seq<LogEntry>, ghost prior: seq<Update>, targets: seq<TableColumn>,
                        options: string, schema: Schema)
    returns (log: seq<LogEntry>)
    requires log0 == Emitted(prior)
    ensures log == Emitted(prior + TargetUpdates(targets, options, schema))
  {
    log := log0;
    var k := 0;
    assert prior + TargetUpdates(targets[..0], options, schema) == prior;
    while k < |targets|
      invariant 0 <= k <= |targets|
      invariant log == Emitted(prior + TargetUpdates(targets[..k], options, schema))
    {
      EmittedTargetStep(prior, targets, k, options, schema);
      var table := targets[k].table;
      var column := targets[k].column;
      if !HasTable(schema, table) || !HasColumn(schema, table, column) {
        k := k + 1;
        continue;
      }
      var rawSql := AlterColumn(table, column, options);
      log := log + [DdlStatement(rawSql)];
      log := log + [Info(UpdatedMessage(table, column))];
      k := k + 1;
    }
    assert targets[..|targets|] == targets;
  }

  /** Walking one more file adds that class's updates when it qualifies, and nothing otherwise. */
  lemma UpdatesFileStep(before: seq<Found>, namespace: string, files: seq<string>, j: nat,
                        classes: ClassTable, schema: Schema)
    requires j < |files|
    ensures var className := namespace + Basename(files[j], PhpExtension);
      Qualifies(classes, className, UpdatableEnumColumns) ==>
        Updates(before + FoundIn(namespace, files[..j + 1], classes, UpdatableEnumColumns), schema)
        == Updates(before + FoundIn(namespace, files[..j], classes, UpdatableEnumColumns), schema)
           + TargetUpdates(classes[className].tables, Options(classes[className].cases), schema)
    ensures var className := namespace + Basename(files[j], PhpExtension);
      !Qualifies(classes, className, UpdatableEnumColumns) ==>
        before + FoundIn(namespace, files[..j + 1], classes, UpdatableEnumColumns)
        == before + FoundIn(namespace, files[..j], classes, UpdatableEnumColumns)
  {
    FoundInStep(namespace, files, j, classes, UpdatableEnumColumns);
    var kept := before + FoundIn(namespace, files[..j], classes, UpdatableEnumColumns);
    var baseName := Basename(files[j], PhpExtension);
    var className := namespace + baseName;
    if Qualifies(classes, className, UpdatableEnumColumns) {
      var f := Found(baseName, classes[className]);
      var next := before + FoundIn(namespace, files[..j + 1], classes, UpdatableEnumColumns);
      assert next == kept + [f];
      assert next[..|next| - 1] == kept;
    }
  }

  /** Walking one more target appends its statement and then its message when
      it is present, and nothing otherwise. */
  lemma EmittedTargetStep(prior: seq<Update>, targets: seq<TableColumn>, k: nat, options: string, schema: Schema)
    requires k < |targets|
    ensures var t := targets[k];
      Present(schema, t) ==>
        Emitted(prior + TargetUpdates(targets[..k + 1], options, schema))
        == Emitted(prior + TargetUpdates(targets[..k], options, schema))
           + [DdlStatement(AlterColumn(t.table, t.column, options))]
           + [Info(UpdatedMessage(t.table, t.column))]
    ensures !Present(schema, targets[k]) ==>
      prior + TargetUpdates(targets[..k + 1], options, schema)
      == prior + TargetUpdates(targets[..k], options, schema)
  {
    var t := targets[k];
    assert targets[..k + 1][..k] == targets[..k];
    var done := prior + TargetUpdates(targets[..k], options, schema);
    if Present(schema, t) {
      var next := prior + TargetUpdates(targets[..k + 1], options, schema);
      var u := Update(t.table, t.column, options);
      assert next == done + [u];
      assert next[..|next| - 1] == done;
    }
  }

  /** The log is two entries per altered column: entry `2k` is column `k`'s
      statement and entry `2k + 1` its message. */
  lemma {:induction false} EmittedShape(updates: seq<Update>)
    ensures |Emitted(updates)| == 2 * |updates|
    ensures forall k :: 0 <= k < |updates| ==>
      && Emitted(updates)[2 * k] == DdlStatement(AlterColumn(updates[k].table, updates[k].column, updates[k].options))
      && Emitted(updates)[2 * k + 1] == Info(UpdatedMessage(updates[k].table, updates[k].column))
    decreases |updates|
  {
    if updates != [] {
      var init := updates[..|updates| - 1];
      EmittedShape(init);
      assert forall k :: 0 <= k < |init| ==> updates[k] == init[k];
    }
  }

  /** A class's updates are exactly its present targets, each with the class's options. */
  lemma {:induction false} TargetUpdatesMembership(targets: seq<TableColumn>, options: string, schema: Schema, u: Update)
    ensures u in TargetUpdates(targets, options, schema) <==>
      exists k :: 0 <= k < |targets| && Present(schema, targets[k])
        && u == Update(targets[k].table, targets[k].column, options)
    decreases |targets|
  {
    if targets != [] {
      var init := targets[..|targets| - 1];
      TargetUpdatesMembership(init, options, schema, u);
      if u in TargetUpdates(targets, options, schema) && u !in TargetUpdates(init, options, schema) {
        assert Present(schema, targets[|targets| - 1]);
      }
      forall k | 0 <= k < |init|
        ensures targets[k] == init[k]
      {
      }
    }
  }

  /** Altering two runs of targets one after the other alters the present targets of each, in that order. */
  lemma {:induction false} TargetUpdatesAppend(a: seq<TableColumn>, b: seq<TableColumn>, options: string, schema: Schema)
    ensures TargetUpdates(a + b, options, schema)
         == TargetUpdates(a, options, schema) + TargetUpdates(b, options, schema)
    decreases |b|
  {
    if b == [] {
      assert a + b == a;
    } else {
      var b' := b[..|b| - 1];
      assert (a + b)[..|a + b| - 1] == a + b';
      assert (a + b)[|a + b| - 1] == b[|b| - 1];
      TargetUpdatesAppend(a, b', options, schema);
    }
  }

  /** A target whose table or column is missing contributes nothing wherever it stands. */
  lemma AbsentTargetContributesNothing(a: seq<TableColumn>, t: TableColumn, b: seq<TableColumn>,
                                       options: string, schema: Schema)
    requires !HasTable(schema, t.table) || !HasColumn(schema, t.table, t.column)
    ensures TargetUpdates(a + [t] + b, options, schema) == TargetUpdates(a + b, options, schema)
  {
    TargetUpdatesAppend(a + [t], b, options, schema);
    TargetUpdatesAppend(a, [t], options, schema);
    TargetUpdatesAppend(a, b, options, schema);
    assert [t][..0] == [];
  }

  /** When every target is present, each is altered once, in `tables()` order. */
  lemma {:induction false} AllPresentTargetsUpdated(targets: seq<TableColumn>, options: string, schema: Schema)
    requires forall k :: 0 <= k < |targets| ==> Present(schema, targets[k])
    ensures var us := TargetUpdates(targets, options, schema);
      |us| == |targets| &&
      forall k :: 0 <= k < |targets| ==> us[k] == Update(targets[k].table, targets[k].column, options)
    decreases |targets|
  {
    if targets != [] {
      var init := targets[..|targets| - 1];
      AllPresentTargetsUpdated(init, options, schema);
      assert forall k :: 0 <= k < |init| ==> targets[k] == init[k];
    }
  }

  /** Each class alters at most one column per target. */
  lemma {:induction false} TargetUpdatesBound(targets: seq<TableColumn>, options: string, schema: Schema)
    ensures |TargetUpdates(targets, options, schema)| <= |targets|
    decreases |targets|
  {
    if targets != [] {
      TargetUpdatesBound(targets[..|targets| - 1], options, schema);
    }
  }

  /** The columns of two runs of classes are the columns of each, in that order. */
  lemma {:induction false} UpdatesAppend(a: seq<Found>, b: seq<Found>, schema: Schema)
    ensures Updates(a + b, schema) == Updates(a, schema) + Updates(b, schema)
    decreases |b|
  {
    if b == [] {
      assert a + b == a;
    } else {
      var b' := b[..|b| - 1];
      assert (a + b)[..|a + b| - 1] == a + b';
      assert (a + b)[|a + b| - 1] == b[|b| - 1];
      UpdatesAppend(a, b', schema);
    }
  }

  /** A run alters a column exactly when some qualifying class lists it as a
      present target; it then uses that class's options string. */
  lemma {:induction false} UpdatesMembership(found: seq<Found>, schema: Schema, u: Update)
    ensures u in Updates(found, schema) <==>
      exists i :: 0 <= i < |found| &&
        u in TargetUpdates(found[i].enumClass.tables, Options(found[i].enumClass.cases), schema)
    decreases |found|
  {
    if found != [] {
      var init := found[..|found| - 1];
      UpdatesMembership(init, schema, u);
      forall i | 0 <= i < |init|
        ensures found[i] == init[i]
      {
      }
    }
  }

  /** Two case values give `v1','v2`, so the column's set becomes `ENUM('v1','v2')`. */
  lemma OptionsOfTwo(a: EnumCase, b: EnumCase)
    ensures Options([a, b]) == a.value + "','" + b.value
  {
    var parts := [a.value, b.value];
    assert CaseValues([a, b]) == parts;
    assert parts[..1] == [a.value];
    assert Implode("','", parts[..1]) == a.value;
  }

  /** An enum without cases restricts the column to `ENUM('')`. */
  lemma NoCasesGiveEmptyOptions()
    ensures Options([]) == ""
  {
    assert CaseValues([]) == [];
  }

  /** `Status` with cases `active` and `inactive` and the target `users.status`:
      the column's options are `active','inactive`; when the column exists the
      log is its statement and message, and when it does not the log is empty. */
  lemma StatusScenario(enumClass: EnumClass, schema: Schema)
    requires enumClass.cases == [EnumCase("Active", "active"), EnumCase("Inactive", "inactive")]
    requires enumClass.tables == [TableColumn("users", "status")]
    ensures Options(enumClass.cases) == "active','inactive"
    ensures Present(schema, TableColumn("users", "status")) ==>
      Emitted(Updates([Found("Status", enumClass)], schema))
      == [DdlStatement(AlterColumn("users", "status", "active','inactive")),
          Info(UpdatedMessage("users", "status"))]
    ensures !HasColumn(schema, "users", "status") ==>
      Emitted(Updates([Found("Status", enumClass)], schema)) == []
  {
    OptionsOfTwo(EnumCase("Active", "active"), EnumCase("Inactive", "inactive"));
    assert "active" + "','" + "inactive" == "active','inactive";
    var found := [Found("Status", enumClass)];
    assert found[..0] == [];
    var targets := enumClass.tables;
    assert targets[..0] == [];
    if Present(schema, TableColumn("users", "status")) {
      var u := Update("users", "status", "active','inactive");
      assert TargetUpdates(targets, "active','inactive", schema) == [u];
      assert Updates(found, schema) == [u];
      assert [u][..0] == [];
    } else {
      assert TargetUpdates(targets, "active','inactive", schema) == [];
    }
  }

  /** Values are not escaped: a value holding `','` widens the column's set
      exactly as two separate cases would. */
  lemma ValuesAreNotEscaped()
    ensures Options([EnumCase("A", "a','b")]) == Options([EnumCase("A", "a"), EnumCase("B", "b")])
  {
    OptionsOfTwo(EnumCase("A", "a"), EnumCase("B", "b"));
    assert CaseValues([EnumCase("A", "a','b")]) == ["a','b"];
    assert "a" + "','" + "b" == "a','b";
  }
}
