/**
 * `enum-helpers:js:export`: every enum in the configured locations that
 * implements `JsConvertibleEnum` becomes one frozen JavaScript object, and
 * the statements are written to one file. Names and values are spliced in
 * verbatim: nothing is escaped.
 */
module ExportEnumsToJs {
  import opened Wrappers
  import opened PhpStrings
  import opened Enums
  import opened Discovery

  /** `File::put($path, $contents)`. */
  datatype FilePut = FilePut(path: string, contents: string)

  /** `sprintf('%s:"%s"', $item->name, $item->value)`. */
  function CaseEntry(c: EnumCase): string {
    c.name + ":\"" + c.value + "\""
  }

  /** `collect($class::cases())->map(...)`: one entry per case, in case order. */
  function CaseEntries(cases: seq<EnumCase>): seq<string> {
    seq(|cases|, i requires 0 <= i < |cases| => CaseEntry(cases[i]))
  }

  /** The case entries imploded with `", "`. */
  function Entries(cases: seq<EnumCase>): string {
    Implode(", ", CaseEntries(cases))
  }

  /** `export const <Base> = Object.freeze({<entries>});`. */
  function Statement(baseName: string, cases: seq<EnumCase>): string {
    "export const " + baseName + " = Object.freeze({" + Entries(cases) + "});"
  }

  /** The statements of the kept classes, in walk order. */
  function Statements(found: seq<Found>): seq<string> {
    seq(|found|, i requires 0 <= i < |found| => Statement(found[i].baseName, found[i].enumClass.cases))
  }

  /** `$jsString` after the kept classes: each statement followed by `PHP_EOL` ("\n"). */
  function Accumulated(found: seq<Found>): string
    decreases |found|
  {
    if found == [] then ""
    else
      var last := found[|found| - 1];
      Accumulated(found[..|found| - 1]) + Statement(last.baseName, last.enumClass.cases) + "\n"
  }

  /** `handle()`. The result says whether and what `File::put` writes: nothing
      when no class qualifies, and otherwise the statements in walk order joined
      by single newlines. The exit code is always 0. */
  method Handle(locations: seq<Location>, fs: FileSystem, classes: ClassTable, outputPath: string)
    returns (put: Option<FilePut>, exitCode: int)
    ensures var found := Discover(locations, fs, classes, JsConvertibleEnum);
      put == if found == [] then None else Some(FilePut(outputPath, Implode("\n", Statements(found))))
    ensures exitCode == 0
  {
    var js := "";
    var i := 0;
    while i < |locations|
      invariant 0 <= i <= |locations|
      invariant js == Accumulated(Discover(locations[..i], fs, classes, JsConvertibleEnum))
    {
      DiscoverStep(locations, i, fs, classes, JsConvertibleEnum);
      var directory := locations[i].directory;
      var namespace := locations[i].namespace;
      ghost var before := Discover(locations[..i], fs, classes, JsConvertibleEnum);
      if directory !in fs.files {
        assert before + [] == before;
        i := i + 1;
        continue;
      }
      js := ExportFiles(js, before, namespace, fs.files[directory], classes);
      i := i + 1;
    }
    assert locations[..|locations|] == locations;
    AccumulatedIsTrimmedToStatements(Discover(locations, fs, classes, JsConvertibleEnum));
    if !IsEmpty(js) {
      put := Some(FilePut(outputPath, Trim(js)));
    } else {
      put := None;
    }
    exitCode := 0;
  }

  /** Walking one more file appends that file's statement and a newline to
      `$jsString` when its class qualifies, and nothing otherwise. */
  lemma AccumulatedFileStep(before: seq<Found>, namespace: string, files: seq<string>, j: nat, classes: ClassTable)
    requires j < |files|
    ensures var baseName := Basename(files[j], PhpExtension);
      var className := namespace + baseName;
      Qualifies(classes, className, JsConvertibleEnum) ==>
        Accumulated(before + FoundIn(namespace, files[..j + 1], classes, JsConvertibleEnum))
        == Accumulated(before + FoundIn(namespace, files[..j], classes, JsConvertibleEnum))
           + Statement(baseName, classes[className].cases) + "\n"
    ensures var className := namespace + Basename(files[j], PhpExtension);
      !Qualifies(classes, className, JsConvertibleEnum) ==>
        Accumulated(before + FoundIn(namespace, files[..j + 1], classes, JsConvertibleEnum))
        == Accumulated(before + FoundIn(namespace, files[..j], classes, JsConvertibleEnum))
  {
    FoundInStep(namespace, files, j, classes, JsConvertibleEnum);
    var kept := before + FoundIn(namespace, files[..j], classes, JsConvertibleEnum);
    var baseName := Basename(files[j], PhpExtension);
    var className := namespace + baseName;
    if Qualifies(classes, className, JsConvertibleEnum) {
      var f := Found(baseName, classes[className]);
      assert before + FoundIn(namespace, files[..j + 1], classes, JsConvertibleEnum) == kept + [f];
      AccumulatedSnoc(kept, f);
    } else {
      assert before + FoundIn(namespace, files[..j + 1], classes, JsConvertibleEnum) == kept;
    }
  }

  /** Appending a kept class appends its statement and a newline to `$jsString`. */
  lemma AccumulatedSnoc(found: seq<Found>, f: Found)
    ensures Accumulated(found + [f]) == Accumulated(found) + Statement(f.baseName, f.enumClass.cases) + "\n"
  {
    assert (found + [f])[..|found|] == found;
  }

  /** The inner `foreach ($files as $file)` of `handle()`: appends the
      statement of every qualifying class among one directory's files. */
  method ExportFiles(js0: string, ghost before: seq<Found>, namespace: string, files: seq<string>, classes: ClassTable)
    returns (js: string)
    requires js0 == Accumulated(before)
    ensures js == Accumulated(before + FoundIn(namespace, files, classes, JsConvertibleEnum))
  {
    js := js0;
    var j := 0;
    assert before + FoundIn(namespace, files[..0], classes, JsConvertibleEnum) == before;
    while j < |files|
      invariant 0 <= j <= |files|
      invariant js == Accumulated(before + FoundIn(namespace, files[..j], classes, JsConvertibleEnum))
    {
      AccumulatedFileStep(before, namespace, files, j, classes);
      var baseName := Basename(files[j], PhpExtension);
      var className := namespace + baseName;
      if className !in classes {
        j := j + 1;
        continue;
      }
      if JsConvertibleEnum !in classes[className].implements {
        j := j + 1;
        continue;
      }
      js := js + Statement(baseName, classes[className].cases);
      js := js + "\n";
      j := j + 1;
    }
    assert files[..|files|] == files;
  }

  /** `$jsString` is `empty` exactly when no class was kept; otherwise `trim`
      removes just the final newline, leaving the statements joined by newlines. */
  lemma AccumulatedIsTrimmedToStatements(found: seq<Found>)
    ensures IsEmpty(Accumulated(found)) <==> found == []
    ensures found != [] ==> Trim(Accumulated(found)) == Implode("\n", Statements(found))
  {
    if found != [] {
      var all := Statements(found);
      forall k | 0 <= k < |all|
        ensures all[k] != "" && all[k][0] == 'e' && all[k][|all[k]| - 1] == ';'
      {
        StatementEnds(found[k].baseName, found[k].enumClass.cases);
      }
      AccumulatedIsStatementsAndNewline(found);
      var joined := Implode("\n", all);
      ImplodeStartsWith("\n", all);
      ImplodeEndsWithLast("\n", all);
      TrimDropsFinalNewline(joined);
      assert Accumulated(found) == joined + "\n";
      assert |Accumulated(found)| >= 2;
    }
  }

  /** `$jsString` is the statements joined by newlines, plus one final newline. */
  lemma {:induction false} AccumulatedIsStatementsAndNewline(found: seq<Found>)
    requires found != []
    ensures Accumulated(found) == Implode("\n", Statements(found)) + "\n"
    decreases |found|
  {
    var init := found[..|found| - 1];
    var last := found[|found| - 1];
    var st := Statement(last.baseName, last.enumClass.cases);
    var all := Statements(found);
    assert all[..|all| - 1] == Statements(init);
    assert all[|all| - 1] == st;
    assert Accumulated(found) == Accumulated(init) + st + "\n";
    if init == [] {
      assert all == [st];
    } else {
      AccumulatedIsStatementsAndNewline(init);
      assert Implode("\n", all) == Implode("\n", Statements(init)) + "\n" + st;
    }
  }

  /** The last character of an implosion whose last part ends in `;` is `;`. */
  lemma ImplodeEndsWithLast(sep: string, parts: seq<string>)
    requires parts != [] && forall k :: 0 <= k < |parts| ==> parts[k] != "" && parts[k][|parts[k]| - 1] == ';'
    ensures var s := Implode(sep, parts); s != "" && s[|s| - 1] == ';'
  {
  }

  /** Every statement starts with `e` and ends with `;`, so `trim` leaves it whole. */
  lemma StatementEnds(baseName: string, cases: seq<EnumCase>)
    ensures var s := Statement(baseName, cases); s != "" && s[0] == 'e' && s[|s| - 1] == ';'
  {
  }

  /** The entries of two cases, each rendered `name:"value"`, joined by `", "`. */
  lemma EntriesOfTwo(a: EnumCase, b: EnumCase)
    ensures Entries([a, b]) == CaseEntry(a) + ", " + CaseEntry(b)
  {
    var parts := [CaseEntry(a), CaseEntry(b)];
    assert CaseEntries([a, b]) == parts;
    assert parts[..1] == [CaseEntry(a)];
    assert Implode(", ", parts[..1]) == CaseEntry(a);
    assert Implode(", ", parts) == Implode(", ", parts[..1]) + ", " + parts[1];
  }

  /** The cases `[A => "1", B => "2"]` render as `A:"1", B:"2"`, so their
      statement under the base name `X` is
      `export const X = Object.freeze({A:"1", B:"2"});`. */
  lemma ExampleEntries()
    ensures Entries([EnumCase("A", "1"), EnumCase("B", "2")]) == "A:\"1\", B:\"2\""
  {
    EntriesOfTwo(EnumCase("A", "1"), EnumCase("B", "2"));
  }

  /** Values are not escaped: a value holding `", B:"` renders like two cases. */
  lemma ValuesAreNotEscaped()
    ensures Entries([EnumCase("A", "1\", B:\"2")]) == Entries([EnumCase("A", "1"), EnumCase("B", "2")])
  {
    EntriesOfTwo(EnumCase("A", "1"), EnumCase("B", "2"));
    var one := EnumCase("A", "1\", B:\"2");
    assert CaseEntries([one]) == [CaseEntry(one)];
  }

  /** Two kept enums (say `{A:1,B:2}` then `{C:3}`) give two statements, in
      walk order, separated by a single newline. */
  lemma TwoEnumsOnTwoLines(f: Found, g: Found)
    ensures Implode("\n", Statements([f, g]))
         == Statement(f.baseName, f.enumClass.cases) + "\n" + Statement(g.baseName, g.enumClass.cases)
  {
    var parts := Statements([f, g]);
    assert parts[..1] == [Statement(f.baseName, f.enumClass.cases)];
  }
}
