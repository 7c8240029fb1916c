/**
 * The walk both console commands start with: for each configured directory
 * and namespace prefix, every file below the directory names a class
 * `namespace . basename(file, '.php')`; the walk keeps those classes that
 * resolve and implement the marker interface the command needs.
 */
module Discovery {
  import opened PhpStrings
  import opened Enums

  /** One `enum_locations` entry: a directory and the namespace prefix of its classes. */
  datatype Location = Location(directory: string, namespace: string)

  /** The directories that exist (`File::exists`), each with the names of the
      files below it in the order `File::allFiles` lists them. */
  datatype FileSystem = FileSystem(files: map<string, seq<string>>)

  /** A class the walk keeps: the base name of its file and what reflection says about it. */
  datatype Found = Found(baseName: string, enumClass: EnumClass)

  const PhpExtension := ".php"

  /** The class name a file stands for: the namespace prefix followed by the file's base name. */
  function ClassName(namespace: string, file: string): string {
    namespace + Basename(file, PhpExtension)
  }

  /** `class_exists($class)` and the marker interface among `class_implements($class)`. */
  predicate Qualifies(classes: ClassTable, className: string, marker: Capability) {
    className in classes && marker in classes[className].implements
  }

  /** The classes kept from the files of one directory, in file order. */
  function FoundIn(namespace: string, files: seq<string>, classes: ClassTable, marker: Capability): seq<Found>
    decreases |files|
  {
    if files == [] then []
    else
      var init := FoundIn(namespace, files[..|files| - 1], classes, marker);
      var file := files[|files| - 1];
      var className := ClassName(namespace, file);
      if Qualifies(classes, className, marker)
      then init + [Found(Basename(file, PhpExtension), classes[className])]
      else init
  }

  /** The classes kept from one location; a directory that does not exist gives none. */
  function InLocation(location: Location, fs: FileSystem, classes: ClassTable, marker: Capability): seq<Found> {
    if location.directory in fs.files
    then FoundIn(location.namespace, fs.files[location.directory], classes, marker)
    else []
  }

  /** The classes kept from all locations: location order first, then file order. */
  function Discover(locations: seq<Location>, fs: FileSystem, classes: ClassTable, marker: Capability): seq<Found>
    decreases |locations|
  {
    if locations == [] then []
    else Discover(locations[..|locations| - 1], fs, classes, marker)
         + InLocation(locations[|locations| - 1], fs, classes, marker)
  }

  /** One more location extends the walk by that location's classes. */
  lemma DiscoverStep(locations: seq<Location>, i: nat, fs: FileSystem, classes: ClassTable, marker: Capability)
    requires i < |locations|
    ensures Discover(locations[..i + 1], fs, classes, marker)
         == Discover(locations[..i], fs, classes, marker) + InLocation(locations[i], fs, classes, marker)
  {
    assert locations[..i + 1][..i] == locations[..i];
  }

  /** One more file extends the walk by its class when that class qualifies. */
  lemma FoundInStep(namespace: string, files: seq<string>, j: nat, classes: ClassTable, marker: Capability)
    requires j < |files|
    ensures var className := ClassName(namespace, files[j]);
      FoundIn(namespace, files[..j + 1], classes, marker)
      == FoundIn(namespace, files[..j], classes, marker)
         + (if Qualifies(classes, className, marker)
            then [Found(Basename(files[j], PhpExtension), classes[className])] else [])
  {
    assert files[..j + 1][..j] == files[..j];
  }

  /** Walking two runs of files one after the other keeps the classes of each, in that order. */
  lemma {:induction false} FoundInAppend(namespace: string, a: seq<string>, b: seq<string>, classes: ClassTable, marker: Capability)
    ensures FoundIn(namespace, a + b, classes, marker)
         == FoundIn(namespace, a, classes, marker) + FoundIn(namespace, b, classes, marker)
    decreases |b|
  {
    if b == [] {
      assert a + b == a;
    } else {
      var b' := b[..|b| - 1];
      assert (a + b)[..|a + b| - 1] == a + b';
      assert (a + b)[|a + b| - 1] == b[|b| - 1];
      FoundInAppend(namespace, a, b', classes, marker);
    }
  }

  /** Walking two runs of locations one after the other keeps the classes of each, in that order. */
  lemma {:induction false} DiscoverAppend(a: seq<Location>, b: seq<Location>, fs: FileSystem, classes: ClassTable, marker: Capability)
    ensures Discover(a + b, fs, classes, marker) == Discover(a, fs, classes, marker) + Discover(b, fs, classes, marker)
    decreases |b|
  {
    if b == [] {
      assert a + b == a;
    } else {
      var b' := b[..|b| - 1];
      assert (a + b)[..|a + b| - 1] == a + b';
      assert (a + b)[|a + b| - 1] == b[|b| - 1];
      DiscoverAppend(a, b', fs, classes, marker);
    }
  }

  /** A location whose directory does not exist contributes nothing wherever it stands. */
  lemma MissingDirectoryContributesNothing(a: seq<Location>, location: Location, b: seq<Location>,
                                           fs: FileSystem, classes: ClassTable, marker: Capability)
    requires location.directory !in fs.files
    ensures Discover(a + [location] + b, fs, classes, marker) == Discover(a + b, fs, classes, marker)
  {
    DiscoverAppend(a + [location], b, fs, classes, marker);
    DiscoverAppend(a, [location], fs, classes, marker);
    DiscoverAppend(a, b, fs, classes, marker);
    assert Discover([location], fs, classes, marker) == [];
  }

  /** A file's class is kept exactly when it resolves and implements the marker;
      it is then kept under the file's base name. */
  lemma {:induction false} FoundInMembership(namespace: string, files: seq<string>, classes: ClassTable,
                                             marker: Capability, f: Found)
    ensures f in FoundIn(namespace, files, classes, marker) <==>
      exists j :: 0 <= j < |files| && Qualifies(classes, ClassName(namespace, files[j]), marker)
        && f == Found(Basename(files[j], PhpExtension), classes[ClassName(namespace, files[j])])
    decreases |files|
  {
    if files != [] {
      var init := files[..|files| - 1];
      FoundInMembership(namespace, init, classes, marker, f);
      if f in FoundIn(namespace, files, classes, marker) && f !in FoundIn(namespace, init, classes, marker) {
        var j := |files| - 1;
        assert Qualifies(classes, ClassName(namespace, files[j]), marker);
      }
      forall j | 0 <= j < |init|
        ensures files[j] == init[j]
      {
      }
    }
  }

  /** Every class the walk keeps resolved, came from an existing configured
      directory, and implements the marker; conversely, every such class is kept. */
  lemma {:induction false} DiscoverMembership(locations: seq<Location>, fs: FileSystem, classes: ClassTable,
                                              marker: Capability, f: Found)
    ensures f in Discover(locations, fs, classes, marker) <==>
      exists i :: 0 <= i < |locations| && locations[i].directory in fs.files &&
        f in FoundIn(locations[i].namespace, fs.files[locations[i].directory], classes, marker)
    decreases |locations|
  {
    if locations != [] {
      var init := locations[..|locations| - 1];
      DiscoverMembership(init, fs, classes, marker, f);
      forall i | 0 <= i < |init|
        ensures locations[i] == init[i]
      {
      }
    }
  }

  /** Each location contributes at most one class per file. */
  lemma {:induction false} FoundInBound(namespace: string, files: seq<string>, classes: ClassTable, marker: Capability)
    ensures |FoundIn(namespace, files, classes, marker)| <= |files|
    decreases |files|
  {
    if files != [] {
      FoundInBound(namespace, files[..|files| - 1], classes, marker);
    }
  }
}
