/** The package's published configuration defaults (config/config.php). */
module Config {
  import opened Wrappers
  import opened PhpStrings
  import opened Enums
  import opened Discovery

  /** `enum_locations`: one directory, with the namespace prefix `\App\Enums\`. */
  const EnumLocations: seq<Location> := [Location("app/Enums", "\\App\\Enums\\")]

  /** `label.prefix` and `label.namespace` are both null. */
  const LabelPrefix: Option<string> := None
  const LabelNamespace: Option<string> := None

  /** With the shipped locations the walk covers just `app/Enums`: its file
      classes when the directory exists, and nothing otherwise. */
  lemma ShippedLocationsWalk(fs: FileSystem, classes: ClassTable, marker: Capability)
    ensures "app/Enums" in fs.files ==>
      Discover(EnumLocations, fs, classes, marker) == FoundIn("\\App\\Enums\\", fs.files["app/Enums"], classes, marker)
    ensures "app/Enums" !in fs.files ==> Discover(EnumLocations, fs, classes, marker) == []
  {
    assert EnumLocations[..0] == [];
  }

  /** Under the shipped locations the file `Status.php` stands for the class `\App\Enums\Status`. */
  lemma ShippedClassName()
    ensures ClassName(EnumLocations[0].namespace, "Status.php") == "\\App\\Enums\\Status"
  {
    assert "Status" + ".php" == "Status.php";
    BasenameOfSuffixed("Status", ".php");
  }
}
