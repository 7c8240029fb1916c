/**
 * The `HasLabel` trait: a case's display label is the translation of a key
 * built from an optional namespace and prefix (falling back to the
 * configured ones), the enum's short class name and the case name.
 * The translator `trans` is a parameter.
 */
module HasLabel {
  import opened Wrappers
  import opened PhpStrings
  import opened Enums
  import opened Collections
  import Config

  /** `enum-helpers.label.prefix` and `enum-helpers.label.namespace`, as
      `getPrefix()` and `getNamespace()` read them. */
  datatype LabelConfig = LabelConfig(prefix: Option<string>, namespace: Option<string>)

  /** The shipped defaults. */
  const DefaultLabelConfig := LabelConfig(Config.LabelPrefix, Config.LabelNamespace)

  /** PHP's `empty` on a `?string`: null, "" and "0". */
  predicate Blank(o: Option<string>) {
    o.None? || IsEmpty(o.value)
  }

  /** An argument that is `empty` gives way to the configured value. */
  function Resolve(argument: Option<string>, configured: Option<string>): Option<string> {
    if Blank(argument) then configured else argument
  }

  /** A prefix that is not `empty` loses its trailing dots and gets exactly one back. */
  function NormalisePrefix(prefix: Option<string>): Option<string> {
    if !Blank(prefix) then Some(RTrim(prefix.value, '.') + ".") else prefix
  }

  /** A namespace that is not `empty` gets `::` appended unless it already ends with it. */
  function NormaliseNamespace(namespace: Option<string>): Option<string> {
    if !Blank(namespace) && !EndsWith(namespace.value, "::") then Some(namespace.value + "::") else namespace
  }

  /** What `vsprintf('%s', …)` splices in: null becomes "". */
  function Spliced(o: Option<string>): string {
    match o
    case None => ""
    case Some(s) => s
  }

  /** The translation key `getLabel` looks up: `%s%s%s.%s` of namespace, prefix,
      short class name and case name. */
  function LabelKey(enumClass: EnumClass, caseName: string, prefix: Option<string>,
                    namespace: Option<string>, config: LabelConfig): string
  {
    var p := NormalisePrefix(Resolve(prefix, config.prefix));
    var n := NormaliseNamespace(Resolve(namespace, config.namespace));
    Spliced(n) + Spliced(p) + enumClass.shortName + "." + caseName
  }

  /** `$case->getLabel($prefix, $namespace)`. */
  function GetLabel(trans: string -> string, enumClass: EnumClass, enumCase: EnumCase,
                    prefix: Option<string>, namespace: Option<string>, config: LabelConfig): string
  {
    trans(LabelKey(enumClass, enumCase.name, prefix, namespace, config))
  }

  /** `getLabels($prefix, $namespace)`: case name to label, via `mapWithKeys` over `cases()`. */
  function GetLabels(trans: string -> string, enumClass: EnumClass, prefix: Option<string>,
                     namespace: Option<string>, config: LabelConfig): OrderedMap<string>
  {
    var cases := enumClass.cases;
    MapWithKeys(seq(|cases|, i requires 0 <= i < |cases| =>
      (cases[i].name, GetLabel(trans, enumClass, cases[i], prefix, namespace, config))))
  }

  /** An `empty` argument (null, "" or "0") falls back to the configured value;
      any other argument is used as given, whatever is configured for it. */
  lemma ArgumentsOverrideConfig(enumClass: EnumClass, caseName: string, prefix: Option<string>,
                                namespace: Option<string>, config: LabelConfig, other: LabelConfig)
    ensures Blank(prefix) ==>
      LabelKey(enumClass, caseName, prefix, namespace, config)
      == LabelKey(enumClass, caseName, config.prefix, namespace, config)
    ensures Blank(namespace) ==>
      LabelKey(enumClass, caseName, prefix, namespace, config)
      == LabelKey(enumClass, caseName, prefix, config.namespace, config)
    ensures !Blank(prefix) ==>
      LabelKey(enumClass, caseName, prefix, namespace, config)
      == LabelKey(enumClass, caseName, prefix, namespace, LabelConfig(other.prefix, config.namespace))
    ensures !Blank(namespace) ==>
      LabelKey(enumClass, caseName, prefix, namespace, config)
      == LabelKey(enumClass, caseName, prefix, namespace, LabelConfig(config.prefix, other.namespace))
  {
  }

  /** A normalised prefix that is not `empty` is the original without its
      trailing dots, followed by exactly one dot. */
  lemma PrefixEndsWithOneDot(prefix: Option<string>)
    requires !Blank(prefix)
    ensures var r := NormalisePrefix(prefix).value;
      && |r| >= 1 && r[|r| - 1] == '.'
      && (|r| == 1 || r[|r| - 2] != '.')
      && r[..|r| - 1] == prefix.value[..|r| - 1]
      && forall i :: |r| - 1 <= i < |prefix.value| ==> prefix.value[i] == '.'
  {
    var t := RTrim(prefix.value, '.');
    assert NormalisePrefix(prefix).value[..|t|] == t;
  }

  /** Normalising a prefix twice is normalising it once. */
  lemma PrefixNormalisationIdempotent(prefix: Option<string>)
    ensures NormalisePrefix(NormalisePrefix(prefix)) == NormalisePrefix(prefix)
  {
    if !Blank(prefix) {
      var t := RTrim(prefix.value, '.');
      var q := t + ".";
      assert q[..|q| - 1] == t;
      assert RTrim(q, '.') == RTrim(t, '.');
      assert RTrim(t, '.') == t;
    }
  }

  /** A normalised namespace that is not `empty` ends with `::`; one that
      already did is left as it was, and otherwise `::` is appended once. */
  lemma NamespaceEndsWithSeparator(namespace: Option<string>)
    requires !Blank(namespace)
    ensures EndsWith(NormaliseNamespace(namespace).value, "::")
    ensures EndsWith(namespace.value, "::") ==> NormaliseNamespace(namespace) == namespace
    ensures !EndsWith(namespace.value, "::") ==> NormaliseNamespace(namespace) == Some(namespace.value + "::")
  {
    var v := namespace.value;
    if !EndsWith(v, "::") {
      var w := v + "::";
      assert w[|w| - 2..] == "::";
    }
  }

  /** Normalising a namespace twice is normalising it once. */
  lemma NamespaceNormalisationIdempotent(namespace: Option<string>)
    ensures NormaliseNamespace(NormaliseNamespace(namespace)) == NormaliseNamespace(namespace)
  {
    if !Blank(namespace) {
      NamespaceEndsWithSeparator(namespace);
    }
  }

  /** The key always ends with `.` and the case name; when prefix and namespace
      both resolve to null or "", it is just the short name, a dot and the case name. */
  lemma LabelKeyShape(enumClass: EnumClass, caseName: string, prefix: Option<string>,
                      namespace: Option<string>, config: LabelConfig)
    ensures var key := LabelKey(enumClass, caseName, prefix, namespace, config);
      var tail := "." + caseName;
      |key| >= |tail| && key[|key| - |tail|..] == tail
    ensures (Resolve(prefix, config.prefix) in {None, Some("")} &&
             Resolve(namespace, config.namespace) in {None, Some("")}) ==>
      LabelKey(enumClass, caseName, prefix, namespace, config) == enumClass.shortName + "." + caseName
  {
    var key := LabelKey(enumClass, caseName, prefix, namespace, config);
    var p := NormalisePrefix(Resolve(prefix, config.prefix));
    var n := NormaliseNamespace(Resolve(namespace, config.namespace));
    var head := Spliced(n) + Spliced(p) + enumClass.shortName;
    assert key == head + ("." + caseName);
  }

  /** Because PHP's `empty("0")` holds, a resolved prefix "0" is spliced in
      as it is, with no dot after it. */
  lemma ZeroPrefixIsNotNormalised(enumClass: EnumClass, caseName: string, config: LabelConfig)
    requires config.prefix == Some("0") && config.namespace == None
    ensures LabelKey(enumClass, caseName, None, None, config) == "0" + enumClass.shortName + "." + caseName
  {
  }

  /** With the shipped defaults (both null) the key is `ShortName.caseName`. */
  lemma DefaultConfigKey(enumClass: EnumClass, caseName: string)
    ensures LabelKey(enumClass, caseName, None, None, DefaultLabelConfig) == enumClass.shortName + "." + caseName
  {
  }

  /** A configured prefix `enums` normalises to `enums.`. */
  lemma EnumsPrefixNormalised()
    ensures NormalisePrefix(Resolve(None, Some("enums"))) == Some("enums.")
  {
    assert "enums"[|"enums"| - 1] == 's';
    assert RTrim("enums", '.') == "enums";
    assert !Blank(Some("enums"));
    assert "enums" + "." == "enums.";
  }

  /** Configured prefix `enums`, no namespace: the key of `Status::Active` is `enums.Status.Active`. */
  lemma StatusActiveKey(enumClass: EnumClass)
    requires enumClass.shortName == "Status"
    ensures LabelKey(enumClass, "Active", None, None, LabelConfig(Some("enums"), None)) == "enums.Status.Active"
  {
    EnumsPrefixNormalised();
    assert LabelKey(enumClass, "Active", None, None, LabelConfig(Some("enums"), None))
        == "" + "enums." + "Status" + "." + "Active";
  }

  /** With namespace `app` as well, the key is `app::enums.Status.Active`. */
  lemma StatusActiveKeyInNamespace(enumClass: EnumClass)
    requires enumClass.shortName == "Status"
    ensures LabelKey(enumClass, "Active", None, Some("app"), LabelConfig(Some("enums"), None)) == "app::enums.Status.Active"
  {
    EnumsPrefixNormalised();
    assert !EndsWith("app", "::") by {
      assert "app"[1..][0] == 'p';
    }
    assert !Blank(Some("app"));
    assert "app" + "::" == "app::";
    assert NormaliseNamespace(Resolve(Some("app"), None)) == Some("app::");
    assert LabelKey(enumClass, "Active", None, Some("app"), LabelConfig(Some("enums"), None))
        == "app::" + "enums." + "Status" + "." + "Active";
  }

  /** `getLabels` has one entry per case, keyed by case name, in case order,
      each holding that case's `getLabel`. */
  lemma GetLabelsInCaseOrder(trans: string -> string, enumClass: EnumClass, prefix: Option<string>,
                             namespace: Option<string>, config: LabelConfig)
    requires UniqueCaseNames(enumClass.cases)
    ensures var labels := GetLabels(trans, enumClass, prefix, namespace, config);
      var cases := enumClass.cases;
      && |labels| == |cases|
      && forall i :: 0 <= i < |cases| ==>
           labels[i] == (cases[i].name, trans(LabelKey(enumClass, cases[i].name, prefix, namespace, config)))
  {
    var cases := enumClass.cases;
    var entries := seq(|cases|, i requires 0 <= i < |cases| =>
      (cases[i].name, GetLabel(trans, enumClass, cases[i], prefix, namespace, config)));
    assert forall i :: 0 <= i < |cases| ==> KeysOf(entries)[i] == cases[i].name;
    MapWithKeysOfDistinct(entries);
  }
}
