/**
 * What the commands and traits learn about an application's enums through
 * PHP reflection, as plain values.
 */
module Enums {

  /** One case of a backed enum: `$case->name` and `$case->value`. An int
      backing value is represented by its decimal text, which is what `%s`
      and string interpolation splice in. */
  datatype EnumCase = EnumCase(name: string, value: string)

  /** The marker interfaces the commands look for in `class_implements`. */
  datatype Capability = JsConvertibleEnum | UpdatableEnumColumns

  /** One entry of `tables()`: a table and the one column in it to update. */
  datatype TableColumn = TableColumn(table: string, column: string)

  /** A loaded class: its short name (`ReflectionClass::getShortName`), the
      marker interfaces it implements, `cases()` in declaration order and
      `tables()` in array order. */
  datatype EnumClass = EnumClass(
    shortName: string,
    implements: set<Capability>,
    cases: seq<EnumCase>,
    tables: seq<TableColumn>)

  /** `class_exists` and reflection: the classes that resolve, by fully qualified name. */
  type ClassTable = map<string, EnumClass>

  /** PHP refuses an enum that declares two cases with the same name. */
  predicate UniqueCaseNames(cases: seq<EnumCase>) {
    forall i, j :: 0 <= i < j < |cases| ==> cases[i].name != cases[j].name
  }
}
