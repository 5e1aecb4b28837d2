/**
  The schema metadata the deriver reads: one column descriptor, and the
  class-level facts that ActiveRecord would be asked for (declared enums,
  the table's indexes, the belongs-to associations). They are plain values
  here; the lookups that produce them are not part of this model.
 */
module Schema {
  import opened Wrappers

  /** `column.type`; every type the deriver does not single out is `Other`. */
  datatype ColumnType =
    | Integer | Decimal | Float | String | Text | Boolean
    | Date | DateTime | Time | Other

  /**
    An ActiveRecord column. `null`, `type` and `array` are Dafny keywords, hence
    `nullable`, `kind` and `isArray`; a column object that does not respond to
    `array` is `isArray == false`. `None` stands for Ruby's `nil`.
   */
  datatype Column = Column(
    name: string,
    kind: ColumnType,
    nullable: bool,
    limit: Option<nat>,
    precision: Option<int>,
    scale: Option<int>,
    isArray: bool)

  /** An index of the model's table: whether it is unique and the columns it covers. */
  datatype Index = Index(unique: bool, columns: seq<string>)

  /** A belongs-to association: its name and its foreign-key column. */
  datatype BelongsTo = BelongsTo(name: string, foreignKey: string)

  /**
    What the model class contributes. `enums` is None when the class does not
    respond to `defined_enums`, otherwise the set of enum attribute names.
   */
  datatype Context = Context(
    enums: Option<set<string>>,
    indexes: seq<Index>,
    belongsTo: seq<BelongsTo>)
}
