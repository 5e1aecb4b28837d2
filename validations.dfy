/**
  The stateful side of `ValidatesBySchema::ValidationOption`: an object built
  for one column of one model class, which memoises the column's belongs-to
  association and, on `define!`, appends at most one validation to the
  class's registry.
 */
module Validations {
  import opened Wrappers
  import opened OrderedHash
  import opened Schema
  import opened Bounds
  import opened Deriver

  /**
    A model class as `define!` sees it: the schema facts it answers for its
    table, and the validations registered on it so far, in call order.
   */
  class Model {
    const context: Context
    var validations: seq<Registration>

    constructor (context: Context)
      ensures this.context == context && validations == []
    {
      this.context := context;
      validations := [];
    }

    /** `validates attribute, options`: register one more validation. */
    method Validates(attribute: string, options: Options)
      modifies this
      ensures validations == old(validations) + [Registration(attribute, options)]
    {
      validations := validations + [Registration(attribute, options)];
    }
  }

  class ValidationOption {
    const klass: Model
    const column: Column
    /** The memoised association instance variable: the belongs-to association found earlier, or None. */
    var memo: Option<BelongsTo>

    /** The memo only ever holds what a fresh lookup would find. */
    ghost predicate Valid()
      reads this
    {
      memo.Some? ==> memo == FindAssociation(klass.context.belongsTo, column.name)
    }

    constructor (klass: Model, column: Column)
      ensures this.klass == klass && this.column == column && memo.None?
      ensures Valid()
    {
      this.klass := klass;
      this.column := column;
      memo := None;
    }

    /**
      `association`: the first belongs-to association whose foreign key is the
      column. A hit is memoised; a miss is nil, so `||=` looks again next time.
     */
    method Association() returns (a: Option<BelongsTo>)
      requires Valid()
      modifies this`memo
      ensures Valid()
      ensures a == FindAssociation(klass.context.belongsTo, column.name)
      ensures memo == a
    {
      if memo.None? {
        memo := FindAssociation(klass.context.belongsTo, column.name);
      }
      a := memo;
    }

    /** `numericality`: the options hash, assigned key by key. */
    method Numericality() returns (h: NumericalityHash)
      ensures h == NumericalityOption(column)
    {
      h := [];
      if column.kind == Integer {
        StoreNew(h, OnlyInteger, Flag(true));
        h := Store(h, OnlyInteger, Flag(true));
        if column.limit.Some? {
          var max := IntegerMax(column.limit.value);
          StoreNew(h, LessThan, Whole(max));
          h := Store(h, LessThan, Whole(max));
          StoreNew(h, GreaterThan, Whole(-max));
          h := Store(h, GreaterThan, Whole(-max));
        }
      } else if column.kind == Decimal && column.precision.Some? && column.scale.Some? {
        var max := DecimalMax(column.precision.value, column.scale.value);
        StoreNew(h, LessThanOrEqualTo, Exact(max));
        h := Store(h, LessThanOrEqualTo, Exact(max));
        StoreNew(h, GreaterThanOrEqualTo, Exact(-max));
        h := Store(h, GreaterThanOrEqualTo, Exact(-max));
      }
      assert h == NumericalityBounds(column);
      StoreNew(h, AllowNil, Flag(true));
      h := Store(h, AllowNil, Flag(true));
    }

    /**
      `define!`: for a foreign-key column, presence on the association when
      associations are optional by default and the column is NOT NULL;
      otherwise the column's option hash, when it is not empty.
     */
    method Define(requiredByDefault: bool)
      requires Valid()
      modifies klass, this`memo
      ensures Valid() && memo == FindAssociation(klass.context.belongsTo, column.name)
      ensures klass.validations == old(klass.validations) + Defined(requiredByDefault, klass.context, column)
    {
      var a := Association();
      if a.Some? {
        if !requiredByDefault && !column.nullable {
          klass.Validates(a.value.name, [(Presence, PresenceOpt(true))]);
        }
      } else {
        var options := ToHash(klass.context, column);
        if options != [] {
          klass.Validates(column.name, options);
        }
      }
    }
  }
}
