# validates_by_schema: the per-column rule deriver, in Dafny

`validates_by_schema` adds ActiveModel validations to an ActiveRecord model
class from its database schema. For each column, a
`ValidatesBySchema::ValidationOption` object decides what to register on the
class. There are three possible outcomes:

- nothing;
- `validates <association>, presence: true` on a `belongs_to` association
  whose foreign key is the column;
- `validates <column>, <options>`, where the options form an ordered hash over
  the keys `presence`, `numericality`, `length`, `inclusion` and `uniqueness`.

This project models that class and proves what it derives.

- `Wrappers` (wrappers.dfy): `Option`.
- `OrderedHash` (ordered_hash.dfy): Ruby's insertion-ordered `Hash`, as a
  sequence of key/value pairs. `Store` is both `h[k] = v` and
  `h.merge(k => v)`.
- `Schema` (schema.dfy): the schema facts the class reads. These are the
  column descriptor (name, type, `null`, `limit`, `precision`, `scale`,
  `array`), the table's indexes, the class's `belongs_to` associations, and its
  declared enums. `null`, `type` and `array` are Dafny keywords, so the fields
  are called `nullable`, `kind` and `isArray`.
- `Bounds` (bounds.dfy): `integer_max` and `decimal_max`, computed exactly.
  `Shift(x, e)` is x * 10^e.
- `Deriver` (deriver.dfy): each predicate/option pair (`presence?`/`presence`,
  …) and the `to_hash` fold. The `inject` fold is written once for any
  per-key dispatch; `to_hash` instantiates it with the column's predicates
  and options. Also here:
  - `Defined`, the list of registrations `define!` makes;
  - `Admits`, what the numericality keys mean for a value;
  - the property lemmas, and examples drawn from the gem's test suite.
- `Validations` (validations.dfy): the stateful part, as classes.
  - `Model` holds the class's registry of validations, which `Validates`
    appends to.
  - `ValidationOption` holds the `@association` memo.
  - `Define` (`define!`) is proved to append exactly `Defined(...)` to the
    registry.
  - `Association` keeps the memo consistent with a fresh lookup.
  - `Numericality` builds its hash key by key and is proved equal to
    `NumericalityOption`.

The global flag `ActiveRecord::Base.belongs_to_required_by_default` is a
parameter of `Define` and `Defined`. The results of the ActiveRecord lookups
are plain input data in `Context`:

- `defined_enums` (`None` when the class does not respond to it);
- `connection.indexes`;
- `reflect_on_all_associations(:belongs_to)`.

Two consequences of the code are worth stating:

- Uniqueness counts every unique index whose column list *includes* the
  column, so a composite unique index counts as well. The rule is added only
  when exactly one such index exists (`UniqueIndexExamples` shows both cases).
- A column gets at most three validators (`AtMostThreeRules`).
  Numericality, length and inclusion depend on pairwise disjoint column types,
  and presence is never given to a boolean column.

## Model

| member | source | states |
|---|---|---|
| OrderedHash.Store | lib/validates_by_schema/validation_option.rb:110 | merging a key that is not yet present appends it at the end; merging a present key leaves the order of keys unchanged |
| OrderedHash.StoreGet | lib/validates_by_schema/validation_option.rb:110 | after `h.merge(k => v)`, `k` maps to `v` and every other key maps to what it did before |
| OrderedHash.StoreDistinct | lib/validates_by_schema/validation_option.rb:110 | merging never makes a key appear twice |
| Bounds.IntegerMax | lib/validates_by_schema/validation_option.rb:94-96 | `integer_max`, (2^(8*limit))/2; no contract of its own; stated by `Bounds.IntegerMaxSignedRange` |
| Bounds.RealPow10 | lib/validates_by_schema/validation_option.rb:99 | `10.0**e`, exactly; no contract of its own; stated by `Bounds.RealPow10Natural` |
| Bounds.DecimalMax | lib/validates_by_schema/validation_option.rb:98-100 | `decimal_max`, 10^(p-s) - 10^(-s) exactly; no contract of its own; stated by `Bounds.DecimalMaxScaled` and `Bounds.DecimalMaxDigits` |
| Deriver.RequiresPresence | lib/validates_by_schema/validation_option.rb:28-30 | `presence`, `!column.null`; no contract of its own; stated by `Deriver.PresenceRule` |
| Deriver.PresenceApplies | lib/validates_by_schema/validation_option.rb:24-26 | `presence?`; no contract of its own; stated by `Deriver.PresenceRule` |
| Deriver.IsEnum | lib/validates_by_schema/validation_option.rb:32-34 | `enum?`; no contract of its own; stated by `Deriver.NumericalityRule` |
| Deriver.NumericalityApplies | lib/validates_by_schema/validation_option.rb:36-38 | `numericality?`; no contract of its own; stated by `Deriver.NumericalityRule` |
| Deriver.NumericalityBounds | lib/validates_by_schema/validation_option.rb:40-51 | the hash `numericality`'s assignments leave before `allow_nil`; no contract of its own; `Validations.ValidationOption.Numericality` proves the key-by-key assignments build it, and `Deriver.NumericalityLookup`, `Deriver.IntegerBoundsAdmit`, `Deriver.DecimalBoundsAdmit` and `Deriver.UnboundedAdmitsAll` state what it holds and admits |
| Deriver.NumericalityOption | lib/validates_by_schema/validation_option.rb:40-54 | `numericality`; no contract of its own; built by `Validations.ValidationOption.Numericality`, read key by key in `Deriver.NumericalityLookup`, and its meaning stated by `Deriver.IntegerBoundsAdmit`, `Deriver.DecimalBoundsAdmit` and `Deriver.UnboundedAdmitsAll` |
| Deriver.Covers | lib/validates_by_schema/validation_option.rb:70-71 | the two `select` filters of `unique_indexes`; no contract of its own; used by `Deriver.UniqueIndexes` |
| Deriver.UniquenessApplies | lib/validates_by_schema/validation_option.rb:56-58 | `uniqueness?`; no contract of its own; stated by `Deriver.UniquenessRule` |
| Deriver.LengthApplies | lib/validates_by_schema/validation_option.rb:74-80 | `length?` with `array?`; no contract of its own; stated by `Deriver.LengthRule` |
| Deriver.InclusionApplies | lib/validates_by_schema/validation_option.rb:86-88 | `inclusion?`; no contract of its own; stated by `Deriver.InclusionRule` |
| Deriver.Applies | lib/validates_by_schema/validation_option.rb:109-110 | `send(:"#{k}?")` for each key; no contract of its own; stated by `Deriver.ToHashGet` |
| Deriver.OptionFor | lib/validates_by_schema/validation_option.rb:110 | `send(k)`: `presence`, `numericality`, `length`, `inclusion`, `uniqueness`; no contract of its own; stated by `Deriver.ToHashGet` and the per-key rule lemmas |
| Deriver.Dispatch | lib/validates_by_schema/validation_option.rb:110 | the block of the fold, `send(:"#{k}?") ? send(k) : nil`; no contract of its own; stated by `Deriver.ToHashCanonical` |
| Deriver.Inject | lib/validates_by_schema/validation_option.rb:109-111 | the `inject` fold with `merge`; no contract of its own; stated by `Deriver.InjectCanonical` and `Deriver.InjectKeys` |
| Deriver.ToHash | lib/validates_by_schema/validation_option.rb:108-112 | `to_hash`; no contract of its own; stated by `Deriver.ToHashCanonical`, `Deriver.ToHashGet` and `Deriver.AtMostThreeRules` |
| Deriver.Defined | lib/validates_by_schema/validation_option.rb:11-20 | the registrations `define!` makes; no contract of its own; stated by `Deriver.DefinedForeignKey`, `Deriver.DefinedColumn` and `Deriver.DefinedAtMostOne`, and by `Validations.ValidationOption.Define` |
| Bounds.IntegerMaxSignedRange | lib/validates_by_schema/validation_option.rb:94-96 | for a limit of L >= 1 bytes, `(2**(8*L))/2` is 2^(8L-1), one past the largest signed L-byte integer; for L = 0 it is 0 |
| Bounds.RealPow10Natural | lib/validates_by_schema/validation_option.rb:99 | `10.0**n` for a natural n equals the integer power 10^n |
| Bounds.DecimalMaxScaled | lib/validates_by_schema/validation_option.rb:98-100 | `decimal_max` * 10^scale == 10^precision - 1, the largest unscaled value of `precision` digits |
| Bounds.DecimalMaxDigits | lib/validates_by_schema/validation_option.rb:98-100 | a value n * 10^-scale is <= `decimal_max` iff n < 10^precision, and >= -`decimal_max` iff -n < 10^precision |
| Deriver.UniqueIndexes | lib/validates_by_schema/validation_option.rb:66-72 | the result holds every unique index that includes the column and no other index, and is no longer than the table's list |
| Deriver.UniqueIndexesCount | lib/validates_by_schema/validation_option.rb:66-72 | each unique index that includes the column occurs in the result exactly as many times as in the table's list; every other index occurs zero times |
| Deriver.FindAssociation | lib/validates_by_schema/validation_option.rb:102-105 | nil iff no belongs-to association has the column as foreign key; otherwise the first association that does |
| Deriver.InjectCanonical | lib/validates_by_schema/validation_option.rb:109-111 | for any per-key dispatch, the fold keeps keys in visiting order, each carrying the option the dispatch gives it |
| Deriver.InjectKeys | lib/validates_by_schema/validation_option.rb:109-111 | the fold adds exactly the visited keys for which the predicate holds |
| Deriver.ToHashCanonical | lib/validates_by_schema/validation_option.rb:108-112 | `to_hash` holds exactly the keys whose predicate holds, each with its option, in the order presence, numericality, length, inclusion, uniqueness |
| Deriver.ToHashGet | lib/validates_by_schema/validation_option.rb:108-112 | looking up any key in `to_hash` gives its option iff its predicate holds, nil otherwise |
| Deriver.PresenceRule | lib/validates_by_schema/validation_option.rb:24-30 | presence is present iff the column is NOT NULL and not boolean, and it is then `true` |
| Deriver.NumericalityRule | lib/validates_by_schema/validation_option.rb:32-38 | numericality is present iff the type is integer, decimal or float and the class does not declare the column as an enum |
| Deriver.NumericalityLookup | lib/validates_by_schema/validation_option.rb:40-54 | read key by key, the numericality hash has distinct keys and ends with `allow_nil: true`; `only_integer` is set iff the type is integer, `less_than`/`greater_than` are ±`integer_max` iff it is integer with a limit, `less_than_or_equal_to`/`greater_than_or_equal_to` are ±`decimal_max` iff it is decimal with precision and scale, and `allow_nil` is always `true` |
| Deriver.IntegerBoundsAdmit | lib/validates_by_schema/validation_option.rb:42-47 | an integer column of L >= 1 bytes admits exactly the whole numbers strictly between -2^(8L-1) and 2^(8L-1) |
| Deriver.DecimalBoundsAdmit | lib/validates_by_schema/validation_option.rb:48-50 | a decimal(p, s) column admits n * 10^-s exactly when \|n\| < 10^p, so the bounds are inclusive |
| Deriver.UnboundedAdmitsAll | lib/validates_by_schema/validation_option.rb:40-54 | float columns, and decimals lacking precision or scale, bound no value |
| Deriver.LengthRule | lib/validates_by_schema/validation_option.rb:74-84 | length is present iff the type is string or text, a limit is set and the column is not an array; it is then `maximum: limit, allow_nil: true` |
| Deriver.NumericalityLengthExclusive | lib/validates_by_schema/validation_option.rb:78-80 | no column gets both numericality and length |
| Deriver.InclusionRule | lib/validates_by_schema/validation_option.rb:86-92 | inclusion is present iff the column is boolean, in `[true, false]` with `allow_nil` equal to the column's `null`; a boolean column never gets presence |
| Deriver.UniqueIndexesOne | lib/validates_by_schema/validation_option.rb:56-72 | `unique_indexes.one?` iff exactly one index position is a unique index including the column, composite indexes counted |
| Deriver.UniquenessRule | lib/validates_by_schema/validation_option.rb:56-64 | uniqueness is present iff exactly one unique index includes the column (zero, or two or more, give none), with `allow_nil` equal to the column's `null` |
| Deriver.KindRulesExclusive | lib/validates_by_schema/validation_option.rb:36-88 | no two of numericality, length and inclusion apply to the same column |
| Deriver.ApplicableAtMostThree | lib/validates_by_schema/validation_option.rb:108-112 | a rank-ordered hash of keys that all apply to one column has at most three entries |
| Deriver.AtMostThreeRules | lib/validates_by_schema/validation_option.rb:108-112 | `to_hash` never has more than three entries |
| Deriver.DefinedForeignKey | lib/validates_by_schema/validation_option.rb:11-15 | for a foreign-key column, `define!` registers presence on the first matching association's name iff associations are not required by default and the column is NOT NULL, and registers nothing else |
| Deriver.DefinedColumn | lib/validates_by_schema/validation_option.rb:16-19 | for any other column, `define!` registers `to_hash` under the column's name, and nothing iff no validator applies |
| Deriver.DefinedAtMostOne | lib/validates_by_schema/validation_option.rb:11-20 | `define!` registers at most one validation, never with an empty option hash |
| Deriver.DoorsExample | spec/validations_spec.rb:63-68 | when `doors` is not declared an enum: the nullable two-byte `doors` gets no presence, and gets numericality in `to_hash` with `only_integer` first; 32767 and -32767 pass, 32768 and -32768 are rejected |
| Deriver.PriceExample | spec/validations_spec.rb:72-77 | when `price` is not declared an enum: the nullable decimal(6,2) `price` gets no presence, and gets numericality in `to_hash`; ±9999.99 pass, ±10000 are rejected |
| Deriver.CostExample | spec/validations_spec.rb:79-84 | when `cost` is not declared an enum: the NOT NULL decimal(4,2) `cost` gets presence and numericality in `to_hash`; ±99.99 pass, ±100 are rejected |
| Deriver.StringExamples | spec/validations_spec.rb:32-34 | `name` gets length at most 50 and no presence; the NOT NULL `model` gets presence |
| Deriver.EnumAndArrayExamples | spec/validations_spec.rb:122-133 | the enum `kind` gets presence but no numericality; the array `list` gets no length |
| Deriver.UniqueIndexExamples | lib/validates_by_schema/validation_option.rb:66-72 | a composite unique index on (a, b) gives `a` uniqueness; a second unique index on `a` takes it away |
| Validations.Model.Validates | lib/validates_by_schema/validation_option.rb:18 | `klass.validates` appends one registration and keeps the earlier ones |
| Validations.ValidationOption.constructor | lib/validates_by_schema/validation_option.rb:6-9 | the object keeps its class and column and starts with no memoised association |
| Validations.ValidationOption.Association | lib/validates_by_schema/validation_option.rb:102-106 | returns the first association with the column as foreign key, memoises it, and keeps the memo consistent with a fresh lookup |
| Validations.ValidationOption.Numericality | lib/validates_by_schema/validation_option.rb:40-54 | the hash assigned key by key equals `NumericalityOption`, whose entries `Deriver.NumericalityLookup` states and whose admitted values the Admits lemmas state |
| Validations.ValidationOption.Define | lib/validates_by_schema/validation_option.rb:11-20 | appends exactly `Defined(...)` to the class's registry: the outcomes stated by `DefinedForeignKey`, `DefinedColumn` and `DefinedAtMostOne`; the memo ends equal to a fresh association lookup |

## Left out

- Floating point in `decimal_max`: the source computes `10.0**(p - s) - 10.0**(-s)` in binary floating point; the model computes it exactly as a real. It therefore captures neither rounding at the boundary nor overflow and underflow: when p - s exceeds about 308, `10.0**` gives Infinity and the bounds stop constraining anything, and a very large scale makes `10.0**(-s)` underflow to 0.0. The model deliberately keeps the exact bound there.
- How the validators check values and report errors belongs to ActiveModel. `Admits` only states the meaning of the numericality keys (`only_integer`, `less_than`, …) for a present value; nil is left to `allow_nil`.
- `connection.indexes`, `reflect_on_all_associations(:belongs_to)`, `defined_enums` and `respond_to?(:defined_enums)` are calls into ActiveRecord. Their results are inputs in `Schema.Context`, and a foreign key is compared by its string form.
- The exactly-once, thread-safe registration of a class's validations and the re-definition after `reset_column_information` are not part of this model; the code that implements them is outside `validation_option.rb`.
- The `except`/`only` column filtering is not part of this model, for the same reason.
- `to_s` (`to_hash.inspect`) is formatting only.
- The `attr_accessor` writers for `klass` and `column` are left out: the model fixes both at construction.
- A negative `limit` is not modelled: `limit` is a natural number.
- Validations.ValidationOption.Association: `Enumerable#find` is taken as the function `FindAssociation` rather than a loop, since the iteration lives in Ruby's library.
- Deriver.UniqueIndexes: the contracts (with `UniqueIndexesCount`) state which indexes the result holds and how many times each, but not that they keep the table's order; only the count matters to `unique_indexes.one?`.
