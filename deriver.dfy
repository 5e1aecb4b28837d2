/**
  The per-column rule deriver of `ValidatesBySchema::ValidationOption`: from
  one column and its class's context, the option hash that `define!` hands to
  `validates`, and what `define!` registers.
 */
module Deriver {
  import opened Wrappers
  import opened OrderedHash
  import opened Schema
  import opened Bounds

  /** The validator names, in the order `to_hash` visits them. */
  datatype Key = Presence | Numericality | Length | Inclusion | Uniqueness

  const KeyOrder: seq<Key> := [Presence, Numericality, Length, Inclusion, Uniqueness]

  /** The position of a key in `KeyOrder`. */
  function Rank(k: Key): nat
  {
    match k
    case Presence => 0
    case Numericality => 1
    case Length => 2
    case Inclusion => 3
    case Uniqueness => 4
  }

  /** The keys of a numericality option hash. */
  datatype NumKey =
    | OnlyInteger | LessThan | GreaterThan
    | LessThanOrEqualTo | GreaterThanOrEqualTo | AllowNil

  /** A value in a numericality hash: a flag, an Integer bound or a decimal bound. */
  datatype Bound = Flag(flag: bool) | Whole(whole: int) | Exact(exact: real)

  type NumericalityHash = Hash<NumKey, Bound>

  /** The value stored under each key of the option hash. */
  datatype Rule =
    | PresenceOpt(required: bool)
    | NumericalityOpt(numeric: NumericalityHash)
    | LengthOpt(maximum: Option<nat>, allowNil: bool)
    | InclusionOpt(within: seq<bool>, allowNil: bool)
    | UniquenessOpt(allowNil: bool)

  type Options = Hash<Key, Rule>

  /** One call `klass.validates attribute, options`. */
  datatype Registration = Registration(attribute: string, options: Options)

  // ---------------------------------------------------------------------
  // The per-key predicates (`presence?`, ...) and option values (`presence`, ...)
  // ---------------------------------------------------------------------

  /** `presence`: the column is NOT NULL. */
  predicate RequiresPresence(c: Column)
  {
    !c.nullable
  }

  /** `presence?` */
  predicate PresenceApplies(c: Column)
  {
    RequiresPresence(c) && c.kind != Boolean
  }

  /** `enum?`: the class responds to `defined_enums` and declares one for this column. */
  predicate IsEnum(ctx: Context, c: Column)
  {
    ctx.enums.Some? && c.name in ctx.enums.value
  }

  /** `numericality?` */
  predicate NumericalityApplies(ctx: Context, c: Column)
  {
    (c.kind == Integer || c.kind == Decimal || c.kind == Float) && !IsEnum(ctx, c)
  }

  /**
    The bounds `numericality` holds before `allow_nil`: the hash its
    assignments leave. `Validations.ValidationOption.Numericality` assigns
    them key by key and is proved to build exactly this.
   */
  function NumericalityBounds(c: Column): NumericalityHash
  {
    if c.kind == Integer then
      if c.limit.Some? then
        [(OnlyInteger, Flag(true)),
         (LessThan, Whole(IntegerMax(c.limit.value))),
         (GreaterThan, Whole(-IntegerMax(c.limit.value)))]
      else [(OnlyInteger, Flag(true))]
    else if c.kind == Decimal && c.precision.Some? && c.scale.Some? then
      [(LessThanOrEqualTo, Exact(DecimalMax(c.precision.value, c.scale.value))),
       (GreaterThanOrEqualTo, Exact(-DecimalMax(c.precision.value, c.scale.value)))]
    else []
  }

  /** `numericality`: the bounds, then `allow_nil: true`. */
  function NumericalityOption(c: Column): NumericalityHash
  {
    NumericalityBounds(c) + [(AllowNil, Flag(true))]
  }

  /** An index that `unique_indexes` keeps: unique, and its column list includes `name`. */
  predicate Covers(ix: Index, name: string)
  {
    ix.unique && name in ix.columns
  }

  /** `unique_indexes`: the table's indexes, keeping those that cover the column, in order. */
  function UniqueIndexes(indexes: seq<Index>, name: string): (r: seq<Index>)
    ensures |r| <= |indexes|
    ensures forall x :: x in r ==> x in indexes && Covers(x, name)
    ensures forall i :: 0 <= i < |indexes| && Covers(indexes[i], name) ==> indexes[i] in r
  {
    if indexes == [] then []
    else (if Covers(indexes[0], name) then [indexes[0]] else []) + UniqueIndexes(indexes[1..], name)
  }

  /** `unique_indexes` keeps every covering index as often as the table lists it, and no other index. */
  lemma {:induction false} UniqueIndexesCount(indexes: seq<Index>, name: string)
    ensures forall x ::
      multiset(UniqueIndexes(indexes, name))[x] == (if Covers(x, name) then multiset(indexes)[x] else 0)
  {
    if indexes != [] {
      UniqueIndexesCount(indexes[1..], name);
      assert indexes == [indexes[0]] + indexes[1..];
    }
  }

  /** `uniqueness?`: `unique_indexes.one?` */
  predicate UniquenessApplies(ctx: Context, c: Column)
  {
    |UniqueIndexes(ctx.indexes, c.name)| == 1
  }

  /** `length?` (`array?` is `c.isArray`) */
  predicate LengthApplies(c: Column)
  {
    (c.kind == String || c.kind == Text) && c.limit.Some? && !c.isArray
  }

  /** `inclusion?` */
  predicate InclusionApplies(c: Column)
  {
    c.kind == Boolean
  }

  /** `send(:"#{k}?")` */
  predicate Applies(ctx: Context, c: Column, k: Key)
  {
    match k
    case Presence => PresenceApplies(c)
    case Numericality => NumericalityApplies(ctx, c)
    case Length => LengthApplies(c)
    case Inclusion => InclusionApplies(c)
    case Uniqueness => UniquenessApplies(ctx, c)
  }

  /** `send(k)`: `presence`, `numericality`, `length`, `inclusion`, `uniqueness`. */
  function OptionFor(c: Column, k: Key): Rule
  {
    match k
    case Presence => PresenceOpt(RequiresPresence(c))
    case Numericality => NumericalityOpt(NumericalityOption(c))
    case Length => LengthOpt(c.limit, true)
    case Inclusion => InclusionOpt([true, false], c.nullable)
    case Uniqueness => UniquenessOpt(c.nullable)
  }

  /** `send(:"#{k}?") ? send(k) : nil`: the option for `k` when its predicate holds. */
  function Dispatch(ctx: Context, c: Column, k: Key): Option<Rule>
  {
    if Applies(ctx, c, k) then Some(OptionFor(c, k)) else None
  }

  /** The `inject` of `to_hash`: visit `keys` in order, merging each key that `send` answers. */
  function Inject(send: Key -> Option<Rule>, keys: seq<Key>, h: Options): Options
    decreases |keys|
  {
    if keys == [] then h
    else
      var h' := match send(keys[0]) case Some(v) => Store(h, keys[0], v) case None => h;
      Inject(send, keys[1..], h')
  }

  /** `to_hash` */
  function ToHash(ctx: Context, c: Column): Options
  {
    Inject(k => Dispatch(ctx, c, k), KeyOrder, [])
  }

  /** The belongs-to association whose foreign key is the column, if any (`association`). */
  function FindAssociation(assocs: seq<BelongsTo>, name: string): (r: Option<BelongsTo>)
    ensures r.None? <==> forall i :: 0 <= i < |assocs| ==> assocs[i].foreignKey != name
    ensures r.Some? ==>
      exists i :: 0 <= i < |assocs| && assocs[i] == r.value && r.value.foreignKey == name &&
        forall j :: 0 <= j < i ==> assocs[j].foreignKey != name
  {
    if assocs == [] then None
    else if assocs[0].foreignKey == name then Some(assocs[0])
    else
      var r := FindAssociation(assocs[1..], name);
      assert r.Some? ==>
        exists i :: 1 <= i < |assocs| && assocs[i] == r.value && r.value.foreignKey == name &&
          forall j :: 0 <= j < i ==> assocs[j].foreignKey != name
      by {
        if r.Some? {
          var i :| 0 <= i < |assocs| - 1 && assocs[1..][i] == r.value && r.value.foreignKey == name &&
            (forall j :: 0 <= j < i ==> assocs[1..][j].foreignKey != name);
          assert forall j :: 1 <= j < i + 1 ==> assocs[j] == assocs[1..][j - 1];
        }
      }
      assert forall i :: 1 <= i < |assocs| ==> assocs[i] == assocs[1..][i - 1];
      r
  }

  /** The rules `define!` registers for one column, given `belongs_to_required_by_default`. */
  function Defined(requiredByDefault: bool, ctx: Context, c: Column): seq<Registration>
  {
    match FindAssociation(ctx.belongsTo, c.name)
    case Some(a) =>
      if !requiredByDefault && !c.nullable then [Registration(a.name, [(Presence, PresenceOpt(true))])]
      else []
    case None =>
      var options := ToHash(ctx, c);
      if options != [] then [Registration(c.name, options)] else []
  }

  // ---------------------------------------------------------------------
  // The meaning of the numericality keys, as the validator reads them
  // ---------------------------------------------------------------------

  function Magnitude(b: Bound): real
  {
    match b
    case Flag(_) => 0.0
    case Whole(i) => i as real
    case Exact(r) => r
  }

  /** Whether a present value `v` passes the check that one numericality option asks for. */
  predicate Satisfies(k: NumKey, b: Bound, v: real)
  {
    match k
    case OnlyInteger => b == Flag(true) ==> v.Floor as real == v
    case LessThan => v < Magnitude(b)
    case GreaterThan => v > Magnitude(b)
    case LessThanOrEqualTo => v <= Magnitude(b)
    case GreaterThanOrEqualTo => v >= Magnitude(b)
    case AllowNil => true
  }

  /** Whether a present value passes every option of a numericality hash. */
  predicate Admits(h: NumericalityHash, v: real)
  {
    forall i :: 0 <= i < |h| ==> Satisfies(h[i].0, h[i].1, v)
  }

  // ---------------------------------------------------------------------
  // to_hash: shape of the result
  // ---------------------------------------------------------------------

  /** Keys strictly in `KeyOrder` order, each one carrying what `send` answers for it. */
  ghost predicate Canonical(send: Key -> Option<Rule>, h: Options)
  {
    && (forall i, j :: 0 <= i < j < |h| ==> Rank(h[i].0) < Rank(h[j].0))
    && (forall i :: 0 <= i < |h| ==> send(h[i].0) == Some(h[i].1))
  }

  /** Storing a key ranked after every key of `h` appends it. */
  lemma StoreAfter(h: Options, k: Key, v: Rule)
    requires forall i :: 0 <= i < |h| ==> Rank(h[i].0) < Rank(k)
    ensures Store(h, k, v) == h + [(k, v)]
  {
    StoreNew(h, k, v);
  }

  /** `Rank` numbers the positions of `KeyOrder`. */
  lemma RankOrder(n: nat)
    requires n < |KeyOrder|
    ensures Rank(KeyOrder[n]) == n
    ensures forall k :: Rank(k) == n ==> k == KeyOrder[n]
  {
  }

  /** Appending a key ranked after every present key, with the option `send` gives it, keeps a hash canonical. */
  lemma CanonicalAppend(send: Key -> Option<Rule>, h: Options, k: Key, v: Rule)
    requires Canonical(send, h)
    requires forall i :: 0 <= i < |h| ==> Rank(h[i].0) < Rank(k)
    requires send(k) == Some(v)
    ensures Canonical(send, h + [(k, v)])
  {
  }

  /** The fold over the keys of `KeyOrder` from position `n` on keeps a hash canonical, for any dispatch `send`. */
  lemma {:induction false} InjectCanonical(send: Key -> Option<Rule>, n: nat, h: Options)
    requires n <= |KeyOrder|
    requires Canonical(send, h)
    requires forall i :: 0 <= i < |h| ==> Rank(h[i].0) < n
    ensures Canonical(send, Inject(send, KeyOrder[n..], h))
    decreases |KeyOrder| - n
  {
    var keys := KeyOrder[n..];
    if n < |KeyOrder| {
      var k := KeyOrder[n];
      RankOrder(n);
      assert keys[0] == k && keys[1..] == KeyOrder[n + 1..];
      var h' := match send(k) case Some(v) => Store(h, k, v) case None => h;
      if send(k).Some? {
        StoreAfter(h, k, send(k).value);
        CanonicalAppend(send, h, k, send(k).value);
      }
      InjectCanonical(send, n + 1, h');
    }
  }

  /** The same fold adds exactly the keys from position `n` on that `send` answers. */
  lemma {:induction false} InjectKeys(send: Key -> Option<Rule>, n: nat, h: Options)
    requires n <= |KeyOrder|
    requires forall i :: 0 <= i < |h| ==> Rank(h[i].0) < n
    ensures forall k :: k in Keys(Inject(send, KeyOrder[n..], h)) <==> k in Keys(h) || (Rank(k) >= n && send(k).Some?)
    decreases |KeyOrder| - n
  {
    var keys := KeyOrder[n..];
    if n < |KeyOrder| {
      var k := KeyOrder[n];
      RankOrder(n);
      assert keys[0] == k && keys[1..] == KeyOrder[n + 1..];
      var h' := match send(k) case Some(v) => Store(h, k, v) case None => h;
      if send(k).Some? {
        StoreAfter(h, k, send(k).value);
        assert Keys(h') == Keys(h) + [k];
      }
      assert forall i :: 0 <= i < |h'| ==> Rank(h'[i].0) < n + 1;
      InjectKeys(send, n + 1, h');
    } else {
      forall x ensures Rank(x) < n {
      }
    }
  }

  /**
    `to_hash` holds exactly the keys whose predicate holds, each with its
    option, in the order presence, numericality, length, inclusion, uniqueness.
   */
  lemma ToHashCanonical(ctx: Context, c: Column)
    ensures forall i, j :: 0 <= i < j < |ToHash(ctx, c)| ==> Rank(ToHash(ctx, c)[i].0) < Rank(ToHash(ctx, c)[j].0)
    ensures forall i :: 0 <= i < |ToHash(ctx, c)| ==>
      Applies(ctx, c, ToHash(ctx, c)[i].0) && ToHash(ctx, c)[i].1 == OptionFor(c, ToHash(ctx, c)[i].0)
    ensures forall k :: k in Keys(ToHash(ctx, c)) <==> Applies(ctx, c, k)
  {
    var send := k => Dispatch(ctx, c, k);
    InjectCanonical(send, 0, []);
    InjectKeys(send, 0, []);
    assert KeyOrder[0..] == KeyOrder;
    var h := ToHash(ctx, c);
    forall i | 0 <= i < |h| ensures Applies(ctx, c, h[i].0) && h[i].1 == OptionFor(c, h[i].0) {
      assert send(h[i].0) == Some(h[i].1);
    }
  }

  /** Looking up any key in `to_hash`: present iff its predicate holds, with its option. */
  lemma ToHashGet(ctx: Context, c: Column, k: Key)
    ensures Get(ToHash(ctx, c), k) == if Applies(ctx, c, k) then Some(OptionFor(c, k)) else None
  {
    ToHashCanonical(ctx, c);
    var h := ToHash(ctx, c);
    if Get(h, k).Some? {
      var i :| 0 <= i < |h| && h[i] == (k, Get(h, k).value);
    }
  }

  // ---------------------------------------------------------------------
  // to_hash: one lemma per validator
  // ---------------------------------------------------------------------

  /** Presence: exactly for NOT NULL columns that are not boolean, as `presence: true`. */
  lemma PresenceRule(ctx: Context, c: Column)
    ensures Get(ToHash(ctx, c), Presence) ==
      if !c.nullable && c.kind != Boolean then Some(PresenceOpt(true)) else None
  {
    ToHashGet(ctx, c, Presence);
    assert Applies(ctx, c, Presence) == PresenceApplies(c);
    assert OptionFor(c, Presence) == PresenceOpt(RequiresPresence(c));
  }

  /** Numericality: exactly for integer, decimal and float columns that are not enums. */
  lemma NumericalityRule(ctx: Context, c: Column)
    ensures Get(ToHash(ctx, c), Numericality) ==
      if (c.kind == Integer || c.kind == Decimal || c.kind == Float) && !(ctx.enums.Some? && c.name in ctx.enums.value)
      then Some(NumericalityOpt(NumericalityOption(c)))
      else None
  {
    ToHashGet(ctx, c, Numericality);
    assert Applies(ctx, c, Numericality) == NumericalityApplies(ctx, c);
    assert OptionFor(c, Numericality) == NumericalityOpt(NumericalityOption(c));
  }

  /** Helper: the numericality hash of each case spelled out as one list. */
  lemma NumericalityContents(c: Column)
    ensures c.kind == Integer && c.limit.Some? ==>
      NumericalityOption(c) == [(OnlyInteger, Flag(true)),
                                (LessThan, Whole(IntegerMax(c.limit.value))),
                                (GreaterThan, Whole(-IntegerMax(c.limit.value))),
                                (AllowNil, Flag(true))]
    ensures c.kind == Integer && c.limit.None? ==>
      NumericalityOption(c) == [(OnlyInteger, Flag(true)), (AllowNil, Flag(true))]
    ensures c.kind == Decimal && c.precision.Some? && c.scale.Some? ==>
      NumericalityOption(c) == [(LessThanOrEqualTo, Exact(DecimalMax(c.precision.value, c.scale.value))),
                                (GreaterThanOrEqualTo, Exact(-DecimalMax(c.precision.value, c.scale.value))),
                                (AllowNil, Flag(true))]
    ensures c.kind != Integer && !(c.kind == Decimal && c.precision.Some? && c.scale.Some?) ==>
      NumericalityOption(c) == [(AllowNil, Flag(true))]
  {
  }

  /**
    Reading the numericality hash one key at a time, as the validator does:
    its keys are distinct, `allow_nil: true` is always the last entry, and
    each key is present exactly in the case whose assignment sets it.
   */
  lemma NumericalityLookup(c: Column, k: NumKey)
    ensures DistinctKeys(NumericalityOption(c))
    ensures NumericalityOption(c)[|NumericalityOption(c)| - 1] == (AllowNil, Flag(true))
    ensures Get(NumericalityOption(c), k) ==
      match k
      case OnlyInteger =>
        if c.kind == Integer then Some(Flag(true)) else None
      case LessThan =>
        if c.kind == Integer && c.limit.Some? then Some(Whole(IntegerMax(c.limit.value))) else None
      case GreaterThan =>
        if c.kind == Integer && c.limit.Some? then Some(Whole(-IntegerMax(c.limit.value))) else None
      case LessThanOrEqualTo =>
        if c.kind == Decimal && c.precision.Some? && c.scale.Some?
        then Some(Exact(DecimalMax(c.precision.value, c.scale.value))) else None
      case GreaterThanOrEqualTo =>
        if c.kind == Decimal && c.precision.Some? && c.scale.Some?
        then Some(Exact(-DecimalMax(c.precision.value, c.scale.value))) else None
      case AllowNil => Some(Flag(true))
  {
    NumericalityContents(c);
  }

  /**
    An integer column of L >= 1 bytes admits exactly the integers strictly
    between -2^(8L-1) and 2^(8L-1), and no fractional value.
   */
  lemma IntegerBoundsAdmit(c: Column, v: real)
    requires c.kind == Integer && c.limit.Some? && c.limit.value >= 1
    ensures Admits(NumericalityOption(c), v) <==>
      v.Floor as real == v && -(Pow2(8 * c.limit.value - 1) as real) < v < Pow2(8 * c.limit.value - 1) as real
  {
    NumericalityContents(c);
    IntegerAdmits(NumericalityOption(c), c.limit.value, v);
  }

  /** The integer bounds of `limit` bytes, then `allow_nil`, admit exactly the whole numbers strictly inside ±2^(8*limit - 1). */
  lemma IntegerAdmits(h: NumericalityHash, limit: nat, v: real)
    requires limit >= 1
    requires h == [(OnlyInteger, Flag(true)),
                   (LessThan, Whole(IntegerMax(limit))),
                   (GreaterThan, Whole(-IntegerMax(limit))),
                   (AllowNil, Flag(true))]
    ensures Admits(h, v) <==>
      v.Floor as real == v && -(Pow2(8 * limit - 1) as real) < v < Pow2(8 * limit - 1) as real
  {
    assert Admits(h, v) <==> Satisfies(h[0].0, h[0].1, v) && Satisfies(h[1].0, h[1].1, v) && Satisfies(h[2].0, h[2].1, v);
    IntegerMaxSignedRange(limit);
  }

  /**
    A decimal column of precision p >= 0 and scale s admits a value with s
    fractional digits, n * 10^-s, exactly when |n| < 10^p.
   */
  lemma DecimalBoundsAdmit(c: Column, n: int)
    requires c.kind == Decimal && c.precision.Some? && c.precision.value >= 0 && c.scale.Some?
    ensures Admits(NumericalityOption(c), Shift(n as real, -c.scale.value)) <==>
      -n < Pow10(c.precision.value) && n < Pow10(c.precision.value)
  {
    NumericalityContents(c);
    DecimalAdmits(NumericalityOption(c), c.precision.value, c.scale.value, n);
  }

  /** The decimal(p, s) bounds, then `allow_nil`, admit n * 10^-s exactly when |n| < 10^p. */
  lemma DecimalAdmits(h: NumericalityHash, precision: nat, scale: int, n: int)
    requires h == [(LessThanOrEqualTo, Exact(DecimalMax(precision, scale))),
                   (GreaterThanOrEqualTo, Exact(-DecimalMax(precision, scale))),
                   (AllowNil, Flag(true))]
    ensures Admits(h, Shift(n as real, -scale)) <==> -n < Pow10(precision) && n < Pow10(precision)
  {
    AdmitsInclusive(DecimalMax(precision, scale), Shift(n as real, -scale));
    DecimalMaxDigits(precision, scale, n);
  }

  /** The inclusive bounds of a decimal column, then `allow_nil`, admit exactly the values in [-m, m]. */
  lemma AdmitsInclusive(m: real, v: real)
    ensures Admits([(LessThanOrEqualTo, Exact(m)), (GreaterThanOrEqualTo, Exact(-m)), (AllowNil, Flag(true))], v) <==>
      -m <= v && v <= m
  {
    var h := [(LessThanOrEqualTo, Exact(m)), (GreaterThanOrEqualTo, Exact(-m)), (AllowNil, Flag(true))];
    assert Admits(h, v) <==> Satisfies(h[0].0, h[0].1, v) && Satisfies(h[1].0, h[1].1, v);
  }

  /** Float columns, and decimals lacking precision or scale, get no bound at all. */
  lemma UnboundedAdmitsAll(c: Column, v: real)
    requires c.kind == Float || (c.kind == Decimal && (c.precision.None? || c.scale.None?))
    ensures Admits(NumericalityOption(c), v)
  {
    NumericalityContents(c);
  }

  /** Length: string and text columns with a limit that are not arrays, `maximum: limit`. */
  lemma LengthRule(ctx: Context, c: Column)
    ensures Get(ToHash(ctx, c), Length) ==
      if (c.kind == String || c.kind == Text) && c.limit.Some? && !c.isArray
      then Some(LengthOpt(c.limit, true))
      else None
  {
    ToHashGet(ctx, c, Length);
    assert Applies(ctx, c, Length) == LengthApplies(c);
    assert OptionFor(c, Length) == LengthOpt(c.limit, true);
  }

  /** No column gets both a numericality and a length rule. */
  lemma NumericalityLengthExclusive(ctx: Context, c: Column)
    ensures !(Numericality in Keys(ToHash(ctx, c)) && Length in Keys(ToHash(ctx, c)))
  {
    ToHashCanonical(ctx, c);
  }

  /**
    Inclusion: exactly for boolean columns, in `[true, false]`, letting nil
    through when the column is nullable; a boolean column never gets presence.
   */
  lemma InclusionRule(ctx: Context, c: Column)
    ensures Get(ToHash(ctx, c), Inclusion) ==
      if c.kind == Boolean then Some(InclusionOpt([true, false], c.nullable)) else None
    ensures c.kind == Boolean ==> Get(ToHash(ctx, c), Presence) == None
  {
    ToHashGet(ctx, c, Inclusion);
    assert Applies(ctx, c, Inclusion) == InclusionApplies(c);
    assert OptionFor(c, Inclusion) == InclusionOpt([true, false], c.nullable);
    ToHashGet(ctx, c, Presence);
    assert Applies(ctx, c, Presence) == PresenceApplies(c);
  }

  /** Exactly one index position of the table is a unique index covering `name`. */
  ghost predicate ExactlyOneCovering(indexes: seq<Index>, name: string)
  {
    exists i :: 0 <= i < |indexes| && Covers(indexes[i], name) &&
      forall j :: 0 <= j < |indexes| && Covers(indexes[j], name) ==> j == i
  }

  /** No index of the table is a unique index covering `name`. */
  ghost predicate NoneCovering(indexes: seq<Index>, name: string)
  {
    forall i :: 0 <= i < |indexes| ==> !Covers(indexes[i], name)
  }

  lemma UniqueIndexesNone(indexes: seq<Index>, name: string)
    ensures |UniqueIndexes(indexes, name)| == 0 <==> NoneCovering(indexes, name)
  {
    var r := UniqueIndexes(indexes, name);
    if |r| > 0 {
      assert r[0] in r;
    }
  }

  /** When the first index covers `name`, exactly one covers it iff no later one does. */
  lemma ExactlyOneFirst(indexes: seq<Index>, name: string)
    requires indexes != [] && Covers(indexes[0], name)
    ensures ExactlyOneCovering(indexes, name) <==> NoneCovering(indexes[1..], name)
  {
    var rest := indexes[1..];
    if NoneCovering(rest, name) {
      assert forall j :: 0 <= j < |indexes| && Covers(indexes[j], name) ==> j == 0;
    } else {
      var k :| 0 <= k < |rest| && Covers(rest[k], name);
      assert indexes[k + 1] == rest[k];
    }
  }

  /** When the first index does not cover `name`, exactly one covers it iff exactly one later one does. */
  lemma ExactlyOneLater(indexes: seq<Index>, name: string)
    requires indexes != [] && !Covers(indexes[0], name)
    ensures ExactlyOneCovering(indexes, name) <==> ExactlyOneCovering(indexes[1..], name)
  {
    if ExactlyOneCovering(indexes[1..], name) {
      ExactlyOneFromRest(indexes, name);
    }
    if ExactlyOneCovering(indexes, name) {
      ExactlyOneToRest(indexes, name);
    }
  }

  /** Helper: the one covering index of the tail is the one of the whole table. */
  lemma ExactlyOneFromRest(indexes: seq<Index>, name: string)
    requires indexes != [] && !Covers(indexes[0], name)
    requires ExactlyOneCovering(indexes[1..], name)
    ensures ExactlyOneCovering(indexes, name)
  {
    var rest := indexes[1..];
    var i :| 0 <= i < |rest| && Covers(rest[i], name) &&
      forall j :: 0 <= j < |rest| && Covers(rest[j], name) ==> j == i;
    assert indexes[i + 1] == rest[i];
    forall j | 0 <= j < |indexes| && Covers(indexes[j], name) ensures j == i + 1 {
      assert rest[j - 1] == indexes[j];
    }
    assert 0 <= i + 1 < |indexes| && Covers(indexes[i + 1], name);
  }

  /** Helper: the one covering index of the whole table lies in the tail. */
  lemma ExactlyOneToRest(indexes: seq<Index>, name: string)
    requires indexes != [] && !Covers(indexes[0], name)
    requires ExactlyOneCovering(indexes, name)
    ensures ExactlyOneCovering(indexes[1..], name)
  {
    var rest := indexes[1..];
    var i :| 0 <= i < |indexes| && Covers(indexes[i], name) &&
      forall j :: 0 <= j < |indexes| && Covers(indexes[j], name) ==> j == i;
    assert i != 0 && rest[i - 1] == indexes[i];
    forall j | 0 <= j < |rest| && Covers(rest[j], name) ensures j == i - 1 {
      assert indexes[j + 1] == rest[j];
    }
    assert 0 <= i - 1 < |rest| && Covers(rest[i - 1], name);
  }

  /** `unique_indexes.one?` holds exactly when one unique index, composite or not, covers the column. */
  lemma {:induction false} UniqueIndexesOne(indexes: seq<Index>, name: string)
    ensures |UniqueIndexes(indexes, name)| == 1 <==> ExactlyOneCovering(indexes, name)
  {
    if indexes != [] {
      var rest := indexes[1..];
      UniqueIndexesOne(rest, name);
      if Covers(indexes[0], name) {
        UniqueIndexesNone(rest, name);
        ExactlyOneFirst(indexes, name);
      } else {
        ExactlyOneLater(indexes, name);
      }
    }
  }

  /**
    Uniqueness: exactly when one unique index includes the column (none, or two
    or more, give no rule), with `allow_nil` equal to the column's nullability.
   */
  lemma UniquenessRule(ctx: Context, c: Column)
    ensures Get(ToHash(ctx, c), Uniqueness) ==
      if ExactlyOneCovering(ctx.indexes, c.name) then Some(UniquenessOpt(c.nullable)) else None
  {
    ToHashGet(ctx, c, Uniqueness);
    assert Applies(ctx, c, Uniqueness) == UniquenessApplies(ctx, c);
    assert OptionFor(c, Uniqueness) == UniquenessOpt(c.nullable);
    UniqueIndexesOne(ctx.indexes, c.name);
  }

  /** A column never gets more than three validators. */
  lemma AtMostThreeRules(ctx: Context, c: Column)
    ensures |ToHash(ctx, c)| <= 3
  {
    ToHashCanonical(ctx, c);
    ApplicableAtMostThree(ctx, c, ToHash(ctx, c));
  }

  /** Any hash whose keys are ordered by rank and all apply to the column has at most three entries. */
  lemma ApplicableAtMostThree(ctx: Context, c: Column, h: Options)
    requires forall i, j :: 0 <= i < j < |h| ==> Rank(h[i].0) < Rank(h[j].0)
    requires forall i :: 0 <= i < |h| ==> Applies(ctx, c, h[i].0)
    ensures |h| <= 3
  {
    if |h| > 3 {
      assert Rank(h[0].0) < Rank(h[1].0) < Rank(h[2].0) < Rank(h[3].0);
      KindRulesExclusive(ctx, c, h[1].0, h[2].0);
    }
  }

  /** Numericality, length and inclusion depend on disjoint column types: no two of them apply together. */
  lemma KindRulesExclusive(ctx: Context, c: Column, a: Key, b: Key)
    requires 1 <= Rank(a) < Rank(b) <= 3
    ensures !(Applies(ctx, c, a) && Applies(ctx, c, b))
  {
  }

  // ---------------------------------------------------------------------
  // define!
  // ---------------------------------------------------------------------

  /**
    A foreign-key column registers at most one rule: presence on the first
    matching association's name, only when associations are not required by
    default and the column is NOT NULL; no column-level rule is registered.
   */
  lemma DefinedForeignKey(requiredByDefault: bool, ctx: Context, c: Column, i: nat)
    requires i < |ctx.belongsTo| && ctx.belongsTo[i].foreignKey == c.name
    requires forall j :: 0 <= j < i ==> ctx.belongsTo[j].foreignKey != c.name
    ensures Defined(requiredByDefault, ctx, c) ==
      if !requiredByDefault && !c.nullable
      then [Registration(ctx.belongsTo[i].name, [(Presence, PresenceOpt(true))])]
      else []
  {
    var r := FindAssociation(ctx.belongsTo, c.name);
    var i' :| 0 <= i' < |ctx.belongsTo| && ctx.belongsTo[i'] == r.value && r.value.foreignKey == c.name &&
      forall j :: 0 <= j < i' ==> ctx.belongsTo[j].foreignKey != c.name;
    assert i' == i;
  }

  /**
    Any other column registers its option hash under its own name, and
    nothing at all when no validator applies.
   */
  lemma DefinedColumn(requiredByDefault: bool, ctx: Context, c: Column)
    requires forall j :: 0 <= j < |ctx.belongsTo| ==> ctx.belongsTo[j].foreignKey != c.name
    ensures Defined(requiredByDefault, ctx, c) == [] <==> forall k :: !Applies(ctx, c, k)
    ensures Defined(requiredByDefault, ctx, c) != [] ==>
      Defined(requiredByDefault, ctx, c) == [Registration(c.name, ToHash(ctx, c))]
  {
    ToHashCanonical(ctx, c);
    var h := ToHash(ctx, c);
    if h != [] {
      assert Applies(ctx, c, h[0].0);
    }
  }

  /** `define!` registers at most one rule, and never an empty option hash. */
  lemma DefinedAtMostOne(requiredByDefault: bool, ctx: Context, c: Column)
    ensures |Defined(requiredByDefault, ctx, c)| <= 1
    ensures forall r :: r in Defined(requiredByDefault, ctx, c) ==> r.options != []
  {
  }

  // ---------------------------------------------------------------------
  // Columns of the test suite's `contraptions` table
  // ---------------------------------------------------------------------

  const DoorsColumn := Column("doors", Integer, true, Some(2), None, None, false)
  const PriceColumn := Column("price", Decimal, true, None, Some(6), Some(2), false)
  const CostColumn := Column("cost", Decimal, false, None, Some(4), Some(2), false)
  const NameColumn := Column("name", String, true, Some(50), None, None, false)
  const ModelColumn := Column("model", String, false, None, None, None, false)
  const KindColumn := Column("kind", Integer, false, None, None, None, false)
  const ListColumn := Column("list", String, true, Some(255), None, None, true)

  /** `doors`, a nullable two-byte integer that is not an enum: no presence; numericality with `only_integer` first; 32767 and -32767 pass, 32768 and -32768 do not. */
  lemma DoorsExample(ctx: Context)
    requires !IsEnum(ctx, DoorsColumn)
    ensures Get(ToHash(ctx, DoorsColumn), Presence) == None
    ensures Get(ToHash(ctx, DoorsColumn), Numericality) == Some(NumericalityOpt(NumericalityOption(DoorsColumn)))
    ensures NumericalityOption(DoorsColumn)[0] == (OnlyInteger, Flag(true))
    ensures Admits(NumericalityOption(DoorsColumn), 32767.0) && Admits(NumericalityOption(DoorsColumn), -32767.0)
    ensures !Admits(NumericalityOption(DoorsColumn), 32768.0) && !Admits(NumericalityOption(DoorsColumn), -32768.0)
  {
    PresenceRule(ctx, DoorsColumn);
    NumericalityRule(ctx, DoorsColumn);
    NumericalityContents(DoorsColumn);
    assert Pow2(15) == 32768;
    assert Admits(NumericalityOption(DoorsColumn), 32767.0) by { IntegerBoundsAdmit(DoorsColumn, 32767.0); }
    assert Admits(NumericalityOption(DoorsColumn), -32767.0) by { IntegerBoundsAdmit(DoorsColumn, -32767.0); }
    assert !Admits(NumericalityOption(DoorsColumn), 32768.0) by { IntegerBoundsAdmit(DoorsColumn, 32768.0); }
    assert !Admits(NumericalityOption(DoorsColumn), -32768.0) by { IntegerBoundsAdmit(DoorsColumn, -32768.0); }
  }

  /** `price`, a nullable decimal(6, 2) that is not an enum: no presence; numericality registered; 9999.99 and -9999.99 pass, 10000 and -10000 do not. */
  lemma PriceExample(ctx: Context)
    requires !IsEnum(ctx, PriceColumn)
    ensures Get(ToHash(ctx, PriceColumn), Presence) == None
    ensures Get(ToHash(ctx, PriceColumn), Numericality) == Some(NumericalityOpt(NumericalityOption(PriceColumn)))
    ensures Admits(NumericalityOption(PriceColumn), 9999.99) && Admits(NumericalityOption(PriceColumn), -9999.99)
    ensures !Admits(NumericalityOption(PriceColumn), 10000.0) && !Admits(NumericalityOption(PriceColumn), -10000.0)
  {
    PresenceRule(ctx, PriceColumn);
    NumericalityRule(ctx, PriceColumn);
    assert Pow10(6) == 1000000;
    DecimalBoundsAdmit(PriceColumn, 999999);
    ShiftDown2(999999.0);
    DecimalBoundsAdmit(PriceColumn, -999999);
    ShiftDown2(-999999.0);
    DecimalBoundsAdmit(PriceColumn, 1000000);
    ShiftDown2(1000000.0);
    DecimalBoundsAdmit(PriceColumn, -1000000);
    ShiftDown2(-1000000.0);
  }

  /** `cost`, NOT NULL decimal(4, 2) that is not an enum: presence and numericality, and 99.99 and -99.99 pass, 100 and -100 do not. */
  lemma CostExample(ctx: Context)
    requires !IsEnum(ctx, CostColumn)
    ensures Get(ToHash(ctx, CostColumn), Presence) == Some(PresenceOpt(true))
    ensures Get(ToHash(ctx, CostColumn), Numericality) == Some(NumericalityOpt(NumericalityOption(CostColumn)))
    ensures Admits(NumericalityOption(CostColumn), 99.99) && Admits(NumericalityOption(CostColumn), -99.99)
    ensures !Admits(NumericalityOption(CostColumn), 100.0) && !Admits(NumericalityOption(CostColumn), -100.0)
  {
    PresenceRule(ctx, CostColumn);
    NumericalityRule(ctx, CostColumn);
    assert Pow10(4) == 10000;
    DecimalBoundsAdmit(CostColumn, 9999);
    ShiftDown2(9999.0);
    DecimalBoundsAdmit(CostColumn, -9999);
    ShiftDown2(-9999.0);
    DecimalBoundsAdmit(CostColumn, 10000);
    ShiftDown2(10000.0);
    DecimalBoundsAdmit(CostColumn, -10000);
    ShiftDown2(-10000.0);
  }

  /** `name` (nullable, limit 50) gets length at most 50 and no presence; NOT NULL `model` gets presence. */
  lemma StringExamples(ctx: Context)
    ensures Get(ToHash(ctx, NameColumn), Presence) == None
    ensures Get(ToHash(ctx, NameColumn), Length) == Some(LengthOpt(Some(50), true))
    ensures Get(ToHash(ctx, ModelColumn), Presence) == Some(PresenceOpt(true))
  {
    PresenceRule(ctx, NameColumn);
    LengthRule(ctx, NameColumn);
    PresenceRule(ctx, ModelColumn);
  }

  /** The enum `kind` keeps presence but, being an enum, gets no numericality; the array `list` gets no length. */
  lemma EnumAndArrayExamples(ctx: Context)
    requires ctx.enums == Some({"kind"})
    ensures Get(ToHash(ctx, KindColumn), Presence) == Some(PresenceOpt(true))
    ensures Get(ToHash(ctx, KindColumn), Numericality) == None
    ensures Get(ToHash(ctx, ListColumn), Length) == None
  {
    PresenceRule(ctx, KindColumn);
    NumericalityRule(ctx, KindColumn);
    LengthRule(ctx, ListColumn);
  }

  /** A composite unique index counts for each of its columns; two covering unique indexes give no rule. */
  lemma UniqueIndexExamples(ctx: Context, c: Column)
    requires c.name == "a"
    ensures ctx.indexes == [Index(true, ["a", "b"]), Index(false, ["a"])] ==>
      Get(ToHash(ctx, c), Uniqueness) == Some(UniquenessOpt(c.nullable))
    ensures ctx.indexes == [Index(true, ["a", "b"]), Index(true, ["a"])] ==>
      Get(ToHash(ctx, c), Uniqueness) == None
  {
    UniquenessRule(ctx, c);
    if ctx.indexes == [Index(true, ["a", "b"]), Index(false, ["a"])] {
      assert Covers(ctx.indexes[0], "a");
      assert forall j :: 0 <= j < |ctx.indexes| && Covers(ctx.indexes[j], "a") ==> j == 0;
    }
    if ctx.indexes == [Index(true, ["a", "b"]), Index(true, ["a"])] {
      assert Covers(ctx.indexes[0], "a") && Covers(ctx.indexes[1], "a");
    }
  }
}
