/**
 * `SearchIndexFieldDefinition`: a search index field with a name, an index type,
 * integer bit flags, subfields and an optional merge strategy.
 */
module SearchFields {
  import opened Wrappers

  /** `SearchIndexField::INDEX_TYPE_NESTED`, the one type the default merge refuses. */
  const INDEX_TYPE_NESTED: string := "nested"

  /**
   * The argument of `merge`: a `SearchIndexFieldDefinition` (of any subclass), or
   * some other implementation of the `SearchIndexField` interface, known only by identity.
   */
  datatype SearchIndexField = Definition(def: FieldDefinition) | OtherField(id: nat) {
    /** The objects whose fields `merge` may read. */
    function Objects(): set<object> {
      if Definition? then {def} else {}
    }
  }

  /** What `merge` returns: a field, or `false` when the two cannot be merged. */
  datatype MergeResult = Merged(field: SearchIndexField) | NotMergeable

  /** A PHP callable set as merge strategy, known only by identity. */
  datatype Callable = Callable(id: nat)

  /**
   * What calling a callable does: the callable, the field itself and the other
   * field give the merge result. The strategies are code outside this model, so
   * `Merge` receives their behaviour as a parameter.
   */
  type Invoke = (Callable, FieldDefinition, SearchIndexField) -> MergeResult

  /**
   * The flags after `setFlag(flag, unset)`. PHP integers are 64-bit two's
   * complement, so `|`, `&` and `~` are the bit-vector operations.
   */
  function FlagsAfterSet(flags: bv64, flag: bv64, unset: bool): bv64
  {
    if unset then flags & !flag else flags | flag
  }

  /** Afterwards the bits of `flag` are all set, or all clear with `unset`. */
  lemma FlagBitsAfterSet(flags: bv64, flag: bv64, unset: bool)
    ensures FlagsAfterSet(flags, flag, unset) & flag == if unset then 0 else flag
  {
  }

  /** Every bit outside `flag` keeps its value. */
  lemma OtherBitsAfterSet(flags: bv64, flag: bv64, unset: bool)
    ensures FlagsAfterSet(flags, flag, unset) & !flag == flags & !flag
  {
  }

  /** Setting or clearing the same flag twice is the same as doing it once. */
  lemma SetFlagIdempotent(flags: bv64, flag: bv64, unset: bool)
    ensures FlagsAfterSet(FlagsAfterSet(flags, flag, unset), flag, unset) == FlagsAfterSet(flags, flag, unset)
  {
  }

  class FieldDefinition {
    const name: string
    const indexType: string
    var flags: bv64
    var subfields: seq<FieldDefinition>
    var mergeCallback: Option<Callable>

    /** A new field has the given name and type, no flags, no subfields and no merge callback. */
    constructor (name: string, indexType: string)
      ensures this.name == name && this.indexType == indexType
      ensures flags == 0 && subfields == [] && mergeCallback == None
    {
      this.name := name;
      this.indexType := indexType;
      flags := 0;
      subfields := [];
      mergeCallback := None;
    }

    /** `getName`. */
    function GetName(): (r: string)
      ensures r == name
    {
      name
    }

    /** `getIndexType`. */
    function GetIndexType(): (r: string)
      ensures r == indexType
    {
      indexType
    }

    /**
     * `setFlag(flag, unset)`: sets the bits of `flag`, or clears them when `unset`;
     * returns the field itself for chaining.
     */
    method SetFlag(flag: bv64, unset: bool := false) returns (self: FieldDefinition)
      modifies this`flags
      ensures self == this
      ensures flags == FlagsAfterSet(old(flags), flag, unset)
      ensures CheckFlag(flag) == if unset then 0 else flag
    {
      FlagBitsAfterSet(flags, flag, unset);
      if unset {
        flags := flags & !flag;
      } else {
        flags := flags | flag;
      }
      self := this;
    }

    /**
     * `checkFlag(flag)`: the bits of `flag` that are set, so zero exactly when none
     * of them is set; never more bits than `flag` has.
     */
    function CheckFlag(flag: bv64): (r: bv64)
      reads this
      ensures r & !flag == 0
    {
      flags & flag
    }

    /** The default compatibility rule: another definition of the same type and flags, and not nested. */
    predicate DefaultMergeable(that: SearchIndexField)
      reads this, that.Objects()
    {
      that.Definition? && indexType == that.def.indexType && flags == that.def.flags
      && indexType != INDEX_TYPE_NESTED
    }

    /**
     * `merge(that)`: the merge callback's answer when one is set; otherwise `that`
     * itself when the default rule allows it, and `false` when not.
     */
    function Merge(that: SearchIndexField, invoke: Invoke): (r: MergeResult)
      reads this, that.Objects()
      ensures mergeCallback.Some? ==> r == invoke(mergeCallback.value, this, that)
      ensures mergeCallback.None? ==> (r == Merged(that) <==> DefaultMergeable(that))
      ensures mergeCallback.None? ==> (r == NotMergeable <==> !DefaultMergeable(that))
    {
      match mergeCallback
      case Some(callback) => invoke(callback, this, that)
      case None =>
        if DefaultMergeable(that) then Merged(that) else NotMergeable
    }

    /** `getSubfields`. */
    function GetSubfields(): (r: seq<FieldDefinition>)
      reads this
      ensures r == subfields
    {
      subfields
    }

    /** `setSubfields(s)`: replaces the subfields and changes nothing else; returns the field itself. */
    method SetSubfields(s: seq<FieldDefinition>) returns (self: FieldDefinition)
      modifies this`subfields
      ensures self == this
      ensures GetSubfields() == s
    {
      subfields := s;
      self := this;
    }

    /** `setMergeCallback(callback)`: from now on `merge` defers to `callback`. */
    method SetMergeCallback(callback: Callable)
      modifies this`mergeCallback
      ensures mergeCallback == Some(callback)
      ensures forall that: SearchIndexField, invoke: Invoke :: Merge(that, invoke) == invoke(callback, this, that)
    {
      mergeCallback := Some(callback);
    }
  }

  /**
   * Without callbacks the default rule is symmetric: two definitions merge one way
   * exactly when they merge the other way, and a definition merges with itself
   * unless it is nested.
   */
  lemma DefaultMergeSymmetric(a: FieldDefinition, b: FieldDefinition)
    requires a.mergeCallback.None? && b.mergeCallback.None?
    ensures forall invoke: Invoke :: a.Merge(Definition(b), invoke).Merged? <==> b.Merge(Definition(a), invoke).Merged?
    ensures forall invoke: Invoke :: a.Merge(Definition(a), invoke) == Merged(Definition(a)) <==> a.indexType != INDEX_TYPE_NESTED
  {
  }

  /** Only definitions can be merged by default: any other field implementation is refused. */
  lemma DefaultMergeRefusesOtherFields(a: FieldDefinition, id: nat, invoke: Invoke)
    requires a.mergeCallback.None?
    ensures a.Merge(OtherField(id), invoke) == NotMergeable
  {
  }
}
