/** The module-level state of the program, `animals` and `fees`, as an
    object whose two list fields `addAnimal` extends in place. */
module Shelter {
  import opened Wrappers
  import opened JsValues
  import opened Strings
  import opened Records

  class AdoptionRecords {
    var animals: seq<string>
    var fees: seq<Number>

    /** The two lists as a value, the form the store's specification uses. */
    function Snapshot(): Store
      reads this
    {
      Store(animals, fees)
    }

    ghost predicate Valid()
      reads this
    {
      Snapshot().Valid()
    }

    /** Both lists start empty. */
    constructor ()
      ensures Valid()
      ensures animals == [] && fees == []
    {
      animals := [];
      fees := [];
    }

    /** `addAnimal`: validate the name, then the fee, and only then push the
        trimmed name and the fee. A rejected call leaves both lists as they
        were; an accepted one appends one entry to each and keeps the store
        invariant. */
    method AddAnimal(name: NameArg, fee: Number) returns (o: Outcome<AddError>)
      modifies this
      ensures o == Validate(name, fee)
      ensures o.Pass? ==> animals == old(animals) + [Trim(name.s)] && fees == old(fees) + [fee]
      ensures o.Fail? ==> animals == old(animals) && fees == old(fees)
      ensures old(Valid()) ==> Valid()
    {
      if name.NonString? || name.s == "" || Trim(name.s) == "" {
        return Fail(BlankName);
      }
      if IsNaN(fee) || LessThanZero(fee) {
        return Fail(InvalidFee);
      }
      ghost var before := Snapshot();
      animals := animals + [Trim(name.s)];
      fees := fees + [fee];
      if before.Valid() {
        assert Insert(before, name, fee) == Success(Snapshot());
      }
      return Pass;
    }

    /** `getAdoptionFee`: the index of the trimmed query in `animals`, then
        the fee at that index, or the not-found error. It changes nothing,
        and agrees with the lookup of the store's specification. */
    method GetAdoptionFee(query: string) returns (r: Result<Number, LookupError>)
      requires |animals| == |fees|
      ensures r == Lookup(Snapshot(), query)
    {
      var index := IndexOf(animals, Trim(query));
      if index == -1 {
        return Failure(NotFound);
      }
      return Success(fees[index]);
    }
  }
}
