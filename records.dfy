/** The adoption-fee store as values: the two parallel lists `animals` and
    `fees`, the validation `addAnimal` performs, and the lookup
    `getAdoptionFee` performs. The class in module Shelter is proved
    against these definitions. */
module Records {
  import opened Wrappers
  import opened JsValues
  import opened Strings

  /** The `name` argument of `addAnimal`: a JavaScript string, or any other
      value (undefined, null, a number, an object). */
  datatype NameArg = NonString | Str(s: string)

  datatype AddError = BlankName | InvalidFee

  datatype LookupError = NotFound

  /** Every name in the store is non-empty and already trimmed. */
  predicate StoredName(n: string) {
    n != [] && Trim(n) == n
  }

  /** The fees `addAnimal` lets through: non-negative, positive infinity
      included (the code tests only `isNaN` and `< 0`). */
  predicate AcceptedFee(fee: Number) {
    match fee
    case NaN => false
    case Finite(v) => v >= 0.0
    case Infinity => true
    case NegativeInfinity => false
  }

  /** The name arguments `addAnimal` rejects: anything but a string, or a
      string made only of whitespace. */
  predicate IsBlank(name: NameArg) {
    name.NonString? || AllWhitespace(name.s)
  }

  datatype Store = Store(animals: seq<string>, fees: seq<Number>) {

    /** Entry i of `fees` belongs to entry i of `animals`. */
    predicate Aligned() {
      |animals| == |fees|
    }

    /** The store invariant every operation keeps. */
    predicate Valid() {
      && Aligned()
      && (forall i :: 0 <= i < |animals| ==> StoredName(animals[i]))
      && (forall i :: 0 <= i < |fees| ==> AcceptedFee(fees[i]))
    }
  }

  /** The store at start-up: both lists empty. */
  const Empty := Store([], [])

  /** `later` keeps every entry of `earlier` in place and may add more. */
  predicate Extends(earlier: Store, later: Store) {
    earlier.animals <= later.animals && earlier.fees <= later.fees
  }

  /** The checks of `addAnimal`, in the code's order: the name is checked
      first, so a blank name is reported even when the fee is bad too. */
  function Validate(name: NameArg, fee: Number): (o: Outcome<AddError>)
    ensures o == Fail(BlankName) <==> IsBlank(name)
    ensures o == Fail(InvalidFee) <==> !IsBlank(name) && !AcceptedFee(fee)
    ensures o == Pass <==> !IsBlank(name) && AcceptedFee(fee)
    ensures o == Pass ==> StoredName(Trim(name.s))
  {
    if name.NonString? || name.s == "" || Trim(name.s) == "" then
      Fail(BlankName)
    else if IsNaN(fee) || LessThanZero(fee) then
      Fail(InvalidFee)
    else
      TrimIdempotent(name.s);
      Pass
  }

  /** `addAnimal` on values: on success the trimmed name and the fee are
      appended, and the invariant still holds; on failure nothing is
      appended and the error is the one `Validate` reports. */
  function Insert(st: Store, name: NameArg, fee: Number): (r: Result<Store, AddError>)
    requires st.Valid()
    ensures r.Failure? <==> IsBlank(name) || !AcceptedFee(fee)
    ensures r.Failure? ==> Validate(name, fee) == Fail(r.error)
    ensures r.Success? ==> r.value.Valid() && Extends(st, r.value)
    ensures r.Success? ==> r.value.animals == st.animals + [Trim(name.s)]
                           && r.value.fees == st.fees + [fee]
  {
    match Validate(name, fee)
    case Fail(e) => Failure(e)
    case Pass =>
      AppendKeepsValid(st, Trim(name.s), fee);
      Success(Store(st.animals + [Trim(name.s)], st.fees + [fee]))
  }

  /** Appending a stored name and an accepted fee keeps the invariant and
      every earlier entry. */
  lemma AppendKeepsValid(st: Store, name: string, fee: Number)
    requires st.Valid() && StoredName(name) && AcceptedFee(fee)
    ensures Store(st.animals + [name], st.fees + [fee]).Valid()
    ensures Extends(st, Store(st.animals + [name], st.fees + [fee]))
  {
    var next := Store(st.animals + [name], st.fees + [fee]);
    assert forall i :: 0 <= i < |st.animals| ==> next.animals[i] == st.animals[i];
    assert forall i :: 0 <= i < |st.fees| ==> next.fees[i] == st.fees[i];
  }

  /** `i` is the least index at which `key` occurs in `xs`. */
  predicate FirstIndex(xs: seq<string>, key: string, i: int) {
    && 0 <= i < |xs|
    && xs[i] == key
    && forall j :: 0 <= j < i ==> xs[j] != key
  }

  /** `Array.prototype.indexOf` with strict equality: the first index of
      `key`, or -1 when there is none. */
  function IndexOf(xs: seq<string>, key: string): (i: int)
    ensures i == -1 <==> key !in xs
    ensures i != -1 ==> FirstIndex(xs, key, i)
  {
    if xs == [] then -1
    else if xs[0] == key then 0
    else
      var j := IndexOf(xs[1..], key);
      if j == -1 then -1 else j + 1
  }

  /** The fee of the first record named `key`, walking the two lists
      together. */
  function FirstFee(animals: seq<string>, fees: seq<Number>, key: string): (r: Option<Number>)
    requires |animals| == |fees|
    ensures r.None? <==> key !in animals
    ensures forall i :: FirstIndex(animals, key, i) ==> r == Some(fees[i])
  {
    if animals == [] then None
    else if animals[0] == key then Some(fees[0])
    else
      var r := FirstFee(animals[1..], fees[1..], key);
      assert forall i :: FirstIndex(animals, key, i) ==> FirstIndex(animals[1..], key, i - 1);
      r
  }

  /** `getAdoptionFee` on values: the query is trimmed, matched exactly and
      case-sensitively, and the fee of the first matching record is
      returned; it fails exactly when no stored name equals the trimmed
      query. */
  function Lookup(st: Store, query: string): (r: Result<Number, LookupError>)
    requires st.Aligned()
    ensures r.Failure? <==> forall i :: 0 <= i < |st.animals| ==> st.animals[i] != Trim(query)
    ensures forall i :: FirstIndex(st.animals, Trim(query), i) ==> r == Success(st.fees[i])
  {
    match FirstFee(st.animals, st.fees, Trim(query))
    case None => Failure(NotFound)
    case Some(fee) => Success(fee)
  }

  /** After a push, a key already present is still answered by its first
      record; otherwise the pushed record answers exactly its own name. */
  lemma {:induction false} FirstFeeAppend(animals: seq<string>, fees: seq<Number>, a: string, f: Number, key: string)
    requires |animals| == |fees|
    ensures FirstFee(animals + [a], fees + [f], key) ==
            if key in animals then FirstFee(animals, fees, key)
            else if key == a then Some(f)
            else None
  {
    if animals == [] {
      assert animals + [a] == [a] && fees + [f] == [f];
    } else {
      assert (animals + [a])[1..] == animals[1..] + [a];
      assert (fees + [f])[1..] == fees[1..] + [f];
      FirstFeeAppend(animals[1..], fees[1..], a, f, key);
    }
  }

  /** What a lookup returns after a successful add: an earlier record with
      the queried name still wins; otherwise the new record answers if its
      name matches; otherwise the lookup fails. */
  lemma LookupAfterInsert(st: Store, name: NameArg, fee: Number, query: string)
    requires st.Valid() && Insert(st, name, fee).Success?
    ensures Lookup(Insert(st, name, fee).value, query) ==
            if Trim(query) in st.animals then Lookup(st, query)
            else if Trim(query) == Trim(name.s) then Success(fee)
            else Failure(NotFound)
  {
    FirstFeeAppend(st.animals, st.fees, Trim(name.s), fee, Trim(query));
  }

  /** Adding a record under a name not stored yet and then looking that
      name up returns exactly the fee added. */
  lemma AddThenLookup(st: Store, name: string, fee: Number)
    requires st.Valid() && Insert(st, Str(name), fee).Success?
    requires Trim(name) !in st.animals
    ensures Lookup(Insert(st, Str(name), fee).value, name) == Success(fee)
  {
    LookupAfterInsert(st, Str(name), fee, name);
  }

  /** Two records under the same trimmed name: the lookup returns the fee
      of the first one, and the later one is shadowed. */
  lemma AddTwiceFirstWins(st: Store, first: string, fee1: Number, second: string, fee2: Number)
    requires st.Valid() && Trim(first) !in st.animals && Trim(second) == Trim(first)
    requires Insert(st, Str(first), fee1).Success?
    requires Insert(Insert(st, Str(first), fee1).value, Str(second), fee2).Success?
    ensures Lookup(Insert(Insert(st, Str(first), fee1).value, Str(second), fee2).value, second) == Success(fee1)
  {
    var mid := Insert(st, Str(first), fee1).value;
    LookupAfterInsert(mid, Str(second), fee2, second);
    LookupAfterInsert(st, Str(first), fee1, second);
  }

  /** The first record added to the empty store, under any name the
      checks let through: the store then holds that name trimmed. */
  lemma InsertIntoEmpty(name: string, fee: Number)
    requires Validate(Str(name), fee) == Pass
    ensures Insert(Empty, Str(name), fee) == Success(Store([Trim(name)], [fee]))
    ensures Store([Trim(name)], [fee]).Valid()
  {
    assert Empty.animals + [Trim(name)] == [Trim(name)];
    assert Empty.fees + [fee] == [fee];
  }

  /** Matching is exact after trimming: once a record is added to the
      empty store, a query finds it exactly when it trims to the same
      name, so a query that differs only in letter case does not. */
  lemma ExactMatchAfterTrim(name: string, fee: Number, query: string)
    requires Insert(Empty, Str(name), fee).Success?
    ensures Lookup(Insert(Empty, Str(name), fee).value, query) ==
            if Trim(query) == Trim(name) then Success(fee) else Failure(NotFound)
  {
    LookupAfterInsert(Empty, Str(name), fee, query);
  }

  /** Whitespace around the name in a query is ignored: the record added as
      `name` is found by `name` with any whitespace on either side. */
  lemma PaddedQueryFinds(name: string, fee: Number, before: string, after: string)
    requires Insert(Empty, Str(name), fee).Success?
    requires AllWhitespace(before) && AllWhitespace(after)
    ensures Lookup(Insert(Empty, Str(name), fee).value, before + name + after) == Success(fee)
  {
    TrimPadded(before, name, after);
    ExactMatchAfterTrim(name, fee, before + name + after);
  }
}
