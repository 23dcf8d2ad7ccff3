/** Single steps of the loop (on any valid store, the empty store or a
    one-record store) and the shelter's sample sessions from the empty
    store, stated for any spelling of the actions and any names: each step
    lemma says how a run that starts with that step goes on. `toNumber`
    stands for `Number(...)` on the fee line. */
module Scenarios {
  import opened Wrappers
  import opened JsValues
  import opened Strings
  import opened Records
  import opened Session

  /** Two replies put one after the other in front of a run are the run
      after those two replies. */
  lemma ThenThen(first: Reply, second: Reply, rest: Transcript)
    ensures Then(first, Then(second, rest)) == After([first, second], rest)
  {
    assert [first] + ([second] + rest.replies) == [first, second] + rest.replies;
  }

  /** One `add` pass reads the action, the name and the fee line, and
      reports `Insert`'s outcome; only a successful insert changes the
      store. */
  lemma IterateAdd(st: Store, lines: seq<string>, toNumber: string -> Number)
    requires st.Valid() && |lines| >= 3 && Route(lines[0]) == Add
    ensures var fee := toNumber(lines[2]);
            Iterate(st, lines, toNumber) ==
              match Insert(st, Str(lines[1]), fee)
              case Success(next) => Continue(next, Added(lines[1], fee), 3)
              case Failure(e) => Continue(st, AddRejected(e), 3)
  {
  }

  /** An `add` pass whose insert succeeds with `next` confirms the name as
      typed, and the run goes on from `next` after the three lines read. */
  lemma InsertedStep(st: Store, lines: seq<string>, next: Store, toNumber: string -> Number)
    requires st.Valid() && |lines| >= 3 && Route(lines[0]) == Add
    requires Insert(st, Str(lines[1]), toNumber(lines[2])) == Success(next)
    ensures next.Valid()
    ensures Run(st, lines, toNumber) == Then(Added(lines[1], toNumber(lines[2])), Run(next, lines[3..], toNumber))
  {
    IterateAdd(st, lines, toNumber);
    RunContinues([], st, lines, toNumber);
  }

  /** An accepted add is confirmed with the name as typed, and the run
      goes on with the trimmed name and the fee appended to the store. */
  lemma AcceptedAdd(st: Store, add: string, name: string, feeLine: string, rest: seq<string>,
                    toNumber: string -> Number)
    requires st.Valid() && Route(add) == Add
    requires Validate(Str(name), toNumber(feeLine)) == Pass
    ensures var next := Store(st.animals + [Trim(name)], st.fees + [toNumber(feeLine)]);
            && next.Valid()
            && Run(st, [add, name, feeLine] + rest, toNumber) ==
               Then(Added(name, toNumber(feeLine)), Run(next, rest, toNumber))
  {
    var f, lines := toNumber(feeLine), [add, name, feeLine] + rest;
    var next := Store(st.animals + [Trim(name)], st.fees + [f]);
    assert Insert(st, Str(name), f) == Success(next);
    assert lines[3..] == rest;
    InsertedStep(st, lines, next, toNumber);
  }

  /** An accepted add on the empty store leaves the one-record store
      holding the trimmed name. */
  lemma AcceptedAddOnEmpty(add: string, name: string, feeLine: string, rest: seq<string>,
                           toNumber: string -> Number)
    requires Route(add) == Add
    requires Validate(Str(name), toNumber(feeLine)) == Pass
    ensures var one := Store([Trim(name)], [toNumber(feeLine)]);
            && one.Valid()
            && Run(Empty, [add, name, feeLine] + rest, toNumber) ==
               Then(Added(name, toNumber(feeLine)), Run(one, rest, toNumber))
  {
    var f, lines := toNumber(feeLine), [add, name, feeLine] + rest;
    InsertIntoEmpty(name, f);
    assert lines[3..] == rest;
    InsertedStep(Empty, lines, Store([Trim(name)], [f]), toNumber);
  }

  /** A rejected add is reported with its error, and the run goes on with
      the same store. */
  lemma RejectedAdd(st: Store, add: string, name: string, feeLine: string, rest: seq<string>,
                    toNumber: string -> Number)
    requires st.Valid() && Route(add) == Add
    requires Validate(Str(name), toNumber(feeLine)).Fail?
    ensures Run(st, [add, name, feeLine] + rest, toNumber) ==
            Then(AddRejected(Validate(Str(name), toNumber(feeLine)).error), Run(st, rest, toNumber))
  {
    var lines := [add, name, feeLine] + rest;
    assert lines[3..] == rest;
    RunContinues([], st, lines, toNumber);
  }

  /** A one-record store answers every query that trims to its name with
      the record's fee. */
  lemma LookupOnlyRecord(name: string, f: Number, query: string)
    requires StoredName(name) && AcceptedFee(f) && Trim(query) == name
    ensures Lookup(Store([name], [f]), query) == Success(f)
  {
    assert FirstIndex([name], name, 0);
  }

  /** One `fee` pass on a one-record store, with a query that trims to the
      stored name, reads two lines, reports the fee and keeps the store. */
  lemma FeeStepOnlyRecord(name: string, f: Number, fee: string, query: string, rest: seq<string>,
                          toNumber: string -> Number)
    requires Route(fee) == Fee
    requires StoredName(name) && AcceptedFee(f) && Trim(query) == name
    ensures Iterate(Store([name], [f]), [fee, query] + rest, toNumber) ==
            Continue(Store([name], [f]), FeeReported(query, f), 2)
  {
    LookupOnlyRecord(name, f, query);
  }

  /** Asking a one-record store for its record under any spelling that
      trims to the stored name reports the record's fee. */
  lemma FeeOfOnlyRecord(name: string, f: Number, fee: string, query: string, rest: seq<string>,
                        toNumber: string -> Number)
    requires Route(fee) == Fee
    requires StoredName(name) && AcceptedFee(f) && Trim(query) == name
    ensures Run(Store([name], [f]), [fee, query] + rest, toNumber) ==
            Then(FeeReported(query, f), Run(Store([name], [f]), rest, toNumber))
  {
    var lines := [fee, query] + rest;
    FeeStepOnlyRecord(name, f, fee, query, rest, toNumber);
    assert lines[2..] == rest;
  }

  /** On any valid store, a `fee` query reports what `getAdoptionFee`
      gives for it (the fee of the first record whose name equals the
      trimmed query, or not-found), and the run goes on with the store
      unchanged. */
  lemma FeeStep(st: Store, fee: string, query: string, rest: seq<string>, toNumber: string -> Number)
    requires st.Valid() && Route(fee) == Fee
    ensures Run(st, [fee, query] + rest, toNumber) ==
            Then(match Lookup(st, query)
                 case Success(f) => FeeReported(query, f)
                 case Failure(e) => FeeRejected(e),
                 Run(st, rest, toNumber))
  {
    var lines := [fee, query] + rest;
    assert lines[2..] == rest;
    RunContinues([], st, lines, toNumber);
  }

  /** Asking the empty store for any fee reports that it is not found. */
  lemma FeeOnEmpty(fee: string, query: string, rest: seq<string>, toNumber: string -> Number)
    requires Route(fee) == Fee
    ensures Run(Empty, [fee, query] + rest, toNumber) == Then(FeeRejected(NotFound), Run(Empty, rest, toNumber))
  {
    var lines := [fee, query] + rest;
    assert lines[2..] == rest;
    RunContinues([], Empty, lines, toNumber);
  }

  /** Add a record to the empty store under any name the checks let
      through, then ask for its fee under any spelling that trims to the
      same name: the add is confirmed with the name as typed, its fee is
      reported, and the run goes on with the one-record store. */
  lemma AddThenFee(add: string, name: string, feeLine: string, fee: string, query: string, rest: seq<string>,
                   toNumber: string -> Number)
    requires Route(add) == Add && Route(fee) == Fee
    requires Validate(Str(name), toNumber(feeLine)) == Pass && Trim(query) == Trim(name)
    ensures var one := Store([Trim(name)], [toNumber(feeLine)]);
            && one.Valid()
            && Run(Empty, [add, name, feeLine] + ([fee, query] + rest), toNumber) ==
               After([Added(name, toNumber(feeLine)), FeeReported(query, toNumber(feeLine))], Run(one, rest, toNumber))
  {
    var f, stored := toNumber(feeLine), Trim(name);
    InsertIntoEmpty(name, f);
    var after := Run(Store([stored], [f]), rest, toNumber);
    assert Run(Empty, [add, name, feeLine] + ([fee, query] + rest), toNumber)
        == Then(Added(name, f), Run(Store([stored], [f]), [fee, query] + rest, toNumber)) by {
      AcceptedAddOnEmpty(add, name, feeLine, [fee, query] + rest, toNumber);
    }
    assert Run(Store([stored], [f]), [fee, query] + rest, toNumber) == Then(FeeReported(query, f), after) by {
      FeeOfOnlyRecord(stored, f, fee, query, rest, toNumber);
    }
    ThenThen(Added(name, f), FeeReported(query, f), after);
  }

  /** Add, ask for that record's fee, exit: the confirmation, the fee,
      the farewell, and the store holds the one record; whatever input
      follows `exit` is never read. The input and the replies are written
      as one concatenation per step, the shape the step lemmas match. */
  lemma AddFeeExit(add: string, name: string, feeLine: string, fee: string, query: string, exit: string,
                   rest: seq<string>, toNumber: string -> Number)
    requires Route(add) == Add && Route(fee) == Fee && Route(exit) == Quit
    requires Validate(Str(name), toNumber(feeLine)) == Pass && Trim(query) == Trim(name)
    ensures var f := toNumber(feeLine);
            Run(Empty, [add, name, feeLine] + ([fee, query] + ([exit] + rest)), toNumber) ==
            Transcript(Store([Trim(name)], [f]), [Added(name, f), FeeReported(query, f)] + [Goodbye], true)
  {
    var f, one := toNumber(feeLine), Store([Trim(name)], [toNumber(feeLine)]);
    var lines := [add, name, feeLine] + ([fee, query] + ([exit] + rest));
    InsertIntoEmpty(name, f);
    assert Run(one, [exit] + rest, toNumber) == Transcript(one, [Goodbye], true) by {
      ExitEndsRun(one, [exit] + rest, toNumber);
    }
    assert Run(Empty, lines, toNumber) == After([Added(name, f), FeeReported(query, f)], Run(one, [exit] + rest, toNumber)) by {
      AddThenFee(add, name, feeLine, fee, query, [exit] + rest, toNumber);
    }
  }

  /** A rejected add on the empty store, exit. */
  lemma RejectedAddExit(add: string, name: string, feeLine: string, exit: string, toNumber: string -> Number)
    requires Route(add) == Add && Route(exit) == Quit
    requires Validate(Str(name), toNumber(feeLine)).Fail?
    ensures Run(Empty, [add, name, feeLine] + [exit], toNumber) ==
            Transcript(Empty, [AddRejected(Validate(Str(name), toNumber(feeLine)).error), Goodbye], true)
  {
    RejectedAdd(Empty, add, name, feeLine, [exit], toNumber);
    ExitEndsRun(Empty, [exit], toNumber);
  }

  /** A fee query on the empty store, exit. */
  lemma FeeOnEmptyExit(fee: string, query: string, exit: string, toNumber: string -> Number)
    requires Route(fee) == Fee && Route(exit) == Quit
    ensures Run(Empty, [fee, query] + [exit], toNumber) ==
            Transcript(Empty, [FeeRejected(NotFound), Goodbye], true)
  {
    FeeOnEmpty(fee, query, [exit], toNumber);
    ExitEndsRun(Empty, [exit], toNumber);
  }

  /** An unknown action, exit. */
  lemma UnknownActionExit(action: string, exit: string, toNumber: string -> Number)
    requires Route(action) == Unrecognized && Route(exit) == Quit
    ensures Run(Empty, [action] + [exit], toNumber) == Transcript(Empty, [InvalidAction, Goodbye], true)
  {
    assert ([action] + [exit])[1..] == [exit];
    UnrecognizedSkipped(Empty, [action] + [exit], toNumber);
    ExitEndsRun(Empty, [exit], toNumber);
  }

  lemma RoutesOfSampleActions()
    ensures Route("add") == Add && Route("fee") == Fee && Route("exit") == Quit
    ensures Route("blahblah") == Unrecognized
  {
    RouteSpelling("add");
    RouteSpelling("fee");
    RouteSpelling("exit");
    RouteSpelling("blahblah");
  }

  /** Add with an empty name, exit: the blank-name error, then the
      farewell, and the store stays empty, whatever the fee line parses
      to, since the name is checked before the fee. As below, the input is
      split into the lines of each step, the shape the step lemmas match. */
  lemma BlankNameThenExit(feeLine: string, toNumber: string -> Number)
    ensures Run(Empty, ["add", "", feeLine] + ["exit"], toNumber) ==
            Transcript(Empty, [AddRejected(BlankName), Goodbye], true)
  {
    RoutesOfSampleActions();
    RejectedAddExit("add", "", feeLine, "exit", toNumber);
  }

  /** Ask for the fee of "Ghost", never added, exit: not found, then the
      farewell. */
  lemma UnknownAnimalThenExit(toNumber: string -> Number)
    ensures Run(Empty, ["fee", "Ghost"] + ["exit"], toNumber) ==
            Transcript(Empty, [FeeRejected(NotFound), Goodbye], true)
  {
    RoutesOfSampleActions();
    FeeOnEmptyExit("fee", "Ghost", "exit", toNumber);
  }

  /** An unknown action, exit: the invalid-action notice, then the
      farewell, and nothing else changes. */
  lemma InvalidActionThenExit(toNumber: string -> Number)
    ensures Run(Empty, ["blahblah"] + ["exit"], toNumber) ==
            Transcript(Empty, [InvalidAction, Goodbye], true)
  {
    RoutesOfSampleActions();
    UnknownActionExit("blahblah", "exit", toNumber);
  }
}
