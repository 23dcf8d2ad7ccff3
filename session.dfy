/** One run of the interactive loop: each action line is lower-cased and
    routed to `exit`, `add` or `fee`; anything else is reported as an
    invalid action and changes nothing. The operator's input is a finite
    list of lines, and `Number(...)` on the fee line is the parameter
    `toNumber`. */
module Session {
  import opened Wrappers
  import opened JsValues
  import opened Strings
  import opened Records
  import opened Shelter

  datatype Command = Quit | Add | Fee | Unrecognized

  /** The routing of an action line: lower-case it, then compare with the
      three action words. */
  function Route(action: string): Command {
    var a := LowerAscii(action);
    if a == "exit" then Quit
    else if a == "add" then Add
    else if a == "fee" then Fee
    else Unrecognized
  }

  /** An action is recognised exactly when it is one of the three words
      spelled in any mixture of upper and lower case. */
  lemma RouteSpelling(action: string)
    ensures Route(action) == Quit <==> SpelledIgnoringCase(action, "exit")
    ensures Route(action) == Add <==> SpelledIgnoringCase(action, "add")
    ensures Route(action) == Fee <==> SpelledIgnoringCase(action, "fee")
    ensures Route(action) == Unrecognized <==>
            !SpelledIgnoringCase(action, "exit") && !SpelledIgnoringCase(action, "add")
            && !SpelledIgnoringCase(action, "fee")
  {
    assert IsLowerWord("exit") && IsLowerWord("add") && IsLowerWord("fee");
    LowerMatchesWord(action, "exit");
    LowerMatchesWord(action, "add");
    LowerMatchesWord(action, "fee");
  }

  /** What one iteration reports on the console. */
  datatype Reply =
    | Added(name: string, fee: Number)
    | AddRejected(addError: AddError)
    | FeeReported(name: string, fee: Number)
    | FeeRejected(lookupError: LookupError)
    | InvalidAction
    | Goodbye

  /** The store after a run, the replies in order, and whether the run
      ended with `exit`. */
  datatype Transcript = Transcript(records: Store, replies: seq<Reply>, exited: bool)

  function Then(reply: Reply, rest: Transcript): Transcript {
    Transcript(rest.records, [reply] + rest.replies, rest.exited)
  }

  /** `rest` with the replies `earlier` printed before it. */
  function After(earlier: seq<Reply>, rest: Transcript): Transcript {
    Transcript(rest.records, earlier + rest.replies, rest.exited)
  }

  lemma AfterThen(earlier: seq<Reply>, reply: Reply, rest: Transcript)
    ensures After(earlier, Then(reply, rest)) == After(earlier + [reply], rest)
  {
    assert earlier + ([reply] + rest.replies) == (earlier + [reply]) + rest.replies;
  }

  /** The number of add confirmations among `replies`. */
  function CountAdded(replies: seq<Reply>): nat {
    if replies == [] then 0
    else (if replies[0].Added? then 1 else 0) + CountAdded(replies[1..])
  }

  /** The outcome of one iteration: the loop goes on with the store
      `records` after printing `reply`, having read `consumed` lines, or it
      stops, after the farewell when `exited` holds, or because the input
      ran out before the iteration could finish. */
  datatype Iteration =
    | Continue(records: Store, reply: Reply, consumed: nat)
    | Stop(exited: bool)

  /** One iteration of the loop on the remaining input `lines`. An `add`
      reads a name line and a fee line, a `fee` reads a name line, and
      every other action reads nothing more. Only an accepted `add` changes
      the store, by appending one record; `exit` stops the loop. */
  function Iterate(st: Store, lines: seq<string>, toNumber: string -> Number): (it: Iteration)
    requires st.Valid() && lines != []
    ensures it.Stop? && it.exited <==> Route(lines[0]) == Quit
    ensures it.Continue? ==> && it.records.Valid() && Extends(st, it.records)
                             && |it.records.animals| == |st.animals| + (if it.reply.Added? then 1 else 0)
                             && 1 <= it.consumed <= |lines| && it.reply != Goodbye
    ensures it.Continue? && it.reply == InvalidAction <==> Route(lines[0]) == Unrecognized
  {
    match Route(lines[0])
    case Quit =>
      Stop(true)
    case Add =>
      if |lines| < 3 then
        Stop(false)
      else
        var animal, fee := lines[1], toNumber(lines[2]);
        (match Insert(st, Str(animal), fee)
         case Success(next) => Continue(next, Added(animal, fee), 3)
         case Failure(e) => Continue(st, AddRejected(e), 3))
    case Fee =>
      if |lines| < 2 then
        Stop(false)
      else
        var animal := lines[1];
        (match Lookup(st, animal)
         case Success(fee) => Continue(st, FeeReported(animal, fee), 2)
         case Failure(e) => Continue(st, FeeRejected(e), 2))
    case Unrecognized =>
      Continue(st, InvalidAction, 1)
  }

  /** One pass reads the action line and at most two answers to its
      prompts: three lines for `add`, two for `fee`, one otherwise. */
  lemma IterateConsumes(st: Store, lines: seq<string>, toNumber: string -> Number)
    requires st.Valid() && lines != []
    ensures var it := Iterate(st, lines, toNumber);
            it.Continue? ==> it.consumed == match Route(lines[0]) case Add => 3 case Fee => 2 case _ => 1
  {
  }

  /** The loop run over the input `lines`, starting from the store `st`.
      A run ends at `exit`, or when the input runs out (also in the middle
      of an `add` or `fee`, whose prompts then go unanswered). */
  function Run(st: Store, lines: seq<string>, toNumber: string -> Number): Transcript
    requires st.Valid()
    decreases |lines|
  {
    if lines == [] then
      Transcript(st, [], false)
    else
      match Iterate(st, lines, toNumber)
      case Stop(exited) =>
        if exited then Transcript(st, [Goodbye], true) else Transcript(st, [], false)
      case Continue(next, reply, consumed) =>
        Then(reply, Run(next, lines[consumed..], toNumber))
  }

  /** The farewell is the last reply of a transcript that exited, and
      appears nowhere else. */
  predicate FarewellLast(t: Transcript) {
    && (t.exited <==> t.replies != [] && t.replies[|t.replies| - 1] == Goodbye)
    && forall i :: 0 <= i < |t.replies| - 1 ==> t.replies[i] != Goodbye
  }

  /** One reply other than the farewell, put before a run from `next`,
      keeps what a run from `st` promises. */
  lemma ThenKeeps(st: Store, next: Store, reply: Reply, rest: Transcript)
    requires reply != Goodbye && Extends(st, next)
    requires |next.animals| == |st.animals| + (if reply.Added? then 1 else 0)
    requires Extends(next, rest.records) && |rest.records.animals| == |next.animals| + CountAdded(rest.replies)
    requires FarewellLast(rest)
    ensures var t := Then(reply, rest);
            && Extends(st, t.records) && |t.records.animals| == |st.animals| + CountAdded(t.replies)
            && FarewellLast(t)
  {
    var t := Then(reply, rest);
    assert t.replies[1..] == rest.replies;
    assert forall i :: 1 <= i < |t.replies| ==> t.replies[i] == rest.replies[i - 1];
  }

  /** What every run keeps: the store invariant, every record it started
      with, one new record per add confirmation, at most one reply per
      input line, and the farewell last and only when it exited. */
  lemma {:induction false} RunKeepsInvariant(st: Store, lines: seq<string>, toNumber: string -> Number)
    requires st.Valid()
    ensures var t := Run(st, lines, toNumber);
            && t.records.Valid() && Extends(st, t.records)
            && |t.records.animals| == |st.animals| + CountAdded(t.replies)
            && |t.replies| <= |lines|
            && FarewellLast(t)
    decreases |lines|
  {
    if lines != [] && Iterate(st, lines, toNumber).Continue? {
      var it := Iterate(st, lines, toNumber);
      RunKeepsInvariant(it.records, lines[it.consumed..], toNumber);
      ThenKeeps(st, it.records, it.reply, Run(it.records, lines[it.consumed..], toNumber));
    }
  }

  /** A run that continues past its first iteration: the reply of that
      iteration, then the run on the rest of the input. */
  lemma RunContinues(earlier: seq<Reply>, st: Store, lines: seq<string>, toNumber: string -> Number)
    requires st.Valid() && lines != [] && Iterate(st, lines, toNumber).Continue?
    ensures var it := Iterate(st, lines, toNumber);
            After(earlier, Run(st, lines, toNumber)) ==
            After(earlier + [it.reply], Run(it.records, lines[it.consumed..], toNumber))
  {
    var it := Iterate(st, lines, toNumber);
    AfterThen(earlier, it.reply, Run(it.records, lines[it.consumed..], toNumber));
  }

  /** A run that stops in its first iteration. */
  lemma RunStops(st: Store, lines: seq<string>, toNumber: string -> Number)
    requires st.Valid() && lines != [] && Iterate(st, lines, toNumber).Stop?
    ensures var exited := Iterate(st, lines, toNumber).exited;
            Run(st, lines, toNumber) == Transcript(st, if exited then [Goodbye] else [], exited)
  {
  }

  /** `exit` ends the session at once: the farewell is the only reply,
      the store is unchanged and no later line is read. */
  lemma ExitEndsRun(st: Store, lines: seq<string>, toNumber: string -> Number)
    requires st.Valid() && lines != [] && Route(lines[0]) == Quit
    ensures Run(st, lines, toNumber) == Transcript(st, [Goodbye], true)
  {
    RunStops(st, lines, toNumber);
  }

  /** An unrecognised action is reported and changes nothing else: the
      session goes on with the next line and the same store. */
  lemma UnrecognizedSkipped(st: Store, lines: seq<string>, toNumber: string -> Number)
    requires st.Valid() && lines != [] && Route(lines[0]) == Unrecognized
    ensures Run(st, lines, toNumber) == Then(InvalidAction, Run(st, lines[1..], toNumber))
  {
    RunContinues([], st, lines, toNumber);
  }

  /** The body of the loop, from reading the action to reporting the
      outcome, on the remaining input `lines`: it calls the store's
      operations and does what `Iterate` describes. */
  method HandleAction(store: AdoptionRecords, lines: seq<string>, toNumber: string -> Number)
    returns (it: Iteration)
    requires store.Valid() && lines != []
    modifies store
    ensures store.Valid()
    ensures it == Iterate(old(store.Snapshot()), lines, toNumber)
    ensures it.Continue? ==> it.records == store.Snapshot()
    ensures it.Stop? ==> store.Snapshot() == old(store.Snapshot())
  {
    var action := LowerAscii(lines[0]);
    if action == "exit" {
      return Stop(true);
    }
    if action == "add" {
      if |lines| < 3 {
        return Stop(false);
      }
      var animal := lines[1];
      var fee := toNumber(lines[2]);
      ghost var before := store.Snapshot();
      var o := store.AddAnimal(Str(animal), fee);
      if o.Pass? {
        assert Insert(before, Str(animal), fee) == Success(store.Snapshot());
        it := Continue(store.Snapshot(), Added(animal, fee), 3);
      } else {
        it := Continue(store.Snapshot(), AddRejected(o.error), 3);
      }
    } else if action == "fee" {
      if |lines| < 2 {
        return Stop(false);
      }
      var animal := lines[1];
      var r := store.GetAdoptionFee(animal);
      match r
      case Success(fee) =>
        it := Continue(store.Snapshot(), FeeReported(animal, fee), 2);
      case Failure(e) =>
        it := Continue(store.Snapshot(), FeeRejected(e), 2);
    } else {
      it := Continue(store.Snapshot(), InvalidAction, 1);
    }
  }

  /** The `while (true)` loop over the input lines; it breaks on `exit`
      and, in this model, also when the input runs out. Its replies and
      the store it leaves are those of `Run`. */
  method MainLoop(store: AdoptionRecords, lines: seq<string>, toNumber: string -> Number)
    returns (replies: seq<Reply>, exited: bool)
    requires store.Valid()
    modifies store
    ensures store.Valid()
    ensures Run(old(store.Snapshot()), lines, toNumber) == Transcript(store.Snapshot(), replies, exited)
  {
    replies, exited := [], false;
    var pos := 0;
    ghost var whole := Run(store.Snapshot(), lines, toNumber);
    assert lines[pos..] == lines;
    assert After([], whole) == whole;
    while pos < |lines|
      invariant 0 <= pos <= |lines|
      invariant store.Valid()
      invariant whole == After(replies, Run(store.Snapshot(), lines[pos..], toNumber))
      decreases |lines| - pos
    {
      ghost var current := store.Snapshot();
      var it := HandleAction(store, lines[pos..], toNumber);
      match it
      case Stop(farewell) =>
        RunStops(current, lines[pos..], toNumber);
        if farewell {
          replies, exited := replies + [Goodbye], true;
        }
        return;
      case Continue(_, reply, consumed) =>
        RunContinues(replies, current, lines[pos..], toNumber);
        assert lines[pos..][consumed..] == lines[pos + consumed..];
        replies := replies + [reply];
        pos := pos + consumed;
    }
    assert lines[pos..] == [];
  }
}
