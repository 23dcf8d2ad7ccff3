# Pet shelter adoption records — a Dafny model

The program keeps a pet shelter's adoption records: two parallel lists,
`animals` and `fees`, kept in step by index. It also runs a console loop
that reads an action (`add`, `fee` or `exit`, in any letter case) and does
one of three things:

- `add` validates and appends a record;
- `fee` looks up the fee of a named animal;
- `exit` says goodbye and stops.

Errors from the two store operations are reported, and the loop goes on.

The model has seven modules:

- `Wrappers`: `Option`, `Result` and `Outcome`.
- `JsValues`: a JavaScript number as `NaN`, a finite real, or plus or minus
  infinity, with the two tests the code applies to fees (`isNaN`, `< 0`).
- `Strings`: `String.prototype.trim` with the ECMAScript whitespace and
  line-terminator set, and the lower-casing of action words.
- `Records`: the pure specification of the store.
  - `Validate` and `Insert` are `addAnimal` on values.
  - `IndexOf`, `FirstFee` and `Lookup` are `getAdoptionFee` on values.
  - The lemmas relate adds and lookups.
- `Shelter`: the class `AdoptionRecords`, whose fields `animals` and `fees`
  are the program's two module-level lists. `AddAnimal` changes them in
  place. `GetAdoptionFee` reads them. Both are proved against `Records`.
- `Session`: the console loop.
  - `Route` is the lower-casing and dispatch of an action line.
  - `Iterate` is one pass of the loop body, and `Run` is the whole loop, over
    a finite list of input lines.
  - `HandleAction` and `MainLoop` are the imperative loop, proved to produce
    what `Run` describes.
- `Scenarios`: what `Run` does with given input lines.
  - Step lemmas say how a run that starts with one action goes on: an
    accepted or rejected add on any valid store, an accepted add on the
    empty store, a fee query on any valid store (`FeeStep`, which reports
    `Lookup`'s result), and a fee query on the empty store or on a
    one-record store. `LookupOnlyRecord` is a single lookup, not a run.
  - Whole sessions from the empty store end with `exit`, each built from
    the step lemmas. Three of them follow the inputs the program's notes
    mention at project-task.js:125-130 and 147: a valid add followed by a
    fee lookup, a rejected add (a blank name or a bad fee), and a lookup of
    an animal never added. A fourth, an unknown action, follows the loop's
    `else` branch at project-task.js:110-112.
  - Names and queries are arbitrary strings. An add of `"  Rex "` stores
    `Rex`; a later query finds it exactly when the query trims to `Rex`, so
    `" Rex"` finds it and `"rex"` does not.

The fee check follows the code rather than the wording around it. The
program's notes ask for a fee that is a non-negative number, which
suggests a finite one. But the code rejects only `NaN` and values below
zero, so `Infinity` is accepted and stored (`Records.AcceptedFee`).
Negative zero is not below zero either; the model has no signed zero, and
`-0` is the finite value `0`.

Lookups return the first stored record with the trimmed query as its name.
So "add a name, then look it up" is guaranteed to give back the fee just
added when that trimmed name was not stored before. Otherwise it gives the
earlier record's fee, which may or may not be the same. `Records.AddThenLookup` carries
that hypothesis, and `Records.AddTwiceFirstWins` shows the shadowing.

## Model

| member | source | states |
|---|---|---|
| Strings.TrimStart | project-task.js:55 | the result is a suffix of the input that does not start with whitespace, and everything dropped in front is whitespace |
| Strings.TrimEnd | project-task.js:55 | the result is a prefix of the input that does not end with whitespace, and everything dropped at the end is whitespace |
| Strings.Trim | project-task.js:55 | `trim` leaves neither end as whitespace, never lengthens, and yields the empty string exactly when the input is all whitespace |
| Strings.TrimIsSlice | project-task.js:61 | what `trim` keeps is a contiguous slice of the input with only whitespace on either side of it |
| Strings.TrimOfTrimmed | project-task.js:61 | a string that starts and ends with non-whitespace is its own trim |
| Strings.TrimIdempotent | project-task.js:61 | trimming twice is trimming once, so a stored name is already trimmed |
| Strings.TrimStartSkipsWhitespace | project-task.js:66 | leading whitespace of any length does not change what the start-trim yields |
| Strings.TrimEndSkipsWhitespace | project-task.js:66 | trailing whitespace of any length does not change what the end-trim yields |
| Strings.TrimStartAppend | project-task.js:66 | once the start-trim stops inside `s`, appending to `s` appends to its result |
| Strings.TrimPadded | project-task.js:66 | whitespace added on both sides of a string does not change its trim |
| Strings.LowerAscii | project-task.js:81 | lower-casing keeps the length and maps every character through the letter mapping |
| Strings.LowerMatchesWord | project-task.js:81-83 | a line lower-cases to a lower-case word exactly when it spells that word with each letter in either case |
| Session.Route | project-task.js:81-112 | the reference definition of the dispatch: lower-case the action line, then compare it with `exit`, `add` and `fee` in that order; it has no contract of its own, and `Session.RouteSpelling` characterises it |
| Session.RouteSpelling | project-task.js:81-112 | an action is `exit`, `add` or `fee` exactly when it spells that word in any letter case, and is invalid exactly when it spells none of them |
| JsValues.IsNaN | project-task.js:58 | `isNaN` on a number holds exactly for NaN; a definition with no contract of its own, used by `Records.Validate` |
| JsValues.LessThanZero | project-task.js:58 | `fee < 0`: false for NaN and for plus infinity, true for minus infinity, and the real comparison otherwise, so negative zero is not below zero; a definition with no contract of its own, used by `Records.Validate` |
| Records.Validate | project-task.js:54-60 | blank (not a string, empty or all whitespace) fails with the name error; otherwise a NaN or negative fee fails with the fee error; otherwise it passes, and the trimmed name is non-empty and trimmed |
| Records.Insert | project-task.js:54-63 | `addAnimal` fails exactly when the name is blank or the fee is not accepted, with `Validate`'s error; on success it appends the trimmed name and the fee, keeps the lists aligned and valid, and keeps every earlier entry |
| Records.AppendKeepsValid | project-task.js:61-62 | pushing a stored name and an accepted fee keeps the two lists aligned and valid and keeps their earlier entries in place |
| Records.IndexOf | project-task.js:66-67 | `indexOf` returns -1 exactly when the key is absent, and otherwise the least index holding it |
| Records.FirstFee | project-task.js:66-70 | walking both lists gives no fee exactly when the name is absent, and otherwise the fee at the first index holding the name |
| Records.Lookup | project-task.js:65-71 | `getAdoptionFee` fails with not-found exactly when no stored name equals the trimmed query, and otherwise returns the fee at the first such index |
| Records.FirstFeeAppend | project-task.js:61-70 | after a push, the first match is an earlier match if one exists, else the new record if its name matches, else nothing |
| Records.LookupAfterInsert | project-task.js:61-70 | a lookup after a successful add: an earlier record with the trimmed query wins; otherwise the added record answers when its trimmed name matches; otherwise not-found |
| Records.AddThenLookup | project-task.js:61-70 | adding a name not yet stored and then looking it up returns exactly the fee added |
| Records.AddTwiceFirstWins | project-task.js:61-70 | a second record under the same trimmed name is shadowed, and the lookup returns the first record's fee |
| Records.InsertIntoEmpty | project-task.js:51-63 | the first accepted add on the empty lists, of any name the checks let through (padded or not), gives the one-record store holding the trimmed name and the fee, and that store keeps the invariant |
| Records.ExactMatchAfterTrim | project-task.js:66 | after one add, a query finds the record exactly when it trims to the stored name, so a query differing in letter case is not found |
| Records.PaddedQueryFinds | project-task.js:66 | after one add, the name with any whitespace on either side still finds the record's fee |
| Shelter.AdoptionRecords.constructor | project-task.js:51-52 | both lists start empty, which satisfies the store invariant |
| Shelter.AdoptionRecords.AddAnimal | project-task.js:54-63 | the result is `Validate`'s; on success both lists grow by the trimmed name and the fee, on failure both are unchanged, and the invariant is kept |
| Shelter.AdoptionRecords.GetAdoptionFee | project-task.js:65-71 | the index-then-fee lookup on the lists equals `Records.Lookup` of their contents |
| Session.Iterate | project-task.js:81-112 | one pass stops with the farewell exactly on `exit`; a continuing pass keeps the store valid, only appends, grows the store only on an add confirmation, consumes at least one of the remaining lines and never says goodbye; the invalid-action reply comes exactly from an unrecognised action |
| Session.IterateConsumes | project-task.js:81-101 | a continuing pass consumes three lines after `add` (action, name, fee), two after `fee` (action, name) and one after any other action |
| Session.Run | project-task.js:79-117 | the reference definition of the whole loop over the input lines: one `Iterate` pass after another, ending at `exit` or when the input runs out; it has no contract of its own, and `Session.RunKeepsInvariant`, `Session.RunContinues`, `Session.RunStops` and `Session.MainLoop` state what it does |
| Session.RunKeepsInvariant | project-task.js:79-117 | every run keeps the store valid, only appends records, one per add confirmation, prints at most one reply per input line, and prints the farewell last and only when it exited |
| Session.ThenKeeps | project-task.js:93-112 | a reply other than the farewell put in front of a run keeps what `RunKeepsInvariant` promises |
| Session.RunContinues | project-task.js:79-117 | a run whose first pass continues is that pass's reply followed by the run on the remaining input from the new store |
| Session.RunStops | project-task.js:83-86 | a run whose first pass stops leaves the store unchanged and prints the farewell exactly when it stopped on `exit` |
| Session.ExitEndsRun | project-task.js:83-86 | `exit` ends the session at once: only the farewell, the store unchanged, and no later line is read |
| Session.UnrecognizedSkipped | project-task.js:110-112 | an unrecognised action prints the invalid-action notice and the session goes on from the next line with the same store |
| Session.HandleAction | project-task.js:81-112 | the loop body's calls into the store have the effect `Iterate` describes and keep the store valid |
| Session.MainLoop | project-task.js:79-117 | the loop's replies, whether it exited, and the store it leaves are those of `Run` on the starting store |
| Scenarios.IterateAdd | project-task.js:88-98 | an `add` pass with a name line and a fee line available reads exactly those three lines and reports `Insert`'s outcome; the store changes only when the insert succeeds |
| Scenarios.InsertedStep | project-task.js:88-98 | when the insert succeeds with a store `next`, the add is confirmed with the name as typed, `next` keeps the invariant, and the run goes on from `next` after the three lines read |
| Scenarios.AcceptedAdd | project-task.js:88-98 | on any valid store, an add whose name and fee pass the checks is confirmed with the name as typed, and the session goes on with the trimmed name and the fee appended; the new store keeps the invariant |
| Scenarios.AcceptedAddOnEmpty | project-task.js:88-98 | an accepted add on the empty store, of any name the checks let through, is confirmed, and the session goes on with the one-record store holding the trimmed name |
| Scenarios.RejectedAdd | project-task.js:93-98 | a rejected add reports `Validate`'s error, and the session goes on with the same store |
| Scenarios.LookupOnlyRecord | project-task.js:65-71 | a one-record store answers every query that trims to its name with that record's fee |
| Scenarios.FeeStepOnlyRecord | project-task.js:100-105 | a `fee` pass on a one-record store, with a matching query, reports the fee and consumes two lines |
| Scenarios.FeeOfOnlyRecord | project-task.js:100-108 | a fee query matching the only record reports its fee, and the session goes on unchanged |
| Scenarios.FeeStep | project-task.js:100-108 | on any valid store, a `fee` query reports the fee `getAdoptionFee` finds for the trimmed query (the first matching record), or its not-found error, and the session goes on with the store unchanged |
| Scenarios.FeeOnEmpty | project-task.js:100-108 | any fee query on the empty store reports not-found, and the session goes on unchanged |
| Scenarios.AddThenFee | project-task.js:88-108 | add any name the checks let through, then a fee query that trims to the same name as the added one: the confirmation, then the fee just added, then the rest of the session on the one-record store |
| Scenarios.AddFeeExit | project-task.js:79-117 | add any accepted name, a fee query that trims to the same name, exit: exactly the confirmation, the fee and the farewell, with the trimmed name and its fee stored; input after `exit` is never read |
| Scenarios.RejectedAddExit | project-task.js:54-60 | a rejected add then `exit`: the add error and the farewell, with the store left empty |
| Scenarios.FeeOnEmptyExit | project-task.js:65-69 | a fee query on the empty store then `exit`: not-found and the farewell |
| Scenarios.UnknownActionExit | project-task.js:110-112 | an unrecognised action then `exit`: the invalid-action notice and the farewell, with nothing else changed |
| Scenarios.RoutesOfSampleActions | project-task.js:81-112 | `add`, `fee` and `exit` route to their actions, and `blahblah` is invalid |
| Scenarios.BlankNameThenExit | project-task.js:55-56 | an empty animal name is rejected with the blank-name error whatever the fee line parses to, and nothing is stored |
| Scenarios.UnknownAnimalThenExit | project-task.js:66-69 | asking the empty store for an animal never added (`Ghost`) reports not-found, and the session continues to `exit` |
| Scenarios.InvalidActionThenExit | project-task.js:110-112 | an unknown action is reported and the session continues to `exit` |

## Left out

- Console I/O: the `prompt-sync` prompts become a finite list of input
  lines, and the console messages become `Session.Reply` values. The
  welcome banner and the message texts themselves are not modelled.
- `Number(feeInput)`: string-to-number coercion is the parameter
  `toNumber`. Its parsing rules (hex, exponents, whitespace, `""` giving 0)
  are not modelled.
- End of input: `prompt` returning `null` makes `toLowerCase` throw, and
  the outer `catch` then loops again. The model cannot express that
  without the real terminal. Instead, a session ends when the input lines
  run out, including in the middle of an `add` or `fee`, whose prompts are
  then unanswered. So the outer "Unexpected error" handler is not
  modelled.
- The infinite loop itself: a run ends at `exit` or when the input runs
  out, never by running forever.
- Strings.LowerAscii: lower-cases only the letters A to Z, so it is
  weaker than `toLowerCase` in general. Routing is not affected: no
  character outside ASCII lower-cases to one of the letters of `exit`, `add`
  or `fee` on its own. The one that comes closest, U+0130, lower-cases to
  `i` followed by U+0307, which never matches a word. So `Session.Route`
  agrees with `toLowerCase`-then-compare on every input, and
  `Session.RouteSpelling` describes the routing exactly.
- Records.Validate: a string fee or another non-number is never passed by
  the loop, which always calls `Number` first, so the `isNaN` coercion of
  non-numbers is not modelled.
- Numbers are idealised: finite fees are exact reals, with no rounding and
  no negative zero. Fee formatting in the messages is not modelled.
- The error messages are the constructors `BlankName`, `InvalidFee` and
  `NotFound` rather than their texts.
