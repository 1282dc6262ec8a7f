# Team scheduler: availability store, slot picker, grid and bearer authentication

This project models the logic of the team scheduler. Participants mark the hours of a week
when they are free. The server keeps one availability entry per participant, and a grid
shows which hours are marked available. The model covers four parts:

- **The availability store** (`availability_store.dfy`, module `AvailabilityStore`).
  - The server keeps an in-memory list of `{ user, availability }` records.
  - `POST /availability` rejects a body whose `user` or `availability` is falsy with 400
    "User and availability required".
  - Otherwise it drops every record whose user is `===` to the posted one, appends the new
    record, and replies "Availability saved" with the list.
  - `GET /availability` returns the list.
  - `Store` is a class whose `records` field the handlers reassign.
  - Request bodies are JSON values (`Value`) with JavaScript truthiness.
  - `===` is `StrictEq`: primitives compare by value. Arrays and objects from two request
    bodies are never the same reference, so they never compare equal.
- **The week availability picker** (`week_availability_picker.dfy`, module
  `WeekAvailabilityPicker`, with `slots.dfy` and `js.dfy`).
  - A slot `(day, hour)` is keyed by the text `` `${day}_${hour}` `` (`Encode`).
  - A key is decoded with `split("_")` and `Number` (`Decode`).
  - The selection is a JavaScript object from keys to booleans, modelled as its entries in
    insertion order. Its keys are never integer-like, so `Object.entries` lists them in
    that order.
  - A click on a grid cell toggles one key (`Picker.ToggleSlot`, `Picker.ClickCell`).
  - Submitting lists the decoded slots whose value is `true` (`Picker.HandleSubmit`).
  - The grid is seven day columns 0..6 by the twelve hours 8..19 (`Slots`).
- **The scheduler grid** (`scheduler_grid.dfy`, module `SchedulerGrid`).
  - `isAvailable` tests whether any slot of the `availability` prop has the given day and
    hour.
  - Each row's label is its hour on a 12-hour clock.
- **The `authenticate` middleware** (`authenticate.dfy`, module `Authenticate`).
  - It accepts only an `Authorization` header that starts with "Bearer ". Anything else
    gets 401 "Missing or invalid token".
  - The token is the second space-separated field of the header.
  - It verifies the token, stores the decoded email in `req.userEmail`, updates the user's
    last activity, and calls `next()`.
  - If the verification or the update throws, it replies 401 "Invalid or expired token".
  - `jwt.verify` and `prisma.user.update` are opaque calls. Each is a function-valued
    parameter that either returns or throws.
  - The current time is a parameter.
  - `Steps` is the trace of what the middleware does. `Run` is the method that does it on a
    `Request` object.

`js.dfy` (module `Js`) holds the pieces of JavaScript the model relies on:
- `String.prototype.split` on one character, with `Join` as its inverse.
- The decimal text of an integer (`` `${n}` ``).
- `Number` applied to decimal integer text with an optional "-" or "+" sign.

## Model

| member | source | states |
|---|---|---|
| `AvailabilityStore.Store.constructor` | server/index.js:12 | The store starts as the empty list. |
| `AvailabilityStore.Store.Post` | server/index.js:14-27 | A falsy `user` or `availability` gives 400 "User and availability required" and leaves the store unchanged. Otherwise the store becomes the old records minus those whose user is `===` to `user`, followed by the new record, and the reply carries "Availability saved" and the whole new store. It keeps "at most one record per user". |
| `AvailabilityStore.Store.Get` | server/index.js:29-31 | Returns the stored list as it is. |
| `AvailabilityStore.WithoutUserMembers` | server/index.js:22 | The filter keeps exactly the records whose user is not `===` to the posted one, and never adds any. |
| `AvailabilityStore.WithoutUserAppend` | server/index.js:22 | The filter distributes over concatenation, so every kept record stays in its original relative order. |
| `AvailabilityStore.RecordsOfAppend` | server/index.js:22 | Selecting one user's records distributes over concatenation. |
| `AvailabilityStore.WithoutUserTwice` | server/index.js:22 | Filtering a user out twice is the same as filtering once. |
| `AvailabilityStore.NoneLeftOf` | server/index.js:22 | After the filter, no record of the posted user is left. |
| `AvailabilityStore.WithoutUserKeepsOthers` | server/index.js:22 | The filter leaves every other user's records as they were, in order. |
| `AvailabilityStore.WithoutUserUnique` | server/index.js:22 | The filter keeps the users of the store distinct. |
| `AvailabilityStore.ReplacedHoldsOneRecord` | server/index.js:22-24 | After an accepted POST by a primitive user, the store holds exactly one record for that user, with the submitted availability, and it is the last element. |
| `AvailabilityStore.ReplacedKeepsOthers` | server/index.js:22-24 | An accepted POST keeps the records of every other user unchanged and in their original relative order. |
| `AvailabilityStore.ReplacedRestUnchanged` | server/index.js:22-24 | Apart from the poster's records, the store after a POST is the same sequence as before. |
| `AvailabilityStore.ReplaceOverwrites` | server/index.js:22-24 | A POST of A and then B by the same user leaves the store as a single POST of B: the second overwrites the first, and there is no union. |
| `AvailabilityStore.ReplaceIdempotent` | server/index.js:22-24 | Posting the same user and availability twice gives the same store as posting once. |
| `AvailabilityStore.ReplacedUnique` | server/index.js:22-24 | If no two records have `===` users before a POST, none do after it. |
| `AvailabilityStore.FalsyRejected` | server/index.js:17-19 | A missing, null, empty-string, zero or `false` user is rejected whatever the availability. A missing or null availability is rejected whatever the user. |
| `AvailabilityStore.EmptyAvailabilityAccepted` | server/index.js:17 | An empty availability array is truthy, so a body with a truthy user and `[]` passes the guard. |
| `Slots.HoursAre` | src/WeekAvailabilityPicker.js:4 | `hours` has twelve elements, element i is 8 + i, and an hour is in it exactly when it lies in 8..19. |
| `Slots.OnGridIsDayAndHour` | src/WeekAvailabilityPicker.js:40-44 | A slot is a cell of the grid exactly when its day is a column 0..6 and its hour is one of `hours`. |
| `Js.Split` | src/WeekAvailabilityPicker.js:22 | `split` yields at least one field, no field contains the separator, and joining the fields with the separator gives the original text back. |
| `Js.SplitAfterField` | src/WeekAvailabilityPicker.js:22 | Text made of a separator-free field, the separator and a rest splits into that field followed by the fields of the rest. |
| `Js.ParseIntToString` | src/WeekAvailabilityPicker.js:23 | `Number` applied to the decimal text of any integer gives that integer back. The text contains neither "_" nor a space. |
| `Js.ParsePositiveSign` | src/WeekAvailabilityPicker.js:23 | `Number` accepts a leading "+": the text "+" followed by the digits of n reads as n. |
| `Js.IntToStringInjective` | src/WeekAvailabilityPicker.js:11 | Different integers have different decimal texts. |
| `WeekAvailabilityPicker.DecodeEncode` | src/WeekAvailabilityPicker.js:11-23 | Decoding the key `` `${day}_${hour}` `` with `split("_")` and `Number` gives back the slot `(day, hour)`, for every pair of integers. |
| `WeekAvailabilityPicker.EncodeInjective` | src/WeekAvailabilityPicker.js:11 | Different slots have different keys. |
| `WeekAvailabilityPicker.EncodeIsSlotKey` | src/WeekAvailabilityPicker.js:11 | The key of a slot decodes to that slot and re-encodes to itself. |
| `WeekAvailabilityPicker.Lookup` | src/WeekAvailabilityPicker.js:14 | For a key that names no `Object.prototype` property (every `` `${day}_${hour}` `` key is one), `o[key]` is undefined exactly when no own property has that key. A defined value is the value of an entry with that key. |
| `WeekAvailabilityPicker.PutLookup` | src/WeekAvailabilityPicker.js:12-15 | After `{ ...o, [key]: v }`, reading `key` gives `v` and reading any other key gives what it gave before. |
| `WeekAvailabilityPicker.PutKeys` | src/WeekAvailabilityPicker.js:12-15 | The spread update keeps every existing key in its place. A new key that is not integer-like (no slot key is) is appended last, and an existing one adds no entry. |
| `WeekAvailabilityPicker.PutDistinct` | src/WeekAvailabilityPicker.js:12-15 | The spread update keeps the object's keys distinct. |
| `WeekAvailabilityPicker.ToggleFlipsOnlyItsKey` | src/WeekAvailabilityPicker.js:12-15 | A toggle negates whether its own key is selected, and every other key reads as before. |
| `WeekAvailabilityPicker.ToggleAbsentKey` | src/WeekAvailabilityPicker.js:14 | An absent key becomes `true` on its first toggle and `false` on its second. |
| `WeekAvailabilityPicker.ToggleTwice` | src/WeekAvailabilityPicker.js:14 | Toggling the same key twice restores whether it is selected, and every other key. |
| `WeekAvailabilityPicker.TrueKeysExact` | src/WeekAvailabilityPicker.js:19-20 | With distinct keys, the true-valued filter lists exactly the selected keys, each once, and only keys of the object. |
| `WeekAvailabilityPicker.DecodeAllExact` | src/WeekAvailabilityPicker.js:21-24 | Mapping distinct slot keys through the decoder yields, position by position, a slot for each key. It contains exactly the slots whose key is listed, with no repeats. |
| `WeekAvailabilityPicker.SubmittedExact` | src/WeekAvailabilityPicker.js:18-24 | For an object whose keys are distinct slot keys, every submitted element is a slot. A slot is submitted exactly when its key is selected, and none is submitted twice. |
| `WeekAvailabilityPicker.SubmittedOnGrid` | src/WeekAvailabilityPicker.js:18-24 | For an object whose keys are distinct grid keys, the submitted list is exactly the selected slots, each once, and all of them are cells of the grid. |
| `WeekAvailabilityPicker.ToggleKeepsGridKeys` | src/WeekAvailabilityPicker.js:10-16 | Toggling a grid cell keeps the keys distinct, and every key remains the key of a grid cell. |
| `WeekAvailabilityPicker.Picker.constructor` | src/WeekAvailabilityPicker.js:7 | The selection starts as the empty object, which satisfies the invariant. |
| `WeekAvailabilityPicker.Picker.ToggleSlot` | src/WeekAvailabilityPicker.js:10-16 | The new selection is the old one with key `` `${day}_${hour}` `` set to the negation of its old truthiness. The invariant (distinct keys, all of them grid cells) is kept for a grid cell. |
| `WeekAvailabilityPicker.Picker.ClickCell` | src/WeekAvailabilityPicker.js:43-52 | A click on column `dayIdx` of row `hours[row]` toggles that slot and keeps the invariant. |
| `WeekAvailabilityPicker.Picker.HandleSubmit` | src/WeekAvailabilityPicker.js:18-24 | The submitted slots are, in entry order, the decoded true-valued keys. A slot is in the list exactly when it is a grid cell whose key is selected, and no slot appears twice. |
| `SchedulerGrid.IsAvailable` | src/SchedulerGrid.js:7-8 | True exactly when some element of `availability` has the given day and hour. |
| `SchedulerGrid.NothingAvailableWhenEmpty` | src/SchedulerGrid.js:8 | With no availability, no cell is highlighted. |
| `SchedulerGrid.IsAvailableBySlotSet` | src/SchedulerGrid.js:8 | Two availability lists holding the same slots, in any order and with any repeats, highlight the same cells. |
| `SchedulerGrid.GridLabelIsClockReading` | src/SchedulerGrid.js:22-26 | For every row hour 8..19, the label is the 12-hour clock hour (1..12: the hour up to noon, the hour less 12 after it), a space, and "AM" before noon or "PM" from noon on. |
| `SchedulerGrid.HourLabelReadsBack` | src/SchedulerGrid.js:26 | For every hour, the label splits into two fields. The first reads back as the hour, less 12 above noon (so 12 gives "12"), and the second is "PM" from noon on and "AM" before. |
| `SchedulerGrid.GridLabelsDistinct` | src/SchedulerGrid.js:22-26 | The twelve rows carry twelve different labels. |
| `Authenticate.TokenIsSecondField` | server/prisma/middleware/authenticate.js:11 | The token is the text after "Bearer " up to the next space or the end of the header. |
| `Authenticate.TokenIgnoresTail` | server/prisma/middleware/authenticate.js:11 | Text after a further space does not change the token. |
| `Authenticate.TokenOfPlainHeader` | server/prisma/middleware/authenticate.js:11 | The header "Bearer " followed by a space-free token yields that token. |
| `Authenticate.BadHeaderRejected` | server/prisma/middleware/authenticate.js:6-9 | A missing header, or one that does not start with exactly "Bearer ", gets 401 "Missing or invalid token" and nothing else happens. |
| `Authenticate.VerifyFailureRejected` | server/prisma/middleware/authenticate.js:13-27 | A token whose verification throws gets 401 "Invalid or expired token". No update is attempted and `next` is not called. |
| `Authenticate.UpdateFailureRejected` | server/prisma/middleware/authenticate.js:17-27 | An activity update that throws ends the request with 401 "Invalid or expired token", and `next` is not called. |
| `Authenticate.NextIffAllSucceed` | server/prisma/middleware/authenticate.js:5-28 | `next` is called exactly when the header is accepted, the token verifies and the update succeeds. |
| `Authenticate.ExactlyOneEnding` | server/prisma/middleware/authenticate.js:5-28 | Every request ends in exactly one way, as its last step: `next()` or a single 401 reply. `next()` comes right after the update for the decoded email. |
| `Authenticate.UserEmailOnSuccess` | server/prisma/middleware/authenticate.js:13-23 | `req.userEmail` is set to the decoded email exactly when the token verifies, before the update. When the header or the token fails, it keeps its old value and neither an update nor `next` happens. When `next` is called, it holds the verified email. |
| `Authenticate.Run` | server/prisma/middleware/authenticate.js:5-28 | Running the middleware on a request performs exactly the trace `Steps` and leaves `req.userEmail` as `UserEmailAfter` says. |

## Left out

- Per-slot aggregate counts and online/offline presence: no handler in `server/index.js` computes them; the client only fetches `/availability/aggregate` and `/users/online-status`.
- `server/auth.js` (register and login), the React rendering, the network calls and the other client components: presentation and wrappers over libraries. They are not part of this model.
- The date-fns week header, the Express and CORS setup, JSON body parsing, `app.listen`, and the `console.log` / `console.error` calls: I/O and formatting.
- The backend call in `handleSubmit` is only a `// Send to backend API here` placeholder, so the model returns the list that would be sent.
- The `jwt.verify` internals, the prisma update and `new Date()`: these are parameters of `Steps` and `Run`.
- `next()` is taken to return normally. Were it to throw inside the `try`, the catch would reply 401 after `next` ran; that case is not modelled.
- The `await` on the update is not modelled: the update's outcome is known in the same step.
- JSON numbers in request bodies are integers (`Num(n: int)`): floating point is not modelled, and `0` is the only falsy number (`NaN` cannot occur in JSON).
- Decode: `Number` is modelled only on decimal integer text with an optional "-" or "+" sign. Other text gives `None`, although JavaScript gives `0` for an empty field, reads other numeric text such as `"1e3"`, `"1.5"`, `"0x10"`, `"Infinity"` or `" 7"` (surrounding white space is ignored), and yields `NaN` for anything else. The model also gives the exact value of every digit string, while `Number` rounds to the nearest double from 2^53 on (`Number("9007199254740993")` is 9007199254740992). Keys built by `Encode` never contain non-integer text, and the keys of grid cells hold only the values 0..19, so the submission lemmas are unaffected. `DecodeEncode` is proved for the model's exact digits; from 2^53 on JavaScript writes other digits (see `Js.IntToString`), but `Number` reads them back as the same number, so the round trip holds in JavaScript too.
- `Js.IntToString` models `` `${n}` `` as the exact decimal digits of an integer. JavaScript numbers are doubles: from 2^53 on, `` `${n}` `` prints the shortest digits that read back as the same double (`` `${2**64}` `` is "18446744073709552000", not "18446744073709551616"), and from 10^21 on it switches to exponent notation. The model does not capture either; the grid's days 0..6 and hours 8..19 are far below both.
- WeekAvailabilityPicker.Lookup: the selection object is modelled by its own properties only. A key naming an inherited `Object.prototype` property, such as "toString", would read that property in JavaScript; no key the picker builds has that form.
- Object-valued users: the `!==` filter never matches an array or object user from another request, so such a user gets a new record on every POST. `ReplacedHoldsOneRecord`, `ReplacedRestUnchanged`, `ReplaceOverwrites` and `ReplaceIdempotent` therefore require a primitive user.
- SchedulerGrid.IsAvailable: the `availability` prop is taken to be an array of `{ day, hour }` objects with integer fields (`seq<Slot>`). The server stores posted slots without checking them. An element whose `day` or `hour` is a string, a fraction or missing never matches a grid cell, so it would not change the result, but it cannot be written as a `Slot`. A null element or a missing prop makes `slot.day` or `.some` throw a TypeError; those throwing cases are not modelled.
- React batches state updates: each `toggleSlot` update is applied in order, one click at a time.
- The server does not check that posted slots lie on the grid, and neither does the model. Only the picker's own invariant keeps its keys on the grid, because `toggleSlot` is called only from grid cells.
- The comment beside `hours` in `src/SchedulerGrid.js` says "8 AM to 8 PM", but the code produces the hours 8..19, whose last label is "7 PM". The model follows the code.
