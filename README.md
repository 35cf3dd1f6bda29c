# auto-assign-issue: the list and string helpers

This project models the pure helpers of `src/utils.js` in the GitHub action
that assigns issues and pull requests to users and teams:

- `parseCsvInput`, which turns a comma-separated action input into trimmed,
  non-empty items;
- `parseAssignments`, which turns `name` and `name:weight` items into a
  weighted list where each name is repeated `weight` times;
- `parseIntInput`, which reads an integer input with JavaScript
  `parseInt(…, 10)` semantics and a default for the empty string;
- `pickNRandomFromArray`, which draws up to `n` distinct values;
- the flattening at the end of `getTeamMembers`, which turns team responses
  into one list of logins;
- the result aggregation at the end of `checkIfUsersCanBeAssigned`.

The model is split into these modules:

- `Errors`: every `throw` as a `Failure` whose fields are the values the
  message interpolates.
- `JsText`: `String.prototype.trim` over the ECMAScript WhiteSpace and
  LineTerminator characters, and `split` on one character.
- `Csv`, `IntParse`, `Assignments`, `RandomPick`, `Teams` and
  `Assignability`: one module per helper.

The source's loops are methods with invariants:

- the `forEach` and counted `for` loop of `parseAssignments`;
- the drawing loop of `pickNRandomFromArray`;
- the loop over the settled responses in `checkIfUsersCanBeAssigned`.

The methods of `parseAssignments` and `checkIfUsersCanBeAssigned` are proved
against specification functions. `RandomPick.PickNRandom` states its
properties directly: where its draws come from, that they are distinct, how
many there are and when they cover the list. The expression pipelines are
functions. Lemmas relate them to an inverse (split and join, CSV items and
their comma-joined text, an integer and its decimal text), to a reference
definition (the team order), or pin down their result on every input shape
(trimming padded text, a single CSV piece, every text `parseIntInput`
accepts or rejects).

Two things stand in for the environment:

- `Math.random` is a nondeterministic choice of an index, so the contract of
  `RandomPick.PickNRandom` holds for every sequence of draws.
- The GitHub requests are replaced by their outcomes. For `getTeamMembers`
  this is a directory from team slug to response, where a missing slug is a
  rejected request. For `checkIfUsersCanBeAssigned` it is one settled status
  per assignee.

## Model

| member | source | states |
|---|---|---|
| JsText.Trim | src/utils.js:4 | `item.trim()`: drops the longest whitespace prefix and suffix; what it returns is stated by `JsText.TrimSpec` and `JsText.TrimPadded` |
| JsText.TrimSpec | src/utils.js:4 | the trimmed item starts and ends with a non-whitespace character, holds only characters of the input, and is empty exactly when the input is all whitespace |
| JsText.TrimPadded | src/utils.js:4 | trimming removes exactly the surrounding whitespace: padding a trimmed non-empty text with whitespace and trimming it gives the text back |
| JsText.TrimOfTrimmed | src/utils.js:4 | trimming a text that neither starts nor ends with whitespace leaves it unchanged |
| JsText.Split | src/utils.js:3 | `split` on one character: at least one piece, and no piece holds the separator; `JsText.SplitJoin` and `JsText.JoinSplit` make it the inverse of joining |
| JsText.SplitCount | src/utils.js:3 | `split` on a character gives one more piece than the input holds separators |
| JsText.SplitJoin | src/utils.js:3 | splitting separator-free pieces joined by the separator gives the pieces back |
| JsText.JoinSplit | src/utils.js:3 | joining the pieces of a split with the separator gives the input back |
| JsText.SplitConcat | src/utils.js:3 | splitting `a + sep + b` gives the pieces of `a` followed by the pieces of `b` |
| Csv.ParseCsvInput | src/utils.js:1-6 | every item is non-empty, trimmed and free of commas |
| Csv.CsvRoundTrip | src/utils.js:1-6 | items of that kind, joined with commas, parse back to the same items in the same order |
| Csv.CsvConcat | src/utils.js:1-6 | the items of `a,b` are the items of `a` followed by the items of `b`, so input order is kept |
| Csv.CsvBlank | src/utils.js:1-6 | the input yields no item exactly when it holds only commas and whitespace, including the empty string |
| Csv.CsvPiece | src/utils.js:1-6 | a comma-free piece yields its trimmed text, or no item when it is blank; with `Csv.CsvConcat` this fixes the items of every input |
| Csv.PaddedItemsExample | src/utils.js:1-6 | ` a , b ` yields `a` then `b` |
| Csv.TrimEachConcat | src/utils.js:4 | trimming each piece commutes with joining two lists of pieces |
| Csv.DropEmptyMembers | src/utils.js:5 | the filter keeps exactly the non-empty strings |
| IntParse.ParseInt | src/utils.js:37 | `parseInt(valueString, 10)`, with `None` for NaN; what it reads is stated by `IntParse.LeadingInteger` and `IntParse.AcceptedShape` |
| IntParse.ParseIntInput | src/utils.js:34-43 | the empty string gives the default value; a failure happens only for a non-empty input and carries that input |
| IntParse.IntRoundTrip | src/utils.js:34-43 | the decimal text of any integer reads back as that integer, with any leading whitespace and any non-digit tail ignored, as `parseInt(…, 10)` does |
| IntParse.LeadingInteger | src/utils.js:34-43 | leading whitespace, an optional `+` or `-` and a run of digits read as the signed value of the digits, whatever tail follows, so `007` is 7 and `+7` is 7 |
| IntParse.AcceptedShape | src/utils.js:34-43 | conversely, every non-empty text that is accepted is whitespace, an optional sign, at least one digit and a tail that does not continue the digits, and its value is the signed value of those digits; every other non-empty text is rejected with `InvalidInteger` quoting it |
| IntParse.AcceptedStart | src/utils.js:36-40 | an accepted non-empty text starts with whitespace, a digit, or a sign followed by a digit |
| IntParse.NoLeadingInteger | src/utils.js:36-40 | a non-empty text that starts otherwise is rejected with `InvalidInteger` quoting it, even when digits come later |
| IntParse.LeadingZerosExample | src/utils.js:37 | `007` reads as 7 |
| IntParse.PlusExample | src/utils.js:37 | `+7` reads as 7 |
| IntParse.PaddedNegativeExample | src/utils.js:37 | `  -007x` reads as -7 |
| IntParse.RejectedExamples | src/utils.js:36-40 | `abc1` and `--1` are rejected with `InvalidInteger` quoting them |
| IntParse.NoDigitsRejected | src/utils.js:36-40 | a non-empty text without digits is rejected as an invalid integer quoting that text |
| IntParse.ParseNegative | src/utils.js:37 | a leading minus sign negates the value of the digits after it |
| IntParse.MinusSign | src/utils.js:37 | a minus sign directly before a run of digits negates the value of that run |
| IntParse.PlusSign | src/utils.js:37 | a plus sign is skipped, and a plus sign with no digit directly after it reads as NaN |
| Assignments.ParseAssignments | src/utils.js:8-32 | the result is the weighted list of the parsed CSV items, or the error of the first rejected item |
| Assignments.PushAll | src/utils.js:10-31 | pushing the items one by one gives the weighted list of all of them, or stops at the first item's error |
| Assignments.PushItem | src/utils.js:11-30 | one item pushes `weight` copies of its name onto the list, or yields the item's error without pushing anything |
| Assignments.WeightedListIsBlocks | src/utils.js:8-32 | when every item is accepted, the list is each item's copies, block after block in item order |
| Assignments.BlocksLength | src/utils.js:27-29 | the list is as long as the sum of the weights, where a weight below 1 adds nothing |
| Assignments.BlocksCount | src/utils.js:27-29 | each name occurs as often as the weights given to it add up to |
| Assignments.FirstErrorWins | src/utils.js:11-30 | the first rejected item decides the error, whatever follows it |
| Assignments.ParseItem | src/utils.js:12-26 | the `forEach` callback before the pushes: the item's name and weight, or its error; each case is stated by the `Assignments.ItemWith…` lemmas |
| Assignments.ItemWithoutWeight | src/utils.js:12-14 | an item without a colon is its own name with weight 1 |
| Assignments.ItemWithEmptyWeight | src/utils.js:15-17 | `name:` has weight 0, because the empty weight text takes the default |
| Assignments.ItemWithWeight | src/utils.js:15-23 | `name:text` takes its weight from `text`, and an unreadable `text` gives the weight error naming `name` and `text` |
| Assignments.ItemWithNumber | src/utils.js:15-17 | `name:<decimal integer>` weighs exactly that integer |
| Assignments.ItemWithManyColons | src/utils.js:24-25 | an item with two or more colons is rejected with an error quoting the whole input |
| Assignments.Repeat | src/utils.js:27-29 | the counted loop yields `weight` copies of the name, or none for a weight below 1 |
| RandomPick.PickNRandom | src/utils.js:45-58 | an empty list is an error and only an empty list, and every non-empty list succeeds. Then the picks come from the list and are distinct. There are `min(n, number of distinct values)` of them, or none for `n <= 0`, and when `n` covers every distinct value all of them are picked |
| RandomPick.DrawStep | src/utils.js:51-56 | one draw keeps the loop's state: the pool holds exactly the values not drawn yet, and the draws are distinct values of the list |
| RandomPick.DrawsDone | src/utils.js:51-57 | when the loop stops, it has drawn `n` values, or every distinct value when there are no more than `n` |
| RandomPick.Without | src/utils.js:55 | the filter removes the drawn value and every copy of it, and keeps every other value |
| Teams.GetTeamMembers | src/utils.js:60-77 | the call fails with the team-members error exactly when some team's request fails. Otherwise it returns the logins of each team's response, in team order |
| Teams.TeamOrder | src/utils.js:73-76 | the `map`/`reduce(concat)`/`map` pipeline equals the logins of the first team followed by those of the remaining teams |
| Teams.ConcatFromAppends | src/utils.js:75 | the left fold with `concat` appends the member lists to its accumulator in order |
| Teams.TeamOrderLength | src/utils.js:73-76 | the result is as long as all member lists together, so duplicates are kept |
| Teams.TeamOrderMembers | src/utils.js:73-76 | a login is returned exactly when it appears in one of the teams' responses |
| Teams.TwoTeamsExample | src/utils.js:73-76 | teams `teamA` (`userA1`, `userA2`) and `teamB` (`userB1`) give `userA1, userA2, userB1` |
| Assignability.CheckIfUsersCanBeAssigned | src/utils.js:188-196 | the report is a success exactly when no request was rejected, and its errors are the assignees with a rejected request, in assignee order |
| Assignability.RejectedMembers | src/utils.js:189-194 | an assignee is reported exactly when one of its requests was rejected |
| Assignability.RejectedCount | src/utils.js:189-194 | one assignee is reported per rejected request |
| Assignability.SuccessIffNoErrors | src/utils.js:188-196 | the report is a success exactly when it names no assignee |
| Assignability.RejectedConcat | src/utils.js:189-194 | the report on two batches of assignees is the report on the first batch followed by the report on the second |

## Left out

- `src/index.js` and the action's entry point are not part of this model. That covers reading inputs, the choice between users, teams and random picks, and posting the assignment.
- The GitHub requests are left out: `isAnIssue`, `getAssignees`, `removeAllReviewers`, `removeAssignees`, the `listMembersInOrg` calls in `getTeamMembers` and the assignability requests in `checkIfUsersCanBeAssigned`. They are network I/O. Only the outcomes that the pure code consumes are parameters.
- The `org` argument of `getTeamMembers` only addresses the request, so it is absent from `Teams.GetTeamMembers`.
- Teams.GetTeamMembers: each `listMembersInOrg` request (src/utils.js:63-66) passes no `per_page` and is not paginated, so its response holds one page of the team's members (30 by default); the model takes each response's member list as given, and a member beyond that page is not returned.
- Teams.GetTeamMembers: the source sends one request per element of `teamNames`, and that list comes from `parseAssignments`, so a slug can repeat. The directory gives every copy of a slug the same outcome. Separate requests for the same slug that settle differently, one rejected and one fulfilled, or with different member lists, are not modelled.
- The `stack` text appended to the team-members error is not modelled. It is a runtime trace.
- RandomPick.PickNRandom: the uniform distribution of `Math.random` is not modelled. Any index choice is allowed, so the contract says nothing about fairness.
- IntParse.ParseIntInput: `parseInt` yields an IEEE double. The model's integers are unbounded, so digit strings beyond 2^53 lose no precision here. `-0` reads as 0. A digit run worth about 1.8 × 10^308 (2^1024 − 2^970) or more reads as `Infinity` in JavaScript, and any weight above the array length limit 2^32 − 1 makes the counted loop of `parseAssignments` (src/utils.js:27-29) fail; the model reads the exact value and builds the finite list.
- JsText.Trim: strings are sequences of Unicode scalar values, not UTF-16 code units. Lone surrogates and the code-unit length are not modelled.
- Assignability.CheckIfUsersCanBeAssigned: the caller supplies one settled status per assignee. `Promise.allSettled` guarantees this for the requests that the helper builds one per assignee.
