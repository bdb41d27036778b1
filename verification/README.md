# Cricket engine and lending services, modelled in Dafny

This project models the cricket engine of `CrickInfo.ts` and proves properties of it. The engine covers:

- a delivery (`Ball`) and the running `Score`;
- the six-ball `Over`;
- the `Innings`, with its bowler rotation, batting order, strike rotation and completion rules;
- the `Match`, with its three formats, its factory and its observers;
- the per-player `StatsManager` with its two leader boards;
- team rosters, `TeamStats` and tournament squads.

Alongside the engine, the repository holds four small business systems, each modelled in its own module:

- three library services: `LibraryManagement3.ts`, `LibraryManagement2.ts` and `LibraryManagement.ts`;
- the car-rental system of `CarRental.js`.

Modules follow the source's classes:

| file | module | models |
|---|---|---|
| `wrappers.dfy` | `Wrappers` | `Option`, `Result` (a call that throws), `Step` (a mutator that returns a boolean) |
| `sequences.dfy` | `Seqs` | a JavaScript `Set` of strings as a repeat-free sequence; `filter(x => x !== v)` |
| `ordered_map.dfy` | `OrderedMap` | a JavaScript `Map`: lookups, and insertion order for iteration |
| `js_numbers.dfy` | `JsNumbers` | JavaScript's truncating `%`, `Math.floor` and `Math.ceil` of a quotient, decimal number-to-string |
| `cricket_types.dfy` | `CricketTypes` | enumerations, `Ball`, `Player` and its roles |
| `cricket_score.dfy` | `CricketScore` | `Score` |
| `cricket_over.dfy` | `CricketOver` | `Over` |
| `cricket_team.dfy` | `CricketTeam` | `Team` |
| `cricket_innings.dfy` | `CricketInnings` | `Innings` and its two state objects |
| `cricket_stats.dfy` | `CricketStats` | `PlayerStats` and `StatsManager` |
| `cricket_match.dfy` | `CricketMatch` | `Match`, the formats, `MatchFactory`, `TeamStats`, `Tournament` |
| `library3.dfy` | `Library3` | `LibraryManagement3.ts` |
| `library2.dfy` | `Library2` | `LibraryManagement2.ts` |
| `library1.dfy` | `Library1` | `LibraryManagement.ts` |
| `car_rental.dfy` | `CarRental` | `CarRental.js` |

## Modelling choices

- **Object identity is an explicit handle.**
  - Player objects carry an id, and every `===`, `includes` and `indexOf` compares ids.
  - A team carries a `TeamRef`, but a match and its innings hold `Team` values: each is a copy of the team taken when the match is created or started.
  - Library book objects of `LibraryManagement.ts` and `LibraryManagement2.ts` live in a store indexed by `BookRef`. Issue and return change the very copy that the service's tables point at.
  - A `LibraryManagement3.ts` item lives in the library's barcode table; issuing and returning through the library read the item there and write the changed item back.
  - Members are told apart by id.
- **Mutation returns a new value.**
  - A method that returns a boolean and mutates becomes a `Step(ok, state)`.
  - A method that throws becomes a `Result`, with one error constructor per message.
- **A JavaScript `Map` becomes an insertion-ordered association list.** Iteration order is observable in the source: the leader boards scan in insertion order, and searches flatten `values()`. `Map.set` on an existing key keeps the key's position, and `delete` followed by `set` moves it to the end. Both behaviours are kept.
- **The clock is a parameter.** It is `now`, in integer milliseconds, with 86 400 000 ms to a day. The source's `new Date()` readings become this parameter, so due dates, overdue tests and day spans are exact integer arithmetic.
- **Automobile types are strings in the source.** The six listed strings become constructors, and any other string becomes `OtherType` carrying it. The field of `OtherType` is a subset type that excludes the six listed strings, so every type string has exactly one representation. `TypeOf` reads a string this way, and `TypeName` is its inverse.
- **Random ids are parameters.** The reservation id drawn with `Math.random` is supplied by the caller.
- **Money.**
  - `LibraryManagement3.ts` charges $1.50 a day, so its money is in cents (150 a day).
  - The other systems use whole units as the source does.
- **Three behaviours of the code are followed where the system's own description says otherwise:**
  - The match never opens a second innings: `startNewInnings` runs only from `startMatch`, so there is never a target. The T20 scenario therefore ends with the innings completed at 120/0 in 20.0 overs, and the match still `InProgress` with one innings.
  - Century and half-century counters are bumped by the runs of a single delivery (`updateBattingStats(runs)`), not recomputed from the total. No delivery of under 50 runs ever counts.
  - `matchTypeStats` is never written, so `getHighestCenturyScorer` fails on every manager built from deliveries.
- **Other behaviours of the code that the model keeps:**
  - Every delivery, wide or no-ball, takes one of the over's six slots.
  - Strike swaps when JavaScript's `(runs + extras) % 2 === 1`, which is never for a negative total.
  - `currentBatsmen` is never seeded, so a replacement after a wicket only takes effect once the pair is non-empty.
  - `isWicket` is not tied to `wicketType`.
  - `ABANDONED` is never set.
- **Behaviours of the lending and rental code that the model keeps:**
  - `LibraryManagement3.ts` never fills the publication-date index, so `searchByPubDate` always finds nothing.
  - `LibraryManagement3.ts` numbers members `M1`, `M2`, … from the table size. As nothing removes members, the id is always new.
  - `LibraryManagement.ts` fixes a copy's due date when the copy is made (ten days on) and never renews it on issue.
  - `LibraryManagement.ts` never adds to its member list; only `cancelMembership` touches it.
  - `LibraryManagement.ts` lets anyone cancel a reservation.
  - `LibraryManagement2.ts` caps a member at five distinct book ids, not five copies. Returning one copy drops the id even while another copy with that id is still held.
  - `CarRental.js` does not mark a vehicle as taken when a reservation is made, so the same vehicle can be booked twice for the same dates.
  - `CarRental.js` prices a reservation from the automobile as it is when the cost is computed, so equipment fitted later is charged.
- **Match types are numeric codes.** `MatchFactory.createMatch` is called with the enumeration's numeric value (ODI 0, TEST 1, T20 2), so that its `default` branch, which throws, is reachable.

## Model

| member | source | states |
|---|---|---|
| CricketTypes.AddRole | CrickInfo.ts:175-179 | the role is held afterwards, with the old roles and no other; a role already held leaves the player unchanged; a repeat-free list stays repeat-free |
| CricketTypes.RemoveRole | CrickInfo.ts:181-183 | the role is no longer held, and every other role is kept |
| CricketTypes.AddThenRemoveRole | CrickInfo.ts:175-183 | granting a role the player lacked and then removing it gives back the same player |
| CricketScore.UpdateScore | CrickInfo.ts:1088-1100 | runs rise by bat plus extras; wickets rise by one exactly on a wicket; one more ball is counted; the ball counter stays in 0..5 and wraps to 0 exactly on the sixth ball |
| CricketScore.ScoreFoldIsDirect | CrickInfo.ts:1088-1100 | folding deliveries into the zero score gives runs equal to their total, wickets equal to the number of wicket deliveries, and 6·overs + balls equal to the number of deliveries |
| CricketScore.ScoreAfterConcat | CrickInfo.ts:1088-1100 | scoring two stretches of play one after the other gives the score of both together, so the fold can resume from any intermediate score |
| CricketOver.AddBall | CrickInfo.ts:1268-1278 | a full over refuses and is unchanged; otherwise the delivery is appended and accepted |
| CricketOver.AddBallTotals | CrickInfo.ts:1268-1294 | an accepted delivery adds exactly its own runs, and its wicket if it has one, to the over's totals |
| CricketOver.WicketsInOver | CrickInfo.ts:1292-1294 | the wicket count never exceeds the number of deliveries |
| CricketOver.OfferKeepsFirstSix | CrickInfo.ts:1264-1278 | offering k deliveries to an empty over keeps the first min(k, 6) of them |
| CricketTeam.AddPlayer | CrickInfo.ts:236-242 | refused exactly when the player is on the roster; otherwise the player is appended |
| CricketTeam.RemovePlayer | CrickInfo.ts:244-251 | refused exactly when the player is absent; otherwise the first entry with the player's id is spliced out, the entries around it keep their order, and the rest of the team is unchanged |
| CricketTeam.AddThenRemovePlayer | CrickInfo.ts:236-251 | adding a new player and removing them again restores the team |
| CricketTeam.SetCaptain | CrickInfo.ts:261-267 | only a roster member can become captain; a refusal changes nothing |
| CricketTeam.SetViceCaptain | CrickInfo.ts:269-275 | only a roster member can become vice-captain; a refusal changes nothing |
| CricketTeam.SetPlayingEleven | CrickInfo.ts:283-297 | accepted exactly for eleven players who are all on the roster |
| CricketTeam.RegisterTournamentSquad | CrickInfo.ts:305-315 | accepted exactly when every squad player is on the roster |
| CricketInnings.NewInnings | CrickInfo.ts:1140-1149 | a new innings is in progress at 0/0 with an empty over open, no batting order, pair or bowler, and satisfies the innings invariant |
| CricketInnings.FirstBowler | CrickInfo.ts:1209-1220 | the index found is the first roster player who did not bowl the last over and has a bowling style; none means no such player |
| CricketInnings.RotateBowler | CrickInfo.ts:1209-1220 | the first eligible player takes the ball, who is never the previous bowler; with none eligible the innings is unchanged; nothing but the bowler ever changes |
| CricketInnings.FirstUnbatted | CrickInfo.ts:1192-1203 | the index found is the first roster player not in the batting order |
| CricketInnings.AddBall | CrickInfo.ts:1151-1177 | a completed innings refuses and is unchanged; an innings in progress accepts; the result is completed exactly when it was, or when ten wickets, the over limit or the target is reached; score and wicket count move together; teams, limit and target never change |
| CricketInnings.CompletionIsFinal | CrickInfo.ts:1298-1316 | once completed, no sequence of deliveries changes the innings |
| CricketInnings.AddBallPlacesDelivery | CrickInfo.ts:1156-1162 | the delivery lands in the current over; if that over was full it is archived first, a new over numbered by the new count of archived overs opens, and the first eligible bowler takes over; otherwise the bowler stays |
| CricketInnings.AddBallRecordsStriker | CrickInfo.ts:1179-1183 | the striker joins the batting order exactly when absent, at the end |
| CricketInnings.WicketTakesPrecedence | CrickInfo.ts:1185-1203 | on a wicket the pair keeps its size and its other slots, so there is no strike swap whatever the runs; slot 0 changes only to the first roster player yet to bat, with fewer than ten down, and does so whenever such a player exists |
| CricketInnings.StrikeSwapsOnOddTotal | CrickInfo.ts:1185-1207 | without a wicket the pair is reversed exactly when bat plus extras is positive and odd, which is when JavaScript's `% 2 === 1` holds |
| CricketInnings.AddBallPreservesValid | CrickInfo.ts:1151-1230 | the innings invariant survives every delivery: wickets 0..10 and equal to the score's, ten down means completed, no repeat in the batting order, archived overs full and numbered by position, deliveries equal to 6·archived + current |
| CricketInnings.ArchivedOvers | CrickInfo.ts:1156-1160 | after n > 0 deliveries, (n − 1) / 6 overs are archived |
| CricketInnings.OversBowledCountsDeliveries | CrickInfo.ts:1251-1253 | `getOvers` is the number of deliveries taken divided by 6 |
| CricketInnings.TenthWicketCompletes | CrickInfo.ts:1222-1224 | a wicket with nine down completes the innings |
| CricketInnings.OverLimitCloses | CrickInfo.ts:1222-1230 | in an innings limited to m overs with no target and no wickets, k ≤ 6m deliveries leave it completed exactly when k = 6m, with the folded score |
| CricketInnings.T20InningsOfSingles | CrickInfo.ts:1151-1230 | 120 one-run deliveries without a wicket, in a 20-over innings, complete it at 120/0 after 20 overs and 0 balls |
| CricketStats.UpdateBattingStats | CrickInfo.ts:63-67 | runs rise by the delivery's runs; at least 100 adds a century, else at least 50 adds a half-century; nothing else changes |
| CricketStats.AddWicket | CrickInfo.ts:69-71 | wickets rise by one and nothing else changes |
| CricketStats.Touch | CrickInfo.ts:372-377 | an unknown player gets fresh statistics at the end of the table; a known one changes nothing |
| CricketStats.GetPlayerStats | CrickInfo.ts:410-412 | returns the player's statistics, and fresh ones for an unknown player, who is then registered |
| CricketStats.UpdateStatsGet | CrickInfo.ts:359-370 | a delivery credits its batsman's runs and its bowler's wicket, both to the same record when one player is both, and leaves everyone else's record as it was |
| CricketStats.UpdateStatsKeys | CrickInfo.ts:359-377 | batsman and then bowler are registered at the end only if new; no key is lost or repeated |
| CricketStats.ReplayMatchesDirect | CrickInfo.ts:355-377 | after any deliveries, a player has a record exactly when involved in one, and the record equals the totals read straight off the delivery list |
| CricketStats.HighestWicketTaker | CrickInfo.ts:379-392 | fails exactly when nobody has a positive wicket count; otherwise returns the first player in insertion order with the strictly largest count |
| CricketStats.HighestCenturyScorer | CrickInfo.ts:394-408 | fails exactly when no record has a positive century count for the format; otherwise returns the first player with the strictly largest one |
| CricketStats.ReplayHasNoFormatCenturies | CrickInfo.ts:359-408 | on any manager built from deliveries, no record has a per-format entry, so the century board has nobody |
| CricketMatch.CreateMatch | CrickInfo.ts:592-611 | T20 gets 20 overs, ODI 50, Test no limit on day 1; any other type code is an error; the match is not started and has no innings |
| CricketMatch.CreatedMatchesAreValid | CrickInfo.ts:526-551 | every match the factory builds passes its format's `validateMatchRules` and the match invariant |
| CricketMatch.AddObserver | CrickInfo.ts:435-437 | the observer is appended, repeats kept |
| CricketMatch.Notify | CrickInfo.ts:458-460 | one notification per registered observer, in registration order, all for the delivery |
| CricketMatch.AddBall | CrickInfo.ts:439-456 | refused unless in progress, then unless an innings exists, then unless the innings accepts; on success the innings, the ball list, the match score, the statistics and the notifications move together |
| CricketMatch.StartMatch | CrickInfo.ts:462-487 | refused unless not started; then in progress with team1 batting, team2 bowling, the format's over limit and a target only when an innings exists |
| CricketMatch.EndMatch | CrickInfo.ts:470-472 | completed from any state, nothing else touched |
| CricketMatch.NextDay | CrickInfo.ts:553-559 | before day 5 the day advances; on day 5 the match ends instead |
| CricketMatch.TestDayCounter | CrickInfo.ts:541-559 | after k calls a Test match started on day 1 is on day min(1 + k, 5), completed once the calls go past day 5 |
| CricketMatch.AddBallPreservesValid | CrickInfo.ts:439-456 | the match invariant survives every delivery: the match score is the fold of its balls, the statistics are the replay of its balls, and the one innings agrees with both |
| CricketMatch.StartMatchPreservesValid | CrickInfo.ts:462-487 | starting keeps the match invariant |
| CricketMatch.EndMatchPreservesValid | CrickInfo.ts:470-472 | ending keeps the match invariant |
| CricketMatch.NextDayPreservesValid | CrickInfo.ts:553-559 | a new day keeps the match invariant, with the day at most 5 |
| CricketMatch.AddObserverPreservesValid | CrickInfo.ts:435-437 | registering an observer keeps the match invariant |
| CricketMatch.MatchTotals | CrickInfo.ts:439-456 | in a valid match the innings score equals the match score, which equals the runs and wickets read off the balls, and every player's statistics are the direct totals |
| CricketMatch.NoSecondInnings | CrickInfo.ts:462-487 | once in progress, `startMatch` fails, so no second innings is ever opened |
| CricketMatch.UpdateTeamStats | CrickInfo.ts:340-349 | one more match played, counted as a win, else a loss if the match is completed, else a draw |
| CricketMatch.UpdateTeamStatsBalanced | CrickInfo.ts:340-349 | won + lost + drawn = played is kept |
| CricketMatch.AddTeamSquad | CrickInfo.ts:576-580 | refused exactly below fifteen players; otherwise the team's squad is set |
| CricketMatch.AddMatch | CrickInfo.ts:582-584 | the match is appended |
| CricketMatch.AddTeamSquadKeepsSquadsFull | CrickInfo.ts:576-580 | every squad a tournament holds keeps at least fifteen players |
| JsNumbers.JsRemTwoIsOne | CrickInfo.ts:1187 | JavaScript's remainder by 2 is 1 exactly for positive odd numbers |
| JsNumbers.ParseDecimalString | LibraryManagement3.ts:410-412 | the decimal rendering of a number reads back as that number |
| JsNumbers.DecimalStringInjective | LibraryManagement3.ts:410-412 | different numbers render differently |
| Library3.Checkout | LibraryManagement3.ts:125-136 | refused for a reference-only item or one not available; otherwise loaned to the member, due 14 days on |
| Library3.CalculateFine | LibraryManagement3.ts:177-189 | zero unless overdue; otherwise 150 cents for each whole day past the due date |
| Library3.ReturnBook | LibraryManagement3.ts:138-155 | refused unless loaned; an overdue return yields a fine for the borrower; the item becomes available with no borrower or dates |
| Library3.Reserve | LibraryManagement3.ts:157-165 | only an available item can be reserved, and then by the member |
| Library3.CancelReservation | LibraryManagement3.ts:167-175 | only the reserving member cancels; then the item is available again |
| Library3.OperationsKeepConsistent | LibraryManagement3.ts:125-175 | the four item operations keep the status and the borrower, loan and reservation fields in step |
| Library3.ReservedCannotBeCheckedOut | LibraryManagement3.ts:125-165 | a reserved item cannot be checked out, not even by its reserver |
| Library3.CheckoutThenReturn | LibraryManagement3.ts:125-189 | lending and returning by the due date restores the item with no fine; later, the borrower is fined 150 cents per whole day late |
| Library3.ReserveThenCancel | LibraryManagement3.ts:157-175 | reserving and cancelling as the same member restores the item |
| Library3.ResetPassword | LibraryManagement3.ts:275-281 | the password changes exactly when the old one matches |
| Library3.ResetPasswordRoundTrip | LibraryManagement3.ts:275-281 | resetting and resetting back restores the account |
| Library3.BlockMember | LibraryManagement3.ts:302-305 | the member is blacklisted |
| Library3.UnblockMember | LibraryManagement3.ts:307-310 | the member is active |
| Library3.IssueBook | LibraryManagement3.ts:312-317 | an inactive member is refused; otherwise as `checkout` |
| Library3.BlockedMemberCannotBorrow | LibraryManagement3.ts:302-317 | a blocked member can borrow nothing; after unblocking, issuing is plain checkout |
| Library3.FileUnderLookup | LibraryManagement3.ts:238-242 | filing appends the item under its key and leaves other keys alone |
| Library3.CatalogAddBook | LibraryManagement3.ts:231-236 | the count of books rises by one |
| Library3.CatalogAddBookSearch | LibraryManagement3.ts:231-259 | an added item is found last under its title, author and subject; other keys and the date index are unchanged |
| Library3.FileAllSearch | LibraryManagement3.ts:229-259 | after any additions the count is their number, an unused title finds nothing, and a publication-date search always finds nothing |
| Library3.InitiateTransaction | LibraryManagement3.ts:521-584 | cash short of the amount fails; card, cheque and sufficient cash complete; only the status changes |
| Library3.Change | LibraryManagement3.ts:557-559 | the change is the cash tendered less the amount |
| Library3.AddFineGet | LibraryManagement3.ts:591-599 | a fine is appended to its member's list only |
| Library3.GetUnpaidFines | LibraryManagement3.ts:601-603 | a fine is listed exactly when it is among the member's fines and has no payment date |
| Library3.UnpaidAppend | LibraryManagement3.ts:601-603 | the unpaid fines of two lists in a row are those of the first followed by those of the second, and a single fine is kept exactly when unpaid, so the ledger's order and repeats are kept |
| Library3.ProcessPayment | LibraryManagement3.ts:605-650 | succeeds exactly when the transaction completes; then one completed transaction is recorded; on failure nothing changes |
| Library3.PaymentClearsFine | LibraryManagement3.ts:601-650 | after a completed payment the fine is among nobody's unpaid fines, and every other unpaid fine still is |
| Library3.GenerateMemberId | LibraryManagement3.ts:410-412 | "M" followed by the decimal of one more than the number of members |
| Library3.AddMember | LibraryManagement3.ts:398-408 | a new active member with zero balance is filed under the generated id |
| Library3.AddMemberIsFresh | LibraryManagement3.ts:398-412 | in a table filled by `addMember` the generated id is always new, so no member is overwritten |
| Library3.AddLibrarian | LibraryManagement3.ts:414-416 | the librarian is filed under their id; every other id keeps its librarian and the rest of the library is unchanged |
| Library3.AddBookItem | LibraryManagement3.ts:418-422 | the item is filed by barcode and added to the catalog; every other barcode keeps its item, and nothing outside the barcode table and the catalog changes |
| Library3.RemoveBookItem | LibraryManagement3.ts:424-426 | succeeds exactly when the barcode was filed, and afterwards it is not; every other barcode keeps its item and nothing outside the barcode table changes |
| Library3.LibraryReturn | LibraryManagement3.ts:138-155 | succeeds exactly for a filed, loaned item, which is written back available with borrower, borrow date and due date cleared; every other barcode, the catalogue, the librarians and the payment ledger are unchanged; an overdue return with a borrower appends the fine (150 cents per whole day late) to that borrower's fines only, advances the fine serial and adds the amount to their balance, and any other return leaves fines and balances alone |
| Library3.LibraryIssue | LibraryManagement3.ts:312-317 | succeeds exactly for a filed item that `issueBook` accepts for the member; the copy in the barcode table is then checked out to the member, and nothing else changes |
| Library3.LibraryIssueThenReturn | LibraryManagement3.ts:125-155 | issuing a filed item and returning it through the library puts the same item back under every barcode; by the due date nothing is charged, later exactly one fine of 150 cents per whole day late is filed for the member and added to their balance |
| Library3.ChargeFine | LibraryManagement3.ts:143-148 | the fine is appended to its member's fines and the fine serial advances; every other member's fines, the payment ledger, the books, the catalogue and the librarians are unchanged; the member's balance rises by its amount |
| Library3.AdjustBalanceGet | LibraryManagement3.ts:143-148 | only that member's balance moves, and by exactly the amount |
| Library3.ProcessFinePayment | LibraryManagement3.ts:444-463 | succeeds exactly when the payment does; then the balance drops by the amount; on failure nothing changes |
| Library3.PaymentLowersBalance | LibraryManagement3.ts:444-463 | a successful payment lowers that member's balance by the amount and nobody else's |
| Library3.ChargeThenPay | LibraryManagement3.ts:444-463 | a fine charged and paid in full, by card, cheque or enough cash, leaves every balance as it was |
| Library2.SetIssuedTo | LibraryManagement2.ts:110-117 | the status is Issued exactly when a member is given, Available otherwise |
| Library2.SetReservedTo | LibraryManagement2.ts:119-122 | the status is Reserved exactly when a member is given, Available otherwise |
| Library2.OverdueFine | LibraryManagement2.ts:124-134 | zero unless overdue; otherwise 10 for each whole day past the due date |
| Library2.PayFine | LibraryManagement2.ts:155-160 | refused exactly when the amount exceeds the balance; otherwise the balance drops by it and stays non-negative |
| Library2.PayInInstalments | LibraryManagement2.ts:151-160 | a fine added and paid in two parts restores the member |
| Library2.AddBook | LibraryManagement2.ts:215-230 | the copy is appended to its id's copies, other ids unchanged; its id joins the sets under its title, author and subject keys, every other key is unchanged, and the store and borrowings are untouched |
| Library2.LibrarianAddBook | LibraryManagement2.ts:175-186 | a new available copy is made and added under its id |
| Library2.IssueBook | LibraryManagement2.ts:243-262 | refused for a copy not available, then for a member with five ids borrowed; otherwise issued for ten days and its id joins only that member's set |
| Library2.ReturnBook | LibraryManagement2.ts:264-275 | refused unless issued to this member; an overdue return adds its fine to the member; the copy is available and its id leaves the member's set |
| Library2.IssuePreservesValid | LibraryManagement2.ts:206-262 | issuing keeps every borrowing set free of repeats and at most five long |
| Library2.ReturnPreservesValid | LibraryManagement2.ts:264-275 | returning keeps every borrowing set free of repeats and at most five long |
| Library2.IssueThenReturn | LibraryManagement2.ts:243-275 | issuing a fresh copy and returning it restores the store and every set, with a fine of 10 per whole day past ten days |
| Library2.SecondCopyCountsOnce | LibraryManagement2.ts:232-262 | a second copy with the same id can be issued to the same member and does not raise the count |
| Library2.CopiesOfMembership | LibraryManagement2.ts:290-312 | a copy is in the flattened result exactly when it is filed under one of the ids |
| Library2.Search | LibraryManagement2.ts:290-312 | an unknown key finds nothing; a known key finds exactly the copies filed under the ids indexed there |
| Library2.AddedBookIsFound | LibraryManagement2.ts:290-312 | a copy just added is found by its title, its author and its subject |
| Library2.AvailableCopies | LibraryManagement2.ts:314-317 | exactly the copies filed under the id that are available |
| Library2.FilterAvailableAppend | LibraryManagement2.ts:314-317 | two runs of copies in a row filter to their filtered runs in a row, and a single copy is kept exactly when available, so filing order is kept |
| Library2.BorrowedBooks | LibraryManagement2.ts:277-288 | every copy listed is issued to the member, there are no more than the member's borrowed ids, and every borrowed id with a copy issued to the member contributes its first such copy |
| Library2.BorrowedFrom | LibraryManagement2.ts:277-288 | every copy listed is issued to the member and is the first copy issued to them of one of the ids; every id with such a copy contributes it |
| Library2.BorrowedFromAppend | LibraryManagement2.ts:277-288 | ids are handled one at a time in order: two runs of ids give their results in a row, and a single id gives its first copy issued to the member or nothing, so each id contributes at most one copy |
| Library1.NewBook | LibraryManagement.ts:221-241 | a new copy is neither reserved nor issued, and is overdue from ten days after it was made |
| Library1.AddBook | LibraryManagement.ts:49-51 | the copy is appended to its id's copies; other ids unchanged |
| Library1.RemoveBook | LibraryManagement.ts:53-55 | every copy with that id leaves the table; other ids unchanged |
| Library1.IssueBook | LibraryManagement.ts:57-67 | refused for an issued copy, then for a copy reserved by anyone; otherwise issued to the member |
| Library1.ReturnBook | LibraryManagement.ts:69-79 | refused unless issued to this member; a late return adds a flat 100 to the balance; the copy is no longer issued |
| Library1.ReserveBook | LibraryManagement.ts:81-87 | refused exactly when anyone holds a reservation |
| Library1.CancelReservation | LibraryManagement.ts:89-91 | the reservation is cleared whoever asks |
| Library1.OperationsPreserveValid | LibraryManagement.ts:49-91 | every operation keeps the table one entry per id, pointing at stored copies filed under their own id |
| Library1.IssueThenReturn | LibraryManagement.ts:57-79 | issuing and returning restores the library; the member pays exactly when late |
| Library1.OnlyTheBorrowerReturns | LibraryManagement.ts:69-72 | another member's return of an issued copy is refused |
| Library1.ReserveThenCancel | LibraryManagement.ts:57-91 | a reserved copy cannot be issued even to its reserver, and cancelling restores the library |
| Library1.SearchFindsExactly | LibraryManagement.ts:94-97 | a copy is found exactly when it is filed and its title is equal |
| Library1.FilterTitleAppend | LibraryManagement.ts:94-97 | two runs of copies in a row filter to their filtered runs in a row, and a single copy is kept exactly when its title matches, so filing order is kept |
| Library1.CancelMembership | LibraryManagement.ts:99-101 | no member with the id remains, and every other member does |
| Library1.DropMemberAppend | LibraryManagement.ts:99-101 | dropping from two lists in a row gives the two results in a row, and a single member is dropped exactly when the id is theirs, so the survivors keep their order |
| Library1.AddBookObserver | LibraryManagement.ts:189-194 | the member joins the end of that book's list; other books unchanged |
| Library1.RemoveBookObserver | LibraryManagement.ts:196-201 | every entry of the member leaves that book's list, which then exists; other books unchanged |
| Library1.SubscribeThenUnsubscribe | LibraryManagement.ts:189-207 | subscribing a new member and unsubscribing them leaves the same members to notify, in order |
| CarRental.TypeOf | CarRental.js:17-24 | a string names an unlisted type exactly when it is none of the six listed strings, and that type carries the string |
| CarRental.TypeNameRoundTrip | CarRental.js:17-24 | reading a type's string gives the type back, and every string is the string of the type it names |
| CarRental.BaseRate | CarRental.js:134-151 | every rate is positive, and an unlisted type pays 50 |
| CarRental.NewAutomobile | CarRental.js:130-143 | a new automobile is available with nothing fitted, and costs its base rate |
| CarRental.AddEquipment | CarRental.js:147-155 | fitting an item raises the rental price by its daily rate |
| CarRental.PriceAtLeastBaseRate | CarRental.js:147-151 | with no negative-rate item fitted, an automobile costs at least its base rate a day |
| CarRental.SetReservation | CarRental.js:156-159 | the vehicle is taken and on the reservation |
| CarRental.CompleteReservation | CarRental.js:160-163 | the vehicle is available and on no reservation |
| CarRental.SetThenComplete | CarRental.js:156-163 | sending an idle car out and completing gives back the same car |
| CarRental.AddInsurance | CarRental.js:193-195 | the insurance is set, replacing any earlier one |
| CarRental.AddService | CarRental.js:196-198 | the service's price is set by name; other services unchanged |
| CarRental.RentalDays | CarRental.js:200 | the date span rounded up to whole days |
| CarRental.TotalCostFormula | CarRental.js:199-212 | total = days × (rental price + reserved equipment rates + insurance rate) + service prices |
| CarRental.ServicePriceReplaced | CarRental.js:196-212 | re-pricing a service changes the total by the price difference only |
| CarRental.InsuranceCharge | CarRental.js:193-212 | insuring adds the rate for each rental day; a later insurance replaces an earlier one |
| CarRental.CostFollowsTheCar | CarRental.js:199-212 | equipment fitted to the car after booking is charged for every rental day |
| CarRental.MakeReservation | CarRental.js:224-235 | refused for an unavailable vehicle, then for start ≥ end; otherwise a new scheduled reservation for the vehicle is filed under its id, and every other id keeps its reservation |
| CarRental.CancelReservation | CarRental.js:236-243 | refused exactly for an unknown id; otherwise the reservation is cancelled and leaves the registry |
| CarRental.MakeThenCancel | CarRental.js:224-243 | making and cancelling under a new id restores every lookup, and cancelling again is refused |
| CarRental.DoubleBookingAccepted | CarRental.js:224-235 | a vehicle already reserved can be reserved again for the same dates |
| CarRental.AddVehicle | CarRental.js:270-272 | the vehicle is filed under its barcode; other barcodes unchanged |
| CarRental.RegisterMember | CarRental.js:273-275 | the member is filed under their id; other ids unchanged |
| CarRental.SearchFindsExactly | CarRental.js:276-285 | a vehicle is found exactly when filed, available, and either of the type asked, not an automobile, or no type was asked |
| CarRental.FilterVehiclesAppend | CarRental.js:276-285 | two runs of vehicles in a row filter to their filtered runs in a row, and a single vehicle is kept exactly when it matches, so filing order is kept |
| CarRental.RentalMakeReservation | CarRental.js:286-293 | refused unless both barcode and member are registered; then as the reservation service decides |
| CarRental.ReturnVehicle | CarRental.js:294-302 | refused exactly for an unknown barcode; an automobile is completed; anything else is unchanged |
| CarRental.ReturnedCarIsSearchable | CarRental.js:276-302 | a returned car is found by a search for its type |

## Left out

- Clock and calendar: `new Date()` becomes the millisecond parameter `now`. Calendar arithmetic such as `setDate(+14)` across a daylight-saving change is taken as exactly 14 × 86 400 000 ms.
- Floating point: `Score.getOvers` (overs + balls/6) and `TeamStats.getWinPercentage` are not modelled. Money in `LibraryManagement3.ts` is in cents, so the fine of $1.50 a day is exact.
- Text and console output: commentary strings, `console.log`, the example programs and `main`.
- Delegating wrappers: `MatchService`, `TournamentService`, `StatsService`, `Admin`, `CrickInfo`, the `Librarian` and member pass-throughs, and trivial getters and setters.
- Stubs that return constants: `getPlayingEleven`, `getTournamentSquad`, `Team.getStats`, `Catalog.updateCatalog` and every method of `CarRental.ts`.
- `dist/CarRental.js`: it is compiled output of the same logic.
- Observers as code: a notification is the observer's id paired with the delivery. Timers, pickup and return reminders, and the `Math.random` reservation id are left out; the id is a parameter.
- Payment gateways: card and cheque transactions always complete, and their card and bank details are not kept.
- Vehicle and equipment logs: the `Log` entries are not kept.
- Library3.AdjustBalance: a fine or payment for a member who is not in the member table changes no balance. The source adjusts the member object the caller holds, whether registered or not.
- CricketMatch.CreateMatch: a match keeps a copy of each team's roster as it was when the match was created; a player added to or removed from the team afterwards (CrickInfo.ts:236-251) is seen by the source's batsman and bowler rotation (CrickInfo.ts:1192-1220), which shares the team object, but not by the model.
- Library3.LibraryReturn: returns are made through the library's barcode table, so an item that was never filed cannot be returned here.
- Library3.RemoveBookItem: the catalog keeps the removed item's title, author and subject entries and its book count, as the source does; the contract says so by stating that nothing outside the barcode table changes.
- Library2.BorrowedBooks: a member holding two copies of one id has only the first of them listed, as in the source; the contract does not promise that every issued copy is listed.
- Library1.ReturnBook and Library2.ReturnBook: the member's balance is a value the call returns; the source mutates the member object in place.
- CricketMatch.StartMatch: only the first innings is ever opened, as in the code, so the second innings, its target and the end of the match after two innings are not modelled.
- The `ABANDONED` state exists but nothing sets it.
