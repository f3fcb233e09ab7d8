# Lottery number picker, modelled in Dafny

This project models the one component of the Microwave Jackpot lottery picker. On a 1000 x 1000 canvas the
player picks 10 of 20 numbered balls. A clock counts down to the daily 17:00 draw, and the player spends
25 of their 500 credits to buy a ticket. The model covers the component's logic and leaves out its painting:

- **Selection** (`selection.dfy`) holds the twenty cells `{value, selected}` and the ordered list of
  selected values as a `Board`, with the click toggle, quick select and reset as pure transitions. The
  invariant `Consistent` says that the cells hold 1..20 in order, that the flags and the list never
  disagree, that the list has no duplicates and that it holds at most ten values.
- **Geometry** (`geometry.dfy`) gives the ball centres `(140 + 180*(i%5), 100 + 180*(i/5))` and the hit
  test (squared distance at most 80²). It also proves the discs are pairwise disjoint, that each centre
  round-trips to its own index, and that every disc lies inside the click band.
- **Countdown** (`countdown.dfy`) gives the next 17:00 deadline, the split of a millisecond difference
  into hours, minutes and seconds, the `padStart(2, '0')` formatting of `HHh MMm SSs`, and the
  encouragement message chosen at purchase time.
- **Game** (`game.dfy`) is the component itself. The class `LotteryGame` has the state fields `numbers`,
  `selectedNumbers`, `credits`, `nextDraw`, `timeLeft`, `message`, `isAnimating`, `hoveredBall` and
  the canvas `cursor`, and one method per handler. Its methods apply the Selection transitions and keep
  `Valid()`. The purchase check, the cursor choice and the ball style are pure functions beside the class.

Time is a whole number of milliseconds on the local clock. Pointer positions are exact reals. The random
shuffle and the current time are parameters.

## Model

| member | source | states |
|---|---|---|
| Selection.InitialNumbers | src/components/LotteryGame.tsx:12-17 | the initial grid holds the values 1..20 in order, none selected; with the empty list it is consistent (InitialConsistent) |
| Selection.Toggle | src/components/LotteryGame.tsx:460-477 | a click is refused exactly when ten numbers are selected and the clicked cell is not one of them |
| Selection.ToggleEffect | src/components/LotteryGame.tsx:466-477 | an accepted click flips only the clicked cell's flag; a selected value leaves the list (one shorter, the picks before and after it kept in their order), an unselected one is appended at the end |
| Selection.ToggleKeepsConsistent | src/components/LotteryGame.tsx:460-477 | an accepted click keeps flags and list in agreement, the list free of duplicates and at most ten long |
| Selection.Without | src/components/LotteryGame.tsx:474 | the filter keeps exactly the values other than the removed one and never lengthens the list; its order is stated by WithoutAt |
| Selection.WithoutAt | src/components/LotteryGame.tsx:474 | in a list without duplicates, removing the value at position k leaves the values before it and after it, in their order |
| Selection.WithoutDistinct | src/components/LotteryGame.tsx:474 | removing a value from a list without duplicates keeps it without duplicates and shortens it by one exactly when the value was there |
| Selection.AvailableValues | src/components/LotteryGame.tsx:513 | the available values are exactly the values of unselected cells |
| Selection.FlaggedValues | src/components/LotteryGame.tsx:12-19 | the flagged values are exactly the values of selected cells |
| Selection.PartitionValues | src/components/LotteryGame.tsx:513 | with distinct cell values, available and flagged values have no duplicates and together number the cells |
| Selection.SelectedCount | src/components/LotteryGame.tsx:12-19 | in a consistent board the number of flagged cells equals the list length, and 20 minus it cells are available |
| Selection.DistinctPermutation | src/components/LotteryGame.tsx:514-516 | shuffling a list without duplicates gives a list without duplicates |
| Selection.ShuffledFresh | src/components/LotteryGame.tsx:513-516 | every shuffled value is an unselected cell's value, in 1..20 and not on the list, and the shuffle has no duplicates |
| Selection.QuickSelect | src/components/LotteryGame.tsx:512-527 | the new list holds at most ten values and every cell keeps its value, flagged exactly when that value is on the new list; growth and the invariant are QuickSelectGrowth and QuickSelectKeepsConsistent |
| Selection.QuickSelectKeepsConsistent | src/components/LotteryGame.tsx:512-527 | quick select keeps the invariant: every flag equals membership in the new list, no duplicates, at most ten |
| Selection.QuickSelectGrowth | src/components/LotteryGame.tsx:512-527 | the old list stays in front, every appended value was an unselected cell not on the list, and the list grows by min(count, 10 - old length, number of unselected cells) |
| Selection.Reset | src/components/LotteryGame.tsx:505-509 | the list is emptied and every cell keeps its value with its flag cleared; the invariant is ResetClears |
| Selection.ResetClears | src/components/LotteryGame.tsx:505-509 | reset clears every flag, keeps every value, empties the list and yields a consistent board |
| Selection.InitialConsistent | src/components/LotteryGame.tsx:12-19 | the initial cells 1..20 with an empty list satisfy the invariant |
| Geometry.CentreX | src/components/LotteryGame.tsx:141-143 | the centre of column index % 5 lies on the 180-step grid from x = 140, at most at x = 860 |
| Geometry.CentreY | src/components/LotteryGame.tsx:141-144 | the centre of row index / 5 lies on the 180-step grid from y = 100, and for the twenty balls at most at y = 640 |
| Geometry.InDisc | src/components/LotteryGame.tsx:402-404 | definition: the squared distance to the centre is at most 80 squared; its properties are DiscInBox, DiscsDisjoint and CentreHitsOwnBall |
| Geometry.HitFrom | src/components/LotteryGame.tsx:395-408 | the scan from a given ball returns a ball whose disc holds the point, or none when no later disc does |
| Geometry.HitIndex | src/components/LotteryGame.tsx:395-408 | the ball returned holds the point in its disc; none is returned only when no disc holds it |
| Geometry.DiscInBox | src/components/LotteryGame.tsx:401-403 | a point within radius 80 of a centre is within 80 of it on each axis |
| Geometry.DiscsDisjoint | src/components/LotteryGame.tsx:443-456 | no point lies in two discs, so a click or hover hits at most one ball |
| Geometry.CentreHitsOwnBall | src/components/LotteryGame.tsx:141-144 | each centre lies in its own disc and in no other, and hit-tests back to its own index |
| Geometry.BallInsideClickBand | src/components/LotteryGame.tsx:435 | the square of half-side 80 around each centre lies inside the band 20 <= y <= 820 and inside the canvas; with DiscInBox every disc does, so the band test never turns a hit away |
| Countdown.HourOfDay | src/components/LotteryGame.tsx:47 | the local clock's hour lies in 0..23 |
| Countdown.NextDrawTime | src/components/LotteryGame.tsx:39-52 | the next draw is after now and at most a day later, at 17:00, today when the hour is below 17 and tomorrow otherwise |
| Countdown.NextDrawIsEarliest | src/components/LotteryGame.tsx:39-52 | no 17:00 lies strictly between now and the next draw |
| Countdown.Split | src/components/LotteryGame.tsx:85-87 | for a positive difference, minutes and seconds lie in 0..59 and h*3600000 + m*60000 + s*1000 <= diff < that + 1000 |
| Countdown.SplitBounds | src/components/LotteryGame.tsx:85-87 | the hours, the minutes of the remainder modulo an hour and the seconds of the remainder modulo a minute account for every whole second of a non-negative difference |
| Countdown.SplitUnique | src/components/LotteryGame.tsx:85-87 | any split with those bounds is the one computed |
| Countdown.HoursBelowDay | src/components/LotteryGame.tsx:76-87 | before the deadline computed at an earlier time, the hours field is below 24 |
| Countdown.NatToString | src/components/LotteryGame.tsx:90-92 | the decimal text is all digits, at least one, one exactly below 10, at most two below 100, no leading zero |
| Countdown.NatToStringRoundTrip | src/components/LotteryGame.tsx:90-92 | the decimal text reads back as the number |
| Countdown.PadStart | src/components/LotteryGame.tsx:90-92 | padding yields max(length, width) characters: fill characters, then the text unchanged |
| Countdown.LeadingZeros | src/components/LotteryGame.tsx:90-92 | leading zeros do not change a decimal value |
| Countdown.TwoDigits | src/components/LotteryGame.tsx:90-92 | definition: the decimal text padded to two with '0'; its properties are TwoDigitsRoundTrip |
| Countdown.TwoDigitsRoundTrip | src/components/LotteryGame.tsx:90-92 | a padded field is all digits, exactly two characters below 100, never shorter, and reads back as the number |
| Countdown.FormatTimeLeft | src/components/LotteryGame.tsx:94 | the countdown text is at least 11 characters and ends in `s`; its layout for fields below 100 is FormatTimeLeftLayout |
| Countdown.FormatTimeLeftLayout | src/components/LotteryGame.tsx:94 | the countdown text is 11 characters with the fields at positions 0, 4 and 8 and the separators `h `, `m `, `s` between them; each field reads back as its number |
| Countdown.Encouragement | src/components/LotteryGame.tsx:55-72 | each message is chosen exactly on its range of milliseconds left: at least 13 h, 7-13 h, 4-7 h, 2-4 h, under 2 h |
| Game.CheckPurchase | src/components/LotteryGame.tsx:482-493 | a purchase is approved exactly with ten numbers and at least 25 credits, incomplete selection is reported first, and an approved purchase never overdraws |
| Game.RefusalMessage | src/components/LotteryGame.tsx:482-493 | a refused purchase shows the exactly-ten message precisely for an incomplete selection and the credits message precisely for too few credits |
| Game.CursorOver | src/components/LotteryGame.tsx:406 | over a ball the cursor is never the default, and is not-allowed exactly when ten are selected and the ball is not one of them |
| Game.Style | src/components/LotteryGame.tsx:146-171 | selected beats hovered beats plain; a ball is greyed out exactly when the ticket is full and it is not on it, and a greyed ball never glows |
| Game.HoverGlow | src/components/LotteryGame.tsx:174-185 | the hover shadow and glow ring are drawn exactly on a hovered ball that is selected or while fewer than ten are selected, so also on a hovered selected ball, and never on a greyed-out ball; the ring at lines 220-230 uses the same test |
| Game.GreyedOutMeansRefused | src/components/LotteryGame.tsx:242 | the overlay is drawn exactly when the cursor is not-allowed and exactly when a click on that ball is refused |
| Game.LotteryGame.constructor | src/components/LotteryGame.tsx:12-25 | 20 unselected cells 1..20, no selection, 500 credits, the next draw, no message, no animation, no hover |
| Game.LotteryGame.NumberClick | src/components/LotteryGame.tsx:460-480 | grid, list and message become the toggle's outcome; the invariant holds and no other field changes |
| Game.LotteryGame.QuickSelect | src/components/LotteryGame.tsx:512-528 | grid and list become the quick-select outcome for the given shuffle; the invariant holds and no other field changes |
| Game.LotteryGame.Reset | src/components/LotteryGame.tsx:505-509 | flags cleared, list emptied, message cleared, nothing else changed |
| Game.LotteryGame.BuyTicket | src/components/LotteryGame.tsx:482-503 | a refusal changes only the message; an approval debits exactly 25, starts the animation and shows the encouragement for the time left; the selection is untouched |
| Game.LotteryGame.CompletePurchase | src/components/LotteryGame.tsx:499-502 | the animation stops and the selection is reset; credits are untouched |
| Game.LotteryGame.ClearMessage | src/components/LotteryGame.tsx:463 | the message is cleared and nothing else changes |
| Game.LotteryGame.Tick | src/components/LotteryGame.tsx:76-95 | at or past the deadline the deadline moves to the next draw; before it the text shows the formatted split of the time left |
| Game.LotteryGame.MouseMove | src/components/LotteryGame.tsx:376-414 | the hovered ball is the ball under the pointer; the cursor follows it, or is the default when none is hit |
| Game.LotteryGame.MouseLeave | src/components/LotteryGame.tsx:416-422 | hover cleared and default cursor |
| Game.LotteryGame.Click | src/components/LotteryGame.tsx:424-458 | a click toggles exactly the ball under it, with the same outcome as a direct click on that ball, and leaves everything unchanged when no ball is hit |

## Left out

- Canvas painting (gradients, shadows, arcs, text, the tray of selected balls, the `roundRect` patch): these are pixel side effects. Only the choice of ball style is modelled (`Game.Style`).
- React machinery (state setters, effects, the markup, the buttons' `disabled` wiring) is left out. Component state is the class's fields, and each setter is an assignment.
- Timers (`setInterval`, `setTimeout`, `requestAnimationFrame` and their cancellation) are left out. Their effects are the explicit steps `Tick`, `ClearMessage` and `CompletePurchase`.
- `Date` and time zones are left out. Time is local milliseconds, a local day starts at a multiple of 86 400 000 ms, and there is no daylight-saving change. `getNextDrawTime` reads the clock twice; the model uses one `now` for both reads.
- `Math.random` is left out. The shuffle is a parameter that must be a permutation of the available values.
- `Math.sqrt` and floating point are left out. The hit test compares the squared distance with 6400 in exact real arithmetic, so rounding at a disc's edge is not modelled.
- Pointer scaling through `getBoundingClientRect` is left out. Positions are given in canvas units.
- The static prize record and its image, and the unused `Ticket`/`Draw` types in `src/types/gameTypes.ts`, are left out.
- Game.LotteryGame.Click: the source calls the toggle from inside the `forEach` and its `return` does not stop the scan. It reads the state captured at render time. The model calls the toggle inside the loop on the live state. These agree because at most one disc can be hit (`Geometry.DiscsDisjoint`).
- Game.LotteryGame.CompletePurchase: the delayed reset in the source uses the `numbers` captured when the ticket was bought. The model resets the current cells. The result is the same, since reset keeps every value and clears every flag.
- Game.LotteryGame.ClearMessage: the three-second clear empties whatever message is showing, including a newer one. The model does the same, unconditionally.
- The buy button's label reads `BUY TICKET 30.00` while the handler debits 25 credits. The label is display text and is not modelled.
