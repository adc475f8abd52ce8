# intro.js tour core in Dafny

intro.js runs a guided tour over a web page. It collects tour *items* from `data-intro-*` attributes or from a `steps` option. It walks through them with next, previous, go-to-step and exit. For each step it places a tooltip beside the highlighted element and fills in the step counter, the progress bar, the button row and the intro text.

This project models the data part of that core as pure Dafny functions over immutable datatypes, and proves properties of them. Everything lives in `intro.js`, so every source cell below cites that file.

| file | module | models |
|---|---|---|
| `common.dfy` | `Common` | `Option` and `Result` |
| `collector.dfy` | `Collector` | `_introForElement` up to `self._introItems = introItems`, `_getIntroText`, `_mergeOptions`, and `parseInt(·, 10)` |
| `navigation.dfy` | `Navigation` | `_nextStep`, `_previousStep`, `_goToStep`, `_goToStepNumber`, `start()` and its first `_nextStep`, and the state reset of `_exitIntro` |
| `placement.dfy` | `Placement` | `_removeEntry`, `_determineAutoPosition`, the side choice and the offset table of `_placeTooltip`, and the arithmetic of `_setHelperLayerPosition` |
| `display.dfy` | `Display` | `_getProgress`, `_getNumberOfElements`, `_getActiveStepNumber`, the button-state selection of `_showElement`, and `_renderIntroText` |

How the JavaScript is represented:

- `undefined` and `NaN` step indexes are cursor values (`Navigation.Cursor`).
- A TypeError from reading a property of a missing item is an outcome status (`Fault`), not a precondition.
- The callbacks a transition fires, and the rendering of a step, form an event trace.
- The window width, the element boxes and the `skipMissingElements` callback are parameters.
- A page scan is the sequence of matching elements in document order.

Two consequences of the code that are easy to overlook:

- **`goToStep(n)` with n ≤ 0 throws.** `_goToStep` sets the index to n - 2 (intro.js:393). `_nextStep` adds one and its skip loop then reads `items[n - 1].skipOnMobile` with n - 1 negative (intro.js:436), which throws. `Navigation.GoToStep` has status `Fault` exactly when n ≤ 0.
- **A target in the lower right corner gets "left", not "top".** Take an 800×600 window, a 40×40 target at top 550, left 750, and a 200×100 tooltip. The tooltip would spill past the right edge, which eliminates top together with bottom (intro.js:788-790), so the choice is "left" (`Placement.CornerTargetGoesLeft`).

## Model

| member | source | states |
|---|---|---|
| Collector.ParseIntDecimal | intro.js:212 | parseInt in base 10 reads back the decimal notation of every natural number |
| Collector.ParseInt | intro.js:211 | JavaScript's parseInt(s, 10) on a step attribute: white space skipped, optional sign, the longest digit run; its meaning is stated by Collector.ParseIntDecimal (round trip with decimal notation), Collector.ParseIntDigits and Collector.ParseIntNegative |
| Collector.ParseIntNegative | intro.js:212 | a leading minus gives the negated number, so such a step number fails the `step > 0` test |
| Collector.IntroFallbacks | intro.js:118-122 | an item's intro is the descriptor's own intro when it has one; otherwise the text dictionary's entry for the target's non-empty key when listed; otherwise the inline data-intro-text; otherwise the empty text |
| Collector.MergeOptions | intro.js:1645-1659 | the merged bag has the keys of both; the second bag's value wins; the first bag's value stays for every other key |
| Collector.MergeOptionsNeutral | intro.js:1645-1659 | an empty bag on either side changes nothing, and merging a bag with itself gives it back |
| Collector.KeyCheck | intro.js:136-143 | a key is a duplicate exactly when it is present and already claimed; a new non-empty key is claimed; an absent or empty key is never claimed |
| Collector.Put | intro.js:214-217 | writing index i sets that slot; every other slot keeps its content; writing past the end leaves holes |
| Collector.FirstFree | intro.js:228-234 | the hole search stops at the first hole at or after its start, and every slot it passes is filled |
| Collector.NumberedPass | intro.js:209-219 | the first pass; Collector.NumberedPassInvariant, NumberedPassSplit, NumberedPassKeepsSlot, NumberedPassClaims, NumberedPassClaimsOnly, NumberedPassSkipsClaimed and NumberedPassSkipsAbsent state what it places and which keys it claims |
| Collector.UnnumberedPass | intro.js:221-241 | the second pass; Collector.UnnumberedPassInvariant, UnnumberedPassSplit, UnnumberedPassKeepsFilled, UnnumberedFillsLowestHole, UnnumberedPassSkipsClaimed, UnnumberedPassSkipsStepped and UnnumberedPassLaterLoses state what it places and where |
| Collector.NumberedPassKeepsSlot | intro.js:209-219 | a slot whose number no element of the scan asks for keeps its content through the first pass |
| Collector.UnnumberedPassKeepsFilled | intro.js:223-241 | the second pass writes only into holes, so a filled slot keeps its content |
| Collector.Compact | intro.js:245-252 | the copy drops exactly the holes: an item is in it iff some slot holds it |
| Collector.CompactAppend | intro.js:245-252 | compaction distributes over concatenation; a hole gives nothing and a filled slot gives its item; so the copy is the filled slots, each once, in index order |
| Collector.InsertSorted | intro.js:255-257 | inserting into a list sorted by step keeps it sorted |
| Collector.SortByStep | intro.js:255-257 | the result is sorted by step and is a permutation of the input |
| Collector.SortKeepsIncreasing | intro.js:255-257 | a list whose step numbers already strictly increase comes back unchanged |
| Collector.NumberedPassInvariant | intro.js:209-219 | the first pass keeps: slot j holds number j+1, claimed keys are unique, and every slot holds a scanned element asking for that slot or for none |
| Collector.UnnumberedPassInvariant | intro.js:223-241 | the second pass keeps slot numbering, key uniqueness and the scanned-element shape |
| Collector.FilledAfterPut | intro.js:228-239 | filling the hole the second pass picks leaves every slot below it filled |
| Collector.UnnumberedTakesLowestHole | intro.js:223-239 | an element without a step attribute and with an unclaimed key, met while every slot below the search position is filled, ends up in the lowest hole of the whole array, numbered by that hole |
| Collector.UnnumberedPassSplit | intro.js:224-241 | the second pass over a concatenation is the pass over the second part, started from the state the first part leaves |
| Collector.UnnumberedPrefixFilled | intro.js:223-239 | every slot below the search position is filled in every state the second pass reaches, starting from position 0 |
| Collector.UnnumberedFillsLowestHole | intro.js:223-241 | in any declarative scan, an element without a step attribute whose key is unclaimed when the second pass reaches it takes the lowest hole left at that moment, keeps it through the rest of the pass, and is numbered by it |
| Collector.DeclarativeSlotsInvariant | intro.js:209-241 | after both passes: slot numbering, unique keys, scanned elements only |
| Collector.CompactIncreasing | intro.js:245-251 | compacting well-numbered slots gives strictly increasing step numbers above the base |
| Collector.CompactKeysDistinct | intro.js:245-251 | compacting keeps non-empty keys pairwise distinct |
| Collector.DeclarativeOrderedIsCompact | intro.js:245-257 | on declarative items the sort is the identity; the items are exactly the filled slots, with increasing numbers and unique keys |
| Collector.DeclarativeItemsOrderedAndUnique | intro.js:209-274 | a non-empty scan succeeds; its items' step numbers are positive and strictly increasing; no two items share a non-empty data-intro-key |
| Collector.Augment | intro.js:261-274 | adding metadata keeps each item's step, target and mobile flag at its index |
| Collector.Derive | intro.js:259-274 | the metadata of one item; Collector.LabelFallbacks and Collector.IntroFallbacks state the fallback order of each field, and Collector.Augment that step, target and mobile flag are kept |
| Collector.AugmentKeepsOrder | intro.js:261-274 | adding metadata keeps the increasing step numbers and the unique keys |
| Collector.EmptyScanFails | intro.js:201-206 | a scan that finds no element makes collection fail |
| Collector.NonPositiveStepDropped | intro.js:209-241 | an element whose step attribute is present but not a positive number is collected by neither pass |
| Collector.RepeatedNumberOverwrites | intro.js:209-219 | an element asking for n, whose non-empty key no earlier numbered element has, and with no later element asking for n, is collected with step n; no earlier element asking for n is collected |
| Collector.LastClaimantCollected | intro.js:209-252 | the last element asking for n, whose non-empty key no earlier numbered element has, is among the collected items with step n |
| Collector.OverwrittenNotCollected | intro.js:209-252 | an earlier element asking for the same number as that last claimant is not among the collected items |
| Collector.OverwrittenNotPlaced | intro.js:209-241 | after both passes no slot holds such an overwritten element |
| Collector.CollectedFromSlots | intro.js:245-274 | every item a non-empty scan collects shows the target and step number of a filled slot |
| Collector.LastClaimantHoldsSlot | intro.js:209-241 | after both passes, slot n-1 holds the last element asking for n, when no earlier numbered element has its non-empty key |
| Collector.UnclaimedAfter | intro.js:209-219 | a key that no numbered element of a prefix has is still unclaimed after the first pass over that prefix |
| Collector.NumberedPassClaims | intro.js:209-219 | after the first pass the claimed keys include the earlier ones and the non-empty key of every numbered element visited, whether or not that element kept its slot |
| Collector.NumberedPassClaimsOnly | intro.js:209-219 | the first pass claims no key but those of the numbered elements it visits |
| Collector.NumberedPassSkipsClaimed | intro.js:209-219 | the first pass never places an element whose non-empty key is already claimed |
| Collector.NumberedPassSkipsAbsent | intro.js:209-219 | the first pass places only numbered elements of its scan |
| Collector.UnnumberedPassSkipsClaimed | intro.js:223-241 | the second pass never places an element whose non-empty key is already claimed |
| Collector.UnnumberedPassSkipsStepped | intro.js:223-241 | the second pass never places an element that has a step attribute |
| Collector.UnnumberedPassLaterLoses | intro.js:223-241 | once the second pass has visited an unnumbered element with a non-empty key, no element with that key not met before is placed |
| Collector.FirstPassClaimWins | intro.js:209-219 | a numbered element's non-empty key shuts every element met after it with that key out of the first pass |
| Collector.LaterClaimantNotPlaced | intro.js:209-241 | after both passes, no slot holds an element that comes after the claimant of its key in claim order |
| Collector.FirstClaimWins | intro.js:209-241 | claim order is the numbered elements in page order, then the unnumbered ones in page order; an element later in that order than an element with the same non-empty key is not collected, even when that earlier element was itself overwritten |
| Collector.LabelFallbacks | intro.js:261-273 | skip label: the tour's skip label except on the last item, which gets the done label; every label and the position: a non-empty attribute beats the default, and the item's own property beats both; tooltip and highlight class: the item's own class, else the attribute (no default) |
| Collector.DeclarativeItemsHaveNoOverrides | intro.js:209-241 | declarative items are page elements with no own properties and no mobile flag |
| Collector.ScannedSlotsPlain | intro.js:214-239 | every item the passes store is a plain page element |
| Collector.ProgrammaticPassFacts | intro.js:150-196 | the loop numbers kept descriptors count+1 in order; a floating item gets position "floating"; only displayed targets are kept; every displayed element is kept |
| Collector.ProgrammaticPass | intro.js:150-196 | the programmatic loop; Collector.ProgrammaticPassFacts and Collector.ProgrammaticItems state its numbering, the floating rule and the display filter |
| Collector.Collect | intro.js:132-277 | the items a tour gets: Collector.EmptyScanFails, DeclarativeItemsOrderedAndUnique, FirstClaimWins, RepeatedNumberOverwrites, CollectedFromSlots and ProgrammaticItems state the declarative and programmatic results |
| Collector.ProgrammaticItems | intro.js:150-196 | programmatic collection succeeds, numbers the items 1, 2, 3, ..., keeps every displayed element and no more items than descriptors, and positions floating items "floating" |
| Collector.GapFillingExample | intro.js:209-252 | unnumbered, "2", unnumbered gives steps 1, 2, 3 with the numbered element in the middle |
| Navigation.SkipForward | intro.js:436-438 | the forward skip loop stops at the first index from t on that is not bypassed, or at the end |
| Navigation.SkipBackward | intro.js:484-490 | the backward skip loop stops at the last index at or before p that is not bypassed, or at -1 |
| Navigation.CompletionsAppend | intro.js:440-448 | completion events of concatenated traces add up |
| Navigation.ExitIntro | intro.js:507-582 | the corrected exit: exit without an overlay does nothing; otherwise it ends with teardown, the overlay off and the index parked at 0, and fires nothing but hide and teardown; items and direction are kept |
| Navigation.ExitIntroAsWritten | intro.js:507-519 | exit as written throws exactly when the overlay is up and the index names no item; otherwise it agrees with the corrected exit |
| Navigation.ExitIdempotent | intro.js:511-514 | once the overlay is gone from the page, a second exit does nothing, so exiting twice is exiting once |
| Navigation.StopIsUnique | intro.js:436-438 | a forward move has one stopping index |
| Navigation.Advance | intro.js:436-457 | running past the last item fires exactly one completion |
| Navigation.NextStep | intro.js:425-457 | with the corrected exit: next keeps the items and sets direction forward; it throws exactly for a NaN index or a negative target; it renders only existing, not-bypassed steps |
| Navigation.NextStepSpec | intro.js:425-457 | with the corrected exit: next shows the first not-bypassed index from the target with before-change then render; past the end it fires one completion with that index and exits |
| Navigation.NextStepAsWritten | intro.js:425-448 | next as written agrees with the corrected next except when, with the overlay up, the move runs past the last item; then it fires the completion with that index and throws in exit, leaving the overlay up and the index past the end |
| Navigation.CompletionFaultsAsWritten | intro.js:440-448 | completing a one-step tour as written throws in exit, leaving the overlay up and the index at 1 |
| Navigation.CompletionExitsCleanly | intro.js:440-448 | with the corrected exit, completing from the last step gives the completion and then teardown, with no hide callback because the exit sees the index past the end; the overlay is off and the index is 0 |
| Navigation.LastMoveCompletes | intro.js:440-448 | with the corrected exit, next from the last step completes once and exits |
| Navigation.PreviousStep | intro.js:466-498 | previous refuses at index 0 or at a checkpoint; it throws on an undefined/NaN index or one naming no item; otherwise it lands on the nearest earlier not-bypassed step, or refuses at -1 after running off the front |
| Navigation.GoToStep | intro.js:391-397 | with the corrected exit: go-to-step throws exactly for n ≤ 0; with nothing bypassed it shows index n-1; past the end it completes and exits |
| Navigation.FirstWithStep | intro.js:407-415 | the first index whose item carries the number, or none |
| Navigation.FirstWithStepIsFirst | intro.js:407-415 | the first index carrying the number is the one found |
| Navigation.GoToStepNumber | intro.js:405-418 | with the corrected exit: no item with the number: nothing happens; otherwise the first such item is shown when it is not bypassed; it never throws |
| Navigation.Start | intro.js:277-282 | the intended start, from an undefined index and with the corrected exit: it shows index 0 when nothing is bypassed; an empty tour completes at once |
| Navigation.StartAsWritten | intro.js:1700-1702 | start as written moves on from the instance's index: from undefined it agrees with the intended start whenever some step is shown; from index 0 (after an exit) with two or more steps and nothing bypassed it opens on index 1; an empty tour throws |
| Navigation.RestartSkipsFirstStep | intro.js:430-433 | starting an instance again after an exit, which left the index at 0, opens on the second step |
| Navigation.RestartOfSingleStepFaults | intro.js:440-448 | starting a one-step tour again after an exit runs past its only item and throws in exit, leaving the overlay up |
| Navigation.PreviousThenNext | intro.js:425-498 | previous then next from a middle step returns to it |
| Navigation.NextThenPrevious | intro.js:425-498 | next then previous returns to the step, when the next step is no checkpoint |
| Navigation.StepWithin | intro.js:436-457 | a move onto a not-bypassed step changes only the index and the direction |
| Navigation.RunNextWithin | intro.js:425-457 | k moves within the items advance the index by k and complete nothing |
| Navigation.NextRunsToCompletionOnce | intro.js:425-457 | with the corrected exit, as many nexts as items, from the first step, complete exactly once and leave the tour exited at 0 |
| Navigation.MobileSkipBothWays | intro.js:436-438 | a bypassed step is passed over both forward and back |
| Placement.IndexOf | intro.js:835-836 | indexOf gives -1 iff absent; otherwise the first position holding the entry |
| Placement.RemoveEntry | intro.js:834-838 | an absent entry leaves the list unchanged; no new entries appear |
| Placement.RemoveEntryCount | intro.js:834-838 | exactly one copy of the entry leaves and the rest of the contents stays |
| Placement.RemoveEntrySplices | intro.js:834-838 | the list is spliced at indexOf |
| Placement.RemoveAfterPrefix | intro.js:834-838 | with no copy in front, the copy between two parts is the one removed |
| Placement.RemoveEntryKeepsLaterCopy | intro.js:834-838 | only the first copy goes |
| Placement.Eliminated | intro.js:786-811 | the eliminated sides are exactly the four sides whose test fails |
| Placement.Survivors | intro.js:814-817 | the entries outside a set, in list order |
| Placement.SurvivorsHead | intro.js:814-817 | the first survivor is the first entry outside the set |
| Placement.RemoveFromSurvivors | intro.js:786-811 | on a list without repeats, removing one entry from the survivors is adding it to the eliminated set |
| Placement.Surviving | intro.js:786-811 | the elimination only keeps sides from the precedence list |
| Placement.DetermineAutoPosition | intro.js:772-826 | the choice is a listed side or "floating" |
| Placement.SurvivingSideBySide | intro.js:786-811 | the source's nested tests are the four sides checked one by one |
| Placement.EliminateStep | intro.js:786-811 | one elimination step on survivors adds the side to the eliminated set when it is blocked |
| Placement.SurvivingIsFilter | intro.js:786-811 | on a list without repeats, the elimination keeps exactly the unblocked sides, in order |
| Placement.AutoPositionChoice | intro.js:772-826 | on a precedence list without repeats: a requested, listed, unblocked side wins; otherwise the first listed unblocked side; "floating" when all are blocked; any non-floating choice is unblocked |
| Placement.EliminatedIsBlocked | intro.js:786-811 | a side name is eliminated iff it is blocked |
| Placement.RepeatedSideSurvives | intro.js:774-838 | with a side listed twice, one copy survives and is chosen though blocked |
| Placement.CornerTargetGoesLeft | intro.js:786-826 | the corner example chooses "left" |
| Placement.ResolvePosition | intro.js:653-658 | floating stays floating; without "auto" on the step or the tour the step's side is kept; an "auto" step resolves to a listed side or floating |
| Placement.Minus | intro.js:672 | "-" plus a non-negative number is that number negated; for a negative number it is no valid CSS length and the property stays unset |
| Placement.PlaceTooltipAsWritten | intro.js:668-760 | the table as written agrees with the corrected one on every side but "right-bottom-aligned" |
| Placement.PlaceTooltip | intro.js:668-760 | the arrow is hidden exactly for "floating" |
| Placement.ArrowFacesElement | intro.js:668-760 | every side's arrow leaves the tooltip on the edge that faces the element |
| Placement.Gaps | intro.js:668-760 | a tooltip above ends 10px less offsetY above the element; below starts 10px plus offsetY under it; right starts 20px plus offsetX past it; left ends 20px less offsetX before it |
| Placement.FlipAnchorsBottom | intro.js:680-711 | on right/left sides the arrow moves to the bottom iff the tooltip would pass the window's bottom; then the tooltip's bottom lies 20px plus offsetY below the element's top edge plus its height, unless the shift is negative, when the top keeps its earlier value |
| Placement.RightBottomIgnoresOffsetY | intro.js:691-720 | as written, "right-bottom-aligned" ignores offsetY while "left-bottom-aligned" follows it |
| Placement.BottomAlignedFollowOffsetY | intro.js:691-720 | both bottom-aligned sides move the tooltip's bottom by offsetY |
| Placement.HelperLayerPosition | intro.js:847-865 | the helper layer has the element's centre and is wider and taller by the padding; a floating step gets no padding |
| Placement.HelperLayerCovers | intro.js:847-865 | with a non-negative padding the helper layer covers the element |
| Display.Progress | intro.js:1631-1635 | undefined (division by zero) iff there are no items; otherwise percent × count = (index + 1) × 100 |
| Display.ProgressBounds | intro.js:1631-1635 | a shown step gives a share in (0, 100], and the last step gives exactly 100 |
| Display.ProgressExamples | intro.js:1631-1635 | the second of four steps is at 50% and the fourth at 100% |
| Display.ProgressIncreasing | intro.js:1631-1635 | a later step gives a larger share |
| Display.CounterSkipsAgrees | intro.js:954 | the counters' bypass test, which lacks the `!== false` check, agrees with the navigation loops' test |
| Display.SkippedCountAppend | intro.js:969-982 | bypassed counts of concatenated lists add up |
| Display.NumberOfElements | intro.js:969-982 | the total is the item count less the bypassed items, between 0 and the count |
| Display.ActiveStepNumberAsWritten | intro.js:949-960 | the counter as written never exceeds the number it is given |
| Display.ShrinkingBoundOvercounts | intro.js:949-960 | four bypassed items before a shown one: the label says 3 while the total is 1 |
| Display.GappedStepNumberFaults | intro.js:1176 | numbers 1 and 5: showing the second reads a third item and throws |
| Display.ActiveStepNumber | intro.js:949-960 | the corrected counter for index i lies between 1 and i + 1 |
| Display.ActiveWithinTotal | intro.js:949-982 | a shown item's counter never exceeds the total, and the last shown item's equals it |
| Display.AllSkipped | intro.js:969-982 | when every item is bypassed, all of them are counted |
| Display.ActiveCountsUp | intro.js:949-960 | the next shown step's counter is one more than the current one |
| Display.AsWrittenAgreesWithoutSkipping | intro.js:949-960 | with nothing bypassed, the counter as written returns its argument |
| Display.PhaseOf | intro.js:1327-1371 | first-not-last, last, only and middle, each as an exact condition on index and count |
| Display.Buttons | intro.js:1315-1371 | next is hidden iff last or only; prev is hidden iff first, only or at a checkpoint; prev leaves the tab order iff first or only; next iff hidden; every branch shows the skip label |
| Display.ButtonsMatchNavigation | intro.js:1319-1371 | prev is hidden iff previous would refuse without moving; next is hidden iff on the last index |
| Display.HiddenPrevKeepsTabStop | intro.js:1361-1365 | at a middle checkpoint prev is hidden but keeps its tab stop |
| Display.RolesOf | intro.js:899 | `[].concat(activeRoles)` has at least one entry unless a list is given |
| Display.LeadingRoles | intro.js:910 | the loop visits the roles before the first falsy one |
| Display.ServedAppend | intro.js:910-917 | the served texts of concatenated role lists are the concatenated served texts, so texts keep role order |
| Display.ServedOne | intro.js:911-916 | one role gives its own text when it has one and nothing otherwise; with ServedAppend, the served texts are the non-empty role texts in role order |
| Display.ServedMembers | intro.js:910-917 | a text is served exactly when it is non-empty and some role has it as its own text |
| Display.JoinIsTemplatedJoin | intro.js:902-938 | the rendering is the default template mapped over the messages (the separator before every message but the first) and the results joined with newlines |
| Display.RenderIntroText | intro.js:895-939 | an empty intro is an error; when every role is non-empty and has its own text, the result is those texts joined; otherwise the texts of the roles before the first falsy one, then the default text, joined; with no default text that case is an error, exactly for an intro keyed by role |
| Display.NoRolesShowDefault | intro.js:920-935 | with no roles, the default text is shown alone |
| Display.EveryRoleServed | intro.js:910-921 | the default is left out iff every configured role is non-empty and has its own text |
| Display.RoleExample | intro.js:895-939 | two roles with one served: its text, a separator, then the default; one served role: its text alone |
| Display.EmptyRoleListRendersNothing | intro.js:920 | an empty role list renders the empty text |

## Left out

- The DOM: querying elements, creating and removing layers, CSS classes on page elements, focus, scroll, and the fade-out timer of `_exitIntro`. `Navigation.Event` records only the callbacks, the render of a step and one teardown event.
- Keyboard, click and resize listeners, and `_onSkipButtonHit`. They only call the modelled transitions.
- `_cloneObject`. Descriptors are immutable values here.
- The CSS-selector lookup of programmatic elements, and the `innerHTML` unwrapping of an intro object. A descriptor carries its resolved element and its own intro.
- `getComputedStyle(...).display`. It is the element's `displayed` flag.
- The markup `_renderIntroText` produces for a custom `textTemplateCallback`. Only the default template is modelled.
- The `if (0)` branch of the floating case, and the floating margins (`-width/2`, `-height/2`). The floating row records only the 50% offsets and the hidden arrow.
- The tooltip, overlay and helper CSS classes of `_placeTooltip`, and the `first-tooltip`/`last-tooltip` classes.
- `hasOwnProperty` checks and inherited properties in `_mergeOptions`. Property bags are maps.
- Display.RenderIntroText: roles are looked up in a map, so only listed roles are served. In the source, `intro[role]` (intro.js:911) is a JavaScript property read.
  - On a plain-string intro, a role such as "length" or a digit serves that string property. Here a plain string serves no role.
  - On a role-keyed intro, a role such as "constructor" serves the member inherited from Object.prototype. Here it serves nothing.
  - Display.RoleText is that map lookup.
- Collector.IntroFallbacks: the text dictionary is a map, so only listed keys are found. The source tests `key in this._textData` (intro.js:120), which also finds names inherited from Object.prototype.
  - Example: `data-intro-key="constructor"` with the default empty dictionary (intro.js:44). The source takes the inherited `Object` function as the intro, and with no active roles `_renderIntroText` throws "no DEFAULT intro text" (intro.js:923-935).
  - The model falls back to `data-intro-text`. Collector.GetIntroText is that map lookup.
- Collector.ParseInt: Unicode white space beyond the listed characters, and numbers beyond 2^53. Dafny integers are unbounded.
- `_goToStep`/`_goToStepNumber` before any items exist (`_introItems` undefined). The model always has an item list.
- The early returns of `_placeTooltip` (intro.js:615) and `_setHelperLayerPosition` (intro.js:850) when the index names no item. Both are modelled on the shown item's data, which is passed in.
- The attribute name `data-intro-nextlebel`. This misspelling in the source only changes which attribute `Attributes.nextLabel` is read from.
- Display.ActiveStepNumber: stated for an index into the items. The as-written counter, called with the item's step number, is modelled separately.
- Navigation.NextStep: the before-change callback receives the item's element. The trace records the index instead.
- Navigation.NextStep: completion goes through the corrected exit; as written it throws (first row of Findings), which Navigation.NextStepAsWritten states.
- Navigation.NextStep: a render that throws is recorded as a plain `Render` with status `Done`. This covers an empty intro (intro.js:896-898) and gapped step numbers (intro.js:1176).
- Navigation.NextStepSpec: completion goes through the corrected exit; as written it throws (first row of Findings).
- Navigation.LastMoveCompletes: completion goes through the corrected exit; as written it throws (first row of Findings).
- Navigation.NextRunsToCompletionOnce: completion goes through the corrected exit; as written the last move throws (first row of Findings).
- Navigation.GoToStep: completion goes through the corrected exit, and a render that throws is not modelled, as for Navigation.NextStep.
- Navigation.GoToStepNumber: completion goes through the corrected exit, and a render that throws is not modelled, as for Navigation.NextStep.
- Navigation.Start: the intended start from an undefined index. start() as written moves on from whatever index the instance holds, which Navigation.StartAsWritten states (last row of Findings).
- Navigation.ExitIdempotent: holds once the overlay is gone from the page. With a non-zero overlayOpacity (default 0.8, intro.js:92) the overlay stays for 500 ms after an exit (intro.js:522-531). A second exit in that window, such as a second overlay click, finds it and runs again, calling the hide callback of items[0].
- Display.Progress: exact rational arithmetic. The source divides and multiplies doubles, so for index 0 of 3 the rounded share times 3 is not exactly 100.
- Collector.Put: any natural index is a slot. JavaScript array indices stop at 2^32 - 2. A step of 4294967296 or more is therefore stored as a plain property, which neither the array length nor the compaction loop sees, so the source drops that element; the model collects it.
- Collector.ProgrammaticPass: the `skipMissingElements` callback receives the index and the raw descriptor. The source passes `{step: i, item}`, where item is the clone with `step` already set and the intro unwrapped (intro.js:153-175).

## Findings

| source | as written | input that shows it | evidently intended | confidence | as-written member | corrected member |
|---|---|---|---|---|---|---|
| intro.js:448, 517-518 | on completion `_nextStep` calls `_exitIntro` with the index one past the last item; `_exitIntro` reads `items[index].onHide` and throws a TypeError | a one-step tour with the overlay up: next from index 0 | the hide callback of the last shown step runs (or none), then teardown and the index reset to 0 | high, not executed | Navigation.CompletionFaultsAsWritten | Navigation.CompletionExitsCleanly |
| intro.js:953-957 | the loop bound `stepNumber - 1` shrinks each time `stepNumber` is decremented, so later bypassed items are not counted | five items, the first four flagged `skipOnMobile`, threshold 500, width 320: the label says 3, the total says 1 | the number of shown items up to and including the current one | high, not executed | Display.ShrinkingBoundOvercounts | Display.ActiveWithinTotal |
| intro.js:693 | "right-bottom-aligned" sets `bottom` from `offsetX` | offsetX 0, offsetY 15: bottom is 0px, while "left-bottom-aligned" gives -15px | `bottom` moves by `offsetY`, as on "left-bottom-aligned" | medium, not executed | Placement.RightBottomIgnoresOffsetY | Placement.BottomAlignedFollowOffsetY |
| intro.js:1176 | `_getActiveStepNumber` gets the item's declared step number, not its position; with gaps in the numbering it reads past the list and throws | declarative items numbered 1 and 5, showing the second | the position of the shown item, index + 1, as the resize handler passes at intro.js:335 | high, not executed | Display.GappedStepNumberFaults | Display.ActiveStepNumber |
| intro.js:430-433, 581 | `_exitIntro` leaves the index at 0 and `start()` (intro.js:1700-1702) runs `_nextStep`, which adds one to a defined index | the same instance started again after an exit, with two or more steps and nothing bypassed: the tour opens on index 1; a one-step tour throws in the exit | every start opens on the first step that is not bypassed, as on a fresh instance | high, not executed | Navigation.RestartSkipsFirstStep | Navigation.Start |
