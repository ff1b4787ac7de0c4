# Ocean-currents dashboard: the stateful and computed parts

A Dafny model of the small amount of logic inside the dashboard's React
components. Most of the UI is fixed markup. Five components carry logic:

- **CursorWave** (`cursor_wave.dfy`). The ocean cursor glow keeps the last
  pointer position, an `isMoving` flag and a buffer of wave rings. A pointer
  sample more than 5 px from the recorded position marks the pointer as
  moving. A sample more than 15 px away appends a wave and keeps only the
  five newest older waves. A sweep every 100 ms keeps only the waves younger than 1500 ms.
  The component is a class (`CursorWaveState`). Its handlers are methods
  proved against the pure list functions `Spawn` and `Sweep`, and the lemmas
  are stated about those functions.
- **WaveCursor** (`wave_cursor.dfy`). The custom cursor has a visibility
  flag, a hover flag and a list of click ripples. Each ripple gets an id from
  a counter and is removed by a deferred callback keyed on that id. The hover
  flag selects ring and dot sizes. The component is a class
  (`WaveCursorState`) whose invariant is that ripple ids strictly increase
  and stay below the counter.
- **AssetAllocation** (`asset_allocation.dfy`). The donut chart is drawn as
  stroke-dash segments. Each segment starts at the prefix sum of the earlier
  allocations, scaled by 2.51, and is as long as its own allocation times
  2.51. The asset rows show a two-letter badge and a signed change.
- **MetricCard** (`metric_card.dfy`). The sign of the change is classified
  as positive, neutral or negative. The class picks the badge style, icon,
  glow and label. The accent palette's glow is reused, with its alpha
  replaced, as the value's text shadow.
- **TransactionList** (`transaction_list.dfy`). A row's type string picks
  its icon and styles. The type and the row's optional fields decide its
  main text, subtitle and value cell.

`wrappers.dfy` holds the `Option` type used for fields a record may leave
undefined.

Event callbacks are modelled as explicit method calls. The clock reading
`Date.now()` becomes a `now` parameter in whole milliseconds, and the
`Math.random()` draw in a wave's id becomes a `fraction` parameter in [0, 1). The DOM test "is the target inside a
button, link, input or role=button element" becomes a boolean parameter.
A JavaScript number printed into a string is passed in as its text
(`numberText`), because number formatting is not modelled.

## Model

| member | source | states |
|---|---|---|
| CursorWave.SquaredDisplacement | src/components/ocean/CursorWave.tsx:20-22 | the squared displacement is non-negative and is zero for a sample at the recorded position |
| CursorWave.SpeedExceedsIffSquareExceeds | src/components/ocean/CursorWave.tsx:22-28 | for a non-negative speed and threshold, speed > k iff speed² > k², so comparing dx²+dy² with 25 and 225 is the same as comparing the square root with 5 and 15 |
| CursorWave.SpawningSampleMoves | src/components/ocean/CursorWave.tsx:25-28 | every sample that spawns a wave (> 15) also sets the moving flag (> 5); a displacement of 10 moves without spawning |
| CursorWave.LastN | src/components/ocean/CursorWave.tsx:34 | `slice(-n)` yields min(n, length) elements for n ≥ 1 and the whole input for n = 0 (as `slice(-0)` does), always a suffix of the input |
| CursorWave.Spawn | src/components/ocean/CursorWave.tsx:34 | after a spawn the buffer holds 1 to 6 waves, the new wave is last, and the others are the last min(5, old length) old waves in their original order |
| CursorWave.SpawnBelowBoundKeepsAll | src/components/ocean/CursorWave.tsx:34 | a spawn on a buffer of at most five waves keeps all of them and appends the new one |
| CursorWave.SpawnOnFullDropsOldest | src/components/ocean/CursorWave.tsx:34 | a spawn on a buffer of five or more waves keeps exactly its last five and appends the new one |
| CursorWave.SpawnKeepsNewest | src/components/ocean/CursorWave.tsx:34 | one spawn leaves the last six waves of the old buffer extended by the new wave |
| CursorWave.SpawnAll | src/components/ocean/CursorWave.tsx:28-35 | a run of no spawns leaves the buffer as it was; after one or more spawns the buffer holds 1 to 6 waves and ends with the last wave spawned |
| CursorWave.LastNOfExtension | src/components/ocean/CursorWave.tsx:34 | keeping the last n, extending, then keeping the last n again is the same as keeping the last n once |
| CursorWave.SpawnAllKeepsNewest | src/components/ocean/CursorWave.tsx:28-35 | after any run of spawns the buffer is exactly the six newest waves in spawn order |
| CursorWave.SevenSpawnsEvictFirst | src/components/ocean/CursorWave.tsx:28-49 | seven spawns at 0, 100, ..., 600 ms leave the last six, so the first is evicted by the bound although a sweep at 600 ms would keep it |
| CursorWave.WaveId | src/components/ocean/CursorWave.tsx:30 | in exact arithmetic, a wave's id `Date.now() + Math.random()` lies in [now, now + 1) |
| CursorWave.AliveAtLifetime | src/components/ocean/CursorWave.tsx:30-46 | in exact arithmetic, a wave spawned at t is kept by every sweep before t + 1500, kept at exactly t + 1500 iff its random fraction is positive, and dropped after t + 1500 |
| CursorWave.Sweep | src/components/ocean/CursorWave.tsx:46 | the sweep never lengthens the buffer and keeps only waves that were there and are younger than 1500 ms |
| CursorWave.SweepMembership | src/components/ocean/CursorWave.tsx:46 | a wave is in the swept buffer iff it was in the buffer and now − id < 1500 |
| CursorWave.SweepAppend | src/components/ocean/CursorWave.tsx:46 | the sweep distributes over concatenation, so survivors keep their relative order |
| CursorWave.SweepKeepsAllAlive | src/components/ocean/CursorWave.tsx:46 | a sweep that finds every wave alive changes nothing |
| CursorWave.SweepIdempotent | src/components/ocean/CursorWave.tsx:46 | sweeping twice at the same time equals sweeping once |
| CursorWave.SweepOfOrderedIsSuffix | src/components/ocean/CursorWave.tsx:30-46 | on a buffer whose ids never decrease the sweep removes a prefix of expired waves and keeps the newest |
| CursorWave.SpawnKeepsIdsNonDecreasing | src/components/ocean/CursorWave.tsx:29-34 | a spawn whose id is at least every id in the buffer keeps the buffer's ids non-decreasing |
| CursorWave.LaterSpawnHasLargestId | src/components/ocean/CursorWave.tsx:29-34 | a wave spawned at a clock reading above every id in the buffer has the largest id, whatever its random fraction |
| CursorWave.CursorWaveState.constructor | src/components/ocean/CursorWave.tsx:11-13 | the component starts with no waves, position (0, 0) and not moving |
| CursorWave.CursorWaveState.MouseMove | src/components/ocean/CursorWave.tsx:15-36 | every sample records its position; the moving flag is set iff dx²+dy² > 25; the buffer becomes Spawn(old buffer, wave at the sample with id now + fraction) iff dx²+dy² > 225 and is unchanged otherwise; the buffer stays within six |
| CursorWave.CursorWaveState.SweepWaves | src/components/ocean/CursorWave.tsx:44-49 | the interval callback replaces the buffer with its sweep and touches nothing else |
| WaveCursor.RemoveId | src/components/cursor/WaveCursor.tsx:61 | removal never lengthens the list (which ripples survive is stated by RemoveIdMembership) |
| WaveCursor.RemoveIdMembership | src/components/cursor/WaveCursor.tsx:61 | a ripple survives iff it was present and has another id |
| WaveCursor.RemoveAbsentIdIsNoop | src/components/cursor/WaveCursor.tsx:61 | removing an id no ripple carries leaves the list unchanged |
| WaveCursor.RemoveIdAppend | src/components/cursor/WaveCursor.tsx:61 | removal distributes over concatenation, so survivors keep their order |
| WaveCursor.RemoveIdDeletesExactlyOne | src/components/cursor/WaveCursor.tsx:55-61 | with increasing ids, removing the id at position k deletes exactly that ripple and keeps the rest in order |
| WaveCursor.RemoveIdKeepsIncreasing | src/components/cursor/WaveCursor.tsx:55-61 | removal keeps ids strictly increasing |
| WaveCursor.ClickThenExpireRestores | src/components/cursor/WaveCursor.tsx:54-62 | appending a ripple with a fresh id and then removing that id restores the list |
| WaveCursor.AfterHoverStart | src/components/cursor/WaveCursor.tsx:39-44 | mouse-over sets the hover flag on an interactive target and leaves it unchanged otherwise |
| WaveCursor.AfterHoverEnd | src/components/cursor/WaveCursor.tsx:46-51 | mouse-out clears the hover flag on a non-interactive target and leaves it unchanged otherwise |
| WaveCursor.CrossAsWritten | src/components/cursor/WaveCursor.tsx:39-51 | after mouse-out on the element left and mouse-over on the element entered, the flag is set whenever the element entered is interactive, and equals that element's interactivity whenever the pointer was not hovering or the element left was plain |
| WaveCursor.CrossAsWrittenKeepsStaleHover | src/components/cursor/WaveCursor.tsx:39-51 | crossing between elements leaves the flag wrong iff the pointer was hovering and leaves an interactive element for a plain one |
| WaveCursor.AfterHoverEndIntended | src/components/cursor/WaveCursor.tsx:46-51 | the intended mouse-out handler always clears the flag |
| WaveCursor.CrossIntendedTracksTarget | src/components/cursor/WaveCursor.tsx:39-51 | with the intended handler the flag after any crossing says whether the entered element is interactive |
| WaveCursor.LookOf | src/components/cursor/WaveCursor.tsx:95-174 | the dot is always smaller than the ring; the border is 2 iff hovering; particles show iff visible; every opacity is zero iff not visible |
| WaveCursor.HoverEnlarges | src/components/cursor/WaveCursor.tsx:124-149 | the ring is 50 px when hovering and 32 px otherwise, the dot 10 px and 6 px, the border 1 when not hovering; hovering makes both larger, and visibility changes no size |
| WaveCursor.WaveCursorState.constructor | src/components/cursor/WaveCursor.tsx:5-11 | the cursor starts invisible, not hovering, with no ripples, counter 0 and position (−100, −100) |
| WaveCursor.WaveCursorState.Move | src/components/cursor/WaveCursor.tsx:30-34 | a move records the position and makes the cursor visible, and touches neither hover nor ripples |
| WaveCursor.WaveCursorState.Enter | src/components/cursor/WaveCursor.tsx:36 | enter makes the cursor visible and changes nothing else |
| WaveCursor.WaveCursorState.Leave | src/components/cursor/WaveCursor.tsx:37 | leave hides the cursor and changes nothing else |
| WaveCursor.WaveCursorState.HoverStart | src/components/cursor/WaveCursor.tsx:39-44 | the hover flag follows AfterHoverStart; visibility, position and ripples are unchanged |
| WaveCursor.WaveCursorState.HoverEnd | src/components/cursor/WaveCursor.tsx:46-51 | the hover flag follows AfterHoverEnd; visibility, position and ripples are unchanged |
| WaveCursor.WaveCursorState.Click | src/components/cursor/WaveCursor.tsx:53-59 | a click appends exactly one ripple at the click whose id is the old counter, the counter rises by one, and ids stay increasing and below the counter |
| WaveCursor.WaveCursorState.Expire | src/components/cursor/WaveCursor.tsx:60-62 | the deferred removal deletes exactly the ripple with that id, keeps the others in order, is a no-op for an absent id, and keeps the invariant |
| AssetAllocation.TotalAllocation | src/components/dashboard/AssetAllocation.tsx:71-73 | the left fold of the allocations is non-negative when every allocation is |
| AssetAllocation.PreviousOffset | src/components/dashboard/AssetAllocation.tsx:71-73 | the offset before the first asset is 0, and no offset is negative when no allocation is |
| AssetAllocation.PreviousOffsetStep | src/components/dashboard/AssetAllocation.tsx:71-73 | previousOffset(0) = 0 and previousOffset(i+1) = previousOffset(i) + allocation(i) |
| AssetAllocation.PreviousOffsetMonotone | src/components/dashboard/AssetAllocation.tsx:71-73 | with non-negative allocations the offsets never decrease |
| AssetAllocation.PreviousOffsetOfAll | src/components/dashboard/AssetAllocation.tsx:71-73 | the offset after the last asset is the total allocation |
| AssetAllocation.SegmentAt | src/components/dashboard/AssetAllocation.tsx:84-85 | the gap after every dash is 251; with non-negative allocations totalling 100 each dash lies within units 0 to 251, so the gap hides the rest of the pattern and each asset draws one dash |
| AssetAllocation.SegmentIsProportional | src/components/dashboard/AssetAllocation.tsx:84-85 | a segment starts at previousOffset × 2.51 and ends at the next offset × 2.51 |
| AssetAllocation.SegmentsAreContiguous | src/components/dashboard/AssetAllocation.tsx:84-85 | each segment ends exactly where the next begins, with no gap or overlap |
| AssetAllocation.SegmentStartsAreOrdered | src/components/dashboard/AssetAllocation.tsx:84-85 | with non-negative allocations the segments start in list order around the circle |
| AssetAllocation.LastSegmentClosesCircle | src/components/dashboard/AssetAllocation.tsx:70-85 | when the allocations sum to 100 the first segment starts at 0 and the last ends at 251, the length the chart takes for the circle (2π·40 ≈ 251.33) |
| AssetAllocation.PortfolioFillsCircle | src/components/dashboard/AssetAllocation.tsx:4-41 | the portfolio's allocations are non-negative, sum to 100 (45+33+15+7), and its last segment ends at 251 |
| AssetAllocation.Badge | src/components/dashboard/AssetAllocation.tsx:128 | the badge is the first min(2, length) characters of the symbol |
| AssetAllocation.ChangeStyleOf | src/components/dashboard/AssetAllocation.tsx:139-140 | the "+" prefix and the emerald class are chosen iff change ≥ 0; otherwise no prefix and the destructive class |
| AssetAllocation.ChangeText | src/components/dashboard/AssetAllocation.tsx:140 | the change text is "+", the number and "%" for change ≥ 0, and the number and "%" otherwise |
| MetricCard.PaletteOf | src/components/dashboard/MetricCard.tsx:16-32 | the lookup is total over cyan, teal and bio, and every glow is an hsla colour at alpha 0.3 |
| MetricCard.AccentOrDefault | src/components/dashboard/MetricCard.tsx:40-42 | an omitted accent means cyan; a given accent is used as is |
| MetricCard.PalettesDistinct | src/components/dashboard/MetricCard.tsx:16-32 | distinct accents have distinct gradients, text classes and glows |
| MetricCard.ReplaceFirst | src/components/dashboard/MetricCard.tsx:110-112 | a pattern at the start is replaced by the replacement; otherwise the result is either the input unchanged or |input| − |pattern| + |replacement| long |
| MetricCard.ReplaceFirstSwapsOne | src/components/dashboard/MetricCard.tsx:110-112 | a replacement that changes the input swaps one occurrence of the pattern for the replacement and keeps the text before and after it |
| MetricCard.ReplaceFirstAt | src/components/dashboard/MetricCard.tsx:110-112 | replacing the first occurrence of a pattern swaps exactly that occurrence and keeps the text around it |
| MetricCard.HslaReplaceAlpha | src/components/dashboard/MetricCard.tsx:110-112 | in an hsla colour at alpha 0.3 whose figures have no decimal point, replacing the first "0.3" gives the same colour at the new alpha |
| MetricCard.ShadowGlow | src/components/dashboard/MetricCard.tsx:110-112 | each text-shadow colour is the accent's hsla glow colour at the new alpha, for an alpha without `$` (the source passes 0.4 and 0.6) |
| MetricCard.TrendOf | src/components/dashboard/MetricCard.tsx:43-44 | exactly one of positive (> 0), neutral (= 0) and negative (< 0) holds for each change |
| MetricCard.TrendClass | src/components/dashboard/MetricCard.tsx:75-80 | the emerald, muted and destructive style strings are chosen iff the trend is positive, neutral and negative respectively |
| MetricCard.IconOf | src/components/dashboard/MetricCard.tsx:87-93 | TrendUp, Minus and TrendDown are chosen iff the trend is positive, neutral and negative respectively |
| MetricCard.TrendSelectsOneStyle | src/components/dashboard/MetricCard.tsx:75-93 | the class selects exactly one of three style strings and one of three icons, one-to-one; Minus iff neutral, TrendUp iff positive, TrendDown iff negative |
| MetricCard.PulseGlow | src/components/dashboard/MetricCard.tsx:86 | the pulse glow is never teal |
| MetricCard.PulseGlowIsBioIffPositive | src/components/dashboard/MetricCard.tsx:86 | the glow is bio iff change > 0, so neutral and negative both glow cyan |
| MetricCard.Label | src/components/dashboard/MetricCard.tsx:95 | the label is "0%" when neutral, "+" then the number then "%" when positive, and the number then "%" when negative |
| TransactionList.TypeIconOf | src/components/dashboard/TransactionList.tsx:54-65 | receive gives ArrowDown, send ArrowUp and swap Repeat, each iff; any other type gives no icon |
| TransactionList.TypeStylesOf | src/components/dashboard/TransactionList.tsx:67-98 | the lookup is total; the glow colour is bio iff receive, teal iff swap, cyan for send and every unknown type, and unknown types get the muted classes |
| TransactionList.StyleGlowMatchesPaletteIffKnown | src/components/dashboard/TransactionList.tsx:67-98 | a row's glow string equals the accent palette's glow for its glow colour iff its type is known |
| TransactionList.IconIffStyled | src/components/dashboard/TransactionList.tsx:54-98 | a row has an icon iff its style is not the muted default |
| TransactionList.KnownTypesDistinguished | src/components/dashboard/TransactionList.tsx:54-98 | distinct known types get distinct icons and distinct glow colours |
| TransactionList.Child | src/components/dashboard/TransactionList.tsx:162-170 | a field as a JSX child renders its value, and renders empty iff it is absent or the empty string |
| TransactionList.Interpolated | src/components/dashboard/TransactionList.tsx:173-178 | a field in a template literal renders its value when present, and differs from the JSX rendering iff it is absent (then it prints "undefined") |
| TransactionList.MainText | src/components/dashboard/TransactionList.tsx:162-170 | a swap row reads "amountFrom tokenFrom → amountTo tokenTo" and every other row reads "amount token"; a missing field renders empty |
| TransactionList.AmountClass | src/components/dashboard/TransactionList.tsx:167 | the amount is emerald iff the row is a receive |
| TransactionList.Subtitle | src/components/dashboard/TransactionList.tsx:173-178 | "Swapped via Uniswap" for swap, "From " + from for receive, and "To " + to for every other type; a missing address prints "undefined" |
| TransactionList.ValueCell | src/components/dashboard/TransactionList.tsx:184-186 | the value cell is rendered iff the row has a non-empty value, and then shows that value |
| TransactionList.UnknownTypeRendersLikeSend | src/components/dashboard/TransactionList.tsx:54-178 | an unknown type renders its texts exactly as a send row would, but gets no icon |
| TransactionList.TransactionRowsRender | src/components/dashboard/TransactionList.tsx:6-52 | every row in the list has a known type, the swap row is the only one without a value cell, and every receive/send row has the address its subtitle prints |

## Findings

| source | as written | input that shows it | evidently intended | confidence | as-written member | corrected member |
|---|---|---|---|---|---|---|
| src/components/cursor/WaveCursor.tsx:46-51 | mouse-out clears the hover flag only when the element left is NOT interactive | hovering a button, the pointer moves onto the plain page: mouse-out fires on the button (interactive, so the flag is kept), then mouse-over fires on the page (not interactive, so the flag is not set); the cursor stays enlarged | after moving onto an element, the flag tells whether that element is interactive | not executed; follows from the mouse-out-then-mouse-over event order | WaveCursor.CrossAsWrittenKeepsStaleHover | WaveCursor.CrossIntendedTracksTarget |

The class `WaveCursorState` keeps the handler as written, because it models
the component as it behaves. The corrected mouse-out handler is
`AfterHoverEndIntended`.

## Left out

- Spring followers: every `useSpring` follower in the wave cursor and the spring transition of the cursor-wave trail. They are integrated inside framer-motion, which is not part of this model, and are floating-point dynamics. The cursor position is kept as the raw target value.
- Timers and listeners: `setTimeout`, `setInterval` and the registration and removal of DOM listeners. Their callbacks are the methods `SweepWaves(now)` and `Expire(id)`, which may be called at any time. The 800 ms delay and the 100 ms period are therefore not enforced.
- React closure semantics: re-renders and the `useCallback` dependency list. Each sample is assumed to see the last recorded position, as if state updates applied at once.
- Id order within one millisecond: two spawns in the same millisecond get random fractions in either order, so a buffer in spawn order need not have non-decreasing ids. `SweepOfOrderedIsSuffix` covers only buffers whose ids never decrease, which `SpawnKeepsIdsNonDecreasing` and `LaterSpawnHasLargestId` establish for spawns in later milliseconds.
- Sweep clock: the filter at `CursorWave.tsx:46` reads `Date.now()` once per wave, while `Sweep` uses a single `now` for the whole pass.
- MetricCard.ReplaceFirst: treats the replacement as literal text. `String.prototype.replace` also expands `$&`, `$$`, `` $` `` and `$'` in the replacement; that is not modelled, so `ShadowGlow` requires an alpha without `$`.
- `Math.random`: the random sparkline heights of the metric card. The random fraction of a wave id is a parameter of `MouseMove`; which value it takes is not modelled.
- Strings are sequences of Unicode code points, while JavaScript strings are UTF-16 code units. `Badge` (`slice(0, 2)`) and the other string operations agree with the source only for text inside the Basic Multilingual Plane, as all the symbols and labels in the data are.
- Circle length: the chart takes 251 units as the length of a circle of radius 40, which is really 2π·40 ≈ 251.33. The model states the chart's own geometry, so "spans the circle" means spans 251 units; the thin 0.33-unit sliver the real ring leaves is not modelled.
- Floating point: coordinates, allocations, changes and wave ids are exact reals. IEEE rounding is not modelled, so for example 45 × 2.51 is exact here. A wave id `Date.now() + Math.random()` is a double near 2^40 that keeps only about 12 bits of the fraction. The t + 1500 boundary stated by `AliveAtLifetime` and the bound `id < now + 1` stated by `WaveId` are therefore exact only in the model: a fraction below 2^-13 rounds to an id equal to `now`, and one above 1 − 2^-13 rounds to `now + 1`. `NaN` is not modelled either; the source would classify a `NaN` change as negative.
- Square root: the model compares squared displacement with 25 and 225. `SpeedExceedsIffSquareExceeds` shows this is equivalent.
- DOM selector matching: `closest('button, a, input, [role="button"]')` is a boolean argument to the hover handlers.
- Number-to-string conversion: `${change}` in labels is a `numberText` parameter.
- Render geometry and animation timelines: pixel offsets such as `x - 16`, scale and opacity animations of the glow, transition timings, and the spring, keyframe and hover effects of all other components. `LookOf` covers the flag-dependent sizes and opacities of the wave cursor only.
- The other components (dashboard layout, navbar, sidebar, charts, balance and crypto cards, crypto and history tables, floating and animated icons, ocean background, liquid card, the page and the theme). They are markup over literal data, with single-field UI toggles at most.
- TransactionList.TypeStylesOf: states per case only the glow colour and, for unknown types, the muted classes. The exact `bg`, `text` and `glow` strings of the three known types are in the definition only.
