# Active-display follower for OBS — a Dafny model

The program watches which physical display holds the mouse pointer and, whenever that
display changes, retargets an OBS display-capture input to it and runs a studio-mode
transition. This project models its core and proves properties of the model:

- **Display detection** (`active_display.dfy`, module `ActiveDisplay`).
  - `parseXrandr` is modelled as a hand-written matcher for the `xrandr --query` line regular
    expression. It is proved sound and complete against a layout datatype whose text is the line,
    and the loop that pushes one display per matching line is proved against it.
  - `getDisplays` keeps the parse, or falls back to the exact full-HD `Display-0` display.
  - The text half of `getCursor` covers the `KEY=VALUE` lines of `xdotool getmouselocation --shell`.
    A later assignment wins, and `Number()` conversion applies.
  - `findDisplay` picks the first containing display, else the first main one, else the first.
  - `ActiveDisplayWatcher` is a class with `start`, one timer tick and `stop`. The
    `lastDisplayIndex` debounce is specified by a fold over the displays successive ticks
    resolve to.
- **Capture retargeting** (`window_capture.dfy`, module `WindowCapture`).
  - `coerceValue` gives a numeric field a number and any other field a string.
  - The display key is the first key of the settings object whose lower-cased form mentions
    `display`, `screen` or `monitor`.
  - `updateWindowCapture` reads the settings, then writes back exactly that one field as an
    overlay.
- **The change handler** (`app.dfy`, module `App`).
  - The value to target is the name, else the id, else the index.
  - Tasks go on a promise chain that runs them one after another, in arrival order. A failing
    task is caught and the chain goes on.
- **What the program sees of OBS** (`obs.dfy`, module `Obs`).
  - The inputs' settings are ordered key/value lists, and every request issued is recorded in the request trace.
  - Each request may be lost: a `delivered` flag.
  - `SetInputSettings` with `overlay: true` merges a one-key patch.
- **JavaScript semantics the code relies on** (`text.dfy`, module `Text`, and the generic folds
  in `base.dfy`, module `Base`).
  - The `\s`, `\S` and `\d` classes.
  - `trim`, and `split` on one character.
  - `Number()` on decimal integers, and `String(n)`.
  - ASCII `toLowerCase` and `includes`.
  - `Array.prototype.find`.
  - The push loop and the `Map.set` loop.
  - A promise chain (`Chain`), whose ordering lemmas are proved once for any step function.

External commands and the network are inputs of the model:
- the standard output of `xrandr` and `xdotool`, or the fact that the command failed (`ListingResult`, `CursorProbe`);
- for each OBS request, whether it gets through (`Links`, `delivered`).

Two behaviours of the code worth noting:
- A display geometry with zero width or height is accepted: the pattern is `\d+`, and nothing
  checks it.
- A name or id is used only when it is non-blank after trimming, not merely non-empty. The
  chosen value is then sent untrimmed.

## Model

| member | source | states |
|---|---|---|
| Text.Split | src/system/activeDisplay.ts:31 | `split` on one character always yields at least one part, and no part contains the separator |
| Text.JoinSplit | src/system/activeDisplay.ts:31 | joining the parts of a split with the separator gives back the original text |
| Text.SplitJoin | src/system/activeDisplay.ts:31 | splitting separator-free parts joined by the separator gives back the parts |
| Text.SplitNoSeparator | src/system/activeDisplay.ts:88 | text without the separator splits into just itself |
| Text.SplitAtSeparator | src/system/activeDisplay.ts:88 | the first part ends at the first separator, and the rest is the split of what follows |
| Text.Trim | src/system/activeDisplay.ts:85 | `trim` returns a slice with only whitespace cut on either side, and it neither starts nor ends with whitespace |
| Text.TrimNoop | src/system/activeDisplay.ts:85 | trimming leaves alone a string that neither starts nor ends with whitespace |
| Text.BlankIffAllSpace | src/app.ts:56-57 | `s.trim() !== ''` fails exactly when every character is JavaScript whitespace |
| Text.NonSpaceNotBlank | src/app.ts:56-57 | a string with some non-whitespace character passes `s.trim() !== ''` |
| Text.SpacesAreBlank | src/app.ts:56-57 | a string of whitespace only fails `s.trim() !== ''` |
| Text.NumberOfIntToString | src/obs/updateWindowCapture.ts:16-22 | `Number(String(i))` is `i` for every integer |
| Text.NotANumber | src/obs/updateWindowCapture.ts:16 | a trimmed string that starts with neither a digit nor a sign converts to NaN |
| Text.LowerFacts | src/obs/updateWindowCapture.ts:47 | after `toLowerCase` no upper-case ASCII letter is left, and every other character is kept |
| Text.ContainsIffOccurs | src/obs/updateWindowCapture.ts:48 | `includes` holds exactly when the substring occurs at some position |
| Text.ContainsFits | src/obs/updateWindowCapture.ts:48 | only a string at least as long as the substring includes it |
| ActiveDisplay.Run | src/system/activeDisplay.ts:35 | a greedy run of one character class: the run is all in the class, and what follows does not start with it |
| ActiveDisplay.RunOf | src/system/activeDisplay.ts:35 | a run followed by a character outside its class is exactly what the greedy run takes |
| ActiveDisplay.DigitsThen | src/system/activeDisplay.ts:35 | `\d+` then a literal: the digits are non-empty and the text is digits, terminator, rest |
| ActiveDisplay.DigitsThenOf | src/system/activeDisplay.ts:35 | every non-empty digit run followed by the terminator is recognised, and split back into the same parts |
| ActiveDisplay.ScanGeometry | src/system/activeDisplay.ts:35 | `(\d+)x(\d+)\+(\d+)\+(\d+)` accepts only the text of a well-formed geometry, greedy last group included |
| ActiveDisplay.ScanGeometryComplete | src/system/activeDisplay.ts:35 | every well-formed geometry's text is accepted and decomposed back into that geometry |
| ActiveDisplay.ScanPrimary | src/system/activeDisplay.ts:35 | `(primary\s+)?` takes the marker only with a non-empty whitespace run, and leaves the rest of the text |
| ActiveDisplay.ScanPrimaryMarked | src/system/activeDisplay.ts:35 | `primary`, whitespace, then a digit: the marker and its whitespace are taken |
| ActiveDisplay.ScanPrimaryUnmarked | src/system/activeDisplay.ts:35 | text starting with a digit has no marker and is left whole |
| ActiveDisplay.ScanPrimaryOf | src/system/activeDisplay.ts:35 | before a geometry, the optional marker is recognised exactly when present |
| ActiveDisplay.ScanHead | src/system/activeDisplay.ts:35 | `^(\S+)\s+connected` accepts only a non-empty name, a non-empty whitespace run and the literal |
| ActiveDisplay.ScanHeadOf | src/system/activeDisplay.ts:35 | every name, whitespace run and `connected` prefix is recognised and split back into its parts |
| ActiveDisplay.ScanTail | src/system/activeDisplay.ts:35 | what follows `connected` is accepted only as whitespace, an optional marker and a well-formed geometry |
| ActiveDisplay.ScanTailOf | src/system/activeDisplay.ts:35 | every such tail is accepted and split back into its parts |
| ActiveDisplay.ScanXrandrLine | src/system/activeDisplay.ts:34-35 | soundness: every accepted line is exactly the text of the well-formed layout returned |
| ActiveDisplay.ScanComplete | src/system/activeDisplay.ts:34-35 | completeness: every well-formed layout's line is accepted with exactly its capture groups |
| ActiveDisplay.MatchesWellFormed | src/system/activeDisplay.ts:33-36 | every match taken from the lines is a well-formed layout |
| ActiveDisplay.DisplaysOfAppend | src/system/activeDisplay.ts:38-47 | a pushed display is numbered after the displays already in the list |
| ActiveDisplay.XrandrDisplaysStep | src/system/activeDisplay.ts:33-49 | one more line extends the parse by that line's display (if it matches), numbered by the list length |
| ActiveDisplay.ParseXrandr | src/system/activeDisplay.ts:30-51 | the push loop over the split output returns the parse of those lines |
| ActiveDisplay.XrandrDisplayOfLine | src/system/activeDisplay.ts:37-47 | a matching line gives the display whose index counts the matches before it; geometry, `main`, name and id come from its groups |
| ActiveDisplay.XrandrDisplaySource | src/system/activeDisplay.ts:33-48 | conversely, display k comes from the k-th matching line |
| ActiveDisplay.XrandrEmptyIffNoMatch | src/system/activeDisplay.ts:30-51 | the parse is empty exactly when no line matches |
| ActiveDisplay.XrandrNamesNotBlank | src/system/activeDisplay.ts:37-46 | every parsed display has a non-blank name, and its id equals its name |
| ActiveDisplay.GetDisplays | src/system/activeDisplay.ts:53-78 | the registry is the parse when non-empty, else the single fallback display |
| ActiveDisplay.ListedDisplaysFallback | src/system/activeDisplay.ts:53-78 | the registry is never empty; it is the fallback when the command failed or no line matched, and the parse when some line matched |
| ActiveDisplay.ListedNamesNotBlank | src/system/activeDisplay.ts:53-78 | every registry entry, fallback included, has a non-blank name equal to its id |
| ActiveDisplay.KeyValueOfAssignment | src/system/activeDisplay.ts:88-89 | a `KEY=VALUE` line with a non-empty key yields that key and value |
| ActiveDisplay.KeyValueNeedsEquals | src/system/activeDisplay.ts:88-89 | a line without `=` assigns nothing |
| ActiveDisplay.ParseCursor | src/system/activeDisplay.ts:85-96 | the loop fills the map that the fold over the trimmed, split lines gives, and reads the cursor from it |
| ActiveDisplay.CursorFromLastAssignments | src/system/activeDisplay.ts:86-95 | a cursor is produced exactly when the last `X` and the last `Y` assignments both convert to numbers, and it holds those numbers |
| ActiveDisplay.CursorNeedsX | src/system/activeDisplay.ts:91-95 | without any `X=` line the probe fails |
| ActiveDisplay.FindDisplay | src/system/activeDisplay.ts:99-112 | fails exactly on an empty list; otherwise it returns the display the ownership rule picks: first containing, else first main, else first |
| ActiveDisplay.EmissionsChange | src/system/activeDisplay.ts:147-155 | the first emission differs from the previous index, no emission repeats the index before it, and every emission is a display some tick resolved to |
| ActiveDisplay.LastAfterIsLastEmitted | src/system/activeDisplay.ts:148-149 | `lastDisplayIndex` is the index of the last emitted display, or unchanged if nothing was emitted |
| ActiveDisplay.FirstSuccessEmits | src/system/activeDisplay.ts:147-154 | with nothing emitted before, the first tick that resolves a display emits it |
| ActiveDisplay.EmissionsExample | src/system/activeDisplay.ts:147-154 | ticks resolving to displays 0, 0, 1, 1, 0 emit 0, 1, 0 |
| ActiveDisplay.ActiveDisplayWatcher.constructor | src/system/activeDisplay.ts:128-132 | the poll interval defaults to 400; the watcher starts stopped, with no last index and no displays |
| ActiveDisplay.ActiveDisplayWatcher.Start | src/system/activeDisplay.ts:134-167 | a no-op while running; otherwise it loads the registry, sets running and schedules the first tick, keeping `lastDisplayIndex`; like every watcher method it keeps the invariant that a tick is scheduled exactly while the watcher runs |
| ActiveDisplay.ActiveDisplayWatcher.Tick | src/system/activeDisplay.ts:143-164 | when stopped it does nothing and re-arms nothing; when running it emits and updates the index as one debounce step on the resolved display, then re-arms |
| ActiveDisplay.ActiveDisplayWatcher.Stop | src/system/activeDisplay.ts:169-175 | clears running and the pending timer; the registry and the last index stay |
| Obs.Keys | src/obs/updateWindowCapture.ts:46 | `Object.keys`: one key per entry, in order |
| Obs.Lookup | src/obs/updateWindowCapture.ts:57 | `settings[key]` is undefined exactly when the key is absent, and otherwise comes from an entry with that key |
| Obs.LookupFirst | src/obs/updateWindowCapture.ts:57 | the first entry with a key is the one read for that key |
| Obs.OverlayHit | src/obs/updateWindowCapture.ts:76-80 | after the overlay, the patched key holds the new value |
| Obs.OverlayMiss | src/obs/updateWindowCapture.ts:76-80 | after the overlay, every other key reads as before |
| Obs.OverlayKeys | src/obs/updateWindowCapture.ts:76-80 | the overlay keeps the keys in order and adds the patched key only when it was absent |
| Obs.OverlayDistinct | src/obs/updateWindowCapture.ts:76-80 | the overlay keeps a settings object free of duplicate keys |
| Obs.WriteChangesOneField | src/obs/updateWindowCapture.ts:72-80 | an accepted one-key write changes only that field of that input; a rejected write changes no setting; the request is recorded in the request trace either way |
| Obs.ObsConnection.GetInputSettings | src/obs/updateWindowCapture.ts:36-40 | the request is recorded in the request trace and the input's settings are returned, if the request got through and the input exists |
| Obs.ObsConnection.SetInputSettings | src/obs/updateWindowCapture.ts:72-80 | the request is recorded in the request trace and the patch is merged into the input, if the request got through and the input exists |
| Obs.ObsConnection.RunTransition | src/app.ts:78-81 | the transition is recorded in the request trace and changes no setting |
| WindowCapture.CoerceValue | src/obs/updateWindowCapture.ts:11-23 | the result is a number exactly when the current value is a number (NaN included), and a string otherwise; the fallback index (else 0) is used when the desired value is not a number; a string is kept as it is |
| WindowCapture.CoerceKeepsNumber | src/obs/updateWindowCapture.ts:16-22 | a desired value that denotes a number still denotes it after coercion, into either field type |
| WindowCapture.CoerceNumberIntoString | src/obs/updateWindowCapture.ts:22 | a number written into a string field is its decimal form, which converts back to the number |
| WindowCapture.CoerceNameIntoNumber | src/obs/updateWindowCapture.ts:16-20 | current 2 with desired "DP-1" gives the fallback 3, or 0 when there is no fallback |
| WindowCapture.CoerceIndexIntoString | src/obs/updateWindowCapture.ts:22 | a string field asked to take 1 gets "1" |
| WindowCapture.DisplayKeyIgnoresCase | src/obs/updateWindowCapture.ts:47-48 | keys that lower-case alike are both display keys or neither: the match is case-insensitive |
| WindowCapture.FindDisplayKey | src/obs/updateWindowCapture.ts:46-49 | finds nothing exactly when no key is display-like; otherwise the key found is display-like and no earlier key is |
| WindowCapture.DisplayKeyValue | src/obs/updateWindowCapture.ts:57 | the key found is present, and `settings[key]` reads the entry where it was found |
| WindowCapture.DisplayKeyStable | src/obs/updateWindowCapture.ts:46-49 | writing the display field leaves the same field to be found next time |
| WindowCapture.DisplayKeyExamples | src/obs/updateWindowCapture.ts:46-49 | `monitor_id` and `ScreenId` are found past non-display keys; `url` and `fps` give no key |
| WindowCapture.ShortKeyIsNot | src/obs/updateWindowCapture.ts:47-48 | keys shorter than six characters are never display-like |
| WindowCapture.UpdateSucceeds | src/obs/updateWindowCapture.ts:32-81 | the update succeeds exactly when both requests get through, the input exists and it has a display field |
| WindowCapture.UpdateWithoutField | src/obs/updateWindowCapture.ts:51-55 | with no display field it fails after the read, with no write and no change |
| WindowCapture.UpdateWritesOneField | src/obs/updateWindowCapture.ts:57-80 | when both requests get through and the input has a display field, the update succeeds; the requests are the read and one one-key write; the display field holds the coerced value; every other field and every other input is unchanged; no key is added |
| WindowCapture.UpdateUnchangedOnFailure | src/obs/updateWindowCapture.ts:32-81 | a failed update changes no setting anywhere |
| WindowCapture.UpdateRequests | src/obs/updateWindowCapture.ts:36-80 | every update first reads the settings, then issues at most one write |
| WindowCapture.UpdateWindowCapture | src/obs/updateWindowCapture.ts:32-81 | the method's requests, new OBS state and outcome are those of the update function |
| App.ChooseDisplayValue | src/app.ts:55-58 | a chosen string is a non-blank name or id, and the name wins when usable; the index is chosen exactly when neither is usable |
| App.RegistryChoosesName | src/app.ts:55-58 | every display from the registry is targeted by its name |
| App.ChooseIndexWhenBlank | src/app.ts:55-58 | a blank name and an empty id give the index |
| App.ChooseIdWithoutName | src/app.ts:55-58 | without a name the id is chosen |
| App.ChooseNameUntrimmed | src/app.ts:55-58 | the name is sent untrimmed |
| App.TaskRequests | src/app.ts:54-81 | one task reads the settings first, never reads again, and issues the transition, last, exactly when the update succeeded |
| App.ReadsAddOne | src/app.ts:54-81 | a request log extended by one read, then no other read, counts exactly one read more |
| App.TaskReadsOnce | src/app.ts:54-81 | one task extends the request log and issues exactly one settings read |
| App.QueueRunsEveryTask | src/app.ts:52-86 | no change is dropped: one outcome per change and one settings read per change |
| App.QueueOutcomeAt | src/app.ts:53-86 | task k runs on exactly the state the earlier tasks left, whatever their outcomes, and its outcome is recorded at k |
| App.QueueSplit | src/app.ts:50-54 | running changes `a` and then `b` is running `a + b`: no reordering and no interleaving |
| App.TaskTouchesOnlyTarget | src/app.ts:72-81 | one task changes no input but the capture input, and no key of it |
| App.QueueTouchesOnlyTarget | src/app.ts:52-86 | the whole chain leaves every other input and the capture input's keys unchanged |
| App.HandleChange | src/app.ts:54-86 | one queued task: the update, then the transition only when the update did not fail |
| App.ProcessChanges | src/app.ts:50-87 | the loop over the notifications computes the chain of their tasks |

## Left out

- `Number()` is modelled on decimal integers only, so fractions, exponents, the `0x`/`0o`/`0b` prefixes and `Infinity` are outside the model. Both xrandr geometries and xdotool coordinates are decimal integers.
- JavaScript numbers are doubles while the model's integers are exact: `Number()` of a digit run above 2^53 rounds, and `String(n)` switches to exponent form at 1e21. No display index, geometry or coordinate comes near either bound.
- `toLowerCase` is modelled on ASCII letters only; other letters keep their case.
- Object-key enumeration order is taken as the order of the settings list. JavaScript lists integer-like keys first; no key of a capture input's settings is integer-like.
- Timers, `setTimeout`/`clearTimeout` and the poll interval's effect are represented only by the `tickPending` flag. A tick already running when `stop` is called is modelled as one that finishes before the stop.
- Asynchrony: each promise chain is modelled as a sequence of steps run one after another, which is the order it guarantees. Ticks and queue tasks interleaving with each other is not modelled.
- The transition sequence (`runTransition`) and the websocket wrapper are not part of this model. The transition is one request that may fail and changes no input setting.
- What OBS does with a request is modelled only as far as the program depends on it: a read returns the stored settings, and an overlay merges a one-key patch. OBS rejecting a value it does not accept is modelled as a lost request.
- Running `xrandr` and `xdotool`, logging and the debug flag, environment variables and process start-up and shutdown are left out. The commands' outputs, or their failure, are inputs.
- The registry is read once per start, as in the code; display hot-plug is not modelled.
