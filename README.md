# ktx-plus: the debounced click listener, view setters and string helpers

ktx-plus is a set of Kotlin extension functions for Android. Most of them only call the
platform. This project models the parts whose behaviour does not depend on the platform:

- **View.kt.** `setOnSafeClickListener` wraps a click callback so that a click reaches it
  only if `currentTime - lastClickTime >= debounceTimeMs`. `lastClickTime` is a captured
  `var` that starts at `0L`. It is modelled as the class `Views.SafeClickListener`. Its
  method `Click(now)` takes the clock reading as a parameter and returns whether `onClick` ran.
  - The subtraction is Kotlin `Long` arithmetic, so it wraps around. The model writes that out
    in `WrapLong`.
  - The pure function `Forwarded(debounceTimeMs, times)` gives the readings of the clicks that
    get through. A ghost record of all clicks (`Clicks`) ties the class to that function.
  - The visibility, enable/disable and margin helpers are methods of the class `Views.ViewState`.
    Each method changes only the fields its `modifies` clause names. Pure partners
    (`Toggled`, `WithMargins`) carry the lemmas.
- **String.kt.** `or`, `truncate`, `isNotNullOrEmpty`, `isNotNullOrBlack` and `isEmail` are
  functions in module `Strings`.
  - A Kotlin string is a sequence of UTF-16 code units (`Utf16String`), because Kotlin
    lengths and indices count code units. A Kotlin `String?` is an `Option<Utf16String>`.
  - The exception thrown by `substring` is a `Failure` result.
  - `truncate`'s default suffix "..." is a default parameter value.
  - `isEmail` is a scan: find the first '@', then the last '.' after it. Its contract states
    that it accepts exactly the strings that split as `local + "@" + domain + "." + tld`, with each
    part drawn from the regular expression's character class and meeting its length bound.

Files: `wrappers.dfy` (Option, Result), `views.dfy` (module `Views`, for View.kt) and
`strings.dfy` (module `Strings`, for String.kt).

Three facts about the code of the click listener are worth stating outright:

- **First click.** The stored timestamp starts at 0, so the first click is forwarded only when
  `now >= debounceTimeMs` (`FirstClick`). With the default 300 ms, clicks at 0, 100, 250, 400
  and 750 forward 400 and 750 (`DefaultDebounceRun`), and a single click at 0 is dropped.
- **Negative debounce time.** It is not checked, and the model accepts it too.
- **Clock.** The reading is the wall clock, and it may go backwards. The model lets the reading
  be any `Long`.
  - Computed in 64 bits, the spacing between forwarded clicks holds for every reading
    (`ForwardedSpacedInLong`).
  - As exact differences, it holds for readings at or after the epoch (`ForwardedClicksSpaced`),
    where the subtraction cannot overflow.
  - Outside that range the wrap-around decides. After a click forwarded at 1, a jump back to
    `Long.MIN_VALUE` is forwarded (`BackwardJumpWrapsAround`). With a debounce time of 0, a
    following click at `Long.MAX_VALUE` is dropped although it is later, because the difference
    wraps to -1 (`ZeroDebounceDropsWrappedClick`).

## Model

| member | source | states |
|---|---|---|
| `Views.WrapLong` | ktx-plus/src/main/java/com/sinanakhaei/ktx_plus/View.kt:66 | the 64-bit result differs from the exact one by a multiple of 2^64, and equals it whenever the exact value fits in a Long |
| `Views.Forwarded` | ktx-plus/src/main/java/com/sinanakhaei/ktx_plus/View.kt:63-70 | the forwarded clicks are at most as many as the clicks, and each is one of the clicks' readings |
| `Views.Passes` | ktx-plus/src/main/java/com/sinanakhaei/ktx_plus/View.kt:66 | the debounce test; when `now - lastClickTime` fits in a Long, a click passes iff `now - lastClickTime >= debounceTimeMs` |
| `Views.ClockReadingsDoNotOverflow` | ktx-plus/src/main/java/com/sinanakhaei/ktx_plus/View.kt:65-66 | for two non-negative readings the Long subtraction is the exact difference |
| `Views.FirstClick` | ktx-plus/src/main/java/com/sinanakhaei/ktx_plus/View.kt:63-66 | because the timestamp starts at 0, the first click is forwarded iff `now >= debounceTimeMs` |
| `Views.ForwardedSpacedInLong` | ktx-plus/src/main/java/com/sinanakhaei/ktx_plus/View.kt:63-70 | for every clock reading, the 64-bit difference between the first forwarded click and 0, and between each forwarded click and the previous forwarded one, is at least `debounceTimeMs` |
| `Views.ForwardedSpacedFromZero` | ktx-plus/src/main/java/com/sinanakhaei/ktx_plus/View.kt:63-70 | for non-negative readings, the sequence 0 followed by the forwarded readings has each element at least `debounceTimeMs` after the one before |
| `Views.ForwardedClicksSpaced` | ktx-plus/src/main/java/com/sinanakhaei/ktx_plus/View.kt:63-70 | for non-negative readings: the first forwarded click is at or after `debounceTimeMs`; each forwarded click is at least `debounceTimeMs` after the previous forwarded one; with `debounceTimeMs >= 0`, any two forwarded clicks t1 before t2 have `t2 - t1 >= debounceTimeMs` |
| `Views.ZeroDebounceClick` | ktx-plus/src/main/java/com/sinanakhaei/ktx_plus/View.kt:66 | with debounce 0, a click no earlier than the last forwarded one (readings non-negative) is forwarded |
| `Views.ZeroDebounceForwardsAll` | ktx-plus/src/main/java/com/sinanakhaei/ktx_plus/View.kt:63-70 | with debounce 0 and non-negative, non-decreasing readings, every click is forwarded |
| `Views.BackwardJumpWrapsAround` | ktx-plus/src/main/java/com/sinanakhaei/ktx_plus/View.kt:66-67 | after a click forwarded at 1, a click at `Long.MIN_VALUE` is also forwarded, because the difference wraps around |
| `Views.ZeroDebounceDropsWrappedClick` | ktx-plus/src/main/java/com/sinanakhaei/ktx_plus/View.kt:66-67 | with debounce 0, clicks at 1, `Long.MIN_VALUE` and `Long.MAX_VALUE` forward only the first two, because the last difference wraps to -1 |
| `Views.DefaultDebounceRun` | ktx-plus/src/main/java/com/sinanakhaei/ktx_plus/View.kt:50-70 | with the default 300 ms, clicks at 0, 100, 250, 400, 750 forward exactly 400 and 750 |
| `Views.SafeClickListener.constructor` | ktx-plus/src/main/java/com/sinanakhaei/ktx_plus/View.kt:59-63 | a new listener keeps the given debounce time (negative accepted), has timestamp 0 and no clicks |
| `Views.SafeClickListener.Default` | ktx-plus/src/main/java/com/sinanakhaei/ktx_plus/View.kt:50-63 | without a debounce time the listener uses 300 ms, with timestamp 0 |
| `Views.SafeClickListener.Click` | ktx-plus/src/main/java/com/sinanakhaei/ktx_plus/View.kt:64-70 | a click fires iff `now - lastClickTime` (64-bit) `>= debounceTimeMs`; if it fires, the timestamp becomes `now` and the forwarded list grows by exactly `now`; otherwise the timestamp and the forwarded list are unchanged; the timestamp stays the last forwarded reading (or 0) |
| `Views.Toggled` | ktx-plus/src/main/java/com/sinanakhaei/ktx_plus/View.kt:43-48 | the result is VISIBLE iff the input was not; from VISIBLE it is GONE iff `gone` (otherwise INVISIBLE) |
| `Views.ToggleTwiceFromVisible` | ktx-plus/src/main/java/com/sinanakhaei/ktx_plus/View.kt:43-48 | toggling twice from VISIBLE returns to VISIBLE, for any `gone` arguments |
| `Views.ToggleTwiceRestores` | ktx-plus/src/main/java/com/sinanakhaei/ktx_plus/View.kt:43-48 | toggling twice with the same `gone` restores the state iff it was VISIBLE, GONE with `gone`, or INVISIBLE without |
| `Views.WithMargins` | ktx-plus/src/main/java/com/sinanakhaei/ktx_plus/View.kt:123-131 | fails iff the layout parameters are not margin parameters (a NullPointerException for none, a ClassCastException for another class); otherwise each given margin is set and each omitted one keeps its current value |
| `Views.WithNoMargins` | ktx-plus/src/main/java/com/sinanakhaei/ktx_plus/View.kt:123-128 | omitting every argument leaves the margins as they are |
| `Views.WithMarginsIdempotent` | ktx-plus/src/main/java/com/sinanakhaei/ktx_plus/View.kt:123-131 | setting the same margins twice gives the result of setting them once |
| `Views.ViewState.Hide` | ktx-plus/src/main/java/com/sinanakhaei/ktx_plus/View.kt:13-15 | visibility becomes GONE whatever it was (so a repeat changes nothing); only visibility may change |
| `Views.ViewState.Invisible` | ktx-plus/src/main/java/com/sinanakhaei/ktx_plus/View.kt:20-22 | visibility becomes INVISIBLE whatever it was; only visibility may change |
| `Views.ViewState.Show` | ktx-plus/src/main/java/com/sinanakhaei/ktx_plus/View.kt:27-29 | visibility becomes VISIBLE whatever it was; only visibility may change |
| `Views.ViewState.IsVisible` | ktx-plus/src/main/java/com/sinanakhaei/ktx_plus/View.kt:36 | true iff visibility is VISIBLE |
| `Views.ViewState.ToggleVisibility` | ktx-plus/src/main/java/com/sinanakhaei/ktx_plus/View.kt:43-48 | the new visibility is `Toggled` of the old one, with `gone` true when omitted; only visibility may change |
| `Views.ViewState.Disable` | ktx-plus/src/main/java/com/sinanakhaei/ktx_plus/View.kt:102-105 | `isEnabled` and `isClickable` both become false; nothing else may change |
| `Views.ViewState.Enable` | ktx-plus/src/main/java/com/sinanakhaei/ktx_plus/View.kt:110-113 | `isEnabled` and `isClickable` both become true; nothing else may change |
| `Views.ViewState.SetMargins` | ktx-plus/src/main/java/com/sinanakhaei/ktx_plus/View.kt:123-131 | succeeds iff the layout parameters are margin parameters, and then they become `WithMargins` of the old ones; on failure nothing changes; only the layout parameters may change |
| `Strings.Or` | ktx-plus/src/main/java/com/sinanakhaei/ktx_plus/String.kt:9 | the string itself when it is not null, the fallback when it is null |
| `Strings.Truncate` | ktx-plus/src/main/java/com/sinanakhaei/ktx_plus/String.kt:28-34 | fails (index out of bounds) iff `length < 0`; a string of more than `length` code units becomes its first `length` code units followed by the suffix ("..." when omitted), of length `length + |suffix|`; a string of at most `length` code units is returned unchanged |
| `Strings.TruncateBounded` | ktx-plus/src/main/java/com/sinanakhaei/ktx_plus/String.kt:28-34 | for `length >= 0` the call succeeds, the result is at most `length + |suffix|` long and starts with the kept prefix of the input |
| `Strings.TruncateIdempotent` | ktx-plus/src/main/java/com/sinanakhaei/ktx_plus/String.kt:28-34 | with an empty suffix, truncating again to the same length changes nothing |
| `Strings.TruncateSplitsSurrogatePair` | ktx-plus/src/main/java/com/sinanakhaei/ktx_plus/String.kt:28-30 | U+1F600 is two code units, so truncating it to 1 with the default suffix keeps its lone high surrogate followed by "..." |
| `Strings.IsNotNullOrEmpty` | ktx-plus/src/main/java/com/sinanakhaei/ktx_plus/String.kt:48 | true iff the string is not null and has at least one character |
| `Strings.IsBlank` | ktx-plus/src/main/java/com/sinanakhaei/ktx_plus/String.kt:41 | true iff every character is whitespace (the empty string included) |
| `Strings.IsNotNullOrBlack` | ktx-plus/src/main/java/com/sinanakhaei/ktx_plus/String.kt:41 | true iff the string is not null and has at least one non-whitespace character |
| `Strings.NotBlankIsNotEmpty` | ktx-plus/src/main/java/com/sinanakhaei/ktx_plus/String.kt:41-48 | a string that is not null or blank is not null or empty |
| `Strings.EmailScanSound` | ktx-plus/src/main/java/com/sinanakhaei/ktx_plus/String.kt:16-19 | a string the scan accepts at its first '@' splits as local + "@" + domain + "." + tld, each part fitting its class and length |
| `Strings.EmailScanComplete` | ktx-plus/src/main/java/com/sinanakhaei/ktx_plus/String.kt:16-19 | every string with such a split is accepted by the scan at its first '@' |
| `Strings.IsEmail` | ktx-plus/src/main/java/com/sinanakhaei/ktx_plus/String.kt:16-19 | true iff the whole string matches `[A-Za-z0-9._%+-]+@[A-Za-z0-9.-]+\.[A-Za-z]{2,}` |
| `Strings.EmailHasOneAt` | ktx-plus/src/main/java/com/sinanakhaei/ktx_plus/String.kt:17 | an accepted string contains exactly one '@' |

## Left out

- Context.kt, Log.kt, Thread.kt, Fragment.kt, AndroidApi.kt: these are calls into the Android platform (system services, toasts, intents, logging, handlers and loopers, SDK checks) with no logic of their own.
- Number.kt: every predicate converts to `Double`, which is floating point.
- View.kt `fadeIn` and `fadeOut`: float alpha animations run by the platform animator.
- The clock and the callback: `System.currentTimeMillis()` becomes the `now` parameter of `Click`, and the `onClick` call becomes its boolean result. Registering the listener on a view, and the platform's own effects of doing so, are not modelled.
- Exceptions thrown by `onClick` itself are not modelled. They would propagate after the timestamp has already been updated.
- `Views.ForwardedClicksSpaced`: the spacing in exact differences is proved only for clock readings at or after the epoch. For other readings the 64-bit subtraction can wrap (`BackwardJumpWrapsAround`), and only the 64-bit form, `ForwardedSpacedInLong`, holds.
- `Views.ViewState.SetMargins`: margins are the four values in the order given. The platform's left/right versus start/end resolution for right-to-left layouts is not modelled. Neither is the relayout that assigning `layoutParams` triggers.
- `Views.ViewState.SetMargins`: the layout parameters are a value of the view. `params.setMargins` changes the parameter object in place, and another view sharing that object would see the change too. That aliasing is not modelled.
- When the parameters are not margin parameters or are null, the defaults of `setMargins` read 0 from the androidx getters. This does not matter, because the cast then throws before any margin is written.
- `Strings.IsBlank`: the platform's `Char.isWhitespace` is a parameter, so that the whitespace predicate stays abstract.
- `Strings.IsEmail`: the regular-expression engine is not modelled. The function is a direct scan, proved equal to the pattern's language.
- Strings are sequences of UTF-16 code units, as in Kotlin. There is no Unicode normalisation and no check that surrogates are paired.
