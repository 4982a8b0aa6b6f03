# Landing-page script: a verified model of its logic

The script `main.js.js` drives a perfume brand's landing page. It switches the
display language among Russian, English and Arabic. It runs a countdown. It
shows short notifications when the call-to-action and social icons are
clicked. This project models the logic inside those handlers in Dafny and
proves what each one does. The browser glue around that logic is not modelled.

Modules, one per component:

- `Countdown` (`countdown.dfy`, pure). It splits a remaining time in
  milliseconds into days, hours, minutes and seconds. It renders each field as
  `toString().padStart(2, '0')` does. It also updates the four display slots,
  skipping missing ones. Decimal text and `padStart` are defined from scratch,
  with a parser as their inverse.
- `LanguageSwitch` (`language_switch.dfy`, mixed). `Switch` is a pure
  specification of `switchLanguage` over a page state. The page state holds
  the buttons, the content panels, the body's direction and alignment, and the
  stored preference. The class `Page` holds the same state in fields. Its
  method `SwitchLanguage` runs the source's loops and is proved equal to
  `Switch`. The lemmas state the properties of `Switch`.
- `Messages` (`messages.dfy`, pure). The localized acknowledgement and
  confirmation texts, `getPlatformName` and the social redirect notice.
- `Notifications` (`notifications.dfy`, mixed). The body's `.notification`
  elements as a list. `NotificationArea.Show` and `Dismiss` change it in
  place, and are proved against `AfterShow` and `Without`.
- `OrderFlow` (`order_flow.dfy`, mixed). The call-to-action buttons' loading
  state and the click handlers that join the other modules.

Behaviour worth knowing, as the code has it:

- `switchLanguage` with a language that no button carries throws a
  TypeError. This happens after every button has already lost `active`.
  Panels, direction and preference are untouched. So an unrecognised code is
  not a no-op.
- At start-up, a stored preference is used whenever it is non-empty, whether
  or not a button carries it. Only a missing or empty entry falls back to
  `"ru"`. A stored code without a button therefore makes start-up throw with
  no button active (`StartupWithUnknownPreference`). The TypeError escapes the
  `DOMContentLoaded` listener, so lines 43-331 never run: no countdown, no
  call-to-action, social or scrolling handlers. Only the language buttons,
  wired before the throw, still work, and a click on one restores the
  language state.
- The order and social handlers are attached only after a start-up that
  returned. From then on some button is always active, whatever the user
  clicks (`HandlersSeeActiveButton`). Their null dereference of the active
  button therefore never happens in the script.
- `querySelector` returns the first match. So only the first button with the
  language becomes active, while every matching panel does. "Active exactly
  when the language matches" holds for buttons only when their languages are
  distinct, as on the page (`SwitchActiveIffLang`).
- `showNotification` removes only the first existing notification. So "at
  most one notification" is an invariant that `Show` and `Dismiss` preserve,
  not something `Show` enforces from any state.
- The countdown target is rebuilt as "now + 30 days" on every tick. The
  remaining time is therefore always 30 days, and the display always reads
  30 / 00 / 00 / 00 (`ThirtyDaysDisplay`).

## Model

| member | source | states |
|---|---|---|
| `Countdown.Decompose` | main.js.js:51-54 | hours < 24, minutes < 60 and seconds < 60 for every non-negative remaining time |
| `Countdown.DecomposeReconstructs` | main.js.js:51-54 | days·86400000 + hours·3600000 + minutes·60000 + seconds·1000 + t mod 1000 = t |
| `Countdown.ComposeDecomposes` | main.js.js:51-54 | conversely, in-range fields plus under 1000 ms decompose back to the same fields |
| `Countdown.ToDecimal` | main.js.js:62-65 | `toString()` of a non-negative integer is all digits, has no leading zero, and has two or more digits exactly when the value is at least 10 |
| `Countdown.DecimalRoundTrip` | main.js.js:62-65 | reading the decimal text back gives the number |
| `Countdown.PadStart` | main.js.js:62-65 | `padStart(width, fill)` keeps the string as its suffix, only adds fill characters in front, reaches the width when shorter and never truncates |
| `Countdown.Render` | main.js.js:62-65 | `toString().padStart(2, '0')` of a field is all digits, never shorter than two, and reads back as the value |
| `Countdown.RenderShape` | main.js.js:62-65 | a value 0–9 renders as '0' then its digit; 10 and up render as their own digits; below 100 the text is exactly two characters |
| `Countdown.Tick` | main.js.js:57-65 | a display element is updated exactly when it exists: present slots stay present, missing ones stay missing |
| `Countdown.TickDisplay` | main.js.js:57-65 | every present slot shows decimal digits only: exactly two for hours, minutes and seconds, at least two for days, each reading back as its field, with no leading zero from 10 up |
| `Countdown.ThirtyDaysDisplay` | main.js.js:45-65 | with the target rebuilt as now + 30 days, every tick turns a display with all four elements, whatever it showed, into 30 / 00 / 00 / 00 |
| `LanguageSwitch.Deactivate` | main.js.js:7 | every button loses `active` and keeps its language and position |
| `LanguageSwitch.FirstWithLang` | main.js.js:8 | the button `querySelector` finds is the first with the language, and there is none exactly when no button has it |
| `LanguageSwitch.ShowOnly` | main.js.js:11-17 | panels keep number, order and languages, and a panel is active exactly when its language is the chosen one |
| `LanguageSwitch.DirectionFor` | main.js.js:20-26 | the body is right-to-left exactly for "ar" |
| `LanguageSwitch.AlignFor` | main.js.js:20-26 | the text is right-aligned exactly for "ar" |
| `LanguageSwitch.Switch` | main.js.js:5-30 | whether it returns or throws, buttons and panels keep number, order and languages and at most one button is active; the preference becomes the language when it returns and is untouched when it throws |
| `LanguageSwitch.InitialLanguage` | main.js.js:40 | the stored preference when present and non-empty, otherwise "ru"; never empty |
| `LanguageSwitch.Startup` | main.js.js:40-41 | a start-up that returns rewrites a non-empty stored preference unchanged, or stores "ru" when there was none; one that throws leaves the entry as it was |
| `LanguageSwitch.ActiveLanguage` | main.js.js:105 | the language of the first active button, absent exactly when no button is active |
| `LanguageSwitch.SwitchFailsIff` | main.js.js:7-8 | `switchLanguage` throws exactly when no button carries the language |
| `LanguageSwitch.SwitchButtons` | main.js.js:7-8 | on success the buttons keep number, order and languages, and a button is active exactly when it is the first with the language |
| `LanguageSwitch.SwitchActiveIffLang` | main.js.js:7-8 | with distinct button languages, a button is active exactly when its language matches, and exactly one button is active |
| `LanguageSwitch.SwitchPanelsAndPreference` | main.js.js:11-17 | on success the panels keep number, order and languages, a panel is active exactly when its language matches, and the stored preference is the language (line 29) |
| `LanguageSwitch.SwitchDirection` | main.js.js:20-26 | on success the direction is right-to-left and the text right-aligned exactly for "ar", left-to-right otherwise |
| `LanguageSwitch.SwitchThrows` | main.js.js:7-8 | with no matching button the call throws with every button inactive and languages kept; panels, direction, alignment and preference are unchanged |
| `LanguageSwitch.SwitchIdempotent` | main.js.js:5-30 | switching twice to the same language gives the same outcome and page as switching once |
| `LanguageSwitch.ClickNeverThrows` | main.js.js:32-37 | a click passes the clicked button's own language, so the switch always returns |
| `LanguageSwitch.ActiveLanguageAfterSwitch` | main.js.js:5-30 | after a successful switch the active-button lookup finds the language; after a failed one it finds nothing |
| `LanguageSwitch.ReloadReproduces` | main.js.js:29-41 | a freshly loaded page with the same buttons and panels, whatever their classes and the body's direction, and with the stored language, starts up in exactly the state the earlier switch left |
| `LanguageSwitch.StartupWithUnknownPreference` | main.js.js:40-41 | a non-empty stored language with no button makes start-up throw, leaving no active button and the preference unchanged |
| `LanguageSwitch.AfterClicks` | main.js.js:32-37 | any sequence of button clicks keeps the buttons' number, order and languages |
| `LanguageSwitch.ClicksKeepActiveButton` | main.js.js:32-37 | once some button is active, one stays active after any sequence of clicks |
| `LanguageSwitch.HandlersSeeActiveButton` | main.js.js:32-41 | after a start-up that returned and any clicks, the active-button lookup the later handlers make (line 105) finds a button |
| `LanguageSwitch.Page.SwitchLanguage` | main.js.js:5-30 | the three loops and the assignments leave the page equal to `Switch` of the old page, and report whether it threw |
| `LanguageSwitch.Page.Initialize` | main.js.js:40-41 | the page after start-up is `Switch` with the initial language |
| `LanguageSwitch.Page.CurrentLanguage` | main.js.js:105 | the linear search returns the first active button's language, absent exactly when none is active |
| `Messages.OrderThanks` | main.js.js:108-114 | the Russian text exactly for "ru", the English exactly for "en", the Arabic for every other language |
| `Messages.OrderPlaced` | main.js.js:212-218 | the same choice for the order confirmation |
| `Messages.PlatformName` | main.js.js:277-284 | the table entry when the platform is whatsapp, tiktok or instagram and the language is ru, en or ar; otherwise the platform unchanged |
| `Messages.PlatformNameFallbackIff` | main.js.js:277-284 | the result equals the platform key exactly when the lookup missed |
| `Messages.RedirectNotice` | main.js.js:262-271 | the Russian sentence around the Russian name exactly for "ru", `You will be redirected to our … page` around the English name exactly for "en", the Arabic sentence around the Arabic name for every other language |
| `Messages.RedirectNamesPlatform` | main.js.js:263-284 | for a known platform the name in the notice is never the bare key, whatever the language |
| `Notifications.Without` | main.js.js:182 | removal drops exactly the elements with that identity and keeps every other one |
| `Notifications.AfterShow` | main.js.js:127-130 | showing removes only the first existing notification, keeps the rest in order, and appends the new one last (line 178) |
| `Notifications.SingleNotification` | main.js.js:125-190 | from at most one notification, showing leaves exactly the new one and removing leaves at most one |
| `Notifications.WithoutKeepsOrder` | main.js.js:182 | removal keeps the remaining notifications in document order |
| `Notifications.WithoutAbsent` | main.js.js:186-189 | removing a notification that is already detached changes nothing |
| `Notifications.WithoutRemovesOne` | main.js.js:182 | with distinct identities, removing an attached notification removes exactly one element |
| `Notifications.CloseOwn` | main.js.js:181-190 | a lone notification's close button or timer empties the list |
| `Notifications.StaleTimerKeepsSuccessor` | main.js.js:186-190 | the timer of a pre-empted notification does not remove the one that replaced it |
| `Notifications.NotificationArea.Show` | main.js.js:125-178 | the list becomes `AfterShow` of the old list with a fresh identity; identities stay increasing |
| `Notifications.NotificationArea.Dismiss` | main.js.js:181-190 | the list becomes `Without` the identity; identities stay increasing |
| `OrderFlow.Loading` | main.js.js:196-199 | every call-to-action button reads "Loading..." and is disabled, count unchanged |
| `OrderFlow.Texts` | main.js.js:197 | each button's text is saved for its restore timer |
| `OrderFlow.Restore` | main.js.js:201-204 | one timer gives its button the saved text and enables it; no other button changes |
| `OrderFlow.RestoreFirst` | main.js.js:201-204 | after the first n timers, those buttons have their saved texts and are enabled; the rest are untouched |
| `OrderFlow.RestoreAllRoundTrip` | main.js.js:196-204 | once every restore timer has fired, each button has its original text and is enabled |
| `OrderFlow.CtaBar.StartLoading` | main.js.js:196-199 | the loop returns the saved texts and leaves the buttons in the loading state |
| `OrderFlow.CtaBar.RestoreButton` | main.js.js:201-204 | one timer gives its button back its saved text and enables it |
| `OrderFlow.OrderClick` | main.js.js:104-121 | with an active button, shows the acknowledgement in its language, uses one new notification identity and starts loading; with none, the handler throws and changes nothing |
| `OrderFlow.OrderCompleted` | main.js.js:208-221 | shows the confirmation in the language active when it runs, using one new identity, or throws with nothing changed when no button is active |
| `OrderFlow.SocialClick` | main.js.js:259-274 | shows the redirect notice in the active language, using one new identity, or throws with nothing changed when no button is active |

## Left out

- `Date` and calendar arithmetic (main.js.js:45-49): the remaining time is a millisecond input. Near a daylight-saving change, "30 days later" is not exactly 30·86400000 ms. That case is not modelled.
- A start-up that throws aborts the rest of the `DOMContentLoaded` listener (main.js.js:43-331): the countdown, call-to-action, social, scrolling and observer set-up never happen. The model has no whole-listener sequence, so this abort is stated in prose only. The `!ok` branches of `OrderClick`, `OrderCompleted` and `SocialClick` model the null dereference the code would hit, although the script never reaches it (`HandlersSeeActiveButton`).
- Local storage is assumed to work. In the code, reading `localStorage` can throw a SecurityError when storage is blocked, so `getItem` at main.js.js:40 would abort the listener before any switch and leave the buttons untouched. `setItem` at main.js.js:29 can throw a QuotaExceededError; `switchLanguage` would then throw after lines 7-26 had already updated buttons, panels, direction and alignment, without writing the preference. Neither failure is modelled, so `Switch` never throws on a click (`ClickNeverThrows`) and always stores the preference when it returns.
- Timer scheduling (`setInterval`, `setTimeout`): only what each callback changes is modelled, not when it fires or how callbacks interleave.
- The seconds display's scale pulse (main.js.js:67-73), the injected stylesheet, inline styles, `innerHTML` construction and hover transforms: presentation only.
- The IntersectionObserver fade-in and image lazy loading (main.js.js:80-99, 315-331), smooth-scroll anchors (main.js.js:286-298), `console.log` (main.js.js:313) and the `module.exports` event stub (main.js.js:334-342): thin wrappers over browser APIs with no logic of their own.
- Reading the platform from the icon's Font Awesome class name (main.js.js:261): the platform is an input of `SocialClick`.
- The language is matched as a literal attribute value. A language containing CSS selector syntax (quotes, brackets) would change or break the `querySelector` selector. That is not modelled. A button without a `data-lang` attribute is not modelled either.
- Messages.PlatformName: does not model inherited object properties. A language such as `toString` would find an inherited function in JavaScript instead of falling back to the platform. Every call site passes ru, en or ar, and for those the model and the code agree.
- Notification markup other than its message, and the `.notification` elements the page markup might itself contain, are not modelled. The list holds only the notifications the script creates.
