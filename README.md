# Portfolio site core, modelled in Dafny

This project models the logic inside a single-page React portfolio site. The site has a
navigation bar that follows the section being read, and a small text-splitting utility
for animations. Its contact section holds a simulated message form. Its certificates,
experience and projects sections derive labels, tabs and identifiers from a static data
file. The performance helper picks an animation budget from the device.

Each part of the site is one module:

- `Navbar` models the navigation bar and its `Tracker` class. The class holds
  `activeSection` and `isOpen`. The intersection-observer callback becomes a method with a
  loop, proved against `Winner`, a fold that picks the first entry with the largest ratio.
  A nav link click becomes a method. It takes the set of ids present in the document as a
  parameter, because the model has no document. The scroll target becomes an
  out-parameter.
- `SplitText` models the utility as a class over an `Element` class. The element stands
  for a DOM node and holds text and children. `Split` dispatches on the options to
  `SplitChars`, `SplitWords` or `SplitLines`. Those three are loops, proved against the
  functions `CharSpans`, `WordSpans` and `LineDivs`.
- `Contact` models the form as a class with `formData`, `isSubmitting` and `submitStatus`.
  It also holds the project counts, the displayed role, the social-link target rule and
  the message counter.
- `Certificates`, `Experience` and `Projects` hold the pure derivations of those
  sections. `Tabs` holds the filter-tab state that the certificates and projects sections
  both use.
- `Performance` models `getOptimizedAnimationConfig`.
- `JsStrings` and `JsCollections` model the JavaScript built-ins the core relies on, with
  JavaScript's edge cases:
  - `split` on the empty string gives one empty piece.
  - `replace` with a string pattern replaces only the first match.
  - `trim` removes the ECMAScript whitespace set.
  - `x || d` falls back on `""` as well as on a missing value.
  - `String(n)` and `padStart` behave as in JavaScript; `padStart` never truncates.
  - `[...new Set(xs)]` keeps the first occurrence of each element, in order.
- `PortfolioData` holds the records and the shipped data.

Inputs the model cannot compute become parameters:
- `navigator.hardwareConcurrency` is an `Option<int>`, so a missing value can be expressed.
- The reduced-motion media query is a `bool`.
- Intersection ratios are the entries of a batch.
- `document.getElementById` is a set of present ids.

Notes on the code's behaviour:

- The active section is always a navigation section id. The observer watches only the
  navigation sections, and the click handler is attached only to the links inside the
  bar, which are the navigation items. `ActiveSectionStaysNavId` proves that a batch naming
  navigation sections and a click on a navigation item both keep the section a navigation
  id. `NavSectionInvariant` shows the same for a `Tracker` object going through both kinds
  of event.
- A bare `#` link has its default prevented but selects nothing, because
  `getElementById("")` finds no element (`BareHashSelectsNothing`).
- Ties for the largest ratio go to the first such entry, because the code compares with a
  strict `>`.
- The shipped data make the year labels month names. The durations start with a month and
  use an en dash, so `split(' ')[0].split('-')[0]` gives `March` and `July`, not years.
  `ShippedYearLabels` proves this.
- The projects section keeps an `activeFilter` and styles the selected tab, but its grid
  renders every project whatever the filter is.

## Model

| member | source | states |
|---|---|---|
| Navbar.NavIds | src/components/Navbar.jsx:4-12 | One section id per nav item: the href without its leading `#`. |
| Navbar.NavIdsDistinct | src/components/Navbar.jsx:4-12 | The seven section ids are pairwise distinct. |
| Navbar.Winner | src/components/Navbar.jsx:58-66 | The winning index, when there is one, is a position of the batch. |
| Navbar.WinnerIsFirstMaximum | src/components/Navbar.jsx:58-66 | There is no winner exactly when no ratio is positive. Otherwise the winner has a positive ratio, no entry has a larger one, and every earlier entry has a strictly smaller one. |
| Navbar.NextSection | src/components/Navbar.jsx:69-71 | The section after a batch: the winner's id when its ratio exceeds 0.1, else the old section. Its properties are in the lemmas below. |
| Navbar.NextSectionFromBatch | src/components/Navbar.jsx:69-71 | The section changes only to the target id of an entry in the batch. |
| Navbar.NextSectionAdopts | src/components/Navbar.jsx:69-71 | A change adopts the winner's id. A winner above the 0.1 threshold is always adopted. |
| Navbar.QuietBatchKeepsSection | src/components/Navbar.jsx:69-71 | A batch with no ratio above 0.1 leaves the section unchanged. |
| Navbar.SoleVisibleSectionWins | src/components/Navbar.jsx:58-71 | When exactly one entry is above 0.1, its target becomes the active section. |
| Navbar.NextSectionStaysKnown | src/components/Navbar.jsx:55-83 | From a nav id, a batch of nav-id targets always leads to a nav id. |
| Navbar.ClickTarget | src/components/Navbar.jsx:86-104 | A click selects an id exactly when the href exists, starts with `#`, and names a non-empty id of a present element. The selected id is the href without its `#`. |
| Navbar.BareHashSelectsNothing | src/components/Navbar.jsx:88-93 | A bare `#` href selects no section, whatever the page holds. |
| Navbar.ActiveSectionStaysNavId | src/components/Navbar.jsx:55-110 | From a navigation id, a batch of navigation-section entries and a click on any navigation item both leave the section a navigation id. |
| Navbar.NavSectionInvariant | src/components/Navbar.jsx:55-110 | A tracker on a navigation id stays on one through a batch, a desktop link click and a mobile link click. |
| Navbar.NavLinkClickSelects | src/components/Navbar.jsx:86-104 | Clicking nav item `i` whose section is present selects that section's id. |
| Navbar.IsActiveLink | src/components/Navbar.jsx:171 | A desktop link is active when the active section equals its href without the `#`. |
| Navbar.ActiveLinks | src/components/Navbar.jsx:170-171 | The positions of the active desktop links; `OneActiveLink` bounds them. |
| Navbar.OneActiveLink | src/components/Navbar.jsx:170-171 | At most one nav link is styled active. Exactly one is when the active section is a nav id. |
| Navbar.Tracker.constructor | src/components/Navbar.jsx:15-16 | Starts with section `hero` and the menu closed. |
| Navbar.Tracker.HandleIntersection | src/components/Navbar.jsx:56-72 | The loop leaves the active section equal to `NextSection` of the old section and the batch. The menu is untouched. |
| Navbar.Tracker.HandleNavClick | src/components/Navbar.jsx:86-104 | The default is prevented exactly for `#` hrefs. The scroll target is `ClickTarget`. The section becomes that target when there is one. |
| Navbar.Tracker.ToggleMenu | src/components/Navbar.jsx:127-129 | The menu state flips and the section stays. |
| Navbar.Tracker.HandleMobileLinkClick | src/components/Navbar.jsx:234-238 | A mobile link runs the nav-click handler, then flips the menu. |
| SplitText.Element.constructor | src/utils/splitText.js:3-4 | An element holding the given text and no children. |
| SplitText.Dispatch | src/utils/splitText.js:17-28 | The split type defaults to `chars`. `chars` wins over `words`, which wins over `lines`, by substring test. Otherwise nothing is split. |
| SplitText.WithNbsp | src/utils/splitText.js:38 | Same length as the text. |
| SplitText.PieceTexts | src/utils/splitText.js:41 | One text per piece, in order. |
| SplitText.CharSpans | src/utils/splitText.js:31-43 | One inline-block span per character of the text, with the class and no-break spaces; `CharSplitSpec` states it. |
| SplitText.WordSpans | src/utils/splitText.js:45-62 | One inline-block span per word, the margin on all but the last; `WordSplitSpec` states it. |
| SplitText.LineDivs | src/utils/splitText.js:64-76 | One div per line; `LineSplitSpec` states it. |
| SplitText.Pieces | src/utils/splitText.js:15-76 | The nodes a split produces: character, word or line pieces as `Dispatch` selects, with the default class names, or none. |
| SplitText.Texts | src/utils/splitText.js:40 | The text content of an element holding the pieces: their texts concatenated in order. |
| SplitText.CharSplitSpec | src/utils/splitText.js:31-43 | One inline-block span per character, with the option's class. Each span's text is its character, with a space turned into a no-break space. Together the spans spell the text, with no-break spaces. |
| SplitText.CharSplitKeepsSpaceFreeText | src/utils/splitText.js:31-43 | For text without spaces, the character spans spell the text back exactly. |
| SplitText.WordSplitSpec | src/utils/splitText.js:45-62 | One more word span than spaces. The span texts are the space-split words and join back to the text. Every span except the last has the right margin. |
| SplitText.LineSplitSpec | src/utils/splitText.js:64-76 | One more line div than newlines. The div texts are the lines and join back to the text. |
| SplitText.SplitText.constructor | src/utils/splitText.js:3-13 | Empty lists for a missing element. Otherwise the element is split once, as `Split` states. |
| SplitText.SplitText.Split | src/utils/splitText.js:15-29 | The element's children become the pieces its old text dispatches to. Exactly the list of the chosen kind grows by those pieces. |
| SplitText.SplitText.Append | src/utils/splitText.js:40 | Appending a child adds it last and extends the text content by its text. |
| SplitText.SplitText.SplitChars | src/utils/splitText.js:31-43 | The loop appends exactly `CharSpans` of the text to the element and to `chars`. |
| SplitText.SplitText.SplitWords | src/utils/splitText.js:45-62 | The loop appends exactly `WordSpans` of the space-split text to the element and to `words`. |
| SplitText.SplitText.SplitLines | src/utils/splitText.js:64-76 | The loop appends exactly `LineDivs` of the newline-split text to the element and to `lines`. |
| SplitText.SplitText.Revert | src/utils/splitText.js:78-82 | With a non-empty saved text, the element's text is restored to it. Since nothing ever saves the text, reverting changes nothing. |
| Performance.IsLowEndDevice | src/utils/performance.js:40 | Four cores or fewer; a missing core count compares false, so it is not low-end. |
| Performance.OptimizedAnimationConfig | src/utils/performance.js:39-49 | Reduced motion gives 0 particles and duration 0. A low-end device gives 3 and 0.5. Otherwise 6 and 1. Complex animations and parallax are on exactly when motion is not reduced and the device is not low-end. |
| Performance.ConfigConsistency | src/utils/performance.js:39-49 | There are six particles exactly when complex animations are on. The duration is 0 exactly under reduced motion. There are no particles exactly when the duration is 0. |
| Performance.ConfigMonotone | src/utils/performance.js:40-45 | More cores never give fewer particles or a shorter duration. |
| Contact.EmptyForm | src/sections/Contact.jsx:16-21 | The four field names, each mapped to `""`. |
| Contact.ContactForm.constructor | src/sections/Contact.jsx:16-23 | Starts with empty fields, not submitting, and no status. |
| Contact.ContactForm.HandleInputChange | src/sections/Contact.jsx:225-227 | The named field takes the value. Every other field and the status are unchanged. |
| Contact.ContactForm.HandleSubmit | src/sections/Contact.jsx:243-245 | Submitting starts. Fields and status are unchanged. |
| Contact.ContactForm.CompleteSubmit | src/sections/Contact.jsx:258-260 | Sending ends and the status becomes `success`. Fields are unchanged. |
| Contact.ContactForm.ResetForm | src/sections/Contact.jsx:269-275 | The fields are cleared. The success status stays. |
| Contact.SubmissionScenario | src/sections/Contact.jsx:225-302 | Typing, submitting and both timers end with empty fields, not submitting, and the success message showing. |
| Contact.CountWithStatus | src/sections/Contact.jsx:27-28 | The count is at most the number of projects. It is 0 exactly when no project has that status. |
| Contact.CompletedAndLiveBounded | src/sections/Contact.jsx:26-28 | The completed and live counts together are at most the total. |
| Contact.ShippedProjectCounts | src/data/portfolioData.js:41-84 | No shipped project has a status, so both counts are 0. |
| Contact.RoleLabel | src/sections/Contact.jsx:330 | The trimmed text before the first `(`, or the whole trimmed role when there is none. The label never holds `(`. |
| Contact.LinkTarget | src/sections/Contact.jsx:480 | `_blank` exactly when the url starts with `http`, and `_self` exactly when it does not. |
| Contact.SocialLinkTargets | src/sections/Contact.jsx:336-340 | LinkedIn and GitHub open in a new tab. The mail link and the `#hero` link do not. |
| Contact.MessageCounter | src/sections/Contact.jsx:622 | Decimal digits whose value is the message length, followed by `/500`. |
| Tabs.FilterTabs.constructor | src/sections/Certificates.jsx:15 | The filter starts at `all`. |
| Tabs.FilterTabs.SelectTab | src/sections/Projects.jsx:355 | A tab click sets the filter to its category. |
| Tabs.SelectedTabsOfDistinct | src/sections/Projects.jsx:356-364 | With distinct categories, at most one tab is selected. Exactly one is when the filter is one of them. |
| Tabs.ClickScenario | src/sections/Certificates.jsx:363-368 | After clicking any tab of a distinct list, exactly one tab is selected. |
| Certificates.CategoryOf | src/sections/Certificates.jsx:19 | A certificate's category, or `professional` when it is missing or empty. |
| Certificates.CertCategories | src/sections/Certificates.jsx:19 | One category per certificate, in data order. |
| Certificates.Categories | src/sections/Certificates.jsx:19 | The list is non-empty and starts with `all`. |
| Certificates.CategoriesSpec | src/sections/Certificates.jsx:19 | After `all` come the certificates' categories (with `professional` as the default). Each appears exactly once, nothing else appears, and each is in the order of its first occurrence. |
| Certificates.ShouldShow | src/sections/Certificates.jsx:285-286 | A card is shown under `all`, or when its category equals the filter. |
| Certificates.EveryTabShowsACertificate | src/sections/Certificates.jsx:285-286 | Every category tab after `all` shows at least one certificate. |
| Certificates.UnknownFilterShowsNothing | src/sections/Certificates.jsx:285-286 | A filter that is neither `all` nor a derived category shows no card. |
| Certificates.CardTarget | src/sections/Certificates.jsx:288-292 | Opacity 1 and scale 1 exactly when shown. Both are below 1 when hidden. |
| Certificates.GeneratedId | src/sections/Certificates.jsx:503 | `CERT-` followed by at least four digits, zero-padded to four and never truncated. Their value is index + 1. |
| Certificates.CredentialId | src/sections/Certificates.jsx:503 | A non-empty `credentialId`, else the generated id. |
| Certificates.FirstGeneratedId | src/sections/Certificates.jsx:503 | The first card without an id shows `CERT-0001`. |
| Certificates.TabLabel | src/sections/Certificates.jsx:377 | The tab's text is `All` for `all`; for any other category it is the category. |
| Certificates.DisplayCategory | src/sections/Certificates.jsx:454 | `Professional` when the category is missing. Any other label is the certificate's own category. |
| Certificates.DisplayDate | src/sections/Certificates.jsx:465 | `Completed` when the date is missing. Any other label is the certificate's own date. |
| Certificates.SelectedCertificateTab | src/sections/Certificates.jsx:363-378 | Unless a certificate's category is itself `all`, at most one tab is selected. Exactly one is when the filter is a tab. |
| Certificates.AllCategoryDuplicatesTab | src/sections/Certificates.jsx:19 | A certificate with category `all` produces a second `all` tab, and both tabs show as selected. |
| Certificates.ShippedCategories | src/sections/Certificates.jsx:19 | The shipped certificates have no category, so the tabs are `all` and `professional`. |
| Experience.YearLabel | src/sections/Experience.jsx:248-251 | The label is the longest prefix of the duration with neither a space nor a `-`. |
| Experience.LabelBeforeSeparator | src/sections/Experience.jsx:249 | A duration whose first space or `-` is at `n` is labelled with its first `n` characters. |
| Experience.YearLabels | src/sections/Experience.jsx:248-251 | One label per entry, in data order. |
| Experience.UniqueYears | src/sections/Experience.jsx:253 | `[...new Set(years)]` of the labels; `UniqueYearsSpec` states what it holds. |
| Experience.UniqueYearsSpec | src/sections/Experience.jsx:253 | Every entry's label is present and nothing else is. No label appears twice. Labels are in order of first occurrence, and there are no more of them than entries. |
| Experience.UniqueYearsOfDistinct | src/sections/Experience.jsx:253 | Labels that are already distinct are kept as they are. |
| Experience.ShippedYearLabels | src/data/portfolioData.js:17-29 | The shipped entries are labelled `March` and `July`. |
| Experience.TwoDistinctLabels | src/sections/Experience.jsx:253-261 | Two distinct labels give two markers, at 0% and at 100%. |
| Experience.ShippedYearMarkers | src/sections/Experience.jsx:253-261 | The shipped timeline gets `March` at 0% and `July` at 100%. |
| Experience.YearMarkers | src/sections/Experience.jsx:255-261 | One marker per unique label, in order, carrying that label. |
| Experience.MarkerLeft | src/sections/Experience.jsx:261 | `index / (count - 1) * 100`, which is NaN exactly when there is a single marker. |
| Experience.MarkerPositions | src/sections/Experience.jsx:261 | With two or more markers, the first is at 0% and the last at 100%. All are within [0, 100] and strictly increasing. |
| Experience.SingleMarkerIsNaN | src/sections/Experience.jsx:261 | A lone marker's position is `0/0`, which is NaN. |
| Experience.IsAchievement | src/sections/Experience.jsx:457-459 | The lower-cased point includes `lead`, `achieve` or `success`; `AchievementSpec` characterizes it. |
| Experience.AchievementSpec | src/sections/Experience.jsx:457-459 | A point gets the badge exactly when `lead`, `achieve` or `success` occurs somewhere in its lower-cased text. |
| Experience.AchievementIgnoresCase | src/sections/Experience.jsx:457-459 | A point and its lower-cased form get the same verdict. |
| Experience.CapitalLeadIsAchievement | src/sections/Experience.jsx:457 | A point containing `LEAD` in capitals gets the badge. |
| Experience.RolesStat | src/sections/Experience.jsx:516 | Decimal digits whose value is the number of entries, then `+`. |
| Projects.CategoriesShape | src/sections/Projects.jsx:289 | There are six pairwise distinct categories, starting with `all`. |
| Projects.OneProjectTabSelected | src/sections/Projects.jsx:352-364 | At most one tab is selected. Exactly one is when the filter is a category. |
| Projects.TabLabel | src/sections/Projects.jsx:366 | `category.replace('-', ' ')`; `TabLabelSpec` states what it gives. |
| Projects.TabLabelSpec | src/sections/Projects.jsx:366 | The length is kept. Without a `-` the label is the category. Otherwise the first `-` becomes a space, the rest is kept, and exactly one `-` is gone. |
| Projects.TechItems | src/sections/Projects.jsx:436-441 | The stack split on `,`, each piece trimmed; the two lemmas below state it. |
| Projects.TechItemsCount | src/sections/Projects.jsx:436 | One more tech item than commas in the stack. |
| Projects.TechItemSpec | src/sections/Projects.jsx:436-441 | Item `k` is a window of comma-piece `k`, and the pieces join back to the stack, so order is kept. No item holds a comma, and each item is its own trim. |
| Projects.TechItemsOfJoin | src/sections/Projects.jsx:436-441 | A stack written from comma-free, trimmed names lists those names back. |
| Projects.PreviewGlyph | src/sections/Projects.jsx:418 | A prefix of the title: one character, or nothing for an empty title. |
| JsStrings.StartsWith | src/sections/Contact.jsx:480 | `s.startsWith(p)`: `p` is a prefix of `s`. |
| JsStrings.Includes | src/sections/Experience.jsx:457-459 | `s.includes(p)`; `IncludesAt` characterizes it. |
| JsStrings.IncludesAt | src/sections/Experience.jsx:457-459 | `includes` holds exactly when the needle occurs at some position. |
| JsStrings.IndexOf | src/sections/Contact.jsx:330 | -1 exactly when the character is absent. Otherwise the first position of the character. |
| JsStrings.Split | src/utils/splitText.js:46 | `s.split(sep)` for one character: never empty, the empty string gives one empty piece. |
| JsStrings.Join | src/utils/splitText.js:46 | `parts.join(sep)`; the split lemmas relate it to `Split`. |
| JsStrings.JoinSplit | src/utils/splitText.js:46 | Joining the pieces of a split with the separator gives back the string. |
| JsStrings.SplitCount | src/utils/splitText.js:46 | A split has one more piece than there are separators. |
| JsStrings.SplitPiecesFree | src/utils/splitText.js:46 | No piece of a split holds the separator. |
| JsStrings.SplitJoin | src/sections/Projects.jsx:436 | Splitting a join of separator-free parts gives back the parts. |
| JsStrings.FirstPiece | src/sections/Experience.jsx:249 | `s.split(sep)[0]`: a prefix of `s` without `sep`, ending at the end of `s` or just before a `sep`. |
| JsStrings.FirstPieceIndexOf | src/sections/Experience.jsx:249 | `split(sep)[0]` is the text before the first separator, or the whole text when there is none. |
| JsStrings.ReplaceFirst | src/sections/Projects.jsx:366 | Same length. Only the first occurrence of the character is replaced. |
| JsStrings.ReplaceFirstOccurrences | src/sections/Projects.jsx:366 | Replacing the first `c` by another character removes exactly one `c` when there is one. |
| JsStrings.Lower | src/sections/Experience.jsx:457 | Same length. Each character is lower-cased. |
| JsStrings.Trim | src/sections/Projects.jsx:441 | The result is empty or starts and ends with non-whitespace. |
| JsStrings.TrimWindow | src/sections/Contact.jsx:330 | The trim is a window of the string, with only whitespace outside it. |
| JsStrings.TrimIdempotent | src/sections/Projects.jsx:441 | Trimming twice is trimming once. |
| JsStrings.NatToString | src/sections/Contact.jsx:622 | `String(n)`: at least one decimal digit, with no leading zero unless `n` is 0. |
| JsStrings.NatToStringRoundTrip | src/sections/Contact.jsx:622 | `String(n)` reads back as `n`. |
| JsStrings.NatToStringInjective | src/sections/Experience.jsx:516 | Different numbers print differently. |
| JsStrings.PadStart | src/sections/Certificates.jsx:503 | The result is as long as the target or the string, whichever is longer. The string is kept as its suffix, and the prefix is fill. |
| JsStrings.PaddedNumber | src/sections/Certificates.jsx:503 | A zero-padded number is all digits and reads back as the number. |
| JsStrings.OrElse | src/sections/Certificates.jsx:454 | The fallback is used exactly when the value is missing, empty, or equal to the fallback. Otherwise the result is the value. |
| JsCollections.Dedupe | src/sections/Certificates.jsx:19 | `[...new Set(s)]`; `DedupeSpec` characterizes it. |
| JsCollections.DedupeSpec | src/sections/Certificates.jsx:19 | `[...new Set(s)]` has no duplicates and the same elements as `s`, in order of first occurrence. |
| JsCollections.DedupeLength | src/sections/Experience.jsx:253 | Deduplicating never lengthens the list. |
| JsCollections.DedupeOfDistinct | src/sections/Experience.jsx:253 | A list without duplicates is its own dedupe. |

## Left out

- GSAP timelines, tweens, scroll triggers, particles and every visual effect are not modelled. The card opacity and scale targets are the only exception (`CardTarget`). They are presentation, with no logic of their own.
- The intersection observer's thresholds and root margin are not modelled. Only the callback on a batch of ratios is, because the browser computes the ratios.
- The scroll listener that styles the navbar is not modelled, since it is presentation.
- `scrollIntoView`, `preventDefault` and `getElementById` are not modelled as DOM effects. They become out-parameters and a set-of-ids parameter, because the model has no document.
- The two timers of the contact form's submission (2 s and 3 s) are not modelled as time. They are separate methods called in order, because clocks are outside the model.
- The form's `required` and `type="email"` validation is browser behaviour and is not modelled. So is the disabled submit button, which the browser enforces. `HandleSubmit` can therefore be called in any state.
- `Math.random` icon choices are left out, and so are the `mailto:`/`tel:`/maps `window.open` actions. They are randomness and foreign calls.
- `throttle`, `debounce`, `requestAnimFrame`, `prefersReducedMotion`'s media query and the performance monitor are left out, being browser or timing glue. The media query's result is a parameter.
- SplitText with a CSS-selector string argument is left out: `document.querySelector` is outside the model, so the constructor takes an element or nothing.
- The projects grid is not filtered by `activeFilter`. The code renders every project, so there is no filtering rule to model. Only the tab state and the selected style are modelled.
- The footer stats with fixed text (`10K+`, `99%`, `100K+`, `50+`, `∞`) and the total-projects figure (`projects.length`) are left out, having no logic.
- Lower: lower-cases ASCII letters only, whereas `toLowerCase` also handles non-ASCII letters. The shipped keywords are ASCII.
- Experience.MarkerPositions, Performance.OptimizedAnimationConfig and Navbar.WinnerIsFirstMaximum: these use exact real arithmetic, not IEEE doubles. Rounding in the marker percentages and ratio comparisons is not modelled.
- SplitText.SplitText.SplitChars: makes one span per Unicode character, whereas `text.split('')` makes one per UTF-16 code unit, so a character outside the Basic Multilingual Plane gives one span here and two half-character spans in the browser. Dafny strings are sequences of Unicode scalar values, which cannot hold lone surrogates.
- SplitText.CharSplitSpec: counts spans per Unicode character, not per UTF-16 code unit, for the same reason.
- SplitText.CharSpans: the same character-versus-code-unit difference.
- Projects.PreviewGlyph: returns the first Unicode character, whereas `charAt(0)` returns the first UTF-16 code unit, which is half of a character outside the Basic Multilingual Plane.
- Contact.MessageCounter: the length it counts is the number of characters, not UTF-16 code units as JavaScript's `length` counts.
- React's render scheduling is not modelled. Each state update takes effect at once, and closures of stale state are left out.
