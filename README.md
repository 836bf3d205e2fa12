# Portfolio page state, modelled in Dafny

This project models the stateful logic of a single-page React portfolio.
The page is a header, a hero banner, and the About, Experience,
Certifications, Projects and Contact sections.

- **Contact** (`contact.dfy`). The form holds three text fields. Submitting
  it builds a `mailto:` link with `encodeURIComponent`, then records success
  or an error.
- **URI encoding** (`uri.dfy`, `utf16.dfy`). `encodeURIComponent` and
  `decodeURIComponent` follow section 19.2.6 of ECMA-262: UTF-16 code units
  become UTF-8 octets (RFC 3629), written as `%HH` triplets (section 2.1 of
  RFC 3986).
  - JavaScript strings are sequences of UTF-16 code units, so a lone
    surrogate can be represented. Encoding one throws `URIError`.
  - The link is read back with the `mailto:` grammar of section 2 of
    RFC 6068.
- **Certifications** (`certifications.dfy`). A carousel index over two
  parallel lists is advanced by a timer and set by card clicks. The download
  file name is derived from the issuer. The section has a visibility latch
  fed by an IntersectionObserver.
- **Projects** (`projects.dfy`). One slot names the project whose detail
  modal is open.
- **Hero** (`hero.dfy`). An iframe load flag draws a fallback while it is
  unset. Once it is set, an effect types a fixed line into a span, one
  scheduled callback per character, and registers two hover listeners.
- **Header** (`header.dfy`). It holds a scrolled flag, the mobile menu flag,
  and the nav anchors `#` + lower-cased item name.
- **About and Experience** (`about.dfy`, `experience.dfy`). Each has a
  one-shot visibility flag. About's is fed by scroll position, Experience's
  by an IntersectionObserver.
- **Shared latch** (`latch.dfy`). The flag step, the observer's
  observe/unobserve bookkeeping and the animate-variant choice are shared by
  these sections.

Each component whose handlers update state in place is a `class`.
- Its fields are the component's state and the listeners or observed
  elements it registers.
- Its methods are the handlers and effects.
- Browser inputs are method parameters: timer ticks, scroll readings,
  observer entries, iframe loads and ref attachment.

String building, encoding and parsing are pure functions with lemmas.

The hero's per-character callbacks are not cancelled at unmount; the
cleanup kills only the timeline. A callback that fires after unmount finds
the span detached and changes nothing.

## Model

| member | source | states |
|---|---|---|
| Contact.ContactForm.constructor | src/components/Contact.tsx:4-10 | the form starts with three empty fields, not submitting, status idle, and the submit button enabled |
| Contact.ContactForm.HandleChange | src/components/Contact.tsx:12-18 | the field the event names takes the new value; the other two fields, the flag, the status and whether the submit button is disabled are unchanged |
| Contact.ContactForm.HandleSubmit | src/components/Contact.tsx:20-40 | submitting ends with the flag false, so the submit button enabled again, on every path. If both encodings succeed, it navigates to the mailto link, sets status success and clears all three fields. If one throws, it does not navigate, sets status error and keeps the fields |
| Contact.MailtoRoundTrip | src/components/Contact.tsx:26-28 | a built link parses as a mailto URI to the fixed recipient with exactly two fields, subject then body. Percent-decoding them gives back "Message from " + name and message + "\n\nFrom: " + name + "\nEmail: " + email |
| Contact.MailtoFailsIffIllFormed | src/components/Contact.tsx:28-36 | building the link throws if and only if the name, the e-mail or the message holds an unpaired surrogate |
| Contact.ParseLink | src/components/Contact.tsx:28 | when neither encoded value holds '&' or '=', the template reads back as recipient, subject field and body field |
| Contact.IndexOf | src/components/Contact.tsx:28 | the first occurrence of a code unit in a string, or none exactly when it does not occur |
| Uri.EncodeFailsIffIllFormed | src/components/Contact.tsx:28 | encodeURIComponent throws if and only if the string is not well-formed UTF-16 |
| Uri.EncodedFormAlphabet | src/components/Contact.tsx:28 | encoded text holds only A-Z, a-z, 0-9, the marks -_.!~*'() and '%' followed by upper-case hexadecimal digits |
| Uri.EncodeHasNoDelimiters | src/components/Contact.tsx:28 | encoded text never holds '&', '=', '?' or '#' |
| Uri.EncodeForm | src/components/Contact.tsx:28 | encoded text is a run of unescaped units and %HH triplets |
| Uri.PercentEncodeForm | src/components/Contact.tsx:28 | a run of octets written as triplets keeps that shape in front of any encoded text |
| Uri.DecodeEncode | src/components/Contact.tsx:28 | decodeURIComponent of encodeURIComponent(s) is s for every well-formed s |
| Uri.DecodeCodePoint | src/components/Contact.tsx:28 | decoding the triplets of one code point's UTF-8 octets yields that code point's UTF-16 units, then the rest decoded |
| Uri.Utf8RoundTrip | src/components/Contact.tsx:28 | the UTF-8 octets of a non-surrogate code point decode to that code point, with the lead octet's leading ones counting the octets |
| Uri.ReadOctetsOfEncoded | src/components/Contact.tsx:28 | reading m triplets back from written octets returns those octets |
| Uri.HexRoundTrip | src/components/Contact.tsx:28 | the hexadecimal digit written for a value reads back as that value |
| Uri.PercentEncode | src/components/Contact.tsx:28 | each octet becomes exactly three code units |
| Uri.HexDigit | src/components/Contact.tsx:28 | the digit written is an upper-case hexadecimal digit |
| Utf16.CodePointAt | src/components/Contact.tsx:28 | the code point read at an index spans one or two units inside the string |
| Utf16.CodePointAtRoundTrip | src/components/Contact.tsx:28 | the code point read at an index is never a surrogate, and writing it back in UTF-16 gives the units it was read from |
| Utf16.WellFormedFront | src/components/Contact.tsx:28 | a string is well-formed exactly when its first code point is not an unpaired surrogate and the rest is well-formed |
| Utf16.WellFormedConcat | src/components/Contact.tsx:26-27 | joining two strings at a seam without surrogates is well-formed exactly when both parts are |
| Utf16.Lit | src/components/Contact.tsx:26-28 | an ASCII template literal becomes code units of the same length, each keeping its code, with no surrogate |
| Latch.RunKeepsSet | src/components/About.tsx:13-15 | once the visibility flag is set, no sequence of later inputs clears it |
| Latch.RunIff | src/components/Experience.tsx:10-13 | after any sequence of inputs the flag is set exactly when it was set before or one input fired |
| Latch.VisibleAfterRun | src/components/Experience.tsx:52-66 | after any run of inputs the Experience heading and timeline, and the About container, animate to "visible" exactly when the flag was already set or one input fired; once "visible", they stay so |
| Latch.UnobserveWhatWasObserved | src/components/Certifications.tsx:58-76 | observing the ref when it is set and then unobserving the same ref leaves nothing observed; with a null ref neither call does anything |
| Certifications.Next | src/components/Certifications.tsx:80-82 | a tick maps i to i + 1, or to 0 after the last card, so the index stays in [0, N) |
| Certifications.Advance | src/components/Certifications.tsx:81 | any number of ticks keeps the index in [0, N) |
| Certifications.AdvanceUp | src/components/Certifications.tsx:81 | before the last card, k ticks move the index k cards on |
| Certifications.AdvanceCompose | src/components/Certifications.tsx:81 | a ticks then b ticks equal a + b ticks |
| Certifications.FullCycle | src/components/Certifications.tsx:81 | N consecutive ticks bring the index back to where it started |
| Certifications.HighlightedCards | src/components/Certifications.tsx:144-149 | exactly one card is highlighted, the one at the active index |
| Certifications.OneLatestCard | src/components/Certifications.tsx:158 | exactly one card is badged "Latest": the first; every other card is badged "Completed" |
| Certifications.DropWhitespace | src/components/Certifications.tsx:198 | stripping a whitespace run leaves a suffix that is empty or starts with a non-whitespace character |
| Certifications.ReplaceLeavesNoWhitespace | src/components/Certifications.tsx:198 | replace(/\s+/g, '-') leaves no whitespace |
| Certifications.ReplaceKeepsPlainText | src/components/Certifications.tsx:198 | text without whitespace is left unchanged |
| Certifications.ReplaceConcat | src/components/Certifications.tsx:198 | the replacement works piece by piece when the seam is not inside a whitespace run |
| Certifications.ReplaceRun | src/components/Certifications.tsx:198 | a maximal whitespace run between two pieces becomes exactly one '-' |
| Certifications.DropWhitespaceRun | src/components/Certifications.tsx:198 | stripping a whole whitespace run in front of a non-whitespace character leaves what follows the run |
| Certifications.DropWhitespaceConcat | src/components/Certifications.tsx:198 | a run that ends inside a piece is not lengthened by what follows the piece |
| Certifications.DropWhitespaceKeepsLast | src/components/Certifications.tsx:198 | stripping a leading run keeps a final non-whitespace character |
| Certifications.FileNameHasNoWhitespace | src/components/Certifications.tsx:198 | the derived download name holds no whitespace |
| Certifications.TwoWordFileName | src/components/Certifications.tsx:198 | two words around one whitespace character become word-word-certificate.jpg |
| Certifications.DerivedNameIsUsed | src/components/Certifications.tsx:88 | the derived name is never empty, so `filename \|\| "certificate.jpg"` keeps it and the default is never used by the Download button |
| Certifications.CertificationsSection.constructor | src/components/Certifications.tsx:5-7 | the carousel starts at card 0, hidden, observing nothing |
| Certifications.CertificationsSection.Mount | src/components/Certifications.tsx:57-84 | the section element is captured and observed when set, and the interval is armed |
| Certifications.CertificationsSection.Tick | src/components/Certifications.tsx:79-84 | an armed tick moves to the next card, wrapping after the last; nothing else changes |
| Certifications.CertificationsSection.SelectCard | src/components/Certifications.tsx:148 | a click on card k shows exactly card k; the flag, the observer and the interval are unchanged |
| Certifications.CertificationsSection.OnIntersection | src/components/Certifications.tsx:59-64 | an intersecting entry sets the flag, any other leaves it; the flag never goes back to false |
| Certifications.CertificationsSection.Unmount | src/components/Certifications.tsx:72-83 | the cleanup unobserves the element captured at mount and clears the interval |
| Certifications.CertificationsSection.ActiveCertificate | src/components/Certifications.tsx:189-190 | the image and the record at the active index are always in bounds |
| Certifications.CertificationsSection.ActiveDownloadName | src/components/Certifications.tsx:196-199 | the Download button saves the active card's image under the name derived from its issuer, which holds no whitespace |
| Certifications.ClickThenTick | src/components/Certifications.tsx:79-84 | a click on card k while the interval runs, then a tick, shows the card after k, or the first card after the last |
| About.AboutSection.constructor | src/components/About.tsx:5 | the section starts hidden with no listener, its container animating to "hidden" |
| About.AboutSection.HandleScroll | src/components/About.tsx:8-17 | the flag is set when the element exists and its top is above 0.75 of the window height, and is otherwise unchanged |
| About.AboutSection.Mount | src/components/About.tsx:19-20 | the listener is registered and a check runs at once, so a section already in the band shows without scrolling |
| About.AboutSection.OnScroll | src/components/About.tsx:19 | a scroll while listening applies the check; the flag never goes back to false, so a container animating to "visible" keeps doing so |
| About.AboutSection.Unmount | src/components/About.tsx:21 | the cleanup removes the listener and keeps the flag |
| About.MissingNeverFires | src/components/About.tsx:9-10 | a check that finds no element changes nothing |
| About.ScrollRun | src/components/About.tsx:13-15 | after any run of scroll readings the section is visible exactly when it was already, or one reading was in the band |
| Experience.CleanupAsWrittenKeepsObserving | src/components/Experience.tsx:24-28 | the cleanup as written reads the ref after React has nulled it, so an observed heading stays observed |
| Experience.CleanupCapturedReleases | src/components/Experience.tsx:20-28 | a cleanup that unobserves the element captured at mount leaves nothing observed |
| Experience.ExperienceSection.constructor | src/components/Experience.tsx:5-6 | the section starts hidden, with no ref and nothing observed; the heading and the timeline animate to "hidden" |
| Experience.ExperienceSection.Mount | src/components/Experience.tsx:20-22 | the heading is observed when the ref is set |
| Experience.ExperienceSection.OnIntersection | src/components/Experience.tsx:10-13 | an intersecting first entry sets the flag, so the heading and the timeline animate to "visible"; any other entry leaves them as they were; once "visible", they stay so |
| Experience.ExperienceSection.Unmount | src/components/Experience.tsx:24-28 | React detaches the ref, then the cleanup reads the null ref and unobserves nothing: the observed set is unchanged |
| Experience.MountThenUnmount | src/components/Experience.tsx:8-29 | mounting then unmounting leaves the observer still watching the heading whenever it was attached |
| Projects.ProjectIdsDistinct | src/components/Projects.tsx:25-53 | the academic project ids are pairwise distinct |
| Projects.ViewCodeCards | src/components/Projects.tsx:119-131 | only the card with a non-empty github string shows View Code |
| Projects.ModalFor | src/components/Projects.tsx:183-189 | "agriculture" opens the agriculture modal and "petcare" the pet feeder modal, each exactly for its id |
| Projects.AtMostOneModal | src/components/Projects.tsx:183-189 | at most one modal renders: none for an empty slot, otherwise the one the slot's id opens |
| Projects.ReadMoreOpensItsModal | src/components/Projects.tsx:133 | Read More on any academic card makes exactly one modal render |
| Projects.ProjectsSection.constructor | src/components/Projects.tsx:23 | the slot starts empty |
| Projects.ProjectsSection.HandleProjectClick | src/components/Projects.tsx:74-76 | the slot holds the clicked id, whatever it held before |
| Projects.ProjectsSection.HandleCloseProject | src/components/Projects.tsx:78-80 | the slot is emptied, whatever it held |
| Projects.ProjectsSection.Modals | src/components/Projects.tsx:183-189 | at most one modal renders, and none while the slot is empty |
| Projects.CloseTwice | src/components/Projects.tsx:78-80 | closing twice leaves the slot empty and no modal rendered, as closing once does |
| Hero.Schedule | src/components/Hero.tsx:105-115 | one callback per character, the i-th appending character i |
| Hero.ScheduleIncreasing | src/components/Hero.tsx:107 | a later character's delay is strictly larger, so the callbacks fire in index order |
| Hero.SchedulePop | src/components/Hero.tsx:105-111 | the earliest pending callback is the one for the next character, it fires before all other pending ones, and after it one more character is typed |
| Hero.Appended | src/components/Hero.tsx:111 | firing callbacks appends their characters in firing order |
| Hero.AppendedPrefix | src/components/Hero.tsx:91-111 | the first k callbacks append exactly the first k characters of the line |
| Hero.BuildSchedule | src/components/Hero.tsx:105-115 | the forEach schedules exactly the callbacks of the line |
| Hero.HeroSection.constructor | src/components/Hero.tsx:17-18 | the page mounts with the 3D flag unset, so the gradient fallback drawn, an empty span, nothing scheduled and no listeners |
| Hero.HeroSection.OnLoad | src/components/Hero.tsx:192 | the flag becomes set and the fallback is no longer drawn. Only the first load runs the effect, which empties the span and schedules the line when both typing refs are attached, and adds the two hover listeners when the button is attached |
| Hero.HeroSection.RunEffect | src/components/Hero.tsx:33-173 | the effect empties the span before scheduling any character, and registers exactly mouseenter and mouseleave; the fallback stays hidden |
| Hero.HeroSection.FireNext | src/components/Hero.tsx:109-113 | the earliest pending callback fires. It appends its character while the span is attached and otherwise changes nothing; whether the fallback is drawn is unchanged |
| Hero.HeroSection.Unmount | src/components/Hero.tsx:166-170 | the cleanup removes exactly the two hover listeners the effect added; the flag, the span, the pending callbacks and the fallback are unchanged |
| Hero.TypingComplete | src/components/Hero.tsx:91-111 | once every callback has fired with the span attached, the span holds exactly the line |
| Hero.TypingPrefix | src/components/Hero.tsx:94-111 | while the span is attached its text is always a prefix of the line |
| Header.AsciiLower | src/components/Header.tsx:47 | lower-casing keeps the length, lowers every upper-case letter and keeps every other character |
| Header.NavTargetsSections | src/components/Header.tsx:17 | the i-th nav link targets "#" + the id of the i-th section: home, about, experience, certifications, projects, contact |
| Header.SectionIdsDistinct | src/components/Header.tsx:17 | the section ids are pairwise distinct, so each link reaches one section |
| Header.CtaTargetsContact | src/components/Hero.tsx:294 | the hero's call to action targets the contact section, the same target as the Contact nav link |
| Header.HeaderBar.constructor | src/components/Header.tsx:6-7 | the header starts not scrolled, with the menu closed and no mobile link rendered |
| Header.HeaderBar.Mount | src/components/Header.tsx:13 | the effect registers the scroll listener |
| Header.HeaderBar.OnScroll | src/components/Header.tsx:10-11 | while listening, scrolled becomes true exactly when scrollY > 10 |
| Header.HeaderBar.ToggleMenu | src/components/Header.tsx:64 | the menu button negates the open flag, so the mobile links appear when they were absent and vanish when they were shown |
| Header.HeaderBar.HandleNavClick | src/components/Header.tsx:19-21 | a mobile nav click always leaves the menu closed and no mobile link rendered |
| Header.HeaderBar.Unmount | src/components/Header.tsx:14 | the cleanup removes the scroll listener |
| Header.HeaderBar.MobileLinks | src/components/Header.tsx:72-98 | the mobile links render exactly while the menu is open, and then the i-th link is "#" + the id of the i-th section of the page |
| Header.ToggleTwice | src/components/Header.tsx:64 | two presses of the menu button restore the menu's state |

## Left out

- Animation is not modelled: GSAP timelines, framer-motion variants, springs, stagger offsets, the blinking cursor and the random orbs. They are floating-point interpolation inside libraries. Only the order of the typewriter delays is kept, as integer milliseconds.
- Browser I/O is not modelled.
  - Navigating to the mailto link is left out: `HandleSubmit` returns the link it would navigate to.
  - The `console.error` call on failure is left out.
  - The download anchors that are created, clicked and removed are left out. The resume download is left out entirely.
  - Loading the external iframe is left out.
- Timers are method calls: an interval tick is `Tick` and a typewriter callback is `FireNext`. The five-second cadence is not modelled. Neither are the 0.1 threshold of the observers and the real pixel geometry behind a scroll reading; they are inputs.
- Form validation is not modelled. The `required` attributes (src/components/Contact.tsx:81, src/components/Contact.tsx:97, src/components/Contact.tsx:113) and `type="email"` (src/components/Contact.tsx:92) make the browser refuse to submit an empty or malformed field. `HandleSubmit` accepts any field values.
- Hero.HeroSection.FireNext: it takes callbacks strictly in delay order. That relies on the timer resolution being finer than 30 ms, which is not modelled.
- Header.AsciiLower: it lower-cases ASCII letters only, where `toLowerCase` covers all of Unicode. Every nav item is ASCII.
- Hero.Schedule: the line is split into Dafny characters, where `split('')` splits into UTF-16 code units. The line is ASCII, so both give the same sequence.
- The internship project cards in src/components/Projects.tsx:56-72 are static markup with no state, and are left out.
- The detail modal components are not part of this model. Their only behaviour is calling the close handler, which is `HandleCloseProject`.
- src/App.tsx, src/components/Footer.tsx and the styling configuration are not part of this model.
- The concrete file name of each listed issuer is not computed. `TwoWordFileName` states the rule for two-word issuers in general, and unfolding the replacement over a literal issuer is too costly for the solver.

## Findings

| source | as written | input that shows it | evidently intended | confidence | as-written member | corrected member |
|---|---|---|---|---|---|---|
| src/components/Experience.tsx:24-28 | the cleanup re-reads `experienceRef.current` when it runs. On unmount React has already nulled the ref, so `unobserve` is skipped | mount with the heading attached (ref = element e), then unmount: the ref is null at cleanup, and e is still observed | unobserve the element captured when the effect ran, as src/components/Certifications.tsx:58-76 does | medium, not executed | Experience.CleanupAsWrittenKeepsObserving | Experience.CleanupCapturedReleases |
