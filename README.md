# RISC website: decision logic, modelled and proved in Dafny

The RISC site is a marketing and brochure web application. Most of its code renders
markup and configures an animation library. This project models the few places
where the site makes real decisions, and proves what each of them promises:

- **Section tracker** (`tracker.dfy`, module `Tracker`). The side rail highlights one of
  the four registry sections (intro, work, team, contact) as the page scrolls.
  `SectionTracker.HandleScroll` is the handler's `for` loop with its `foundActive` flag
  and its `break`, the `scrollY === 0` fallback included. It is proved equal to the
  specification function `Resolve`. `ScrollTarget` models where a click on an indicator scrolls to.
- **Team ordering** (`team_order.dfy`, module `TeamOrder`, with string helpers in
  `strings.dfy`). This is the comparator handed to `sort`: entrepreneurs in residence go last,
  detected case-insensitively, and each group is ordered by last name. The sort itself is modelled
  as an insertion sort that yields a sorted copy of the roster.
- **Contact endpoint** (`contact_route.dfy`, module `ContactRoute`). The POST handler is a
  total function from the parsed body, or a parse failure, to a status and a JSON payload.
- **mailto link** (`contact_mailto.dfy`, module `ContactMailto`, with `uri_encoding.dfy`).
  The form's submit handler builds a mailto URI (RFC 6068, section 2). Subject and body are encoded
  with `encodeURIComponent` (ECMA-262, section 19.2.6): the text becomes UTF-8 bytes (RFC 3629), and
  every byte that is not an unreserved character becomes a percent-encoded triplet
  (RFC 3986, section 2.1). It is proved that user text cannot add a delimiter to the URL, and that
  reading the URL back gives the subject and the body exactly.
- **Team entrance latch** (`team_gate.dfy`, module `TeamGate`). `animateTeam` is set by the first
  scroll value above 1000, and the listener then unsubscribes itself.
- **Publications state** (`publications.dfy`, module `Publications`). `hasScrolled` follows
  `scrollY > 50` after every event. The list holds either the fetched data or a single placeholder.

Browser geometry, scroll offsets and fetch results enter the model as parameters. The layout is a
map from element id to an optional `(offsetTop, offsetHeight)` pair. Offsets are integers.

`MessageBody` is the unencoded body `"From: " + email + "\n\n" + message`
(src/app/components/contact.tsx:30). `MailtoUrl` builds the URL
`"mailto:centerforrisc@gmail.com?subject=" + subject + "&body=" + body`, with both parts encoded
(src/app/components/contact.tsx:31). The roster feed `team` is a value, and `SortTeam` returns a new sequence. The source sorts a copy
(`[...team]`), so the feed itself is never reordered.

The intro case applies when `scrollY + 100 < 200`, that is `scrollY < 100`
(src/app/components/tracker.tsx:24-27). It returns "intro" before any section is examined.

## Model

| member | source | states |
|---|---|---|
| Tracker.SectionTracker.constructor | src/app/components/tracker.tsx:8 | the highlighted section starts as "intro" |
| Tracker.SectionTracker.HandleScroll | src/app/components/tracker.tsx:20-50 | the loop with its early break leaves exactly `Resolve(previous, scrollY, layout)` and keeps the state a registry id; the `scrollY === 0` fallback after the loop (lines 46-49) is proved unreachable inside the method, because offset 0 takes the early return at lines 24-27 |
| Tracker.Resolve | src/app/components/tracker.tsx:21-49 | biased position below 200 gives "intro" whatever the layout; otherwise the first registry entry whose half-open range contains `scrollY + 100`; no containing range keeps the previous value; the result is a registry id or the previous value |
| Tracker.FirstHit | src/app/components/tracker.tsx:30-43 | the registry scan from a given index returns the first entry that is hit, with no earlier one hit; it returns none only when no entry is hit |
| Tracker.AbsentNeverChosen | src/app/components/tracker.tsx:32-33 | a section with no element is never picked by the scan; it can only be highlighted as the top-of-page "intro" or as the value kept from before |
| Tracker.EarlierEntryWins | src/app/components/tracker.tsx:39-41 | with overlapping ranges the earlier entry wins; the geometry of entries after the first hit does not affect the result |
| Tracker.ResolveKeepsRegistryId | src/app/components/tracker.tsx:11-16 | after every call the highlighted section is one of "intro", "work", "team", "contact" |
| Tracker.ScrollTarget | src/app/components/tracker.tsx:59-67 | no scroll for an id with no element; otherwise the target is exactly the element's `offsetTop` |
| Tracker.ScrollToSectionHighlightsIt | src/app/components/tracker.tsx:59-66 | on a layout of non-overlapping sections, scrolling to a section taller than the look-ahead highlights that section once the scroll settles, provided the section is "intro" or starts at `offsetTop >= 100` (a section starting higher resolves to "intro" at lines 24-27) |
| Tracker.Mount | src/app/components/tracker.tsx:52-55 | at mount the handler runs once from "intro" on the current offset |
| Tracker.Scenario | src/app/components/tracker.tsx:20-50 | worked example on a three-section layout, four separate calls each given its own previous value: 150 from "intro" gives intro, 250 from "intro" gives work, 1150 from "team" keeps team (no section contains it), 50 from "work" gives intro |
| Strings.ToLower | src/app/components/team/team.tsx:13 | `toLowerCase` keeps the length and lowers each character on its own |
| Strings.Includes | src/app/components/team/team.tsx:14 | `includes` finds a match only where there is room for it, and always finds a prefix of the string |
| TeamOrder.IsEir | src/app/components/team/team.tsx:12-17 | a member is an entrepreneur in residence exactly when some stretch of the position equals "entrepreneur in residence" once its letters are lowered |
| Strings.ToLowerNormal | src/app/components/team/team.tsx:13 | a lower-cased string has no upper-case letter and lowering it again changes nothing |
| TeamOrder.IsEirCaseInsensitive | src/app/components/team/team.tsx:12-17 | two positions that differ only in letter case are in the same group |
| TeamOrder.EirDetectedInAnyCase | src/app/components/team/team.tsx:12-17 | a position containing the marker in any capitalisation, anywhere, is detected as entrepreneur in residence |
| Strings.Split | src/app/components/team/team.tsx:24 | `split(" ")` gives at least one part and no part contains the separator |
| Strings.SplitLast | src/app/components/team/team.tsx:24 | the last part of `split` is the longest separator-free suffix, and is shorter than the string when there is more than one part |
| TeamOrder.LastName | src/app/components/team/team.tsx:24-25 | the last name is the suffix after the final space: a suffix of the name, free of spaces, preceded by a space unless it is the whole name |
| TeamOrder.LastNameWithoutSpace | src/app/components/team/team.tsx:24-25 | a name with no space is its own last name |
| Strings.LexCompare | src/app/components/team/team.tsx:26 | the string comparison returns -1, 0 or 1, and 0 exactly for equal strings |
| Strings.LexCompareAntisymmetric | src/app/components/team/team.tsx:26 | swapping the arguments negates the comparison |
| Strings.LexCompareTransitive | src/app/components/team/team.tsx:26 | "sorts no later than" is transitive |
| TeamOrder.Compare | src/app/components/team/team.tsx:11-27 | the comparator handed to `sort` answers -1, 0 or 1 (its ordering laws are the two lemmas below) |
| TeamOrder.CompareAntisymmetric | src/app/components/team/team.tsx:20-26 | `compare(b, a)` is minus `compare(a, b)`, and it is 0 exactly for the same group and equal last names |
| TeamOrder.CompareTransitive | src/app/components/team/team.tsx:20-26 | the comparator's "goes no later than" is transitive, so it is a consistent total preorder |
| TeamOrder.Insert | src/app/components/team/team.tsx:11 | inserting into a sorted roster keeps it sorted and adds exactly that member |
| TeamOrder.SortTeam | src/app/components/team/team.tsx:11-27 | the sorted roster is a permutation of the feed and is in comparator order |
| TeamOrder.SortedGroups | src/app/components/team/team.tsx:20-26 | in comparator order, non-EIR members come before EIR members, and each group is in non-decreasing last-name order |
| TeamOrder.SortTeamOrder | src/app/components/team/team.tsx:11-27 | the displayed roster is a permutation of the feed with every non-EIR member before every EIR member and each group by last name |
| ContactRoute.Post | src/app/api/contact/route.ts:3-27 | 500 with "Failed to process contact form" exactly when the body cannot be read; 400 with "Email and message are required" exactly when a field is missing or empty; otherwise `{ success: true }` with status 200 |
| ContactRoute.EmailFormatUnchecked | src/app/api/contact/route.ts:8 | the email's format is never checked: any two non-empty addresses get the same response |
| ContactRoute.EmptyLikeMissing | src/app/api/contact/route.ts:8-13 | an empty email or message is answered exactly like a missing one |
| Utf8Encoding.Utf8 | src/app/components/contact.tsx:29-30 | the UTF-8 bytes `encodeURIComponent` works on: one to four bytes per character |
| Utf8Encoding.Utf8RoundTrip | src/app/components/contact.tsx:30 | UTF-8 decoding of the encoded bytes gives back the text |
| PercentEncoding.EncodeUriComponent | src/app/components/contact.tsx:29-30 | `encodeURIComponent`: at least one and at most twelve characters per character of the text |
| PercentEncoding.EncodeByteForm | src/app/components/contact.tsx:29-30 | an unreserved ASCII byte passes through as itself; every other byte becomes '%' and two upper-case hex digits that denote it |
| PercentEncoding.PercentEncodeWellFormed | src/app/components/contact.tsx:30 | the encoding consists only of unreserved characters and %XX triplets |
| PercentEncoding.WellFormedCharacters | src/app/components/contact.tsx:30 | a well-formed encoding contains only unreserved characters and '%' |
| PercentEncoding.NoDelimiters | src/app/components/contact.tsx:30 | no encoding contains a raw '&', '=', '?' or '#' |
| PercentEncoding.PercentRoundTrip | src/app/components/contact.tsx:30 | percent-decoding the encoded bytes gives the bytes back |
| PercentEncoding.DecodeEncode | src/app/components/contact.tsx:30 | decoding the encoding of any text recovers the text exactly |
| PercentEncoding.EncodeAppend | src/app/components/contact.tsx:30 | encoding distributes over concatenation |
| PercentEncoding.EncodeUnreserved | src/app/components/contact.tsx:29 | text made only of unreserved characters is its own encoding |
| ContactMailto.MessageBody | src/app/components/contact.tsx:30 | the body is a "From: " line with the sender's address, a blank line, then the message as typed |
| ContactMailto.MailtoUrl | src/app/components/contact.tsx:29-31 | the URL always starts with the recipient, the encoded fixed subject and "&body="; nothing the sender types adds a '&', '=', '?' or '#' after that |
| ContactMailto.EncodedSubject | src/app/components/contact.tsx:29 | the subject parameter is "RISC%20website%20contact" |
| ContactMailto.ParseBuiltUrl | src/app/components/contact.tsx:31 | a URL built from any subject and body reads back as exactly two header fields that decode to that subject and body |
| ContactMailto.MailtoRoundTrip | src/app/components/contact.tsx:29-31 | whatever the sender types, the URL has exactly the fields "subject" and "body", decoding to the fixed subject and to `"From: " + email + "\n\n" + message` |
| TeamGate.Step | src/app/components/team.tsx:14-19 | one change event: a set latch stays set, a detached listener changes nothing, and the state changes exactly when an attached listener sees a value above 1000 |
| TeamGate.Run | src/app/components/team.tsx:13-19 | after any sequence of values the listener is attached exactly while the latch is not set |
| TeamGate.RunLatches | src/app/components/team.tsx:14-19 | for any sequence of scroll values the latch is set iff some value so far exceeded 1000, and the listener is attached iff it is not set |
| TeamGate.LatchStaysSet | src/app/components/team.tsx:16-17 | once set, the latch stays set whatever values follow |
| TeamGate.ThresholdIsStrict | src/app/components/team.tsx:15 | exactly 1000 does not fire, 1001 does |
| TeamGate.ScrollGate.constructor | src/app/components/team.tsx:12-14 | the latch starts false with the listener attached |
| TeamGate.ScrollGate.OnScrollChange | src/app/components/team.tsx:14-19 | one change event: the first value above 1000 sets the latch and unsubscribes; the latch never goes back to false; the state stays the run of all values seen |
| TeamGate.ScrollGate.Unmount | src/app/components/team.tsx:20 | cleanup removes the listener and leaves the latch as it was |
| Publications.LoadedList | src/app/components/publications.tsx:38-67 | on success the list is exactly the parsed data; on any failure it is exactly the one placeholder with id 1 |
| Publications.NotOkLikeThrown | src/app/components/publications.tsx:42-44 | a response that is not ok is handled exactly like a thrown fetch error |
| Publications.PublicationsView.constructor | src/app/components/publications.tsx:20-21 | the list starts empty and `hasScrolled` false |
| Publications.PublicationsView.HandleScroll | src/app/components/publications.tsx:25-28 | after each event `hasScrolled == (scrollY > 50)`, so it can become false again; the list is untouched |
| Publications.PublicationsView.FetchPublications | src/app/components/publications.tsx:39-64 | the try/catch leaves the list equal to `LoadedList(outcome)` and leaves the flag untouched |
| Publications.Mount | src/app/components/publications.tsx:24-67 | the mount-time check equals one run of the handler on the current offset, and the list settles to `LoadedList(outcome)` |

## Left out

- Rendering, styling and every animation-library call (variants, springs, delays, hover effects, presence transitions): these are declarative calls into a library the model does not have.
- The mouse-tilt transform of the team cards: floating-point geometry written to the DOM.
- The project carousel and its drag physics: they belong to the animation library. Its only local logic is `scrollWidth - offsetWidth`, with no clamp.
- Intersection-observer gating (`useInView`) of the team and contact sections: this is observer behaviour provided by the library.
- The team member modal toggle: pure visibility state of the UI.
- Health endpoints, layout, fonts, page composition, footer and landing pages: they hold no decision logic.
- I/O: `window.location.href` navigation, `window.scrollTo` smooth scrolling, `fetch`, console logging, and adding or removing listeners. Their inputs and outputs are parameters. `ScrollTarget` returns the target instead of scrolling, and the tracker's mount assumes the listener is attached.
- Strings.LexCompare: `localeCompare` is taken as lexicographic order on code points. Locale collation is not modelled, and neither are canonically equivalent strings that compare as equal.
- Strings.Includes: its own contract gives two consequences only (a match needs room, a prefix matches). The full case-insensitive characterisation of the search is stated for the one call site, on `TeamOrder.IsEir`.
- Strings.ToLower: only ASCII letters are lowered. Full Unicode case mapping is not modelled.
- TeamOrder.SortTeam: the contract does not say how members that compare equal (same group and same last name) are ordered among themselves. The modelled insertion puts a member in front of the members it ties with, as a stable sort does, but stability is not proved.
- ContactRoute.Post: fields are modelled as optional strings, with truthiness as "present and non-empty". A truthy non-string JSON value (such as the number 5) corresponds to a present non-empty field, and a falsy one (0, false, null) to a missing field. A body that parses to `null` (destructuring then throws) corresponds to `ParseFailure`.
- PercentEncoding.DecodeUriComponent: it is the inverse used for the round trip. It accepts both cases of hex digit, and it does not reproduce every error case of `decodeURIComponent`.
- Lone surrogates, for which `encodeURIComponent` throws `URIError`: a Dafny `char` is a Unicode scalar value, so such strings cannot be formed.
- Fractional and negative scroll values: offsets are integers.
- TeamGate.ScrollGate.OnScrollChange: the effect re-subscribes if the motion value object itself changes (its dependency list). The model treats the motion value as fixed for the component's lifetime.
- Publications.PublicationsView.FetchPublications: the fetch runs asynchronously, and its outcome is applied as one step. Scroll events cannot interleave with the list within that step, and the two fields are independent of each other.
