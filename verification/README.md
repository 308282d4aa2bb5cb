# A verified model of the CardDAV front end

The service puts an MCP interface in front of a CardDAV server. Six of its parts are self-contained
algorithms over unbounded inputs, and this project models them in Dafny, branch by branch, and proves what
they are for:

* **vCards.** A contact is escaped, assembled into lines and folded; a card is unfolded, split and unescaped.
  The parser's result on a printed card is given exactly, for every contact the printer accepts, and the
  contacts that survive unchanged are characterised by a condition on the contact. For cards of any other writer the
  parser is compared with a reference reading of their lines by property names.
* **Multistatus bodies.** The streaming reader is compared, for every tree, with a recursive definition of what an XML
  tree says.
* **Rate limits.** Buckets in bounded maps with an idle sweep and least-recently-seen eviction; the tool-call
  limiter, which charges the bearer and then the subject, and the initialize limiter, which charges only one.
* **Birthdays.** Parsing, the next occurrence, the window and the age, over a Gregorian day count that is built
  and inverted here.
* **Token validation.** The JWKS refresh gate as interleaved steps of any number of tasks, and the bounded cache of
  positive validations.
* **OAuth proxy.** The pending authorizations between `authorize` and `callback`, and the rewriting of parameters.

## How it is built

One module per file. Code that updates state step by step is a method or a class with the source's fields, proved
equal to a function of the old state; the theorems are lemmas about those functions. What a name or a number in the source
means (a property, an element, a quota, a lifetime) is stated by lemmas that spell the name or the number out. A run is
a sequence of events, so every prefix of a run is a run and every theorem about runs is a theorem about all reachable
states.

| part | modules |
|---|---|
| vCards | `Text`, `Utf8`, `VcardEscape`, `VcardFold`, `VcardUnfold`, `Vcard`, `VcardReading`, `VcardRoundTrip`, `VcardPrinting`, `VcardSize` |
| multistatus | `Multistatus`, `MultistatusTree`, `MultistatusFlat`, `MultistatusRouting`, `MultistatusText` |
| rate limits | `Runs`, `TokenBucket`, `BucketMap`, `MapRuns`, `AdmissionBound`, `RefusedRequests`, `RateLimit`, `LimiterRuns`, `RefusedCalls`, `InitializeRuns`, `RefusedInitializes`, `QuotaRates` |
| birthdays | `Calendar`, `Birthday`, `BdayText`, `UpcomingBirthdays` |
| contact search | `ContactSearch` |
| token validation | `JwksGate`, `JwksRate`, `JwksKeys`, `JwksCache`, `ValidationCache` |
| OAuth proxy | `OAuthProxy`, `OAuthOutcomes`, `OAuthRuns` |

`dafny verify dfyconfig.toml` checks the whole project.

## What is assumed

* The `governor` library: a bucket is an ideal token bucket that is full when created, regains one token per
  period, never holds more than its burst, and refuses exactly when it holds less than one token. Periods are whole
  nanoseconds. This is the only assumption about that library.
* A bucket lookup and the charge of the bucket found are one step at one instant. A request to the OAuth proxy is
  one step at one instant. Clocks are monotone and given as parameters. Locks are never poisoned.
* Distinct tokens have distinct hashes. The OAuth proxy's states, drawn from 192 random bits, are pairwise distinct;
  the lemmas that need it say so.
* The redirect allowlist, the URL parser and the test for an absolute URI are parameters of the proxy. A JWKS fetch is a
  step that fails or delivers any key set. A piece of XML text arrives decoded, or as undecodable.
* Which of several equally old entries `min_by_key` picks is left open: the eviction choice is any minimum.
* The calendar library represents the years -262143 to 262142 and returns nothing for any other year.
* Strings are sequences of Unicode scalar values; wherever the source counts bytes, the UTF-8 size is computed.

## Where the code and its documentation differ

* **Names and organisations with `;`.** `parse_vcard` splits `N` on raw `;` before unescaping (src/mcp.rs:978) and
  splits `ORG` after unescaping (src/mcp.rs:989). A `;` in the family name, the given name or the organisation does not
  survive the round trip that src/mcp.rs:1209-1219 is there for. `NamesSurviveIff`, `OrganizationSurvivesIff` and
  `RoundTripIff` give the exact conditions, `SemicolonShiftsNames` the failing family. Carriage returns are dropped on
  printing, and a leading `mailto:` or `tel:` on parsing.
* **JWKS refresh rate.** The comment at src/logto_oidc.rs:43-47 asks for five seconds between outbound refreshes. Recorded
  attempts are five seconds apart (`AttemptsPerWindow`); a task can be held up between its record and its request, and
  exactly that delay is lost. `RequestsSpacedIff`: when every request leaves within d of its record, any two are at least
  5 s - d apart and for d up to 5 s no more is guaranteed, so the five seconds hold if and only if d is zero.
* **Dropped bearer charge.** src/rate_limit.rs:301-306 says that nothing is given up by charging the subject only.
  `OneChargeIsEnoughIff` says exactly when: the limiter agrees with one that charges both buckets, on every run that
  evicts nothing, if and only if each bearer has one subject or never has one. `ChangingSubjectsDiffer` is the run that
  separates them otherwise, for every quota. The service itself takes bearer and subject from one validated token
  (src/main.rs:223), so a bearer keeps its subject there.
* **The end of the calendar.** src/birthday.rs:113-116 takes any difference to fit 32 bits, and it does; the fallback at
  src/birthday.rs:120 is reached all the same, exactly for a birthday that is past in the last representable year
  (`FallbackIff`, with `LastDayHasNoNext` as an instance), which a caller can ask for through `reference_date` (src/mcp.rs:554).

## What else the model shows

* **Refused calls.** The initialize limiter promises that a refusal spends nothing, and `RefusedInitializesAreErasable` proves
  it. The tool-call limiter charges the bearer first: `RefusedCallErasableIff` says that a refused call leaves no trace if and
  only if its bearer bucket refused it, in runs that evict no bearer. Otherwise some storm of retries of the same bearer with the same subject ends
  differently because of it.
* **Old keys.** A key older than `JWKS_TTL` is returned within five seconds of a recorded attempt, or to a task that was held up
  between installing its own refresh and reading from it (`KeysComeFromLatestRefresh`); `OwnRefreshCanBeOld` is a run of the
  second kind. `OldKeysNearRecordsIff` says when only the first kind occurs: exactly when no task is held up there for the
  whole TTL.
* **Nested elements.** In a multistatus body a response nested in another takes its place, and a field nested in another stops
  its text; `MultistatusTree` says what the reader returns in every such case.

## Model

| member | source | states |
|---|---|---|
| VcardEscape.EscapeIsOnePass | src/mcp.rs:1032-1039 | The five sequential replacements equal one left-to-right substitution of characters: none acts on another's output. |
| VcardEscape.EscapeAnywhere | src/mcp.rs:1032-1039 | Wherever a character stands, a backslash, `;` and `,` get a backslash in front, a line feed becomes a backslash and `n`, a carriage return goes, and every other character stays. |
| VcardEscape.UnescapeText | src/mcp.rs:1015-1030 | The character loop with its pending escape computes the recursive unescaping. |
| VcardEscape.UnescapeAfterEscape | src/mcp.rs:1015-1039 | Unescaping is a left inverse of escaping for every text, except that carriage returns are gone. |
| VcardEscape.EscapedTextIsSafe | src/mcp.rs:1032-1039 | Escaped text has no raw line break and is a sequence of ordinary characters and two-character escapes, so every `;`, `,` and backslash is protected. |
| VcardEscape.UnescapeAnywhere | src/mcp.rs:1015-1030 | Behind any text that ends in no half escape: a backslash and a character give a line feed for `n` and `N` and that character for every other, any other character stays, and a last lone backslash stays. |
| Utf8.BoundaryIsLeadByte | src/mcp.rs:1175 | The boundary test used for folding holds exactly at the end and at bytes that do not continue a code point of the UTF-8 encoding. |
| Utf8.PrefixBytes | src/mcp.rs:1181-1182 | Cutting a line between characters cuts its UTF-8 bytes at the corresponding offset, so no code point is split. |
| VcardFold.SearchStopsAtFittingPrefix | src/mcp.rs:1174-1177 | A boundary that the downward byte search can stop at ends the longest prefix that fits. |
| VcardFold.FoldLine | src/mcp.rs:1166-1187 | The folding loops terminate, and produce the first piece and each further piece behind CRLF and a space. |
| VcardFold.FoldedLinesFit | src/mcp.rs:1166-1187 | Every physical line is at most 75 octets, and the pieces without their leading space are the line. |
| VcardFold.FoldingGrowth | src/mcp.rs:1166-1187 | A line of n > 75 bytes gains exactly three bytes per extra physical line and at most 3 * (1 + (n - 73) / 71). |
| VcardFold.UnfoldLines | src/mcp.rs:1001-1013 | The unfolding loop, which extends its last line in place, computes the recursive unfolding. |
| VcardFold.UnfoldInvertsFold | src/mcp.rs:1001-1013 | Unfolding folded lines that hold no line break and start with no blank gives back those lines and one empty line after the last CRLF. |
| VcardUnfold.UnfoldInvertsAnyFold | src/mcp.rs:1001-1013 | However lines were folded (at any place, with a space or a tab, with CRLF or a bare line feed, with stray carriage returns before a break), unfolding gives back what they said. |
| VcardUnfold.LeadingContinuationIsDropped | src/mcp.rs:1003-1007 | A continuation in front of the first line is dropped. |
| Vcard.BuildVcard | src/mcp.rs:1118-1160 | The printer returns the folded lines of the card in order, refuses an invalid UID, and refuses a card above 256 KiB. |
| VcardPrinting.PrintedCard | src/mcp.rs:1120-1147 | An accepted card says exactly these lines in this order: begin, version 4.0, UID, full name, name parts, each email, each phone, the organisation, title and note that are not empty, end. |
| VcardPrinting.PrintedLinesFit | src/mcp.rs:1149-1153 | It is a sequence of physical lines of at most 75 octets, each ended by CRLF. |
| VcardPrinting.RefusedIff | src/mcp.rs:1102-1110 | A UID is refused if and only if it is all white space, longer than 512 bytes or holds a control character, and otherwise a card if and only if it is above 262144 bytes. |
| Vcard.ParseVcard | src/mcp.rs:959-999 | The parsing loop over unfolded lines computes the left-to-right dispatch of properties. |
| VcardReading.ParserReadsLines | src/mcp.rs:959-1013 | For every card of lines `[group.]NAME[;parameters]:value`, names in any letter case and lines folded in any way: the last UID, FN, N, ORG, TITLE, NOTE and BDAY line gives that field, every EMAIL and TEL line adds one address in order, any PHOTO line marks a photo, and any other name says nothing. |
| VcardReading.PropertyBySpelling | src/mcp.rs:964-993 | Each of the ten names is recognised exactly when it is spelled so in any letter case. |
| VcardReading.LineWithoutColon | src/mcp.rs:961-963 | A line without a colon says nothing. |
| Vcard.PropertiesAreIndependent | src/mcp.rs:959-999 | What a card says in one property depends on the lines of that property alone: all other lines can be deleted, or the other fields start differently, without changing it. |
| VcardRoundTrip.CardLinesFoldable | src/mcp.rs:1118-1147 | Whatever the fields contain, no line of a card holds a line break or starts blank, so no field can add a line. |
| VcardRoundTrip.ParseInvertsBuild | src/mcp.rs:959-1187 | For every contact and UID the printer accepts, the parser returns exactly this UID, full name, name parts, address lists in order, organisation, title and note, with no birthday and no photo; each depends on its own field only, except that a family name with a `;` also determines the given name. |
| VcardRoundTrip.RoundTripIff | src/mcp.rs:1209-1219 | The card comes back unchanged if and only if no field holds a carriage return, no name part or organisation holds a `;`, no given optional field is empty, and no address starts with its URI scheme. |
| VcardRoundTrip.NamesSurviveIff | src/mcp.rs:977-981 | Family and given name come back, up to carriage returns and empty fields, if and only if neither holds a `;`. |
| VcardRoundTrip.OrganizationSurvivesIff | src/mcp.rs:988-990 | A given organisation comes back, up to carriage returns, if and only if it holds no `;`. |
| VcardRoundTrip.ValuesUnchanged | src/mcp.rs:982-987 | What comes back of a list of addresses is the list itself if and only if no value holds a carriage return or starts with the stripped scheme. |
| VcardRoundTrip.SemicolonShiftsNames | src/mcp.rs:977-981 | A family name `a;b` is parsed as family name `a\` and given name `b`, and the given name of the contact is lost. |
| VcardSize.SmallContactsAreAccepted | src/mcp.rs:1149-1158 | The printer accepts every contact with a valid UID whose text takes t bytes in n addresses and the other fields, if 4 t + 17 n + 169 is within 256 KiB. |
| VcardSize.SmallContactsRoundTrip | src/mcp.rs:959-1187 | Every such contact is printed and parsed back to exactly its recoverable card, without any further condition. |
| Multistatus.ParseMultistatus | src/carddav_client.rs:657-745 | The event loop over stack, current item, capture mode and output computes the reader's transition function over the whole run, with the same errors. |
| MultistatusTree.ResponseRun | src/carddav_client.rs:666-745 | Reading the content of a response that holds no other adds to every field exactly the text that feeds it, moves the capture, and leaves stack and output as they were, or fails on an undecodable piece that feeds a field. |
| MultistatusTree.InterruptedRun | src/carddav_client.rs:667-676 | A response nested in another replaces its item: what the outer one said is dropped, and what it says behind is outside of any response. |
| MultistatusTree.ReaderExtractsTree | src/carddav_client.rs:657-795 | On the events of every tree the reader returns the items of the recursive definition in document order, each field being the trimmed text that feeds it (`address-data` untrimmed, `href` routed by its parent), and fails if and only if a piece that feeds a field is undecodable. |
| MultistatusFlat.FlatDocumentsReadPlainly | src/carddav_client.rs:657-795 | When responses are not nested and fields hold no fields, that is one item per response, each field being the whole text of its elements. |
| MultistatusFlat.ItemsAreInnermostResponses | src/carddav_client.rs:667-676 | In every tree, exactly as many items are returned as there are responses that hold no response. |
| MultistatusFlat.NestedFieldLosesText | src/carddav_client.rs:721-726 | Text behind a field nested in another field is not returned, although it is part of the outer element. |
| MultistatusRouting.DisplayNameIsRead | src/carddav_client.rs:683 | A response whose only text stands in `displayname`, at any depth of elements of other names, is one item with exactly its display name set, to the trimmed text. |
| MultistatusRouting.CtagIsRead | src/carddav_client.rs:684 | The same of `getctag` and the ctag. |
| MultistatusRouting.EtagIsRead | src/carddav_client.rs:685 | The same of `getetag` and the etag. |
| MultistatusRouting.AddressDataIsRead | src/carddav_client.rs:686 | The same of `address-data`, whose text is not trimmed. |
| MultistatusRouting.OwnHrefIsRead | src/carddav_client.rs:680 | A `href` directly in the response is the item's own. |
| MultistatusRouting.InnerHrefIsRouted | src/carddav_client.rs:677-682 | A `href` directly in `current-user-principal` sets the principal, one directly in `addressbook-home-set` the address book home, and one in any other element nothing. |
| MultistatusRouting.OtherTextIsIgnored | src/carddav_client.rs:687 | Text in an element of any other name sets nothing. |
| MultistatusRouting.AddressbookIsMarked | src/carddav_client.rs:671-700 | An `addressbook` element, empty or not, at any depth, marks the item as an address book. |
| MultistatusRouting.UnknownElementsKeepField | src/carddav_client.rs:687 | Text in an element of any other name inside a field belongs to the field, as does the text behind it. |
| MultistatusRouting.ErrorsAndEnd | src/carddav_client.rs:735-741 | A tokenizer error before the end of the document is the result whatever surrounds it, and nothing behind the end counts. |
| MultistatusText.MergedItems | src/carddav_client.rs:695-719 | Joining adjacent pieces of text, CDATA and references does not change what any tree says, nor whether it can be read. |
| MultistatusText.CuttingIsInvisible | src/carddav_client.rs:695-719 | Documents of any shape that differ only in how their text is cut into Text, CData and reference events are read alike. |
| TokenBucket.BucketIsIdeal | src/rate_limit.rs:186-187 | The bucket state used here behaves as the assumed token bucket: full when created, one token per period up to the burst, one token per admission, nothing per refusal. |
| TokenBucket.IdleTimeRefillsIff | src/rate_limit.rs:107-108 | Waiting a given time refills every bucket, however drained, if and only if burst times period is at most that time. |
| BucketMap.RequestedEntries | src/rate_limit.rs:191-228 | One request sets its own entry, changes no other, and discards only idle entries and, when the eviction branch fires, the chosen one. |
| BucketMap.DiscardsLeastRecent | src/rate_limit.rs:201-211 | When the choice is a minimum by last sight, an entry that one request discards was idle, or was seen no later than every entry that stays. |
| BucketMap.RequestedStaysBounded | src/rate_limit.rs:201-211 | One request never takes a map beyond 4096 entries. |
| BucketMap.Buckets.FindOldest | src/rate_limit.rs:206-209 | The minimum search returns an entry that no other entry was seen before. |
| BucketMap.Buckets.GetOrInsert | src/rate_limit.rs:191-228 | The lookup with its sweep, eviction and insertion, as one change of the map. |
| BucketMap.Buckets.Request | src/rate_limit.rs:172-175 | Lookup and charge at one instant: the decision, the evicted entry and the whole new map. |
| MapRuns.RunStaysBounded | src/rate_limit.rs:104-105 | In every reachable state a map holds at most 4096 identities. |
| MapRuns.IdleSweepIsInvisible | src/rate_limit.rs:106-108 | In every run without least-recently-seen eviction, the bounded map decides every request as a map that never discards a bucket. |
| MapRuns.EntriesRememberLastAsk | src/rate_limit.rs:196-199 | In every reachable state the recorded instant of an entry is that of the last request of its identity. |
| MapRuns.LosesBucketOnlyWhenCrowdedOut | src/rate_limit.rs:201-211 | An identity loses its bucket only when idle for 3600 s, or when at least 4096 other identities were requested at or after its own last request. |
| AdmissionBound.EveryAdmissionIsPaid | src/rate_limit.rs:191-228 | Over every run, each admission moves the refill instant one period ahead and each eviction sets it back at most one capacity. |
| AdmissionBound.AdmissionsAreBounded | src/rate_limit.rs:191-228 | In every window of length L one identity is admitted at most burst + L/period times, plus one burst per eviction of its bucket. |
| RefusedRequests.ErasedRunIsCovered | src/rate_limit.rs:201-211 | If a run evicts nothing, neither does the run without some of its refused requests, and whatever the shorter one has seen within the idle TTL the full one holds too, seen no earlier. |
| RefusedRequests.RefusedRequestsAreErasable | src/rate_limit.rs:294-299 | Without eviction, deleting any refused requests of one map leaves every other decision unchanged and causes no eviction. |
| RateLimit.QuotasRefillWithinIdleTtl | src/rate_limit.rs:103-108 | Every per-minute quota refills within 60 s and the initialize quota within 32 minutes, both within the idle TTL. |
| RateLimit.Limiter.New | src/rate_limit.rs:148-157 | A zero quota is rejected; otherwise the limiter starts with empty maps, the first number for reads and the second for writes. |
| RateLimit.Limiter.Check | src/rate_limit.rs:161-182 | With the number per minute of its own category as burst and 60 s over that number as period, admits when the bearer bucket and then the subject bucket admit; gives both new maps, with the bearer charged even when the subject refuses and the other category untouched. |
| RateLimit.InitializeLimiter.constructor | src/rate_limit.rs:279-289 | A zero burst counts as one and a zero period as a minute; the maps start empty. |
| RateLimit.InitializeLimiter.Check | src/rate_limit.rs:307-320 | Charges exactly one bucket, of the subject if there is one, and names the bucket that refuses. |
| LimiterRuns.LimiterIsTwoMaps | src/rate_limit.rs:161-182 | A run of the limiter is a run of its bearer map and a run of its subject map that sees only calls the bearer bucket let through. |
| LimiterRuns.SubjectAdmissionsAreBounded | src/rate_limit.rs:161-182 | In every window one subject is admitted across all its bearers at most burst + L/period times, plus one burst per eviction of its bucket. |
| LimiterRuns.LimiterSweepIsInvisible | src/rate_limit.rs:106-108 | Without least-recently-seen eviction the limiter admits exactly what one with ever-growing maps admits. |
| RefusedCalls.BearerRefusalsAreErasable | src/rate_limit.rs:171-174 | Without eviction of a bearer, deleting any set of calls that the bearer bucket refused leaves every other decision of the tool-call limiter unchanged. |
| RefusedCalls.SubjectRefusalIsFelt | src/rate_limit.rs:175-180 | For every quota with periods of more than 1 ns and every run whose last call the subject bucket refuses, a given storm of the same bearer and subject ends with a different decision without that call. |
| RefusedCalls.RefusedCallErasableIff | src/rate_limit.rs:161-182 | For every quota with periods of more than 1 ns that refills within the idle TTL, and every run without eviction of a bearer: its last call, refused, can be deleted without any later effect if and only if its bearer bucket refused it. |
| RefusedCalls.PerMinutePeriods | src/rate_limit.rs:186-188 | Every per-minute quota has periods of more than 1 ns. |
| RefusedCalls.RefusedCallsCostTheirBearer | src/rate_limit.rs:172-180 | The shortest such storm: a retry refused for its subject takes the token its bearer needs one period later. |
| InitializeRuns.SubjectIsTighter | src/rate_limit.rs:301-304 | In every run of the atomic limiter the subject bucket never holds more than the bucket of any bearer that always carries that subject. |
| InitializeRuns.OneChargeIsEnough | src/rate_limit.rs:291-320 | When every bearer has one fixed subject and nothing is evicted, the initialize limiter admits exactly what a limiter admits that tests both buckets and charges both only on admission. |
| InitializeRuns.ChangingSubjectsDiffer | src/rate_limit.rs:301-306 | For every quota, bearer and two different subjects (or a subject and none), a burst on the first and one call with the second is admitted by the initialize limiter and refused by the atomic one, without any eviction. |
| InitializeRuns.OneChargeIsEnoughIff | src/rate_limit.rs:291-320 | The two limiters agree on every run without eviction drawn from a set of bearer and subject pairs if and only if that set gives each bearer one subject, or none. |
| InitializeRuns.InitializesAreBounded | src/rate_limit.rs:307-320 | In every window one subject opens at most burst + L/period sessions, plus one burst per eviction of its bucket. |
| RefusedInitializes.RefusedInitializesAreErasable | src/rate_limit.rs:291-320 | Without eviction, deleting any set of refused initialize requests leaves every other decision unchanged, so retries never delay recovery. |
| QuotaRates.BurstIsTheNumber | src/rate_limit.rs:186-188 | Of any calls of a new bearer with a new subject at one instant, exactly as many are admitted as the number per minute, for every number. |
| QuotaRates.OneMorePerPeriod | src/rate_limit.rs:186-188 | Once they are spent, exactly one more is admitted for each full 60 s over the number that have passed, up to the number again. |
| QuotaRates.SessionBurst | src/rate_limit.rs:279-289 | At one instant a new subject, or a new bearer without one, opens exactly as many sessions as the burst. |
| QuotaRates.SessionRefill | src/rate_limit.rs:279-289 | Once they are spent, exactly one more opens for each full period that has passed, up to the burst again. |
| QuotaRates.SessionsInNumbers | src/rate_limit.rs:73-103 | With the constants of the service that is 32 sessions at one instant, then one for each full minute. |
| Calendar.NextIsOneLater | src/birthday.rs:117 | The day after a date, across months, years and leap days, has the next day number. |
| Calendar.AddDaysCounts | src/birthday.rs:154 | Adding n days, one after the other, adds n to the day number. |
| Calendar.OrderByDayNumber | src/birthday.rs:113 | Dates are ordered as their day numbers, and equal exactly when these are. |
| Calendar.AddDaysReaches | src/birthday.rs:117 | Counting forward by the difference of day numbers reaches exactly the later date. |
| Birthday.OccursOnIff | src/birthday.rs:124-130 | A birthday occurs on its month and day of every representable year from the recorded one on, and one of 29 February on 1 March of the other years. |
| Birthday.DaysUntilIsLeast | src/birthday.rs:105-121 | For every date and every birthday with an occurrence left in the calendar, the result is the least number of days to an occurrence in some year not before the recorded one, so two candidate years suffice and no distance is cut off. |
| Birthday.FallbackIff | src/birthday.rs:120 | The maximum is returned if and only if the birthday is past in the last representable year, and if and only if no later date of the calendar is an occurrence. |
| Birthday.LastDayHasNoNext | src/birthday.rs:120 | The fallback is reached for a birthday on 1 January, asked on 31 December of the last representable year. |
| Birthday.CountsDown | src/birthday.rs:105-121 | If the next occurrence is not today, tomorrow it is exactly one day nearer. |
| Birthday.OccurrencesAreAYearApart | src/birthday.rs:124-130 | Occurrences in consecutive representable years are 365 or 366 days apart, 29 February included. |
| Birthday.WithinWindowIff | src/birthday.rs:144-147 | For every number of days: the answer is n if and only if n is at most that number and the least number of days to an occurrence; and there is no answer if and only if no date from today to that many days later, both included, is an occurrence. The maximum is answered only by a window as wide, when no occurrence is left. |
| Birthday.YearWindowHoldsEveryBirthday | src/birthday.rs:144-147 | Unless a later birth year is recorded, the window of 366 days holds a birthday if and only if it has an occurrence left in the calendar, which is then at most 365 days away. |
| Birthday.TurningIsAge | src/birthday.rs:152-156 | The age is never negative, and the occurrence in the year of birth plus that age is the next one. |
| BdayText.ParsedIsReal | src/birthday.rs:38-81 | Whatever is accepted denotes a date of a leap year and, with a year, a real date, with the trimmed text kept. |
| BdayText.RenderedReadsBack | src/birthday.rs:27-30 | Every real date in the four ISO forms, with any blanks around it and any `T` part, parses back to the same year, month and day. |
| BdayText.AcceptedIff | src/birthday.rs:38-81 | A text is accepted if and only if the part of the trimmed text before a `T` or `t` shows, between any other characters, exactly the digits of a date that is real in a leap year and in its own year, the year being absent exactly behind two dashes. |
| BdayText.ShownIsParsed | src/birthday.rs:38-81 | The parsed value then has this year, month and day and the trimmed text. |
| BdayText.PartialDateIsRefused | src/birthday.rs:38-81 | A year and a month alone, like `1984-03`, are refused. |
| BdayText.EveryParsedBirthdayIsFound | src/birthday.rs:38-121 | For every accepted text and every date of the calendar, the day count is the least one that leads to an occurrence, or the maximum when the calendar holds none. |
| ContactSearch.MergeMatches | src/mcp.rs:685-692 | The inner loop extends the distinct contacts by one book's matches and stops at the limit. |
| ContactSearch.SearchContacts | src/mcp.rs:679-698 | A limit of zero is refused and a larger one cut to 100; stopping early loses nothing: the result is the first contacts up to the limit of all books together, without repeated hrefs. |
| ContactSearch.DistinctIsComplete | src/mcp.rs:686-688 | No href is listed twice and every href found is listed. |
| ContactSearch.DistinctKeepsFirst | src/mcp.rs:686-688 | Of contacts with one href the first found is listed, and hrefs are listed in the order in which they were first found. |
| ContactSearch.FlattenInOrder | src/mcp.rs:679-692 | Contacts come in the order of the address books, and within a book in its own. |
| UpcomingBirthdays.ScanBirthdays | src/mcp.rs:548-622 | A window outside of 1 to 366 days is refused; otherwise the nested loops with their three early continues give the entries of all books in card order, then sorted, and both counts. |
| UpcomingBirthdays.ScanListsUpcoming | src/mcp.rs:580-610 | A card adds one entry if its birthday occurs from today to the end of the window, both included, with the least number of days, the date of that occurrence, month and day in this order and the age then; otherwise none. Every card is counted, and as unparseable exactly those with a birthday text that is no date. |
| UpcomingBirthdays.ListedInOrder | src/mcp.rs:612-616 | The entries come in the order of days, those of one day with missing names first and then by name. |
| UpcomingBirthdays.TextNotAfterIff | src/mcp.rs:612-616 | Names are compared by the first character in which they differ, a prefix coming first. |
| UpcomingBirthdays.ResultIsSorted | src/mcp.rs:612-616 | The sorted result is a permutation of the entries found, ordered by day and then by name with missing names first, and entries that compare equal keep their order. |
| UpcomingBirthdays.WidestScanMissesNobody | src/mcp.rs:29-31 | With the widest window and no later birth years, every card is listed, has no birthday, is counted as unparseable, or is past in the last year of the calendar; before that year there are none of the last kind. |
| JwksGate.GateStep | src/logto_oidc.rs:279 | Every step keeps: exactly the task that holds the gate is between acquiring and releasing it. |
| JwksGate.RecordsStep | src/logto_oidc.rs:285-298 | Every step keeps recorded attempts five seconds apart, and the cache remembering the last. |
| JwksGate.SendsStep | src/logto_oidc.rs:295-303 | Every step keeps: each request has its own record, before it left and after the previous request left. |
| JwksGate.SendingStep | src/logto_oidc.rs:295-303 | Every step keeps: a task about to send holds the last record and every earlier request left before it. |
| JwksGate.EveryRunKeeps | src/logto_oidc.rs:266-323 | Every reachable state, over all interleavings, failures and cancellations, satisfies the whole invariant. |
| JwksRate.AttemptsPerWindow | src/logto_oidc.rs:43-47 | Any window of length L holds at most 1 + L/5 s recorded refresh attempts. |
| JwksRate.RequestsPerWindow | src/logto_oidc.rs:266-303 | Any window of length L holds at most 2 + L/5 s requests on the wire. |
| JwksRate.DelayBoundsSpacing | src/logto_oidc.rs:295-303 | When every request leaves within d of its record, any two requests are at least 5 s - d apart. |
| JwksRate.DelayLosesSpacing | src/logto_oidc.rs:295-303 | For every d up to 5 s there is a run with such delays and two requests exactly 5 s - d apart. |
| JwksRate.RequestsSpacedIff | src/logto_oidc.rs:43-47 | Delays of at most d guarantee a spacing of 5 s - e if and only if d <= e or e >= 5 s; five seconds are guaranteed if and only if d is zero. |
| JwksRate.DelayedRequestsCanCoincide | src/logto_oidc.rs:295-303 | Two requests can leave at the same instant, so the bound on requests cannot be the one on attempts. |
| JwksKeys.KeysComeFromLatestRefresh | src/logto_oidc.rs:266-300 | Every key returned is the one in the set of the latest successful refresh when it was read; one older than the TTL is read in the cooldown, within 5 s of a recorded attempt, or by a task from its own refresh. |
| JwksKeys.FreshKeysAreServed | src/logto_oidc.rs:266-284 | In every reachable state, a look or recheck for a key of the last installed set, installed less than 3600 s ago, answers with that key and leaves records, requests and keys as they were; otherwise it goes on without an answer. |
| JwksKeys.CooldownDecides | src/logto_oidc.rs:285-294 | In every reachable state, a task at the cooldown check answers from the last installed set if some attempt was recorded less than 5 s ago, and goes on to a refresh otherwise. |
| JwksKeys.OwnRefreshCanBeOld | src/logto_oidc.rs:298-299 | A run in which a task returns a key of age `JWKS_TTL` from its own refresh, with no attempt recorded in the last 5 s. |
| JwksKeys.OldKeysNearRecordsIff | src/logto_oidc.rs:266-300 | In all runs whose tasks read from their own refresh within w of installing it, every key as old as the TTL is returned within 5 s of a recorded attempt, if and only if w is below the TTL. |
| JwksGate.OneRefreshAtATime | src/logto_oidc.rs:275-279 | At most one task at a time is refreshing. |
| JwksKeys.InstallsWereReceived | src/logto_oidc.rs:302-323 | In every run, every installed set was received by the task that installed it, with no step of that task in between: a failed or cancelled refresh never changes the keys. |
| JwksKeys.FailureKeepsKeys | src/logto_oidc.rs:302-323 | Over any stretch of a run in which the number of installed sets does not grow, the keys and their age are unchanged. |
| JwksCache.BuildKeys | src/logto_oidc.rs:310-317 | The fetched set becomes a map in which the last usable key of each `kid` counts and unusable keys are left out. |
| JwksCache.LastUsableIff | src/logto_oidc.rs:310-317 | A set answers an id with the key of its last entry that has this id and can be decoded, and with nothing if and only if there is none. |
| JwksCache.Cache.DecodingKeyFor | src/logto_oidc.rs:266-300 | One uninterrupted call: keys less than 3600 s old answer without any change; then an attempt less than 5 s ago gives what is stored, without any change; otherwise the attempt is recorded, and a failure keeps the keys and a response replaces them and gives its key. |
| ValidationCache.Cache.FindExpiring | src/logto_oidc.rs:354-357 | The minimum search returns an entry that no other entry expires before. |
| ValidationCache.Cache.Insert | src/logto_oidc.rs:334-361 | The insertion with capped lifetime, sweep and eviction of the entry nearest expiry, as one change of the cache. |
| ValidationCache.Cache.DropToken | src/logto_oidc.rs:259-264 | Removes exactly this token. |
| ValidationCache.CacheStaysBounded | src/logto_oidc.rs:35-37 | In every reachable state the cache holds at most 256 entries. |
| ValidationCache.HitIsLastValidation | src/logto_oidc.rs:325-361 | In every run a lookup hits only with the identity of the last validation not dropped since, less than 60 s old, within the token's remaining lifetime. |
| ValidationCache.HitIff | src/logto_oidc.rs:325-361 | As long as no live entry is evicted, a lookup hits if and only if the last event of the token is a validation less than 60 s old and within the token's remaining lifetime, and then with its identity. |
| ValidationCache.EvictsNearestExpiry | src/logto_oidc.rs:352-359 | An entry that an insertion discards has expired, or expires no later than every entry that stays. |
| ValidationCache.HitsAreRemembered | src/logto_oidc.rs:334-361 | Whatever the bounded cache answers, an unbounded one answers too. |
| ValidationCache.SweepIsInvisible | src/logto_oidc.rs:347-350 | As long as no live entry is evicted, the bounded cache answers exactly as an unbounded one. |
| OAuthProxy.ApplyDavResource | src/oauth_proxy.rs:143-157 | Every `resource` is replaced, one is added if there was none, and nothing happens unless our audience is an absolute URI. |
| OAuthProxy.Forward | src/oauth_proxy.rs:198-212 | The in-place loop with its flag gives the forwarded parameters. |
| OAuthProxy.ForwardedParameters | src/oauth_proxy.rs:159-212 | Of redirect URI and state only ours reach the authorization server, the redirect URI wherever the client had one and the state always; of the resource only ours if our audience is absolute; every other parameter passes in place, and nothing is added but a missing state and a missing resource of ours. |
| OAuthProxy.RewriteTokenForm | src/oauth_proxy.rs:257-275 | The form is refused as unregistered exactly when one of its redirect URIs is not allowed, as missing exactly when a code exchange has none, and otherwise relayed with our callback for each. |
| OAuthProxy.Proxy.Insert | src/oauth_proxy.rs:93-106 | Stores if there is room after sweeping expired entries, and otherwise refuses without evicting. |
| OAuthProxy.Proxy.Take | src/oauth_proxy.rs:108-117 | Removes the entry in every case, and returns it only if younger than 600 s. |
| OAuthProxy.Proxy.Authorize | src/oauth_proxy.rs:161-220 | The response and the whole new store, with the four refusals in order. |
| OAuthProxy.Proxy.Callback | src/oauth_proxy.rs:224-253 | The response and the whole new store; the state is consumed even when the stored URI cannot be parsed. |
| OAuthOutcomes.HandedOn | src/oauth_proxy.rs:236-250 | The client gets the authorization server's last code, error and description under their own names and its own state, each at most once, and nothing else. |
| OAuthRuns.StoreIsSound | src/oauth_proxy.rs:93-117 | In every reachable state an entry belongs to an accepted, unconsumed authorization and holds its data. |
| OAuthRuns.StoreIsComplete | src/oauth_proxy.rs:93-117 | With distinct states, no accepted, unconsumed authorization younger than 600 s is missing: sweep and cap lose no live entry. |
| OAuthRuns.CallbackSucceedsIff | src/oauth_proxy.rs:224-253 | A callback redirects if and only if its state was issued by an accepted authorize less than 600 s ago and not yet consumed, and the URI parses. |
| OAuthRuns.LiveCallbackSucceeds | src/oauth_redirect.rs:24-32 | Since the allowlist parses a URI before it allows it, the last condition always holds, and the refusal for an unparseable client URI is unreachable. |
| OAuthRuns.CallbackReturnsToItsClient | src/oauth_proxy.rs:222-253 | It then goes to the allowlisted redirect URI of that authorization and hands on the code, error and description of the callback and that client's original state, each under its own name. |
| OAuthRuns.StateIsConsumed | src/oauth_proxy.rs:108-112 | A state that any callback has presented is refused from then on, unless it is issued after that callback; with distinct states, one drawn before it never is. |
| OAuthRuns.StoreStaysBounded | src/oauth_proxy.rs:40-41 | In every reachable state at most 2048 authorizations are pending. |
| OAuthRuns.RefusedIffFull | src/oauth_proxy.rs:97-103 | An acceptable authorization is refused for lack of room if and only if 2048 live ones are pending. |

## Left out

- JwksCache.Cache.DecodingKeyFor: one call without interruption; the interleavings are the subject of `JwksGate`, whose tasks
  may be cancelled at any step, not only at an await.
- Birthday.TurningIsAge: asks for a birthday with an occurrence left; for the others `turning` adds the maximum to the date, which
  the calendar library cannot represent. The tool asks for the age of birthdays inside its window only.
- ValidationCache.Cache.Insert: the overflow of `exp - now` in 64 bits is not modelled.
- UpcomingBirthdays.ScanBirthdays: the dates and the month and day of an entry are values, not their formatted text, and
  `reference_date` is a date, not its text.
- Vcard.BuildVcard: its inner loops are helper methods (`PushLabelled`, `JoinFolded`); `validate_contact_input` (src/mcp.rs:1041-1100)
  and `generate_uid` (src/mcp.rs:1112-1116) are settled by reading.
- The discovery cache (src/carddav_client.rs:546-576): the scheme of the validation cache with one fixed lifetime.
- XML tokenising, JWT decoding, SHA-256, randomness and URL parsing: libraries that are not part of this model.
- HTTP, TLS, async transport, routing and shutdown, the DAV request helpers (`resolve_href`, `escape_xml`, `normalize_href`), and the MCP tool
  wrappers around the loops modelled here.
- src/session.rs, src/last_used.rs, src/oauth_redirect.rs, src/config.rs, src/oauth_metadata.rs, src/auth.rs and src/token_introspect.rs:
  one-step checks and response construction.
- src/audit.rs, src/metrics.rs and src/telemetry.rs: logging and metrics.
