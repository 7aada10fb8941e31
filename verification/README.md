# Atrium: a verified model of the sharing gateway

Atrium is a stateless gateway in front of a file-sharing provider. Recipients sign in through an OpenID Connect
provider; the gateway keeps no session store and seals everything it must remember into signed cookies. This project
states in Dafny what the gateway, its single-page app and the provider contract promise, and proves it.

`dafny verify dfyconfig.toml` checks the whole project.

## What is modelled

**The session protocol, gateway and browser.** A session cookie carries an absolute expiry that never moves and the
instant of the last recorded activity, re-issued at most once a minute. The app keeps its own deadline in
localStorage, which only moves forward and is fed by rounded header seconds and by guesses for downloads whose response
it cannot read. `Session`, `Http`, `Gateway`, `ClientDeadline` and `Oidc` model the code of each side; `Protocol`
puts one gateway, one browser, the app and anyone who replays a cookie into one transition system, and `BrowserJar`
shows that the cookies the handlers set are the steps it takes; `Deadlines`, `SlidingWindow`, `BrowserWindow` and
`LoginFlow` state what holds in every run. Times are integers counting nanoseconds, so rounding and
truncation are exact.

**The folder tree of the provider contract.** `ShareTree` and `ShareStore` model the stub provider's tree as heap
objects whose `children` field is reassigned, with `resolve`, the search by id, the mode filter and uploads as methods
that are specified over snapshots of the tree. `SharePath` is the client's path algebra, which the server's walk shares,
and `DownloadCap` covers interleavings of lookups, downloads and reseeds.

**Text transformations.** `ScriptScan` is the inline-script scanner whose hashes feed the content security policy,
`ConfigJson` the HTML-safe JSON encoder with a reader for it, `Shell` the splicing of configuration and accent into the
page. `SignedCookie` is the sealed-cookie envelope and `CookieKinds` the two payloads sealed with it. `Markdown` is the
inline scanner of the terms-of-service renderer. `Strings` and `Numerals` hold what they share.

**Stream limits and the gate.** `Transfers` models uploads and downloads with the counting and limiting readers under
every chunking; `Gate` is the composition of authentication, consent and handlers, with the traces (`Audit`) that every
run of requests leaves behind. `GateChains` joins the gate's runs, with real tokens, to the session protocol.

Code that updates state is a class or a method with a loop, proved against a specification function; the promises
are then lemmas about those functions and about runs of them.

## Where the code is less than its documentation

- `docs/configuration.md:50` says that every authenticated request re-issues the cookie. The code re-issues at most once
  a minute, so the guaranteed gap is a minute shorter than the configured window: `SlidingWindow.GapSafeExactly` says
  exactly how much for a client that never loses its cookie. A browser drops the cookie when its Max-Age is over, and a
  window that rounds down to whole seconds is cut short by it: `BrowserWindow.BrowserGapSafeExactly` gives the gap a
  browser can rely on. With an idle window below a minute, which the configuration accepts, the cookie is never re-issued
  at all (`SlidingWindow.NeverReissuedBelowAMinute`).
- `internal/auth/session.go:99-100` says the browser drops an idle cookie on its own. A Max-Age that rounds to zero is
  left out by Go, so a cookie issued with less than half a second to live outlives its session
  (`Gateway.BrowserDropsAtDeadline`, with such a run in `Protocol.CookieOutlivesSession`); the gateway then refuses it.
- `internal/proxy/proxy.go:112-114` presents the Content-Length check as a cheap form of the streaming limit. It changes
  the answer when the file name is missing or when the provider answers before the limit is met
  (`Transfers.PreCheckShows`, with an input in `Transfers.PreCheckHidesMissingName`); for honest lengths and a provider
  that reads to the end, exactly when the name is missing (`Transfers.PreCheckShowsOnlyWithoutName`).
- The stub provider numbers uploads per folder, so ids can repeat across folders and a file can then no longer be
  downloaded by the id it is listed under (`ShareStore.UploadIdsRepeat`). Everything listed can be downloaded exactly
  while no two nodes share an id (`ShareTree.AllDownloadExactly`), and an upload keeps it so exactly if its id is new to
  the share (`ShareTree.UploadKeepsDownloads`).
- "Stay signed in" can fail to close a warning that the absolute lifetime leaves room to close. It always works exactly
  for idle windows of at least 180.5 seconds less a nanosecond, for windows as long as the lifetime, and where no such
  warning can arise (`Deadlines.StayWorksExactly`, with the failing run in `Deadlines.StayFails`). It always re-issues
  the cookie, as a warning of the idle deadline suggests, exactly from 181 seconds on (`Deadlines.StayReissuesExactly`).
- base64 decoding in Go skips line breaks and ignores unused low bits, so several texts open to one payload
  (`SignedCookie.OpenedTokenIsSealed` says which is the sealed one, `SignedCookie.SlackToken` gives another).

## Assumptions

The MAC, the hash, email canonicalization, the JSON codec of cookie payloads and the time format are uninterpreted
functions. Of the codec it is assumed that objects whose members are strings read back as printed, of the time format that
times in the years 0 to 9999, the ones encoding/json prints, read back, and of a hash that it has 64 characters
(`CookieKinds.Crypto.Valid`); `CookieKinds.JsonIsValid` proves the first for the modelled JSON printer over any
invertible text encoding. Sealing a session or an acceptance with another time fails, as it does in the source. Runs of
the gate assume that nobody else can compute the MAC: a cookie that opens carries a payload the gateway has sealed
(`Gate.Unforged`). One session per login needs random states that do not repeat (`LoginFlow.FreshStates`). The deadline
theorems are about one clock and exchanges that follow one another. Start-up's checks on the configuration are
preconditions: 0 < absolute lifetime, 0 <= idle window <= absolute lifetime, a hexadecimal accent.

## Model

| member | source | states |
|---|---|---|
| Protocol.NoQuietPeriodUndone | internal/auth/middleware.go:61-75 | In every run, replays of old cookies included, each accepted request ends a chain that starts at a sign-in whose authentication was at most the idle window and 30 s old, and that has no gap beyond the idle window, within that sign-in's absolute lifetime |
| Protocol.ChainEndsAt | internal/auth/session.go:137-151 | The same for an explicitly constructed chain through the entries whose instants are stored as activity |
| Protocol.AnchorMeaning | internal/auth/session.go:53-58 | The stored activity of any session in the history is the instant of a sign-in or re-issue of that session, never later than the request |
| Protocol.LogIsSound | internal/auth/oidc.go:314-319 | Every sign-in of a run had an authentication no older than the idle window and 30 s, and every served request presented a session some earlier entry issued |
| Protocol.SignInsAreRecent | internal/auth/oidc.go:107-117 | With idle expiry on, every sign-in of a run rests on a stated authentication time at most the idle window and 30 s in the past |
| Protocol.AcceptedIsLogged | internal/auth/middleware.go:44-75 | The history the theorems speak of has exactly one entry for every accepted request, replays included, and for every accepted sign-in, and none for anything else |
| Deadlines.ReachableInvariant | web/src/lib/session.ts:31-49 | The bounds relating the app's stored deadline, the browser's cookie and the gateway's deadline hold in every reachable state |
| Deadlines.DeadlinesAgree | web/src/lib/session.ts:11-49 | The app's deadline is less than a minute past the gateway's, or at most the idle window near the absolute expiry, and at most a second and a tick early once told, across re-logins |
| Deadlines.DeadlineOnlyForward | web/src/lib/session.ts:28-35 | No event but a start-up of the app takes the stored deadline away or moves it back, in any state |
| Deadlines.RunOnlyForward | web/src/lib/session.ts:28-35 | Nor does any run of such events after any run |
| Deadlines.GatewayDeadlineMonotone | internal/auth/session.go:125-133 | No step of any run moves the deadline of the browser's session back |
| Deadlines.StayReissues | web/src/components/SessionTimeout.tsx:32-41 | With an idle window of at least 181 s, extending from a warning of the idle deadline, told to the app since the latest sign-in, always re-issues the cookie with the present instant |
| Deadlines.StayReissuesExactly | web/src/components/SessionTimeout.tsx:32-41 | That holds in every reachable state if and only if the window is at least 181 s, or rounds to zero seconds and never warns |
| Deadlines.StayDoesNotReissue | internal/auth/session.go:17-20 | A run without the re-issue for every other window, from a rounded reading or a download's guess |
| Deadlines.StaleWarning | web/src/lib/session.ts:28-35 | Why the app must have been told: a warning left over from before a re-login, whose extension does not re-issue the fresh cookie |
| Deadlines.StayClosesWarning | web/src/hooks/useSessionExpiry.ts:6-19 | From a window of 180.5 s less a nanosecond on, and for a window as long as the lifetime, extending closes the warning exactly when at least 120.5 s of the absolute lifetime are left |
| Deadlines.StayWorksExactly | web/src/components/SessionTimeout.tsx:32-41 | For every valid configuration: extending closes every warning that the lifetime leaves room to close if and only if the window is at least 180.5 s less a nanosecond, or the whole lifetime, or no such warning can arise |
| Deadlines.StayFails | internal/auth/session.go:17-20 | A run that defeats the button for every other configuration |
| SlidingWindow.GapSafeExactly | internal/auth/middleware.go:61-75 | For a client that always presents the last cookie it was given: gaps of at most g are never refused as idle if and only if g leaves the throttle's minute (less a nanosecond) unused, or the idle window is the whole lifetime |
| BrowserWindow.BrowserGapSafeExactly | internal/auth/session.go:99-121 | For a browser, which drops the cookie at its Max-Age: from any sign-in, gaps of at most g are never refused before the last half second of the lifetime if and only if g leaves that minute of the window, rounded down where it rounds down, unused, or the lifetime ends before the first window |
| BrowserWindow.BrowserWindowSlides | internal/auth/middleware.go:61-75 | A browser with such gaps is served until the last half second, from any state with a cookie less than a minute old |
| BrowserWindow.BrowserGapTooLong | internal/auth/session.go:99-121 | A busy browser with any longer gap that is refused while there is lifetime left |
| SlidingWindow.WindowSlides | internal/auth/session.go:146-150 | A client that keeps its cookie, with such gaps, is refused only by the absolute expiry |
| SlidingWindow.NeverReissuedBelowAMinute | internal/auth/middleware.go:62-70 | Below a minute of idle window the session never changes, so activity does not extend it |
| SlidingWindow.TooLongAGap | internal/auth/middleware.go:61-75 | A busy client with any longer gap that is refused as idle all the same |
| SlidingWindow.ReissuesKeepSession | internal/auth/middleware.go:61-75 | Along any chain of re-issues email, issue time, expiry and ID token stay and the deadline never moves back |
| Session.AcceptedUpToDeadline | internal/auth/session.go:71-151 | A sealed session is accepted exactly up to its advertised deadline, and past it the error names the bound that ran out |
| Session.AcceptedExactly | internal/auth/session.go:71-84 | A sealed session is accepted exactly while neither the expiry nor the idle window since its activity, or since its issue where it records none, has run out |
| Session.SecondsUntilIsNearest | internal/auth/session.go:117-121 | The advertised seconds are the nearest whole number, halves away from zero, also for deadlines in the past |
| Session.TouchSlides | internal/auth/middleware.go:61-75 | One touch keeps the identity, never shortens the deadline and leaves the stored activity less than a minute behind |
| Gateway.TouchSession | internal/auth/middleware.go:61-75 | The throttled re-issue, the cookie it adds and the advertised seconds, derived from what is stored |
| Gateway.RequireAuth | internal/auth/middleware.go:44-56 | Admits exactly the valid sessions, touched; every other request has its cookie cleared before 401 or the redirect to the login is committed |
| Gateway.DenyUnauthenticated | internal/auth/middleware.go:78-90 | 401 for API clients, a redirect that keeps the requested path for browsers |
| Gateway.LogoutHandler | internal/auth/middleware.go:92-113 | Always clears the session cookie; only a valid session with an ID token goes on to the provider's logout |
| Gateway.BrowserDropsAtDeadline | internal/auth/session.go:99-121 | The browser drops a live cookie within half a second of its deadline if at least half a second is left, and never otherwise |
| Gateway.SessionCookieKept | internal/auth/session.go:99-115 | Receiving a session cookie leaves the browser with that session until the cookie's Max-Age, which is within half a second of the session's deadline, and with every other cookie as it was |
| Gateway.ClearedCookieForgets | internal/auth/session.go:153-165 | Receiving the cleared cookie removes the session cookie and nothing else |
| BrowserJar.RequestStep | internal/auth/middleware.go:44-75 | The cookies a request is answered with change the browser's jar as the session protocol says |
| BrowserJar.SignInStep | internal/auth/oidc.go:226-331 | So do the cookies of a callback, which brings a session exactly for an accepted one and leaves the session alone otherwise |
| BrowserJar.SignOutStep | internal/auth/middleware.go:92-113 | So does the cookie of a sign-out |
| Protocol.CookieOutlivesSession | internal/auth/session.go:99-121 | A run whose re-issue leaves a cookie without Max-Age, which the browser keeps and the gateway refuses |
| ClientDeadline.CountdownMeaning | web/src/hooks/useSessionExpiry.ts:14-19 | What the warning shows in terms of the clock: when it opens, when it reads zero, how it rounds |
| ClientDeadline.DeadlineStore.ExtendTo | web/src/lib/session.ts:31-35 | The stored deadline never decreases, is at least a positive candidate afterwards, and is either the old one or the candidate |
| ClientDeadline.ExtendIsLater | web/src/lib/session.ts:28-35 | The later of stored deadline and candidate is kept, and nothing is stored for a candidate that is not positive |
| ClientDeadline.DeadlineStore.NoteExpiresIn | web/src/lib/session.ts:38-42 | A header that is missing or no number changes nothing, any other extends the deadline |
| ClientDeadline.DeadlineStore.NoteUnreadRequest | web/src/lib/session.ts:47-49 | An unread download counts as a full idle window, if idle expiry is on |
| ClientDeadline.DeadlineStore.ForgetExpiredDeadline | web/src/lib/session.ts:22-26 | Start-up drops exactly a deadline that has passed |
| ClientDeadline.StartUpNeverExpired | web/src/lib/session.ts:18-26 | After start-up no expired deadline is left, and a later one is still there |
| Oidc.LoginHandler | internal/auth/oidc.go:191-221 | Sets state, nonce and verifier of this call together, the path only if there is one, and asks for max_age exactly with idle expiry on; nothing is set when randomness fails |
| Oidc.CallbackHandler | internal/auth/oidc.go:226-331 | Outcome, cookies and destination for every order of failures; the flow cookies are cleared on every path |
| Oidc.VerdictIsFirstReason | internal/auth/oidc.go:226-331 | A callback is refused for the first reason of a fixed list that applies, each stated by what the request, the cookies and the claims hold, and accepted exactly when none does |
| Oidc.TooOldExactly | internal/auth/oidc.go:107-117 | A callback that gets as far is refused as too old if and only if idle expiry is on and the authentication time is missing or more than the idle window and 30 s ago |
| Oidc.ClearFlowCookies | internal/auth/oidc.go:375-387 | The loop clears all four flow cookies, in order, and adds nothing else |
| LoginFlow.LoginSetsTrio | internal/auth/oidc.go:191-221 | After a login the jar holds that call's three cookies with one expiry; an earlier stored path stays unless replaced |
| LoginFlow.FlowLastsFiveMinutes | internal/auth/oidc.go:347-373 | Each of a login's cookies is presented exactly up to five minutes after it |
| LoginFlow.CallbackLeavesNoFlowCookie | internal/auth/oidc.go:226-242 | Every callback, accepted or not, leaves no flow cookie in the jar |
| LoginFlow.AcceptedOpensOne | internal/auth/oidc.go:226-331 | A callback opens a session exactly when it is accepted, one for the email and ID token of its answer, active from that instant |
| LoginFlow.OneLoginPerCallback | internal/auth/oidc.go:281-286 | In every run the waiting trio and every opened session carry state, verifier and nonce of one single login call |
| LoginFlow.OneSessionPerLogin | internal/auth/oidc.go:226-331 | With fresh states, one login call opens at most one session |
| LoginFlow.StoredNext | internal/auth/oidc.go:363-373 | The stored path is that of the latest login since the last callback that brought one |
| LoginFlow.LandingComesFromPendingNext | internal/auth/oidc.go:226-242 | An accepted callback lands on the root or on that path, filtered |
| LoginFlow.LandingExactly | internal/auth/oidc.go:226-242 | A callback lands on the pending path, filtered, while its cookie lasts and the filter keeps something of it, and on the root otherwise |
| LoginFlow.EarlierNextSurvives | internal/auth/oidc.go:191-221 | A run in which the landing path comes from an earlier login than the session |
| SharePath.SegmentsOfJoinPath | web/src/lib/sharePath.ts:3-9 | Joining a step appends its own segments, and just the step when it is plain |
| SharePath.SplitAfterJoin | web/src/lib/sharePath.ts:3-9 | Joining plain names and splitting again is the identity |
| SharePath.JoinStaysNormalised | web/src/lib/sharePath.ts:7-9 | Joining a plain step to a normalised path gives a normalised path |
| SharePath.ParentUndoesJoin | web/src/lib/sharePath.ts:11-15 | The parent of a joined path is the path, normalised |
| SharePath.ParentPath | web/src/lib/sharePath.ts:11-15 | Popping the local list drops exactly the last segment |
| SharePath.Breadcrumbs | web/src/components/ShareView.tsx:132-136 | The i-th link is the normalised path of the first i + 1 segments of the folder path |
| ShareTree.UploadKeepsPaths | cmd/atrium-e2e/stubprovider.go:157-221 | Every path that resolved before an upload resolves to the same node after it |
| ShareTree.UploadedResolves | cmd/atrium-e2e/stubprovider.go:157-221 | The new file resolves at its own path if and only if its name is one plain step and no earlier sibling has it |
| ShareTree.SearchStep | cmd/atrium-e2e/stubprovider.go:223-238 | The search visits a sibling, then what is below it, then the siblings after it |
| ShareTree.WalkIsListed | cmd/atrium-e2e/stubprovider.go:196-238 | Whatever a path leads to below the root is in the pre-order listing |
| ShareTree.ListedIsDownloaded | cmd/atrium-e2e/stubprovider.go:136-155 | A listed entry is what its id downloads if and only if no place before it in the share's pre-order listing has that id, which unique ids guarantee |
| ShareTree.AllDownloadExactly | cmd/atrium-e2e/stubprovider.go:223-238 | Everything listed can be downloaded by its id if and only if no two different nodes share an id |
| ShareTree.UploadKeepsDownloads | cmd/atrium-e2e/stubprovider.go:183-190 | After an upload everything can be downloaded if and only if it could before and no listed node has the new id |
| ShareTree.UploadInsertsOne | cmd/atrium-e2e/stubprovider.go:183-190 | An upload adds the new file once for every place its folder is listed, and nothing else |
| ShareTree.UploadKeepsIdsDistinct | cmd/atrium-e2e/stubprovider.go:183-190 | Ids stay unique in the share if and only if they were and no listed node has the new id |
| ShareStore.ShareState.Resolve | cmd/atrium-e2e/stubprovider.go:194-221 | The loops compute the fold of first-child-by-name over the path's segments, and whether the result counts as a file |
| ShareStore.ShareState.FindById | cmd/atrium-e2e/stubprovider.go:223-238 | The recursive search returns the first node with the id in pre-order, or none exactly when none has it |
| ShareStore.FilterByMode | cmd/atrium-e2e/stubprovider.go:240-256 | Keeps, in order, exactly the entries the sharing mode shows |
| ShareStore.VisibleExactly | cmd/atrium-e2e/stubprovider.go:240-256 | What each mode shows: nothing, the whole folder in order, or the own entries |
| ShareStore.UploadShows | cmd/atrium-e2e/stubprovider.go:183-190 | An uploaded file is appended to the listing in every mode that shows anything |
| ShareStore.ShareState.HandleFolder | cmd/atrium-e2e/stubprovider.go:113-134 | Not found, the file itself, or the folder's visible entries |
| ShareStore.ShareState.HandleFolderFile | cmd/atrium-e2e/stubprovider.go:136-155 | Serves the first node with the id, 404 exactly when there is none |
| ShareStore.ShareState.AppendFile | cmd/atrium-e2e/stubprovider.go:183-190 | The folder's children become the old ones and the new file, every other folder is unchanged, and the tree stays a tree with distinct ids in each folder |
| ShareStore.ShareState.HandleUpload | cmd/atrium-e2e/stubprovider.go:157-192 | 403, 400 for a body that fails to read, and 201 exactly for an existing folder, and then the tree gains exactly that file; otherwise nothing changes |
| ShareStore.UploadsKeepFoldersDistinct | cmd/atrium-e2e/stubprovider.go:183-190 | Over every run of uploads the ids inside each folder stay pairwise distinct |
| ShareStore.UploadStaysReady | cmd/atrium-e2e/stubprovider.go:183-190 | One upload leaves its folder's ids distinct and free of the numbers of later uploads |
| ShareStore.UploadIdsRepeat | cmd/atrium-e2e/stubprovider.go:183-190 | Three uploads after which a listed file's id downloads another file |
| ShareStore.ShareState.HandleContent | cmd/atrium-e2e/stubprovider.go:94-111 | The locked step: 410 at the limit, otherwise one more download counted |
| ShareStore.Store.Authorize | cmd/atrium-e2e/stubprovider.go:83-92 | Admits exactly the recipient of an existing share; anything else looks like a missing one |
| ShareStore.Store.ListFor | cmd/atrium-e2e/fixtures.go:133-147 | The loop lists exactly the recipient's shares, in the fixed order |
| ShareStore.OwnedInOrder | cmd/atrium-e2e/fixtures.go:133-147 | The list follows the fixed order of ids, one id at a time |
| ShareStore.ListedIsAuthorized | cmd/atrium-e2e/fixtures.go:122-147 | A recipient sees in the list exactly the listed shares that authorization admits |
| DownloadCap.CapHolds | cmd/atrium-e2e/stubprovider.go:85-111 | In every interleaving the counter equals the successes, never exceeds the limit, and every download after a refusal is refused |
| DownloadCap.EveryRunDetermined | cmd/atrium-e2e/fixtures.go:122-131 | Each answer is the one its object's limit and the earlier successes call for, across reseeds |
| DownloadCap.EveryDownloadIsTheRecipients | cmd/atrium-e2e/stubprovider.go:83-111 | In every interleaving, reseeds included, each pending or answered download is of a share whose recipient asked for it |
| DownloadCap.ReseedStartsAfresh | cmd/atrium-e2e/fixtures.go:122-131 | A lookup after a reseed finds a fresh counter, while requests under way keep the share they looked up |
| ScriptScan.InlineScriptHashes | internal/webui/webui.go:105-132 | The loop terminates on every text and returns the tokens of the page's inline elements, in order |
| ScriptScan.ParsePrint | internal/webui/webui.go:105-132 | A page printed from text and script elements is read back as those very elements |
| ScriptScan.PrintParse | internal/webui/webui.go:105-132 | Every text is taken apart losslessly into well-formed elements and a rest without a complete one |
| ScriptScan.SearchesFindElement | internal/webui/webui.go:109-124 | The scanner's three position searches delimit exactly the first element's tag, body and rest |
| ScriptScan.HashesConcat | internal/webui/webui.go:105-132 | Where a text is scanned to its end, a page that starts with it needs its tokens and then those of the rest |
| ScriptScan.ElementAdds | internal/webui/webui.go:105-132 | An element adds the sha256 token of its body exactly when its opening tag has no src attribute |
| Shell.InjectConfig | internal/webui/webui.go:140-149 | The reassignments amount to one splice at each anchor, none for an empty part |
| Shell.InjectedParts | internal/webui/webui.go:140-196 | The script goes right behind the head's opening tag, the style right before its closing tag, and the page is otherwise kept |
| Shell.InjectedHashes | internal/webui/webui.go:102-196 | When both head tags stand in text, the policy gains exactly the configuration script's token, at its place, whatever the values |
| Shell.ConfigHashFirst | internal/webui/webui.go:134-149 | With no script before the head, that token comes first and the original list follows |
| Shell.ConfigReadsBack | internal/webui/webui.go:151-160 | The injected value reads back as the configured settings, and the script is absent exactly when none is set |
| Shell.AccentSetsTokens | internal/webui/webui.go:162-196 | The style sets the five accent tokens, the last one tinted for a six-digit colour and plain otherwise |
| Shell.NothingToInject | internal/webui/webui.go:140-149 | A page without the head's tags, or an empty configuration, leaves the page as it is |
| Shell.StyleIsHarmless | internal/webui/webui.go:162-175 | A hexadecimal accent cannot close the style, the head, or open a script |
| ConfigJson.ReadPrinted | internal/webui/webui.go:154-160 | Every flat object reads back as the members it was printed from, for all strings and integers |
| ConfigJson.PrintedIsInert | internal/webui/webui.go:134-160 | The printed object holds no angle bracket, ampersand, control character or script-breaking line separator, so no value can close the script |
| SignedCookie.DecodeEncode | internal/signedcookie/signedcookie.go:18-21 | Unpadded base64url decodes its own output for every byte string, and its alphabet has no dot |
| SignedCookie.EncodeDecode | internal/signedcookie/signedcookie.go:25-43 | Of the texts the decoder accepts, the encoder produces exactly the canonical ones |
| SignedCookie.SextetsKeepBits | internal/signedcookie/signedcookie.go:18-21 | The encoding is the payload's bits in order, padded with zeros to a multiple of six |
| SignedCookie.SymbolsAreStandard | internal/signedcookie/signedcookie.go:18-21 | The alphabet is that of base64url |
| SignedCookie.TextSpellsSextets | internal/signedcookie/signedcookie.go:18-21 | Each symbol of the encoding is the one numbered by its six bits, the high ones first |
| SignedCookie.DecodeIgnoresLineBreaks | internal/signedcookie/signedcookie.go:25-43 | A line break anywhere in a text makes no difference to what it decodes to |
| SignedCookie.OpenSeal | internal/signedcookie/signedcookie.go:18-43 | What was sealed opens to itself, for every key and payload |
| SignedCookie.OpenExactly | internal/signedcookie/signedcookie.go:25-43 | A token opens to p if and only if its part before the first dot decodes to p and the rest to p's MAC |
| SignedCookie.OpenedTokenIsSealed | internal/signedcookie/signedcookie.go:25-43 | An opening token is the sealed one if and only if both parts are canonical |
| SignedCookie.SlackToken | internal/signedcookie/signedcookie.go:25-43 | A token that is not the sealed one and opens to the same payload, for every payload |
| CookieKinds.SessionRoundTrip | internal/auth/session.go:61-84 | Whenever sealing a session succeeds, the token comes back with every field as it was |
| CookieKinds.AcceptanceChecks | internal/tos/cookie.go:30-41 | Whenever sealing an acceptance succeeds, it passes exactly for emails and documents with the same hashes |
| CookieKinds.SameCanonicalSameConsent | internal/tos/cookie.go:30-41 | Emails with the same canonical form pass or fail together, for every cookie |
| CookieKinds.ConsentIsCanonical | internal/tos/cookie.go:88-93 | Unless two canonical emails share a hash, an acceptance passes exactly for emails with the same canonical form and for the accepted document |
| CookieKinds.SessionObjectReads | internal/auth/session.go:36-49 | A session's payload reads as that session, and as an acceptance only with an empty email hash |
| CookieKinds.LastSpellingWins | internal/auth/session.go:71-84 | Of members whose names differ in case only, the last one is read |
| CookieKinds.AcceptanceObjectReads | internal/tos/cookie.go:19-25 | An acceptance's payload reads as that acceptance, and as a session only with the zero expiry |
| CookieKinds.KindsNeverConfused | cmd/atrium/main.go:67 | Though both kinds share key and envelope, neither is ever accepted as the other |
| CookieKinds.JsonIsValid | internal/auth/session.go:59-67 | What is assumed of the payload codec holds of the modelled JSON printer and reader |
| Markdown.RenderInline | web/src/lib/markdown.ts:36-50 | The loop over lastIndex terminates on every text and produces the parts of the matches, numbered in order |
| Markdown.SpansAreLeftmostShortest | web/src/lib/markdown.ts:38-47 | A list of matches is the one found if and only if each is the leftmost after the one before, of the first alternative that matches there, and shortest |
| Markdown.PartsOfLeftmostShortest | web/src/lib/markdown.ts:36-50 | The rendered parts are those that the leftmost shortest matches cut the text into |
| Markdown.RenderingIsLossless | web/src/lib/markdown.ts:36-50 | Re-wrapping the marked parts and concatenating gives back the source |
| Markdown.MatchConsumes | web/src/lib/markdown.ts:38-46 | Every match consumes at least three characters, five for a strong one, and is wrapped in its mark |
| Markdown.ExecIsLeftmost | web/src/lib/markdown.ts:42 | The search finds the leftmost match from lastIndex on, or there is none |
| Markdown.MarksMean | web/src/lib/markdown.ts:36-50 | One star around a plain line makes it emphasised, two make it strong |
| Markdown.MatchOnOneLine | web/src/lib/markdown.ts:38-42 | A match never spans a line break |
| Markdown.KeysCountUp | web/src/lib/markdown.ts:36-50 | The marked parts are keyed 0, 1, 2, ... in order |
| Transfers.LimitedReader.Read | internal/proxy/proxy.go:140-142 | The limiting reader never hands out the byte past the limit, and its error sticks |
| Transfers.CountingReader.Read | internal/proxy/proxy.go:193-204 | The counter equals the bytes handed over, whatever the read sizes |
| Transfers.Consume | internal/proxy/proxy.go:140-144 | A whole transfer hands the provider a prefix of the body no longer than the limit |
| Transfers.FeedDelivers | internal/proxy/proxy.go:112-157 | How a transfer ended determines what was received: the limit error exactly with the first max bytes, the regular end with all of them |
| Transfers.ChunkingDoesNotMatter | internal/proxy/proxy.go:112-157 | Under every chunking and buffer schedule that keeps reading, the transfer ends, with the limit error exactly when the body exceeds the limit |
| Transfers.HandleUpload | internal/proxy/proxy.go:115-157 | Status, bytes received and trace: start record before the call, completion only on success and with the number of bytes the provider received |
| Transfers.UploadRecordsMatchStatus | internal/proxy/proxy.go:112-181 | An upload leaves a denial record, last and naming the recipient, exactly when it is answered 403, 404 or 410, and a completion exactly when answered 201 |
| Transfers.UploadReasonsFit | internal/proxy/proxy.go:159-181 | An upload's denial record names the reason its status stands for |
| Transfers.RefusalStatus | internal/proxy/proxy.go:144-181 | Where no read failed, the provider's refusal determines the status |
| Transfers.DownloadRecordsMatchStatus | internal/proxy/proxy.go:44-110 | A download leaves a denial record exactly when it is answered 403, 404 or 410, and a start record exactly when answered 200 |
| Transfers.DownloadReasonsFit | internal/proxy/proxy.go:44-110 | A download's denial record names the reason its status stands for, and the provider's answer determines the status |
| Transfers.StatusMeaning | internal/proxy/proxy.go:115-157 | Exactly when an upload is answered 413 and exactly when 201 |
| Transfers.PreCheckShows | internal/proxy/proxy.go:123-131 | Exactly when checking the declared length first changes the answer |
| Transfers.PreCheckHidesMissingName | internal/proxy/proxy.go:123-131 | An input on which it does: one byte too many and no name |
| Transfers.PreCheckShowsOnlyWithoutName | internal/proxy/proxy.go:123-131 | For honest lengths and a provider that reads to the end, only a missing name makes the check visible, and 413 means the body exceeds the limit |
| Transfers.HandleDownload | internal/proxy/proxy.go:46-110 | Status, call, start record, and completion only when every byte was passed on, with the number of bytes passed on |
| Transfers.CopyContent | internal/proxy/proxy.go:102-108 | Whatever the pieces, the recipient gets a prefix of the content, and all of it exactly on success |
| Gate.RequireTos | internal/tos/handler.go:22-41 | Admits exactly requests with consent, 403 otherwise, and everyone when consent is off |
| Gate.AcceptHandler | internal/tos/handler.go:52-70 | Records the email and the version first, and sets the acceptance cookie before the status commits the headers; 500 without a cookie if sealing fails |
| Gate.AcceptingSetsCookie | internal/tos/handler.go:52-70 | An identified acceptance of a configured document sets the cookie for a year |
| Gate.AcceptingWorks | internal/tos/handler.go:22-70 | With that cookie every email of the same canonical form passes the consent check |
| Gate.Serve | internal/api/api.go:67-83 | Trace, cookies and status of a whole request through both gates and its handler |
| Gate.RequestCalls | internal/api/api.go:67-83 | A request makes exactly one provider call, its route's, for the session's email, if it is admitted, consented and passes its own checks, and none otherwise |
| Gate.RecordsExactly | internal/api/api.go:127-242 | Listings and acceptances are on record exactly for the requests that succeeded, with the session's email |
| Gate.GateAnswers | internal/api/api.go:67-83 | The status of every request that the gates or a listing answer |
| Gate.EveryCallJustified | internal/api/api.go:67-83 | In every run without forgery, the terms changing at any time, each provider call carries the email of a session accepted for that request and signed in to earlier, and with consent on, an acceptance of the document in force for that email, on record from when that very document was in force |
| Gate.EveryConsentIsCanonical | internal/tos/cookie.go:88-93 | Unless two canonical emails share a hash, the acceptance on record behind a provider call is of an email with the same canonical form |
| GateChains.EveryCallEndsChain | internal/auth/middleware.go:61-75 | In every run without forgery on one clock, each provider call is for the email of a session from whose fresh sign-in accepted requests lead to that very request with no gap beyond the idle window, within the absolute lifetime |
| GateChains.HistoryIsConsistent | internal/auth/session.go:71-84 | The admitted requests of such a run, with real tokens and terms changing, form a history that obeys the session protocol |
| Gate.IdentifiedWasSignedIn | internal/auth/session.go:71-84 | An admitted request presents a session somebody signed in to, never an acceptance |
| Gate.PresentedWasIssued | internal/auth/session.go:71-84 | An admitted request presents exactly a session the gateway has put into a cookie |
| Gate.ConsentIsOnRecord | internal/tos/cookie.go:27-41 | A request that passes the consent check presents an acceptance of the current document that was recorded under its version, never a session |
| Gate.EveryCookieSourced | internal/tos/cookie.go:43-64 | Every cookie the gateway ever sets belongs to a sign-in or to an acceptance on record |
| Gate.EntriesOfRequest | internal/proxy/proxy.go:84-157 | The history's entries of a request are exactly those of its own handling |
| Gate.EveryCompletionStarted | internal/proxy/proxy.go:84-157 | In every run each transfer completion follows exactly one start record of the same request, for the same transfer |

## Left out

- LoginFlow.OneSessionPerLogin: the freshness of random states is a precondition, since the random source is not modelled.
- Gate.EveryCallJustified: consent is for an email with the same hash of its canonical form; `Gate.EveryConsentIsCanonical` makes it the same canonical form where hashes do not collide, which is a property of SHA-256 and uninterpreted here.
- GateChains.EveryCallEndsChain: one clock, and the events of a run in the order of their times.
- Deadlines.StayFails: for windows below one second the app runs no timer, so the warning it speaks of is the one read when the component mounts.
- Deadlines.DeadlinesAgree: one clock, and exchanges that follow one another; responses that overtake each other between tabs have no such bound.
- Protocol.NoQuietPeriodUndone: runs start without cookies from before the last-seen field existed; `Session.AcceptedUpToDeadline` and `SlidingWindow.NeverReissuedBelowAMinute` cover those cookies one at a time.
- Gate.EveryConsentIsCanonical: that no two emails' canonical forms share a hash is a precondition, since the hash is uninterpreted.
- Markdown.RenderInline: strings are sequences of Unicode scalar values, so a character outside the basic plane counts once, not twice; React elements are reduced to their kind, key and text.
- ScriptScan.InlineScriptHashes: the hash is a function of the body's text; UTF-8 and base64 of the digest are inside it.
- ConfigJson.ReadPrinted: the reader takes objects written without spaces and does not combine surrogate pairs, neither of which the encoder produces; invalid UTF-8 in a setting is not modelled.
- Transfers.HandleUpload: whether a provider that answers before reading to the end hides a failed read is a parameter of the request.
- DownloadCap.CapHolds: the canonical dataset's contents are a parameter; each locked step is atomic.
- Each handler reads the clock once; the source reads it again for Max-Age and for the header.
- int64 and time.Duration saturation. Outside `CookieKinds` and `Gate`, sessions with times that JSON cannot print (before year 0 or after 9999), which the handlers answer with 500 or leave as they were.
- safeNextPath, url.Parse and path.Clean: library-driven filters; the first is an uninterpreted function.
- OIDC discovery, token exchange, JWKS and JWT checks: the provider is a source of arbitrary answers.
- The provider client, apart from its error classes; ES256 request signing.
- renderMarkdown and renderBlock: splitting into blocks and choosing an element for each.
- Security headers, branding files, audit pseudonymization, configuration loading beyond the stated preconditions.
- React rendering, themes and translations.
