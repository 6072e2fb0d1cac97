# VRChat Avatar Manager, modelled in Dafny

This project models the logic of a desktop companion app for browsing and
grouping a VRChat user's avatars. It has three parts:

- a proxy that keeps one cookie session per client and calls the VRChat REST
  API (`apps/api/src/vrc.ts`);
- a React client that logs in, passes a second factor, and pages through the
  avatar list and search results (`apps/web/src/App.tsx`);
- client-side helpers for performance ranks, user-defined "body base"
  groups, and the preference store in `localStorage`
  (`apps/web/src/utils.ts`, `apps/web/src/components/SettingsModal.tsx`,
  `apps/web/src/storage.ts`).

Every operation is a pure function over immutable values, except for two
methods: the key-deletion loop of `remove` and the page-counting loop of
`vrcCountMyAvatars`. HTTP is an oracle `fetch: Request -> Response` that
the caller passes in. Each proxy operation returns the requests it sent
together with its outcome, so "fails before any request" can be stated as
`sent == []`. The React handlers are single atomic transitions, and the
reply of the local API server is one of their inputs.

Modules, one per file:

- `Wrappers`: `Option`.
- `Text`: the string built-ins the code relies on:
  - `trim` with the ECMAScript white-space set;
  - ASCII `toLowerCase`;
  - `includes`;
  - splitting at a character, which the code itself never does: it only reads the credential and the avatar-page query back out in `Vrc.CredentialsOf` and `Vrc.AvatarsQuery`;
  - decimal rendering of integers.
- `Json`: JavaScript values as the code handles them:
  - truthiness;
  - `?.`, `??` and `||`;
  - `String(x)` and `Number(x)` for integers;
  - `.length`.
- `Types`: the record shapes of `apps/web/src/types.ts`.
- `Rank`: `normalizeRank`, `getPerfRank` and `rankBadge`.
- `Utf8` and `Base64`: what `Buffer.from(s, "utf8").toString("base64")` computes.
  - UTF-8 follows RFC 3629.
  - Base64 uses the alphabet and padding of section 4 of RFC 4648.
- `Catalogue`: `add` and `remove` of body bases, with the cascade into the
  avatar-to-base map.
- `Vrc`: the session registry, `basicAuth`, `vrcLogin`, `vrcVerify2FA`,
  `vrcGetMyAvatars` and `vrcCountMyAvatars`.
- `Ui`: the screen state of `App.tsx` and its handlers.
- `Storage`: the six load/save pairs and the boolean flag encoding.

## Model

| member | source | states |
|---|---|---|
| Text.Trim | apps/web/src/utils.ts:7 | The result is a stretch of the input with only white space before and after it, and it has no white space at either end. It is empty exactly when the input is all white space. |
| Text.TrimIdempotent | apps/web/src/utils.ts:7 | Trimming twice gives the same text as trimming once. |
| Text.SplitFirstJoin | apps/api/src/vrc.ts:17 | Splitting `a + sep + b` at the first `sep` gives back `a` and `b` whenever `a` has no `sep`. This is how the `user:password` credential is read back. |
| Text.IntToStringRoundTrip | apps/api/src/vrc.ts:130-131 | Parsing the decimal rendering of an integer (`String(n)`) gives the integer back. |
| Json.LengthOf | apps/api/src/vrc.ts:167 | `.length` of an array is its item count and of a string its UTF-16 length. An object answers with its own `length` field, so a numeric field is that number. Booleans and numbers have no length. It throws exactly on `null` and `undefined`. |
| Rank.NormalizeRank | apps/web/src/utils.ts:5-17 | The result is null exactly for a falsy input or an input whose trimmed text is empty. A non-null result is never empty. It is one of the five canonical ranks or the trimmed text itself. |
| Rank.NormalizeRankPriority | apps/web/src/utils.ts:10-13 | If the lower-cased text contains "excellent", the result is Excellent. Otherwise "good" gives Good. Otherwise "medium" gives Medium. |
| Rank.ClassifyPoorIff | apps/web/src/utils.ts:14 | Classification gives Poor if and only if no earlier keyword matches, "poor" occurs and "very" does not. |
| Rank.NormalizeRankPoor | apps/web/src/utils.ts:14 | The same if-and-only-if, stated for `normalizeRank` of any truthy value. |
| Rank.ClassifyVeryPoorIff | apps/web/src/utils.ts:15 | Classification gives VeryPoor if and only if no earlier keyword matches and "verypoor" or "very poor" occurs. |
| Rank.NormalizeRankVeryPoor | apps/web/src/utils.ts:14-15 | The same if-and-only-if, stated for `normalizeRank`. |
| Rank.NormalizeRankFallThrough | apps/web/src/utils.ts:14-16 | Text with "very" and "poor" but neither "verypoor" nor "very poor" (and no earlier keyword) is returned trimmed but otherwise unchanged. That result is not a canonical rank. |
| Rank.ClassifyCanonical | apps/web/src/utils.ts:11-15 | Each canonical rank classifies as itself and is its own trimming. |
| Rank.NormalizeRankIdempotent | apps/web/src/utils.ts:7-16 | Normalising a non-null result again returns it unchanged. |
| Rank.GetPerfRank | apps/web/src/utils.ts:19-40 | A falsy `perf` gives null. A string `perf` with a non-null normalisation gives that normalisation. |
| Rank.GetPerfRankFirstCandidate | apps/web/src/utils.ts:25-39 | For a truthy `perf`, the result is the first non-null normalisation among, in order: the string itself, the platform entry, the alternate-key entry, and the top-level `rating ?? rank`. |
| Rank.GetPerfRankPrecedence | apps/web/src/utils.ts:25-37 | A rank in the platform-keyed entry beats the alternate keys (pc/windows/win or quest/mobile/android). Those beat the top-level rating/rank. |
| Rank.GetPerfRankIsNormalized | apps/web/src/utils.ts:19-40 | A non-null result is non-empty and is a fixed point of `normalizeRank`. |
| Rank.RankBadge | apps/web/src/utils.ts:42-49 | Null and the empty string map to "-". Each canonical rank gets its colour badge, a space and the rank. Any other text is returned unchanged. |
| Rank.GetPerfRankBareEntry | apps/web/src/utils.ts:25-27 | A platform entry that is an object with neither `rating` nor `rank` yields the rank "[object Object]". |
| Rank.NormalizeObject | apps/web/src/utils.ts:5-17 | Every object normalises to "[object Object]", since that text matches no keyword. |
| Rank.LabelContainsKeyword | apps/web/src/utils.ts:11-15 | A canonical rank's label, lower-cased, is two characters followed by the keyword that selects that rank, so it contains the keyword. |
| Rank.LabelSuffix | apps/web/src/utils.ts:44-48 | A canonical rank's label is two characters longer than the rank and ends with the rank. |
| Rank.RankBadgeIdentifiesRank | apps/web/src/utils.ts:42-49 | Two normalised ranks with the same label are the same rank, so labelling loses nothing. |
| Utf8.EncodeChar | apps/api/src/vrc.ts:17 | Each character takes 1 to 4 bytes. It takes a single byte exactly when it is ASCII, and the lead byte is never a continuation byte. |
| Utf8.EncodeConcat | apps/api/src/vrc.ts:17 | Encoding a concatenation concatenates the encodings. |
| Utf8.EncodeAscii | apps/api/src/vrc.ts:17 | ASCII text encodes to one byte per character, with each byte equal to its code point. |
| Utf8.DecodeEncode | apps/api/src/vrc.ts:17 | Decoding the UTF-8 encoding of any text gives the text back. |
| Base64.Encode | apps/api/src/vrc.ts:17 | The output is 4 characters for every started group of 3 bytes. |
| Base64.EncodeAlphabet | apps/api/src/vrc.ts:17 | Every output character is from the RFC 4648 alphabet or is the pad `=`. |
| Base64.DecodeEncode | apps/api/src/vrc.ts:17 | Decoding the encoding of any byte string gives the bytes back. |
| Base64.EncodeInjective | apps/api/src/vrc.ts:17 | Different byte strings have different encodings. |
| Catalogue.Add | apps/web/src/components/SettingsModal.tsx:47-53 | An input that trims to empty leaves everything unchanged. Otherwise exactly one `{id, trimmed name}` is appended after the unchanged earlier entries, and the input is cleared. |
| Catalogue.AddKeepsIdsUnique | apps/web/src/components/SettingsModal.tsx:51 | With a fresh id, the ids stay pairwise distinct. |
| Catalogue.Without | apps/web/src/components/SettingsModal.tsx:56 | No kept entry has the id. Every other entry keeps its multiplicity, and nothing new appears. |
| Catalogue.WithoutConcat | apps/web/src/components/SettingsModal.tsx:56 | Filtering distributes over concatenation, so kept entries stay in their original order. |
| Catalogue.WithoutIds | apps/web/src/components/SettingsModal.tsx:56 | The ids after filtering are the ids before it, minus the removed one. |
| Catalogue.WithoutKeepsIdsUnique | apps/web/src/components/SettingsModal.tsx:56 | Filtering keeps the ids pairwise distinct. |
| Catalogue.Unassign | apps/web/src/components/SettingsModal.tsx:58-64 | No entry of the result points to the id. Every entry pointing elsewhere is kept with the same value, and no key is added. |
| Catalogue.UnassignLoop | apps/web/src/components/SettingsModal.tsx:59-63 | The copy-then-delete loop over the keys computes exactly `Unassign`. |
| Catalogue.Remove | apps/web/src/components/SettingsModal.tsx:55-65 | After removal, neither the list nor any map value mentions the id. Every other base keeps its multiplicity, in the original order (the list is the filter, see `Catalogue.WithoutConcat`). Every other assignment survives and no key is added. |
| Catalogue.RemoveKeepsNoDangling | apps/web/src/components/SettingsModal.tsx:56-63 | If every map value named an existing base before removal, the same holds after it. |
| Catalogue.RemoveIdempotent | apps/web/src/components/SettingsModal.tsx:56-63 | Removing twice is the same as removing once. |
| Catalogue.WithoutUnchanged | apps/web/src/components/SettingsModal.tsx:56 | Filtering out an id that is not present changes nothing. |
| Catalogue.RemoveUndoesAdd | apps/web/src/components/SettingsModal.tsx:47-65 | Removing a base just added under a fresh id restores the list. When nothing was dangling, it also restores the map. |
| Vrc.CreateSession | apps/api/src/vrc.ts:21-26 | The new sid is registered with an empty cookie jar. Every other sid keeps its registration and its session. |
| Vrc.CreateSessionFresh | apps/api/src/vrc.ts:21-26 | A fresh sid grows the registry by one and is then found by the lookup. |
| Vrc.GetSession | apps/api/src/vrc.ts:28-36 | The lookup succeeds exactly when `hasSession` (`Vrc.HasSession`) holds, and then returns the registered session. |
| Vrc.BasicAuth | apps/api/src/vrc.ts:16-19 | The header is "Basic " followed only by Base64 characters. |
| Vrc.BasicAuthRoundTrip | apps/api/src/vrc.ts:16-19 | For a username without a colon, decoding the header gives back the username and password, as section 2 of RFC 7617 requires. |
| Vrc.Login | apps/api/src/vrc.ts:51-87 | Fails with NO_SESSION and sends nothing exactly for an unknown sid. Otherwise it sends one GET to /auth/user. A non-ok reply is returned with its status and body unchanged. An ok reply always succeeds. Unless a second factor is needed, it logs in with the body as the user. A `2fa_required` result never carries a value of length 0. |
| Vrc.LoginSecondFactor | apps/api/src/vrc.ts:73-86 | On an ok reply, the second factor is required if and only if `requiresTwoFactorAuth ?? []` has a positive length. That value is then returned as it is. An absent or `null` field, which includes every body that is not an object, logs in with the body. |
| Vrc.VerifyPath | apps/api/src/vrc.ts:93-96 | The emailotp endpoint is chosen if and only if the method is "emailOtp". Otherwise the totp endpoint is chosen. |
| Vrc.Verify2FA | apps/api/src/vrc.ts:90-122 | Unknown sid: NO_SESSION with nothing sent. The verify POST always goes first. The result is ok if and only if both the verify and the follow-up user request are ok, and then it carries the user body. |
| Vrc.Verify2FAFirstFailure | apps/api/src/vrc.ts:109-121 | A refused verify stops after one request with its status and body. A refused user request is reported with its own status and body. |
| Vrc.AvatarsUrlRoundTrip | apps/api/src/vrc.ts:128-131 | The page and offset can be read back from the avatar-list URL `Vrc.AvatarsUrl` renders. Together with `Vrc.AvatarsUrlInjective`, this is why requests name the page abstractly as `Endpoint.Avatars(n, offset)`: each URL names exactly one page and offset. |
| Vrc.AvatarsUrlInjective | apps/api/src/vrc.ts:128-131 | Different page sizes or offsets give different URLs. |
| Vrc.GetMyAvatars | apps/api/src/vrc.ts:125-143 | Unknown sid: NO_SESSION with nothing sent. Otherwise it sends one request with the page size and offset, defaulting to 50 and 0. An ok reply passes the body through; otherwise the status and body are returned. |
| Vrc.AddLength | apps/api/src/vrc.ts:167 | `total += data.length` stays a number exactly while every page has a length, and then adds that length. |
| Vrc.CountFrom | apps/api/src/vrc.ts:153-171 | When the server eventually stops, the loop sends at least one and finitely many page requests. It ends rejected, done or thrown. |
| Vrc.CountMyAvatars | apps/api/src/vrc.ts:146-174 | Unknown sid: NO_SESSION with nothing sent. Otherwise the `while (true)` loop computes exactly the page-by-page reference `CountFrom` from offset 0. |
| Vrc.CountFromPages | apps/api/src/vrc.ts:149-170 | The i-th request asks for 100 avatars at offset 100 × i. |
| Vrc.FirstStop | apps/api/src/vrc.ts:164-168 | The first page that stops the loop (non-ok, throwing or short) exists and no earlier page stops it. |
| Vrc.CountEndsAtFirstStop | apps/api/src/vrc.ts:164-168 | The loop sends exactly the pages up to the first stopping one. A non-ok page aborts with its status and body, and a null page throws. A short page ends with the sum of the lengths of every page up to and including it. |
| Vrc.EmptyObjectPagesNeverStop | apps/api/src/vrc.ts:167-168 | An accepted page with no length never stops the loop (`undefined < 100` is false). So an upstream that answers `{}` to every page is asked for pages forever. |
| Vrc.CountOfServedList | apps/api/src/vrc.ts:149-173 | When the server serves consecutive 100-item slices of a finite list, the count is the length of that list. |
| Ui.DefaultMethod | apps/web/src/App.tsx:71 | TOTP is chosen if and only if it is offered; otherwise email OTP is chosen. |
| Ui.DoLogin | apps/web/src/App.tsx:48-81 | Clears the list. A non-ok reply sets an error and keeps the phase. `2fa_required` stores the methods and picks the default method. Any other ok reply logs in with `displayName || ""`. |
| Ui.Do2fa | apps/web/src/App.tsx:83-106 | Only an ok reply reaches the logged-in phase. Any other reply changes nothing but the error. |
| Ui.LoadAvatars | apps/web/src/App.tsx:108-140 | A reset load sets the list to the page and the offset to its length. An append load adds the page and advances the offset by its length. A failed load leaves the list, offset and hasMore unchanged. |
| Ui.SearchAvatars | apps/web/src/App.tsx:143-183 | A success with a non-blank query shows search mode with the same reset/append rule as the list. A failure leaves the results, offset, hasMore and mode unchanged and sets an error. The main list is never touched. |
| Ui.SearchBlankQuery | apps/web/src/App.tsx:146-150 | A query that is empty after trimming sets an error and changes nothing else. |
| Ui.BackToList | apps/web/src/App.tsx:280-286 | All search state is cleared: no results, no total, offset 0, no more pages, list mode. The main list and the query are kept. |
| Ui.ReloadAsWritten | apps/web/src/App.tsx:248-259 | The handler as written. It clears all search state and the query. A successful reply replaces the list with the fresh page, with the offset at its length. A failed reply keeps the old list but leaves the offset at 0, and sets an error. |
| Ui.Reload | apps/web/src/App.tsx:248-259 | The same handler without the eager offset reset. A successful reply replaces the list with the fresh page and agrees with the original. A failed reply keeps the list and its offset and sets an error. |
| Ui.InitialInv | apps/web/src/App.tsx:22-46 | The initial state satisfies the paging invariant. |
| Ui.Step | apps/web/src/App.tsx:203-330 | The screen offers each control only in the phase and mode that render it (`Ui.Enabled`). The login form is offered when idle, and the code form and method pick in `2fa_required` when the method is offered. Search, reload and the query are offered when logged in. "Load more" is offered when the shown list has more, and continues that list without touching the other. "Back to list" is offered in search mode. Only the login and code forms change the phase. "Back to list" and reload leave the search cleared. |
| Ui.StepKeepsInv | apps/web/src/App.tsx:108-183 | With the corrected reload (`Ui.Reload`, see Findings), every event the screen offers keeps each offset equal to the length of the list it continues. The reload handler as written breaks this (`Ui.ReloadAsWrittenDuplicates`). |
| Ui.AppendOntoEmptyIsReset | apps/web/src/App.tsx:130-136 | Appending onto an empty list at offset 0 gives the same state as a reset load. |
| Ui.ReloadAsWrittenDuplicates | apps/web/src/App.tsx:257-258 | A failed reload as written leaves a non-empty list at offset 0. The next "load more" then appends the first page a second time. |
| Ui.ReloadKeepsInv | apps/web/src/App.tsx:248-259 | The corrected reload keeps the invariant. After a failure, "load more" asks for the offset just past the shown list. |
| Storage.KeysDistinct | apps/web/src/storage.ts:3-68 | The six keys are pairwise distinct. |
| Storage.Load | apps/web/src/storage.ts:4-11 | An absent key or empty text gives the default, and so does text that does not parse. Non-empty stored text that decodes to a value gives that value. The same loader shape is used at lines 17-24, 30-37, 43-50 and 56-63. |
| Storage.Save | apps/web/src/storage.ts:12-14 | Writes the encoding under the slot's key and leaves every other key as it was. The same saver shape is used at lines 25-27, 38-40, 51-53 and 64-66. |
| Storage.SaveThenLoad | apps/web/src/storage.ts:4-14 | With a codec that round-trips and never produces empty text, loading after saving returns the saved value. |
| Storage.SaveKeepsOtherSlots | apps/web/src/storage.ts:3-68 | Saving one slot leaves every other slot's loader result unchanged, including the flag. |
| Storage.SaveFlagKeepsOtherSlots | apps/web/src/storage.ts:68-79 | Saving the flag leaves every JSON slot's loader result unchanged. |
| Storage.LoadConfirmAvatarChange | apps/web/src/storage.ts:69-76 | Reads true only for the exact text "true". An absent key or any other text reads false. |
| Storage.SaveConfirmAvatarChange | apps/web/src/storage.ts:77-79 | Stores "true" or "false" under the flag's key and nothing else. |
| Storage.FlagRoundTrip | apps/web/src/storage.ts:69-79 | Loading the flag after saving `b` returns `b`. |

## Left out

- Network I/O, cookies and `readJsonSafe`. The upstream reply is an input `(status, body)` whose body is already parsed, and `ok` means a status of 200 to 299. Cookie jars are kept as opaque values.
- `crypto.randomUUID` and `uid()`. The new id is a parameter, and freshness is a precondition where a lemma needs it.
- `toLowerCase` and `trim`. Lower-casing is ASCII only. Trimming removes the ECMAScript white-space set but is not checked against the full Unicode `Zs` category.
- Non-integer numbers and precision. `Num` holds unbounded integers, so fractional, `NaN` and infinite numbers are not represented. Integers beyond 2^53 stay exact in the model, whereas JavaScript's `Number` and `+=` round them.
- Json.ToNumber: text converts only when, once trimmed, it is empty or an optionally signed run of decimal digits. Other forms that `Number` reads as finite integers, such as `0x10`, `1e2` or `1.0`, give `NaN` in the model. So at apps/web/src/App.tsx:165-166 such a `totalMatches` keeps the previous count, where the handler would show the number.
- Json.LengthOf: an object's own `length` field is read as a number when it is a number, `null` or a boolean. A text, array or object in that field reads as `undefined`. The source would compare it after conversion and concatenate it onto the total.
- `String(x)` on non-integer numbers, symbols and objects with their own `toString`, and `encodeURIComponent` of anything but an integer rendering (apps/api/src/vrc.ts:130-131).
- JSON encoding of request bodies. A request carries its body as a `Json.Value`, not as text.
- Vrc.CountMyAvatars: the `while (true)` loop ends only if the server eventually answers with a stopping page. The method takes a ghost page bound and requires that page to stop, so a server that never stops is not modelled. `Vrc.EmptyObjectPagesNeverStop` shows one such server: every page answered with `{}`.
- Ui: the effect at apps/web/src/App.tsx:185-191, which reloads the list after every phase change, is not modelled, and neither is any JSX rendering. Asynchronous interleaving of handlers and React's batching of state updates are also left out.
- Ui.LoadAvatars: a truthy `avatars` field that is not an array is read as an empty page. The handler as written treats it in two ways:
  - A reset load (apps/web/src/App.tsx:130-132) stores the value itself as the list. The offset becomes its `.length`: a string's character count, `undefined` otherwise.
  - An append (apps/web/src/App.tsx:133-135) spreads it into the list. A string adds its characters one by one. A number, boolean or plain object throws a `TypeError` inside the state updater, and the offset becomes `NaN` for anything without a numeric `length`.
- Ui.SearchAvatars: its `avatars` field gets the same simplification, with the same reset and append behaviours at apps/web/src/App.tsx:171-177.
- Ui: the text fields for username, password and code are left out, since they only feed the request bodies.
- Storage.Load: JSON is an abstract codec per record type, so stored text that parses to JSON of another shape is not represented. A `localStorage` that throws on access is also not represented.
- Base64 decoding accepts only canonical padded input. It refuses a last group whose unused bits are set, as section 3.5 of RFC 4648 allows (`Base64.PadBitsRejected`). It exists only to state the round trip and injectivity of the encoder.

## Findings

| source | as written | input that shows it | evidently intended | confidence | as-written member | corrected member |
|---|---|---|---|---|---|---|
| apps/web/src/App.tsx:257-258 | The reload button sets the list offset to 0 before `loadAvatars(true)`. That call only replaces the list when its request succeeds. | Logged in with a list of k > 0 avatars and `hasMore` true. Reload while the server is unreachable. The list stays, but the offset is 0, so "load more" requests offset 0 and appends the first page again. | The offset changes only together with the list. `loadAvatars(true)` already requests offset 0 and sets the offset from the page it receives. | medium, not executed | Ui.ReloadAsWritten (shown by Ui.ReloadAsWrittenDuplicates) | Ui.Reload (Ui.ReloadKeepsInv, Ui.StepKeepsInv) |
