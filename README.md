# iFormBuilder / ArcGIS sync clients — a Dafny model

This project models the core of a PHP application that synchronises iFormBuilder
form data with ArcGIS feature services:

- `IFormRequest` — the iFormBuilder API client: the paging `get` loop (offset
  parameter, token refresh on an `invalid access token` reply, merging of pages,
  the 50-request cap), the two-attempt `post`/`put`/`delete` retry, the option-list
  helpers `getOptions`, `getOptionsAsKeyValueArray` and `sortOptionList`, and the
  static `parseLocationString`.
- `IFormTokenGenerator` — the JWT-bearer assertion: claim set, URL-safe base64,
  HS256 dispatch and the reading of the token reply.
- `ArcGisRequest` — `getFeatures` (defaults, the per-field pre-pass over the
  service info that rewrites `outFields` and builds the coded-value domains, the
  query paging loop over `exceededTransferLimit`) and the date-text
  normalisation that starts `convertDateTimeString`.
- `Env::setValue` — rewriting a `KEY=value` line of a `.env` file.

Files:

- `php.dfy` (module `Php`) — the PHP values and builtins the core relies on: decoded
  JSON (`Doc`), `isset`, truthiness, `strtolower`/`strtoupper`, `strpos`,
  `explode`/`implode`, `str_replace`, the `(int)` cast, `array_unique`, and the
  last-write-wins fill of an array.
- `iform_request.dfy` (module `IForm`) — the iFormBuilder client as a class whose
  methods update its token, profile and the sync log's counter.
- `iform_options.dfy` (module `IFormOptions`) — the key/value map and the sorting
  payload.
- `iform_location.dfy` (module `IFormLocation`) — `parseLocationString`.
- `token_generator.dfy` (module `IFormToken`) — `IFormTokenGenerator`.
- `arcgis_request.dfy` (module `ArcGis`) — the ArcGIS client as a class.
- `env.dfy` (module `Env`) — `setValue`.

Servers are modelled as the sequence of decoded replies they give. A call past the
end of that sequence is a failed transport call: `curl_exec` gives false, which
measures 0 characters and decodes to null. The paging loops therefore always end
without a fuel bound. The iFormBuilder loop can still go on forever in the source
when every reply reports an expired token; this is shown under "Findings". Each loop is a `while` loop in a method. Its state after
`k` passes is tied to a function of the first `k` replies (`IForm.Run`,
`ArcGis.Gathered`), and the properties of the finished loop are proved about that
function.

Where the code and its descriptions differ, the model follows the code:

- The ArcGIS query loop tests `->error_message` on a reply decoded to an
  associative array. That read is never set, so the token-refresh branch never
  runs and `tokenAttempts` stays 0. The model has no refresh branch.
- `sortOptionList` returns `json_encode` of the PUT reply; the model returns the
  decoded reply itself.
- `sortOptionList` finds the `Other` option with `firstWhere('label', 'Other')`,
  which compares loosely, so a label of boolean `true` also matches. The reject
  that follows compares `strtolower` of the label with `other`, and `true` casts
  to `1`, so such an item stays in the list and is sent twice
  (`IFormOptions.ArrangeLeader`).

## Model

| member | source | states |
|---|---|---|
| IForm.Client.constructor | php/IFormRequest.php:37-47 | stores server, token URL, credentials and default profile; no token is held yet |
| IForm.Client.GenerateToken | php/IFormRequest.php:127-140 | the token becomes the next one the credential exchange issues; the profile is unchanged |
| IForm.Client.FetchPage | php/IFormRequest.php:462-506 | one pass requests at the current offset with the current token; after an expired-token reply it refreshes and asks again, otherwise it merges, advances and counts; the loop account `Paged` is kept |
| IForm.Client.Get | php/IFormRequest.php:436-514 | the URL gets `offset=`; the results are every reply's records merged in arrival order; the offset is the total record count; at most 50 counted requests; the last reply is no expiry and is either not full or at the cap; every earlier served page was full; request j goes out at the offset after j replies with the token left by their expiries; the log grows by requests plus token attempts |
| IForm.Client.Collect | php/IFormRequest.php:453-511 | the do-while paging loop ends in the `Collected` account and logs every call it made |
| IForm.Client.Send | php/IFormRequest.php:521-557 | a write mints a token when none is held, then keeps the `Sent` account: it makes the `WriteAttempts` calls (a second only after an expired-token reply) and returns the last reply; it logs exactly one API call |
| IForm.Client.Attempts | php/IFormRequest.php:531-548 | the retry loop ends in the `Written` account: the calls made, the reply returned and one refresh per expiry |
| IForm.Client.SetProfile | php/IFormRequest.php:354-357 | the profile becomes the given id; the token is untouched |
| IForm.Client.GetOptions | php/IFormRequest.php:200-211 | false exactly when the list id or the field list is falsy; then no call is made and token and log are unchanged; otherwise the result is the paged GET (`Fetched`) of the list's options URL followed by `?fields=` and the fields, and the log grows by its calls |
| IForm.Client.GetOptionsAsKeyValueArray | php/IFormRequest.php:213-224 | the map is the last-wins fill of key_value → label over the options the paged GET (`Fetched`) of the options URL with `?fields=id,key_value,label` returned, and the log grows by its calls; without a list id the map is empty and no call is made |
| IForm.Client.SortOptionList | php/IFormRequest.php:366-402 | false exactly when the list id is falsy, with nothing sent or logged; otherwise the options come from the paged GET (`Fetched`) of the options URL with `?fields=id,label,key_value,sort_order`, then one write (`Sent`) PUTs `SortPayload` of those options to the options URL with the token the GET left; the write's last reply is returned and the log grows by the GET's calls plus one |
| IForm.Client.PutSorted | php/IFormRequest.php:370-396 | the sorted, arranged and numbered options go out in one PUT that keeps the write account `Sent`; one call is logged |
| IForm.SyncLog.IncrementCount | php/IFormRequest.php:511 | the API-call counter grows by the given amount |
| IForm.TokenExpiredAsWritten | php/IFormRequest.php:476 | the expired-token test (isset, string cast, lower-case equals `invalid access token`) holds exactly for a string error message that lower-cases to it |
| IForm.RepliesSpec | php/IFormRequest.php:466-473 | the replies consumed are the server's in order, failures past its end |
| IForm.ExpiredCount | php/IFormRequest.php:476-485 | the number of expired-token replies never exceeds the replies consumed |
| IForm.MergedSnoc | php/IFormRequest.php:489-494 | one more reply extends the results by its records, or by itself when it is no error |
| IForm.FetchedSnoc | php/IFormRequest.php:497-498 | one more reply advances the offset by its record count |
| IForm.ExpiredSnoc | php/IFormRequest.php:476-485 | one more reply adds one expiry exactly when it reports an expired token |
| IForm.EarlierPagesFullSnoc | php/IFormRequest.php:505-508 | a loop that went on after a full page or an expiry keeps "every earlier served page full" |
| IForm.EarlierPagesFullSpec | php/IFormRequest.php:505-508 | "earlier pages full" means each served reply before the last had at least 100 records or a body over 1024 KB |
| IForm.Requests | php/IFormRequest.php:463-466 | one request per pass |
| IForm.RunResults | php/IFormRequest.php:489-494 | for any replies, the loop's results are their contributions merged in order |
| IForm.RunOffset | php/IFormRequest.php:497-498 | for any replies, the loop's offset is the sum of their record counts |
| IForm.RunCounts | php/IFormRequest.php:476-500 | the token attempts count the expired replies and the request count the others |
| IForm.RunStops | php/IFormRequest.php:500-508 | over a possible run the cap holds; a re-request is pending exactly after an expiry; the loop goes on after a served page only when it looked full below the cap; when it stops the last reply was served and not full or at the cap |
| IForm.RunFullPages | php/IFormRequest.php:505-508 | over a possible run every served reply but the last looked full |
| IForm.RunOutcome | php/IFormRequest.php:462-511 | a finished run: at least one reply, results and offset of the replies, requests plus attempts equal the replies consumed, cap kept, last reply served and final, earlier pages full |
| IForm.RepliesLast | php/IFormRequest.php:466-473 | the last reply consumed is the server's at that position |
| IForm.PagedStep | php/IFormRequest.php:462-508 | a pass keeps the loop's account |
| IForm.PagedOutcome | php/IFormRequest.php:508-511 | a stopped loop's account is the `Collected` outcome and its calls are requests plus token attempts |
| IForm.FetchedToken | php/IFormRequest.php:476-485 | after a finished GET at least one request went out, and the token is the one left by one refresh per expired reply |
| IForm.ExpiriesKeepGoing | php/IFormRequest.php:459-508 | after any number of expired-token replies the loop still goes on, no request is counted and each expiry is a token attempt |
| IForm.ExpiriesUnbounded | php/IFormRequest.php:459-508 | a server answering `n` times with an expired token gets an (n+1)-th request, for every `n` |
| IForm.ExpiriesThenShortPage | php/IFormRequest.php:476-508 | `n` expiries then a short page end the loop after `n + 1` passes with one counted request and `n` token attempts |
| IForm.BoundedRunCounts | php/IFormRequest.php:476-508 | under the bounded rule each pass is a request or a token attempt, at most `max` and 2 of them |
| IForm.BoundedPasses | php/IFormRequest.php:508 | under the bounded rule the loop stops within `max + 2` passes whatever the server answers |
| IForm.BoundedAgrees | php/IFormRequest.php:476-508 | while no token expires the bounded rule and the code as written make the same passes |
| IForm.TokenExpired | php/IFormRequest.php:476 | the expired-token test: `error_message` is a string lower-casing to `invalid access token` |
| IForm.Contribution | php/IFormRequest.php:489-494 | a reply contributes its records, or itself when it is no error, or nothing |
| IForm.LooksFull | php/IFormRequest.php:505-506 | a page looks full with at least 100 records or a body over 1024 KB |
| IForm.Step | php/IFormRequest.php:476-506 | one pass: an expiry counts a token attempt and asks again, leaving `keepGoing` as it was; a served reply is merged, advances the offset and sets `keepGoing` |
| IForm.Run | php/IFormRequest.php:459-508 | the loop's variables after the passes over the first `n` replies |
| IForm.WithOffsetParameter | php/IFormRequest.php:443-451 | the URL with `offset=` appended after `?` or `&` unless it holds `offset=` already |
| IForm.RequestAt | php/IFormRequest.php:463-466 | request j is at the offset reached after j replies, with the token left after their expiries |
| IForm.RepliesSnoc | php/IFormRequest.php:466-473 | one more call consumes one more reply |
| IForm.WriteAttempts | php/IFormRequest.php:531-548 | a write makes one or two calls, two exactly when the first reply is an expired-token reply |
| IForm.WriteCalls | php/IFormRequest.php:532-537 | one call per attempt |
| IForm.WritingStep | php/IFormRequest.php:531-548 | an attempt keeps the write loop's account, minting a token after an expiry |
| IForm.WritingOutcome | php/IFormRequest.php:548 | a stopped write loop made `WriteAttempts` calls |
| IForm.WriteOutcome | php/IFormRequest.php:531-556 | the reply returned is an expiry only when both attempts got one; otherwise every earlier attempt got one; the refreshes number the expiries seen |
| IForm.NoQuery | php/IFormRequest.php:443-451 | a URL without `?` has no query, so `offset=` follows `?` |
| IForm.QueryAfterPath | php/IFormRequest.php:443-451 | the query is the text after `?`; `offset=` follows `&` unless that text is empty or `0` |
| IForm.OffsetParameterAdded | php/IFormRequest.php:443-451 | afterwards the URL holds `offset=`, extends the original, and ends with it when it was added |
| IForm.AddOffsetSpec | php/IFormRequest.php:448-450 | appending a one-character separator and `offset=` keeps the URL as a prefix |
| IForm.OffsetParameterIdempotent | php/IFormRequest.php:443-451 | fixing a URL twice equals fixing it once |
| IForm.EndsWithParameter | php/IFormRequest.php:448-450 | the appended text ends in `offset=` |
| IFormOptions.KeyValueMap | php/IFormRequest.php:218-220 | the foreach fills the map as the last-wins fill of the option pairs |
| IFormOptions.KeyValueMapSpec | php/IFormRequest.php:218-220 | a key is present exactly when some option has that key_value, and holds the label of the last such option |
| IFormOptions.OptionPairs | php/IFormRequest.php:218-220 | one (key_value, label) pair per option, in order |
| IFormOptions.LexLeTotal | php/IFormRequest.php:371-373 | any two sort keys are comparable |
| IFormOptions.LexLeRefl | php/IFormRequest.php:371-373 | a key is at most itself |
| IFormOptions.LexLeTrans | php/IFormRequest.php:371-373 | the key order is transitive |
| IFormOptions.InsertSorted | php/IFormRequest.php:370-373 | inserting into a sorted list keeps it sorted |
| IFormOptions.InsertPos | php/IFormRequest.php:370-373 | the insertion position lies within the list |
| IFormOptions.InsertAt | php/IFormRequest.php:370-373 | insertion places the item between the items before its position and those after |
| IFormOptions.InsertItems | php/IFormRequest.php:370-373 | insertion adds the item once and keeps every other |
| IFormOptions.SortBySpec | php/IFormRequest.php:370-373 | the sort returns the same items, each as often, ordered by the lower-cased field |
| IFormOptions.SortedHead | php/IFormRequest.php:370-373 | in a sorted list the first key is at most every later one |
| IFormOptions.OtherIsOtherLike | php/IFormRequest.php:375-379 | an item firstWhere matches is removed by the reject exactly when its label is the string `Other`, not when it is `true` |
| IFormOptions.FirstOther | php/IFormRequest.php:375 | the index found is the first item whose label loosely equals `Other` (the string `Other` or `true`); none means no item's does |
| IFormOptions.RejectMembers | php/IFormRequest.php:377-379 | the reject keeps exactly the items whose label is not `other` in any case |
| IFormOptions.RejectItems | php/IFormRequest.php:377-379 | the reject never adds an item |
| IFormOptions.RejectSorted | php/IFormRequest.php:377-379 | the reject keeps a sorted list sorted |
| IFormOptions.RejectCount | php/IFormRequest.php:377-379 | the reject drops every copy of an other-like item and keeps every copy of any other item |
| IFormOptions.ArrangeSpec | php/IFormRequest.php:370-381 | without a firstWhere match the list is the sorted list; with one, the first match leads and the rest are the items that are not other-like, in key order |
| IFormOptions.ArrangeCounts | php/IFormRequest.php:375-381 | behind the leader each item that is not other-like appears as often as it was fetched, and no other-like item appears |
| IFormOptions.ArrangeLeader | php/IFormRequest.php:375-381 | the matched item is sent once when labelled `Other`, and in addition to every fetched copy (so at least twice) when labelled `true` |
| IFormOptions.SortBy | php/IFormRequest.php:370-373 | a stable insertion sort on the lower-cased field |
| IFormOptions.Reject | php/IFormRequest.php:377-379 | the items whose lower-cased label is not `other`, in order |
| IFormOptions.Arrange | php/IFormRequest.php:375-381 | with a firstWhere match, that item prepended to the rejected list; otherwise the list |
| IFormOptions.SortPayload | php/IFormRequest.php:370-390 | the arranged, sorted items numbered from 0 as `{id, sort_order}` entries |
| IFormOptions.Payload | php/IFormRequest.php:382-390 | entry i carries the i-th item's id and sort_order i |
| IFormOptions.EntryFields | php/IFormRequest.php:385-388 | an entry reads back its id and sort_order |
| IFormOptions.SortPayloadSpec | php/IFormRequest.php:370-390 | the payload is numbered 0, 1, …; every id is a fetched item's; the first `Other` is numbered 0; without one every item is sent |
| IFormLocation.ParseLocation | php/IFormRequest.php:312-346 | an answer exactly for the types `meta` and `widget` |
| IFormLocation.AccuracyTextSpec | php/IFormRequest.php:320 | the accuracy is the integer cast raised to at least 5, followed by `m` |
| IFormLocation.AccuracyText | php/IFormRequest.php:320 | the `(int)` cast of the accuracy, at least 5, followed by `m` |
| IFormLocation.MetaRoundTrip | php/IFormRequest.php:314-328 | metadata `y:x:altitude:accuracy` reads back y, x and the accuracy raised to 5 m |
| IFormLocation.MetaWithoutAccuracy | php/IFormRequest.php:314-328 | metadata `y:x` reads the coordinates with accuracy 5 m |
| IFormLocation.MetaTooShort | php/IFormRequest.php:314-328 | text without `:` gives zeros and an empty accuracy |
| IFormLocation.WidgetRoundTrip | php/IFormRequest.php:329-344 | a widget value of five or more `label:value` parts reads the values of parts 0, 1 and 4 as y, x and accuracy |
| IFormLocation.LabelledParts | php/IFormRequest.php:330-331 | the widget parts split back out of the joined value |
| IFormLocation.LabelledPart | php/IFormRequest.php:332-335 | the value comes back out of its `label:value` part |
| IFormLocation.Labelled | php/IFormRequest.php:329-344 | part i is label i, `:`, value i |
| IFormLocation.WidgetTooShort | php/IFormRequest.php:329-344 | a widget value of fewer than five parts gives zeros and an empty accuracy |
| IFormToken.TokenGenerator.constructor | php/IFormTokenGenerator.php:18-37 | alg defaults to HS256, key, secret and URL to false; the claim set expires ten seconds after issue |
| IFormToken.TokenGenerator.GetToken | php/IFormTokenGenerator.php:42-74 | the assertion is the URL-safe header, claim set and signature joined by `.`, the signature empty for an unsupported algorithm; the body carries the JWT-bearer grant type; the token is returned exactly when the reply has `access_token` |
| IFormToken.Strtr | php/IFormTokenGenerator.php:81 | each character is translated, `+` to `-` and `/` to `_` |
| IFormToken.StrtrSpec | php/IFormTokenGenerator.php:81 | the translation leaves no `+` or `/` and keeps every `=` |
| IFormToken.RemoveChar | php/IFormTokenGenerator.php:81 | removing `=` leaves none, drops exactly their count, and keeps every other character |
| IFormToken.UrlSafeSpec | php/IFormTokenGenerator.php:79-82 | the URL-safe text holds no `+`, `/` or `=`, is shorter by the `=` count, and brings no new character but `-` and `_` |
| IFormToken.Sign | php/IFormTokenGenerator.php:84-95 | a signature exactly for HS256, false otherwise |
| IFormToken.HasKeyGet | php/IFormTokenGenerator.php:68-73 | a key a decoded object lacks reads as null |
| IFormToken.LookupMissing | php/IFormTokenGenerator.php:68-73 | a key no member has reads as null |
| IFormToken.AssertionSegments | php/IFormTokenGenerator.php:44-57 | the assertion splits back into its three segments, the first two being the signed text |
| IFormToken.JoinSegments | php/IFormTokenGenerator.php:47-52 | joining two or three segments puts `.` between them |
| ArcGis.WithDefaults | php/ArcGisRequest.php:147-149 | `f`, `resultRecordCount` and `resultOffset` keep the caller's value or take json, 1000 and 0; nothing else changes |
| ArcGis.PrePassNext | php/ArcGisRequest.php:153-156 | the pre-pass over one more field |
| ArcGis.PrePassSpec | php/ArcGisRequest.php:153-156 | without id fields the form is unchanged; otherwise only `outFields` changes, to the caller's fields and the id fields' names, each once, joined by commas |
| ArcGis.PrePass | php/ArcGisRequest.php:153-156 | the foreach over the service fields: each id field merges its name into `outFields` |
| ArcGis.AddOutField | php/ArcGisRequest.php:155 | explode `outFields` on commas, append the name, drop repeats, implode |
| ArcGis.PrePassSkip | php/ArcGisRequest.php:154 | a field that is no id field changes nothing |
| ArcGis.PrePassAdd | php/ArcGisRequest.php:154-156 | an id field merges its name into `outFields` |
| ArcGis.Overwrite | php/ArcGisRequest.php:155 | writing `outFields` twice keeps the second value |
| ArcGis.AddedName | php/ArcGisRequest.php:155 | the value an id field writes is the earlier list with its name merged in |
| ArcGis.MergeOneMore | php/ArcGisRequest.php:155 | merging one more name into the merged list appends it after the others |
| ArcGis.MergedHasNoComma | php/ArcGisRequest.php:155 | the merged list is not empty and no entry holds a comma |
| ArcGis.IdNamesHaveNoComma | php/ArcGisRequest.php:154-156 | the id names are field names |
| ArcGis.MergedOutFieldsSpec | php/ArcGisRequest.php:155 | the merged `outFields` has no duplicate, holds exactly the caller's fields and the id names, and starts with the caller's fields in order |
| ArcGis.CodePairs | php/ArcGisRequest.php:159-161 | one (code, name) pair per coded value, in order |
| ArcGis.CodeTableSpec | php/ArcGisRequest.php:157-162 | a code is in a field's table exactly when a coded value has it, and maps to the last such name |
| ArcGis.DomainKeyNext | php/ArcGisRequest.php:157-162 | the domains after one more field |
| ArcGis.FieldKey | php/ArcGisRequest.php:158 | the key a field is filed under: its name cast as an array key |
| ArcGis.DomainKey | php/ArcGisRequest.php:157-162 | the code tables of the fields with coded values, keyed by field name; none without such a field |
| ArcGis.DomainKeyDefined | php/ArcGisRequest.php:157-162 | the domains exist exactly when some field has coded values |
| ArcGis.DomainKeyNames | php/ArcGisRequest.php:157-162 | a name is in the domains exactly when a field with coded values has it |
| ArcGis.DomainKeyLast | php/ArcGisRequest.php:157-162 | a name holds the table of the last field with coded values of that name |
| ArcGis.NamePairs | php/ArcGisRequest.php:212-216 | one (name, field) pair per field, in order |
| ArcGis.ByNameSpec | php/ArcGisRequest.php:212-216 | a name is a key exactly when some field has it, and holds the last field of that name |
| ArcGis.Pages | php/ArcGisRequest.php:166 | one reply per POST |
| ArcGis.FirstWithFeatures | php/ArcGisRequest.php:185-196 | the first reply with features; none when no reply has any |
| ArcGis.Posts | php/ArcGisRequest.php:166 | one POST per pass |
| ArcGis.PostAt | php/ArcGisRequest.php:166-200 | POST j carries the offset reached after j replies |
| ArcGis.NoFeatures | php/ArcGisRequest.php:185-196 | replies without features add none |
| ArcGis.ExceededStep | php/ArcGisRequest.php:202-206 | a pass that goes on adds one more reply that exceeded the transfer limit |
| ArcGis.PagingStep | php/ArcGisRequest.php:165-206 | a pass keeps the query loop's account |
| ArcGis.Step | php/ArcGisRequest.php:184-204 | one pass: merge the reply's features (the first reply with features becomes the result, its fields keyed by name), move the offset on, count the POST, go on after an exceeded transfer limit below 50 POSTs |
| ArcGis.Gathered | php/ArcGisRequest.php:185-196 | the result after the given replies: the first one with features, carrying every reply's features in order |
| ArcGis.FormAt | php/ArcGisRequest.php:199 | the form after the given replies: the offset moved on by every feature received |
| ArcGis.StepResults | php/ArcGisRequest.php:185-196 | a pass's results are those gathered from one more reply |
| ArcGis.StepForm | php/ArcGisRequest.php:199-200 | a pass's form is the one reached after one more reply |
| ArcGis.GatheredSnoc | php/ArcGisRequest.php:185-196 | one more reply extends the collected features by its own |
| ArcGis.FormAtSnoc | php/ArcGisRequest.php:199-200 | one more reply moves the offset on by its feature count |
| ArcGis.PagingOutcome | php/ArcGisRequest.php:165-206 | a stopped loop's account is the `Queried` outcome |
| ArcGis.GatheredSpec | php/ArcGisRequest.php:185-200 | the final offset is the initial one plus every feature received; the result is empty exactly when no reply had features, and otherwise holds all features in arrival order |
| ArcGis.AllFeaturesPrefix | php/ArcGisRequest.php:186-187 | the features of the first k replies begin all the features |
| ArcGis.AllFeaturesInclude | php/ArcGisRequest.php:185-196 | each reply's features occur in all the features as one block, right after those of the replies before it |
| ArcGis.Client.constructor | php/ArcGisRequest.php:34-45 | stores the URLs and credentials; no token yet |
| ArcGis.Client.GenerateToken | php/ArcGisRequest.php:52-70 | one more exchange; the token is the reply's when it carries one |
| ArcGis.Client.EnsureToken | php/ArcGisRequest.php:121-123 | a falsy token triggers one exchange; a truthy one is kept |
| ArcGis.Client.ReadFields | php/ArcGisRequest.php:153-163 | the foreach leaves the pre-pass form and the domains |
| ArcGis.Client.FillTable | php/ArcGisRequest.php:159-161 | the inner foreach fills the code table, last wins |
| ArcGis.Client.KeyByName | php/ArcGisRequest.php:212-216 | the fields keyed by name, last wins |
| ArcGis.Client.FetchFeatures | php/ArcGisRequest.php:166-205 | one POST of the current form; the loop account is kept |
| ArcGis.Client.Query | php/ArcGisRequest.php:165-206 | the do-while loop ends with 1 to 50 POSTs; every reply but the last exceeded the transfer limit and the last did not or the cap was hit; results and form are those of the replies |
| ArcGis.Client.GetFeatures | php/ArcGisRequest.php:138-219 | token ensured twice, defaults filled, query URL fixed with the first token, `outFields` rewritten and domains built from the info's fields, paged query outcome, info attached with its fields by name |
| ArcGis.NormalizeDateTime | php/ArcGisRequest.php:271-283 | the date text handed to the parser: nothing for a falsy text, a time alone dated 1899-12-30, a text without `:` taken at midnight |
| ArcGis.NormalizeCases | php/ArcGisRequest.php:271-283 | a falsy text gives nothing; a time alone is dated 1899-12-30; a text without `:` is taken at midnight; a date-time is kept |
| ArcGis.HasChar | php/ArcGisRequest.php:278-281 | `strpos` of one character finds it exactly when the text holds it |
| ArcGis.NormalizedHasTime | php/ArcGisRequest.php:278-283 | the text handed on always holds a `:` |
| ArcGis.NormalizeIdempotent | php/ArcGisRequest.php:278-283 | a text with `:`, `-` or `/` comes out dated and timed, and normalising again changes nothing |
| ArcGis.NormalizeBareDate | php/ArcGisRequest.php:278-283 | a bare date such as `20200101` is taken at midnight, and that text normalised again is read as a time alone |
| Env.SetValue | php/Env.php:19-56 | the contents written are `NewContents` of the text, key, old value, new value and append flag |
| Env.NewContents | php/Env.php:24-51 | the text written: a present key has its first matching old spelling rewritten, a missing one is appended when asked |
| Env.RewriteFirst | php/Env.php:40-47 | replace every `KEY=spelling` of the first candidate spelling present, then stop |
| Env.Formatted | php/Env.php:30-39 | the value written: `null` for an empty value, quoted when it holds a space |
| Env.OldSpellings | php/Env.php:25-29 | the old value quoted and bare, led by `null` when it is null or empty |
| Env.RewriteFirstSpec | php/Env.php:40-47 | the first spelling present as `KEY=spelling` has every occurrence replaced and no other spelling is touched; with none present the text is unchanged |
| Env.MissingKey | php/Env.php:48-51 | without `KEY=` the line `\nKEY=value` is appended when asked, else the text is kept |
| Env.FormattedValue | php/Env.php:30-39 | the written value is never empty: `null` for an empty value, quoted exactly when it holds a space |
| Env.NoSpace | php/Env.php:37 | a word without a space character has no `strpos` hit for a space |
| Env.EmptyOldValueAlwaysMatches | php/Env.php:26-29 | with a null or empty old value and `KEY=` present, some spelling always matches |
| Env.RewriteWritesValue | php/Env.php:40-47 | when `KEY=` and a spelling of the old value occur, the text written holds `KEY=newvalue` |
| Env.PresentWithoutMatch | php/Env.php:40-51 | with `KEY=` present but no spelling matched, the text is kept and nothing is appended |
| Env.KeyTailSuppressesAppend | php/Env.php:24 | `KEY=` inside `MY_KEY=1` counts as present, so with old value 5 nothing changes even with the append flag |
| Env.Absent | php/Env.php:43 | a pattern whose fifth character the text never holds has no `strpos` hit (used for `KEY="5"` in `MY_KEY=1`, which holds no `"`) |
| Php.LowerPointwise | php/IFormRequest.php:372 | `strtolower` lower-cases character by character |
| Php.ExplodeImplode | php/IFormRequest.php:315 | exploding a joined list of parts without the delimiter gives the parts back |
| Php.ImplodeExplode | php/ArcGisRequest.php:155 | joining an exploded text gives the text back |
| Php.ReplaceAbsent | php/Env.php:44 | `str_replace` of an absent pattern changes nothing |
| Php.ReplaceSelf | php/Env.php:44 | replacing a pattern by itself changes nothing |
| Php.ReplaceAtFirst | php/Env.php:44 | the text before the first occurrence is kept and that occurrence replaced |
| Php.ReplaceIntroduces | php/Env.php:44 | replacing a present pattern leaves the replacement in the text |
| Php.StringToIntOfNat | php/IFormRequest.php:320 | the `(int)` cast reads back a number's digits |
| Php.AssocLastWins | php/IFormRequest.php:219 | a filled key holds the value of its last assignment |
| Php.ArrayKey | php/IFormRequest.php:219 | the array-key cast: a boolean becomes "0" or "1", null "", anything else its string cast |
| Php.ArrayKeyCollisions | php/IFormRequest.php:219 | as array keys `false` and "0" coincide, `true`, 1 and "1" coincide, and null and "" coincide |
| Php.DedupSpec | php/ArcGisRequest.php:155 | `array_unique` keeps each value of its input exactly once, drops nothing else, and keeps the first value first |
| Php.DedupOrder | php/ArcGisRequest.php:155 | `array_unique` keeps the values in the order of their first occurrences |
| Php.FirstIndex | php/ArcGisRequest.php:155 | the index found holds the value and no earlier index does |
| Php.FirstIndexPrefix | php/ArcGisRequest.php:155 | a value met in a prefix first occurs where it first occurs in that prefix |
| Php.DedupPrefix | php/ArcGisRequest.php:155 | deduplicating a list keeps the deduplicated prefix first |

## Findings

| source | as written | input that shows it | evidently intended | confidence | as-written member | corrected member |
|---|---|---|---|---|---|---|
| php/IFormRequest.php:476-508 | an expired-token reply `continue`s before `$keepGoing` is updated; `$keepGoing` starts true, so the `$iRequestCount < 2` failsafe is never reached | a server that always answers `invalid access token`: the loop requests forever | the re-request after an expiry is bounded, as the failsafe comment says | medium, not executed | IForm.ExpiriesUnbounded | IForm.BoundedPasses |

The corrected rule (`IForm.BoundedStep`, `IForm.BoundedContinues`) ends `keepGoing`
on an expiry and allows a re-request while fewer than two token attempts were made;
`IForm.BoundedAgrees` shows it changes nothing while no token expires. The client
methods keep the loop as written, since they model the code as it runs.

## Left out

- Transport and I/O: the cURL helper, the HTTP verbs' wire format, `http_build_query`, `json_decode`/`json_encode` and the file reads and writes of `setValue` are not modelled; replies arrive decoded and the `.env` text is a parameter.
- The environment lookup `env($envKey)` is a parameter (`oldValue`) of `Env.SetValue`.
- `IForm.Client.GenerateToken`: the credential exchange (which builds a signed assertion and POSTs it) is abstracted to "the n-th token issued"; an exchange that returns false is not modelled.
- `IFormToken.TokenGenerator.GetToken`: `json_encode`, `base64_encode`, `hash_hmac` and the clock are parameters; the POST of the assertion is given as its decoded reply.
- `ArcGis.NormalizeDateTime`: Carbon's parsing, the time-zone change and the epoch-millisecond arithmetic after line 283 of `php/ArcGisRequest.php` are not modelled (floating point and a date library).
- `ArcGis.Client.GetFeatures`: the token-refresh branch of the query loop is absent because the source's test can never pass (it reads a property of an array).
- `ArcGis.Client.GetFeatures`: a reply whose `features` is a JSON object is read as its values in order, and `resultOffset +=` on a non-numeric string is read with the model's integer cast; PHP's float results are not modelled.
- `IForm.Client.SortOptionList` returns the decoded PUT reply, not its `json_encode`.
- `IForm.Client.Collect`: the server is a finite sequence of replies followed by failures, so the modelled loop always ends; the source's loop does not end against a server that keeps reporting an expired token (see Findings).
- `IFormOptions.IsOther` follows PHP 8's loose `==`; under PHP 7 a label of `0` (or any value that casts to 0) would match `Other` as well.
- `Php.StringToInt`: the `(int)` cast reads an optional sign and the leading decimal digits only; exponent notation (`"1e3"` is 1000, `"1.5e3"` is 1500) and the saturation at the 64-bit bounds are not modelled.
- `Php.DocToInt`: floats are not modelled (decoded numbers are integers), so the truncation of a float is absent.
- `Env.SetValue`: `env()` turns `true`, `false` and `null` spellings into PHP values; the caller passes the old value as its string cast (`"1"`, `""`, or none for null).
- `ArcGis.Client.GetFeatures`: PHP writes the merged fields back into `$serviceInfo->fields` in place; the model keeps the service info as passed and returns the fields keyed by name beside it (`infoFields`).
- `IFormOptions.SortBy`: compares lower-cased strings character by character; PHP's `SORT_REGULAR` comparison of numeric strings as numbers is not modelled.
- `IFormOptions.OptionKey`: PHP's normalisation of numeric-string array keys to integers is not modelled; keys stay strings (`Php.ArrayKey` files `false` under "0" and `true` under "1", which is where the integer keys would collide).
- `Php.ArrayKey`: an array or object used as a key throws `TypeError` ("Illegal offset type") in PHP 8; the model files it under "Array" and goes on. Float keys (truncated to integers) are not modelled. This applies to `IFormOptions.OptionKey`, `ArcGis.CodePairs` and `ArcGis.FieldKey`.
- `Php.Get`: a decoded object with a duplicate key reads the first member; PHP keeps the last.
- The other endpoints of both clients (`addOptionListItems`, `createRecords`, `deleteRecords`, `getElements`, `getOptionList(s)`, `getPages`, `getProfiles`, `getRecords`, `inOptionList`, `updateRecord`, `upsertFeatures`) and the other PHP and Python files are not part of this model.
- The iFormBuilder log messages and timing are not modelled.
