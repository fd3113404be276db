# Block-directory e2e harness, modelled in Dafny

This project models the helper layer of the WordPress block-directory
end-to-end test harness:

- the **network-idle tracker** (`specs/utils/network-idle.js`): a counter of
  requests in flight, fed by the browser's `request`, `requestfinished` and
  `requestfailed` events, and the polling wait `waitUntilNetworkIdle`;
- the **request filter** (`specs/utils/filter-requests.js`): favicon requests
  are aborted, script and stylesheet requests whose URL contains `wp-content` anywhere are fetched
  out of band with redirects off, and an HTML page or a redirect in answer is
  replaced by an empty 404;
- the **output store and WordPress.org callback** (`specs/utils/wporg-callback.js`):
  `setOutput` keeps a field-to-text map, and `wporgHttpCallback` replaces
  every `file:<path>` value by the file's contents and posts the map when a
  secret is configured;
- the **page helpers** of both helper files (`specs/utils/index.js` and
  `utils.js`): the third-party block filter, the loaded-script and
  loaded-style lists with their URL normalisation, and the
  `expectWithMessage` and `runTest` error wrappers.

Layout:

- `options.dfy`: `Option`, which stands for a JavaScript value that may be
  missing, `undefined` or `false`.
- `strings.dfy`: prefix, suffix and substring predicates on `seq<char>`.
- `js.dfy`: JavaScript truthiness, errors and completions.
- `asset_urls.dfy`: the hand-written matchers that replace the source's
  three regular expressions, and the asset list.
- `blocks.dfy`: block types.
- `specs_utils.dfy`: `specs/utils/index.js`.
- `root_utils.dfy`: `utils.js`.
- `filter_requests.dfy`: the request filter.
- `wporg_callback.dfy`: the output store and callback.
- `network_idle.dfy`: the tracker and the wait.

How the two stateful modules are modelled:

- **Tracker.** It is a class. Its `inflight` counter is tied by `Valid()` to
  the ghost history of delivered events.
- **Wait.** The environment is an explicit parameter: a sequence of event
  batches, one delivered during each sleep.
- **Wait specification.** `NetworkIdle.Run` is a pure protocol over the
  counter readings. The method `WaitUntilNetworkIdle` is proved equal to it.
- **First quiet pair.** The lemma `RunResolvesAtFirstQuietPair` shows that
  the wait resolves exactly at the first pair of consecutive readings that
  are both at or below the threshold: the poll loop's exit and the check
  after the 500 ms settle window.
- **Output store.** It is a class holding the map and the order in which
  keys were first stored. That order is the order in which a `for…in` loop
  visits string keys.

Quirks of the source kept as written:

- A favicon request is both aborted and then continued. The handler does not
  return after `abort()`.
- The 404 replacement keeps the original `Content-Type`.
- A restart after the settle window reads the same count that ended it.
- The `file:` rewrite runs even when no secret is configured.

## Model

| member | source | states |
|---|---|---|
| NetworkIdle.Tracker.constructor | specs/utils/network-idle.js:1 | the counter starts at 0 with no event delivered and no request continued |
| NetworkIdle.Tracker.OnRequest | specs/utils/network-idle.js:5-8 | a `request` event adds one to the counter and continues that request, in order, keeping the counter equal to the net count of the event history |
| NetworkIdle.Tracker.OnRequestFinished | specs/utils/network-idle.js:10-12 | a `requestfinished` event subtracts one and continues nothing |
| NetworkIdle.Tracker.OnRequestFailed | specs/utils/network-idle.js:14-16 | a `requestfailed` event subtracts one and continues nothing |
| NetworkIdle.Tracker.Deliver | specs/utils/network-idle.js:5-16 | each event goes to the handler registered for its kind, and the history grows by that event |
| NetworkIdle.Tracker.Sleep | specs/utils/network-idle.js:18-19 | a sleep delivers a batch of events; the counter moves by the batch's net count and the history grows by exactly that batch |
| NetworkIdle.NetIsRequestsMinusEnded | specs/utils/network-idle.js:5-16 | the counter after any trace equals the number of requests minus the number of finished and failed events |
| NetworkIdle.NetCountsOpenRequests | specs/utils/network-idle.js:5-16 | when every request ends at most once and only after it started, the counter is the number of requests still open |
| NetworkIdle.NeverNegative | specs/utils/network-idle.js:5-16 | for such traces the counter is never negative at any point |
| NetworkIdle.MaxIdle | specs/utils/network-idle.js:22 | the threshold is 0 exactly for `networkidle0`; it is 2 otherwise, including when the option is missing |
| NetworkIdle.Tracker.Poll | specs/utils/network-idle.js:24-26 | the poll loop leaves only once the counter is at or below the threshold, or when the supplied sleeps run out; its history is the consumed batches, and the wait it continues is unchanged |
| NetworkIdle.Tracker.PollOnce | specs/utils/network-idle.js:24-25 | one pass above the threshold delivers the next batch, and the wait goes on from the new count with the same outcome |
| NetworkIdle.Tracker.Settle | specs/utils/network-idle.js:28-32 | after the 500 ms sleep, a count at or below the threshold resolves the wait with the remaining batches unused; a higher count goes on to the restart with the same outcome |
| NetworkIdle.Run | specs/utils/network-idle.js:21-33 | a resolved wait leaves fewer unused observations than were supplied |
| NetworkIdle.RunResolvesAtFirstQuietPair | specs/utils/network-idle.js:21-33 | the wait resolves at the first pair of consecutive readings both at or below the threshold, and keeps waiting while no such pair exists |
| NetworkIdle.ResolvedOnlyWhenIdle | specs/utils/network-idle.js:28-32 | when the wait resolves, both the loop's exit reading and the settle-window reading are at or below the threshold |
| NetworkIdle.StrictModeResolvesAtZero | specs/utils/network-idle.js:22-32 | for `networkidle0`, when counts never go negative, both readings that resolve the wait are zero |
| NetworkIdle.SteadyCount | specs/utils/network-idle.js:22-33 | with a steady count the wait resolves if and only if the count is at or below the threshold and the settle window is observed |
| NetworkIdle.Tracker.WaitUntilNetworkIdle | specs/utils/network-idle.js:21-33 | the method, with its recursive restart, yields exactly the protocol `Run` over the counts read after each sleep; on resolving, the counter is at or below the threshold; the history is exactly the batches consumed |
| FilterRequests.Substitute | specs/utils/filter-requests.js:25-44 | the response passed on is never broken (`IsBrokenAsset`: status 200 with a content type starting `text/html` (`IsHtml`), or a 3xx); it is the fetched response unchanged exactly when that one is neither, and otherwise an empty 404 with the same content type |
| FilterRequests.Disposition | specs/utils/filter-requests.js:22-47 | a failed out-of-band fetch continues the request; a successful one responds with the substitute of the fetched response |
| FilterRequests.HandlerEffects | specs/utils/filter-requests.js:5-49 | the request is aborted if and only if it is the favicon; the handler always ends by continuing or responding; it fetches out of band, with redirects off, if and only if the request is a plugin asset (`IsPluginAsset`: a script or stylesheet whose URL contains `wp-content` anywhere); every response it gives is the substitute of the fetched one |
| FilterRequests.FaviconIsAbortedThenContinued | specs/utils/filter-requests.js:7-19 | the favicon request is aborted and then continued, whatever its resource type, since its URL does not contain `wp-content` |
| FilterRequests.OtherRequestsPassThrough | specs/utils/filter-requests.js:12-19 | any other request that is not a plugin asset is only continued |
| FilterRequests.PluginAssetsAreFetched | specs/utils/filter-requests.js:21-47 | a plugin asset is fetched out of band and then answered according to the fetch outcome |
| FilterRequests.BrokenAssetsBecome404 | specs/utils/filter-requests.js:25-36 | an HTML 200 or a 3xx answer becomes a 404 with an empty body and the original content type |
| FilterRequests.OtherAnswersAreMirrored | specs/utils/filter-requests.js:37-44 | every other answer is passed back unchanged |
| FilterRequests.DispositionAsWritten | specs/utils/filter-requests.js:39-47 | as written, only a broken answer is responded to (with the empty 404); a healthy answer or a failed fetch ends in `continue`, because reading `response.body.buffer()` throws |
| FilterRequests.HealthyAssetNotMirroredAsWritten | specs/utils/filter-requests.js:39-43 | a 200 script answer is continued as written, where the intended handling responds with it unchanged |
| FilterRequests.DispositionsAgreeUnlessHealthy | specs/utils/filter-requests.js:22-47 | the written and the intended handling agree on failed fetches and on broken answers |
| FilterRequests.OnRequest | specs/utils/filter-requests.js:5-49 | the actions the handler performs on the intercepted request are exactly `HandlerEffects` of its URL, resource type and fetch outcome |
| WporgCallback.JsonText | specs/utils/wporg-callback.js:13-15 | a non-string value is stored as its JSON text, which is never empty and never starts with a quote; the default `false` is stored as "false"; numbers are integers below 10^21 in magnitude, which `JSON.stringify` prints in plain decimal |
| WporgCallback.StoredText | specs/utils/wporg-callback.js:13-17 | a string is stored verbatim; any other value is stored as its JSON text |
| WporgCallback.Store | specs/utils/wporg-callback.js:5-20 | a falsy field leaves the store unchanged, and still undefined when nothing was stored before; a truthy field maps to the stored text of the value; every other key keeps its text |
| WporgCallback.LastWriteWins | specs/utils/wporg-callback.js:17 | storing the same field twice is the same as storing only the second value |
| WporgCallback.StoresCommute | specs/utils/wporg-callback.js:17 | stores to distinct fields commute |
| WporgCallback.FilePath | specs/utils/wporg-callback.js:31 | a match of `^file:(.+)$` gives a non-empty, single-line path that the prefix `file:` completes to the value |
| WporgCallback.FilePathRoundTrip | specs/utils/wporg-callback.js:31 | every non-empty single-line path prefixed with `file:` is matched back to that path |
| WporgCallback.JsonTextIsNoFile | specs/utils/wporg-callback.js:13-34 | a value stored as JSON text is never taken for a file reference |
| WporgCallback.ImportEntry | specs/utils/wporg-callback.js:31-34 | a value without a file reference is kept; a file reference is replaced by the file's encoded contents |
| WporgCallback.OutputStore.SetOutput | specs/utils/wporg-callback.js:5-21 | the store becomes `Store` of the old store; a key is appended to the iteration order on its first store; the current map is returned |
| WporgCallback.OutputStore.ImportEntryAt | specs/utils/wporg-callback.js:31-35 | one pass of the loop: an unreadable file reference leaves the map unchanged and reports that path; otherwise the entry is imported and nothing else changes |
| WporgCallback.OutputStore.ImportFiles | specs/utils/wporg-callback.js:30-36 | the loop visits the keys in insertion order; a failure stops it at the first key whose file reference cannot be read, reports that reference's path, and leaves exactly the entries before it imported; otherwise no entry is unreadable and every entry is imported |
| WporgCallback.StopIsUnique | specs/utils/wporg-callback.js:30-35 | the failing key, the map left behind and the reported path are determined by the map, the files and the key order |
| WporgCallback.OutputStore.WporgHttpCallback | specs/utils/wporg-callback.js:23-53 | a read failure happens only with a map, stops at the first unreadable entry and carries that entry's path, with the entries before it imported; otherwise every file reference is imported, nothing is posted if and only if the secret is not truthy, and a post goes to the plugin's endpoint (`Endpoint`, line 44) with the `BEARER` secret and the imported map |
| AssetUrl.StripIdSuffix | specs/utils/index.js:72 | an id ending in the suffix loses exactly that suffix; any other id is unchanged |
| AssetUrl.StripIdSuffixAppended | specs/utils/index.js:72 | stripping the suffix from an id with the suffix appended gives back the id |
| AssetUrl.StripHostPrefix | specs/utils/index.js:73-77 | the normalised source is always a suffix of the original; which prefix is removed is stated by the `StripHostPrefix…` lemmas below |
| AssetUrl.StripPluginDir | specs/utils/index.js:75 | the result is a suffix of the part after the host; which prefix is removed is stated by the `StripPluginDir…` lemmas below |
| AssetUrl.StripPluginDirRemoves | specs/utils/index.js:75 | `wp-content/plugins/<slug>/` with a non-empty, slash-free slug is removed in full |
| AssetUrl.StripPluginDirKeeps | specs/utils/index.js:75 | a path not under `wp-content/plugins/` is kept whole |
| AssetUrl.StripPluginDirKeepsUnclosedSlug | specs/utils/index.js:75 | the plugins directory with a slug but no closing `/` is kept whole |
| AssetUrl.StripPluginDirKeepsEmptySlug | specs/utils/index.js:75 | the plugins directory followed at once by `/` (an empty slug) is kept whole |
| AssetUrl.StripHostPrefixRemovesHost | specs/utils/index.js:73-77 | for `http://<host>/<rest>` with a non-empty host, the host is removed and then the plugin directory, if present |
| AssetUrl.StripHostPrefixOfPluginAsset | specs/utils/index.js:73-77 | a plugin asset URL normalises to its path inside the plugin |
| AssetUrl.StripHostPrefixKeepsUnclosedHost | specs/utils/index.js:75 | `http://` and a host with no `/` after it is kept whole |
| AssetUrl.StripHostPrefixKeepsEmptyHost | specs/utils/index.js:75 | `http:///…` (an empty host) is kept whole |
| AssetUrl.StripHostPrefixKeepsOtherSchemes | specs/utils/index.js:75 | a source that does not start with `http://` is unchanged |
| AssetUrl.StripHostPrefixKeepsHttps | specs/utils/index.js:75 | in particular, an `https://` source is unchanged |
| AssetUrl.VersionRunEnd | specs/utils/index.js:78 | the greedy run of `[a-z0-9.-]` characters: every character in it matches, and the one after it does not |
| AssetUrl.FindVersionParam | specs/utils/index.js:78 | finds the leftmost `?ver=` or `&ver=` followed by at least one version character, or reports that none exists |
| AssetUrl.StripVersion | specs/utils/index.js:78 | without a match the URL is unchanged; otherwise exactly the leftmost parameter and its greedy value are cut out |
| AssetUrl.StripVersionRemovesFirstParam | specs/utils/index.js:78 | inserting one version parameter into a URL that has none, and then stripping it, gives the URL back |
| AssetUrl.StripTrailingVersion | specs/utils/index.js:78 | a trailing `?ver=<v>` is removed |
| AssetUrl.Assets | specs/utils/index.js:69-81 | there is at most one asset per element |
| AssetUrl.AssetsAppend | specs/utils/index.js:69-81 | the asset list of a concatenation is the concatenation of the asset lists, so document order is kept |
| AssetUrl.AssetsMembership | specs/utils/index.js:69-79 | an asset is listed if and only if it is the normalised form (`ToAsset`: the suffix stripped from the id, and `NormalizeUrl` of the source, which strips the host prefix and, where asked, the version parameter) of an element with a non-empty source |
| AssetUrl.CollectAssets | specs/utils/index.js:68-83 | the `forEach` loop builds exactly the asset list of the elements |
| SpecsUtils.ThirdPartyBlocks | specs/utils/index.js:13-24 | it keeps at most every block, and no kept block's name starts with `core` |
| SpecsUtils.ThirdPartyBlocksAppend | specs/utils/index.js:13-14 | the filter distributes over concatenation, so registration order is kept |
| SpecsUtils.ThirdPartyBlocksMembership | specs/utils/index.js:13-24 | a summary is returned if and only if it is the projection (`Summarize`: name, title, description, category, keywords and supports) of a registered block whose name does not start with `core` |
| SpecsUtils.GetAllLoadedScripts | specs/utils/index.js:66-85 | returns the assets of the script elements, with `-js` stripped from ids and the version parameter removed |
| SpecsUtils.GetAllLoadedStyles | specs/utils/index.js:87-108 | returns the assets of the stylesheet links, with `-css` stripped from ids and the version parameter removed |
| SpecsUtils.ExpectWithMessage | specs/utils/index.js:44-64 | returns if and only if the check returns; a failure with a truthy message throws a new `Error` with that message, and otherwise the original error is rethrown; a screenshot is taken if and only if the check failed and capture is on (the default) |
| RootUtils.ThirdPartyBlockTitles | utils.js:13-15 | there is at most one title per registered block |
| RootUtils.TitlesOfThirdPartyBlocks | utils.js:13-15 | the titles are exactly the titles of the third-party summaries, in order |
| RootUtils.RunTest | utils.js:27-34 | returns if and only if the check returns; a failure always throws a new `Error` with the given message, which is empty when none is given |
| RootUtils.RunTestAndExpectWithMessage | utils.js:27-34 | with a truthy message both wrappers throw the same error; without one, `runTest` replaces the error where `expectWithMessage` rethrows it |
| RootUtils.GetAllLoadedScripts | utils.js:36-50 | returns the assets of the script elements, with `-js` stripped from ids and the version parameter kept |
| RootUtils.GetAllLoadedStyles | utils.js:52-66 | returns the assets of the stylesheet links, with `-css` stripped from ids and the version parameter kept |
| RootUtils.VersionKeptOnlyHere | utils.js:43 | for a plugin asset with a `?ver=` parameter, this helper file keeps the parameter while the other one removes it |

## Left out

- Timers: the 100 ms and 500 ms sleeps are observation points. The events delivered during each sleep are an input, a batch per sleep.
- Concurrency: the two `request` listeners (network idle and request filter) both act on the same request in the browser; each is modelled alone.
- NetworkIdle.Tracker.WaitUntilNetworkIdle: the wait is bounded by the supplied batches. When they run out, the result is `StillWaiting` instead of an unbounded wait.
- Puppeteer and node-fetch are not modelled. A fetch outcome is an input. The intended handling (`Disposition`) takes the fetched body to be its bytes; see Findings for the code as written.
- The DOM and `wp.data` are not modelled. Script and link elements and registered block types are inputs. The selector `link[rel="stylesheet"]` itself is left out.
- `removeAllBlocks` and `getInstalledBlocks` are left out: they only forward to the editor's data stores and compute nothing.
- The test scenario, its URL matching and the jest configuration are left out: they are test code, not helpers.
- GitHub Actions `core.setOutput`, `core.info` and `console.log` are left out: they are logging and forwarding without effect on results.
- The error screenshot is left out. Only the decision whether one is taken is modelled.
- `fs.readFile` with base64 encoding is not modelled. A map from path to encoded contents is an input, and a missing path is a read failure.
- The POST request and the JSON encoding of its body are not modelled. Only the endpoint, the authorization header and the map sent are.
- WporgCallback.JsonText: `JSON.stringify` is modelled only for booleans, `null` and integers below 10^21 in magnitude (`PlainInt`). Fractions, exponent forms and objects are out of scope. So is the fact that not every integer in that range is an exact JavaScript number above 2^53.
- WporgCallback.OutputStore.ImportFiles: keys are visited in insertion order. JavaScript visits integer-like keys first.
- SpecsUtils.ExpectWithMessage: only a missing or `false` message is falsy. A message of another type is taken to be a string.
- RootUtils.RunTest: it is modelled on completions. The source's `runTest` does not await, so an asynchronous rejection escapes it; that is not captured.
- Block `supports` values are of an opaque type. The summary carries them unchanged.

## Findings

| source | as written | input that shows it | evidently intended | confidence | as-written member | corrected member |
|---|---|---|---|---|---|---|
| specs/utils/filter-requests.js:42 | the mirrored answer reads `response.body.buffer()`, but node-fetch's `response.body` is a stream with no `buffer()` method (the method is `response.buffer()`), so the `.then` throws and the `.catch` at lines 45-47 continues the request | a plugin script answered with status 200 and `application/javascript` | respond with the fetched status, content type and body | medium, not executed; it depends on the node-fetch version, which the repository does not pin | FilterRequests.DispositionAsWritten, FilterRequests.HealthyAssetNotMirroredAsWritten | FilterRequests.Disposition |
