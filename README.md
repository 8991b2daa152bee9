# X/Twitter DeepSeek translator userscript: a verified model of its core

The userscript adds DeepSeek translations below the tweets on X/Twitter.
This project models the parts of it that hold logic, and proves what they
guarantee and where they fail to:

- **`CryptoUtils`**, the salted XOR obfuscation of the stored API key.
  - `generateSalt` draws 16 characters from `[A-Za-z0-9]`.
  - `deriveKey` XORs the UTF-8 bytes of `password + salt` with
    `i * 7 + salt.length`, then slices and pads the result to 32 units.
  - `encrypt` XORs the text cyclically with the key and stores
    `salt + btoa(result)`. `decrypt` undoes this.
  - `validateEncryptionKey` is a length check.
  - `TextEncoder`, `btoa` and the forgiving `atob` are modelled too:
    UTF-8 over UTF-16 code units, and the base 64 of section 4 of RFC 4648.
- **The stored values**, read and written with `GM_getValue`/`GM_setValue`:
  - the configuration, merged key by key over `DEFAULT_CONFIG`;
  - the encrypted API key (`getDecryptedApiKey`, `encryptAndSaveApiKey`, the
    settings panel's save handler);
  - the processed-ID set `translatedTweets`;
  - the `translation_<id>` cache and `clearTranslationCache`.
- **Reading a tweet**:
  - `getTweetId`: the first `/status/(\d+)` among the status links, else
    `data-tweet-id`;
  - `getTweetText`: the first trimmed text longer than five units.
- **The translation decisions**:
  - `scanExistingTweets`, `restoreTranslation` and `translateTweet`, over a
    page of elements;
  - the asynchronous answer of `callDeepSeekAPI` as a separate step that
    settles one request in flight;
  - the classification of the answer: success, HTTP status, parse failure,
    network error.

Strings are sequences of UTF-16 code units (`JsString.Str`), as JavaScript
sees them. Each stateful part of the source is a class whose methods are
proved against a specification function on values:

- `Store.Storage` for the key-value store;
- `Timeline.Page` for the elements, the scan order and the requests in
  flight.

The properties are lemmas about those functions.

Modules:

| Module | File | Contents |
|---|---|---|
| `Wrappers` | `wrappers.dfy` | `Option` and `Result` |
| `JsString` | `jsstring.dfy` | code units, `trim`, decimal numbers |
| `Bits` | `bits.dfy` | the `^` operator on non-negative integers |
| `Base64` | `base64.dfy` | `btoa`, `atob` |
| `Utf8` | `utf8.dfy` | `TextEncoder` |
| `CryptoUtils` | `crypto.dfy` | the obfuscation |
| `Store` | `store.dfy` | the stored values and `Storage` |
| `Scanner` | `scanner.dfy` | `getTweetId`, `getTweetText` |
| `DeepSeekApi` | `api.dfy` | how a response settles the promise |
| `Timeline` | `timeline.dfy` | the scan and translate decisions, and `Page` |

All paths in the "source" column are relative to the repository root.

## Model

| member | source | states |
|---|---|---|
| JsString.TrimStripsSpace | X-Twitter-DeepSeek-Translator.user.js:921 | `trim()` leaves a string that neither starts nor ends with a trimmable unit |
| JsString.TrimIsSlice | X-Twitter-DeepSeek-Translator.user.js:921 | `trim()` returns a slice of its input; everything cut off before and after it is trimmable |
| JsString.Trim | X-Twitter-DeepSeek-Translator.user.js:921 | `trim()` never lengthens a string and leaves one that neither starts nor ends with a trimmable unit unchanged |
| JsString.Decimal | X-Twitter-DeepSeek-Translator.user.js:1041 | `${status}` writes decimal digits only: one digit below ten, never a leading zero otherwise, and they read back as the status |
| Bits.XorInvolutive | X-Twitter-DeepSeek-Translator.user.js:137 | XOR-ing twice with the same key unit gives the original unit back |
| Bits.XorByte | X-Twitter-DeepSeek-Translator.user.js:124 | XOR with a byte yields a byte exactly when the other operand is a byte |
| Bits.XorUnit | X-Twitter-DeepSeek-Translator.user.js:137-138 | XOR of two code units is a code unit, so `String.fromCharCode` keeps it unchanged |
| Base64.Btoa | X-Twitter-DeepSeek-Translator.user.js:142 | `btoa` succeeds exactly on binary strings (every unit < 256); the output has 4 characters per started group of 3 |
| Base64.BtoaCharacters | X-Twitter-DeepSeek-Translator.user.js:142 | `btoa` writes base 64 alphabet characters followed only by `=` padding |
| Base64.SextetValuesDefined | X-Twitter-DeepSeek-Translator.user.js:160 | decoding characters fails exactly on a character outside the base 64 alphabet; otherwise each character maps to its value |
| Base64.AtobFails | X-Twitter-DeepSeek-Translator.user.js:160 | `atob` throws exactly when, after white space and padding are removed, the length leaves remainder 1 or a character is outside the alphabet |
| Base64.Atob | X-Twitter-DeepSeek-Translator.user.js:160 | when `atob` succeeds, the white-space-free, unpadded input has no length remainder of 1 and decodes to three bytes per whole group of four characters, one or two for a final group of two or three |
| Base64.DecodeSextetsInvertsSextets | X-Twitter-DeepSeek-Translator.user.js:160 | regrouping the sextets of a byte string gives back the bytes |
| Base64.AtobInvertsEncode | X-Twitter-DeepSeek-Translator.user.js:160 | `atob` of a base 64 encoding gives back the encoded bytes |
| Base64.AtobInvertsBtoa | X-Twitter-DeepSeek-Translator.user.js:142-160 | `atob(btoa(s)) == s` for every binary string `s` |
| Utf8.EncodeLength | X-Twitter-DeepSeek-Translator.user.js:118-119 | `TextEncoder` produces at least one byte per code unit |
| Utf8.EncodeAscii | X-Twitter-DeepSeek-Translator.user.js:118-119 | an ASCII string encodes to itself |
| Utf8.EncodeAppend | X-Twitter-DeepSeek-Translator.user.js:119 | encoding `password + salt` is encoding `password` followed by encoding `salt`, unless the join splits a surrogate pair |
| Utf8.Encode | X-Twitter-DeepSeek-Translator.user.js:118-119 | `TextEncoder` writes at most three bytes per code unit, and nothing exactly for the empty string |
| CryptoUtils.SaltOf | X-Twitter-DeepSeek-Translator.user.js:107-114 | the salt has one character per random draw, drawn from `[A-Za-z0-9]` (the first 62 base 64 characters) and equal to `chars.charAt` of that draw; sixteen draws, as `encrypt` makes, give a well-formed salt |
| CryptoUtils.GenerateSalt | X-Twitter-DeepSeek-Translator.user.js:107-114 | the loop builds the salt spelled by the draws; every character is in `[A-Za-z0-9]` |
| CryptoUtils.RawKeyAt | X-Twitter-DeepSeek-Translator.user.js:123-125 | unit `i` of the unsliced key is `keyMaterial[i] ^ (i * 7 + salt.length)`, truncated to 16 bits |
| CryptoUtils.DeriveKey | X-Twitter-DeepSeek-Translator.user.js:117-127 | the loop then `slice(0, 32).padEnd(32, '0')` returns `DerivedKey(password, salt)` |
| CryptoUtils.KeyShape | X-Twitter-DeepSeek-Translator.user.js:117-127 | for any password and a salt of at most 38 units, the key has exactly 32 units, each below 256 |
| CryptoUtils.XorWithKeyAt | X-Twitter-DeepSeek-Translator.user.js:136-139 | unit `i` of the XOR-ed text is `text[i] ^ key[i % key.length]` |
| CryptoUtils.XorWithKeyInvolutive | X-Twitter-DeepSeek-Translator.user.js:136-166 | the `decrypt` loop undoes the `encrypt` loop under the same key |
| CryptoUtils.XorWithKeyBinary | X-Twitter-DeepSeek-Translator.user.js:136-142 | with a binary key, the XOR-ed text is binary exactly when the text is, so `btoa` throws exactly on a wide unit |
| CryptoUtils.Encrypt | X-Twitter-DeepSeek-Translator.user.js:130-147 | `encrypt` returns `salt + btoa(text ^ key)`, or null when `btoa` throws |
| CryptoUtils.Decrypt | X-Twitter-DeepSeek-Translator.user.js:150-173 | `decrypt` returns null for input shorter than 16 units (the empty input included) or an undecodable payload; otherwise the XOR of the decoded payload with the key derived from its first 16 units |
| CryptoUtils.ValidateEncryptionKey | X-Twitter-DeepSeek-Translator.user.js:176-178 | a key accepted by the 8..32 length check is never the empty string that stands for "no key" |
| CryptoUtils.EncryptionFailsOnWideUnits | X-Twitter-DeepSeek-Translator.user.js:130-147 | `encrypt` returns null exactly when some unit of the text is 256 or more, whatever the password |
| CryptoUtils.EncryptionFormat | X-Twitter-DeepSeek-Translator.user.js:107-142 | the output is the salt followed by `4 * ceil(n / 3)` characters of the base 64 alphabet or `=`, where `n` is the text length; that suffix decodes with `atob` to the text XOR-ed with the key, a string of length `n` |
| CryptoUtils.DecryptionInvertsEncryption | X-Twitter-DeepSeek-Translator.user.js:130-173 | `decrypt(encrypt(t, p), p) == t` for every binary text `t` and every password `p` |
| CryptoUtils.WrongPasswordStillDecrypts | X-Twitter-DeepSeek-Translator.user.js:150-173 | with any other password, `decrypt` still returns a binary string as long as the text, never null: there is no integrity check |
| CryptoUtils.KeyIgnoresSaltForLongPasswords | X-Twitter-DeepSeek-Translator.user.js:117-127 | when the password encodes to 32 or more bytes, the salt plays no part in the key |
| CryptoUtils.SharedPrefixDecrypts | X-Twitter-DeepSeek-Translator.user.js:117-173 | two passwords whose first 32 UTF-8 bytes agree decrypt each other's ciphertexts |
| CryptoUtils.RawKeyPrefix | X-Twitter-DeepSeek-Translator.user.js:123-126 | key material agreeing on its first 32 bytes gives the same key |
| CryptoUtils.SameMaterialPrefixSameKey | X-Twitter-DeepSeek-Translator.user.js:118-126 | passwords whose encodings agree on 32 bytes, with salts of equal length, derive equal keys |
| Store.GetConfigMerges | X-Twitter-DeepSeek-Translator.user.js:214-217 | `getConfig` overrides `DEFAULT_CONFIG` key by key with the saved object: for each of the six keys a saved value is read back and an absent one reads as its default; nothing saved reads as `DEFAULT_CONFIG`; a saved full configuration reads back unchanged |
| Store.KeySavedReadsBack | X-Twitter-DeepSeek-Translator.user.js:176-252 | `encryptAndSaveApiKey` succeeds exactly for an encryption key of 8..32 units and a binary API key; then `getDecryptedApiKey` returns that API key and the other settings are unchanged |
| Store.PanelSaveForgetsApiKey | X-Twitter-DeepSeek-Translator.user.js:497-522 | as written, after every successful save of the panel `getDecryptedApiKey` returns `''`, even one that changed only the prompt, theme or a checkbox; a save with a new binary API key and a valid encryption key does succeed |
| Store.PanelSaveKeepsApiKey | X-Twitter-DeepSeek-Translator.user.js:497-522 | corrected: after a successful save, the new API key (or else the previous one) is still readable |
| Store.Dedup | X-Twitter-DeepSeek-Translator.user.js:255-262 | `new Set(array)` has no duplicates and holds exactly the array's elements |
| Store.DedupOfDistinct | X-Twitter-DeepSeek-Translator.user.js:255-262 | a list without duplicates reads back unchanged |
| Store.SaveAppendsOnce | X-Twitter-DeepSeek-Translator.user.js:255-269 | `saveTranslatedTweet` appends a new ID at the end, leaves a known one in place, and never creates a duplicate |
| Store.SaveIdempotent | X-Twitter-DeepSeek-Translator.user.js:265-269 | saving the same ID twice is the same as saving it once |
| Store.SaveGrows | X-Twitter-DeepSeek-Translator.user.js:265-275 | after a save the saved ID is processed, and so is every ID processed before |
| Store.ClearResetsProcessed | X-Twitter-DeepSeek-Translator.user.js:790-794 | after `clearTranslationCache` the stored `'{}'` reads as an empty set, so no ID is processed; the cached translations are gone only when deletion is available |
| Store.Storage.constructor | X-Twitter-DeepSeek-Translator.user.js:214-262 | a fresh store holds no configuration, no processed IDs and no cached translations |
| Store.Storage.SaveConfig | X-Twitter-DeepSeek-Translator.user.js:220-222 | `saveConfig` replaces the saved object as a whole and changes nothing else |
| Store.Storage.GetDecryptedApiKey | X-Twitter-DeepSeek-Translator.user.js:225-233 | returns `''` when either stored field is empty or decryption fails, else the decrypted key |
| Store.Storage.GetTranslatedTweets | X-Twitter-DeepSeek-Translator.user.js:255-262 | `getTranslatedTweets()` holds no ID twice, as a `Set` |
| Store.Storage.IsTweetTranslated | X-Twitter-DeepSeek-Translator.user.js:272-275 | `isTweetTranslated(id)` holds exactly when `id` is in `getTranslatedTweets()` |
| Store.Storage.EncryptAndSaveApiKey | X-Twitter-DeepSeek-Translator.user.js:236-252 | on success the configuration becomes `KeySaved`; on an error the message thrown is returned and nothing is written |
| Store.Storage.SavePanel | X-Twitter-DeepSeek-Translator.user.js:497-522 | the save handler as written: on success the stored configuration becomes `PanelSaved`; on an error nothing is written |
| Store.Storage.SaveTranslatedTweet | X-Twitter-DeepSeek-Translator.user.js:265-269 | only the processed set changes, to `IdsWith(old, id)` |
| Store.Storage.SaveTranslation | X-Twitter-DeepSeek-Translator.user.js:965 | only the `translation_<id>` entry changes |
| Store.Storage.ClearTranslationCache | X-Twitter-DeepSeek-Translator.user.js:790-794 | the set is reset to `'{}'` first; the loop then deletes every `translation_` entry, or the call fails with the entries left in place |
| Scanner.DigitRun | X-Twitter-DeepSeek-Translator.user.js:898 | `(\d+)` captures the longest run of digits at its position |
| Scanner.FirstMatch | X-Twitter-DeepSeek-Translator.user.js:898 | the search finds the leftmost position where `/status/` is followed by a digit, or reports that there is none |
| Scanner.StatusIdFindsLeftmost | X-Twitter-DeepSeek-Translator.user.js:897-899 | `match[1]` is the maximal digit run after the leftmost `/status/` that is followed by a digit; null only when there is no such `/status/` |
| Scanner.LinkIdFindsFirst | X-Twitter-DeepSeek-Translator.user.js:895-900 | the ID comes from the first link, in document order, whose href matches; none only when no link matches |
| Scanner.LinkIdIsNumeric | X-Twitter-DeepSeek-Translator.user.js:893-909 | when a link matches, `getTweetId` returns that link's ID without consulting `data-tweet-id`: the maximal digit run after the leftmost `/status/` of the first matching link, non-empty and all digits |
| Scanner.GetTweetId | X-Twitter-DeepSeek-Translator.user.js:893-909 | `getTweetId` returns the links' ID when one matches, otherwise the `data-tweet-id`; null only when neither exists |
| Scanner.GetTweetTextFindsFirst | X-Twitter-DeepSeek-Translator.user.js:912-929 | `getTweetText` returns the trimmed form of the first text, in selector order, that is longer than 5 units after trimming; null only when there is none |
| Scanner.TweetTextIsTrimmed | X-Twitter-DeepSeek-Translator.user.js:919-922 | the text returned is longer than 5 units and has no leading or trailing white space |
| Scanner.GetTweetText | X-Twitter-DeepSeek-Translator.user.js:912-929 | a text returned is longer than five units; null means that every candidate is at most five units long once trimmed |
| DeepSeekApi.Outcome | X-Twitter-DeepSeek-Translator.user.js:1000-1049 | the promise resolves only for a non-empty key, status 200 and a readable body, with a value no longer than the content; every rejection carries a non-empty message |
| DeepSeekApi.OutcomeClassifies | X-Twitter-DeepSeek-Translator.user.js:1000-1049 | the promise resolves exactly for a non-empty key, status 200 and a readable body, with the slice of the content left once the trimmable units at both ends are cut off; a missing key rejects with `请先配置DeepSeek API密钥`, a network error with `undefined`, an unreadable body at status 200 with `解析API响应失败`, and any other status with `API请求失败: ` followed by exactly `Decimal(status)`, which reads back as the status |
| Timeline.Translate | X-Twitter-DeepSeek-Translator.user.js:932-973 | `translateTweet` up to the request keeps the page and the number of elements |
| Timeline.Marked | X-Twitter-DeepSeek-Translator.user.js:946-951 | marking the ID and showing the loading indicator keeps the page |
| Timeline.Dispatched | X-Twitter-DeepSeek-Translator.user.js:953-970 | reading the key, then either the failure block or the request, keeps the page |
| Timeline.Restore | X-Twitter-DeepSeek-Translator.user.js:849-861 | `restoreTranslation` keeps the page |
| Timeline.ScanItem | X-Twitter-DeepSeek-Translator.user.js:836-843 | one step of the `forEach` keeps the page |
| Timeline.ScanItems | X-Twitter-DeepSeek-Translator.user.js:835-845 | the scan loop keeps the page |
| Timeline.Scan | X-Twitter-DeepSeek-Translator.user.js:826-846 | `scanExistingTweets` keeps the page |
| Timeline.TranslateExtends | X-Twitter-DeepSeek-Translator.user.js:932-973 | `translateTweet` changes only its own element, not that element's content; it keeps the configuration and the cache; the processed set and the requests only grow; every new request is for a processed ID |
| Timeline.MarkedExtends | X-Twitter-DeepSeek-Translator.user.js:946-951 | after the marking step the ID is processed and only this element's loading state changed |
| Timeline.ExtendsTransitive | X-Twitter-DeepSeek-Translator.user.js:835-845 | the guarantees of two steps in a row are the guarantees of one |
| Timeline.DispatchedExtends | X-Twitter-DeepSeek-Translator.user.js:953-970 | the key step adds at most one request, for the processed ID, and touches only this element |
| Timeline.ScanItemExtends | X-Twitter-DeepSeek-Translator.user.js:836-843 | one scan step has the same guarantees as `translateTweet` |
| Timeline.ScanItemsExtends | X-Twitter-DeepSeek-Translator.user.js:835-845 | so does any sequence of scan steps |
| Timeline.Complete | X-Twitter-DeepSeek-Translator.user.js:960-971 | an answer removes its request, keeps the configuration and the processed set, and touches only the request's element |
| Timeline.Rerendered | X-Twitter-DeepSeek-Translator.user.js:278-280 | a re-created element has the same content, and no translation block or loading indicator |
| Timeline.Closed | X-Twitter-DeepSeek-Translator.user.js:1111 | the close button removes the block of its own element only |
| Timeline.ScanDisabledChangesNothing | X-Twitter-DeepSeek-Translator.user.js:827-828 | with `AUTO_TRANSLATE` off a scan changes nothing |
| Timeline.ScanSparesElement | X-Twitter-DeepSeek-Translator.user.js:836-843 | scanning an element that has a translation block or no ID changes nothing at all: no request, no marking; and a whole scan leaves such an element unchanged |
| Timeline.ScanKeepsConsistent | X-Twitter-DeepSeek-Translator.user.js:826-973 | if every cached translation and every request in flight belongs to a processed ID before a scan, this still holds after it |
| Timeline.CompleteKeepsConsistent | X-Twitter-DeepSeek-Translator.user.js:960-971 | the same invariant holds across the arrival of an answer |
| Timeline.ClearThenCompleteOrphansRecord | X-Twitter-DeepSeek-Translator.user.js:960-966 | a cache clear while a request is in flight breaks that invariant: the answer caches a translation for an ID that is no longer processed |
| Timeline.ClearedScanKeepsShown | X-Twitter-DeepSeek-Translator.user.js:836-843 | a scan after a cache clear does not re-translate elements that already show a block |
| Timeline.TranslateOutcome | X-Twitter-DeepSeek-Translator.user.js:932-958 | without text nothing happens, not even marking. With text, the ID is marked; a missing key shows `翻译失败: 请先配置API密钥` with no request; otherwise exactly one request is sent, carrying this element, ID, text and key |
| Timeline.CachedTranslationRestored | X-Twitter-DeepSeek-Translator.user.js:849-858 | a processed element with a cached translation shows it and sends no request |
| Timeline.CompleteOutcome | X-Twitter-DeepSeek-Translator.user.js:960-971 | a non-empty translation is cached and shown; an empty one is neither; an error shows `翻译失败: ` plus its message, removes the indicator and caches nothing |
| Timeline.ScanItemRequests | X-Twitter-DeepSeek-Translator.user.js:836-958 | scanning an element with an ID, text, no block, no cached translation and a stored key sends one request for it |
| Timeline.NoSingleFlight | X-Twitter-DeepSeek-Translator.user.js:836-946 | two scan steps that meet the ID before its answer arrives put two requests for it in flight |
| Timeline.RetryAfterRerender | X-Twitter-DeepSeek-Translator.user.js:836-858 | a failed element is skipped while its failure block is shown; once re-created, the next scan requests it again |
| Timeline.Page.constructor | X-Twitter-DeepSeek-Translator.user.js:826-846 | the page starts with no requests in flight |
| Timeline.Page.TranslateTweet | X-Twitter-DeepSeek-Translator.user.js:932-958 | the method's new state is `Translate` of the old one |
| Timeline.Page.MarkTweet | X-Twitter-DeepSeek-Translator.user.js:946-951 | the new state is `Marked` of the old one |
| Timeline.Page.DispatchTweet | X-Twitter-DeepSeek-Translator.user.js:953-970 | the new state is `Dispatched` of the old one, with the key decrypted from the store |
| Timeline.Page.RestoreTranslation | X-Twitter-DeepSeek-Translator.user.js:849-861 | the new state is `Restore` of the old one |
| Timeline.Page.ScanExistingTweets | X-Twitter-DeepSeek-Translator.user.js:826-846 | the loop's final state is `Scan` of the state before it |
| Timeline.Page.ScanTweet | X-Twitter-DeepSeek-Translator.user.js:836-843 | the new state is `ScanItem` of the old one |
| Timeline.Page.OnResponse | X-Twitter-DeepSeek-Translator.user.js:960-971 | the new state is `Complete` of the old one |
| Timeline.Page.Rerender | X-Twitter-DeepSeek-Translator.user.js:278-280 | the new state is `Rerendered` of the old one |
| Timeline.Page.CloseTranslation | X-Twitter-DeepSeek-Translator.user.js:1111 | the new state is `Closed` of the old one |

## Left out

- The settings panel, buttons, notifications and the themes are left out
  (283-823, 68-102, 182-211, 1135-1170). They build and style DOM elements.
  The save handler's decision logic is kept (`Store.PanelSaved`).
- The `MutationObserver` and the `setTimeout(…, 100)` rescan (864-890) are
  left out as timing. A rescan is a call of `Scan` or
  `Page.ScanExistingTweets` at any point. The code schedules one rescan per
  qualifying mutation batch; it does not merge a burst into one.
- `GM_xmlhttpRequest`, the request body, JSON parsing and `testConnection`
  (702-755, 1000-1049) are left out. The response is an input: a status with
  either a readable content string or an unreadable body, or a network
  error. No `ontimeout` is set, so a request can also stay pending forever;
  the model expresses that by never completing it.
- `Math.random` is not modelled. The salt's random draws are parameters.
- Rendering is reduced to a per-element translation text (`fragment`) and a
  count of loading indicators. Styling and placement are left out.
- `findTextContainer` falls back to the element itself and inserts outside
  it (1052-1056). The model assumes the text container lies inside the
  element. This holds whenever `getTweetText` found text, and every path
  that renders requires that.
- `getConfig()` is read once per `translateTweet`; the prompt and the
  loading flag of a request are those read then.
- Whether `GM_listValues`/`GM_deleteValue` exist is a parameter of
  `clearTranslationCache`. When they do not, the call fails after the reset.
- Timeline.Rerendered: the host page's re-rendering is not part of the
  userscript. It is modelled only as the replacement of one element.

## Where the documented behaviour and the code differ

The model follows the code in each case.

- **Single flight.** Marking the ID before the request is said to make
  translation single-flight within a scan pass. In the code, two elements
  with the same ID in one pass send two requests, and so does a rescan
  before the answer arrives (`Timeline.NoSingleFlight`). The reason is that
  the loading indicator is not a `.deepseek-translation` block.
- **Retries.** A failure is said never to be retried without a cache clear.
  In the code it is skipped only while its failure block is shown. A
  re-created element is translated again (`Timeline.RetryAfterRerender`).
- **Clearing the cache.** A clear followed by a scan is said to re-translate
  every visible item. In the code, elements that show a block are skipped
  (`Timeline.ClearedScanKeepsShown`).
- **Empty answers.** An empty translation is neither cached nor shown
  (`Timeline.CompleteOutcome`). Every later scan therefore sends the request
  again.

## Findings

| source | as written | input that shows it | evidently intended | confidence | as-written member | corrected member |
|---|---|---|---|---|---|---|
| X-Twitter-DeepSeek-Translator.user.js:499-522 | `newConfig` (499-504) never has `ENCRYPTED_API_KEY`, and `saveConfig(newConfig)` (521-522) replaces the whole configuration after `encryptAndSaveApiKey` stored the ciphertext | any save that succeeds: a valid encryption key of 8..32 units with a non-empty binary API key entered, or a save that changes only the prompt, the theme or a checkbox | the saved configuration keeps the ciphertext just stored, or the one already stored, so `getDecryptedApiKey` returns the key entered or else the previous key | high (proved; not executed) | Store.PanelSaveForgetsApiKey | Store.PanelSaveKeepsApiKey |
