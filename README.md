# umc core in Dafny

A model of the logic core of umc, a browser application that generates
images of a miniature's three views (frontal, back, base). The model covers
five parts:

- **The application store** (`src/store/index.ts`). One object holds the
  UI state of the three views, the current session, the sidebar list, the
  sidebar flag, the model choice and the API key. Its actions update the
  state in place and write through to the record store. It is modelled as
  the class `Store.AppStore`, whose fields are those of the state.
- **The record store** (`src/services/db.ts`). This is IndexedDB with a
  `sessions` table and an `images` table. The images table has a
  `by-session` index. The class `Db.RecordStore` holds the two tables as
  maps; its operations are the upserts, the lookups, the sorted listing and
  the cascade delete.
- **Data-URL parsing** (`dataUrlToBlob` in `src/services/db.ts`, repeated in
  `src/services/download.ts`). The module `Codec` models the `split(',')`,
  the regular expression `/:(.*?);/`, `atob`, the byte-copy loop and the
  way the `Blob` constructor normalises its `type`. `atob`
  is modelled concretely in `Base64`, as the forgiving-base64 decode of the
  WHATWG Infra standard over the alphabet of section 4 of RFC 4648.
- **Export naming** (`src/services/download.ts`), in `Download`: the
  extension guess, file-name sanitising, the single-download name and the
  files of a collection archive.
- **The relative-time text** (`src/lib/timeAgo.ts`), in `TimeAgo`, and
  **the generation client without the SDK** (`src/services/gemini.ts`), in
  `Gemini`: the prompt, the request parts, and how a response or a thrown
  value becomes a result.

Supporting modules: `Wrappers` (an `Option` for `null`/`undefined`),
`Types` (the shared records), `Strings` (`trim`, `includes`, `String(n)`,
`padStart`, `substring`) and `KeyOrder` (the order IndexedDB enumerates
string keys in).

Ambient inputs become parameters:

- the clock (`now`);
- the session id `generateId` would make (`freshId`);
- the thumbnail renderer (`makeThumb`, `None` for a failure);
- the `FileReader` that turns a blob back into a data URL (`reader`);
- the SDK's answer to a request (`outcome`);
- the localised short date (`localeDate`).

The promise chains of an action run to completion, one after another, in
the order the source chains them.

The repository's documentation also describes collections, miniatures and
migrations. The store code is the earlier session-based version, and the
model follows the code.

Decisions where JavaScript semantics matter:

- A session id or selection counts only when it is a non-empty string
  (`Store.IsSet`).
- `??` keeps an empty string (`Store.InitialSelection`, `Wrappers.Option.GetOr`).
- `if (!responseParts)` lets an empty array through, so an empty list of
  parts gives "No image in response".
- The reference image is sent only when its data URL is a non-empty string.
- A data URL without a comma has an `undefined` payload. `atob` reads it as
  the text "undefined" and throws (`Codec.UndefinedPayloadThrows`).
- `getAll` and `getAllFromIndex` yield rows in ascending key order, and
  `Array.prototype.sort` is stable, so sessions updated at the same moment
  are listed in key order.

## Model

| member | source | states |
|---|---|---|
| Strings.Trim | src/services/download.ts:37 | `trim()`: the result starts and ends with no whitespace, is made of characters of the input, is no longer than it, and is the input itself when that is already trimmed |
| Strings.TrimIsStartThenEnd | src/services/download.ts:37 | trimming removes exactly the leading whitespace, then exactly the trailing whitespace |
| Strings.NatToString | src/services/download.ts:66 | `String(n)`: decimal digits only, a single digit exactly below ten, a leading zero only for zero |
| Strings.NatToStringRoundTrip | src/services/download.ts:66 | reading the decimal text of `n` back gives `n` |
| Strings.LeadingZeroValue | src/services/download.ts:66 | a leading `0` does not change the number a string of digits denotes |
| Strings.NatToStringInjective | src/services/download.ts:66 | different numbers have different decimal texts |
| Strings.PadStart | src/services/download.ts:66 | `padStart(width, '0')`: the text ends with the input, reaches at least the width, and is filled in front with the filler |
| Strings.Prefix | src/store/index.ts:68 | `substring(0, n)`: the first `n` characters, or the whole text when it is shorter |
| Strings.IndexOf | src/services/db.ts:88 | `indexOf`: the first position of the character, with none before it; absent exactly when the character does not occur |
| KeyOrder.SortedKeys | src/services/db.ts:118 | the keys come back exactly once each, in strictly ascending key order |
| Base64.DecodeChars | src/services/db.ts:91 | each group of four characters gives three bytes, and a final two or three characters give one or two |
| Base64.ForgivingDecode | src/services/db.ts:91 | `atob` succeeds exactly when, after whitespace and the trailing padding are stripped, every character is in the alphabet and the length is not one more than a multiple of four |
| Base64.Atob | src/services/db.ts:91 | `atob` yields one character per decoded byte, with that byte's code |
| Base64.OneOverFails | src/services/db.ts:91 | `atob` rejects a text without whitespace whose length is one more than a multiple of four |
| Base64.Encode | src/services/db.ts:110 | the text `readAsDataURL` writes is padded to a multiple of four characters |
| Base64.DecodeEncodeNoPad | src/services/db.ts:91 | decoding unpadded base64 text gives back the bytes it encodes |
| Base64.DecodeEncode | src/services/db.ts:91 | `atob` accepts the padded encoding of any bytes and gives back those bytes |
| Codec.SplitComma | src/services/db.ts:88 | `[header, data] = s.split(',')`: the header is the text before the first comma; the payload is absent without a comma, and otherwise holds no comma, follows the first comma and ends at the second comma or at the end of the text |
| Codec.SplitHeader | src/services/db.ts:88 | splitting `header + "," + data` with comma-free parts gives back exactly those parts |
| Codec.MimeMatch | src/services/db.ts:89 | a captured group of `/:(.*?);/` holds no `;` and no line terminator |
| Codec.MimeFallback | src/services/db.ts:90 | without a `:` that a `;` follows, the type is "image/png" |
| Codec.MimeBetween | src/services/db.ts:89-90 | the type is the text between the first `:` and the next `;` when no line break comes between them |
| Codec.MimeOf | src/services/db.ts:89-90 | the captured type, "image/png" when the pattern does not match; its properties are stated by `MimeFallback` and `MimeBetween` |
| Codec.UndefinedPayloadThrows | src/services/db.ts:91 | `atob(undefined)` throws, because "undefined" has no valid length |
| Codec.ParseBlob | src/services/db.ts:87-97 | a blob comes back exactly when there is a payload that `atob` accepts; it has the header's type as the Blob constructor normalises it (`BlobType`) and one byte per decoded character, equal to its code |
| Codec.BlobType | src/services/db.ts:96 | `new Blob(…, { type })`: the empty type when some character lies outside U+0020 to U+007E, else the type in ASCII lower case, character by character |
| Codec.BlobTypeNormal | src/services/db.ts:96 | a blob's type is always one the constructor keeps, and the constructor keeps such a type unchanged |
| Codec.ParseBlobIsAtob | src/services/db.ts:87-97 | a data URL decodes exactly when `atob` accepts its payload, with "undefined" standing in for a missing one |
| Codec.DataUrlToBlob | src/services/db.ts:87-97 | the `dataUrlToBlob` steps return the blob `ParseBlob` describes, or fail where it fails; the copy at src/services/download.ts lines 13-23 behaves the same, so this one method serves both |
| Codec.CopyCharCodes | src/services/db.ts:92-95 | the `Uint8Array` loop: as long as the string, byte `i` equal to character code `i` |
| Codec.BlobRoundTrip | src/services/db.ts:87-112 | parsing the data URL written for a blob gives back that blob, when its type is one the constructor keeps and has no `,`, `;` or line break |
| Db.SessionRows | src/services/db.ts:157-162 | the index yields stored rows of that session only, every such row, in ascending key order |
| Db.NoRowsLeft | src/services/db.ts:157-162 | the index yields nothing for a session with no image left |
| Db.InsertByRecency | src/services/db.ts:119 | one insertion step of the sort keeps exactly the same rows |
| Db.InsertKeepsOrder | src/services/db.ts:119 | inserting a row with a key below all others into a recency-ordered list keeps it recency-ordered |
| Db.SortByRecency | src/services/db.ts:119 | the sort is a permutation of its input |
| Db.SortOrders | src/services/db.ts:118-119 | rows in ascending key order come out newest first, ties kept in key order |
| Db.ByRecencyUnique | src/services/db.ts:116-120 | two recency-ordered lists of the same rows are equal, so the listing is determined by the table |
| Db.RecordStore.constructor | src/services/db.ts:45-51 | a freshly created database has both tables empty, every row under its own key |
| Db.RecordStore.ListSessions | src/services/db.ts:116-120 | `listSessions`: every stored session exactly once, nothing else, newest first with ties in key order |
| Db.RecordStore.GetSession | src/services/db.ts:122-127 | `getSession`: the row stored under the id, absent exactly when there is none |
| Db.RecordStore.SaveSession | src/services/db.ts:129-132 | `saveSession` is an upsert: the id maps to the record, other rows and the images are unchanged |
| Db.RecordStore.SaveImage | src/services/db.ts:152-155 | `saveImage` is an upsert: the id maps to the record, other rows and the sessions are unchanged |
| Db.RecordStore.LoadImagesBySession | src/services/db.ts:157-162 | `loadImagesBySession`: exactly the stored images of the session, in ascending key order |
| Db.RecordStore.DeleteSession | src/services/db.ts:134-148 | the cursor loop removes the session row and exactly that session's images; everything else is unchanged; afterwards `getSession` finds nothing and `loadImagesBySession` is empty |
| Store.EmptyTabState | src/store/index.ts:26-30 | `createEmptyTabState`: no images, no selection, not generating; `Cleared` and the constructor state their use |
| Store.AppState.WithTab | src/store/index.ts:130-136 | `set({[tab]: …})` replaces that view only |
| Store.AppState.CanNavigateToTab | src/store/index.ts:197-209 | the gate itself; `NavigationIsOrdered` and `NavigationGrows` state its properties, `SetActiveTab` its use |
| Store.NavigationIsOrdered | src/store/index.ts:197-209 | `canNavigateToTab`: frontal always; back exactly when frontal has images; base exactly when back is reachable and back has images |
| Store.NavigationGrows | src/store/index.ts:197-209 | more images in the frontal and back views never lock a reachable view |
| Store.SessionRecordToMeta | src/store/index.ts:40-46 | the record's id, name, creation time, update time and thumbnail; `SessionList` states them element by element |
| Store.SessionList | src/store/index.ts:40-46 | `map(sessionRecordToMeta)` keeps the listing's length, order, ids, names, creation times, update times and thumbnails, so a recency-ordered listing gives a newest-first sidebar |
| Store.FindImage | src/store/index.ts:193 | `find`: the first image with the id, absent exactly when none has it |
| Store.ThumbnailSource | src/store/index.ts:51-56 | the first frontal image with the selected id (`FindImage`) when there is one, else the first frontal image, none when the view is empty |
| Store.DefaultName | src/store/index.ts:67-70 | the first 40 characters of the prompt, with "..." exactly when it is longer; "Untitled" without a source image |
| Store.ThumbnailFor | src/store/index.ts:58-65 | the renderer's output for the data URL of `ThumbnailSource`, `null` without a source image; `SessionToSave` stores it |
| Store.SessionToSave | src/store/index.ts:72-87 | an existing name and creation time win; the update time is now; the thumbnail, the three selections and the model come from the state |
| Store.Persisted | src/store/index.ts:48-90 | without a current session the table is unchanged; otherwise exactly that row is put, other rows kept |
| Store.Appended | src/store/index.ts:130-136 | the image joins the end of the view's gallery and becomes its selection, the spinner flag unchanged |
| Store.TabImages | src/store/index.ts:236-255 | the images the loop pushes onto one view, in record order; the three lemmas below state what each view holds |
| Store.TabImagesPartition | src/store/index.ts:236-255 | the sizes of the three views add up to the number of records |
| Store.TabImagesCover | src/store/index.ts:236-255 | the image of every record is in the view the record names |
| Store.TabImagesFromTab | src/store/index.ts:244-254 | each image of a view comes from a record of that view |
| Store.InitialSelection | src/store/index.ts:263-276 | `stored ?? images[0]?.id ?? null`; `Restored` states the three cases |
| Store.Restored | src/store/index.ts:257-279 | each view holds its records' images in record order; its selection is the stored one, else the first image, else none; spinners off, frontal shown, the record's model, the rest kept |
| Store.Cleared | src/store/index.ts:300-307 | the three views emptied, no current session, the frontal view shown, the rest kept |
| Store.PartitionByTab | src/store/index.ts:236-255 | the loop over the records succeeds exactly when every blob reads back, and then fills each view's list with that view's images in order |
| Store.AppStore.constructor | src/store/index.ts:92-102 | the initial state: the stored key, the frontal view, empty views, no session, an empty list, the sidebar open, the default model |
| Store.AppStore.RefreshSessions | src/store/index.ts:330-335 | `listSessions().then(set …)`: the sidebar list becomes the listing's records, nothing else changes |
| Store.AppStore.SetApiKey | src/store/index.ts:104-111 | only the key changes |
| Store.AppStore.SetActiveTab | src/store/index.ts:113-118 | the view changes exactly when it may be navigated to; nothing else changes |
| Store.AppStore.PersistSession | src/store/index.ts:48-90 | `persistSessionToDB(get())`: the sessions table becomes `Persisted` of the state; images unchanged |
| Store.AppStore.AppendImage | src/store/index.ts:121-136 | the session id is kept when set, else the fresh id; the image is appended to the view and selected |
| Store.AppStore.AddImage | src/store/index.ts:120-162 | the image is appended and selected under the kept or fresh session id; when its data URL decodes, it is saved under that id, the session persisted and the list refreshed; when it does not decode, nothing is written |
| Store.AppStore.SelectImage | src/store/index.ts:164-177 | only the view's selection changes (no membership check); the session is persisted when there is one |
| Store.AppStore.SetGenerating | src/store/index.ts:179-186 | only the view's spinner flag changes |
| Store.AppStore.GetSelectedImage | src/store/index.ts:188-195 | the first image of the view with the selected id (`FindImage`); nothing when the selection is unset or empty, or no image has that id |
| Store.AppStore.SetGeminiModel | src/store/index.ts:211-218 | only the model changes; the session is persisted with it |
| Store.AppStore.SetSessions | src/store/index.ts:222-224 | only the sidebar list changes |
| Store.AppStore.LoadSession | src/store/index.ts:226-280 | a missing session changes nothing; a blob that fails to read changes nothing; otherwise the state becomes `Restored` |
| Store.AppStore.NewSession | src/store/index.ts:282-291 | the views emptied, no session, frontal shown, the default model; key, list and sidebar kept |
| Store.AppStore.ClearViews | src/store/index.ts:300-307 | the state becomes `Cleared` of the old state |
| Store.AppStore.DeleteSessionById | src/store/index.ts:293-311 | the session and its images are deleted, the list refreshed; the views cleared only when the id was current, the model kept |
| Store.AppStore.RenameSession | src/store/index.ts:313-323 | a stored session takes the name and the update time now and the list is refreshed; a missing one changes nothing |
| Store.AppStore.ToggleSidebar | src/store/index.ts:325-327 | only the sidebar flag flips, so two toggles restore the state |
| Download.GetExtension | src/services/download.ts:25-33 | "jpg" exactly when the URL contains "image/jpeg" or "image/jpg"; else "webp" exactly when it contains "image/webp"; else "png" |
| Download.JpegExtension | src/services/download.ts:26-28 | a JPEG data URL gets "jpg" whatever its payload |
| Download.WebpOrPngExtension | src/services/download.ts:29-32 | a WebP or PNG data URL gets its own extension unless its payload spells another type |
| Download.ReplaceForbidden | src/services/download.ts:37 | each character of the pattern (angle brackets, colon, double quote, slash, backslash, vertical bar, question mark, asterisk) becomes `_`, every other character is kept, the length is kept |
| Download.SanitizeFileName | src/services/download.ts:35-38 | no forbidden character, no outer whitespace, no longer than the input |
| Download.SanitizeIdempotent | src/services/download.ts:35-38 | sanitising twice equals sanitising once |
| Download.UpperAscii | src/services/download.ts:43 | an ASCII lower-case letter becomes its capital; other characters are kept |
| Download.Capitalize | src/services/download.ts:43 | the first character upper-cased, the rest kept |
| Download.ViewLabel | src/services/download.ts:43 | `charAt(0).toUpperCase() + slice(1)` of the view's name; `ViewLabels` states the three results |
| Download.ViewLabels | src/services/download.ts:43 | the labels are "Frontal", "Back" and "Base" |
| Download.SingleImageFileName | src/services/download.ts:40-44 | the single download's name holds no forbidden character |
| Download.SingleImageFileNameShape | src/services/download.ts:40-44 | the name is the sanitised miniature name, then " - " and the view's label, then "." and the extension |
| Download.SingleImageViewsDiffer | src/services/download.ts:40-44 | the three views of one image and miniature get three different names |
| Download.ViewPrefix | src/services/download.ts:67 | the view prefixes contain no dot and differ at their third character |
| Download.IndexSuffix | src/services/download.ts:66 | empty for a view of at most one image; otherwise "-" and the digits of `index + 1`, zero-padded to exactly two places (longer only when the number has more digits), which denote `index + 1` |
| Download.PaddedValue | src/services/download.ts:66 | padding the decimal text of `n` to two places gives at least two digits that still denote `n` |
| Download.SuffixInjective | src/services/download.ts:66 | different indexes of a view of several images get different suffixes |
| Download.EntryName | src/services/download.ts:65-67 | the miniature's name, the view prefix, the suffix, "." and the extension; `EntryNamesDiffer` states that the names do not collide |
| Download.EntryNamesDiffer | src/services/download.ts:64-82 | two files of one miniature in different views, or at different indexes of one view, have different names |
| Download.CollectCompletes | src/services/download.ts:58-83 | an export loop completes exactly when no step throws |
| Download.CollectSingles | src/services/download.ts:64-68 | when each step adds one file, file `j` is the one step `j` adds |
| Download.ViewFiles | src/services/download.ts:64-68 | the files of one view's `forEach`; `ViewFilesContents` and `ViewFilesDistinct` state them |
| Download.ViewFilesContents | src/services/download.ts:64-68 | a view's files exist exactly when all its images decode; then there is one per image, in order, under its numbered name, with its decoded blob |
| Download.ViewFilesDistinct | src/services/download.ts:64-82 | one view's files: one per image, all in the miniature's folder, names pairwise distinct |
| Download.ViewsApart | src/services/download.ts:64-82 | files of two different views never share a name |
| Download.MiniFiles | src/services/download.ts:59-82 | a miniature's frontal, back and base files in that order; `MiniFilesDecode` and `MiniFilesDistinct` state them |
| Download.MiniFilesDecode | src/services/download.ts:58-83 | a miniature's files exist exactly when all its images decode |
| Download.MiniFilesDistinct | src/services/download.ts:58-83 | a miniature's folder gets one file per image, every file in that folder, names pairwise distinct |
| Download.CollectionFiles | src/services/download.ts:58-83 | every miniature's files in order, none once an image throws; `CollectionFilesDecode` states when they exist |
| Download.CollectionFilesDecode | src/services/download.ts:58-83 | the export produces files exactly when every image of every miniature decodes |
| Download.ZipName | src/services/download.ts:89 | the archive's name holds no forbidden character |
| Download.ZipNameShape | src/services/download.ts:89 | the archive's name starts with the sanitised collection name and ends with ".zip" |
| Download.AddViewFiles | src/services/download.ts:64-68 | one view's `forEach` adds exactly the files `ViewFiles` describes, and fails exactly where an image throws |
| Download.AddMiniFiles | src/services/download.ts:59-82 | one pass of the loop adds exactly the miniature's frontal, back and base files, and fails exactly where an image throws |
| Download.AddCollectionFiles | src/services/download.ts:58-83 | the loop over the miniatures gathers exactly `CollectionFiles`, stopping at the first image that throws |
| Download.DownloadCollection | src/services/download.ts:54-89 | the archive exists exactly when every image decodes; it is named by `ZipName` and holds every miniature's files in order |
| Gemini.BuildPrompt | src/services/gemini.ts:28-37 | the view's system prompt, then "\n\nUser request: ", then the user's text |
| Gemini.BuildPromptInjective | src/services/gemini.ts:28-37 | different requests give different prompts |
| Gemini.DataUrlToBase64 | src/services/gemini.ts:21-26 | the header's type (PNG by default) and exactly the payload `SplitComma` gives: the text between the first and second comma, absent without a comma |
| Gemini.ResponseDataUrl | src/services/gemini.ts:82 | `data:${mimeType};base64,${data}`; `DataUrlToBase64RoundTrip` states that it can be taken apart again |
| Gemini.DataUrlToBase64RoundTrip | src/services/gemini.ts:82 | taking apart the data URL built from a returned image gives back its type and payload |
| Gemini.BuildParts | src/services/gemini.ts:54-64 | an inline reference part exactly for the back view with a non-empty reference URL, placed first; the prompt text always last |
| Gemini.RequestModel | src/services/gemini.ts:46 | the given model name, else "gemini-2.5-flash-image" |
| Gemini.FirstImagePart | src/services/gemini.ts:79-85 | the first part carrying image data, none exactly when no part does |
| Gemini.IsSelection | src/services/gemini.ts:69-87 | the relation between a response and its result; `ReadResponse` meets it and `SelectionIsUnique` makes it a function |
| Gemini.ReadResponse | src/services/gemini.ts:69-87 | "No response generated" without candidates; "No content in response" without parts; the first image part as a data URL; else "No image in response" |
| Gemini.GenerateImage | src/services/gemini.ts:39-92 | the request carries the key, the model and the parts; a thrown value becomes a failure with its message, or "Unknown error occurred" for a non-Error; a response is read as `ReadResponse` reads it |
| Gemini.SelectionIsUnique | src/services/gemini.ts:69-87 | the result is determined by the response |
| Gemini.SuccessCarriesImage | src/services/gemini.ts:79-84 | a success is a data URL built from some type and payload |
| TimeAgo.Classify | src/lib/timeAgo.ts:9-41 | the branch `timeAgo` takes; every count it prints is at least one and below the next unit (under 60 minutes, 24 hours, 30 days, 12 months), and years start at two |
| TimeAgo.CountAgo | src/lib/timeAgo.ts:21-33 | starts with the count and the unit and ends with " ago" |
| TimeAgo.TimeAgo | src/lib/timeAgo.ts:5-42 | "Just now" exactly in its branch (the short-date branch aside); every other count branch gives digits first and " ago" last; the lemmas `JustNowText` to `YearsText` give each branch's exact text |
| TimeAgo.BranchRanges | src/lib/timeAgo.ts:9-41 | each branch covers one range of the difference and the ranges tile the integers; every count is the floor of the difference by its unit |
| TimeAgo.CountAgoPlural | src/lib/timeAgo.ts:20-34 | "N unit ago", with the "s" exactly when N is not one |
| TimeAgo.JustNowText | src/lib/timeAgo.ts:16-18 | under a minute, the future included, the text is "Just now" |
| TimeAgo.MinutesText | src/lib/timeAgo.ts:20-22 | from one minute to one hour back the text counts whole minutes |
| TimeAgo.HoursText | src/lib/timeAgo.ts:24-26 | from one hour to one day back the text counts whole hours |
| TimeAgo.DaysText | src/lib/timeAgo.ts:28-30 | from one day to 30 days back the text counts whole days |
| TimeAgo.MonthsText | src/lib/timeAgo.ts:32-34 | from 30 to 360 days back the text counts whole 30-day months |
| TimeAgo.LocaleDateText | src/lib/timeAgo.ts:36-39 | days 360 to 729 back show the short date |
| TimeAgo.YearsText | src/lib/timeAgo.ts:41 | 730 days back or more the text is "N years ago", N whole 365-day years |

## Left out

- Thumbnail rendering (`generateThumbnail`): image decoding, canvas scaling and JPEG encoding are browser work. It is the parameter `makeThumb`, whose `None` is the failure the store turns into `null`.
- `blobToDataUrl`: a `FileReader` callback. It is the parameter `reader`, whose `None` is a rejected read.
- The IndexedDB connection: `openDB`, the version-1 upgrade callback, the cached connection and transaction atomicity. The tables are plain maps, and every operation succeeds.
- Promise interleavings: the fire-and-forget chains of `addImage`, `selectImage` and `setGeminiModel`, and the initial listing, each run to completion in order. Races between them and their silent `catch` of IndexedDB failures are not modelled.
- `Date.now`, `Math.random` and `generateId` are parameters (`now`, `freshId`).
- Store.SessionToSave: uses one `now` for a new record's creation and update times, whereas `persistSessionToDB` reads `Date.now()` twice, so in the source `createdAt` may precede `updatedAt` by the time between the two reads.
- localStorage, in `loadApiKey` and `setApiKey`: the stored key is a constructor parameter, and the write is not modelled.
- The Google SDK call: the client object, the model options and `generateContent` are replaced by the outcome parameter.
- JSZip and the DOM: folders, `generateAsync`, object URLs and anchor clicks. An archive is its download name and its list of files.
- JSZip merging two miniatures whose sanitised names coincide into one folder: archive files are listed per miniature, and names are proved distinct within one miniature only.
- The `if (!folder) continue` branch of `downloadCollection`: `zip.folder` returns a folder for every name, so the branch is never taken.
- `toLocaleDateString`: it is the parameter `localeDate`.
- The system prompt texts: they are an opaque record of three strings.
- `MiniatureMeta`: the export imports it, but no type of that name is part of this model. A miniature is its name and the data URLs of its three views.
- UTF-16: strings are sequences of characters, so `substring(0, 40)`, `trim` and the key order match JavaScript only outside the supplementary planes.
- Download.WebpOrPngExtension: assumes the payload does not spell out another image type, because `getExtension` scans the whole URL, payload included.
