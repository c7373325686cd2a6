# Minecraft community site — a Dafny model of its core rules

The site is a small Flask application for a game server: a home page, an About page that lists
the server's mods, a picture gallery, and an admin panel. This project models the rules that
sit under those pages and proves what they guarantee:

- **app.py**: reading the mods list (`load_mods`, one `{name, version}` entry per non-blank
  line, split at the last space) and choosing the gallery's image files (`pictures`).
  Module `Site`.
- **database.py**: the `images` metadata table and the `admins` credentials table, as two maps
  in class `Database.MetadataStore`, with the pure table updates (`Upsert`, `Delete`,
  `ChangeHash`) that specify its methods.
- **files.py**: `FileManager`, whose four documents (config, server details, mods text,
  custom info) load with a default that is written back when the file is missing or does not
  parse. The file system is a map from path to text. JSON reading and writing are an abstract
  `parse`/`serialize` pair. Class `Files.FileManager` and the pure `LoadOrDefault`/`LoadText`.
- **static/scripts/pictures.js**: the gallery's state (`allImages`, `loadedCount`, the
  pending delete, and the cards in the grid) as class `Pictures.Gallery`, plus the `esc` and
  `escJs` escapers.
- **static/scripts/admin.js**: `escAttr`, and the configuration tab's rules. These are the
  fallbacks and upper-casing in `loadConfig` and the extension normalization and
  `max_file_size` fallback in `saveConfig`. Module `Admin`.

Shared modules: `Strings` (ASCII whitespace of Python's `strip` and JavaScript's `trim`, ASCII
case mapping, global single-character `replace`), `JsValues` (JavaScript scalars, falsiness,
`String(v)`, `parseInt(s, 10)`), and `Escaping`. `Escaping` holds the replacement chains
behind `esc`, `escAttr` and `escJs`. It proves them against a per-character reference encoding
and against the decoders a browser applies: HTML entities, then a single-quoted JavaScript
literal.

## Model

| member | source | states |
|---|---|---|
| Site.LastIndexOf | app.py:25 | None exactly when the character does not occur; otherwise an index holding it with no occurrence after it |
| Site.ParseModLine | app.py:25-29 | with a space, name + " " + version rebuilds the line and the version has no space; without one, the line is the name and the version is empty |
| Site.SplitHalvesNonEmpty | app.py:23-27 | a non-empty stripped line that is split has a non-empty name and a non-empty version |
| Site.SplitLines | app.py:21-22 | a text yields at least one line and no line contains a line break |
| Site.SplitLinesSingle | app.py:21-22 | a text without line breaks is one line |
| Site.SplitLinesBreak | app.py:21-22 | a line feed or a carriage return separates the line before it from the lines after it |
| Site.CarriageReturnLineFeed | app.py:21-22 | a "\r\n" pair ends the line before it and then yields an empty line |
| Site.EmptyLineNoEntry | app.py:23-24 | an empty line adds no mod entry |
| Site.CarriageReturnLineFeedEntries | app.py:21-29 | a text with "\r\n" gives the same mods as with a plain "\n" in its place |
| Site.ModEntry | app.py:22-29 | a line contributes no entry exactly when it is all whitespace, otherwise exactly one |
| Site.ModEntryFields | app.py:23-29 | the entry of a non-blank line splits its stripped text at the last space into non-empty parts, or takes it whole with an empty version |
| Site.ModEntries | app.py:22-29 | the entries of the lines in order, one per non-blank line: the reference definition that `LoadMods` is proved equal to, with its properties stated by `ModEntriesAppend`, `ModEntry` and `ModEntryFields` |
| Site.ModEntriesAppend | app.py:22-29 | lines contribute independently and in input order |
| Site.LoadMods | app.py:16-31 | a missing file gives no mods; otherwise the loop collects exactly the entries of the file's lines, in order |
| Site.ImageFiles | app.py:42-43 | a name is kept exactly when it is in the listing and its lower-cased form ends in .png, .jpg, .jpeg, .gif or .webp |
| Site.ImageFilesIsSubsequence | app.py:42-43 | the kept names are a subsequence of the listing (order preserved) |
| Site.ImageFilesAppend | app.py:42-43 | filtering distributes over concatenated listings |
| Site.PictureList | app.py:40-47 | a missing directory gives no pictures; otherwise exactly the image names, as a subsequence of the listing |
| Strings.Trim | app.py:23 | the result has no whitespace at either end, is empty exactly when the input is all whitespace, and sits in the input with only whitespace around it |
| Strings.TrimIdempotent | app.py:23 | stripping twice is stripping once |
| Strings.TrimTrimmed | static/scripts/admin.js:191 | a string without whitespace at its ends is left as it is |
| Strings.Lower | app.py:43 | same length, each character lower-cased on its own |
| Strings.Upper | static/scripts/admin.js:182 | same length, each character upper-cased on its own |
| Strings.ReplaceChar | static/scripts/pictures.js:112 | a string without the character is unchanged; the character is gone when the replacement lacks it |
| Strings.ReplaceCharAppend | static/scripts/pictures.js:112 | a global replace works piece by piece over concatenation |
| Strings.ReplaceCharKeepsOut | static/scripts/pictures.js:112-113 | a replace never introduces a character absent from the input and the replacement |
| JsValues.ToJsString | static/scripts/pictures.js:111 | `String(v)` of a string is the string itself; `TruthyPrintsNonEmpty` and `ParseIntDecimal` state what it prints for other values |
| JsValues.Decimal | static/scripts/admin.js:181 | `String(n)` is non-empty digits, with a leading minus exactly for negative numbers |
| JsValues.ParseInt | static/scripts/admin.js:198 | a number is only read when the text holds a digit |
| JsValues.ParseIntDecimal | static/scripts/admin.js:181-198 | `parseInt` reads back what `String` prints for every safe integer (at most 2^53 - 1 in size) |
| JsValues.TruthyPrintsNonEmpty | static/scripts/pictures.js:35 | a truthy value never prints as the empty string, and only the empty string prints as empty |
| Escaping.EncodeStep | static/scripts/pictures.js:112-113 | each replace in the chain advances the per-character reference encoding by one step |
| Escaping.EncodedPlain | static/scripts/pictures.js:110-117 | text without special characters encodes to itself |
| Escaping.HtmlEscape | static/scripts/pictures.js:112-113 | the chain leaves no raw single quote; `HtmlEscapeEncodes` gives its full effect |
| Escaping.HtmlEscapeEncodes | static/scripts/pictures.js:110-114 | the `esc` chain replaces each special character by its entity and keeps every other character |
| Escaping.HtmlEscapeNoRawSpecials | static/scripts/pictures.js:110-114 | the output has no raw `<`, `>`, `"` or `'` |
| Escaping.HtmlEscapePlain | static/scripts/pictures.js:110-114 | text without `& < > " '` is returned unchanged |
| Escaping.DecodeStep | static/scripts/pictures.js:112-113 | decoding one entity undoes exactly the matching replace of the chain |
| Escaping.HtmlRoundTrip | static/scripts/pictures.js:110-114 | decoding the five entities, `&amp;` last, recovers the input |
| Escaping.JsEscape | static/scripts/pictures.js:115-117 | the `escJs` output has no raw line feed |
| Escaping.JsEscapeEncodes | static/scripts/pictures.js:115-117 | the `escJs` chain escapes each backslash, quote and line feed on its own |
| Escaping.JsDecodeEncoded | static/scripts/pictures.js:115-117 | the JavaScript literal parser reads back the encoded text when every raw character may stand in a literal |
| Escaping.JsRoundTrip | static/scripts/pictures.js:115-117 | unescaping `\\`, `\'` and `\n` recovers any input without a carriage return |
| Escaping.JsEscapeCarriageReturn | static/scripts/pictures.js:116 | a carriage return passes through `escJs` raw and breaks the literal |
| Escaping.JsEscapeFixed | static/scripts/pictures.js:115-117 | the corrected chain leaves no raw line feed or carriage return |
| Escaping.JsEscapeFixedEncodes | static/scripts/pictures.js:115-117 | the corrected chain escapes the carriage return too, each character on its own |
| Escaping.JsFixedRoundTrip | static/scripts/pictures.js:115-117 | the corrected chain round-trips every text through the literal parser |
| Escaping.QuotedAttributeValue | static/scripts/pictures.js:93 | a double-quoted attribute value is a prefix of the text, the whole text when it has no `"` |
| Escaping.JsEscapeInAttribute | static/scripts/pictures.js:93 | a `"` passes through `escJs` and cuts the `onclick` attribute short |
| Escaping.HtmlEscapeAsJsLiteral | static/scripts/pictures.js:83 | `esc` output used as a literal inside `onclick` breaks on `'`, because the attribute decodes `&#39;` |
| Escaping.InlineArgument | static/scripts/pictures.js:93 | the corrected argument text has no `"` or `<`, so the attribute keeps it whole |
| Escaping.InlineArgumentRoundTrip | static/scripts/pictures.js:93 | the browser recovers the original text from an inline argument |
| Pictures.Esc | static/scripts/pictures.js:110-114 | `esc(v)` holds no raw `<`, `>`, `"` or `'` |
| Pictures.EscRoundTrip | static/scripts/pictures.js:110-114 | `esc(v)` decodes back to `String(v)` and holds no raw `< > " '` |
| Pictures.EscNull | static/scripts/pictures.js:110-111 | `esc(null)` is the text "null" |
| Pictures.EscJs | static/scripts/pictures.js:115-117 | `escJs(v)` holds no raw line feed |
| Pictures.EscJsRoundTrip | static/scripts/pictures.js:115-117 | `escJs(v)` parses back to `String(v)` when that has no carriage return |
| Pictures.CardOf | static/scripts/pictures.js:34-36 | a falsy title shows the file name; the description is empty exactly when it is falsy |
| Pictures.Cards | static/scripts/pictures.js:14-16 | one card per image, in order |
| Pictures.FindIndex | static/scripts/pictures.js:164 | -1 exactly when no image has the name; otherwise the first image with it |
| Pictures.RemoveFirst | static/scripts/pictures.js:164-165 | no match leaves the list; a match shortens it by one |
| Pictures.RemoveFirstDropsName | static/scripts/pictures.js:164-165 | with distinct names, no image with the deleted name remains and the names stay distinct |
| Pictures.RemoveShownImage | static/scripts/pictures.js:159-165 | with distinct names, the spliced image is the clicked card's, and the shown prefix loses exactly that card |
| Pictures.Gallery.InitGallery | static/scripts/pictures.js:7-12 | the gallery holds the images and shows the first min(15, n) of them |
| Pictures.Gallery.LoadMoreButton | static/scripts/pictures.js:21-31 | hidden exactly when every image is shown; otherwise shows the positive number remaining |
| Pictures.Gallery.AddImageToGallery | static/scripts/pictures.js:34-107 | the defaulted card goes to the end of the grid, or to the top when prepending, in which case a pending delete's card index moves down by one so it still points at a card with the pending file name |
| Pictures.Gallery.LoadNextBatch | static/scripts/pictures.js:14-19 | the count advances by min(15, remaining) and exactly those images' cards are appended in order; the invariants are kept |
| Pictures.Gallery.SaveImage | static/scripts/pictures.js:198-226 | a failed save changes nothing; an accepted one makes that card alone record the trimmed texts (those `cancelEdit` restores and the lightbox receives; the edited elements keep the text as typed), leaves the image list, count and pending delete as they were, and keeps the file names of shown cards matching the loaded images |
| Pictures.Gallery.DeleteImage | static/scripts/pictures.js:137-142 | the clicked card and its file name become the pending delete |
| Pictures.Gallery.CloseConfirmModal | static/scripts/pictures.js:144-148 | both pending fields are cleared and nothing else changes |
| Pictures.Gallery.ConfirmDelete | static/scripts/pictures.js:150-176 | no pending name or a failed request changes nothing; otherwise the card is removed and the first image with the name is spliced out, lowering the count but not below zero |
| Pictures.Gallery.UploadFile | static/scripts/pictures.js:229-247 | a non-image type or a failed upload changes nothing, the pending delete included; otherwise {filename, title: filename, description: ''} is prepended, counted as loaded and shown first, and a pending delete's card index moves down by one so it still names the same card |
| Admin.EscAttr | static/scripts/admin.js:208-212 | `escAttr(v)` is empty exactly for a falsy value |
| Admin.OrEmpty | static/scripts/admin.js:178-180 | empty exactly for a falsy value, the value's text otherwise |
| Admin.EscAttrFalsy | static/scripts/admin.js:209 | a falsy input escapes to the empty string |
| Admin.EscAttrNoRawSpecials | static/scripts/admin.js:210-211 | the output has no raw `<`, `>`, `"` or `'` |
| Admin.EscAttrPlain | static/scripts/admin.js:210-211 | a string without the five special characters is unchanged |
| Admin.EscAttrRoundTrip | static/scripts/admin.js:208-212 | decoding the entities recovers the input, the empty string for a falsy one |
| Admin.EscAttrNullDiffers | static/scripts/admin.js:209 | `escAttr(null)` is empty while `esc(null)` is "null" |
| Admin.StripLineBreaks | static/scripts/admin.js:162 | the text input's value holds no line feed or carriage return, adds no character, and is unchanged when there was no line break |
| Admin.StripAppend | static/scripts/admin.js:162 | stripping works piece by piece: the stripped concatenation is the concatenation of the stripped pieces, so every other character is kept, in order |
| Admin.StripKeeps | static/scripts/admin.js:162 | every character that is not a line break survives the stripping |
| Admin.StripLineBreaksNormalized | static/scripts/admin.js:162 | a normalized extension with its line breaks removed is still non-empty and normalized |
| Admin.ExtensionRows | static/scripts/admin.js:184-186 | one row per stored extension, none when the list is missing |
| Admin.ExtensionRowsShowValues | static/scripts/admin.js:158-186 | each row's input shows its extension's text without line breaks, empty for a falsy entry |
| Admin.NormalizeExtension | static/scripts/admin.js:191 | empty exactly for an all-whitespace field; otherwise trimmed with no upper-case letters |
| Admin.NormalizeExtensionFixed | static/scripts/admin.js:191 | a normalized extension is its own normalization |
| Admin.NormalizeExtensions | static/scripts/admin.js:190-192 | every kept extension is non-empty, trimmed and lower-case, and there are no more than fields |
| Admin.NormalizeExtensionsAppend | static/scripts/admin.js:190-192 | fields are normalized independently and in order |
| Admin.NormalizeExtensionsSingle | static/scripts/admin.js:190-192 | a blank field is dropped, any other kept as its normalized text |
| Admin.NormalizeExtensionsIdempotent | static/scripts/admin.js:190-192 | normalizing a saved list again changes nothing |
| Admin.NormalizeExtensionsFixed | static/scripts/admin.js:190-192 | a list of non-empty normalized extensions is saved unchanged |
| Admin.ExtensionsReload | static/scripts/admin.js:158-192 | after a load of the form and a save, a saved extension list comes back with the line breaks inside its extensions removed, and unchanged when none has one |
| Admin.MaxFileSize | static/scripts/admin.js:198 | never 0; NaN gives 20; any other non-zero parse is kept |
| Admin.FileSizeField | static/scripts/admin.js:181 | a falsy stored size shows "20", any other its text |
| Admin.FileSizeReload | static/scripts/admin.js:181-198 | a stored safe integer size survives load then save, except that 0 becomes 20 |
| Admin.SizeUnitField | static/scripts/admin.js:182 | a falsy unit shows "MB", a string shows upper-cased, another truthy value throws; nothing shown is lower-case |
| Admin.SizeUnitReload | static/scripts/admin.js:182-199 | saving the shown unit and loading again shows the same unit |
| Database.MetadataOf | database.py:65-77 | the stored title and description of the filename's row, or two Nones without a row |
| Database.Upsert | database.py:79-95 | the row for the filename afterwards carries the new title and description, keeps its upload time when it existed, and no other row changes |
| Database.Delete | database.py:100-105 | the filename's row is gone, the others untouched, and an absent filename changes nothing |
| Database.DeleteIdempotent | database.py:100-105 | deleting twice is deleting once |
| Database.OtherRowsUnchanged | database.py:79-105 | upsert and delete leave every other filename's metadata as it was |
| Database.ChangeHash | database.py:122-132 | only the named user's hash changes; an unknown user changes nothing |
| Database.VerifyAfterChange | database.py:107-132 | after a change the user verifies exactly against the new hash, everyone else as before |
| Database.MetadataStore.constructor | database.py:19-37 | the store holds the two tables as given |
| Database.MetadataStore.CreateAdmin | database.py:56-63 | a new username is inserted with its hash; a taken one is refused and nothing changes |
| Database.MetadataStore.CreateDefaultAdmin | database.py:44-54 | on an empty table afterwards exactly `admin` exists; otherwise nothing changes |
| Database.MetadataStore.GetImageMetadata | database.py:65-77 | the stored title and description, or two Nones for a filename without a row |
| Database.MetadataStore.UpdateImageMetadata | database.py:79-98 | the table becomes the upsert of the old one |
| Database.MetadataStore.DeleteImageMetadata | database.py:100-105 | the table becomes the old one without the row |
| Database.MetadataStore.VerifyAdmin | database.py:107-120 | true exactly when the user has a row whose hash checks against the password; false for an unknown user |
| Database.MetadataStore.ChangePassword | database.py:122-135 | returns true, also for an unknown user, and the table becomes the hash change of the old one |
| Files.Join | files.py:12-13 | the joined path ends with the last component |
| Files.DocumentPathsDistinct | files.py:19-39 | the four document paths and the pictures directory are pairwise distinct for every root |
| Files.PicturesDir | files.py:19-23 | the path ends in `pictures` |
| Files.ConfigPath | files.py:25-27 | the path ends in `config.json` |
| Files.DetailsPath | files.py:29-31 | the path ends in `details.json` |
| Files.ModsPath | files.py:33-35 | the path ends in `mods.txt` |
| Files.CustomInfoPath | files.py:37-39 | the path ends in `custom.json` |
| Files.LoadOrDefault | files.py:41-61 | the result is the default or what the existing file parses to; afterwards the path holds a text that parses to the result or the default's text, and no other file changes |
| Files.LoadText | files.py:93-106 | the result has no carriage return; an existing file is not written, a missing one is created empty and read as empty |
| Files.ReadText | files.py:97-99 | a text-mode read has no carriage returns and leaves text without them unchanged |
| Files.LoadParsed | files.py:53-56 | a file that exists and parses is returned and nothing is written |
| Files.LoadFallsBack | files.py:53-61 | a missing or unparseable file yields the default, the path then holds the default's text and no other file changes |
| Files.SaveThenLoad | files.py:63-66 | a saved document loads back unchanged when the codec round-trips |
| Files.LoadTwice | files.py:41-61 | a second load returns what the first did and writes nothing |
| Files.SaveTextThenLoad | files.py:93-111 | saved mods text loads back as read in text mode, unchanged without carriage returns; loaded text saved again loads back the same |
| Files.LoadTextTwice | files.py:93-106 | a second mods load returns what the first did and writes nothing |
| Files.SaveElsewhere | files.py:63-66 | writing one path does not change what a load of another path returns |
| Files.FileManager.constructor | files.py:10-13 | the manager keeps its root, codec and file system |
| Files.FileManager.SaveConfig | files.py:63-66 | only the config path changes, to the serialized document |
| Files.FileManager.LoadConfig | files.py:41-61 | load-or-default with the six-field default config |
| Files.FileManager.SaveDetails | files.py:88-91 | only the details path changes |
| Files.FileManager.LoadDetails | files.py:68-86 | load-or-default with the two-row default, the second row being IP / {ip} |
| Files.FileManager.SaveMods | files.py:108-111 | only the mods path changes, to the text as given |
| Files.FileManager.LoadMods | files.py:93-106 | an existing file is returned as read and never replaced; a missing one is created empty |
| Files.FileManager.SaveCustomInfo | files.py:131-134 | only the custom-info path changes |
| Files.FileManager.LoadCustomInfo | files.py:113-129 | load-or-default with the default {sections: []} |

## Left out

- Flask routing, templates, `render_template`, the hard-coded `CONFIG` and the server start (app.py:1-14, 33-50). Only the logic inside `load_mods` and `pictures` is modelled.
- File system access in app.py (`os.path.exists`, `open`, `os.listdir`). A missing file or directory is an `Option` argument. The directory listing is taken in the order the operating system returns it.
- SQLite connections, SQL text, commits and the `id` column (database.py:8-40). Tables are maps keyed by their UNIQUE column.
- `CURRENT_TIMESTAMP`. The clock is an argument `now`.
- werkzeug's `generate_password_hash` and `check_password_hash`. Hashes are opaque text computed outside, and the checker is a parameter about which nothing is assumed. `create_default_admin` therefore receives the hash of "pass123".
- Console `print` output (database.py:54, 62).
- Database.MetadataStore.ChangePassword: does not model the storage-failure path that returns false (database.py:133-135), because SQLite errors are outside the model.
- Database.MetadataStore.CreateAdmin: the UNIQUE violation that makes sqlite3 raise is reported as `ok == false`. The Python function returns nothing.
- `os.makedirs` in files.py (directory creation, files.py:15-17, 22). JSON formatting (`indent=2`) and failures of `open` other than a missing file are also left out. `parse` stands for reading and decoding a file, `serialize` for encoding a document.
- Writes in text mode are taken to store the text as given (POSIX line endings).
- JSON and JavaScript numbers are limited to integers. Floats, NaN, Infinity and number formatting beyond integers are not modelled.
- JsValues.Decimal: integers are unbounded, so `String(n)` is plain digits for every integer. JavaScript prints 10^21 and above in exponent form ("1e+21") and rounds integers above 2^53 to the nearest double.
- JsValues.ParseInt: reads an unbounded integer from the digits. JavaScript's `parseInt` returns a double, which rounds above 2^53.
- JsValues.ParseIntDecimal: stated for safe integers only (at most 2^53 - 1 in size). Beyond them, exponent form and rounding break the round trip, and neither is modelled.
- Admin.FileSizeReload: stated for safe integer sizes only, for the same reason. A stored size of 10^21 shows as "1e+21" and comes back as 1.
- Unicode whitespace, case mapping and digits. Only ASCII is modelled for `strip`, `trim`, `lower`, `toLowerCase`, `toUpperCase` and `parseInt`.
- Escaping.UnescapeJs: numeric (`\x..`, `\u....`, octal) escapes and line continuations are treated as unreadable instead of decoded. The escapers never produce them.
- Escaping.DecodeEntities: the browser decodes every character reference in one pass. The model uses the five-entity replace chain, which agrees with the browser on escaper output.
- All DOM work in both scripts. This covers element creation, the markup templates, the lightbox, animations, tabs, notifications, drag and drop, the `fetch` calls and `location.reload`. A request is reduced to its outcome, and the grid to its sequence of cards.
- The 300 ms `setTimeout` in `confirmDelete` (static/scripts/pictures.js:161). The removal happens when the answer arrives, with no other event in between.
- Pictures.Gallery.ConfirmDelete: keeps the grid equal to the loaded prefix of `allImages` only when file names are distinct. With a duplicate name, the source splices the first image with that name, which need not be the clicked card's.
- Pictures.Gallery.DeleteImage: the pending button is identified by its card's position in the grid. Its file name is the card's own.
- `editImage`, `cancelEdit`, `openLightbox`, `closeLightbox` and `uploadImage` in pictures.js. They only touch the DOM or send requests; `cancelEdit` restores the texts the card already shows.
- Pictures.Gallery.ShowsLoaded: `initGallery` establishes it, and loading, uploading and deleting keep it. A saved edit (`SaveImage`) changes the title and description a card records without touching `allImages`, so after the first saved edit only the file names still match the loaded images.
- The other admin tabs (details rows, mods editor, custom sections) and `addExtRow`. They only move form values to and from requests.
- Admin.SizeUnitField: a form control that rejects a value outside its options is not modelled. The field holds the text it is given.
- Server-side upload handling, filename sanitization and collision renaming. They are not part of this model.
- Concurrency between requests and between browser events.

## Findings

| source | as written | input that shows it | evidently intended | confidence | as-written member | corrected member |
|---|---|---|---|---|---|---|
| static/scripts/pictures.js:116 | `escJs` escapes backslash, single quote and line feed, but leaves a carriage return raw | a title or description containing "\r" | the `openLightbox` literal reads back as the original text | high, not executed | Escaping.JsEscapeCarriageReturn | Escaping.JsEscapeFixed |
| static/scripts/pictures.js:93 | `escJs` output is written into a double-quoted `onclick` attribute without HTML escaping | a title `a"b` | the title reaches `openLightbox` unchanged | medium, not executed | Escaping.JsEscapeInAttribute | Escaping.InlineArgument |
| static/scripts/pictures.js:83 | `esc(filename)` is used as a single-quoted literal inside `onclick`, and the attribute decodes `&#39;` back into `'` | a file named `it's.png` | `deleteImage` receives the file name | medium, not executed | Escaping.HtmlEscapeAsJsLiteral | Escaping.InlineArgument |

The corrected members are proved: `Escaping.JsFixedRoundTrip` shows the corrected chain reads
back every text, and `Escaping.InlineArgumentRoundTrip` shows the browser recovers the text
after decoding the attribute and parsing the literal.
