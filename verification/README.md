# mc_lang `Update` — a verified model

`Update.java` is a one-shot script. It fetches Minecraft's version manifest and finds release `1.13`. From that release's client manifest and asset index it downloads `client.jar` and checks its SHA-1. It extracts `assets/minecraft/lang/en_us.json` from the jar and deletes the jar. Then it walks a fixed list of sixteen further language codes. For each code whose key the asset index holds, it downloads the file from the content-addressed resource host and checks its SHA-1. Codes the index lacks are skipped. Everything is written under `full/`, and `version.txt` goes beside that directory.

This project models the script's own logic in Dafny and proves what it does:

- `Hex` (hex.dfy) renders a SHA-1 digest as lowercase hex, two digits per byte. It uses Java's signed `byte` with `%02x`'s unsigned reading. The module also has a decoder that inverts the rendering, and the `StringBuilder` loop as a verified method.
- `CaseInsensitive` (caseinsensitive.dfy) models `String.equalsIgnoreCase`, the test both checksum checks use.
- `VersionLookup` (versionlookup.dfy) models the scan of the manifest's `versions` for the first entry whose `id` is the configured version.
- `Languages` (languages.dfy) holds the fixed list of sixteen codes and the filter by asset-index key. It also builds the URL `https://resources.download.minecraft.net/<hash[0..2]>/<hash>` and reads a hash back from it.
- `Layout` (layout.dfy) gives the file names: `version.txt`, `full/client.jar`, `full/en_us.json` and `full/<code>.json`.
- `Update` (update.dfy) models the run itself. It is a function over an abstract file system, a map from path to bytes, and an event log of HTTP requests and printed lines. The outside world is an `Env` value: the parsed manifest, the parsed documents and raw bytes behind each URL, the entries of a ZIP archive, and the SHA-1 function. The parsed manifest is a sequence of entries; the rest are uninterpreted function fields.
- `RunProperties` (runproperties.dfy) has one lemma per branch of a whole run.

Exceptions that the script's own logic can raise are modelled as endings of the run:
- `Crashed(ShortHash(code))` is `hash.substring(0, 2)` on a hash shorter than two characters.
- `Crashed(UnreadableArchive)` is `new ZipFile` on bytes that are not an archive.

Files written before such an exception stay written.

Some facts about the script that the model keeps:
- The script processes only the hard-coded version `1.13`.
- The languages come from a fixed list of sixteen codes, never from a scan of the index's keys.
- On an archive checksum mismatch the script returns without deleting `client.jar`. The model keeps the jar in the file map, and `RunStopsOnArchiveMismatch` states this.
- Language files are always downloaded and overwrite whatever is already there.

## Model

| member | source | states |
|---|---|---|
| Hex.Unsigned | src/main/java/org/tsob/mc_lang/Update.java:117 | `%02x` reads a Java byte as unsigned: the result is below 256 and congruent to the byte mod 256, so -1 is 255 |
| Hex.ByteHex | src/main/java/org/tsob/mc_lang/Update.java:117 | each byte gives exactly two lowercase hex digits, high digit first, whose value is the byte's unsigned reading |
| Hex.HexOf | src/main/java/org/tsob/mc_lang/Update.java:115-118 | an n-byte digest renders to 2·n characters, all from `0-9a-f`, and characters 2i and 2i+1 are byte i's two digits |
| Hex.RenderDigest | src/main/java/org/tsob/mc_lang/Update.java:115-118 | the append-per-byte builder loop yields exactly the rendering above, of length 2·n |
| Hex.UnhexHexOf | src/main/java/org/tsob/mc_lang/Update.java:115-118 | decoding the rendering returns the original digest (round trip) |
| Hex.HexOfUnhex | src/main/java/org/tsob/mc_lang/Update.java:115-118 | every hex text the decoder accepts is the rendering of its result, so the lowercase rendering is the only spelling |
| Hex.HexOfInjective | src/main/java/org/tsob/mc_lang/Update.java:115-118 | two different digests never render to the same text |
| Hex.HexOfSnoc | src/main/java/org/tsob/mc_lang/Update.java:116-117 | appending one byte appends exactly that byte's two digits |
| CaseInsensitive.EqualsIgnoreCaseIffSameLower | src/main/java/org/tsob/mc_lang/Update.java:61 | `equalsIgnoreCase` holds exactly when both texts agree after lower-casing, in both directions |
| CaseInsensitive.CharsMatchIffSameLower | src/main/java/org/tsob/mc_lang/Update.java:61 | two characters match, ignoring case, exactly when their lower-case forms are equal |
| Update.ChecksumIgnoresCase | src/main/java/org/tsob/mc_lang/Update.java:61 | a published hash passes the check exactly when, lower-cased, it equals the digest's rendering |
| Update.CaseVariantHashAccepted | src/main/java/org/tsob/mc_lang/Update.java:61 | a published hash in any mix of upper and lower case passes whenever, lower-cased, it is the digest's rendering |
| Update.UpperCaseHashAccepted | src/main/java/org/tsob/mc_lang/Update.java:89 | in particular the all-capitals spelling of the digest passes the language check |
| VersionLookup.FindVersion | src/main/java/org/tsob/mc_lang/Update.java:32-42 | the lookup finds nothing exactly when no entry has the id; otherwise it returns the first position holding it |
| VersionLookup.FindFrom | src/main/java/org/tsob/mc_lang/Update.java:33-38 | the scan from a position stops at the first matching entry at or after it, or finds none there |
| VersionLookup.FirstMatchUnique | src/main/java/org/tsob/mc_lang/Update.java:33-38 | whenever position i is the first match, the lookup returns exactly i |
| Languages.CodeOfKey | src/main/java/org/tsob/mc_lang/Update.java:83 | any code read back from an index key is one whose key is exactly that text |
| Languages.CodeOfKeyLangKey | src/main/java/org/tsob/mc_lang/Update.java:83 | reading a code's key back returns the code (round trip) |
| Languages.LangKeyInjective | src/main/java/org/tsob/mc_lang/Update.java:83 | two different codes never share an index key |
| Languages.SelectLanguages | src/main/java/org/tsob/mc_lang/Update.java:78-84 | the selected codes are listed codes whose key the index holds, and there are no more of them than listed codes |
| Languages.SelectLanguagesComplete | src/main/java/org/tsob/mc_lang/Update.java:82-84 | a code is selected if and only if it is listed and its key is in the index; absent keys are skipped |
| Languages.SelectLanguagesAppend | src/main/java/org/tsob/mc_lang/Update.java:82 | selection distributes over concatenation of the list, so selected codes keep list order |
| Languages.LangListExcludesEnUs | src/main/java/org/tsob/mc_lang/Update.java:78-81 | `en_us` is not among the sixteen downloaded codes |
| Languages.ResourceUrl | src/main/java/org/tsob/mc_lang/Update.java:86 | a URL exists exactly when the hash has at least two characters, and the hash can be read back from it |
| Languages.ResourceUrlInjective | src/main/java/org/tsob/mc_lang/Update.java:86 | different hashes give different download URLs |
| Layout.OutputPath | src/main/java/org/tsob/mc_lang/Update.java:87 | a language is written to a path inside `full/` that ends in `.json` |
| Layout.OutputPathInjective | src/main/java/org/tsob/mc_lang/Update.java:87 | two different codes never share an output file |
| Layout.OutputPathAvoids | src/main/java/org/tsob/mc_lang/Update.java:59-87 | a language file is never `version.txt` or `client.jar`, and is `en_us.json` only for the code `en_us` |
| Update.LanguageStep | src/main/java/org/tsob/mc_lang/Update.java:83-91 | one iteration fails, naming its code, exactly when the index holds the code's key with a hash shorter than two characters; otherwise it carries on |
| Update.LanguageLoop | src/main/java/org/tsob/mc_lang/Update.java:82-93 | the loop completes if and only if every listed code in the index has a usable hash; a failure names a listed code in the index whose hash is too short (the first such code, by `Update.LoopCrashFirst`) |
| Update.LanguageMismatchOnlyLogged | src/main/java/org/tsob/mc_lang/Update.java:88-91 | a language checksum mismatch writes the file, requests its URL, prints `<code>.json SHA1 mismatch!` and carries on |
| Update.LoopCrashFirst | src/main/java/org/tsob/mc_lang/Update.java:82-88 | a loop that ends early stops at the first listed code in the index whose hash is too short: all earlier codes have usable hashes, and the state is the one reached by running the loop over exactly those earlier codes |
| Update.LoopCrashKeepsEarlierFiles | src/main/java/org/tsob/mc_lang/Update.java:82-88 | when the loop stops early at position k, every code listed before k that the index holds has its file holding the bytes its URL served |
| Update.LoopFrame | src/main/java/org/tsob/mc_lang/Update.java:82-93 | the loop changes no file except the output paths of selected codes, even when it fails part way |
| Update.LoopRequests | src/main/java/org/tsob/mc_lang/Update.java:82-93 | with usable hashes the loop completes; its requests are the selected codes' URLs in list order, and its lines are their mismatch reports |
| Update.LoopWrites | src/main/java/org/tsob/mc_lang/Update.java:85-88 | with usable hashes every selected code's file holds the bytes its URL served |
| Update.LoopKeepsFixedFiles | src/main/java/org/tsob/mc_lang/Update.java:82-93 | when no code is `en_us`, the language loop leaves `version.txt`, `client.jar` and `en_us.json` as they were |
| Update.LoopExtendsLog | src/main/java/org/tsob/mc_lang/Update.java:82-93 | the loop only appends to the log |
| Update.Extracted | src/main/java/org/tsob/mc_lang/Update.java:66-75 | after extraction the archive is gone, `en_us.json` holds the archive's entry when there is one and is otherwise as before, and every other file is as before |
| Update.FinishMessages | src/main/java/org/tsob/mc_lang/Update.java:88-95 | with usable hashes and a log with no printed lines so far, the printed lines of the loop and the closing line are the mismatch reports in list order followed by "Done" |
| RunProperties.RunAlwaysWritesVersionTxt | src/main/java/org/tsob/mc_lang/Update.java:23-30 | on every branch the run requests the manifest first and leaves `version.txt` holding `1.13` |
| RunProperties.RunFrameAfterExtraction | src/main/java/org/tsob/mc_lang/Update.java:59-93 | once the first match's archive passes its checksum and opens, a file other than `version.txt`, the archive, `en_us.json` and the indexed languages' outputs is left as it was |
| RunProperties.RunVersionNotFound | src/main/java/org/tsob/mc_lang/Update.java:29-42 | "Version not found." ends the run exactly when no entry has id `1.13`; then only `version.txt` was written and only the manifest was requested |
| RunProperties.RunFetchesFirstMatch | src/main/java/org/tsob/mc_lang/Update.java:44-60 | a found run requests the manifest, then the first matching entry's client manifest, its asset index and its archive, in that order |
| RunProperties.RunStopsOnArchiveMismatch | src/main/java/org/tsob/mc_lang/Update.java:56-64 | an archive mismatch ends the run at once: `client.jar` stays, `en_us.json` and all language files are untouched, and no language is requested |
| RunProperties.RunUnreadableArchive | src/main/java/org/tsob/mc_lang/Update.java:67 | archive bytes that do not open end the run before extraction, with `client.jar` left in place |
| RunProperties.RunExtractsEnUs | src/main/java/org/tsob/mc_lang/Update.java:66-75 | once the first match's archive passes its checksum and opens, `en_us.json` holds the archive's entry when there is one and is otherwise left as it was; `client.jar` is gone and `version.txt` remains |
| RunProperties.RunDownloadsLanguages | src/main/java/org/tsob/mc_lang/Update.java:77-95 | when the first match's archive passes its checksum and opens and every listed hash in the index is usable, the run completes, and after the archive it requests exactly the selected languages' URLs in list order |
| RunProperties.RunReportsMismatches | src/main/java/org/tsob/mc_lang/Update.java:88-95 | when the first match's archive passes its checksum and opens and every listed hash in the index is usable, the run prints only the mismatch line of each selected language whose checksum fails, in list order, then "Done" |
| RunProperties.RunWritesLanguageFile | src/main/java/org/tsob/mc_lang/Update.java:82-88 | when the first match's archive passes its checksum and opens and every listed hash in the index is usable, a listed language's file holds its download when the index has the code, and is untouched otherwise |
| RunProperties.RunCompletesIffHashesUsable | src/main/java/org/tsob/mc_lang/Update.java:85-86 | once the first match's archive passes its checksum and opens, the run completes if and only if every selected hash has at least two characters, and otherwise stops at a selected code with a short hash (the first such code, by `RunProperties.RunCrashKeepsEarlierFiles`) |
| RunProperties.RunCrashKeepsEarlierFiles | src/main/java/org/tsob/mc_lang/Update.java:82-88 | once the first match's archive passes its checksum and opens and some listed code in the index has a hash shorter than two characters, the run crashes, stopping at the first listed code in the index whose hash is too short, with every earlier selected code's file written as its URL served it |

## Left out

- HTTP and the network: requests are recorded as events, and responses come from `Env`'s function fields. A failed request or unparsable JSON would throw and end the run. The model's fetches are total, so this is not modelled.
- Jackson JSON navigation: the manifest, client manifest and asset index are already-parsed datatypes with only the fields the script reads. A missing field, which would be a null dereference, is not modelled.
- ZIP decoding: an archive is a map from entry name to bytes, or nothing when the bytes are not an archive. An I/O failure while copying an entry is not modelled.
- SHA-1 itself and the 8192-byte streaming into `MessageDigest`: `Env.sha1` is an uninterpreted function from bytes to digest bytes.
- Directory creation, absolute-path resolution and the atomicity of `REPLACE_EXISTING`: the file system is a map, and each write replaces one entry.
- Console output: it is kept only as `Message` events in the log.
- CaseInsensitive.CharsMatch: only ASCII case mapping is modelled. Java's `equalsIgnoreCase` also folds non-ASCII letters. The texts compared here are hex digests and hashes.
- Languages.ResourceUrl: Dafny's string lengths count Unicode scalar values, not Java's UTF-16 code units, so `substring(0, 2)` is modelled on scalars. The two differ only for characters outside the Basic Multilingual Plane, which a hex hash never contains. `Update.LanguageStep`, `Update.LanguageLoop` and `RunProperties.RunCompletesIffHashesUsable` inherit this reading.
