# family-photo gallery: a Dafny model of its core

family-photo is a small self-hosted photo and video gallery. Visitors upload
files with descriptions. The server stores each file in a flat `uploads`
directory and records `{filename, description}` in an ordered JSON list,
`media.json`. HEIC photos are converted to JPEG when they are uploaded. The
gallery tags each record as an image or a video by its extension. Visitors
can react with emoji; votes are deduplicated per (client address, browser
uuid) pair and kept in `reactions.json`. Two one-shot scripts walk the stored
records and convert leftover HEIC photos to JPEG and QuickTime `.mov` videos
to MP4, renaming each record whose conversion succeeds.

This project models that core and proves what it promises:

- `Paths`: Node's `path.extname` on POSIX names, ASCII lower-casing and the
  anchored, case-insensitive suffix replacement `name.replace(/\.heic$/i, '.jpg')`.
- `ClientIp`: the client address rule, `split(',')[0].trim()`, with
  JavaScript's full set of white-space characters.
- `Reactions`: the reaction document, a map from file name to emoji to
  `{count, users}`, and the `POST /react` handler as a class over the stored
  document.
- `MediaStore`: media records, what one conversion attempt does to the
  uploads directory, and the `Library` class holding `media.json` and the
  directory.
- `Fold`: the shape shared by the upload loop and the migration loops. The
  items are visited in order, a state is threaded through, and one value is
  emitted per item.
- `Upload`: the `POST /upload` handler, an imperative loop over the uploaded
  files.
- `GalleryView`: the type classification of `GET /`.
- `Migration`: the pass the two scripts share, as a loop over an array that
  renames records in place. `HeicMigration` and `MovMigration` are the two
  scripts, each instantiating the pass with its own pair of extensions.

Every conversion is an external call: heic-convert, or ffmpeg run with
`execSync`. Its result is a parameter `outcome: nat -> Outcome`, indexed by
the position of the file or record, with three values:

- `Converted`: the new file was written and the old one removed.
- `Failed`: the attempt threw before anything was written.
- `RemoveFailed`: the new file was written, but removing the old one threw.

When the stored file of a HEIC upload is missing, the read at `server.js`
132 throws, so that conversion fails whatever the outcome. The scripts never
attempt a record whose file is missing, because `fs.existsSync` is part of
their guard (`Migration.Eligible`). The clock (`Date.now()`), the socket's
remote address and the request body are parameters too.

Two behaviours of the code shape the model:

- The server treats an absent or unparseable `media.json` as empty. The two
  scripts parse it at top level without a `try` and throw before doing
  anything, so `Migration.Run` returns `false` and changes nothing.
- When `writeFileSync` succeeds and `unlinkSync` throws, the new file sits
  next to the old one and the record keeps its old name (`RemoveFailed`).

## Model

| member | source | states |
|---|---|---|
| Reactions.Truthy | server.js:162 | The `!filename \|\| !emoji \|\| !uuid` test, as a definition. Its meaning is stated by `Reactions.ReactionStore.React`'s 400 case. |
| Reactions.EntryOf | server.js:171-174 | The entry looked up, or the fresh `{count: 0, users: []}`, as a definition. Its meaning is stated by `Reactions.RecordNewReactor` and `Reactions.Record`. |
| Reactions.Record | server.js:171-184 | The key sets grow by exactly the file and, under it, the emoji. A reactor already present leaves the document unchanged. Every other file and every other emoji of the same file are unchanged. What happens to the entry for a new reactor (count + 1, reactor appended) is stated by `Reactions.RecordNewReactor`. |
| Reactions.RecordNewReactor | server.js:171-182 | A new reactor turns the entry, or the fresh `{count: 0, users: []}` when there is none, into count + 1 with the reactor appended to `users`. |
| Reactions.RecordIdempotent | server.js:176-184 | Reacting twice with the same (ip, uuid) gives the same document as reacting once. |
| Reactions.AppendNew | server.js:176-182 | Appending a reactor that is not yet present keeps `users` free of duplicates. |
| Reactions.RecordKeepsInvariant | server.js:171-184 | If every entry's count equals the number of its users and no user appears twice, that still holds after a reaction. |
| Reactions.ReactionStore.Loaded | server.js:166-169 | The document the handler reads, `{}` when `reactions.json` is absent, as a definition. Its meaning is stated by `Reactions.ReactionStore.React`, whose contract is written in it. |
| Reactions.ReactionStore.React | server.js:158-187 | A missing or empty filename, emoji or uuid answers 400 and leaves the document and the write count alone. Otherwise the answer is the entry's count after recording the vote. The document is rewritten exactly once when the (ip, uuid) pair is new, and not at all when it already voted. The `ip` is `ClientIp.ClientIp` of the `x-forwarded-for` header and the remote address (server.js:160). A document in which every count equals the number of its distinct users stays so. |
| Reactions.SunsetScenario | server.js:171-186 | Votes (A, X), (A, X), (A, Y) on one file and emoji give counts 1, 1, 2. |
| ClientIp.IsJsSpace | server.js:27 | The characters `trim` removes, as a definition. Its meaning is stated by `ClientIp.TrimEmptyIff`, `ClientIp.TrimIsSlice` and `ClientIp.ForwardedForRoundTrip`. |
| ClientIp.TrimStartAt | server.js:27 | The text starts at the first position from `i` on that is not white space, or at the end; everything skipped is white space. |
| ClientIp.TrimEndAt | server.js:27 | The text of `s[lo..j]` ends just after its last character that is not white space, or at `lo`; everything cut off is white space. |
| ClientIp.Trim | server.js:27 | The result neither starts nor ends with white space. |
| ClientIp.TrimIsSlice | server.js:27 | What `trim` keeps is a contiguous slice of the input, with only white space on either side of it. |
| ClientIp.TrimEmptyIff | server.js:27 | `trim` gives "" exactly when the input is all white space. |
| ClientIp.TrimCommaFree | server.js:27 | Trimming a comma-free string leaves it comma-free. |
| ClientIp.FirstField | server.js:27 | `split(',')[0]` is the longest comma-free prefix: a prefix of the input with no comma, followed by a comma or by the end. |
| ClientIp.ClientIp | server.js:26-27 | An absent header, or a blank first field, gives the remote address. A header whose first field is not blank gives a non-empty, comma-free text that neither starts nor ends with white space; `ClientIp.ForwardedForRoundTrip` proves it is exactly the trimmed first field. |
| ClientIp.FirstFieldOf | server.js:27 | A comma-free string followed by a comma, or by nothing, is the first field. |
| ClientIp.TrimStartAtIs | server.js:27 | The start position is unique: white space up to `k` and a non-space at `k`, or the end, means the text starts at `k`. |
| ClientIp.TrimEndAtIs | server.js:27 | The end position is unique: white space from `k` on and a non-space just before `k`, or `k == lo`, means the text ends at `k`. |
| ClientIp.ForwardedForRoundTrip | server.js:26-27 | A header whose first entry is `ip` padded with white space yields exactly `ip`, whatever follows the first comma and whatever the remote address. |
| Paths.ExtnameShape | server.js:78 | `path.extname` is "" or a dot followed by dot-free text. |
| Paths.HasExtIff | server.js:122 | `path.extname(p).toLowerCase() === e`, for an extension constant `e`, holds exactly when `p`, without its trailing slashes, ends with `e` in any letter case after a character that exists and is not '/'. |
| Paths.RenameKeepsSlashName | server.js:128 | The anchored replacement leaves a name ending in '/' unchanged. |
| Paths.RenameToTarget | server.js:128 | On a name with the legacy extension and no trailing '/', the replacement swaps its last \|legacy\| characters for the target extension, and the new name has the target extension. |
| Paths.AppendExt | server.js:128 | A stem that does not end in '/', followed by an extension constant, has that extension. |
| Paths.EndsWithExt | server.js:127-128 | A name with extension `e` and no trailing '/' matches `/e$/i`, after a character that is not '/'. |
| Paths.EndsWithCiAfterPrefix | server.js:37 | A name that matches an anchored suffix pattern still matches it with any prefix in front (one direction only; the converse needs the prefix to end in '-'). |
| Paths.EndsWithCiAfterDash | server.js:37 | Behind a prefix ending in '-', a name matches an anchored pattern for a suffix without '-' exactly when it matches on its own, in both directions. |
| Paths.LowerCharIdempotent | server.js:78 | Lower-casing a character twice is the same as lower-casing it once. |
| Paths.LowerOfLower | server.js:78 | Text that is already lower case is unchanged by `toLowerCase`. |
| Paths.Lower | server.js:78 | `toLowerCase` keeps the length. Kept as a definition; what it does to extensions is stated by `Paths.LowerOfExt`, `Paths.LowerOfLower` and `GalleryView.FoldedExtShape`. |
| Paths.HasExt | server.js:122 | `path.extname(p).toLowerCase() === e`, as a definition; the same test is at server.js:127, convert-existing-heic.js:13 and convert-existing-mov.js:12-14. Its meaning is stated by `Paths.HasExtIff`. |
| Paths.Extname | server.js:78 | `path.extname`, as a definition without a contract of its own. Its meaning is stated by `Paths.ExtnameShape` (the shape of the result) and `Paths.HasExtIff` (which names have a given extension); the same call is made at server.js:122, convert-existing-heic.js:13 and convert-existing-mov.js:12. |
| Paths.EndsWithCi | server.js:81 | The `/<suffix>$/i` test, as a definition. Its meaning is stated by `Paths.EndsWithExt`, `Paths.EndsWithCiAfterDash` and `GalleryView.SuffixMatchIsWhole`. |
| Paths.ReplaceSuffixCi | server.js:128 | `replace(/<legacy>$/i, <target>)`, as a definition. Its meaning is stated by `Paths.RenameKeepsSlashName` and `Paths.RenameToTarget`; the same call is at convert-existing-heic.js:14 and convert-existing-mov.js:15. |
| MediaStore.KnownConversionsValid | server.js:127-128 | .heic, .jpg, .mov and .mp4 are lower-case extension constants, and each conversion's two extensions differ. |
| MediaStore.TargetName | server.js:128 | The converted file's name, as a definition. Its meaning is stated by `Migration.RenamedName` and `Migration.TargetNameShape`, and for uploads by `Upload.StoredHeicTarget`; the same call is at convert-existing-heic.js:14 and convert-existing-mov.js:15. |
| MediaStore.Load | server.js:41-47 | `loadMediaMetadata()`, as a definition. Its meaning is stated by `GalleryView.Gallery` and `Upload.Handle`. |
| MediaStore.AfterConversion | server.js:131-145 | A failed attempt leaves the directory alone. Otherwise the new file is there, unless the new name is the old one and the old file was removed; the old file is gone only after full success; a failed removal loses nothing; no other name changes. |
| GalleryView.IsVideoExt | server.js:81 | `/\.(mp4\|webm\|ogg)$/i.test(ext)`, as a definition. Its meaning on folded extensions is stated by `GalleryView.SuffixMatchIsWhole`. |
| GalleryView.TypeOf | server.js:78-81 | The type of a file name, as a definition. Its meaning is stated by `GalleryView.VideoIff` and `GalleryView.MovIsImageMp4IsVideo`. |
| GalleryView.View | server.js:77-83 | One item per record, in the same order, with the record's filename and description and the type of its filename. |
| GalleryView.Gallery | server.js:41-47 | An absent or unreadable document shows an empty gallery. Otherwise there is one item per stored record. |
| GalleryView.FoldedExtShape | server.js:78 | The lower-cased extension is "" or one dot followed by dot-free lower-case text. |
| GalleryView.SuffixMatchIsWhole | server.js:81 | On such an extension, the anchored pattern for `.mp4`, `.webm` or `.ogg` matches exactly when the extension is that constant. |
| GalleryView.VideoIff | server.js:78-81 | A record is a video exactly when its extension, in any letter case, is .mp4, .webm or .ogg. It is an image otherwise. |
| GalleryView.MovIsImageMp4IsVideo | server.js:78-81 | A .mov file is shown as an image and an .mp4 file as a video. |
| Fold.Scan | server.js:120-152 | The first `n` iterations emit exactly `n` values. |
| Fold.ScanStable | server.js:120-152 | Later iterations never change a value already emitted. |
| Fold.ScanAt | server.js:120-152 | The value for item `k` is what iteration `k` makes of it, in the state the earlier iterations left. |
| Upload.Decimal | server.js:37 | The timestamp is written as a non-empty string of decimal digits that denotes `now` (its `DigitsValue` is `now`), with no leading zero unless `now` is 0. |
| Upload.StoredName | server.js:37 | `Date.now() + "-" + originalname`, as a definition. Its meaning is stated by `Upload.Decimal` and `Upload.StoredNameEndsWith`. |
| Upload.StoredNameEndsWith | server.js:37 | The stored name matches `/\.heic$/i` exactly when the original name does. |
| Upload.Pick | server.js:150 | `descriptions[i] \|\| ''`, as a definition. Its meaning, together with `Upload.Description`, is stated by `Upload.Normalise`. |
| Upload.Description | server.js:150 | The description recorded for file `i` (after the normalisation at server.js:112-116), as a reference definition. `Upload.Normalise` proves it equal to `Pick` on the normalised list. |
| Upload.Normalise | server.js:112-116 | The normalised list's `descriptions[i] \|\| ''` is, for every index, the value sent at that index; a single value counts for index 0 and everything else is "". |
| Upload.Store | server.js:122-146 | The recorded name is the stored name or its `.heic`→`.jpg` replacement. A file whose original name lacks extension .heic is recorded under its stored name, and the directory is untouched. |
| Upload.StoreFile | server.js:122-146 | The method's recorded name and new directory are those of `Store`. |
| Upload.UploadPass | server.js:120-152 | The whole upload loop, as a definition; `Upload.Handle` is proved equal to it, and `Upload.UploadRecordAt` states each of its records. |
| Upload.UploadVisit | server.js:120-152 | After `n` iterations there are exactly `n` new records. |
| Upload.UploadNext | server.js:120-152 | Each iteration appends exactly one record, for its file, with the description at its own index. |
| Upload.UploadRecordAt | server.js:120-152 | Record `k` has description `k`. Its name is the JPEG's exactly when the original name has extension .heic, the stored file exists when the loop reaches it, and the conversion succeeds; otherwise it is the stored name. |
| Upload.HeicUploadStoredAsJpg | server.js:37 | A HEIC upload at time `now` whose conversion succeeds is recorded as `<now>-<name without its last 5 characters>.jpg`, a name with extension .jpg. The JPEG exists and the HEIC file is gone. |
| Upload.HeicUploadKeptOnFailure | server.js:142-145 | A HEIC upload whose conversion fails, or whose stored file is missing, keeps its stored name, and no file is removed. |
| Upload.Handle | server.js:110-156 | The stored list becomes the loaded list (empty when unreadable) followed by the pass's records. The directory is the pass's, and `media.json` is written exactly once. |
| Migration.Eligible | convert-existing-heic.js:13 | The loop's guard, as a definition; the MOV script's is convert-existing-mov.js:14. Its meaning is stated by `Migration.Step` and `Migration.PassRecordAt`. |
| Migration.Step | convert-existing-heic.js:12-32 | One iteration keeps the description. It either keeps the record or renames it to its target name, and leaves a record that is not eligible, and the directory, alone. |
| Migration.Visit | convert-existing-heic.js:11-33 | After `n` iterations exactly `n` records have been visited. |
| Migration.VisitNext | convert-existing-heic.js:11-33 | Each iteration applies one step to the next record on top of the state so far. |
| Migration.PassRecordAt | convert-existing-heic.js:11-33 | Record `k` is renamed to its target exactly when it has the legacy extension, its file exists when the loop reaches it, and its conversion succeeds. Otherwise it is unchanged. |
| Migration.Pass | convert-existing-heic.js:11-33 | The whole migration loop, as a definition; `Migration.Run` is proved equal to it, and `Migration.PassRecordAt` and `Migration.PassKeepsRecords` state its records. |
| Migration.PassKeepsRecords | convert-existing-heic.js:11-33 | The pass keeps the number and order of the records and every description. Each record is kept or renamed to its target name. |
| Migration.RenamedRecord | convert-existing-heic.js:13-27 | A changed record had the legacy extension and no trailing '/'. Its new name is the old one with its last \|legacy\| characters replaced by the target extension, which is then its extension, and its description is kept. |
| Migration.RenamedName | convert-existing-heic.js:14 | A legacy name that the replacement changes does not end in '/', and it gets the target extension. |
| Migration.DistinctByExt | convert-existing-heic.js:13-14 | Names whose extensions are different constants are different names. |
| Migration.TargetNameShape | convert-existing-heic.js:14 | A legacy name's target is the same name or a name with the target extension. |
| Migration.StepKeepsTargets | convert-existing-heic.js:25-26 | An iteration never removes a file that has the target extension. |
| Migration.StepAddsNoLegacy | convert-existing-heic.js:25-26 | An iteration never creates a file with the legacy extension. |
| Migration.VisitFrame | convert-existing-heic.js:11-33 | From any iteration to the end of the pass, no target-extension file disappears and no legacy-extension file appears. |
| Migration.StepRenames | convert-existing-heic.js:25-27 | A successful conversion that changes the name leaves the new file and removes the old one. |
| Migration.ConvertedSurvives | convert-existing-heic.js:25-27 | A record converted at iteration `k` still has its new file at the end of the pass, and the old file is still gone. |
| Migration.RenamedFilesOnDisk | convert-existing-heic.js:25-27 | After the pass, every renamed record points at an existing file, and the file it was converted from is gone. |
| Migration.ConvertRecord | convert-existing-heic.js:12-32 | The loop body updates the array cell and the directory as `Step` says, and no other cell. |
| Migration.Run | convert-existing-heic.js:8-37 | A missing or unparseable `media.json` stops the script with nothing changed. Otherwise the stored list and the directory become those of the whole pass, and `media.json` is written exactly once, after the loop. |
| HeicMigration.ConvertExistingHeic | convert-existing-heic.js:8-37 | The HEIC script is the pass from .heic to .jpg, with `Run`'s guarantees. |
| HeicMigration.HeicRecordConverted | convert-existing-heic.js:13-27 | A record the HEIC pass changed has its last five characters replaced by ".jpg" and keeps its description. The JPEG exists, the HEIC file is gone, and the gallery shows the record as an image. |
| MovMigration.ConvertExistingMov | convert-existing-mov.js:7-32 | The MOV script is the pass from .mov to .mp4, with `Run`'s guarantees. |
| MovMigration.MovRecordConverted | convert-existing-mov.js:12-22 | A record the MOV pass changed has its last four characters replaced by ".mp4" and keeps its description. The MP4 exists and the MOV file is gone. The gallery showed the record as an image before and shows it as a video after. |

## Left out

- Express wiring, static files, views and rendering, the host redirect middleware (server.js:60-72) and the upload password gate (server.js:53-58, 96-108): these are routing and authentication, not the data core.
- The upload middleware: multer stores the files and enforces the 10-file limit before the handler runs. The model starts from the stored names it hands over.
- JSON parsing and printing: stored documents are values, or None when absent or unparseable. A `reactions.json` that exists but does not parse makes `POST /react` and `GET /` throw. This is not modelled: `Reactions.ReactionStore` treats None as absent only. Records without a string `filename` are not modelled either.
- A `media.json` that parses to something other than an array (`null`, an object, a string) makes `GET /` and `POST /upload` throw at `metadata.map` and `metadata.push` (server.js:77, 148); the upload then fails after the first file's conversion has run, with nothing saved. Such a document is not modelled: `MediaStore.Library` has no value for it, and `MediaStore.Load` reads None as `[]`. The scripts throw on it too, which `Migration.Run`'s None case covers.
- File-system I/O is reduced to a set of names. `path.join` normalisation is left out, so a name is found in the directory exactly as written.
- HEIC and ffmpeg transcoding are external calls; only their three outcomes are modelled. An ffmpeg run that fails after writing part of the MP4 is modelled as writing nothing (`Failed`).
- `async`/`await` and concurrent requests: every handler runs to completion on its own. Lost updates between concurrent read-modify-write cycles are not modelled.
- Logging (`console.log`, `console.warn`, `console.error`): no effect on state.
- Paths.Lower: case folding covers ASCII letters only. JavaScript's `toLowerCase` also folds other letters, but only two non-ASCII characters fold into ASCII: U+212A (Kelvin sign) becomes 'k', which is in no extension constant, and U+0130 becomes 'i' followed by U+0307, never a bare 'i'. So no file name gets a different verdict against `.heic`, `.mov`, `.mp4`, `.webm` or `.ogg`. The `/i` patterns without the `u` flag fold only ASCII.
- ClientIp.ClientIp: the remote address is a string. The case where `req.connection.remoteAddress` is undefined is not modelled.
- Reactions.ReactionStore.React: body fields are optional strings. Non-string JSON values (numbers, arrays, objects) and keys inherited from `Object.prototype` are out of the model's domain.
- Upload.Decimal: `Date.now()` is a parameter, the current time in milliseconds as a natural number.
- The reaction map in `GET /` (server.js:85-87) is passed through to the page unchanged and carries no logic to model.
