# Card generator: a verified model

This project models the membership-card generator in `app.py`. A user uploads a
spreadsheet (CSV or XLSX) holding one row per member. The generator reads each
row into a record: name, card number, date, VIP flag and e-mail address. It
draws one card image per row onto a background template and saves it as a PNG
file in an output folder. It mails each card to the member when the row has an
address, and answers the upload with a ZIP archive of the folder. A JSON
endpoint makes the card for a single record.

The model has eight modules:

- `Wrappers` — `Option` and `Result`.
- `Text` — the Python string operations the code relies on:
  - `str.strip` and `str.split` over Python's whitespace set;
  - ASCII lower-casing and `endswith`;
  - `str(i)` of a row index;
  - `os.path.join` and the base name of a path.
- `Names` — `sanitize_filename` and `allowed_file`.
- `CardFormat` — `format_Card`.
- `Records` — the per-row decisions of `generate_cards_from_df`:
  - positional column binding and defaults;
  - VIP flag, template choice and e-mail subject;
  - the primary and fallback file names;
  - the notification.
- `Batch` — the row loop of `generate_cards_from_df`, as a state machine:
  - the state is the output folder, as a map from file name to the row that last wrote it, plus the list of notifications sent and whether the loop ended by an exception;
  - `GenerateCards` is the loop;
  - `Run` folds the per-row outcomes, and the lemmas about the run are stated against it.
- `Archive` — `zip_folder`, over the walk of a folder.
- `Routes` — the two request handlers, `index` (upload form) and `api_create_card`.

External effects become parameters:

- which files exist (`isFile`);
- which saves succeed (`canSave`);
- whether the output folder could be prepared;
- the table a spreadsheet reader produced, or its failure;
- the listing order of a folder.

A notification is recorded as the arguments of one call of
`send_email_with_attachment`.

### Behaviours worth knowing

1. **Output file names are not made unique.** No suffix is added on a collision: two rows whose sanitized name and card number agree are saved under the same name, and the later card silently replaces the earlier one (`Batch.OverwriteLosesEarlierCard`). Such a collision happens even for rows that differ: a space becomes `_`, the same character that joins the two parts, so ("John Doe", "1") and ("John", "Doe 1") both become `John_Doe_1.png` (`Records.DistinctRowsShareFileName`).
2. **Failures are not row-local.** A failing row is not skipped: a missing fallback template or a failed fallback save raises out of the loop. That ends the batch: `index` then reports the error, and `api_create_card` does not handle the exception. The model records this as `Status.Aborted`.
3. **The card-number formatter only cleans and re-spaces.** It keeps ASCII letters, digits and whitespace, then collapses runs of whitespace into single spaces (`CardFormat.FormatCardJoinsRuns`); it does not group the digits.
4. **The notification names the primary file even after a fallback save.** Its attachment is the path under the primary name, even when the card was saved under `card_{i}.png`.
5. **A dead branch in `api_create_card`.** The branch that answers "Card image not generated" cannot be reached. A run that does not raise always leaves exactly one `.png` file in the fresh folder (`Routes.OneRowRun`, `Routes.ApiCreateCard`).

## Model

| member | source | states |
|---|---|---|
| Text.Strip | app.py:151-152 | the result neither starts nor ends with whitespace, and it keeps every non-whitespace character of the input, in order |
| Text.StripPadded | app.py:151-152 | stripping a word padded with whitespace on both sides gives the word back |
| Text.SplitConcat | app.py:121 | the words of `split()`, concatenated, are exactly the non-whitespace characters of the input |
| Text.SplitAtRun | app.py:121 | `split()` breaks at a whitespace run of any length: a non-empty word without whitespace, followed by whitespace, is the first word, and the remaining words are those of the rest |
| Text.SplitSpaced | app.py:121 | words separated by non-empty whitespace runs, with any whitespace around them, split back into exactly those words |
| Text.SplitInherits | app.py:121 | when every character of the input has a property, every character of every word of `split()` has it too |
| Text.NatToString | app.py:183 | `str(i)` is a non-empty string of decimal digits, with no leading zero unless `i` is 0 |
| Text.NatToStringRoundTrip | app.py:183 | reading the decimal digits of `str(n)` back gives `n` |
| Text.NatToStringInjective | app.py:183 | different row indexes have different decimal forms |
| Text.BaseNameOfJoin | app.py:196-197 | a file name with no '/', joined to any folder, has itself as the base name of the path |
| Names.SanitizeFilename | app.py:130-133 | the result has at most 100 characters, and contains no space and none of the characters backslash, slash, asterisk, question mark, colon, double quote, angle brackets, pipe and newline |
| Names.ReplaceThenRemoveIsOnePass | app.py:131-132 | replacing spaces and then removing forbidden characters equals one pass that drops forbidden characters and turns spaces into '_' |
| Names.SanitizeIsCleanCharsCut | app.py:130-133 | sanitizing is that one-pass cleaning, cut to its first 100 characters |
| Names.SanitizeKeepsSafeName | app.py:130-133 | a name that is short enough and has no space and no forbidden character is left unchanged |
| Names.SanitizeUnchangedIff | app.py:130-133 | a name is unchanged by sanitizing if and only if it is such a safe name |
| Names.SanitizeIdempotent | app.py:130-133 | sanitizing twice gives the same as sanitizing once |
| Names.SanitizeJoinsWithUnderscore | app.py:131-133 | two safe names joined by a space sanitize to the two names joined by '_' |
| Names.Extension | app.py:117 | there is no extension if and only if the name has no dot; otherwise it is the dot-free text after the last dot |
| Names.ExtensionAt | app.py:117 | the extension of a name is exactly the text after its last dot |
| Names.AllowedFileByLastDot | app.py:116-117 | `AllowedFile` (`allowed_file`): an upload is accepted if and only if the text after its last dot, lower-cased, is `xlsx` or `csv` |
| Names.AllowedFileNeedsDot | app.py:117 | a name without a dot is rejected |
| Names.ExtensionOfLower | app.py:117 | lower-casing the name lower-cases its extension and keeps whether it has one |
| Names.AllowedFileIgnoresCase | app.py:117 | a name and its lower-cased form are accepted or rejected together |
| Names.AllowedFileByLastExtension | app.py:116-117 | a name made of any stem, a dot and a dot-free extension is accepted if and only if that extension, lower-cased, is `xlsx` or `csv`, whatever precedes the dot |
| Names.AllowedFileBareExtension | app.py:116-117 | `.csv` is accepted and `csv` is rejected, because only the text after the dot is looked at |
| CardFormat.FormatCard | app.py:119-122 | the result is single-space-separated words of ASCII letters and digits, and its non-space characters are exactly the ASCII letters and digits of the input, in order |
| CardFormat.JoinIsFormatted | app.py:121 | joining non-empty alphanumeric words with single spaces gives a formatted string |
| CardFormat.JoinKeepsWords | app.py:121 | the join loses no character of the words and adds only spaces |
| CardFormat.KeepThenDropSpaces | app.py:120-121 | removing everything but letters, digits and whitespace, then dropping the whitespace, leaves the ASCII letters and digits of the input |
| CardFormat.JoinSplitFormatted | app.py:121 | splitting a formatted string and joining it again gives it back |
| CardFormat.FormatCardKeepsFormatted | app.py:119-122 | a formatted card number is left unchanged |
| CardFormat.FormatCardUnchangedIff | app.py:119-122 | a card number is unchanged by formatting if and only if it is already formatted |
| CardFormat.FormatCardIdempotent | app.py:119-122 | formatting twice gives the same as formatting once |
| CardFormat.FormatCardJoinsRuns | app.py:119-122 | alphanumeric words separated by whitespace runs of any length, with any whitespace before the first word and after the last, format to the words joined by exactly one space each |
| CardFormat.FormatCardOfKept | app.py:119-122 | formatting depends only on the letters, digits and whitespace of the input: removing every other character first gives the same result |
| CardFormat.RemovedCharJoinsNeighbours | app.py:120-121 | a character outside letters, digits and whitespace does not separate words: the text on its two sides is joined as if it were absent |
| CardFormat.FormatCardOfAnyInput | app.py:119-122 | for any input whose kept characters are alphanumeric words separated by whitespace runs, with any whitespace around them, the result is those words joined by one space each |
| Records.ExtractRecord | app.py:141-152 | the name, card and date are the texts of the first three cells, an absent name or card being "Unknown" and an absent date ""; the VIP status is "no" unless a fourth cell is present; an e-mail exists if and only if a fifth cell is present, and it has the same non-whitespace characters as that cell |
| Records.EmailIsStrippedCell | app.py:152 | the e-mail is the fifth cell stripped: a cell holding an address padded with whitespace gives exactly that address, and a cell of whitespace only gives the empty address |
| Records.ExtractIgnoresExtraColumns | app.py:141-145 | columns after the fifth do not change the record |
| Records.ThreeColumnsMeansRegularWithoutEmail | app.py:144-152 | a row of a three-column table is regular and has no e-mail |
| Records.VipFromFourthColumn | app.py:144-151 | a row is VIP if and only if its fourth cell is present and, stripped and lower-cased, reads "yes" |
| Records.VipCellIgnoresCaseAndSpaces | app.py:151 | a fourth cell holding a word padded with whitespace makes the row VIP if and only if the word, lower-cased, is "yes" |
| Records.TemplateFor | app.py:154-156 | the VIP template is used if and only if the row is VIP and that template exists; likewise the regular template for a regular row; TEMPLATE_IMAGE is used if and only if the chosen template is missing |
| Records.Subject | app.py:187 | the subject ends "(VIP)" if and only if the row is VIP, and "(Regular)" if and only if it is not |
| Records.MissingVipTemplateStillVipSubject | app.py:154-187 | a VIP row whose template is missing is drawn on TEMPLATE_IMAGE and still gets the VIP subject |
| Records.PrimaryFileName | app.py:175-177 | the primary file name is non-empty, ends in ".png" and has no '/' |
| Records.FallbackFileName | app.py:183 | `card_{i}.png` is non-empty, ends in ".png" and has no '/' |
| Records.FallbackFileNameInjective | app.py:183 | distinct rows get distinct fallback names |
| Records.DistinctRowsShareFileName | app.py:175-177 | rows with different (name, card) can get the same primary file name |
| Records.MailOnlyForNonBlankEmail | app.py:152-189 | a notification is made if and only if the fifth cell is present and holds a non-whitespace character |
| Records.MailForAddress | app.py:186-189 | `MailFor`: a notification is made if and only if the record has a non-empty e-mail address |
| Records.MailAttachmentIsPrimaryFile | app.py:177-189 | the notification goes to the record's address (the stripped e-mail cell, by `Records.EmailIsStrippedCell`) and attaches the file under the primary name |
| Records.MailGoesToStrippedAddress | app.py:152-189 | a fifth cell holding an address padded with whitespace is notified, and the notification goes to exactly that address |
| Batch.RenderRow | app.py:154-184 | a saved card is a ".png" file directly inside the output folder |
| Batch.RenderRowCases | app.py:154-189 | a row raises on its template if and only if neither the chosen template nor TEMPLATE_IMAGE exists; it raises on saving if and only if there is a template and neither path can be written; otherwise it is saved under the primary name when that path can be written, else under the fallback name; a saved row sends the record's notification |
| Batch.Fold | app.py:147-189 | every file is mapped to a row of the batch, and a stopping row is a row of the batch |
| Batch.GenerateCards | app.py:135-189 | the loop leaves the output folder, the sent notifications and the status that `Run`, the fold of the per-row outcomes, gives for the rows |
| Batch.AbortStopsBatch | app.py:147-184 | rows after a raising row change nothing |
| Batch.FoldStatus | app.py:147-184 | a batch completes if and only if every row is saved; otherwise it stops at the first failing row, with that row's exception |
| Batch.FoldFilesWritten | app.py:175-184 | every file in the folder was written by the processed row it is mapped to |
| Batch.FoldKeepsProcessed | app.py:175-184 | every processed row's card is in the folder, mapped to that row or a later one |
| Batch.FoldLastWriter | app.py:175-184 | a file is mapped to the last processed row that wrote it |
| Batch.OverwriteLosesEarlierCard | app.py:177-180 | when two processed rows write the same name, the earlier row's card is not kept |
| Batch.DistinctNamesOneFilePerRow | app.py:175-184 | a completed batch whose rows all have different names leaves exactly one file per row |
| Batch.FilesArePng | app.py:177-184 | every file of a run is a ".png" file directly inside the output folder |
| Batch.FoldOutbox | app.py:186-189 | the notifications sent are those of the processed rows, in row order |
| Batch.Mails | app.py:186-189 | at most one notification per row |
| Batch.RunOutbox | app.py:147-189 | `Run`: a run sends exactly the notifications of the rows before the stopping row (all rows when it completes), in row order |
| Batch.OutboxIgnoresStorage | app.py:179-189 | two completed runs over the same rows and folder send the same notifications, whatever saves succeeded |
| Archive.DirEntries | app.py:194-197 | a directory contributes at most one member per file |
| Archive.ZipFolder | app.py:191-197 | the members written are the `.png` files of the walk, directory after directory, in listing order |
| Archive.DirEntriesMembers | app.py:194-197 | a member comes from a directory if and only if it is one of its `.png` files (in any case), stored under its name and read from its joined path |
| Archive.ArchiveMembers | app.py:193-197 | a member is in the archive if and only if it is such an entry for some directory of the walk |
| Archive.ArcnameIsBaseName | app.py:196-197 | each member is stored under the base name of the path it was read from, and that name ends in ".png" in some case |
| Archive.PngSuffixIsPngName | app.py:195 | `IsPngName`, the case-blind `.png` test, accepts every name ending in ".png" as written |
| Archive.PngFilterIgnoresCase | app.py:195 | a name and its lower-cased form are archived or skipped together |
| Archive.AllPngArchivedInOrder | app.py:194-197 | a directory of `.png` files is archived whole, one member per file, in order |
| Routes.AcceptedUploadReader | app.py:228-241 | `ReaderFor`: for an accepted upload, the Excel reader is used if and only if the extension is "xlsx", and the CSV reader if and only if it is "csv", in any case |
| Routes.CheckUpload | app.py:220-247 | each refusal (no file part, no file name, not a spreadsheet, folder not prepared, unreadable, fewer than 3 columns) happens exactly when its condition holds and all earlier checks pass; otherwise the parsed table is accepted |
| Routes.ListDir | app.py:110 | a folder listing names every file exactly once |
| Routes.ArchiveOfCardFolder | app.py:191-197 | the archive of a folder of card files has one member per file, each read from its path in the folder |
| Routes.HandleUpload | app.py:218-256 | a refused upload generates nothing and sends nothing; otherwise the notifications of the run are sent; a raising row fails the request with its exception; a completed run answers with one archive member per card file |
| Routes.PayloadRow | app.py:98-104 | the endpoint's row reads back as the given name, card and date, regular, with no e-mail |
| Routes.ApiCreateCard | app.py:93-113 | there is no payload if and only if the body is missing or empty; fields are missing (`AllGiven` fails) if and only if one of Name, Card or Date is absent or empty; otherwise the request fails if and only if the run raises; a success names the primary file when it could be written and `card_0.png` otherwise; "not generated" is never answered |
| Routes.FirstPng | app.py:110 | finds the first listed name ending in ".png" (case-sensitive), or reports that there is none |
| Routes.OneRowRun | app.py:104-110 | a completed one-row run leaves exactly one file: the primary name when it could be written, else `card_0.png` |
| Routes.ApiSendsNoMail | app.py:104-106 | a card made through the endpoint is never mailed and is drawn as a regular card |

## Left out

- Rendering (`Image.open`, `convert`, `resize`, `draw.text`, the text positions, the width of "Valid Until", the colours) is not modelled. The card is the file that a save writes. Drawing pixels is floating-point image work with no property worth stating here.
- A template file that exists but cannot be opened as an image is not modelled. Only a missing template raises in the model.
- `load_font` and its fallback to the default font are not modelled, because the model has no fonts.
- A save that fails after writing part of a file is not modelled. A failed save leaves nothing in the model.
- Sending mail (`send_email_with_attachment`: SMTP connection, login, MIME building) is not modelled. A notification is recorded as the call's arguments. Only the failures of attaching and of the SMTP exchange are caught and logged inside the call.
- Batch.RenderRowCases: the mail call can raise, and the model does not capture it. A malformed `SMTP_PORT` makes `int(...)` raise, and an address that still holds a line break after stripping (two addresses on two lines of one cell) makes setting the `To` header raise `ValueError` once SMTP is configured. Neither is caught: the exception leaves the row loop after the row's card was saved, and ends the batch, so `index` answers "Error generating cards". In the model the row is saved, its notification is recorded and the batch goes on, so `Batch.FoldStatus` ("completes if and only if every row is saved") does not cover these runs.
- Spreadsheet parsing (`read_csv`, `read_excel`), and what `str()` makes of a cell, are not modelled. A reader is a parameter returning a rectangular table of cell texts, or None when reading raises.
- Batch.GenerateCards: column names are always text in the model. A spreadsheet whose header cell holds a number or a date gives `read_excel` a column name that is not a string; `hasattr(row, name)` then raises `TypeError` before the first card, and `index` answers "Error generating cards". The model's run never fails this way.
- Cells that `itertuples` cannot reach through `getattr` (column names that are not identifiers) are folded into "absent", like NaN. The renaming pandas does is not modelled.
- Lower-casing is ASCII only. Python's `str.lower` also maps non-ASCII letters.
- The JSON endpoint's payload is a map from field names to strings. Payloads that are not objects, and values that are not strings (numbers, lists), are not modelled.
- `tempfile.mkdtemp` is modelled as a caller-supplied fresh, empty folder. Every run starts from an empty output folder: the model covers `index` after it has emptied OUTPUT_FOLDER and the endpoint's new temporary folder.
- Emptying and re-creating OUTPUT_FOLDER in `index` is not modelled step by step. Whether it succeeded is a boolean parameter.
- Saving the upload into UPLOAD_FOLDER, and its path, are not modelled.
- Flask (routing, flashed message texts, redirects, `send_file`, HTTP status codes) is reduced to the error or result values of the handlers. Rendering the form page on GET is not modelled.
- Routes.HandleUpload: its promises assume the request runs alone. The app serves requests on several threads (`threaded=True`), and `index` empties, fills and zips the one shared OUTPUT_FOLDER. An overlapping upload, or the cleanup thread, can add or delete files between the run and the zip, so the archive then need not hold one member per card file of this run.
- `clear_folders_periodically` and its background thread are not modelled: concurrency and sleeping are outside the model.
- The module-level setup (creating folders, writing the sample CSV, environment configuration) is not modelled.
- `compress_image.py` is not part of this model.
- Logging is not modelled.
- Routes.ListDir: the order in which a folder lists its files is chosen arbitrarily, because the file system decides it.
- Batch.Mails: its own contract bounds only the number of notifications. What they are is stated by Batch.RunOutbox and Records.MailOnlyForNonBlankEmail.
