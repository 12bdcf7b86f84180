# flashnotes persistence layer, modelled in Dafny

flashnotes is a local scratchpad. Its notes ("buffers") live in one SQLite
file, and a daily backup of that file is rotated in a `backups` directory.
This project models that persistence layer and proves properties of the
model:

- **`TitlePreview`**: how a sidebar entry's title and preview are derived
  from a buffer's content (`extract_title_preview`). The title is the first
  non-blank line and the preview is the next one. Both are trimmed and cut
  to 100 code points, and a content with no such line is titled "Untitled".
- **`SearchQuery`**: the FTS5 query that `search_buffers` builds from what
  the user typed. Quotes are doubled and the text is split on whitespace.
  Each term becomes `"term"*`, and the terms are joined by single spaces.
  The model proves that the query decodes back to the user's words.
- **`Rows`**: the `buffers` table as a map from id to row, and the
  `buffers_fts` index as a map from rowid to indexed content. The three
  triggers are modelled as updates of the index. The proofs show that every
  insert, update and delete keeps the index an exact mirror of the content
  column.
- **`Store`**: the database as one class `Database`, with fields for the
  schema objects, the rows, the index and the `settings` table.
  `initialize_schema` and every statement of `queries.rs` that writes
  (insert, the updates, delete, `set_setting`) are methods that modify it;
  each states its whole new state: which row changes, which columns change,
  and that the index stays consistent. The reads change nothing:
  `get_buffer_content`'s `SELECT` and `get_buffer_count` are functions of
  the state, and `get_sidebar_buffers`, `search_buffers` and `get_settings`
  are methods that state what they return.
- **`Backup`**: backup file names (`flashnotes_<u64>.db`), the time of the
  last backup, whether a backup is due, and which files
  `cleanup_old_backups` removes. The backup directory is modelled as the
  sequence of names in it.
- **`Commands`**: the Tauri commands of `commands/buffer.rs`, as thin
  methods over `Database`. The clock and the freshly generated UUID are
  parameters.
- **`Text`** and **`Decimal`** model the Rust library behaviour the code
  relies on. `Text` covers `str::trim`, `chars().take`, `lines`,
  `split_whitespace`, `strip_prefix` and `strip_suffix`. `Decimal` covers
  `u64` and `i32` parsing (a leading `+` is accepted) and decimal
  formatting. `Wrappers` holds `Option` and `Result`.

The model follows what the code does in these points:

- The sidebar is ordered by `is_pinned DESC, accessed_at DESC`
  (src-tauri/src/db/queries.rs:62), not by a manual `sort_order`.
- `sort_order` is only ever defaulted to 0.
- `create_buffer` does not compute a position for the new buffer, and no
  reorder or move operation exists in the code.

## Model

| member | source | states |
|---|---|---|
| Text.LeadingWhitespace | src-tauri/src/db/queries.rs:40-41 | the count of leading characters that `trim` drops: all of them are Unicode whitespace, and the next character is not |
| Text.TrailingWhitespace | src-tauri/src/db/queries.rs:40-41 | the count of trailing characters that `trim` drops: all of them are whitespace, and the character before them is not |
| Text.Trim | src-tauri/src/db/queries.rs:40-41 | `str::trim`: the result is a contiguous slice `s[a..a+|r|]` of the input with only whitespace before and after it; it is empty exactly when the input is all whitespace, and otherwise starts and ends with a non-whitespace character |
| Text.BlankEnds | src-tauri/src/db/queries.rs:40-41 | the parts before the first and after the last non-whitespace character are blank |
| Text.Take | src-tauri/src/db/queries.rs:41 | `chars().take(n)`: the first `min(n, len)` code points, as a prefix of the input |
| Text.IndexOf | src-tauri/src/db/queries.rs:36 | the position of the first occurrence of a character, or the length when it does not occur; no earlier position holds it |
| Text.Lines | src-tauri/src/db/queries.rs:36 | `str::lines`: no lines exactly when the content is empty, and no line holds a `\n` |
| Text.FirstLine | src-tauri/src/db/queries.rs:36 | in text without `\r`, the first line is everything before the first `\n`, and the rest of the lines are the lines after it |
| Text.LastLine | src-tauri/src/db/queries.rs:36 | text with no `\n` is one line |
| Text.JoinCons | src-tauri/src/db/queries.rs:36 | putting a terminated line in front of terminated lines |
| Text.SplitAtNewline | src-tauri/src/db/queries.rs:36 | text is what comes before a `\n`, the `\n` itself, and what comes after |
| Text.TerminatedAfterLine | src-tauri/src/db/queries.rs:36 | a terminated line in front of text keeps the rule "add a final `\n` only when there is none" |
| Text.LinesRebuild | src-tauri/src/db/queries.rs:36 | in text without `\r`, putting each line back with a `\n` after it gives the text itself, plus a final `\n` when the text had none; so the lines are exactly the pieces between the `\n`s |
| Text.Words | src-tauri/src/db/queries.rs:96 | the words of the rest of the text, starting from a partial word: each word is non-empty and has no whitespace, and there are none exactly when nothing is pending and the rest is blank |
| Text.ConcatCons | src-tauri/src/db/queries.rs:96 | concatenating a word in front of a list of words |
| Text.WordsSpell | src-tauri/src/db/queries.rs:96 | the words concatenated are the pending word followed by the rest of the text with its whitespace removed |
| Text.WordsSkipBlank | src-tauri/src/db/queries.rs:96 | with no word pending, leading whitespace produces no word |
| Text.WordsEndAtBlank | src-tauri/src/db/queries.rs:96 | whitespace after a pending word ends that word |
| Text.WordsExtend | src-tauri/src/db/queries.rs:96 | a run without whitespace extends the pending word |
| Text.WordsAfterWord | src-tauri/src/db/queries.rs:96 | after a pending word, a gap (non-empty unless it is the last) ends it, and the words that follow are those of the rest |
| Text.WordsOfInterleave | src-tauri/src/db/queries.rs:96 | non-empty words without whitespace, separated by non-empty whitespace gaps (with optional leading and trailing whitespace), split back into exactly those words, so words break only at whitespace and are maximal |
| Text.SplitWhitespace | src-tauri/src/db/queries.rs:96 | `split_whitespace`: every word is non-empty and has no whitespace, there are none exactly when the text is blank, and concatenated they are the text with its whitespace removed |
| Text.StripPrefix | src-tauri/src/db/backup.rs:30 | `strip_prefix`: it succeeds exactly when the string starts with the prefix, and the prefix followed by the result is the string |
| Text.StripSuffix | src-tauri/src/db/backup.rs:31 | `strip_suffix`: it succeeds exactly when the string ends with the suffix, and the result followed by the suffix is the string |
| Decimal.DigitChar | src-tauri/src/db/backup.rs:64 | a digit value below 10 is written as the decimal digit of that value |
| Decimal.Format | src-tauri/src/db/backup.rs:64 | `{}` of an unsigned integer: non-empty, all decimal digits, no leading zero |
| Decimal.FormatRoundTrip | src-tauri/src/db/backup.rs:64 | the digits `Format` writes have the value formatted |
| Decimal.ParseU64 | src-tauri/src/db/backup.rs:32 | `parse::<u64>`: a value it accepts is a `u64`, read from a non-empty string that starts with a digit or `+` |
| Decimal.ParseFormatU64 | src-tauri/src/db/backup.rs:28-32 | the decimal form of any `u64` parses back to that number |
| Decimal.ParseI32 | src-tauri/src/db/queries.rs:267 | `parse::<i32>`: a value it accepts lies in the `i32` range |
| Decimal.ParseFormatI32 | src-tauri/src/db/queries.rs:267 | the decimal form of any non-negative `i32` parses back to that number |
| TitlePreview.BlankLineTrimsToEmpty | src-tauri/src/db/queries.rs:40 | a line counts as blank exactly when `trim` leaves nothing of it |
| TitlePreview.Clip | src-tauri/src/db/queries.rs:41 | a trimmed and cut line has at most 100 code points, and is non-empty when the line is not blank |
| TitlePreview.FindNonBlank | src-tauri/src/db/queries.rs:38-40 | the line found lies in the searched range |
| TitlePreview.FindNonBlankFinds | src-tauri/src/db/queries.rs:38-40 | `find(non-blank)` gives the first non-blank line at or after the start, and nothing only when every line from there is blank |
| TitlePreview.FirstNonBlankUnique | src-tauri/src/db/queries.rs:38-40 | any first non-blank line at or after a point is the one the search returns |
| TitlePreview.FromLines | src-tauri/src/db/queries.rs:35-53 | title and preview have at most 100 code points each |
| TitlePreview.ExtractTitlePreview | src-tauri/src/db/queries.rs:35-53 | `extract_title_preview`: title and preview have at most 100 code points each |
| TitlePreview.TitleIsFirstNonBlankLine | src-tauri/src/db/queries.rs:38-42 | the title is the first non-blank line, trimmed and cut to 100; when every line is blank the result is ("Untitled", "") |
| TitlePreview.PreviewIsNextNonBlankLine | src-tauri/src/db/queries.rs:44-50 | the preview is the first non-blank line after the title line, trimmed and cut to 100, and empty when there is none |
| TitlePreview.CountAfterFind | src-tauri/src/db/queries.rs:44-50 | finding the next non-blank line accounts for exactly one of the non-blank lines after the start |
| TitlePreview.PreviewLine | src-tauri/src/db/queries.rs:44-50 | the preview line, when there is one, is the first non-blank line after the title line; there is none only when every line after the title line is blank |
| TitlePreview.PreviewIffTwoNonBlankLines | src-tauri/src/db/queries.rs:44-50 | the preview is non-empty exactly when the content has at least two non-blank lines |
| SearchQuery.EscapeQuotes | src-tauri/src/db/queries.rs:95 | doubling quotes never shortens the text and adds no whitespace |
| SearchQuery.QuoteAll | src-tauri/src/db/queries.rs:97 | one `"…"*` term per word |
| SearchQuery.JoinWithSpaces | src-tauri/src/db/queries.rs:97 | `.join(" ")`: nothing to join gives `""`, and a non-empty first part a non-empty result |
| SearchQuery.SafeQuery | src-tauri/src/db/queries.rs:94-99 | the query handed to `MATCH` is empty exactly when the user's text is blank |
| SearchQuery.EscapeAll | src-tauri/src/db/queries.rs:95-96 | one escaped word per word |
| SearchQuery.EscapeConcat | src-tauri/src/db/queries.rs:95 | doubling quotes distributes over concatenation |
| SearchQuery.EscapeAllConcat | src-tauri/src/db/queries.rs:95-96 | escaping a list of words distributes over concatenation |
| SearchQuery.UnescapeEscape | src-tauri/src/db/queries.rs:95 | un-doubling the quotes of an escaped text gives back the text |
| SearchQuery.WordsOfEscaped | src-tauri/src/db/queries.rs:95-96 | replacing quotes before splitting on whitespace is splitting first and escaping each word, since `"` is not whitespace |
| SearchQuery.SafeQueryTerms | src-tauri/src/db/queries.rs:94-99 | the safe query is the escaped, quoted words of the query, joined by single spaces |
| SearchQuery.SplitAbsorbs | src-tauri/src/db/queries.rs:99 | text without a space joins the piece being built |
| SearchQuery.SplitJoin | src-tauri/src/db/queries.rs:99 | splitting a space-joined list of space-free terms gives back the terms |
| SearchQuery.UnquoteQuoted | src-tauri/src/db/queries.rs:95-97 | the body of a quoted term un-doubles to the original token |
| SearchQuery.QuotedNoSpace | src-tauri/src/db/queries.rs:95-97 | a quoted term built from a whitespace-free token has no space |
| SearchQuery.QuotedTermsDecode | src-tauri/src/db/queries.rs:94-99 | the quoted terms of whitespace-free words have no space, and they decode back to the words |
| SearchQuery.SafeQueryRoundTrip | src-tauri/src/db/queries.rs:94-99 | for a non-blank query, the safe query has exactly one `"…"*` term per whitespace-separated token, and decoding it gives back the tokens |
| Rows.MirrorIsUnique | src-tauri/src/db/schema.rs:59-70 | with distinct rowids, an external-content index that mirrors the table is determined by the table |
| Rows.NewRow | src-tauri/src/db/schema.rs:8-17 | a new row has the given rowid, is not archived, not pinned, has `sort_order` 0, and content `""` when none was given |
| Rows.Apply | src-tauri/src/db/queries.rs:166-224 | each `SET` clause of an update: rowid, `created_at` and `sort_order` never change, only a content update changes the content, and only the toggle changes the pin |
| Rows.UpdateWhereId | src-tauri/src/db/queries.rs:166-224 | `UPDATE … WHERE id = ?` keeps the ids, leaves every other row as it was and applies the assignment to that row |
| Rows.FtsDelete | src-tauri/src/db/schema.rs:84-102 | the FTS5 `delete` command removes the entry for the rowid exactly when it holds the given content, and changes no other entry |
| Rows.AfterInsert | src-tauri/src/db/schema.rs:74-81 | trigger `buffers_ai`: the new row's content is indexed under its rowid, and no other entry changes |
| Rows.AfterDelete | src-tauri/src/db/schema.rs:84-91 | trigger `buffers_ad`: at most the deleted row's entry goes, and it goes when it holds the row's content; every entry that stays keeps its content |
| Rows.AfterUpdate | src-tauri/src/db/schema.rs:94-102 | trigger `buffers_au`: the new content is indexed under the new rowid, and entries of other rowids stay |
| Rows.MirrorAfterInsert | src-tauri/src/db/schema.rs:74-81 | after `buffers_ai`, the index mirrors the table with the new row; rowids stay distinct |
| Rows.MirrorAfterDelete | src-tauri/src/db/schema.rs:84-91 | after `buffers_ad`, the index mirrors the remaining rows and has no entry for the deleted rowid |
| Rows.UpdateKeepsRowids | src-tauri/src/db/schema.rs:94-102 | an `UPDATE … WHERE id = ?` keeps the set of rowids |
| Rows.MirrorAfterUpdate | src-tauri/src/db/schema.rs:94-102 | after `buffers_au` (delete old, insert new), for any assignment including pin, archive and touch, the index mirrors the updated table |
| Rows.IndexedContent | src-tauri/src/db/schema.rs:8-17 | in a consistent database every row's content is indexed under its rowid, its rowid is below the next one, and its `sort_order` is the default 0 |
| Rows.InsertKeepsConsistent | src-tauri/src/db/schema.rs:74-81 | an insert under a new id keeps the table, index and rowid counter consistent |
| Rows.UpdateKeepsConsistent | src-tauri/src/db/schema.rs:94-102 | an update keeps them consistent, and one that does not set the content leaves the index as it was |
| Rows.DeleteKeepsConsistent | src-tauri/src/db/schema.rs:84-91 | a delete keeps them consistent and drops the deleted rowid from the index |
| Rows.TogglePinTwice | src-tauri/src/db/queries.rs:214-224 | setting `is_pinned = NOT is_pinned` twice restores the table |
| Rows.ArchiveLiveCount | src-tauri/src/db/queries.rs:192-202 | archiving removes exactly that id from the live set, and the live count drops by one exactly when it was live |
| Rows.UpdateKeepsLive | src-tauri/src/db/queries.rs:166-189 | content, touch and pin updates keep the live set |
| Rows.ListedBeforeTotal | src-tauri/src/db/queries.rs:62 | the `is_pinned DESC, accessed_at DESC` order is total and transitive |
| Rows.FirstInOrderExists | src-tauri/src/db/queries.rs:57-65 | every non-empty set of rows has one that may be listed before all the others |
| Rows.SelectInOrder | src-tauri/src/db/queries.rs:57-65 | `ORDER BY … LIMIT ?` over the live rows: `min(limit, n)` distinct live ids in order, each ordered before every live row left out |
| Rows.SelectAny | src-tauri/src/db/queries.rs:101-111 | `ORDER BY rank LIMIT ?` with the rank unknown: `min(limit, n)` distinct found ids, all of them when fewer than `limit` |
| Store.FontSizeOf | src-tauri/src/db/queries.rs:267 | `value.parse().unwrap_or(13)` gives an `i32` |
| Store.Summarize | src-tauri/src/db/queries.rs:67-82 | a sidebar entry keeps its row's id, `updated_at` and pin flag, and its title and preview have at most 100 code points |
| Store.SettingsFrom | src-tauri/src/db/queries.rs:256-274 | `font_size` is an `i32`; a stored `font_family` is used as it is; with neither key stored the result is the defaults |
| Store.SeedDefaults | src-tauri/src/db/schema.rs:39-48 | `INSERT OR IGNORE` of the defaults adds only the missing keys with their default values and keeps every stored value |
| Store.Database.constructor | src-tauri/src/db/schema.rs:4-20 | a new database file has no schema objects, rows, index entries or settings |
| Store.Database.AddSortOrderColumn | src-tauri/src/db/schema.rs:22-26 | the migration fails exactly when the column exists; afterwards the column exists |
| Store.Database.InitializeSchema | src-tauri/src/db/schema.rs:4-105 | from a new or an older database it creates everything, leaves the rows and index as they were, and seeds only the missing settings |
| Store.Database.Insert | src-tauri/src/db/schema.rs:8-17 | an existing id is a UNIQUE violation that changes nothing; otherwise a new row with the column defaults and the next rowid, and an index entry of its content |
| Store.Database.CreateBuffer | src-tauri/src/db/queries.rs:154-163 | `created_at = updated_at = accessed_at = timestamp`, not archived and not pinned, the content indexed, other rows unchanged; fails exactly on a taken id, changing neither the rows nor the index |
| Store.Database.Update | src-tauri/src/db/queries.rs:166-224 | true iff the id exists; only that row changes, by the assignment; the index changes only for a content update |
| Store.Database.UpdateBufferContent | src-tauri/src/db/queries.rs:166-176 | true iff the id exists; only that row's `content` and `updated_at` change, and the index holds the new content |
| Store.Database.TouchBuffer | src-tauri/src/db/queries.rs:179-189 | true iff the id exists; only that row's `accessed_at` changes |
| Store.Database.ArchiveBuffer | src-tauri/src/db/queries.rs:192-202 | true iff the id exists; only that row's `is_archived` is set, and the live set loses exactly that id |
| Store.Database.TogglePin | src-tauri/src/db/queries.rs:214-224 | true iff the id exists; only that row's `is_pinned` flips |
| Store.Database.DeleteBuffer | src-tauri/src/db/queries.rs:205-211 | true iff the id existed; exactly that row goes, and its rowid leaves the index |
| Store.Database.SetSetting | src-tauri/src/db/queries.rs:277-283 | `INSERT OR REPLACE` stores the value under the key whether or not it existed |
| Store.Database.GetBufferContent | src-tauri/src/db/queries.rs:125-151 | `None` exactly when no row has the id; otherwise every field of that row, archived or not |
| Store.Database.GetBufferCount | src-tauri/src/db/queries.rs:227-235 | the number of all rows, or of the rows not archived |
| Store.Database.GetSidebarBuffers | src-tauri/src/db/queries.rs:56-85 | at most `limit` distinct non-archived rows, summarised from their content; pinned first and, within each group, `accessed_at` non-increasing; fewer than `limit` only when all are listed |
| Store.Database.MatchingIsLiveContent | src-tauri/src/db/queries.rs:101-107 | because the index mirrors the table, the join of index and table finds exactly the live rows whose content matches |
| Store.Database.Matching | src-tauri/src/db/queries.rs:101-107 | the `buffers_fts MATCH` joined with `buffers` and `is_archived = 0` finds only live rows |
| Store.Database.SearchBuffers | src-tauri/src/db/queries.rs:88-122 | a blank query gives nothing; otherwise at most `limit` distinct live rows that match the safe query, each with its snippet and `updated_at`, and all of them when fewer than `limit` |
| Store.Database.GetSettings | src-tauri/src/db/queries.rs:256-274 | the loop over the rows, in whatever order they come, yields the defaults overridden by `font_family` and `font_size` (13 when not an `i32`) |
| Store.SeedDefaultsIdempotent | src-tauri/src/db/schema.rs:39-48 | seeding the defaults twice is seeding them once, and changes nothing when every default key is present |
| Store.FreshSettings | src-tauri/src/db/queries.rs:245-274 | the seeded settings of a new database read as the built-in defaults ("JetBrains Mono", 13) |
| Store.FontSizeRoundTrip | src-tauri/src/db/queries.rs:267 | a font size stored in decimal reads back as that size, and the font family is unaffected |
| Store.FontSizeFallback | src-tauri/src/db/queries.rs:267 | a stored font size that is not an `i32` reads as 13 |
| Backup.LastIndexOf | src-tauri/src/db/backup.rs:26 | a position found lies in the name |
| Backup.LastIndexOfFinds | src-tauri/src/db/backup.rs:26 | the position found holds the last `.` of the name, and nothing is found only when there is no `.` |
| Backup.ExtensionIsAfterLastDot | src-tauri/src/db/backup.rs:26 | `Path::extension`: none exactly when the name is `..` or has no `.` after its first character; otherwise the dot-free text after the last `.`, preceded by a non-empty stem |
| Backup.DbExtension | src-tauri/src/db/backup.rs:26 | a name ending in `.db` with a non-empty stem has the extension `db` |
| Backup.ExtensionFilterRedundant | src-tauri/src/db/backup.rs:26-32 | for `flashnotes_<s>.db` the extension filter always passes, and the timestamp is the `u64` parse of `s` |
| Backup.Extension | src-tauri/src/db/backup.rs:26 | `Path::extension` (definition); its meaning is stated by Backup.ExtensionIsAfterLastDot |
| Backup.TimestampOf | src-tauri/src/db/backup.rs:28-32 | the timestamp parsed from a file name (definition); Backup.BackupNameRoundTrip, Backup.PremigrationNeverParses and Backup.ExtensionFilterRedundant state what it accepts |
| Backup.BackupFileName | src-tauri/src/db/backup.rs:64 | `flashnotes_<ts>.db` (definition); Backup.BackupNameRoundTrip proves it parses back to `ts` |
| Backup.PremigrationFileName | src-tauri/src/db/backup.rs:126 | `flashnotes_premigration_<ts>.db` (definition); Backup.PremigrationNeverParses proves it never parses as a regular backup |
| Backup.BackupNameRoundTrip | src-tauri/src/db/backup.rs:64 | the name `create_backup` writes parses back to its timestamp |
| Backup.PremigrationNeverParses | src-tauri/src/db/backup.rs:126 | a pre-migration backup name never yields a timestamp |
| Backup.Stamps | src-tauri/src/db/backup.rs:27-33 | one parse result per name |
| Backup.Collect | src-tauri/src/db/backup.rs:27-33 | `filter_map` keeps at most as many entries as there are names |
| Backup.CollectSound | src-tauri/src/db/backup.rs:27-33 | every entry kept comes from a name whose parse gave its timestamp |
| Backup.CollectComplete | src-tauri/src/db/backup.rs:27-33 | every name that parses is kept, with its timestamp |
| Backup.ConsNamesDistinct | src-tauri/src/db/backup.rs:87-98 | a backup in front of others with different names keeps the names distinct |
| Backup.CollectDistinct | src-tauri/src/db/backup.rs:87-98 | from a listing without repeated names, the backups collected repeat no name |
| Backup.Backups | src-tauri/src/db/backup.rs:87-98 | the regular backups of a listing, in listing order (definition); Backup.BackupsSound and Backup.BackupsComplete state that they are exactly the names with a timestamp |
| Backup.BackupsSound | src-tauri/src/db/backup.rs:87-98 | every listed backup is a name of the directory whose timestamp is the one recorded |
| Backup.BackupsComplete | src-tauri/src/db/backup.rs:87-98 | every name of the directory that parses is listed with its timestamp |
| Backup.Latest | src-tauri/src/db/backup.rs:34 | `.max()`: none exactly for no backups; otherwise a timestamp of one of them that bounds all of them |
| Backup.LatestOfListing | src-tauri/src/db/backup.rs:21-36 | the latest of a listing bounds every name that parses and is itself the timestamp of one of them |
| Backup.LastBackupTime | src-tauri/src/db/backup.rs:16-37 | `get_last_backup_time`: 0 for a missing directory or one without regular backups; otherwise the maximum timestamp over names of the form `flashnotes_<u64>.db` |
| Backup.WrappingSub | src-tauri/src/db/backup.rs:48 | `u64` subtraction in a release build: exact when no borrow, otherwise plus 2^64 |
| Backup.SaturatingSub | src-tauri/src/db/backup.rs:48 | exact when no borrow, otherwise 0 |
| Backup.NeedsBackup | src-tauri/src/db/backup.rs:40-49 | a backup is due exactly when 24 hours have passed since the last one |
| Backup.NeedsBackupAgrees | src-tauri/src/db/backup.rs:40-49 | when `now >= last_backup` the code as written agrees with `NeedsBackup`, and both mean `now - last_backup >= 86400` |
| Backup.NeedsBackupAsWrittenWraps | src-tauri/src/db/backup.rs:48 | with a last backup later than `now` (short of a wrap into the last day of the range), the code as written reports a backup due while none is |
| Backup.NeedsBackupAsWritten | src-tauri/src/db/backup.rs:48 | `needs_backup` with its wrapping `u64` subtraction (definition); Backup.NeedsBackupAgrees and Backup.NeedsBackupAsWrittenWraps relate it to Backup.NeedsBackup |
| Backup.NeedsFirstBackup | src-tauri/src/db/backup.rs:16-49 | with no regular backup, a backup is due exactly when the clock is past the first day |
| Backup.NoBackupDueAfterBackup | src-tauri/src/db/backup.rs:52-78 | once the backup named for `now` is in the directory, the last backup time is at least `now` and no backup is due at `now` |
| Backup.ConsNewestFirst | src-tauri/src/db/backup.rs:101 | putting a backup no older than the head in front keeps the list newest first |
| Backup.InsertNewestFirst | src-tauri/src/db/backup.rs:101 | inserting into a newest-first list keeps it newest first and adds exactly that backup |
| Backup.InsertedFrom | src-tauri/src/db/backup.rs:101 | every entry after an insertion is the inserted backup or one that was there |
| Backup.InsertKeepsNamesDistinct | src-tauri/src/db/backup.rs:101 | inserting a backup with a new name into a list with distinct names keeps them distinct |
| Backup.SortNewestFirst | src-tauri/src/db/backup.rs:100-101 | `sort_by(b.cmp(a))`: newest first, and a permutation of the backups |
| Backup.SortKeepsNamesDistinct | src-tauri/src/db/backup.rs:100-101 | sorting keeps the names distinct |
| Backup.SkipNames | src-tauri/src/db/backup.rs:104-110 | the loop over `skip(n)` visits exactly the entries after the first `n`, in order |
| Backup.RemovedIsBackup | src-tauri/src/db/backup.rs:104 | each removed name is a regular backup of the directory, with the timestamp of its place in the sorted list |
| Backup.RemovedNoNewerThanKept | src-tauri/src/db/backup.rs:100-104 | a removed backup is no newer than any regular backup that stays |
| Backup.RemovedAreOldest | src-tauri/src/db/backup.rs:100-110 | the names skipped past the seven newest are backups of the listing, none newer than a backup that stays |
| Backup.RemovedDistinct | src-tauri/src/db/backup.rs:104-110 | over sorted backups with distinct names, the names removed are distinct |
| Backup.CleanupOldBackups | src-tauri/src/db/backup.rs:81-111 | `cleanup_old_backups` removes exactly `max(0, n - 7)` of the `n` regular backups. Every removed file is in the directory and has a timestamp, every removed timestamp is at most every kept one, and no pre-migration backup is removed. For a listing without repeated names (any real directory) no file is removed twice, so exactly the `min(7, n)` newest stay |
| Commands.MapDbError | src-tauri/src/commands/buffer.rs:8-10 | success is passed through with its value; an error becomes a message that is the context, `": "` and the database's message |
| Commands.MapDbErrorNames | src-tauri/src/commands/buffer.rs:8-10 | an error message starts with the context followed by `": "`, and there is text after it |
| Commands.CreateBuffer | src-tauri/src/commands/buffer.rs:19-27 | returns the new id and creates an empty, unpinned, unarchived buffer with `created_at = updated_at = accessed_at = now`, whose empty content is indexed; fails with `Failed to create buffer: UNIQUE constraint failed: buffers.id` exactly when the id is taken, changing no row and no index entry; other rows are unchanged |
| Commands.SaveBuffer | src-tauri/src/commands/buffer.rs:31-38 | always `Ok(())`; an existing buffer gets the new content, indexed, and `updated_at = now`, nothing else changes |
| Commands.GetBufferContent | src-tauri/src/commands/buffer.rs:42-59 | first sets `accessed_at = now`, then returns the stored content, or `Buffer not found: <id>` exactly when no row has the id |
| Commands.GetSidebarData | src-tauri/src/commands/buffer.rs:63-69 | the sidebar with limit 100: `min(100, live)` distinct live entries summarised from their rows, pinned first and by `accessed_at` descending within each group, and every live row left out comes after every listed one in that order |
| Commands.SearchBuffers | src-tauri/src/commands/buffer.rs:73-79 | search with limit 20: nothing for a blank query; otherwise exactly `min(20, matches)` distinct live matching buffers, each with its id, its highlighted snippet and its `updated_at`, and all matches when fewer than 20 come back |
| Commands.ArchiveBuffer | src-tauri/src/commands/buffer.rs:83-87 | always `Ok(())`; only that row changes, only its `is_archived` is set, the live set loses exactly that id, and the index is unchanged |
| Commands.DeleteBufferPermanently | src-tauri/src/commands/buffer.rs:91-95 | always `Ok(())`; exactly that row and its index entry go |
| Commands.TogglePin | src-tauri/src/commands/buffer.rs:99-103 | always `Ok(())`; only that buffer's pin flips, and the index is unchanged |
| Commands.GetBufferCount | src-tauri/src/commands/buffer.rs:107-113 | the number of buffers that are not archived |

## Left out

- FTS5 itself is not modelled: tokenisation, prefix matching, `rank` and `highlight()` (src-tauri/src/db/queries.rs:101-110). Matching and the snippet are parameters of `SearchBuffers`, and the order of results is left unspecified.
- Store.Database.SearchBuffers, Commands.SearchBuffers: they do not state the `rank` order, because only FTS5 defines it.
- Store.Database.GetSidebarBuffers: ties in `(is_pinned, accessed_at)` may come in any order; SQLite does not fix that order either.
- `line_height` is not modelled, neither its `f64` field nor its parse (src-tauri/src/db/queries.rs:242,268), because floating point is out of scope. `AppSettings` holds only `font_family` and `font_size`.
- SQLite errors other than a UNIQUE violation on insert are not modelled: I/O errors, a locked or corrupt file, `QueryReturnedNoRows` other than as `None`. So the commands other than `create_buffer` always return `Ok`.
- SQLite reuses the largest rowid plus one after deletes. Here rowids come from a counter, and nothing in the code depends on their values.
- `initialize_schema` on a database that has rows but no `buffers_fts` table is not modelled: FTS5 would not index the existing rows. The model starts from a new file or from one written by this program.
- src-tauri/src/db/connection.rs is not part of this model: pragmas, opening the file and the reader pool are configuration and I/O.
- src-tauri/src/state.rs is not part of this model: the mutex and the connection pool serve concurrency, and the store is one sequential object here.
- src-tauri/src/lib.rs, src-tauri/src/hotkey.rs and src-tauri/src/commands/settings.rs are not part of this model: they are app wiring, OS shortcuts and pass-throughs.
- `check_integrity` and `vacuum` (src-tauri/src/db/schema.rs:107-119) are left out because they only delegate to SQLite.
- The effects on the file system are left out: `VACUUM INTO`, `create_dir_all`, `remove_file`, logging and the failure of a single removal. `create_backup` and `create_migration_backup` are modelled only through the names they write (`BackupFileName`, `PremigrationFileName`) and, for `create_backup`, through the cleanup that follows (`NoBackupDueAfterBackup`, `CleanupOldBackups`).
- The clock (`SystemTime::now`, `Utc::now`) and `Uuid::new_v4` are parameters.
- A directory that is missing or cannot be read is `None`. Unreadable directory entries and file names that are not valid UTF-8 are not representable.
- Backup.SortNewestFirst: the in-place `Vec::sort_by` is modelled as a function on a sequence, and its stability is not stated, because no property of the cleanup depends on the order among equal timestamps.
- Backup.NeedsBackup: the debug-build panic of the `u64` subtraction is not modelled; `NeedsBackupAsWritten` models the release build.
- Manual reordering by `sort_order`, move up/down, choosing a buffer after a delete, removing empty buffers and pagination offsets are not modelled: none of them is implemented in src-tauri/src/db or src-tauri/src/commands/buffer.rs.

## Findings

| source | as written | input that shows it | evidently intended | confidence | as-written member | corrected member |
|---|---|---|---|---|---|---|
| src-tauri/src/db/backup.rs:48 | `now - last_backup >= BACKUP_INTERVAL_SECS` with an unguarded `u64` subtraction: with a backup dated after `now` it wraps in a release build and reports a backup due, and it panics in a debug build | `now = 0`, `last_backup = 1` (a clock set back after a backup) | a backup is due only when 24 hours have passed since the last one (a saturating or checked subtraction) | not executed | Backup.NeedsBackupAsWritten, shown by Backup.NeedsBackupAsWrittenWraps | Backup.NeedsBackup, with Backup.NeedsBackupAgrees and Backup.NoBackupDueAfterBackup |
