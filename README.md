# channels:validate — a Dafny model

This project models the `channels:validate` command of the EPG repository
(`scripts/commands/channels/validate.ts`). The command lints site files
(`*.channels.xml`) that list broadcast channels. For every channel entry it
runs three checks:

- the `site_id` must not repeat an earlier entry of the same file (`duplicate`);
- the `lang`, taken as `""` when absent, must be an ISO 639-1 code (`wrong_lang`);
- the part of a non-empty `xmltv_id` before its first `@` must be a canonical channel id (`wrong_xmltv_id`).

The command collects the errors of each file in order and counts them into
`totalErrors`. It counts the files with at least one error into `totalFiles`.
It skips files whose extension is not `xml`. It exits with status 1 exactly
when some error was found.

Layout:

- `validate.dfy`, module `ChannelsValidate`: the data model (`Entry`,
  `ErrorKind`, `ValidationError`, `SiteFile`); the specification functions
  (`SplitPrefix`, `EntryErrors`, `FileErrors`, `AllErrors`,
  `FilesWithErrors`); and the two loops of the command as methods.
  `ValidateFile` is the per-file `forEach` with its dictionary of seen site
  ids; `CheckEntry` is the body of its callback. `Run` is the `for` loop of `main` with its counters and the exit
  status. Each method is proved equal to its specification function.
- `validate_properties.dfy`, module `ChannelsValidateProperties`: what the
  specification functions guarantee. This covers each check on its own, the
  order of the errors, duplicates counted per file only, the effect of file
  extensions, and how the totals and the exit status relate.

The external collaborators are inputs:

- the language table of the `langs` library is a set `langs` of known codes;
- the canonical index built with `groupBy` is a set `canon` of canonical ids;
- the output of the channel parser is the `entries` of a `SiteFile`;
- the file list and each file's extension are given values.

All these are functions of their inputs, so running the validation twice on
the same inputs gives the same errors.

## Model

| member | source | states |
|---|---|---|
| `ChannelsValidate.SplitPrefix` | scripts/commands/channels/validate.ts:57 | the first segment of `split('@')` is a prefix of the string, holds no `@`, and is either the whole string or followed by `@` |
| `ChannelsValidate.EntryErrors` | scripts/commands/channels/validate.ts:42-62 | one entry gives at most three errors, each a copy of the entry, in the order duplicate, wrong_lang, wrong_xmltv_id |
| `ChannelsValidate.FileErrors` | scripts/commands/channels/validate.ts:40-63 | a file's error list is at most three times as long as its entry list |
| `ChannelsValidate.FileErrorsSnoc` | scripts/commands/channels/validate.ts:42-63 | appending an entry to a file appends exactly that entry's errors, checked against the site ids before it |
| `ChannelsValidate.CheckEntry` | scripts/commands/channels/validate.ts:43-62 | one callback step adds the entry's site id to the dictionary, appends exactly the entry's errors, and raises the total by their number |
| `ChannelsValidate.ValidateFile` | scripts/commands/channels/validate.ts:40-63 | the loop, with a fresh seen-id dictionary, yields exactly the file's errors, and the running total grows by one per error |
| `ChannelsValidate.Run` | scripts/commands/channels/validate.ts:29-76 | `totalErrors` is the number of errors of all `xml` files, `totalFiles` the number of files with errors; the exit status is 1 exactly when there is an error and 0 exactly when there is none |
| `ChannelsValidateProperties.EntryChecks` | scripts/commands/channels/validate.ts:43-62 | each check fires at most once per entry, exactly on its own condition, whatever the other checks decide |
| `ChannelsValidateProperties.DuplicateOnLaterOccurrence` | scripts/commands/channels/validate.ts:40-49 | the first entry with a given site id gets no `duplicate` error; every later entry with that id in the same file gets exactly one |
| `ChannelsValidateProperties.WrongLangIffUnknownCode` | scripts/commands/channels/validate.ts:51-54 | an entry gets one `wrong_lang` error exactly when its language, `""` when absent, is not a known code |
| `ChannelsValidateProperties.NoXmltvIdNoReferenceError` | scripts/commands/channels/validate.ts:56 | an absent or empty `xmltv_id` never gives a `wrong_xmltv_id` error |
| `ChannelsValidateProperties.ReferenceErrorIffUnknownChannel` | scripts/commands/channels/validate.ts:56-62 | for a non-empty `xmltv_id`, one `wrong_xmltv_id` error fires exactly when the part before the first `@` is not a canonical id |
| `ChannelsValidateProperties.SplitPrefixIgnoresSuffix` | scripts/commands/channels/validate.ts:57 | appending `@` and anything to a string leaves its first segment unchanged |
| `ChannelsValidateProperties.SplitPrefixNoSeparator` | scripts/commands/channels/validate.ts:57 | a string without `@` is its own first segment |
| `ChannelsValidateProperties.ReferenceCheckIgnoresVariant` | scripts/commands/channels/validate.ts:57-62 | for `xmltv_id` = `<id>@<variant>`, the error depends on `<id>` only, never on the variant |
| `ChannelsValidateProperties.FileErrorsInEntryOrder` | scripts/commands/channels/validate.ts:42-63 | the file's errors are the per-entry reports laid end to end in entry order; each report has at most three errors, copies of its entry, in the fixed kind order |
| `ChannelsValidateProperties.DuplicateCount` | scripts/commands/channels/validate.ts:40-49 | a file has as many `duplicate` errors as entries minus distinct site ids |
| `ChannelsValidateProperties.DistinctSiteIdsNoDuplicate` | scripts/commands/channels/validate.ts:40-49 | a file whose site ids all differ has no `duplicate` error |
| `ChannelsValidateProperties.AllErrorsAppend` | scripts/commands/channels/validate.ts:34-63 | the errors of two lists of files run one after the other are the errors of the first list followed by those of the second |
| `ChannelsValidateProperties.FilesWithErrorsAppend` | scripts/commands/channels/validate.ts:65-70 | the files counted for two lists of files add up |
| `ChannelsValidateProperties.NonXmlFileAddsNoError` | scripts/commands/channels/validate.ts:36 | inserting a non-`xml` file leaves the run's errors unchanged |
| `ChannelsValidateProperties.NonXmlFileNotCounted` | scripts/commands/channels/validate.ts:36 | inserting a non-`xml` file leaves `totalFiles` unchanged |
| `ChannelsValidateProperties.NoDuplicateAcrossFiles` | scripts/commands/channels/validate.ts:34-49 | when site ids repeat only across files, never within one, the run has no `duplicate` error |
| `ChannelsValidateProperties.TotalsRelation` | scripts/commands/channels/validate.ts:65-70 | `totalFiles` ≤ number of `xml` files ≤ number of files; `totalFiles` ≤ `totalErrors`; `totalFiles` is 0 exactly when there is no error |
| `ChannelsValidateProperties.CleanRunIffCleanFiles` | scripts/commands/channels/validate.ts:73-76 | the run has no error, and so exits with 0, exactly when no file adds an error; in particular with no files |
| `ChannelsValidateProperties.ScenarioDuplicateSiteId` | scripts/commands/channels/validate.ts:42-63 | two entries with the same site id and valid fields give exactly one error, a `duplicate` on the second |
| `ChannelsValidateProperties.ScenarioUnknownLanguage` | scripts/commands/channels/validate.ts:51-54 | one entry with language `xx` and no `xmltv_id` gives exactly one `wrong_lang` error |
| `ChannelsValidateProperties.ScenarioUnknownChannel` | scripts/commands/channels/validate.ts:56-62 | one entry with `xmltv_id` `<unknown id>@<variant>` and a valid language gives exactly one `wrong_xmltv_id` error |
| `ChannelsValidateProperties.ScenarioSameSiteIdInTwoFiles` | scripts/commands/channels/validate.ts:34-49 | the same site id once in each of two files gives no error and no counted file |

`ChannelsValidateProperties.ScenarioCleanRuns` calls `Run` on a file with one
clean entry and on an empty file list and shows both end with status 0.

## Left out

- File discovery (`Storage.list`), the choice between the command-line paths and the discovery glob (line 33), and `File.extension`: the file list and each file's extension are given values.
- Reading the canonical dataset (`Storage.json`), the `Channel` model and `Collection.groupBy` (lines 24-27): the index is the set of canonical ids, because only key existence is tested.
- XML parsing by `ChannelsParser.parse` (line 38): its output is the `entries` sequence of a `SiteFile`. Parse failures, which abort the run, are not modelled.
- The `langs` library (line 51): the ISO 639-1 table is the set `langs`; the model does not fix its contents, so whether `""` is a code is an input.
- Console output (`console.log`, `console.table`, `chalk`, lines 66-68 and 74) and `commander` argument parsing (line 10): these are I/O. The summary line is printed exactly when the exit status is 1.
- `process.exit(1)` (line 75): the exit status is a returned value; 0 stands for the normal end of `main`.
- `async`/`await`: files are processed strictly one after another, as the loops do.
- The `logo` field and other fields the spread `...channel` copies into an error: an error holds the whole `Entry`, which has `site_id`, `lang`, `xmltv_id` and `name`.
- The `Dictionary` class of `@freearhey/core`: the seen-id dictionary is a local `map<string, bool>` that the loop reassigns, and `missing` is a key-membership test.
- A bound of the number of processed files by `totalErrors`: it does not hold, because a clean `xml` file is processed and adds no error. `totalFiles` is bounded by both instead.
