# The credential cache of report-exporter.py, in Dafny

report-exporter.py exports one Power BI report per company as a PDF. It keeps its
Azure credentials and the current bearer token in a plain-text cache, `ids.txt`. Each
line of that file is `key,value`, except the token line, which is `bearer,<token>,<expiry>`.
This project models how that cache works:

- `retrieve_ids` reads the file into an insertion-ordered dictionary.
- Unless `skip_check` is set, it compares the clock with the stored expiry and, once the
  token has expired, asks for a new one.
- `bearer_to_file` rewrites the file with the new token and an expiry one hour ahead,
  then reads it back.

The project also models the pure string work around each export:
- the report-level filter that selects one company;
- the file name the PDF is saved under;
- the list of export requests `retrieve_business_ids` builds from CSV rows.

Modules, one per file:

- `Wrappers`: `Option` and `Result`.
- `Text`: the text operations the script relies on, each paired with a lemma that
  characterises it:
  - `str.strip` over the `str.isspace` characters;
  - `str.split` and `str.join`;
  - reading a text-mode file line by line, with universal newlines.
- `OrderedDict`: a Python `dict` as an association list. Assigning to an existing key
  keeps its position and replaces its value. A new key goes at the end.
- `CredentialStore`: parsing the cache (`Lex`, `ParseRecord`, `ParseRecords`, `Parse`),
  the expiry decision (`Decide`), the rewrite (`Serialise`, `BearerToFile`) and
  `RetrieveIds`. The clock readings, the identity provider's answer and the datetime
  text codec are parameters.
- `LineProperties`: what a single line reads as, and what each line `bearer_to_file`
  writes reads back as.
- `StoreProperties`: properties of the whole file and of `retrieve_ids` /
  `bearer_to_file`:
  - which files are accepted, and the line where a rejected file fails;
  - what the dictionary contains;
  - the round trip through `bearer_to_file`;
  - the refresh decision.
- `ExpiryFormat`: how the expiry text is written and read back, down to the fraction of
  a second. It holds the one finding below.
- `ReportExport`: the filter and file-name templates, the export body, and
  `retrieve_business_ids`.

Behaviour worth noting:

- The refresh test is strict: a token whose expiry equals the clock reading is kept
  (report-exporter.py:265).
- A business id is not the CSV row passed through verbatim. The row's fields are joined
  with `", "` and the result is whitespace-stripped (report-exporter.py:286).
- With the check enabled, a file without a `bearer` line fails with a `TypeError`
  (comparing a `datetime` with `None`). It does not fetch a token.
- `bearer_to_file` only replaces an existing `bearer` line. If the dictionary has none,
  no token is written.

## Model

| member | source | states |
|---|---|---|
| Text.Strip | report-exporter.py:254-257 | No contract; `str.strip` with a character set, characterised by `Text.StripSpec`. |
| Text.Split | report-exporter.py:255 | Always at least one piece, as `str.split` gives; characterised by `Text.SplitSpec` and `Text.SplitJoin`. |
| Text.ReadLines | report-exporter.py:253 | No contract; `for line in f` in text mode, characterised by `Text.ReadLinesCover`, `Text.ReadLinesAreLines` and `Text.ReadUnlines`. |
| OrderedDict.Insert | report-exporter.py:258 | No contract; `d[k] = v`, characterised by `OrderedDict.InsertSpec`. |
| CredentialStore.Lex | report-exporter.py:254-260 | No contract; what one loop iteration picks out of a line (stripped key, stripped value if a comma is present, raw third field if present), characterised by `LineProperties.LexValue`, `LineProperties.LexJoinedFields` and `LineProperties.LexClean`. |
| CredentialStore.ParseRecord | report-exporter.py:256-260 | No contract; one loop iteration and its three exceptions, characterised by `StoreProperties.ParseRecordAccepts`, `StoreProperties.ParseRecordStores` and `StoreProperties.ParseRecordRejects`. |
| CredentialStore.ParseRecords | report-exporter.py:247-260 | No contract; the loop over all lines, stopping at the first exception, characterised by `StoreProperties.ParseSucceedsIff`, `StoreProperties.ParseFailsAtFirstBad` and `StoreProperties.ParsedContents`. |
| CredentialStore.Parse | report-exporter.py:247-260 | No contract; reading the whole file, characterised by `StoreProperties.MissingCommaRejected`, `StoreProperties.BlankLineRejected`, `StoreProperties.ReadIdsClean` and `StoreProperties.ParseSerialised`. |
| CredentialStore.CredentialsOf | report-exporter.py:266-268 | No contract; the three `get` lookups, whose use is stated by `CredentialStore.Decide`. |
| CredentialStore.StoreLine | report-exporter.py:224-227 | No contract; one written line, characterised by `LineProperties.ReadWrittenLine`. |
| CredentialStore.Serialise | report-exporter.py:222-227 | No contract; the whole written file, characterised by `LineProperties.SerialisedLines`, `LineProperties.LexSerialised` and `LineProperties.SerialiseWithoutBearer`. |
| CredentialStore.BearerToFile | report-exporter.py:219-230 | No contract; characterised by `StoreProperties.BearerToFileReplacesToken` and `StoreProperties.BearerToFileUnreadableExpiry`. |
| CredentialStore.RetrieveIds | report-exporter.py:247-271 | No contract; characterised by `StoreProperties.SkipCheckKeepsParsed`, `StoreProperties.CheckWithoutBearerFails`, `StoreProperties.UnexpiredTokenKept` and `StoreProperties.ExpiredTokenRenewed`. |
| ExpiryFormat.StrDatetime | report-exporter.py:225 | No contract; `str(datetime)`, characterised by `ExpiryFormat.WholeSecondUnreadable` and `ExpiryFormat.StrDatetimeReadsFraction`. |
| ExpiryFormat.Strptime | report-exporter.py:260 | No contract; `strptime` with `%Y-%m-%d %H:%M:%S.%f`, characterised by `ExpiryFormat.FixedDatetimeRoundTrip` and `ExpiryFormat.WholeSecondUnreadable`. |
| ReportExport.CompanyFilter | report-exporter.py:61 | No contract; the filter template, characterised by `ReportExport.FilterRoundTrip`, `ReportExport.FilterOnlyFromTemplate` and `ReportExport.CompanyFilterInjective`. |
| ReportExport.ReportFileName | report-exporter.py:153 | No contract; the file-name template, characterised by `ReportExport.FileNameRoundTrip`, `ReportExport.FileNameOnlyFromTemplate` and `ReportExport.FileNameInjective`. |
| ReportExport.RowBusinessId | report-exporter.py:286 | No contract; `', '.join(row).strip()`, characterised by `ReportExport.RowBusinessIdSpec`. |
| Text.StripSpec | report-exporter.py:254-257 | `strip` removes exactly the maximal runs of the given characters from both ends. The result is the contiguous middle of the input, at a known offset. |
| Text.StripKeepsChar | report-exporter.py:254 | Stripping characters other than `c` neither adds nor removes an occurrence of `c`. |
| Text.SplitSpec | report-exporter.py:255 | The pieces of `split(",")` hold no comma and join back to the input. There are two or more pieces exactly when the input contains a comma. |
| Text.SplitJoin | report-exporter.py:255 | Splitting comma-free parts joined with commas gives the parts back. |
| Text.ReadLinesCover | report-exporter.py:253 | The lines read from any file, joined together, are exactly its text after newline translation: nothing is lost, added or reordered. |
| Text.ReadLinesAreLines | report-exporter.py:253 | Every line the text-mode file iterator yields is non-empty, has no `\r`, and has `\n` at most as its last character. |
| Text.ReadUnlines | report-exporter.py:222-227 | Reading a file written as newline-terminated, break-free lines gives exactly those lines back, each with its `\n`. |
| OrderedDict.GetSpec | report-exporter.py:266-268 | `dict.get` finds a value exactly for the keys present, and the value belongs to that key. |
| OrderedDict.InsertSpec | report-exporter.py:258 | Assigning `d[k] = v` makes `v` the value of `k` and leaves every other key's value alone. An existing key keeps its place; a new key is appended. Distinct keys stay distinct. |
| OrderedDict.GetSetExisting | report-exporter.py:223-225 | Replacing the value of an existing key keeps the key order. Only that key's value changes, and nothing is added when the key is absent. |
| CredentialStore.Decide | report-exporter.py:263-269 | With `skip_check` the cached dictionary is kept. Otherwise a missing expiry is an error, and the token is renewed exactly when the clock is strictly later than the expiry, using the three credentials looked up with `get`. |
| LineProperties.LexValue | report-exporter.py:254-257 | A line has a value (`line[1]` exists) exactly when it contains a comma. |
| LineProperties.BlankLineHasNoValue | report-exporter.py:254-257 | A blank line has no second field. |
| LineProperties.LexJoinedFields | report-exporter.py:254-260 | A line of two or more fields, with its newline or without one (as the last line of a file may be), reads as its stripped key and value and its unstripped third field. Fields after the third play no part. |
| LineProperties.LexClean | report-exporter.py:254-257 | The key and value read from any line are free of commas and line breaks, and have no surrounding whitespace. |
| LineProperties.ReadWrittenLine | report-exporter.py:224-227 | A line written for a clean entry reads back as that entry. The bearer line reads back as the new token with the expiry text as its third field. |
| LineProperties.SerialisedLines | report-exporter.py:222-227 | The rewritten file has one line per dictionary entry, in dictionary order. It is `key,value`, except for the bearer line, which is `bearer,<token>,<expiry>`. |
| LineProperties.LexSerialised | report-exporter.py:222-227 | The rewritten file of a clean dictionary reads back as one record per entry, in order. |
| LineProperties.SerialiseWithoutBearer | report-exporter.py:223-227 | Without a bearer entry, the token and expiry have no effect on the file written. |
| StoreProperties.ParseRecordAccepts | report-exporter.py:256-260 | A line is accepted exactly when it has a value and, if its key is `bearer`, a third field that `strptime` reads. |
| StoreProperties.ParseRecordStores | report-exporter.py:258-260 | An accepted line assigns its value to its key and changes no other key. The expiry changes only on a bearer line; a third field on another line changes nothing. |
| StoreProperties.ParseRecordRejects | report-exporter.py:257-260 | A rejected line fails with its own line number. The failure is `IndexError` on `line[1]` (no comma), `IndexError` on `line[2]` (a bearer line with two fields) or `ValueError` (an unreadable expiry); each holds exactly in its own case. |
| StoreProperties.ParseSucceedsIff | report-exporter.py:253-260 | Reading a file succeeds exactly when every line is acceptable. |
| StoreProperties.ParseFailsAtFirstBad | report-exporter.py:253-260 | A failing read reports the first unacceptable line, with the exception that line raises. Every earlier line is acceptable. |
| StoreProperties.FirstBadRecord | report-exporter.py:253-260 | If line `i+1` is the first unacceptable line, reading fails at line `i+1`. |
| StoreProperties.MissingCommaRejected | report-exporter.py:255-257 | A file with a comma-free line is rejected, no later than that line. |
| StoreProperties.BlankLineRejected | report-exporter.py:254-257 | A file with a blank line is rejected. |
| StoreProperties.ParsedKeys | report-exporter.py:256-258 | The dictionary's keys are the lines' keys in order of first appearance, each once. |
| StoreProperties.ParsedValues | report-exporter.py:257-258 | Each key's value is the value on the last line with that key. |
| StoreProperties.ParsedExpiryAbsent | report-exporter.py:248-260 | The expiry is unset exactly when no line has the key `bearer`. |
| StoreProperties.ParsedExpiryLast | report-exporter.py:259-260 | The expiry is read from the third field of the last bearer line. |
| StoreProperties.ParsedContents | report-exporter.py:247-260 | All four facts about a successful read together: keys, values, expiry absent, expiry from the last bearer line. |
| StoreProperties.ExpiryMeansBearer | report-exporter.py:258-260 | A read that sets the expiry has a `bearer` key in its dictionary. |
| StoreProperties.ParsedIdsClean | report-exporter.py:256-258 | Records with clean fields give a dictionary with distinct keys and clean keys and values. |
| StoreProperties.ReadIdsClean | report-exporter.py:247-258 | Every dictionary read from a file has distinct keys and clean keys and values, so it can be written out and read back. |
| StoreProperties.ParseWrittenPrefix | report-exporter.py:223-229 | Reading back the first `n` written lines gives the first `n` entries, with the bearer value replaced by the new token. |
| StoreProperties.ParseSerialised | report-exporter.py:222-229 | Round trip: reading back the file written from a clean dictionary gives the same keys in the same order and the same values, except the bearer value, which is the new token. The expiry is the written one if there is a bearer entry, and unset otherwise. |
| StoreProperties.WrittenBadExpiry | report-exporter.py:225-229 | If the expiry text does not read back, re-reading a file with a bearer line fails with `ValueError`. |
| StoreProperties.BearerToFileReplacesToken | report-exporter.py:219-230 | When the token is a clean field and the expiry text written reads back as the instant it came from, `bearer_to_file` keeps every key and its order, replaces only the bearer value with the new token, and stores the expiry one hour after its own clock reading. Without a bearer entry, nothing is added. |
| StoreProperties.BearerToFileUnreadableExpiry | report-exporter.py:219-229 | If the expiry text it writes is unreadable, `bearer_to_file` fails on its re-read. |
| StoreProperties.SkipCheckKeepsParsed | report-exporter.py:263-271 | `retrieve_ids(True)` returns exactly the parsed dictionary and leaves the file alone, or fails with the read error. |
| StoreProperties.CheckWithoutBearerFails | report-exporter.py:263-265 | `retrieve_ids(False)` on a file without a bearer line fails (the `TypeError` of the comparison). |
| StoreProperties.UnexpiredTokenKept | report-exporter.py:263-271 | With the check on and the clock not past the expiry, the parsed dictionary is returned and the file is unchanged. |
| StoreProperties.ExpiredTokenRenewed | report-exporter.py:263-271 | When the issued token is a clean field and the expiry text written reads back as the instant it came from: with the clock strictly past the expiry, the token issued for the stored credentials replaces the bearer value. Keys, order and other values stay, and the new expiry is one hour after `bearer_to_file`'s clock reading. |
| ExpiryFormat.DigitsRoundTrip | report-exporter.py:260 | A number below `10^k` written as `k` zero-padded digits reads back as itself. |
| ExpiryFormat.WholeSecondUnreadable | report-exporter.py:225 | On a whole second, `str(datetime)` writes no fraction, and `strptime(..., "%S.%f")` rejects the text. |
| ExpiryFormat.StrDatetimeReadsFraction | report-exporter.py:225 | With a non-zero fraction, the written expiry reads back as the same instant. |
| ExpiryFormat.FixedDatetimeRoundTrip | report-exporter.py:260 | With the fraction always written as six digits, every expiry reads back as the instant it came from. |
| ExpiryFormat.AsWrittenRenewalFails | report-exporter.py:219-229 | As written, renewing when `now + 1h` falls on a whole second makes `bearer_to_file` fail with `ValueError` on its re-read. |
| ExpiryFormat.FixedRenewalSucceeds | report-exporter.py:219-229 | With the fixed-width expiry, `bearer_to_file` succeeds at every clock reading and replaces only the bearer value. |
| ExpiryFormat.BrokenStoreStaysBroken | report-exporter.py:222-229 | As written, after a renewal whose expiry falls on a whole second, the file already written makes every later `retrieve_ids` fail with `ValueError`, with or without the check. |
| ReportExport.FilterRoundTrip | report-exporter.py:61 | The company filter names exactly the business id it was built from, verbatim. |
| ReportExport.FilterOnlyFromTemplate | report-exporter.py:61 | Any text that reads as a company filter is that id's filter. |
| ReportExport.CompanyFilterInjective | report-exporter.py:61 | Different business ids never share a filter. |
| ReportExport.ExportBody | report-exporter.py:63-71 | The export body asks for PDF, carries exactly one filter (the one for the requested company) and has the requested locale. |
| ReportExport.FileNameRoundTrip | report-exporter.py:153 | For a known language, the file name gives back the business id verbatim. |
| ReportExport.FileNameOnlyFromTemplate | report-exporter.py:153 | Any name that yields a business id for a language is that id's file name. |
| ReportExport.FileNameInjective | report-exporter.py:153 | Within one language, two companies never share a file name. |
| ReportExport.RequestMatchesFile | report-exporter.py:153 | The export filter and the saved file name identify the same company. |
| ReportExport.FileNameAmbiguousAcrossLanguages | report-exporter.py:153 | Across languages a file name does not determine the id: `a_b` in `fi-FI` and `a` in `b_fi-FI` collide. |
| ReportExport.RowBusinessIdSpec | report-exporter.py:286 | The business id is the `", "`-joined row with only whitespace cut from its ends. It neither starts nor ends with whitespace. |
| ReportExport.EmptyRowBusinessId | report-exporter.py:286 | An empty row gives the empty id. |
| ReportExport.SingleFieldBusinessId | report-exporter.py:286 | A one-field row without surrounding whitespace gives that field verbatim. |
| ReportExport.TwoFieldBusinessId | report-exporter.py:286 | Two fields are joined with a comma and a space. |
| ReportExport.RetrieveBusinessIds | report-exporter.py:282-288 | One request per CSV row, in row order. Each request has the language `fi-FI` and the row's joined, stripped id. |

## Left out

- The HTTP requests are not modelled: the token endpoint, the export, the polling and the download. The identity provider's reply enters `RetrieveIds` only as the parameter `issue`.
- The `KeyError` raised when the reply lacks `access_token` is not modelled, nor the `None` credentials being sent to the provider.
- The thread pool, `main`, logging and the directory changes are not modelled. None of them affects the cache's contents.
- File I/O is not modelled: the cache is its text, given as a string. A missing `ids.txt` (`FileNotFoundError`), byte decoding and the platform newline written in text mode are left out; writing assumes `\n`.
- `csv.reader` with `delimiter='\n'` is not modelled: `RetrieveBusinessIds` takes the rows it yields.
- `datetime.now()` is not modelled: `RetrieveIds` takes two clock readings as parameters, one for the check and one inside `bearer_to_file`.
- Calendar arithmetic is left abstract. Instants are unbounded microsecond counts, so the `OverflowError` of `datetime + timedelta` near year 9999 is not modelled. The date and time of day down to whole seconds is a parameter (`ExpiryFormat.SecondsFormat`); only the fraction of a second is modelled digit by digit.
- The `client_id`, `client_secret` and `tenant_id` lookups at report-exporter.py:250-252 are not modelled. They run on the still-empty dictionary, always give `None` and are never used.
- CredentialStore.BearerToFile: when the re-read fails it returns only the error, not the text already written to `ids.txt` by then (report-exporter.py:222-227). `ExpiryFormat.BrokenStoreStaysBroken` states what that written text does to later reads.
- CredentialStore.RetrieveIds: a failed renewal likewise returns only the error, not the rewritten file.
- StoreProperties.BearerToFileReplacesToken and StoreProperties.ExpiredTokenRenewed: proved only when the token is a clean field and the written expiry reads back. The first condition fails for a token with a comma, the second at a whole second (see Findings).
- StoreProperties.ParseSerialised: the round trip needs clean keys, values and token (no comma, no line break, no surrounding whitespace). Every dictionary read from a file has clean keys and values (`ReadIdsClean`), but a token containing a comma would split its line differently.
- ExpiryFormat.WellBehaved: the abstract whole-seconds format is assumed to read back its own output and to write no `.`, `,` or line break, as `%Y-%m-%d %H:%M:%S` does.

## Findings

| source | as written | input that shows it | evidently intended | confidence | as-written member | corrected member |
|---|---|---|---|---|---|---|
| report-exporter.py:225 | The expiry is written with `str(datetime)`, which leaves out `.ffffff` when the microseconds are zero. Line 260 reads it back with the format `%Y-%m-%d %H:%M:%S.%f`, which requires the fraction. | A token renewal at a clock reading `now` with `now + 1h` on a whole second, e.g. `2024-01-01 11:00:00`, writes `bearer,<token>,2024-01-01 12:00:00`. The re-read at line 229 then raises `ValueError`, and so does every later start of the script until the file is repaired (`ExpiryFormat.BrokenStoreStaysBroken`). | The expiry written is always readable, e.g. `expiry.strftime("%Y-%m-%d %H:%M:%S.%f")`. | high (not executed); happens about once in a million renewals | ExpiryFormat.AsWrittenRenewalFails | ExpiryFormat.FixedRenewalSucceeds |
