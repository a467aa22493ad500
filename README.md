# findatapy cache and reshaping core, in Dafny

This project models the sequential logic inside two I/O-heavy files of
findatapy:

- `IOEngine` (findatapy/market/ioengine.py) names, writes, reads and cleans
  cached market data. The model covers:
  - the file and library names each storage engine uses;
  - how the engine tag (`hdf5_fixed`, `hdf5_table`, `bcolz`, `arctic`) is
    read;
  - the column-name rewriting for bcolz;
  - the tail trim that the HDF5 append path does before it appends a batch;
  - the column filter of the Arctic write path;
  - the post-processing of `read_csv_data_frame`: the two fixed-offset
    intraday date parsers, the column postfix and the cutoff;
  - the NUL removal of `clean_csv_file`.
- `FXCLSVolume.get_fx_volume` (findatapy/market/fxclsvolume.py) reshapes a
  wide daily table, with one column per currency pair and hour, into one
  sorted hourly series per pair.

Data are plain values:

- a table is a sequence of `Row(stamp, value)`;
- timestamps are integers;
- FX timestamps count hours, so hour `i` of day `d` is `d * 24 + i`;
- strings are `seq<char>`, with the edge cases of the Python `str` operations
  the code relies on (slicing, `replace`, `split`, `in`, `str(n)`, `int()`),
  over ASCII character classes;
- Python exceptions are the `Failure` case of a `Result`.

The code that changes state is written imperatively:

- `find_replace_chars` is a loop that reassigns the list of names.
- The append scan is a `while` loop over a `TableStore` object whose rows
  are removed and appended in place.
- The postfix loop, the `filter_out_matching` loop and the nested loops of
  `get_fx_volume` are loops with invariants.

Each of these methods is proved against a function that states the result,
and the lemmas are about those functions.

Files:

| file | contents |
|---|---|
| `wrappers.dfy` | `Option`, `Result`, and the Python errors raised (`IndexError`, `KeyError`, `ValueError`) |
| `seqs.dfy` | order-preserving selection (`Filter`) and its laws |
| `text.dfy` | the Python string operations used |
| `timeseries.dfy` | rows, sortedness, `sort_index` as an insertion sort, and lookup by timestamp |
| `cachenames.dfy` | file and library names, engine tags, and bcolz column names |
| `cachewriter.dfy` | the HDF5 append trim and the Arctic column filter |
| `csvreader.dfy` | date parsers, postfix, cutoff and CSV cleaning |
| `fxclsvolume.dfy` | the FX volume reshaping |

## Where the code and its own description disagree

The comment at findatapy/market/ioengine.py:257 says the append path
"removes duplicated entries at the end". The code does something different,
and the model follows the code:

- The scan stops at the last row `i` whose stamp is not later than the
  batch's last stamp.
- `store.remove(start=i, stop=nrows)` then deletes row `i` itself, even when
  that row is strictly earlier than the whole batch.
  `CacheWriter.BoundaryRowLost` shows this.
- Stored rows that overlap the batch before that row are kept, so stamps can
  repeat. `CacheWriter.DuplicateStampsRemain` shows this.
- Row 0 is never inspected. When no later row qualifies, the whole store is
  replaced by the batch (`CacheWriter.WholeStoreDropped`).

The bcolz read path is not the inverse of the write path:

- `"a.b"` is written as `"A_a_d_b"` and read back as `"d b"`
  (`CacheNames.DotNameDoesNotRoundTrip`).
- `"_"` is read back as `" "` (`CacheNames.UnderscoreReadsAsSpace`).

The model proves these two counterexamples. It proves no round trip for the
replacement pairs, because none holds. Only the prefix has one
(`CacheNames.PrefixDropRoundTrip`).

`remove_time_series_cache_on_disk` takes the same engine branch as the
writer for every tag the writer accepts (`CacheNames.EngineTagsAgree`), but
its bcolz branch (findatapy/market/ioengine.py:140-142) is `pass`: a bcolz
series the writer creates is never deleted by it.

## Model

| member | source | states |
|---|---|---|
| CacheNames.WithExtension | findatapy/market/ioengine.py:318-321 | the result ends with the extension; it is the name unchanged when the name already ends with it, and the name plus the extension otherwise |
| CacheNames.H5Filename | findatapy/market/ioengine.py:306-321 | `get_h5_filename` always ends in ".h5"; a name already ending in ".h5" is returned as is, any other gets ".h5" appended |
| CacheNames.BcolzFilename | findatapy/market/ioengine.py:323-338 | `get_bcolz_filename` always ends in ".bcolz"; a name already ending in ".bcolz" is returned as is, any other gets ".bcolz" appended |
| CacheNames.H5FilenameIdempotent | findatapy/market/ioengine.py:318-321 | applying `get_h5_filename` twice gives the same as once |
| CacheNames.BcolzFilenameIdempotent | findatapy/market/ioengine.py:335-338 | applying `get_bcolz_filename` twice gives the same as once |
| CacheNames.Basename | findatapy/market/ioengine.py:148 | the base name has no '/', is a suffix of the path, and is preceded by a '/' when shorter than the path |
| CacheNames.ArcticLibraryName | findatapy/market/ioengine.py:206 | the library name has no '.' and no '/', has the base name's length, and equals the base name except that every '.' became '_' |
| CacheNames.EngineNamed | findatapy/market/ioengine.py:191-253 | a tag selects bcolz, arctic or hdf5 exactly when it equals that name; any other tag selects no branch |
| CacheNames.WriteTargetOf | findatapy/market/ioengine.py:184-189 | the writer raises IndexError exactly when the tag contains "hdf5" and has no '_'; a tag with "hdf5" selects HDF5 with the second '_'-field as format; any other tag keeps the format "fixed" and does not select HDF5; for such a tag the engine is the one the tag names |
| CacheNames.SecondFieldOfSplit | findatapy/market/ioengine.py:188 | `tag.split('_')[1]` is the '_'-free text that starts after the first '_' and ends at the next '_' or at the end |
| CacheNames.Hdf5TagFormat | findatapy/market/ioengine.py:187-189 | the tag "hdf5_" + f, with no '_' in f, selects HDF5 with format f |
| CacheNames.BareTagExample | findatapy/market/ioengine.py:187-188 | the bare tag "hdf5" makes the writer raise IndexError, while the remover accepts it as HDF5 |
| CacheNames.RemoveEngineOf | findatapy/market/ioengine.py:137-160 | the remover picks HDF5 exactly when the tag contains "hdf5", and otherwise compares the tag with the engine names |
| CacheNames.ReadEngineOf | findatapy/market/ioengine.py:391-436 | the reader picks bcolz or arctic exactly when the tag equals that name, and the HDF5 file for every other tag |
| CacheNames.EngineTagsAgree | findatapy/market/ioengine.py:137-138 | for every tag the writer accepts, the remover picks the engine the writer wrote to, and so does the reader whenever the writer picked a storage branch |
| CacheNames.FindReplaceChars | findatapy/market/ioengine.py:552-557 | the result has the same length and order as the input; name j is name j with every pair applied in order; IndexError exactly when there is a name and fewer replacements than patterns |
| CacheNames.InvalidNotInReplacement | findatapy/market/ioengine.py:32-51 | no invalid character occurs in any replacement text |
| CacheNames.ReplacePairs | findatapy/market/ioengine.py:554-555 | applying the first n find/replace pairs never shortens the text when no replacement is shorter than its pattern, and never lengthens it when every pattern is non-empty and no replacement is longer |
| CacheNames.EncodeColumn | findatapy/market/ioengine.py:193-194 | a bcolz column name as written starts with "A_" and is at least two characters longer than the name |
| CacheNames.DecodeColumn | findatapy/market/ioengine.py:402-403 | a column name as read back is at least two characters shorter than the stored name, and empty when that is shorter than two |
| CacheNames.ReplacePairsRemovesInvalid | findatapy/market/ioengine.py:554-555 | after the first n pairs, none of the first n invalid characters is left in the name |
| CacheNames.EncodedColumnIsSafe | findatapy/market/ioengine.py:193-194 | a bcolz column name as written starts with "A_" and holds none of & . - ( ) / % = or space |
| CacheNames.EncodeWordName | findatapy/market/ioengine.py:193-194 | a name made of letters and '_' only is written as "A_" followed by the name |
| CacheNames.PrefixDropRoundTrip | findatapy/market/ioengine.py:403 | slicing off two characters removes exactly the "A_" added on write |
| CacheNames.DotNameDoesNotRoundTrip | findatapy/market/ioengine.py:402-403 | "a.b" is written as "A_a_d_b" and read back as "d b" |
| CacheNames.UnderscoreReadsAsSpace | findatapy/market/ioengine.py:402-403 | "_" is written as "A__" and read back as " " |
| CacheNames.BcolzWriteColumns | findatapy/market/ioengine.py:193-194 | column j as written is the encoded name of column j, for every column |
| CacheNames.BcolzReadColumns | findatapy/market/ioengine.py:402-403 | column j as read is the decoded name of column j, for every column |
| CacheWriter.ScanStop | findatapy/market/ioengine.py:269-276 | the scan stops at some 0 <= i <= nrows-1; every row after i is later than the batch's last stamp; when i > 0, row i is not later |
| CacheWriter.ScanStopUnique | findatapy/market/ioengine.py:269-276 | those three facts determine the stopping point |
| CacheWriter.Appended | findatapy/market/ioengine.py:266-280 | IndexError exactly when the batch is empty; otherwise the store is the first i stored rows, unchanged, followed by the batch, with length i + the batch's length |
| CacheWriter.WholeStoreDropped | findatapy/market/ioengine.py:271-279 | when no stored row from position 1 on is at or before the batch's last stamp, only the batch remains |
| CacheWriter.KeptRowsNotLater | findatapy/market/ioengine.py:271-279 | in a sorted store every kept row is at or before the batch's last stamp |
| CacheWriter.BoundaryRowLost | findatapy/market/ioengine.py:279 | appending [5] to stamps 1, 2, 3 gives 1, 2, 5: the boundary row is deleted although it is earlier than the batch |
| CacheWriter.DuplicateStampsRemain | findatapy/market/ioengine.py:278-280 | appending [2, 4] to stamps 1, 2, 3 gives 1, 2, 2, 4, whose stamps are not distinct |
| CacheWriter.TableStore.constructor | findatapy/market/ioengine.py:259 | an opened store holds the given rows |
| CacheWriter.TableStore.Remove | findatapy/market/ioengine.py:279 | rows start to stop-1 are deleted and the others keep their order |
| CacheWriter.TableStore.Put | findatapy/market/ioengine.py:280 | the batch is appended after the stored rows |
| CacheWriter.TableStore.AppendBatch | findatapy/market/ioengine.py:258-281 | with an empty batch the store is unchanged and IndexError is raised; otherwise the store becomes exactly `Appended` of the old rows and the batch |
| CacheWriter.FilterOutMatching | findatapy/market/ioengine.py:232-241 | without a pattern every column is kept; with one, the result is the columns not containing it, in their original order |
| CacheWriter.FilterOutMatchingMembers | findatapy/market/ioengine.py:238 | a column is kept exactly when it was there and its name does not contain the pattern |
| CsvReader.DaysInMonth | findatapy/market/ioengine.py:482 | the Gregorian month lengths that `datetime` checks: 31 days for January, March, May, July, August, October and December, 30 for April, June, September and November, and for February 29 exactly in leap years and 28 otherwise |
| CsvReader.MakeDateTime | findatapy/market/ioengine.py:482 | `datetime.datetime` succeeds exactly when the six fields are in range, keeps them, and raises ValueError otherwise |
| CsvReader.ParseInt | findatapy/market/ioengine.py:482 | `int()` succeeds exactly on whitespace around one or more digits, optionally after one '+' or '-'; the value is the digits' value, negated after '-'; every other text, blank text included, raises ValueError and nothing else |
| CsvReader.VerticalTabSkipped | findatapy/market/ioengine.py:482 | `int("\x0b7")` is 7: a vertical tab around a number is skipped |
| CsvReader.SeparatorNotSkipped | findatapy/market/ioengine.py:482 | `int("\x1c5")` raises ValueError: the separator 0x1C is not skipped |
| CsvReader.NonDigitRejected | findatapy/market/ioengine.py:482 | text whose first non-blank character is neither a digit nor a sign raises ValueError |
| CsvReader.ParseFields | findatapy/market/ioengine.py:482-483 | `datetime(*map(int, fields))` succeeds exactly when all six texts are numbers forming a valid date and time, and then holds those numbers |
| CsvReader.ParseDefault | findatapy/market/ioengine.py:482-483 | the default parser succeeds only on a valid date and time, raises ValueError otherwise, and always fails on text of 17 characters or fewer |
| CsvReader.ParseDukascopy | findatapy/market/ioengine.py:485-486 | the dukascopy parser succeeds only on a valid date and time, raises ValueError otherwise, and always fails on text of 17 characters or fewer |
| CsvReader.IntradayParser | findatapy/market/ioengine.py:481-491 | no `dateparse` picks the default parser, "dukascopy" picks the dukascopy parser, "c" picks ciso8601, and any other value is passed through |
| CsvReader.ParseDefaultRoundTrip | findatapy/market/ioengine.py:482-483 | every valid date and time written zero-padded as DD?MM?YYYY?hh?mm?ss parses back to itself, whatever the separators and whatever follows |
| CsvReader.ParseDukascopyRoundTrip | findatapy/market/ioengine.py:485-486 | every valid date and time written zero-padded as YYYY?MM?DD?hh?mm?ss parses back to itself, whatever the separators and whatever follows |
| CsvReader.AddPostfix | findatapy/market/ioengine.py:501-508 | the same number of columns, in order, each with the postfix appended |
| CsvReader.PostfixRemovable | findatapy/market/ioengine.py:506 | a postfixed name ends with the postfix, and its first len(col) characters are the original name |
| CsvReader.CutOff | findatapy/market/ioengine.py:548 | the cutoff never adds rows |
| CsvReader.CutOffMembers | findatapy/market/ioengine.py:548 | a row is kept exactly when it was there and is earlier than the cutoff |
| CsvReader.CutOffOrder | findatapy/market/ioengine.py:548 | the cutoff of a concatenation is the concatenation of the cutoffs, so the original order is kept |
| CsvReader.CutOffIdempotent | findatapy/market/ioengine.py:548 | applying the cutoff twice gives the same as once |
| CsvReader.CutOffSortedPrefix | findatapy/market/ioengine.py:548 | on a sorted index the cutoff keeps a prefix of the rows |
| CsvReader.ReadCsvFrame | findatapy/market/ioengine.py:479-550 | intraday columns get the postfix; other columns are kept; without a cutoff every row is kept; with one, exactly the earlier rows, in order |
| CsvReader.CleanCsv | findatapy/market/ioengine.py:594-604 | nothing is written exactly when the text has no NUL; otherwise the text is written again with every NUL removed, other characters kept in order |
| CsvReader.CleanCsvSettles | findatapy/market/ioengine.py:598 | a cleaned file needs no second cleaning |
| CsvReader.CleanCsvKeepsText | findatapy/market/ioengine.py:602 | apart from NUL, a character is in the cleaned text exactly when it is in the original |
| FxClsVolume.Pairs | findatapy/market/fxclsvolume.py:38 | a single pair is treated as a list holding only that pair; a list is taken as it is |
| FxClsVolume.HourFieldsAreDecimal | findatapy/market/fxclsvolume.py:49-50 | the 24 requested fields are the hours 0 to 23 in decimal, each followed by 'h' |
| FxClsVolume.ColumnName | findatapy/market/fxclsvolume.py:65-67 | the column for pair t and hour i starts with t + ".", ends with 'h' and has at least one character between them |
| FxClsVolume.ColumnNameIsField | findatapy/market/fxclsvolume.py:65-67 | the column read for pair t and hour i is t + "." + the field requested for hour i |
| FxClsVolume.HourSlice | findatapy/market/fxclsvolume.py:67-70 | one hour's slice has one row per day |
| FxClsVolume.Stacked | findatapy/market/fxclsvolume.py:72-75 | n slices appended hold n times the number of days rows |
| FxClsVolume.PairSeries | findatapy/market/fxclsvolume.py:77 | a pair's series is sorted by timestamp and holds 24 rows per day |
| FxClsVolume.GetFxVolume | findatapy/market/fxclsvolume.py:38-78 | with a single pair taken as a one-pair list: KeyError, naming a missing column, exactly when some pair lacks one of its 24 columns; otherwise one series per pair, in pair order, named t + ".volume", holding that pair's sorted hourly series |
| FxClsVolume.ReshapePairs | findatapy/market/fxclsvolume.py:59-78 | the loop over a list of pairs: KeyError, naming a missing column, exactly when some pair lacks one of its 24 columns; otherwise one series per pair, in pair order, named t + ".volume", holding that pair's sorted hourly series |
| FxClsVolume.PairSeriesMembers | findatapy/market/fxclsvolume.py:64-77 | every value of day k and hour i appears in the pair's series at day k * 24 + i, and every row of the series is such a value |
| FxClsVolume.PairSeriesHasCell | findatapy/market/fxclsvolume.py:67-70 | the value for day k and hour i is in the pair's series, stamped day k * 24 + i |
| FxClsVolume.PairSeriesRowOrigin | findatapy/market/fxclsvolume.py:67-77 | each row of the pair's series comes from one day and hour of the wide table |
| FxClsVolume.StackedDistinct | findatapy/market/fxclsvolume.py:70 | with distinct days, no two rows of the appended slices share a timestamp |
| FxClsVolume.PairSeriesLookup | findatapy/market/fxclsvolume.py:61-78 | with distinct days, looking up day k * 24 + i in the pair's series gives the wide table's value for day k and hour i |
| FxClsVolume.PairSeriesInDayOrder | findatapy/market/fxclsvolume.py:77 | with days in ascending order, position m of the series holds hour m mod 24 of day m div 24 |
| FxClsVolume.SameRowsAsDayMajor | findatapy/market/fxclsvolume.py:64-77 | the pair's series and the day-then-hour listing of the wide table hold the same rows |
| FxClsVolume.SingleDayInOrder | findatapy/market/fxclsvolume.py:77 | one day whose hourly values are 0 to 23 comes out as 0 to 23, in order |
| TimeSeries.SortByStamp | findatapy/market/fxclsvolume.py:77 | `sort_index` yields a sorted permutation of its input |
| TimeSeries.SortStrict | findatapy/market/fxclsvolume.py:77 | sorting rows with distinct stamps orders them strictly |
| TimeSeries.StrictlySortedUnique | findatapy/market/fxclsvolume.py:77 | two strictly sorted sequences with the same rows are equal |
| Seqs.Filter | findatapy/market/ioengine.py:237-241 | the selection behind the column loop, the cutoff mask (ioengine.py:548) and the NUL removal (ioengine.py:602): it is never longer than the input, every element it keeps passes the test, and it is the whole input when every element passes |
| Seqs.FilterMembers | findatapy/market/ioengine.py:237-239 | a selection holds exactly the elements that pass the test |
| Seqs.FilterConcat | findatapy/market/ioengine.py:237-239 | selection distributes over concatenation, so order is kept |
| Seqs.FilterIdempotent | findatapy/market/ioengine.py:548 | selecting twice with the same test gives the same as once |
| Text.Contains | findatapy/market/ioengine.py:137 | `pat in s` holds when pat occurs at some position k with k + len(pat) <= len(s); the empty pattern occurs in every text, and an occurring pattern is no longer than the text |
| Text.TailSlice | findatapy/market/ioengine.py:318 | `s[-n:]` has length min(n, len(s)) and is a suffix of s |
| Text.TailSliceIsEndsWith | findatapy/market/ioengine.py:318 | comparing `s[-len(ext):]` with ext is exactly a suffix test |
| Text.Slice | findatapy/market/ioengine.py:482 | `s[lo:hi]` is at most hi - lo long; it is the plain slice when hi fits, everything from lo on when only hi is past the end, and empty when lo is past the end |
| Text.Drop | findatapy/market/ioengine.py:403 | `s[n:]` holds the characters from position n on, and is empty when s is shorter |
| Text.Interleave | findatapy/market/ioengine.py:555 | `s.replace("", rep)` has length len(s) + (len(s) + 1) * len(rep) |
| Text.InterleaveAt | findatapy/market/ioengine.py:555 | in `s.replace("", rep)`, block k of length len(rep) + 1 is rep followed by s[k] |
| Text.InterleaveLast | findatapy/market/ioengine.py:555 | `s.replace("", rep)` also ends with rep, after the last character of s |
| Text.Replace | findatapy/market/ioengine.py:555 | `s.replace(pat, rep)` never lengthens s when rep is no longer than a non-empty pat, and never shortens s when rep is at least as long as pat |
| Text.ReplaceRemovesChar | findatapy/market/ioengine.py:555 | replacing a character by text without it leaves none behind |
| Text.ReplaceKeepsAbsent | findatapy/market/ioengine.py:555 | a character absent from the text and from the replacement stays absent |
| Text.ReplaceCharByChar | findatapy/market/ioengine.py:148 | replacing one character by another keeps the length and maps each position on its own |
| Text.ReplaceByEmpty | findatapy/market/ioengine.py:602 | `s.replace(c, "")` keeps every other character, in order |
| Text.Split | findatapy/market/ioengine.py:188 | `s.split(sep)` gives at least one field, none holding sep; the first field is a prefix of s ending at a sep or at the end; there is one field exactly when s has no sep |
| Text.SplitJoin | findatapy/market/ioengine.py:188 | joining the fields of a split with the separator gives back the text |
| Text.DecimalString | findatapy/market/fxclsvolume.py:65 | `str(n)` is a non-empty string of digits, a single digit exactly when n < 10 |
| Text.DecimalStringValue | findatapy/market/fxclsvolume.py:65 | the digits of `str(n)` spell the number n, and the first digit is not 0 unless n is 0 |
| Text.Strip | findatapy/market/ioengine.py:482 | stripping whitespace leaves no whitespace at either end, never lengthens, and leaves text without whitespace at its ends alone |
| Text.StripIsTrim | findatapy/market/ioengine.py:482 | the stripped text is a slice s[a:b] of s, and every character before a and from b on is whitespace |

## Left out

- Storage, files and network are left out: `pandas.HDFStore`, `read_csv`, `read_excel`, `to_excel`, openpyxl, `os.remove`, `os.rename`, `shutil`, `bcolz.ctable`, `bcolz.open`, and the Arctic and pymongo clients. They are I/O in foreign libraries. The model keeps only the index and name logic around them.
- The temp-file replace of the HDF5 non-append write (ioengine.py 283-304) and the Arctic `append`/`write` calls (244-247) are left out. They are foreign calls.
- The `DTS_` column that bcolz writes and reads (196, 397-399) is left out. It is a pandas datetime conversion.
- The file-existence check of the HDF5 read (436): the model says which engine the reader uses, not whether the file is there.
- Deleting the stores in `remove_time_series_cache_on_disk` is left out. Only the choice of engine branch is modelled. CacheNames.RemoveEngineOf and CacheNames.EngineTagsAgree are about that branch choice only: the bcolz branch (findatapy/market/ioengine.py:140-142) is `pass`, so only the arctic and HDF5 branches delete anything.
- `astype('float32')` casts and `write_r_compatible_hdf_dataframe` are left out. They are floating-point conversions.
- Time zones are left out: `tz_localize`, pytz, and the `intraday_tz` argument.
- dateutil's `parse` of a cutoff given as text is left out. The cutoff is an integer timestamp.
- The ciso8601 parser, a parser passed through to pandas, and pandas' handling of a parser that raises are left out. `CsvReader.IntradayParser` only says which parser is chosen.
- The daily `read_csv` fallback from "DATE" to "Date", and the 'events' path with `convert_objects`, are left out. Both are pandas library behaviour.
- `read_excel_data_frame`, `write_time_series_to_csv`, `convert_csv_data_frame` and `create_cache_file_name` are left out. They only delegate to I/O or to unseen configuration (`DataConstants`).
- Logging is left out.
- `clean_csv_file` reading through codecs and moving the temporary file is left out. `CsvReader.CleanCsv` gives the text written back, or none when nothing is written.
- `fetch_market_data`, `MarketDataRequest`, `Calculations().pandas_outer_join` and the final `tz_localize` of fxclsvolume.py (42-57, 80-84) are left out. Their code is not part of this model. `FxClsVolume.GetFxVolume` stops at the per-pair list `df_list`, and the wide table the data source returns is its parameter.
- The `FXCLSVolume` object is left out. `get_fx_volume` reads only its `market_data_generator` attribute (fxclsvolume.py:36), and only to fetch the wide table, which is the parameter `w` of `FxClsVolume.GetFxVolume`. The `cache` dictionary is never used by this operation.
- CacheWriter.Appended and CacheWriter.TableStore.AppendBatch require a non-empty store. With `nrows == 0`, `store.remove(start=-1, stop=0)` depends on PyTables' handling of a negative start, which is not modelled. They also take for granted two things pandas decides: that the store is in table format (with the default tag 'hdf5_fixed', ioengine.py:172, pandas refuses `remove` and an appending `put` on a fixed-format store, as the comment at ioengine.py:256 says), and that the file already holds a 'data' table (on a fresh file `store['data']` at ioengine.py:266 raises KeyError). Both pandas-raised errors are outside the model, and the format that CacheNames.WriteTargetOf parses is not consumed by the append path.
- CsvReader.IntradayParser compares `dateparse` with "dukascopy" and "c" by equality. The source uses `is`, whose result for equal strings depends on interning.
- CsvReader.ParseInt skips only tab, line feed, vertical tab, form feed, carriage return and space around a number, and reads an optional sign and ASCII digits only. That is `int()` on an ASCII text, where the separators 0x1C-0x1F are not skipped. When the text holds a non-ASCII character, Python's `int()` first turns every Unicode whitespace character into a space. Then it also skips 0x1C-0x1F, 0x85, 0xA0 and U+2000-U+200A, and it reads non-ASCII decimal digits. It also accepts '_' between digits. Those inputs are not modelled.
- CacheNames.Basename follows POSIX `os.path.basename`, with '/' as the only separator.
- FxClsVolume.PairSeries sorts with a stable insertion sort. pandas' `sort_index` does not promise an order for rows with equal timestamps, which happen only when the wide table repeats a day. The order-specific lemmas assume distinct or ascending days. Without those assumptions, only sortedness and the set of rows are promised.
- FxClsVolume.GetFxVolume takes the wide table's index to be whole days. Other timestamps are not modelled: `DateOffset(hours=i)` is modelled as adding `i` to a day counted in hours.
