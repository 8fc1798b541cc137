# audio-similarity-search-rs: the metadata store and the feature pipeline's bookkeeping

This project models two parts of the audio similarity search tool in Dafny and proves properties of the model.

**The sample metadata store** (`src/metadata_db.rs`). A SQLite file holds two tables:
- `analysis_root_dirs(id, dir_path)`
- `samples(id, analysis_root_dir_id, file_path UNIQUE)`

`MetadataDatabase` is modelled as a class. Its fields are:
- whether the tables exist
- both tables, as sequences of rows
- the connection's `last_insert_rowid`

The model's operations are `initialize`, `get_id_for_analysis_dir`, `insert_sample_metadata` and `list_audio_files`. Each is a method with a contract that states the new tables and the result. New ids follow SQLite's rowid rule: one more than the largest id, or 1 for an empty table. The listing query `WHERE id > ?1 ORDER BY file_path LIMIT ?2` is a specification function, and its properties are proved as lemmas.

**The feature pipeline's bookkeeping** (`src/feature_extractor.rs`). The model covers:
- the extension filter of `get_audio_files`
- the channel and resampling branches of `decode_and_resample_file`
- the block count, zero padding, block loop and mean pooling of `calculate_mfcc`
- how `decode_and_calculate_mfcc` turns a decode error into a panic
- the single-threaded loop of `extract_features`, which numbers and skips files
- the id → path map that `save_to_file` serialises

Decoding (rodio), resampling (rubato), and the FFT and MFCC (aubio) are foreign code. They are the function-valued fields of `Collaborators`. The model assumes nothing about their values, but as Dafny functions they are total: none of them panics.

A Rust panic is modelled as the `Panicked` case of `Outcome`, kept apart from an `Err` result. Sample values are reals. `F32` adds NaN, the value that mean pooling produces when it divides 0.0 by 0.

Three behaviours of the code are proved as lemmas:
- **`start_offset` is an id threshold, not a position.** `MetadataDb.IdThresholdPagesOverlap` gives a four-row table whose paths sort against the order of their ids. On that table, the pages `(0, 2)` and `(2, 2)` hold the same two rows, and two rows are never listed.
- **A buffer shorter than one block yields NaN.** The block count is computed before the buffer is padded and is not recomputed afterwards. So the zero-padded block is never analysed, and every coefficient is 0.0 / 0.0 (`FeatureExtractor.ShortBufferYieldsNaN`).
- **The block count is computed in f32.** Below 2^24 samples it equals `len / 2048`, and every block lies inside the buffer (`NumBlocksExact`, `BlocksInBounds`). Above that it can be one too many. At 2^25 − 1 samples the count is 16384 where 16383 blocks fit, so the last slice holds only 2047 samples (`LongBufferBlockCountRoundsUp`).

## Model

| member | source | states |
|---|---|---|
| Common.AsU32 | src/feature_extractor.rs:80 | `i as u32` leaves every index below 2^32 unchanged |
| MetadataDb.NextRowId | src/metadata_db.rs:84-91 | the id of a new row exceeds every id in its table; it is 1 for an empty table and otherwise one more than an existing id |
| MetadataDb.RootIdOf | src/metadata_db.rs:70-82 | the root lookup finds nothing exactly when no root row holds the path; a found id belongs to a row holding the path |
| MetadataDb.SampleIdOf | src/metadata_db.rs:114-124 | the sample lookup finds nothing exactly when no sample row holds the path; a found id belongs to a row holding the path |
| MetadataDb.RootIdOfFirstMatch | src/metadata_db.rs:76-82 | the root lookup returns the id of the first row holding the path |
| MetadataDb.SampleIdOfFirstMatch | src/metadata_db.rs:119-124 | the sample lookup returns the id of the first row holding the path |
| MetadataDb.SampleIdOfUnique | src/metadata_db.rs:48-53 | under the UNIQUE constraint on `file_path`, looking up a stored path returns the id of the row that holds it |
| MetadataDb.PathLessIrreflexive | src/metadata_db.rs:141 | `PathLess`, the code-point order of `ORDER BY file_path`: no path sorts before itself under `ORDER BY file_path` |
| MetadataDb.PathLessTransitive | src/metadata_db.rs:141 | the path order is transitive |
| MetadataDb.PathLessTotal | src/metadata_db.rs:141 | of two different paths, one sorts before the other |
| MetadataDb.AboveMembers | src/metadata_db.rs:141 | `Above`: `WHERE id > ?1` keeps exactly the rows whose id is above the threshold |
| MetadataDb.AboveUniquePaths | src/metadata_db.rs:141 | filtering rows keeps their paths distinct |
| MetadataDb.InsertByPath | src/metadata_db.rs:141 | one insertion step of the sort adds exactly the new row |
| MetadataDb.InsertByPathAscending | src/metadata_db.rs:141 | inserting a row with a new path into ascending rows keeps them ascending |
| MetadataDb.SortByPath | src/metadata_db.rs:141 | `ORDER BY file_path` keeps exactly the filtered rows, the same number of them |
| MetadataDb.SortByPathAscending | src/metadata_db.rs:141 | rows with distinct paths come out in strictly ascending path order |
| MetadataDb.ToAudioFiles | src/metadata_db.rs:147-152 | one `AudioFile` per row, in row order, with the row's id and path |
| MetadataDb.ToAudioFilesAppend | src/metadata_db.rs:148-152 | pushing one more row appends exactly its `AudioFile` |
| MetadataDb.QueryRowsFirstByPath | src/metadata_db.rs:139-146 | `QueryRows`: the listing holds min(limit, number of qualifying rows) rows; every row is stored and has an id above `start_offset`; the rows are in strictly ascending path order; every qualifying row left out sorts after every row kept |
| MetadataDb.QueryRowsDistinct | src/metadata_db.rs:141 | a listing never holds two rows with the same id or the same path |
| MetadataDb.IdThresholdPagesOverlap | src/metadata_db.rs:134-141 | on rows c(1), d(2), a(3), b(4), the pages from offsets 0 and 2 with limit 2 are both [a, b] |
| MetadataDb.ListingOfQuery | src/metadata_db.rs:139-153 | the listed files number at most `limit`, are above the threshold, are stored rows, and ascend by path |
| MetadataDb.MetadataDatabase.constructor | src/metadata_db.rs:25-31 | opening the store gives a connection to the tables as they are on disk, with no insert yet |
| MetadataDb.MetadataDatabase.SelectRootId | src/metadata_db.rs:70-82 | the root SELECT finds a row exactly when one holds the path, and returns the first such row's id |
| MetadataDb.MetadataDatabase.InsertRootRow | src/metadata_db.rs:84-91 | the INSERT appends one root row with the next rowid and records that rowid as the last insert |
| MetadataDb.MetadataDatabase.GetIdForAnalysisDir | src/metadata_db.rs:69-94 | get-or-insert: a known directory returns its id and changes nothing; an unknown one gets a new row with the next rowid; without the tables the call fails with the SQLite error |
| MetadataDb.MetadataDatabase.Initialize | src/metadata_db.rs:35-67 | afterwards the tables exist and the directory's id is returned; a new row is added only if the directory was unknown, and samples are untouched |
| MetadataDb.MetadataDatabase.InsertSampleRow | src/metadata_db.rs:102-110 | the INSERT succeeds exactly when the tables exist and the path is new; it then appends a row with the next rowid, and otherwise changes nothing |
| MetadataDb.MetadataDatabase.SelectSampleId | src/metadata_db.rs:114-124 | the sample SELECT finds a row exactly when one holds the path, and returns the first such row's id |
| MetadataDb.MetadataDatabase.InsertSampleMetadata | src/metadata_db.rs:96-132 | a new path gets a new row and its rowid; a stored path returns its existing id and changes nothing; without the tables the prepare error is returned |
| MetadataDb.MetadataDatabase.ListAudioFiles | src/metadata_db.rs:134-154 | without the tables, the prepare error; otherwise the files of the query's rows, at most `limit` of them, each a stored row above `start_offset`, in strictly ascending path order |
| MetadataDb.InitializeTwice | src/metadata_db.rs:35-94 | initializing twice with one directory returns the same id both times and adds at most one root row |
| MetadataDb.InsertSampleTwice | src/metadata_db.rs:96-132 | inserting one path twice, even under another root id, returns the same id, which is the id of the stored row holding the path |
| MetadataDb.NewSampleIdFresh | src/metadata_db.rs:102-110 | a new sample's id differs from every existing id, so ids and paths stay unique and the new path looks up to the new id |
| FeatureExtractor.TrimEnd | src/feature_extractor.rs:23 | `Path` ignores trailing separators and `.` components: the trimmed path is a prefix of the path, non-empty when the path is, and does not end in `/` or `/.` unless it is that short |
| FeatureExtractor.TrimEndRemoves | src/feature_extractor.rs:23 | only separators, and dots that directly follow a separator, are trimmed off |
| FeatureExtractor.LastComponent | src/feature_extractor.rs:23 | the last path component is the whole separator-free tail of the path: it starts at the path's start or right after a `/` |
| FeatureExtractor.LastComponentEmpty | src/feature_extractor.rs:23 | the last component is empty exactly when the path is empty or ends in `/` |
| FeatureExtractor.LastComponentDot | src/feature_extractor.rs:23 | the last component is `.` exactly when the path is `.` or ends in `/.` |
| FeatureExtractor.LastComponentDotDot | src/feature_extractor.rs:23 | the last component is `..` exactly when the path is `..` or ends in `/..` |
| FeatureExtractor.FileNameOf | src/feature_extractor.rs:23 | `FileName` (`Path::file_name`): none exactly when the trimmed path is empty, ends in `/`, or is or ends in a `.` or `..` component; otherwise the whole non-empty last component |
| FeatureExtractor.LastDot | src/feature_extractor.rs:23-24 | there is no dot position exactly when the name has no dot; a found position holds a dot with no dot after it |
| FeatureExtractor.FilterWalk | src/feature_extractor.rs:18-29 | the walk's kept paths are accepted by the filter, were produced by the walk, and are no more than the walk's entries |
| FeatureExtractor.FilterWalkKeeps | src/feature_extractor.rs:18-29 | every walked path the filter accepts is listed |
| FeatureExtractor.GetAudioFilesExact | src/feature_extractor.rs:14-30 | `GetAudioFiles`: no more paths than walk entries, and a path is listed exactly when the walk produced it and its extension is `wav` or `mp3` |
| FeatureExtractor.NameExtensionFromSuffix | src/feature_extractor.rs:23-24 | `NameExtension`: a name that ends in a dot and a dot-free `ext`, after a non-empty stem, has extension `ext` |
| FeatureExtractor.SuffixFromNameExtension | src/feature_extractor.rs:23-24 | `NameExtension`, conversely: a name with extension `ext` ends in a dot and `ext`, after a non-empty stem |
| FeatureExtractor.ExtensionIsDotSuffix | src/feature_extractor.rs:23-24 | `Extension` (`Path::extension`): the extension of a path is a dot-free `ext` exactly when its file name ends in `.ext` after a non-empty stem |
| FeatureExtractor.SupportedIffSuffix | src/feature_extractor.rs:17-27 | `IsSupportedAudioFile`: the filter keeps exactly the paths whose file name ends in `.wav` or `.mp3` after a non-empty stem |
| FeatureExtractor.UpperCaseExtensionRejected | src/feature_extractor.rs:25 | the comparison is case-sensitive, so a name ending in `.WAV` is dropped |
| FeatureExtractor.NoExtensionRejected | src/feature_extractor.rs:23-26 | a name with no dot, or whose only dot starts it, has no extension and is dropped |
| FeatureExtractor.DownmixAt | src/feature_extractor.rs:174-180 | `Downmix`: the mono buffer has half as many samples, rounded down, and sample i is the average of interleaved samples 2i and 2i+1 |
| FeatureExtractor.DecodeAndResampleCases | src/feature_extractor.rs:165-190 | `DecodeAndResampleFile`: the error "Unsupported channel count" is returned exactly for channel counts other than 1 and 2; one channel passes through, two are averaged pairwise; when the rates differ the result is the resampler applied to that mono buffer, from the decoded rate to the requested one, and otherwise the mono buffer itself |
| FeatureExtractor.BitLength | src/feature_extractor.rs:238 | the number of binary digits of a length: 2^(b-1) <= n < 2^b |
| FeatureExtractor.RoundToMultiple | src/feature_extractor.rs:238 | rounding to a multiple of m gives one of the two multiples around n, within m/2 of n, and the even multiple in a halfway case |
| FeatureExtractor.IntToF32Nearest | src/feature_extractor.rs:238 | `IntToF32` is `len as f32`: exact up to 24 binary digits; beyond, a multiple of the spacing 2^(b-24) that is at most 2^24 spacings (an f32 value), nearest to `len`, ties to an even number of spacings |
| FeatureExtractor.IntToF32Exact | src/feature_extractor.rs:238 | `len as f32` is exact below 2^24 |
| FeatureExtractor.IntToF32Large | src/feature_extractor.rs:238 | from 2^24 on, `len as f32` stays at least 2^24 |
| FeatureExtractor.NumBlocksExact | src/feature_extractor.rs:238 | `NumBlocks`: below 2^24 samples, the block count is `len / 2048` |
| FeatureExtractor.NumBlocksZeroIff | src/feature_extractor.rs:238-241 | the block count is 0, and the buffer is padded, exactly when the buffer is shorter than 2048 samples |
| FeatureExtractor.BlocksInBounds | src/feature_extractor.rs:251-253 | below 2^24 samples, every processed block lies inside the buffer, and fewer than 2048 samples follow the last one |
| FeatureExtractor.LongBufferBlockCountRoundsUp | src/feature_extractor.rs:238 | at 2^25 − 1 samples the f32 block count is 16384 while 16383 whole blocks fit, leaving a 2047-sample last slice |
| FeatureExtractor.Resized | src/feature_extractor.rs:240 | `Vec::resize` gives the requested length, keeps the old samples in front, and fills the rest with the value |
| FeatureExtractor.PaddedShape | src/feature_extractor.rs:237-241 | `Padded`: a buffer shorter than a block becomes exactly one block, with its samples followed by zeros; a longer buffer is untouched |
| FeatureExtractor.BlockSums | src/feature_extractor.rs:251-262 | when the block loop completes, it yields `NUM_DIMENSIONS` sums |
| FeatureExtractor.BlockSumsFailsIff | src/feature_extractor.rs:251-257 | over blocks inside the buffer, the loop never panics, and it fails exactly when some block's FFT or MFCC fails |
| FeatureExtractor.CalculateMfccFailsIff | src/feature_extractor.rs:232-268 | `CalculateMfccSpec`: below 2^24 samples, `calculate_mfcc` never panics, and it fails exactly when building the FFT or MFCC fails or some block fails |
| FeatureExtractor.CalculateMfccLength | src/feature_extractor.rs:248-267 | a successful call returns `NUM_DIMENSIONS` coefficients |
| FeatureExtractor.ShortBufferYieldsNaN | src/feature_extractor.rs:238-266 | with the FFT and MFCC built, a buffer shorter than a block yields 13 NaNs |
| FeatureExtractor.SampleBuffer.Resize | src/feature_extractor.rs:240 | resizing the buffer in place leaves exactly `Resized` of the old contents |
| FeatureExtractor.AddInto | src/feature_extractor.rs:259-261 | each running sum in place grows by the block's matching coefficient |
| FeatureExtractor.DivideBy | src/feature_extractor.rs:264-266 | each entry becomes its sum over the block count, or NaN when there are no blocks |
| FeatureExtractor.CalculateMfcc | src/feature_extractor.rs:232-268 | the buffer ends up padded as `Padded`, and the result is the mean pooling of the block loop over the padded buffer, with its errors and panic |
| FeatureExtractor.DecodeAndCalculateMfcc | src/feature_extractor.rs:150-163 | decode, then `calculate_mfcc` at 22050 Hz; a decode error becomes a panic |
| FeatureExtractor.DecodeErrorPanics | src/feature_extractor.rs:150-151 | `FileMfcc`: a file that does not decode, or whose channel count is neither 1 nor 2 (0 included), panics with that error instead of being skipped |
| FeatureExtractor.FileMfccLength | src/feature_extractor.rs:150-163 | `FileMfcc`: a file whose pipeline succeeds yields `NUM_DIMENSIONS` coefficients |
| FeatureExtractor.Kept | src/feature_extractor.rs:76-83 | a loop that does not panic returns `Ok` with at most one feature per file seen |
| FeatureExtractor.ExtractFeatures | src/feature_extractor.rs:67-83 | no listed file gives the error "No files found in …"; otherwise the result is that of the single-threaded loop over the listed files |
| FeatureExtractor.ExtractEach | src/feature_extractor.rs:76-83 | the loop pushes a feature for each file whose MFCC succeeds, skips files whose MFCC fails, and stops at the first panic |
| FeatureExtractor.KeptStep | src/feature_extractor.rs:78-81 | one turn of the loop: a panic ends the run, a failure skips the file, a success pushes `Feature(mfcc, file, i as u32)` |
| FeatureExtractor.KeptPanicPersists | src/feature_extractor.rs:78-82 | after a panic, later files change nothing |
| FeatureExtractor.Selected | src/feature_extractor.rs:78-79 | the positions of files that yield an MFCC are at most as many as the files seen |
| FeatureExtractor.SelectedShape | src/feature_extractor.rs:78-79 | those positions increase, and a position is among them exactly when its file yields an MFCC |
| FeatureExtractor.KeptShape | src/feature_extractor.rs:78-81 | feature j comes from the j-th selected file: its path, its list position as u32, and that file's coefficients |
| FeatureExtractor.KeptPanicsIff | src/feature_extractor.rs:78-81 | the loop panics exactly when some file's pipeline panics |
| FeatureExtractor.KeptIdsIncrease | src/feature_extractor.rs:78-80 | with at most 2^32 files, feature ids strictly increase |
| FeatureExtractor.ExtractFeaturesOutcomes | src/feature_extractor.rs:67-83 | `ExtractFeaturesSpec`: the "No files found" error happens exactly when no file is listed; a success has at most one feature per file; the run panics exactly when some listed file's pipeline panics |
| FeatureExtractor.ExtractedFeatures | src/feature_extractor.rs:67-83 | a successful run has one feature per selected file; each feature's source is a listed file and its vector has 13 entries; with at most 2^32 files, ids strictly increase |
| FeatureExtractor.FeatureMapKeys | src/feature_extractor.rs:117-120 | `FeatureMap`: the map's keys are exactly the features' ids |
| FeatureExtractor.FeatureMapLastWins | src/feature_extractor.rs:117-120 | each id maps to the path of the last feature carrying it |
| FeatureExtractor.BuildFeatureMap | src/feature_extractor.rs:114-120 | the loop builds the map with exactly the ids as keys, and each id holds the path of the last feature with that id |
| FeatureExtractor.SavedMapOfExtraction | src/feature_extractor.rs:78-120 | after a successful extraction over at most 2^32 files, the saved map sends every feature's id to that feature's path |

## Left out

- `RunMode::Parallel` (thread pool and channel): the order in which features arrive depends on thread scheduling, so only the single-threaded loop is modelled.
- `resample_buffer`, rodio decoding, and aubio's FFT and MFCC: foreign libraries, passed in as functions whose values are unconstrained.
- The collaborators are modelled as total functions that never panic. `resample_buffer` can panic (the `.unwrap()` on `SincFixedIn::new` at src/feature_extractor.rs:213), and so could the foreign calls; such panics are not modelled. `KeptPanicsIff` and `ExtractFeaturesOutcomes` therefore count only the panics of the modelled code: the decode `unwrap` and an out-of-range block slice.
- Floating-point arithmetic on sample values: sums and means are reals. The only f32 rounding modelled is the one in the block count, plus the NaN of 0.0 / 0.0.
- File I/O: `load_from_disk` path resolution, `save_to_file`'s JSON encoding and file writing, and `from_file`. `save_to_file` is modelled up to the map it serialises.
- `main.rs`, `lib.rs`, `file_utils.rs`, `vector_db.rs` and `feature.rs` are not part of this model.
- SQLite failures other than a missing table (I/O errors, a locked file, a failing `row.get`), and the `unwrap` on `row.get` in `list_audio_files`: these depend on the database engine, not on the program.
- Rowid overflow: when the largest rowid is 2^63 − 1, SQLite picks an unused id at random. `NextRowId` does not model that case.
- The `CREATE INDEX` statement has no effect on results; it is folded into `tablesExist`.
- The foreign key from samples to roots is not enforced by SQLite by default, and the model does not check it either.
- Paths are `/`-separated strings. Windows prefixes and separators, and non-UTF-8 names (the `to_str` and `into_string().unwrap()` of `get_audio_files`), are not modelled. The directory walk and its order are an input sequence.
- `println!` output.
- DecodeAndCalculateMfcc: the panic carries the decode error's text, not Rust's full `unwrap` panic message.
- BlockSums: a slice start past the buffer's end panics with a fixed message, not Rust's message with the index and length.
- AsU32: the contract states the value only below 2^32. Above that the cast wraps modulo 2^32, and the lemmas about ids assume at most 2^32 files.
- Selected: its own contract states only a bound; the shape of the selection is stated by `SelectedShape`.
- Kept: its own contract states only that it never returns `Err` and the bound on its length; its shape and panics are stated by `KeptShape` and `KeptPanicsIff`.
