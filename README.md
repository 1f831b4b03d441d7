# filechunk-bundle core, modelled in Dafny

This project models the core of makinacorpus/filechunk-bundle, a Symfony bundle that
receives file uploads in chunks. It covers these parts:

- **The scheme registry of `FileManager`** (`file_manager.dfy`, `path_normalization.dfy`).
  Each scheme maps to a working directory, and the registry is sorted longest first.
  - The lexical `normalizePath` is modelled with both of its PCRE substitutions as
    left-to-right scanners.
  - So are `getScheme`/`stripScheme`, the reverse lookup (`identify`), `getAbsolutePath`,
    `getURI`, `isPathWithin`, `getRelativePathFrom`, `getFileUrl` and the `SchemeURI`
    value.
- **The filesystem side of `FileManager`** (`file_moves.dfy`): the search for a free
  `base_N.ext` name and the `unsafeRename` decision procedure. Around them sit `rename`,
  `renameIfNotWithin` and `deduplicate`, over a `Filesystem` object.
- **The two chunk assemblers** (`chunk_store.dfy`, `file_builder.dfy`,
  `legacy_file_builder.dfy`). These are the current `src/File/FileBuilder.php` and the
  older `File/FileBuilder.php`.
  - Module `ChunkStore` states what each step does to the disk, as functions. The disk
    holds the target file and its `.metadata.json` sidecar `{size, offset}`.
  - Both builder classes are proved against those functions.
  - The lemmas prove how chunked assembly behaves. A chunk is accepted only at the
    recorded offset, progress survives in the sidecar, and the current builder restarts
    at offset 0. A whole upload sent in consecutive chunks through either builder leaves
    exactly the concatenation of the chunks and no sidecar.
- **The per-field configuration** (`field_config.dfy`, `php_values.dfy`). This covers
  parsing a configuration array with PHP's `empty()`, `is_numeric()` and `(int)`, and the
  MIME allow-list.
- **Both session stores** (`session_handler.dfy`, `legacy_session_handler.dfy`). They keep
  the upload token, the token-scoped field configurations, the global configurations and
  the memoised upload directory.
- **`FileEvent`** (`file_event.dfy`). Its original location is fixed, and its "moved" flag
  is sticky.
- **The request checks of both upload controllers** (`upload_controller.dfy`,
  `legacy_upload_controller.dfy`). These are `Content-Range` parsing, the `Content-Length`
  check, the decoding of the `X-File-Name` header, the token check and the size limit.

**How PHP behaviour is modelled.** `php_strings.dfy` and `php_values.dfy` state the PHP
behaviour the source relies on:
- truthiness, where `"0"` is falsy;
- `trim`/`rtrim`/`ltrim`;
- `strpos`;
- decimal printing and parsing;
- `basename`/`dirname`;
- the `(int)` cast;
- the loose `==` of `in_array`.

**Modelling choices.**
- Values the source builds once and never changes are Dafny datatypes: the registry,
  `FieldConfig` and `SchemeURI`.
- Objects whose fields the source updates are classes: the builders, `FileEvent`, the
  session handlers, the session and the filesystem.
- The chunk-length convention follows the code, not the Content-Range header as section
  4.2 of RFC 7233 defines it. `bytes S-E/T` is read as the chunk from S up to, but not
  including, E, so its length is E - S.

## Model

| member | source | states |
|---|---|---|
| PathNormalization.SchemeSeparator | FileManager.php:154-161 | the separator found is the first "://" of the URI and lies at an index above 0, as strpos used as a truth value demands |
| PathNormalization.SchemeSplit | FileManager.php:154-173 | getScheme and stripScheme cut at the first "://" only when it is past index 0, and then the URI is scheme + "://" + rest; otherwise there is no scheme and the URI is kept whole |
| PathNormalization.SchemeRoundTrip | FileManager.php:154-173 | a non-empty scheme name without ':' followed by "://" is recognised, and stripping it gives the rest back |
| PathNormalization.CollapseSlashes | FileManager.php:203 | the `//+` substitution leaves no "//", never lengthens the string and keeps its first character |
| PathNormalization.ParentScan | FileManager.php:203 | the `seg/..` substitution changes nothing exactly when it counts no match, and shortens the string when it counts one, which is why the do-while ends |
| PathNormalization.ResolveLoop | FileManager.php:200-204 | the do-while loop ends with a string free of "//" |
| PathNormalization.CollapseKeeps | FileManager.php:203 | collapsing slashes leaves a string without "//" unchanged |
| PathNormalization.NormalizeSpecialCases | FileManager.php:187-189 | an input without '/', or exactly "/", "." or "..", comes back unchanged |
| PathNormalization.NormalizedPathShape | FileManager.php:191-206 | apart from the result "/", the part after the scheme contains no "//" and does not end in '/' |
| PathNormalization.NormalizeKeepsScheme | FileManager.php:195-206 | a truthy scheme prefix survives normalisation verbatim, and only the part after it is rewritten |
| PathNormalization.ParentAtEnd | Tests/Unit/PathNormalizationTest.php:19 | `a/b/..` normalises to `a` for any one-character segments a and b that are neither '/' nor '.' |
| PathNormalization.DotsWithSlash | Tests/Unit/PathNormalizationTest.php:44-45 | "./" normalises to "." and "../" to ".." |
| FileManagers.ValidSchemeNameHasNoColon | FileManager.php:87 | a scheme name the constructor accepts is non-empty and has no ':', so it can be split off again |
| FileManagers.Normalized | FileManager.php:86-94 | the registry keeps every scheme in its order, with its working directory normalised |
| FileManagers.InsertionPoint | FileManager.php:98-100 | a new entry goes after every entry at least as long as it and before the first shorter one, which makes the sort stable |
| FileManagers.SortByLengthSorted | FileManager.php:98-100 | the sorted registry is ordered by descending working-directory length and is a permutation of the entries |
| FileManagers.SortByLengthDistinct | FileManager.php:86-100 | sorting keeps the scheme names distinct |
| FileManagers.Lookup | FileManager.php:235-238 | `isset($knownSchemes[$scheme])` finds a registered entry's directory, and finds nothing only for an unregistered scheme |
| FileManagers.LookupDistinct | FileManager.php:235-238 | with distinct names, looking a scheme up returns its own working directory |
| FileManagers.FirstPrefixFrom | FileManager.php:247-255 | the index found is the first entry, in registry order, whose working directory is a string prefix of the path; none found means no entry is a prefix |
| FileManagers.FileManager.GetWorkingDirectory | FileManager.php:261-264 | a known scheme yields its registered directory, and an unknown one throws naming the scheme |
| FileManagers.PathWithinIsPrefix | FileManager.php:288-291 | `strpos($filename, $directory) === 0` is exactly the string-prefix test |
| FileManagers.RelativeToSplits | FileManager.php:600-611 | on absolute paths a relative path exists exactly when the directory is a prefix, and it is what follows the directory once the separating '/' are dropped |
| FileManagers.RelativePathIffWithin | FileManager.php:296-302 | getRelativePathFrom yields a path exactly when isPathWithin holds |
| FileManagers.FileUrlIffWithinWebroot | FileManager.php:616-622 | getFileUrl yields a path exactly when a truthy webroot is set and the file lies within it, and then it is the path relative to the webroot |
| FileManagers.IdentifyLocalFile | FileManager.php:229-232 | `file://rest` is looked up as the rooted local path "/" + trim(rest, "/") |
| FileManagers.IdentifyExplicitScheme | FileManager.php:234-241 | a known explicit scheme yields its working directory and the rest without leading '/'; an unknown explicit scheme yields null |
| FileManagers.IdentifyLongestPrefix | FileManager.php:247-255 | for a path without a scheme, identify yields null exactly when no working directory is a prefix; otherwise it picks a longest such directory and the rest without leading '/' |
| FileManagers.DynamicLongestPrefix | FileManager.php:247-255 | the first prefix match in a registry sorted longest first is a longest match |
| FileManagers.SchemeURIRoundTrip | FileManager.php:726-729 | the string form `scheme://rel` of an identity identifies back to that same identity |
| FileManagers.AbsolutePathOfSchemeRoot | FileManager.php:631-636 | getAbsolutePath("scheme://") of a known scheme is that scheme's working directory |
| FileManagers.IdentityIsEntry | FileManager.php:223-256 | whatever unsafeIdentify returns pairs a registered scheme with its own working directory, and its relative path never starts with '/' |
| FileManagers.GetURIRoundTrip | FileManager.php:655-664 | getURI gives the normalised path back when it is not identified; otherwise it gives the identity's `scheme://rel`, which identifies back to that same identity |
| FileManagers.IdentifyPrivateFile | Tests/Unit/FileManagerTest.php:87-93 | with the test's registry, the normalised path `/some/private/file/is/here.png` is identified as scheme "private" with relative path `file/is/here.png`, whose URI is `private://file/is/here.png` |
| FileManagers.RegistryContents | FileManager.php:86-100 | the stored registry is sorted with distinct names, holds exactly the registered schemes, and maps each to its normalised working directory |
| FileManagers.NewFileManager | FileManager.php:84-105 | the constructor succeeds exactly when every scheme name matches `^[a-z0-9]+$`; otherwise it throws on the first invalid name; on success it stores the sorted, normalised registry |
| FileManagers.SortEntries | FileManager.php:98-100 | the insertion-sort loop computes the stable descending-length sort, which is ordered and a permutation |
| FileManagers.FindInsertionPoint | FileManager.php:98-100 | the scan stops at the stable insertion point |
| FileMoves.Moved | FileManager.php:484 | an overwriting rename puts the source's contents at the destination, removes the source, and keeps every other file |
| FileMoves.Filesystem.Mkdir | FileManager.php:457 | mkdir adds the directory and changes no file |
| FileMoves.Filesystem.Move | FileManager.php:484 | rename changes the filesystem as Moved says |
| FileMoves.SplitExtension | FileManager.php:352-358 | the extension is split at the last '.' only when that dot is not the first character, and the parts rejoin to the basename |
| FileMoves.CandidateInjective | FileManager.php:361-368 | different counters give different candidate names |
| FileMoves.TriedBound | FileManager.php:360-368 | the counter cannot exceed the number of existing paths, so the search ends |
| FileMoves.FirstFree | FileManager.php:360-368 | the counter found is the smallest one whose candidate is free |
| FileMoves.DeduplicateNameIsFirstFree | FileManager.php:349-371 | the deduplicated name does not exist, and it is `dir/base_N[.ext]` for the least N >= 1 that is free |
| FileMoves.UnsafeDeduplicate | FileManager.php:349-371 | the do-while loop returns the first free candidate name |
| FileMoves.Hour12 | FileManager.php:439-446 | the 'h' format is a 12-hour clock value from 1 to 12 congruent to the hour modulo 12 |
| FileMoves.StrategyDirectoryFields | FileManager.php:427-454 | 'date' appends Y/m/d and 'datetime' appends Y/m/d/h/i, as zero-padded numbers that read back as the date's fields |
| FileMoves.RenameFailsEarly | FileManager.php:423-451 | a missing source or an unknown strategy throws before anything on disk changes |
| FileMoves.RenameKeepsOtherFiles | FileManager.php:465-482 | without the OVERWRITE flag no file other than the source is replaced or lost |
| FileMoves.RenameMovesContents | FileManager.php:465-486 | on success the source's contents are under the returned name and the source is gone, unless the destination was its duplicate |
| FileMoves.RenameConflictPolicy | FileManager.php:427-482 | for every naming strategy that yields a directory, a non-duplicate conflict at `destination/basename` is resolved the same way: OVERWRITE returns that name; otherwise RENAME returns a fresh name that is neither a file nor a directory; with neither flag the rename throws "file exists" |
| FileMoves.UnsafeRename | FileManager.php:420-487 | the method's result and the filesystem afterwards are those of the decision procedure RenameEffect |
| FileMoves.Rename | FileManager.php:502-512 | rename resolves both arguments to absolute paths, renames, and returns the new location as a URI |
| FileMoves.RenameIfNotWithin | FileManager.php:529-542 | a source already within the destination is left alone and its URI returned; otherwise this behaves as rename |
| FileMoves.Deduplicate | FileManager.php:412-415 | deduplicate returns the URI of the first free name for the absolute path |
| ChunkStore.SidecarPath | src/File/FileBuilder.php:52-55 | the sidecar's path extends the target file's path |
| ChunkStore.GuardNeverRejects | src/File/FileBuilder.php:33 | the guard as written never throws, and a zero size gets a one-byte file |
| ChunkStore.GuardRejectsUnallocatable | src/File/FileBuilder.php:33 | the intended guard rejects exactly the sizes for which preallocation cannot make a file of that size |
| ChunkStore.Preallocate | src/File/FileBuilder.php:156-171 | a new file is zeros up to the last byte, which is 'a', at full size (one byte when the seek fails) |
| ChunkStore.WriteAt | src/File/FileBuilder.php:249-253 | the chunk lands at its position, and other bytes are kept or zero-filled |
| ChunkStore.CopyCount | src/File/FileBuilder.php:249-253 | stream_copy_to_stream copies at most `length` bytes when a length is given, and everything otherwise |
| ChunkStore.ReadMetadataContract | src/File/FileBuilder.php:97-143 | reading the sidecar never touches a file. A stale sidecar is deleted. A matching sidecar beside the file sets the offset. A mismatched or unreadable one is deleted and throws. Without a sidecar the offset is kept |
| ChunkStore.OpenFile | src/File/FileBuilder.php:150-203 | openFile fails exactly on an existing file of another size; otherwise the file exists at full size, a new one preallocated, and sidecars are untouched |
| ChunkStore.Restart | src/File/FileBuilder.php:229-235 | the restart deletes the sidecar and recreates the file preallocated |
| ChunkStore.Prepare | src/File/FileBuilder.php:226-237 | the try block rethrows exactly when the start is not 0 and reading the sidecar or opening the file failed; otherwise the target file exists at its full size |
| ChunkStore.WriteFailsIff | src/File/FileBuilder.php:226-237 | write() throws exactly when the start is not 0 and reading the sidecar or opening the file failed; an offset mismatch is a refusal, not an exception |
| ChunkStore.DeleteEffect | src/File/FileBuilder.php:278-289 | delete reports true exactly when the file or the sidecar existed. It removes the file, and removes the sidecar only when there was no file |
| ChunkStore.StartZeroNeverFails | src/File/FileBuilder.php:226-237 | a write at offset 0 never throws, because every failure is recovered by a restart |
| ChunkStore.FailureTouchesNoFile | src/File/FileBuilder.php:226-237 | a write that throws had a non-zero start, and only the sidecar read persists |
| ChunkStore.AcceptedIffAtOffset | src/File/FileBuilder.php:239-241 | a chunk is written exactly when its start equals the offset in force after the sidecar was read |
| ChunkStore.RejectWritesNothing | src/File/FileBuilder.php:239-241 | a refused write copies nothing, keeps the offset read, and never writes this upload's sidecar |
| ChunkStore.AcceptedWrite | src/File/FileBuilder.php:249-272 | an accepted write copies the chunk to `start`, sets the offset to start + length whatever was copied, returns the bytes copied, and deletes the sidecar exactly when complete, else records {size, offset} |
| ChunkStore.ResumeFromSidecar | src/File/FileBuilder.php:257-261 | after an unfinished write, a new builder reads back the offset start + length |
| ChunkStore.RestartKeepsStaleOffset | src/File/FileBuilder.php:226-241 | the restart at 0 does not reset an offset already read from a sidecar of a wrong-sized file, so that chunk is still refused |
| ChunkStore.LegacyRejectIff | File/FileBuilder.php:204-206 | the older builder refuses exactly a start other than its offset, and then nothing on disk changes |
| ChunkStore.LegacyNoRestart | File/FileBuilder.php:202-242 | the older builder has no recovery, so an existing file of another size makes every write at the offset throw and changes nothing |
| ChunkStore.LegacyAcceptedWrite | File/FileBuilder.php:228-234 | an accepted write of the older builder sets offset = start + length, and deletes the sidecar exactly when complete, else records {size, offset} |
| ChunkStore.ChunkStep | src/File/FileBuilder.php:219-273 | during an upload both builders accept the next chunk and do the same thing with it |
| ChunkStore.NextDiskPlaces | File/FileBuilder.php:28-46 | one request through either builder, including the older one's constructor-time sidecar read, places the chunk |
| ChunkStore.PlaceChunkBetween | src/File/FileBuilder.php:255-261 | a placed chunk leaves the disk ready for the next chunk at start + length |
| ChunkStore.PlaceChunkContent | src/File/FileBuilder.php:249-253 | a placed chunk lands at `start` in a file of full size and keeps the bytes before it |
| ChunkStore.RunIsPlaced | src/File/FileBuilder.php:219-273 | requests that each place their chunk, sent one after the other, do what placing all the chunks does |
| ChunkStore.UploadIsPlaced | src/File/FileBuilder.php:219-273 | a sequence of requests through either builder places the chunks in order |
| ChunkStore.PlacedBetween | src/File/FileBuilder.php:255-261 | after placing chunks, the disk is ready for the chunk that follows them |
| ChunkStore.PlacedFileContent | src/File/FileBuilder.php:249-253 | chunks placed in order lie at `start` as their concatenation, and the bytes before are kept |
| ChunkStore.PlacedContent | src/File/FileBuilder.php:249-261 | on the disk, chunks placed in order lie at `start` as their concatenation in a file of full size |
| ChunkStore.UploadReassembles | src/File/FileBuilder.php:219-273 | a whole upload of non-empty chunks from an empty disk leaves exactly the concatenation of its chunks and no sidecar, with either builder |
| FileBuilders.FileBuilder.constructor | src/File/FileBuilder.php:31-47 | a new builder has offset 0, its size and name, and the given path or the system temporary directory |
| FileBuilders.FileBuilder.DeleteMetadataFile | src/File/FileBuilder.php:60-66 | removes the sidecar and nothing else |
| FileBuilders.FileBuilder.WriteMetadataFile | src/File/FileBuilder.php:71-81 | records {size, offset} in the sidecar and changes no file |
| FileBuilders.FileBuilder.DeleteTemporaryFile | src/File/FileBuilder.php:86-92 | removes the target file and nothing else |
| FileBuilders.FileBuilder.ReadMetadataFile | src/File/FileBuilder.php:97-143 | disk, offset and exception are those of ReadMetadata |
| FileBuilders.FileBuilder.OpenFile | src/File/FileBuilder.php:150-203 | the disk and error are those of ChunkStore.OpenFile, and nothing changes on failure |
| FileBuilders.FileBuilder.Prepare | src/File/FileBuilder.php:226-237 | the try/catch does what ChunkStore.Prepare says |
| FileBuilders.FileBuilder.Accept | src/File/FileBuilder.php:249-272 | the copy and bookkeeping do what ChunkStore.Accept says, and lastWriteSize is the bytes copied |
| FileBuilders.FileBuilder.Write | src/File/FileBuilder.php:219-273 | write changes disk and offset and returns what WriteEffect says, and records the copied count as lastWriteSize |
| FileBuilders.FileBuilder.Delete | src/File/FileBuilder.php:278-289 | delete does what DeleteEffect says |
| LegacyFileBuilders.LegacyFileBuilder.constructor | File/FileBuilder.php:28-44 | the assignments: offset 0, size, name, and the given path or the system temporary directory |
| LegacyFileBuilders.LegacyFileBuilder.Open | File/FileBuilder.php:28-46 | construction reads the sidecar, and yields a builder at the offset read or the exception after the bad sidecar was deleted |
| LegacyFileBuilders.LegacyFileBuilder.DeleteMetadataFile | File/FileBuilder.php:58-64 | removes the sidecar and nothing else |
| LegacyFileBuilders.LegacyFileBuilder.WriteMetadataFile | File/FileBuilder.php:66-76 | records {size, offset} in the sidecar and changes no file |
| LegacyFileBuilders.LegacyFileBuilder.ReadMetadataFile | File/FileBuilder.php:81-129 | disk, offset and exception are those of ReadMetadata |
| LegacyFileBuilders.LegacyFileBuilder.OpenFile | File/FileBuilder.php:137-186 | the disk and error are those of ChunkStore.OpenFile |
| LegacyFileBuilders.LegacyFileBuilder.Write | File/FileBuilder.php:202-242 | write changes disk and offset and returns what LegacyWriteEffect says |
| FieldConfigs.ParsePositiveInt | src/FieldConfig.php:25-37 | an empty value gives null. A numeric value of at least 1 gives its integer. Anything else throws, or gives null when invalid values are allowed |
| FieldConfigs.ParseSize | src/FieldConfig.php:42-54 | an empty value gives null. An int or a string gives its (int) cast. Anything else throws, or gives null when invalid values are allowed |
| FieldConfigs.ParsePath | src/FieldConfig.php:59-71 | an empty value gives null. A string gives its normalised path. Anything else throws, or gives null when invalid values are allowed |
| FieldConfigs.Get | src/FieldConfig.php:79-84 | `$input[$key] ?? $default` |
| FieldConfigs.FromArrayFields | src/FieldConfig.php:76-87 | fromArray throws exactly when a parser throws; the fields are the parsed values; name, MIME list and naming strategy are stored as given |
| FieldConfigs.FromArrayRejectsNonStringDirectory | src/FieldConfig.php:84 | a non-string target directory always throws, because fromArray does not pass allowInvalid to parsePath |
| FieldConfigs.FromArrayDefaults | src/FieldConfig.php:76-87 | an empty array gives null limits, strategy and directory, and an empty MIME list |
| FieldConfigs.ParsePositiveIntOfNat | src/FieldConfig.php:25-37 | a positive count, as an int or as its decimal string, is read back |
| FieldConfigs.ParseSizeOfNat | src/FieldConfig.php:42-54 | a positive size, as an int or as its decimal string, is read back |
| FieldConfigs.NegativeCountRejected | src/FieldConfig.php:25-37 | a negative count throws |
| FieldConfigs.IsMimeTypeAllowed | src/FieldConfig.php:108-114 | an empty list allows every type. A truthy non-array throws in in_array. A refusal means the type is not listed |
| FieldConfigs.MimeAllowListIsMembership | src/FieldConfig.php:108-114 | with a non-empty list of type names, a type is allowed exactly when it is listed |
| FieldConfigs.GetAllowedMimeTypes | src/FieldConfig.php:119-122 | the ?array return is the stored list, and a stored value of another type is a TypeError |
| FieldConfigs.GetNamingStrategy | src/FieldConfig.php:135-138 | the ?string return is the stored strategy, and a stored value of another type is a TypeError |
| SessionHandlers.StoredToken | src/FileSessionHandler/AbstractFileSessionHandler.php:37 | the stored token counts only when it is truthy text |
| SessionHandlers.FileSessionHandler.constructor | src/FileSessionHandler/SessionFileSessionHandler.php:17-22 | the handler starts with no global configurations and no upload directory, and satisfies its invariant when the session it is given is well kept |
| SessionHandlers.FileSessionHandler.NewToken | src/FileSessionHandler/AbstractFileSessionHandler.php:38 | a generated token is truthy |
| SessionHandlers.FileSessionHandler.GetCurrentToken | src/FileSessionHandler/AbstractFileSessionHandler.php:33-43 | returns the stored token and changes nothing; without one, stores a fresh one and returns it, so consecutive calls agree |
| SessionHandlers.FileSessionHandler.RegenerateToken | src/FileSessionHandler/AbstractFileSessionHandler.php:48-53 | removes the stored token and stores a fresh one |
| SessionHandlers.FileSessionHandler.GetUploadDirectory | src/FileSessionHandler/AbstractFileSessionHandler.php:58-61 | chooses the directory on the first call and returns the memoised one afterwards |
| SessionHandlers.FileSessionHandler.GetTemporaryFilePath | src/FileSessionHandler/AbstractFileSessionHandler.php:66-69 | the path is directory/token, plus /name for a truthy name |
| SessionHandlers.FileSessionHandler.IsTokenValid | src/FileSessionHandler/AbstractFileSessionHandler.php:74-79 | the token is valid exactly when the session holds exactly that text under the token key |
| SessionHandlers.FileSessionHandler.AddGlobalFieldConfig | src/FileSessionHandler/AbstractFileSessionHandler.php:84-87 | stores the configuration under its name, and the last one added wins |
| SessionHandlers.FileSessionHandler.GetGlobalFieldConfig | src/FileSessionHandler/AbstractFileSessionHandler.php:92-95 | the configuration stored under the name, or null |
| SessionHandlers.FileSessionHandler.AddFieldConfig | src/FileSessionHandler/AbstractFileSessionHandler.php:100-103 | stores the configuration in the session under the current token's key |
| SessionHandlers.FileSessionHandler.GetFieldConfig | src/FileSessionHandler/AbstractFileSessionHandler.php:108-111 | the lookup under the current token's key, which keeps the session unchanged once a token exists |
| SessionHandlers.FieldKeyIsNotTokenKey | src/FileSessionHandler/AbstractFileSessionHandler.php:116-119 | a field key never collides with the token key |
| SessionHandlers.FieldKeyInjective | src/FileSessionHandler/AbstractFileSessionHandler.php:116-119 | under one token, different field names have different keys |
| SessionHandlers.LookupPrefersSession | src/FileSessionHandler/AbstractFileSessionHandler.php:108-111 | the session entry wins over the global one, the global one over null; text under the key is a TypeError |
| SessionHandlers.AddThenLookup | src/FileSessionHandler/AbstractFileSessionHandler.php:100-111 | after addFieldConfig, getFieldConfig of that name gives it back, whatever the globals, and other names are unaffected |
| SessionHandlers.TokenValidIsStored | src/FileSessionHandler/AbstractFileSessionHandler.php:74-79 | a truthy token is valid exactly when it is the one getCurrentToken returns |
| SessionHandlers.RegeneratedTokenValidity | src/FileSessionHandler/AbstractFileSessionHandler.php:48-53 | after regeneration the new token is valid, and a previous one is valid only if the generator gave it back |
| SessionHandlers.UploadDirectoryChoice | src/FileSessionHandler/AbstractFileSessionHandler.php:124-146 | the upload scheme's directory, else temporary + "/filechunk", else the system temporary directory + "/filechunk" |
| SessionHandlers.TemporaryFilePathShape | src/FileSessionHandler/AbstractFileSessionHandler.php:66-69 | the path starts with directory/token and ends with /name exactly when a truthy name is given |
| LegacySessionHandlers.TokenCheckAsWritten | FileSessionHandler.php:102-105 | as written, the check answers false when no token is stored and throws when one is |
| LegacySessionHandlers.TokenCheckAsWrittenNeverAccepts | FileSessionHandler.php:102-105 | the check as written never accepts, not even the current token, which the intended check accepts |
| LegacySessionHandlers.LegacyFileSessionHandler.constructor | FileSessionHandler.php:23-25 | the handler starts with no global configurations and no upload directory, and satisfies its invariant when the session it is given is well kept |
| LegacySessionHandlers.LegacyFileSessionHandler.GetCurrentToken | FileSessionHandler.php:35-43 | returns the stored token, or stores a fresh one and returns it |
| LegacySessionHandlers.LegacyFileSessionHandler.RegenerateToken | FileSessionHandler.php:49-54 | removes the stored token and stores a fresh one |
| LegacySessionHandlers.LegacyFileSessionHandler.GetUploadDirectory | FileSessionHandler.php:86-89 | chooses the directory on the first call and returns the memoised one afterwards |
| LegacySessionHandlers.LegacyFileSessionHandler.GetTemporaryFilePath | FileSessionHandler.php:94-97 | the path is directory/token, plus /name for a truthy name |
| LegacySessionHandlers.LegacyFileSessionHandler.IsTokenValid | FileSessionHandler.php:102-105 | as intended, a truthy token is valid exactly when it is the stored one |
| LegacySessionHandlers.LegacyFileSessionHandler.IsTokenValidAsWritten | FileSessionHandler.php:102-105 | as written, the check throws exactly when a token key is present |
| LegacySessionHandlers.LegacyFileSessionHandler.AddGlobalFieldConfig | FileSessionHandler.php:118-121 | stores the configuration under its name, overwriting an earlier one |
| LegacySessionHandlers.LegacyFileSessionHandler.GetGlobalFieldConfig | FileSessionHandler.php:126-129 | the configuration stored under the name, or null |
| LegacySessionHandlers.LegacyFileSessionHandler.AddFieldConfig | FileSessionHandler.php:134-137 | stores the configuration in the session under the current token's key |
| LegacySessionHandlers.LegacyFileSessionHandler.GetFieldConfig | FileSessionHandler.php:142-145 | the session entry for the current token, else the global one, else null |
| FileEvents.MovedAwayIsSticky | FileEvent.php:51-59 | once some location differed from the original, later locations do not undo it |
| FileEvents.MovedAwayStep | FileEvent.php:51-59 | one more location means moved exactly when moved before or the new one is not the original |
| FileEvents.MovedAwayThenBack | FileEvent.php:51-59 | a file moved away and set back is at its original location and still reported as moved |
| FileEvents.FileEvent.constructor | FileEvent.php:27-46 | after `with(u, …)` the current and original URIs are u, nothing has moved, and the other values are stored |
| FileEvents.FileEvent.SetNewLocation | FileEvent.php:51-59 | the current URI becomes the new one, and the moved flag becomes true when that one is not the original and is never reset |
| FileEvents.FileEvent.HasFieldConfig | FileEvent.php:80-83 | true exactly when a field configuration is present |
| FileEvents.FileEvent.GetSha1Summary | FileEvent.php:112-115 | the stored checksum, and a TypeError when none was given |
| UploadHeaders.MatchRange | src/Controller/UploadController.php:47-49 | a match captures three non-empty digit runs |
| UploadHeaders.MatchRangeIff | src/Controller/UploadController.php:47-49 | the pattern matches exactly `bytes a-b/c` with three non-empty digit runs, and captures those runs |
| UploadHeaders.MatchRangeShape | src/Controller/UploadController.php:47-49 | what matches is the three captured runs written as `bytes a-b/c` |
| UploadHeaders.MatchRangeOfText | src/Controller/UploadController.php:47-49 | `bytes a-b/c` with digit runs is captured back |
| UploadHeaders.ParseRange | src/Controller/UploadController.php:44-83 | an accepted range has start <= stop <= filesize |
| UploadHeaders.ParseRangeSound | src/Controller/UploadController.php:44-83 | whatever is accepted is `bytes S-E/T` once trimmed, with the values of its digit runs and S <= E <= T |
| UploadHeaders.ParseRangeOfHeader | src/Controller/UploadController.php:72-82 | a printed `bytes S-E/T` is accepted exactly when S <= E <= T, and then read back; S == E is accepted |
| UploadHeaders.RangeTextIsTrimmed | src/Controller/UploadController.php:47 | a header ending in a digit has nothing to trim |
| UploadHeaders.ContentLengthChecks | src/Controller/UploadController.php:243-246 | a decimal Content-Length passes exactly when it equals E - S, and a missing one only for an empty chunk |
| UploadHeaders.CleanupFilename | src/Controller/UploadController.php:175-192 | an empty name is denied; otherwise the result is the percent-decoding of the name, base64-decoded first when it looks encoded |
| UploadHeaders.DottedNameIsNotBase64 | src/Controller/UploadController.php:181-185 | a name with a dot not ending in "==" is only percent-decoded |
| UploadHeaders.EncodedNameIsDecoded | src/Controller/UploadController.php:181-185 | a name made of base64 characters, padded with at most two '=', is base64-decoded |
| UploadHeaders.Base64LikeHasNoDot | src/Controller/UploadController.php:181-185 | a base64-looking name has no dot |
| UploadHeaders.OneLineIsEnough | src/Controller/UploadController.php:181-185 | with the `m` flag one base64-looking line of a dotless name is enough to have it decoded |
| UploadHeaders.TooLargeCases | src/Controller/UploadController.php:118-130 | no maximum refuses nothing. A positive maximum refuses exactly larger files. A negative one refuses every non-empty file |
| UploadHeaders.UploadChecksIff | src/Controller/UploadController.php:226-273 | a chunk proceeds exactly when the name, range, Content-Length, token and field checks pass and the file is not too large. It then carries the decoded name, the range and the stated length. The size message comes only after every access check |
| UploadHeaders.EmptyUploadAccepted | src/Controller/UploadController.php:72-82 | `bytes 0-0/0` with no Content-Length passes every header check |
| LegacyUploadHeaders.ParseRangeAsWritten | Controller/UploadController.php:35-77 | an accepted range has start <= stop <= filesize |
| LegacyUploadHeaders.EmptyChunkSlipsThrough | Controller/UploadController.php:72-74 | as written `bytes n-0n/t` passes as the empty chunk [n, n), which the corrected check refuses |
| LegacyUploadHeaders.ParseRange | Controller/UploadController.php:35-77 | as intended, an accepted range has start < stop <= filesize |
| LegacyUploadHeaders.ParseRangeRefinesAsWritten | Controller/UploadController.php:35-77 | the corrected check accepts exactly the non-empty ranges of the current endpoint, and agrees with the written one wherever it accepts |
| LegacyUploadHeaders.PrintedRangesAgree | Controller/UploadController.php:72-74 | on ranges printed without leading zeros the written and corrected checks agree |
| LegacyUploadHeaders.ValidateUploadedFile | Controller/UploadController.php:112-130 | as written: passes exactly on a valid token, with a named field only when its configuration exists and the file is empty; denies an invalid token or a missing configuration; never produces the size message, because reading `maxSize` off the FieldConfig object throws |
| LegacyUploadHeaders.ValidateUploadedFileIntended | Controller/UploadController.php:112-130 | as intended: denies an invalid token or a missing configuration, gives the size message exactly when the file is non-empty and the field's non-zero maximum is below its size, and passes otherwise |
| LegacyUploadHeaders.ValidationAsWrittenVsIntended | Controller/UploadController.php:119-128 | the two validations differ exactly for a valid token, a named and configured field and a non-empty file, where the intended one passes or gives the size message |
| LegacyUploadHeaders.UploadChecksAsWrittenIff | Controller/UploadController.php:152-190 | a chunk proceeds exactly when the name, range, Content-Length and token pass, and for a named field only with an empty file; it carries the name, range and stated length |
| LegacyUploadHeaders.NoUploadProceeds | Controller/UploadController.php:152-190 | with the token check as written no chunk ever reaches the write |
| LegacyUploadHeaders.UploadChecksIntendedIff | Controller/UploadController.php:152-190 | with the three corrections a chunk proceeds exactly when the name is truthy, the range is non-empty with the stated length, the token is the stored one, a named field is configured and the file is not too large for it; the size message comes exactly when everything else passes and the file is too large; nothing crashes; a chunk that proceeds has positive length |

## Left out

- I/O failures. `fopen`, `unlink`, `file_put_contents`, `Filesystem::mkdir` and `rename`
  always succeed in the model. Only the exceptions the source raises itself are modelled.
- `mkdir` in the model does not track parent directories or file modes. `ls`, `exists`,
  `copy`, `mkdir` and `createFile` of FileManager are filesystem wrappers and are not
  modelled.
- `stripLocalScheme`, `getKnownSchemes`, `initializeEnvironment`, `getInstance` and the
  stream wrapper are left out. They are global state and wrapper registration.
- The Windows `DIRECTORY_SEPARATOR` branch of normalizePath (FileManager.php:183-185) is
  not modelled. The model is for '/' systems.
- PathNormalization.ParentAtEnd and PathNormalization.DotsWithSlash cover only three of
  the test vectors of Tests/Unit/PathNormalizationTest.php. Evaluating the scanners on
  the longer literal vectors exceeds the solver budget. The general shape properties are
  proved instead (NormalizedPathShape, NormalizeKeepsScheme).
- Integer array keys are not modelled. PHP turns a numeric scheme name such as "123"
  into an integer key, and the model treats every scheme name as a string.
- The duplicate test (`unsafeIsDuplicateOf`: size, MIME type and sha1 of both files) is
  the `isDuplicate` parameter.
- The current date of the date strategies is the `date` parameter.
- Token randomness (`mt_rand`, `base64_encode`) is a nondeterministic truthy string.
- The JSON encoding of the sidecar is the `Sidecar` datatype. An unreadable or falsy
  document is `Unreadable`.
- `base64_decode` and `rawurldecode` are parameters of the header checks.
- Concurrency is not modelled. There is no locking around the offset check
  (src/File/FileBuilder.php:141-142), and the model has a single writer. Closing file
  handles is also not modelled.
- Integers are unbounded. PHP's 64-bit integer overflow on huge sizes and offsets is not
  modelled, and neither are floats (`round()` in the size message).
- HTTP is not modelled: requests and responses, translation, JSON responses, event
  dispatch, `php://input`, the `token`, `remove` and `deleteAction` endpoints, and the
  Form, Twig, command and dependency-injection glue.
- The rest of upload() and uploadAction() after the header checks is not modelled as one
  operation: the MIME-type check (`validateMimeType` guesses types from file contents),
  the move into the target directory, the FileEvent dispatch and the JSON response. Its
  pieces are modelled separately: FileBuilder.Write, FileMoves.RenameIfNotWithin,
  FileEvent and FileManager.GetFileUrl.
- ChunkStore.LegacyUpload: the older builder's constructor throws on a bad sidecar,
  which ends the request. The run of requests models only uploads in which that does not
  happen, the case UploadIsPlaced is about.
- FileBuilders.FileBuilder.constructor and LegacyFileBuilders.LegacyFileBuilder.constructor
  require a positive size. The source's guard was meant to reject other sizes but rejects
  nothing (see Findings).
- A missing X-File-Name or Content-Range header is modelled as an empty string, which
  is denied. Under strict types the current controller raises a TypeError instead. Both
  end the request without a write.
- FieldConfigs.ParsePositiveInt: strings are numeric only as optionally signed decimal
  integers. Decimal and exponent strings that `is_numeric` accepts ("1.5", "1e3") are
  refused as not an int, where PHP gives 1 and 1000. Float values are not representable.
- FieldConfigs.ParseSize: the (int) cast reads only a leading decimal integer, so "1e3"
  gives 1 where PHP 8 gives 1000. Float values are not representable, so the float
  case of the type check does not arise.
- FileManagers.GetURIRoundTrip: only for registries whose scheme names are truthy and
  not "file". A scheme named "0" or "file" is looked up differently (falsy, or the
  local-file branch), so its URI does not identify back to it.
- FileManagers.IdentifyPrivateFile: it starts from the already normalised path. Running
  normalizePath on the test's literal with `oups/..` exceeds the solver budget; the
  normalisation lemmas cover that step in general.
- ChunkStore.UploadReassembles: only uploads whose chunks are all non-empty. The current
  controller also lets a `bytes S-S/T` chunk through, and such a chunk is not part of
  the proved run.
- UploadHeaders.UploadChecksIff: the field configuration is an input that is either
  present or absent. The TypeError that getFieldConfig raises on text stored under the
  field key (SessionHandlers.LookupPrefersSession) is not carried into the header
  decision; it ends the request before any write.
- UploadHeaders.ParseRange: the sign checks of the source cannot fire on digit runs.
  They are kept, and no contract mentions them.

## Findings

| source | as written | input that shows it | evidently intended | confidence | as-written member | corrected member |
|---|---|---|---|---|---|---|
| src/File/FileBuilder.php:33 | `!0 < $filesize` parses as `(!0) < $filesize`, which compares `true < $filesize` as booleans and is never true, so the guard never throws | filesize 0: no exception, and openFile creates a one-byte file for a zero-byte upload; `bytes 0-0/0` passes the current controller's checks | reject sizes below 1 ("There is no point in creating an empty file") | high; not executed | ChunkStore.GuardNeverRejects | ChunkStore.GuardRejectsUnallocatable |
| Controller/UploadController.php:72 | `$start === $stop` compares the captured digit strings, not their values | `bytes 5-05/10` passes as the empty chunk [5, 5) | refuse a zero-sized chunk whatever digits spell its ends | high; not executed | LegacyUploadHeaders.EmptyChunkSlipsThrough | LegacyUploadHeaders.ParseRange |
| Controller/UploadController.php:127 | `$options['maxSize']` indexes the FieldConfig object that getFieldConfig returns (FileSessionHandler.php:142), which does not implement ArrayAccess, so the read throws an Error | a request naming a configured field with a non-zero file size | give the size message when the field's non-zero maximum, read through getMaxSize(), is below the file size | high; not executed | LegacyUploadHeaders.ValidateUploadedFile | LegacyUploadHeaders.ValidateUploadedFileIntended |
| FileSessionHandler.php:104 | isTokenValid reads `$this->session`, which the class never declares; it is null, so `->get()` throws once a token is stored | any upload request after a token was stored, including one carrying the current token | compare the stored token through getSession() | high; not executed | LegacySessionHandlers.TokenCheckAsWrittenNeverAccepts | LegacySessionHandlers.LegacyFileSessionHandler.IsTokenValid |
