# mariabackup: a verified model of the backup chain, the restore walk, the cipher framing and the S3 transfers

`mariabackup` is a small Go tool around MariaDB's own `mariabackup` program.
It takes full and incremental backups into a chain of directories
(`full`, `incr/1`, `incr/2`, …) and records the last link in a position file.
It restores a chain by decompressing and preparing every link in order, then
moving the result back into an empty data directory. A backup artifact can
be encrypted with AES in counter mode: the IV is appended after the
ciphertext, and today's ledger file records the MD5 checksum of the
encrypted file. The artifacts are uploaded to and downloaded from an S3
bucket under `host/date/file` keys, through reader and writer wrappers that
count the bytes they pass.

This project models that core in Dafny and proves what it does.

- The file system is a `Disk` value: a map from paths to directories and files, plus
  - the paths that cannot be opened;
  - the read faults;
  - the number of bytes that can still be written. This quota counts bytes written, not free space: every byte written spends it, an overwrite of existing bytes included, and neither truncation nor removal gives any back. So a short write in the model (as in `Encryption.ShortWriteKeepsInput`) stands for any write that runs out of room, not only for ENOSPC on a file system that overwrites in place.
  A `FileSystem` object holds the current disk.
- Each external program (`stdbuf mariabackup`, `mbstream`) is an oracle from its invocation to its exit status and output. A `ToolRunner` logs every invocation.
- `log.Fatal`, `log.Panic` and runtime panics are the outcome `Aborted`. A loop that can never end is `Hangs`.
- The AES keystream, MD5, gzip compression and decompression, the clock and the host name are parameters.

Every Go function that changes state is a Dafny `method` over these objects. Its `ensures` equates the new state and the result with a pure function of the old state (`BackupSpec`, `RestoreSpec`, `EncryptSpec`, …). The lemmas state the properties of those functions.

Modules:

- `Backup`: `Manager/Backup.go`.
- `LegacyBackup`: the older `backup` of `main.go`.
- `Compression`: the gzip writer both backups copy the tool's output into, and its `Close`.
- `Restore`: `Manager/Restore.go`.
- `Cipher`: the CTR stream and the chunked encrypt and decrypt loops.
- `Framing`: what all encrypt and decrypt versions share: the IV trailer, and the IV read back from the last block.
- `Encryption`: `Manager/Encryption.go` with its checksum ledger.
- `EncryptionRoundTrip`: the round trip through `Encrypt` and `Decrypt` of `Manager/Encryption.go`.
- `LegacyEncrypt` and `LegacyDecrypt`: `Manager/Encrypt.go` and `Manager/Decrypt.go`.
- `Repository`: `Manager/Repository.go`.
- `Progress`: `Manager/UploadProgress.go` and `Manager/DownloadProgress.go`.
- Models of the parts of the Go library the core relies on, written out:
  - `Files`: `os` and `io`.
  - `Decimal`: `strconv.Atoi` and `strconv.Itoa`.
  - `Text`: `string(bytes)` and `strings.Contains`.
  - `Processes`: `os/exec`.
  - `Wrappers`: `Option` and `Result`.

## Model

| member | source | states |
|---|---|---|
| Backup.CreateBackupManager | Manager/Backup.go:36-73 | a manager is made exactly when the mode is `full` or `incremental`; otherwise the error names the mode; a manager holds all twelve settings exactly as given |
| Backup.RunBackup | Manager/Backup.go:75-143 | `Backup` leaves the disk, the programs run and the error that `BackupSpec` gives with the compressor's close unchecked, as the code has it |
| Backup.ExecuteCommandAndSaveOutput | Manager/Backup.go:145-200 | the artifact step creates `backup.gz`, sets up the compressor, starts the tool, copies its output through the compressor and waits for the tool; the deferred `gzw.Close()` then writes the tail and its error is dropped. It returns `Wait`'s error for a non-zero exit status, so the exit-code check after it never fires. All of this is as `ArtifactStep` gives with the close unchecked |
| Backup.SaveBackupPosition | Manager/Backup.go:202-222 | the position file is created and written as `SavePosition` gives |
| Backup.Succeeded | Manager/Backup.go:136-142 | a backup that returns nil ran exactly the one command of its plan, and left the position file holding the decimal text of the plan's position |
| Backup.FullPlan | Manager/Backup.go:81-92 | a full backup plans the directory `target/full`, position 0 and no incremental base |
| Backup.IncrementalPlan | Manager/Backup.go:94-117 | an incremental backup plans `target/incr/(p+1)` and position p+1 from stored p, with base `target/full` when p is 0 and `target/incr/p` otherwise |
| Backup.FullBackup | Manager/Backup.go:81-142 | a full backup that succeeds runs one command to `target/full` with no `--incremental-basedir`, and saves `0` |
| Backup.NoBaseWithoutBase | Manager/Backup.go:132-134 | without a base, no `--incremental-basedir=` argument is added |
| Backup.IncrementalBackup | Manager/Backup.go:94-142 | an incremental backup that succeeds runs one command whose last argument is the base of the stored position, and saves the next position |
| Backup.NextLink | Manager/Backup.go:96-142 | from a position file holding p, a successful incremental backup writes `incr/(p+1)` on top of link p, and the new file parses back to p+1 |
| Backup.ReadFailureAborts | Manager/Backup.go:96-100 | a position file that cannot be read stops an incremental backup before any directory is made or any program is run |
| Backup.UnparseablePosition | Manager/Backup.go:102-111 | text that is not a number counts as position 0: base `full`, new link `incr/1` |
| Backup.ArtifactStepSucceeds | Manager/Backup.go:145-200 | the artifact step succeeds exactly when `backup.gz` can be created, the compressor settings are accepted, the tool streams all its output and exits with status 0, and the part of the compressed output written during the copy fits on the disk; the tail that the close writes counts only when the close's error is checked |
| Backup.ArtifactStepContent | Manager/Backup.go:166-186 | once the tool was run, `backup.gz` holds its compressed output, body and tail, cut where the disk filled, whatever the step returns |
| Backup.TruncatedArtifactAccepted | Manager/Backup.go:166-199 | as written, on a disk with room for the copy but not for the tail, the step returns nil while `backup.gz` is shorter than the compressed output |
| Backup.CheckedCloseComplete | Manager/Backup.go:166-199 | with the close's error reported, a step that returns nil leaves the whole compressed output in `backup.gz` |
| Backup.CheckedBackupComplete | Manager/Backup.go:136-142 | with the close checked, a backup that returns nil has a complete `backup.gz` and the position of its plan saved, when the position file is outside the backup directory |
| Backup.PlanUnderTarget | Manager/Backup.go:81-117 | the artifact of either mode lies inside the target directory |
| Backup.SavePositionFrame | Manager/Backup.go:202-222 | saving the position changes no path but the position file |
| Backup.ArtifactStepFrame | Manager/Backup.go:147-200 | the artifact step changes no path but `backup.gz` |
| Backup.SavedPositionParses | Manager/Backup.go:202-222 | a saved position reads back, through `Atoi`, as the same number |
| Backup.PositionKeptOnFailure | Manager/Backup.go:136-142 | when the backup fails before saving, a position file outside the target directory is neither made, changed nor removed |
| Backup.PlanKeepsOutside | Manager/Backup.go:81-117 | setting up the backup directory keeps every path outside the target directory as it was |
| Backup.FullFailureDropsPosition | Manager/Backup.go:81-142 | a full backup that fails before saving leaves no position file when that file is inside the target directory |
| Compression.CopyInto | Manager/Backup.go:180 | the copy writes the compressor's body from the start of the new, empty `backup.gz`, and leaves the writer healthy exactly when all of the body fit |
| Compression.CloseGzw | Manager/Backup.go:166 | `Close` succeeds only on a healthy writer, and changes nothing but the artifact's bytes and the space left |
| Compression.CopyThenClose | Manager/Backup.go:166-180 | the copy and then the close leave the disk as one write of the whole compressed stream would, and the close succeeds exactly when all of it fits |
| Compression.ClosedArtifact | Manager/Backup.go:166-180 | after the copy and the close, `backup.gz` holds the compressed stream up to where the disk filled, and the free space shrank by exactly that much |
| Compression.CloseCompressor | Manager/Backup.go:166 | the writer's `Close` leaves the disk and the result that `CloseGzw` gives |
| LegacyBackup.RunBackup | main.go:59-165 | `backup` leaves the disk, the programs run and the error that `BackupSpec` gives with the compressor's close unchecked, as the code has it |
| LegacyBackup.Stream | main.go:133-162 | `backup.gz` is created and the tool's output copied through the compressor, as `StreamStep` gives; the writer is handed back open, over `backup.gz`, for the deferred close |
| LegacyBackup.StreamStep | main.go:133-162 | the writer left open is over `backup.gz` in the backup directory, and holds the compressed body when none of its writes fell short |
| LegacyBackup.SaveAndClose | main.go:133-165 | from the creation of `backup.gz` on, `backup` leaves what `Finish` gives with the close unchecked: after a complete copy the position is saved first, and the deferred close then writes the tail, its error dropped |
| LegacyBackup.ArtifactNotPosition | main.go:134-135 | `backup.gz` is never the position file |
| LegacyBackup.SavePositionFrame | main.go:167-187 | saving the position changes no path but the position file |
| LegacyBackup.SavePosition | main.go:167-187 | a successful `saveBackupPos` leaves `target/mariabackup.pos` holding the decimal text of the position |
| LegacyBackup.SavePositionFile | main.go:167-187 | `saveBackupPos` leaves the disk and the error that `SavePosition` gives |
| LegacyBackup.Succeeded | main.go:158-164 | a backup that returns nil ran exactly its plan's command and saved its plan's position |
| LegacyBackup.FullPlan | main.go:66-92 | type `full` plans `target/full`, position 0 and the full command line |
| LegacyBackup.IncrementalPlan | main.go:93-131 | type `incr` with stored p plans `target/incr/(p+1)`, position p+1, and the incremental command on link p |
| LegacyBackup.FullCommandShape | main.go:80-91 | the full command line has no incremental base and has `--version-check` |
| LegacyBackup.FullBackup | main.go:66-165 | a successful full backup runs the full command to `target/full` with `--version-check` and no base, and saves `0` |
| LegacyBackup.NextLink | main.go:93-165 | a successful incremental backup from p writes `incr/(p+1)`; `--incremental-basedir` of link p comes right before `--extra-lsndir`; `--version-check` is there; the position file parses back to p+1 |
| LegacyBackup.IncrementalCommandShape | main.go:117-129 | the incremental command has `--incremental-basedir` of the base right before `--extra-lsndir`, and has `--version-check` |
| LegacyBackup.ExitStatusIgnored | main.go:146-164 | the streaming step succeeds whatever the tool's exit status: exactly when `backup.gz` is created, the tool starts and streams all its output, and the part of the compressed output written during the copy fits |
| LegacyBackup.UnknownType | main.go:59-165 | any other type runs no program, fails at `backup.gz` in the working directory, and changes no other path |
| LegacyBackup.PositionBeforeTail | main.go:144-164 | as written, on a disk with room for the copy and the position text but not for the tail, `backup` returns nil with the new position saved while `backup.gz` is shorter than the compressed output |
| LegacyBackup.ClosedBeforePosition | main.go:144-164 | with the compressor closed, and its error checked, before the position is saved, a `backup` that returns nil leaves the whole compressed output in `backup.gz` and the position saved |
| Restore.CreateRestoreManager | Manager/Restore.go:22-31 | the manager always comes back, holding the two directories |
| Restore.GetBackupPosition | Manager/Restore.go:214-227 | the position is an int64, and 0 when the position file cannot be read |
| Restore.RunRestore | Manager/Restore.go:33-84 | `Restore` leaves the disk, the programs run and the error that `RestoreSpec` gives |
| Restore.DecompressBackup | Manager/Restore.go:86-132 | the work directory is made, the artifact opened and its gzip header read (a directory fails there), and `mbstream -x -C` started and fed, as `Decompress` gives |
| Restore.PrepareBackup | Manager/Restore.go:134-166 | one `mariabackup --prepare` is run; its error is the start failure or `Wait`'s error, which is the exit error for a non-zero status, as `Prepare` gives; the exit-code check after a nil `Wait` never fires |
| Restore.MoveBackupToTargetDirectory | Manager/Restore.go:168-212 | one `mariabackup --move-back` is run; its error is the start failure or `Wait`'s error, the exit-code check after it never firing; then the `mysql` user is looked up, as `MoveBack` gives |
| Restore.LinkPass | Manager/Restore.go:62-74 | one pass of the loop decompresses, then prepares, the link |
| Restore.WalkChain | Manager/Restore.go:55-75 | the loop over i = 0..position leaves what the first position+1 passes give, stopping at the first error |
| Restore.StepsNext | Manager/Restore.go:55-75 | after error-free passes, one more pass adds its own effect to the end |
| Restore.StepsStop | Manager/Restore.go:63-74 | once a pass fails, no later pass runs |
| Restore.UnusableTargetRefused | Manager/Restore.go:34-44 | a target that cannot be opened or is not an empty directory stops `Restore` before it removes or runs anything |
| Restore.PositionSurvivesCleanup | Manager/Restore.go:46-53 | removing the old `restore` directory does not change the position that is read afterwards |
| Restore.StaleRestoreRemoved | Manager/Restore.go:46-75 | after a successful restore, no file left under `restore` from an earlier run is still there |
| Restore.WalkKeepsDirs | Manager/Restore.go:55-75 | the link passes add only directories under `restore` |
| Restore.StepsKeepDirs | Manager/Restore.go:55-75 | a loop whose every pass adds only directories under a path adds only directories there |
| Restore.ExpectedShape | Manager/Restore.go:55-75 | in the expected log, entry 2k is the extraction of link k and entry 2k+1 its prepare |
| Restore.ExpectedLength | Manager/Restore.go:55-75 | n links give 2n programs |
| Restore.WalkLog | Manager/Restore.go:55-75 | an error-free walk of n links runs extract then prepare for links 0, 1, …, n-1, in that order |
| Restore.StepsLog | Manager/Restore.go:55-75 | a loop whose passes each run extract and prepare of their link logs them in link order |
| Restore.SuccessfulRestore | Manager/Restore.go:33-84 | a successful restore runs extract and prepare of every link from 0 to the position, then one move-back |
| Restore.LinkStepKinds | Manager/Restore.go:63-74 | a pass runs only `mbstream` and `--prepare`, and fails only with a decompress or prepare error |
| Restore.DecompressKinds | Manager/Restore.go:86-132 | decompressing runs nothing or just the extraction, and fails only with a decompress error |
| Restore.PrepareKinds | Manager/Restore.go:134-166 | preparing fails only with a prepare error |
| Restore.WalkPrograms | Manager/Restore.go:55-75 | the whole loop runs only `mbstream` and `--prepare`, and fails only with a decompress or prepare error |
| Restore.StepsPrograms | Manager/Restore.go:55-75 | a loop of passes that keep to those programs and errors keeps to them |
| Restore.PrepareArguments | Manager/Restore.go:135-142 | prepare always targets `restore/full`, and gets `--incremental-basedir=restore/incr/i` exactly when i is not 0 |
| Restore.FailureSkipsMoveBack | Manager/Restore.go:63-83 | a decompress or prepare failure means move-back never runs; a successful restore ends with move-back |
| Restore.ChainMoveBack | Manager/Restore.go:53-83 | the same, for the loop and the move-back after it |
| Restore.MoveBackErrors | Manager/Restore.go:168-212 | move-back's errors are never decompress or prepare errors |
| Restore.MissingPositionRestoresFull | Manager/Restore.go:53-84 | a missing or unparseable position file restores link `full` only, without an incremental base |
| Restore.NegativePositionSkipsChain | Manager/Restore.go:55-84 | a negative position runs no link, and runs move-back straight away |
| Restore.ThreeLinkChain | Manager/Restore.go:53-84 | position `2` runs extract and prepare of `full`, `incr/1` and `incr/2`, then move-back |
| Restore.PositionTwo | Manager/Restore.go:214-227 | the text `2` is position 2 |
| Restore.ExpectedThree | Manager/Restore.go:55-75 | the expected programs of three links, written out |
| Restore.PrepareSucceeds | Manager/Restore.go:146-165 | prepare succeeds exactly when the program exits with status 0; any other status is reported as `Wait`'s exit error carrying that status |
| Restore.MoveBackSucceeds | Manager/Restore.go:176-211 | move-back succeeds exactly when the program exits with status 0 and the `mysql` user exists; any other status is reported as `Wait`'s exit error carrying that status |
| Restore.ExtractExitIgnored | Manager/Restore.go:86-132 | decompressing succeeds exactly when the directory is made, and the whole artifact is read as intact gzip and fed to an `mbstream` that started; `mbstream`'s exit status is not looked at |
| Restore.SavedPositionRestored | Manager/Restore.go:214-227 | a position that `saveBackupPosition` wrote is the position `getBackupPosition` reads |
| Cipher.XorSplit | Manager/Encryption.go:71-90 | XOR of a concatenation is the XOR of the first part, then the XOR of the second, the stream going on from where it stopped |
| Cipher.XorTwice | Manager/Encryption.go:154-163 | XORing twice with the same keystream gives the input back |
| Cipher.XorExtend | Manager/Encryption.go:155-166 | the XOR of a slice is the XOR of its two halves, the stream going on from the first |
| Cipher.XorStep | Manager/Encryption.go:155-166 | what was XORed so far, followed by the XOR of the next n bytes, is the XOR of the longer slice |
| Cipher.XorMore | Manager/Encryption.go:155-166 | the same when the chunk is clamped: after the message is complete, a further chunk adds nothing |
| Cipher.Stream.constructor | Manager/Encryption.go:70 | a new stream is at offset 0 of the keystream of its key and IV |
| Cipher.Stream.XorKeyStream | Manager/Encryption.go:74 | `XORKeyStream` XORs the first n bytes of the buffer in place, leaves the rest, and moves the stream n bytes on |
| Cipher.EncryptChunk | Manager/Encryption.go:72-80 | one read, XOR and write: the bytes read are XORed and written after those before; a short write is reported |
| Cipher.EncryptStep | Manager/Encryption.go:71-90 | one pass of the loop keeps the output equal to one write of the XOR of everything read so far |
| Cipher.EncryptLoop | Manager/Encryption.go:71-90 | the encrypting loop leaves the output as one write of the XOR of all readable bytes; it fails exactly when they do not fit |
| Cipher.DecryptChunk | Manager/Encryption.go:156-166 | one read: the chunk is clamped to what remains of the message, XORed and written; write errors are not looked at |
| Cipher.DecryptStep | Manager/Encryption.go:155-176 | one pass of the loop keeps the output equal to one write of the XOR of the message bytes emitted so far |
| Cipher.DecryptLoop | Manager/Encryption.go:155-176 | `msgLen` never goes negative; bytes emitted plus `msgLen` stay the initial `msgLen`; exactly min(bytes read, `msgLen`) bytes are XORed and written, so the last block is never emitted |
| Framing.OpenOutput | Manager/Encryption.go:59-62 | opening with O_RDWR and O_CREATE keeps an existing file as it is; with O_TRUNC it empties the file; either way it fails exactly when the file cannot be created |
| Framing.FrameWrites | Manager/Encryption.go:71-94 | the ciphertext and then the IV are written completely exactly when they fit, and then as one write would leave them |
| Framing.FrameKeeps | Manager/Encryption.go:76-94 | writing the frame changes no other file |
| Framing.UnframeFrame | Manager/Encryption.go:137-139 | in a frame, the last block is the IV, and the XOR of all before it with that IV is the plaintext |
| Framing.RestoredContent | Manager/Encryption.go:155-182 | into an output no longer than the message, decryption leaves exactly the XOR of all but the last block, and removes the input |
| Framing.WriteFrame | Manager/Encryption.go:69-94 | the loop and the IV leave the output and the error that `Frame` gives for the XOR of the readable input |
| Framing.DecryptWithKey | Manager/Encryption.go:132-182 | from the IV read on, `Decrypt` leaves the disk and outcome that `DecryptOpened` gives |
| Encryption.Hex | Manager/Encryption.go:198 | the lower-hex text has two characters per byte |
| Encryption.DigitsDecode | Manager/Encryption.go:198 | the two hex digits of a byte decode to that byte |
| Encryption.HexRoundTrip | Manager/Encryption.go:198 | decoding the hex text of bytes gives the bytes back |
| Encryption.HexInjective | Manager/Encryption.go:198 | two digests have the same hex text exactly when they are equal |
| Encryption.HexNarrow | Manager/Encryption.go:198 | hex text is ASCII, so it survives the round trip through bytes |
| Encryption.Checksum | Manager/Encryption.go:185-199 | `CalculateChecksum` ends the process exactly when the path cannot be opened; a directory opens, so it does not end the process |
| Encryption.WriteChecksumToFile | Manager/Encryption.go:201-241 | the ledger is written as `WriteChecksum` gives |
| Encryption.LedgerHoldsChecksum | Manager/Encryption.go:213-234 | because of O_TRUNC, after a complete write today's ledger holds exactly the new checksum, whatever it held before, and nothing else changes |
| Encryption.LedgerKeepsFiles | Manager/Encryption.go:201-241 | writing the ledger changes no other file |
| Encryption.RecordThenValidate | Manager/Encryption.go:243-270 | validating against a ledger just written gives whether the recorded text contains the checksum |
| Encryption.TamperDetected | Manager/Encryption.go:243-270 | against the ledger of the original's digest, a file validates exactly when its digest equals the original's |
| Encryption.LedgerKeepsOnlyLast | Manager/Encryption.go:222-224 | a second checksum written the same day replaces the first, which no longer validates |
| Encryption.FailedHashPasses | Manager/Encryption.go:185-267 | a read error while hashing, part-way through a file or at once on a directory, gives the empty checksum, which every existing ledger contains, so validation passes |
| Encryption.Encrypt | Manager/Encryption.go:33-103 | `Encrypt` leaves the disk and outcome that `EncryptSpec` gives, with the output opened without O_TRUNC |
| Encryption.Decrypt | Manager/Encryption.go:105-183 | `Decrypt` leaves the disk and outcome that `DecryptSpec` gives, with the output opened without O_TRUNC |
| Encryption.ValidationGate | Manager/Encryption.go:107-111 | a checksum missing from the ledger ends `Decrypt` before anything is opened or written |
| Encryption.ShortWriteKeepsInput | Manager/Encryption.go:76-94 | on a disk too full for the frame, `Encrypt` returns the write error before it records a checksum, and the input file stays |
| Encryption.DirectoryEncryptsToIv | Manager/Encryption.go:39-103 | a directory given as input opens, its first read ends the loop, and `Encrypt` seals an empty ciphertext: the frame is the IV alone, and the checksum and the removal of the directory follow |
| Encryption.SealedDisk | Manager/Encryption.go:91-102 | after the loop, the IV, the checksum and the removal leave the output's frame, today's ledger of its digest, no input, and nothing else changed |
| Encryption.EncryptSeals | Manager/Encryption.go:33-70 | with a readable input, a valid key, random bytes, an output that opens and a positive buffer, `Encrypt` goes on to the loop |
| Encryption.EncryptedDisk | Manager/Encryption.go:33-103 | for a regular-file input, a complete `Encrypt` returns nil, and changes only the output, the ledger and the removed input |
| Encryption.DecryptedDisk | Manager/Encryption.go:105-183 | a complete `Decrypt` of a validated file leaves its output holding the XOR of all but the last block, with the last block as IV |
| EncryptionRoundTrip.FrameOf | Manager/Encryption.go:54-94 | the encrypted file is as long as the plaintext plus one block, and ends with the IV |
| EncryptionRoundTrip.RoundTrip | Manager/Encryption.go:33-183 | `Decrypt` of what `Encrypt` wrote, under the same key and date, gives back the plaintext, when neither output is longer than what is written into it |
| EncryptionRoundTrip.TruncatingRoundTrip | Manager/Encryption.go:33-183 | with O_TRUNC on both outputs, the round trip gives back the plaintext whatever the outputs held before |
| EncryptionRoundTrip.StaleTailBreaksRoundTrip | Manager/Encryption.go:59-62 | an encrypted output that already held a longer file keeps its tail, and the decryption comes out longer than the plaintext |
| LegacyEncrypt.Encrypt | Manager/Encrypt.go:20-89 | the older `Encrypt` leaves the disk and outcome that its `EncryptSpec` gives |
| LegacyEncrypt.EncryptedDisk | Manager/Encrypt.go:20-89 | for a regular-file input, a complete older `Encrypt` returns nil, and changes only the output and the removed input: no checksum is recorded |
| LegacyEncrypt.ShortWriteKeepsInput | Manager/Encrypt.go:58-81 | a short write returns its error before the IV is appended, and the input file stays |
| LegacyDecrypt.Decrypt | Manager/Decrypt.go:19-92 | the older `Decrypt` leaves the disk and outcome that its `DecryptSpec` gives |
| LegacyDecrypt.BufferSizeIgnored | Manager/Decrypt.go:61 | the result does not depend on the `bufferSize` argument |
| LegacyDecrypt.DecryptedDisk | Manager/Decrypt.go:19-92 | a complete older `Decrypt` leaves the XOR of all but the last block, with the last block as IV |
| LegacyDecrypt.RoundTrip | Manager/Decrypt.go:19-92 | the older `Decrypt` of what the older `Encrypt` wrote gives back the plaintext |
| Repository.Join | Manager/Repository.go:124 | a key has no empty element, and a list of non-empty names is its own key |
| Repository.KeyShape | Manager/Repository.go:118-127 | the upload key is the host (when it is not empty), the date, then the file |
| Repository.DownloadFindsUpload | Manager/Repository.go:129-135 | the download key of a date is the upload key of that date |
| Repository.KeysDistinct | Manager/Repository.go:118-127 | for one host, two upload keys are equal exactly when their dates and files are |
| Repository.IsPushed | Manager/Repository.go:103-116 | true exactly when the lookup has no error and a non-empty result |
| Repository.UploadArtifact | Manager/Repository.go:59-71 | one pass of `Upload` stores a file that reads whole under its key for the date its pass read, ends the process when the path cannot be opened, and stores nothing for a file with a read fault or a directory, which fails at its first read |
| Repository.Upload | Manager/Repository.go:54-73 | `Upload` leaves the bucket, and the abort, that `UploadAll` gives over the four artifacts in order, each keyed with the date the clock gives at its own pass |
| Repository.KeyDates | Manager/Repository.go:68 | the dates the passes key with are as many as the passes and start with the first reading; read once, they are all that first reading |
| Repository.MissingArtifactStops | Manager/Repository.go:58-72 | a file that cannot be opened ends the process: the bucket keeps what came before it and nothing after it is uploaded |
| Repository.MissingBackupUploadsNothing | Manager/Repository.go:56-68 | a missing `backup.gz.enc` ends the process before anything is uploaded |
| Repository.SkipAgrees | Manager/Repository.go:58-72 | when every file opens, skipping missing files changes nothing |
| Repository.SkippingUploadsIntact | Manager/Repository.go:58-72 | with missing files skipped the loop runs to the end: every readable file is stored under the key of the date its pass read, and every other key is as it was |
| Repository.UploadStoresArtifacts | Manager/Repository.go:54-73 | when all four artifacts are readable, `Upload` stores each under the key of the date its pass read, and no other key changes |
| Repository.FirstStored | Manager/Repository.go:56-68 | with all four artifacts readable, `backup.gz.enc` is stored under the date of the first pass |
| Repository.KeyNotWritten | Manager/Repository.go:58-72 | a key that no pass writes is absent after the upload if it was absent before |
| Repository.MidnightSplitsBackup | Manager/Repository.go:68-122 | as written, when the date changes between the first and the second pass, `backup.gz.enc` is stored under the first date but `xtrabackup_info` is not, so a download of that date finds no `xtrabackup_info` object |
| Repository.Download | Manager/Repository.go:75-101 | `Download` leaves the disk that `DownloadSpec` gives, whatever the existence check says |
| Repository.DownloadArtifact | Manager/Repository.go:90-99 | one pass of `Download` opens the file without O_TRUNC and writes the object at its start |
| Repository.FillOne | Manager/Repository.go:90-99 | with O_TRUNC, a downloaded file holds exactly its object |
| Repository.TruncatingDownload | Manager/Repository.go:89-100 | with O_TRUNC, every downloaded file holds exactly its object, and no directory changes |
| Repository.UploadThenDownload | Manager/Repository.go:54-101 | when every pass of the upload read the same date, downloading that date with O_TRUNC gives back the uploaded files |
| Repository.StoredUnderDay | Manager/Repository.go:54-73 | an upload whose passes all read one date stores every readable artifact under the download key of that date |
| Repository.ClockReadOnce | Manager/Repository.go:54-101 | with the date read once before the loop, downloading it with O_TRUNC gives back all four uploaded files, whatever the clock does |
| Repository.StaleDownloadKeepsTail | Manager/Repository.go:90-96 | as written, a local file longer than the object keeps its tail after the download, so it differs from the object |
| Progress.Wrap64 | Manager/UploadProgress.go:37 | the counter is an int64: the value modulo 2^64 in the int64 range, and the value itself when it fits |
| Progress.WrapAdd | Manager/UploadProgress.go:37 | adding to a wrapped counter wraps the sum |
| Progress.CounterExact | Manager/UploadProgress.go:34-40 | up to 2^63-1 bytes, the counter is the exact number of bytes |
| Progress.CounterWraps | Manager/UploadProgress.go:34-40 | one byte past 2^63-1 the counter wraps to -2^63 |
| Progress.UploadProgress.BytesSent | Manager/UploadProgress.go:27-29 | returns the counter |
| Progress.UploadProgress.Read | Manager/UploadProgress.go:34-40 | returns the wrapped reader's count and status unchanged (an error at once on a directory), and adds exactly that count to the counter |
| Progress.UploadProgress.Upload | Manager/UploadProgress.go:42-74 | the counter is reset and then counts the whole readable body; a complete body of a file is stored under the key; otherwise, a directory included, one update with the size, the count and no error; the error is always nil |
| Progress.DownloadProgress.BytesWritten | Manager/DownloadProgress.go:70-72 | returns the counter |
| Progress.DownloadProgress.WriteAt | Manager/DownloadProgress.go:64-68 | adds the length of p to the counter whatever the write does, and returns the write's count and error unchanged; a nil file fails |
| Progress.DownloadProgress.Download | Manager/DownloadProgress.go:18-62 | the counter is reset; a missing object gives no channel and the error; otherwise the file gets the object, the counter counts the bytes handed over, and a failure queues one update with the size, the count and the error |
| Progress.DownloadProgress.WriteParts | Manager/DownloadProgress.go:43-46 | the parts written in order leave the file as one write of the object; the counter ends at the bytes handed over up to the first short part |
| Progress.DownloadProgress.WritePart | Manager/DownloadProgress.go:43-46 | one part keeps the file equal to one write of everything before it |
| Progress.Handed | Manager/DownloadProgress.go:64-68 | the bytes handed over are all of them when they fit, and never more |
| Progress.PartOf | Manager/DownloadProgress.go:43-46 | the part that falls short is the last one handed over |
| Progress.PartStep | Manager/DownloadProgress.go:43-46 | writing part after part equals one write of all of them, and a part past the quota writes what the whole would |
| Decimal.Atoi | Manager/Backup.go:102 | `strconv.Atoi` gives int64 values, 0 on a syntax error, and a syntax error on the empty text |
| Decimal.AddOne | Manager/Backup.go:110 | `loadedPosition + 1` is an int64 and is the successor below the maximum |
| Decimal.AtoiItoa | Manager/Restore.go:220 | `Atoi` of `Itoa(n)` is n, parsed without error |
| Decimal.ParseWrittenPosition | Manager/Backup.go:209 | the bytes written for a position parse back to that position |
| Files.Disk.RemoveAll | Manager/Backup.go:82 | `os.RemoveAll` removes the path and everything under it, and fails exactly when one of them cannot be removed |
| Files.Disk.MkdirAll | Manager/Backup.go:88 | `os.MkdirAll` only adds directories along the path, and on success the path is a directory |
| Files.Disk.ReadFile | Manager/Backup.go:96 | `ioutil.ReadFile` succeeds exactly when the path is a file that opens and reads whole, and gives its content |
| Files.Disk.Open | Manager/Encryption.go:187 | `os.Open` succeeds exactly when the path exists and is not locked, a directory included, and gives the bytes a reader sees: none for a directory |
| Files.Disk.Limit | Manager/Encryption.go:195 | the bytes that can be read before a read fails are at most those the reader holds, and none for a directory |
| Files.FileSystem.Open | Manager/Restore.go:95 | the reader starts at offset 0 over what `Disk.Open` gives, with its read limit, and is a directory reader exactly when the path is not a file |
| Files.Disk.WriteAt | Manager/Encryption.go:76 | a write lays as many bytes as fit over the file at the offset, and uses up that much space |
| Files.Reader.Read | Manager/Encryption.go:72 | `Read` returns any number of the next bytes up to the buffer size, EOF at the end of a file, and an error at a read fault or at once on a directory |
| Files.Reader.ReadAt | Manager/Encryption.go:139 | `ReadAt` succeeds exactly when the bytes lie before the read fault, and gives them |
| Files.Writer.Write | Manager/Encryption.go:76 | `Write` writes at the current offset and moves it by the bytes written; a short write is an error |
| Files.WriteAtThen | Manager/Encryption.go:71-94 | two writes, one after the other, are one write of both |
| Files.OverlayKeepsTail | Manager/Encryption.go:59 | a write shorter than the file leaves the file's tail after it |
| Text.ContainsSameLength | Manager/Encryption.go:263 | for texts of equal length, containment is equality |
| Text.ContainsEmpty | Manager/Encryption.go:263 | every text contains the empty text |
| Text.CharsOfBytes | Manager/Encryption.go:261 | an ASCII text converted to bytes and back is unchanged |
| Processes.ToolRunner.Start | Manager/Backup.go:174 | starting a program logs its invocation, and the process is what the oracle gives |
| Processes.Waited | Manager/Backup.go:186-197 | `Wait` returns nil exactly when the program exited with status 0; a non-zero status comes back as an exit error carrying it, and a broken wait as an error of its own |

## Left out

- `main()` of `main.go` (lines 26-57) parses command-line flags and logs. The flags are a `Flags` value given to `LegacyBackup`.
- `Tools/main.go`, `Manager/Config.go`, `Manager/Upload.go` and `Manager/RemoteLookup.go` are not part of this model. `RemoteLookup`'s result is the `listing` argument of `Repository.IsPushed` and `Repository.Download`.
- `CreateS3Manager` and the AWS session: `S3Manager` holds the configuration only, and the bucket is a map from keys to objects.
- Cryptography:
  - The AES block function and the counter increment of CTR mode (section 6.5 of NIST SP 800-38A) are an uninterpreted keystream `ks(key, iv, i)`.
  - MD5 (RFC 1321) is an uninterpreted digest.
  - gzip compression and decompression are uninterpreted functions.
  - The random IV is a parameter.
- Subprocesses:
  - They are oracles from the invocation to the exit status, whether the stream was copied whole, and the output.
  - stderr and stdout passthrough are not modelled.
  - The files `mbstream` extracts are not written to the disk.
  - `Restore` does not wait for `mbstream`; the model does not either, so its exit status is never looked at.
- `Restore.MoveBackupToTargetDirectory`: the user lookup is the `mysqlExists` flag. The `filepath.Walk`/`Chown` pass is left out, since its errors are discarded.
- The clock and the host name (`time.Now`, `os.Hostname`) are parameters. `Repository.Upload` is given the date the clock gives at each of its four passes (`clock`), because `GenerateUploadS3Path` reads `time.Now` once per artifact.
- `Repository.KeyDates`: the `once` flag, which reads the date once before the loop, is not in the code; it is there to state the evidently intended round trip, and the code as written uses `false`.
- File permissions (`750`, `0640`, `0644`) and ownership are not modelled. A path that cannot be opened is in the disk's `locked` set.
- `filepath.Join`: only the dropping of empty elements is modelled (`Repository.Join`). Paths are lists of components, so `incr/` is the component `incr`. A key is a list of components too, and no component is taken to contain '/'. So `Repository.KeysDistinct` holds for the dates `time.Format("2006-01-02")` gives and the four artifact names, but a date or file name holding '/' could give the same Go key string for two different lists (`filepath.Join(h, "d/x", "f") == filepath.Join(h, "d", "x/f")`).
- `Framing.OpenOutput`, `Repository.DownloadFile`: the `truncate` flag, which also adds O_TRUNC, is not in the code; it is there to state the round trips the code evidently intends.
- `Repository.UploadFile`: the `skipMissing` flag is the evidently intended `continue` after a failed open; the code as written uses `false`.
- Concurrency:
  - The atomics of the progress counters are plain fields.
  - The SDK's concurrent multipart transfer is modelled sequentially: the upload reads the body in 5 MiB parts, and the download writes the object in 5 MiB parts, in order.
  - The goroutines of `pgzip` are not modelled.
- `Progress.UploadProgress.Upload`, `Progress.DownloadProgress.Download`: the progress channel is a sequence of the updates queued. Its capacity of 32 cannot be reached by the one update the code queues.
- Network errors of the S3 transfer are not modelled: a download fails only on a short local write or a nil file, and an upload stores nothing only when the body has a read fault.
- `Progress.UploadProgress.Read`: the counter is not non-decreasing past 2^63-1 bytes, because it wraps as Go's `int64` does (`Progress.CounterWraps`).
- The deferred `gzw.Close()` of both backups (Manager/Backup.go:166, main.go:144) is modelled (`Compression.CloseGzw`): it writes the compressor's tail, and Go drops its error. The other `Close` calls are not modelled: the deferred file closes, and `gzr.Close()` of the decompressor at Manager/Restore.go:109. The checked `f.Close()` of `saveBackupPosition` (Manager/Backup.go:215) and `saveBackupPos` (main.go:180) always succeeds in the model.
- `Backup.ArtifactStep`, `LegacyBackup.Finish`: the `checkClose` flag is not in the code. It reports the close's error, and in `main.go` also moves the close before the position is saved. It is there to state the evidently intended behaviour; the code as written uses `false`.
- `Backup.TruncatedArtifactAccepted`: truncating a file does not give back its space in the model. So when the tail of `backup.gz` does not fit, the `saveBackupPosition` that follows always fails with `SavePositionFailed`. In Go, truncating the old position file frees its space, so `Backup` can return nil there. The model states the finding for `executeCommandAndSaveOutput` alone.
- The compressor (`Compression.Compressor`): what `pgzip` and `compress/gzip` have written when the copy ends, and what `Close` adds, are two uninterpreted functions of the input. Block sizes and the flushing of the goroutines are not modelled.
- `Restore.WalkChain`: Go's `i++` (Manager/Restore.go:55) wraps at 2^63-1. So with a stored position of 2^63-1 and every link in place, the loop would go on at link -2^63 instead of ending. The model's integers do not wrap, and its loop ends after position+1 passes.
- `EncryptionRoundTrip.RoundTrip`, `EncryptionRoundTrip.TruncatingRoundTrip`, `LegacyDecrypt.RoundTrip`, `Encryption.EncryptedDisk`, `LegacyEncrypt.EncryptedDisk`: stated for an input that is a regular file; a directory as input is covered by `Encryption.DirectoryEncryptsToIv` instead.
- `Files.Disk.Open`: a directory reads as holding no bytes, so `Repository.UploadArtifact` passes 0 as its size to the progress updates where Go passes the size `Stat` reports. Go's exact read error on a directory (`EISDIR`) is one read error like any other.
- `log.Println` and `fmt.Println` output is not modelled.

## Findings

| source | as written | input that shows it | evidently intended | confidence | as-written member | corrected member |
|---|---|---|---|---|---|---|
| Manager/Encryption.go:59 | the output of `Encrypt` is opened with O_RDWR and O_CREATE but not O_TRUNC, and the same holds for `Decrypt` at line 144 | an output path that already holds a file longer than the new frame: its tail stays after the IV, `Decrypt` takes the last block of that tail as the IV, and it writes more bytes than the plaintext | open with O_TRUNC, so the file is exactly the frame and the round trip gives back the plaintext | not executed | EncryptionRoundTrip.StaleTailBreaksRoundTrip | EncryptionRoundTrip.TruncatingRoundTrip |
| Manager/Repository.go:60-68 | a file that cannot be opened is only printed; `Stat` on the nil file then gives a nil `FileInfo`, and `stat.Size()` panics | a backup directory without `backup.gz.enc`: the process ends before anything is uploaded | skip the missing file and upload the others | not executed | Repository.MissingArtifactStops | Repository.SkippingUploadsIntact |
| Manager/Backup.go:166 | `gzw.Close()`, which writes the last compressed block and the gzip trailer, is deferred and its error dropped, so `executeCommandAndSaveOutput` returns nil for a `backup.gz` cut short | a disk with room for what the copy writes into `backup.gz` but not for what `Close` writes after it | close the writer before returning and report its error, so that nil means a complete `backup.gz` | not executed | Backup.TruncatedArtifactAccepted | Backup.CheckedCloseComplete |
| main.go:144-164 | the deferred `gzw.Close()` runs after `saveBackupPos`, and its error is dropped, so the position is saved for an artifact that is then cut short | a disk with room for the copy and the position text but not for the last block and trailer: `backup` returns nil with the new position saved and `backup.gz` short | close the writer, and check its error, before saving the position | not executed | LegacyBackup.PositionBeforeTail | LegacyBackup.ClosedBeforePosition |
| Manager/Repository.go:68 | the key of each artifact is made inside the loop, and `GenerateUploadS3Path` reads `time.Now` (line 121) for each of them, so one backup's artifacts can be stored under two dates | an upload of `backup.gz.enc` that starts before midnight and ends after it: `xtrabackup_info`, `xtrabackup_checkpoints` and `checksum` go under the next day, and a download of either day misses part of the backup | read the date once, before the loop, and key every artifact with it | not executed | Repository.MidnightSplitsBackup | Repository.ClockReadOnce |
| Manager/Repository.go:90 | each downloaded file is opened with O_CREATE and O_WRONLY but not O_TRUNC | a local file longer than its object: the download leaves the old tail after the object | open with O_TRUNC, so each file is exactly its object | not executed | Repository.StaleDownloadKeepsTail | Repository.TruncatingDownload |
