# Audio normalisation core of whispry, modelled in Dafny

The part of whispry that prepares an audio file for speech recognition:
`convertToWavType` takes the path of an audio file and makes sure a 16 kHz
WAV file exists for it. It does this in one of three ways:

- It passes a `.wav` file through when its header already says 16000 Hz.
- It re-encodes a `.wav` file with any other header (another rate, no RIFF/RIFX magic, or fewer than 28 bytes) into `<path>.temp.wav`, then
  renames that file onto the original.
- It encodes any other file into a sibling `<name>.wav`.

The header check, `isValidWavHeader`, streams at most the first 44 bytes of
the file. It accepts the file when the bytes start with `RIFF` or `RIFX` and
the unsigned 32-bit little-endian field at offset 24 (the sample rate of the
`fmt ` chunk) equals 16000.

The model has five modules, one file each:

- `HeaderInspector` (`header_inspector.dfy`) holds the verdict as a pure
  predicate over bytes, the little-endian field and its inverse, and the
  stream of `'data'`/`'end'`/`'error'` events. `IsValidWavHeader` is a loop
  over those events. It is proved equal to the `Settle` specification, and
  the lemmas about `Settle` tie it to the verdict on the whole file.
- `NodePath` (`node_path.dfy`) holds Node's `extname`, `basename` (with a
  suffix), `dirname` and `join`, and `toLowerCase`, as the source uses them.
- `FileSystem` (`file_system.dfy`) holds a class `Files` whose map from paths
  to bytes is changed by whole-file writes and by `renameSync`.
- `Normalization` (`normalization.dfy`) holds the decision table (`PlanFor`),
  the output and temporary paths, and `ConvertToWavType` with its two encode
  branches. Each method states the new file system, the result, and the
  ordered list of effects: header read, encoder run with its exit code,
  rename.
- `Options` (`options.dfy`) holds `Option` and `Result`.

The external encoder (ffmpeg) is a parameter `EncoderRun`. It gives the exit
code, the standard-error text, and the file the encoder leaves at its
destination, if any. The header stream is a parameter too: the chunks it
delivers and an optional read error.

## Model

| member | source | states |
|---|---|---|
| `HeaderInspector.Latin1` | src/utils.ts:24 | the 'binary' decoding has one character per byte, whose code is that byte |
| `HeaderInspector.HasWavMagic` | src/utils.ts:23-24 | the first at most 4 bytes decode to "RIFF" or "RIFX"; characterised in bytes by `MagicAsBytes` |
| `HeaderInspector.UInt32LE` | src/utils.ts:32 | `readUInt32LE`: a value below 2^32 whose low byte is the byte at the offset; `DecodeEncode` and `EncodeDecode` make it the inverse of the little-endian encoding |
| `HeaderInspector.HeaderVerdict` | src/utils.ts:22-38 | the 'end' handler's verdict: no magic gives false, at least 28 bytes compare the rate with 16000, fewer give false; characterised by `VerdictCharacterized` |
| `HeaderInspector.HeaderWindow` | src/utils.ts:14 | the bytes `end: 43` can deliver: a prefix of the file of at most 44 bytes, the whole file when it is shorter |
| `HeaderInspector.Settle` | src/utils.ts:13-41 | how the promise settles on a sequence of stream events: 'data' appends, the first 'end' resolves with the verdict, the first 'error' rejects |
| `HeaderInspector.SettleOnlyOnEndOrError` | src/utils.ts:17-40 | the promise stays pending iff only 'data' events arrive; it resolves only after an 'end' and rejects only with an error the stream delivered |
| `HeaderInspector.MagicAsBytes` | src/utils.ts:23-24 | the latin1 decoding of the first (at most) 4 bytes equals "RIFF" or "RIFX" iff the buffer has 4 bytes and they are 52 49 46 46 or 52 49 46 58 |
| `HeaderInspector.NoMagicRejected` | src/utils.ts:23-29 | a buffer shorter than 4 bytes, or whose first 4 bytes are neither magic, is rejected whatever follows (this includes empty input) |
| `HeaderInspector.TruncatedHeaderRejected` | src/utils.ts:31-37 | a buffer shorter than 28 bytes is rejected even with a valid magic |
| `HeaderInspector.VerdictCharacterized` | src/utils.ts:23-37 | the verdict holds iff the length is at least 28, the magic is RIFF or RIFX, and b[24] + 256·b[25] + 65536·b[26] + 16777216·b[27] = 16000 |
| `HeaderInspector.DecodeEncode` | src/utils.ts:32 | reading the four little-endian bytes of any 32-bit value gives that value back |
| `HeaderInspector.EncodeDecode` | src/utils.ts:32 | the value read at an offset, written back as four little-endian bytes, gives exactly the four bytes read |
| `HeaderInspector.UInt32LEInjective` | src/utils.ts:32 | two 4-byte fields read equal iff their bytes are equal |
| `HeaderInspector.VerdictIffRateBytes` | src/utils.ts:31-34 | with a valid magic and at least 28 bytes, the verdict holds iff bytes 24..27 are 80 3E 00 00 |
| `HeaderInspector.RecordedRateDecides` | src/utils.ts:31-34 | a header recording rate R in little-endian at offset 24 is accepted iff R = 16000; 8000, 44100 and 48000 are rejected |
| `HeaderInspector.RifxReadLittleEndian` | src/utils.ts:24-34 | for RIFX the field is still read little-endian: 16000 stored big-endian (00 00 3E 80) is rejected, stored little-endian it is accepted |
| `HeaderInspector.VerdictDependsOnlyOnMagicAndRate` | src/utils.ts:23-37 | two buffers on the same side of the 28-byte bound that agree on bytes 0..3 and 24..27 get the same verdict |
| `HeaderInspector.WindowDecides` | src/utils.ts:14 | the verdict on the first 44 bytes equals the verdict on the whole file, so bytes from index 44 on cannot matter |
| `HeaderInspector.IsValidWavHeader` | src/utils.ts:12-42 | the handler loop over the delivered events settles the promise exactly as `Settle` does: the first 'end' resolves with the verdict on the accumulated buffer, the first 'error' rejects |
| `HeaderInspector.SettleAfterChunks` | src/utils.ts:15-20 | 'data' events before the settling event append their chunks to the buffer in order |
| `HeaderInspector.DeliveredStreamResolves` | src/utils.ts:14-38 | a stream that delivers the first 44 bytes in any chunking and then ends resolves with the verdict on the whole file |
| `HeaderInspector.FailedStreamRejects` | src/utils.ts:40 | a stream that fails after any chunks rejects with the stream's error |
| `HeaderInspector.ReadStreamChunks` | src/utils.ts:14 | the chunks of a bounded read concatenate to the first 44 bytes of the file (all of it when shorter), so the buffer never exceeds 44 bytes |
| `HeaderInspector.Chunked` | src/utils.ts:17-19 | cutting bytes into non-empty chunks of at most the buffer size loses and reorders nothing |
| `NodePath.BaseName` | src/utils.ts:73 | `basename` is the longest suffix of the path without a '/' |
| `NodePath.ExtName` | src/utils.ts:45 | `extname` is empty or a suffix of the path that starts with '.', is shorter than the last part and has no other '.' or '/'; it is non-empty whenever the last part is not ".." and has a '.' after its first character, so it is exactly the part from the last such '.'; it is "" when the last part is ".." |
| `NodePath.DirName` | src/utils.ts:72 | `dirname` is "." for a path without '/'; otherwise it is the directory prefix up to and including the last '/', which is kept when that prefix is "/" or "//" and dropped otherwise |
| `NodePath.DoubleSlashRootExample` | src/utils.ts:72 | `dirname("//b")` is "//", `dirname("/b")` is "/", `dirname("a//b")` is "a/" |
| `NodePath.BaseNameWithout` | src/utils.ts:73 | `basename(p, suffix)` is "", the whole last part, or a non-empty proper prefix of the last part that the suffix completes |
| `NodePath.Join` | src/utils.ts:71-74 | `join(dir, name)` for a directory `dirname` returns; stated by `JoinDirName` |
| `NodePath.ToLower` | src/utils.ts:45 | `toLowerCase` keeps the length; `ToLowerFixed` says when it changes nothing |
| `NodePath.JoinDirName` | src/utils.ts:71-74 | on a simple path, `join(dirname(p), name)` replaces the last part of `p` by `name` |
| `NodePath.StemKeepsUpperCaseExtension` | src/utils.ts:71-74 | `basename(p, extname(p).toLowerCase())` removes the extension iff it is non-empty and already lower case; otherwise the last part stays whole |
| `NodePath.ToLowerFixed` | src/utils.ts:45 | lower-casing leaves a string unchanged iff it has no upper-case ASCII letter |
| `NodePath.SimplePathRename` | src/utils.ts:71-74 | replacing the last part of a simple path by a plain name gives a simple path |
| `FileSystem.Renamed` | src/utils.ts:66 | after a rename the destination holds the source's old bytes, the source is gone, and every other path is unchanged |
| `FileSystem.Files.Rename` | src/utils.ts:66 | `renameSync` fails and changes nothing when the source is missing; otherwise it performs `Renamed` in one step |
| `Normalization.PlanFor` | src/utils.ts:49-84 | pass through iff the extension is ".wav" in any case and the header is valid; re-encode in place iff ".wav" with an invalid header; encode to a new file iff the extension is not ".wav"; the temporary file is a longer path that starts with the input |
| `Normalization.IsWavPath` | src/utils.ts:45-49 | the lower-cased extension is ".wav"; characterised case by case by `WavExtensionIgnoresCase` |
| `Normalization.OutputPath` | src/utils.ts:71-74 | the new file's path `join(dirname(p), basename(p, ext) + ".wav")`; its shape is stated by `OutputPathShape` |
| `Normalization.RelativeWavExample` | src/utils.ts:45-59 | "../clip.wav" is not a simple path, yet takes the ".wav" branch, which `ConvertToWavType` admits |
| `Normalization.WavExtensionIgnoresCase` | src/utils.ts:45-49 | the ".wav" branch is taken exactly for extensions '.', w or W, a or A, v or V |
| `Normalization.TempPath` | src/utils.ts:59 | the temporary file is distinct from the input and extends its path |
| `Normalization.Written` | src/utils.ts:60-61 | after an encoder run the destination holds what the encoder wrote and every other path is unchanged; a run that writes nothing leaves the whole file system as it was, so a stale file at the destination survives |
| `FileSystem.Files.Write` | src/utils.ts:60-61 | a whole-file write replaces the destination's bytes and nothing else |
| `Normalization.RunEncoder` | src/utils.ts:60-61 | for paths the shell passes through unchanged (no `"`, `$`, backquote or `\`), an encoder run changes only its destination file, and reports the oracle's exit code and standard error |
| `Normalization.ConvertToWavType` | src/utils.ts:44-85 | the full new file system, result and effect list for each row of the decision table; the branch taken, its effects and the returned path are those of `PlanFor` on the input and its header; renames only follow an encode that exited 0; the input file changes only through a successful in-place rename; a successful result names a conforming file when the encoder keeps its promise |
| `Normalization.ConvertWavFile` | src/utils.ts:49-68 | the ".wav" branch: the header is read first; a read error rejects and changes nothing; a conforming header returns the input unchanged; otherwise the in-place outcome, starting with an encode into the temporary file |
| `Normalization.ReplaceThroughTemp` | src/utils.ts:55-68 | encode into the temporary file; a non-zero exit throws "[nwhisper] Failed to convert audio file: " + stderr and leaves the input untouched; otherwise rename the temporary file onto the input and return the input |
| `Normalization.EncodeToNewFile` | src/utils.ts:69-84 | encode into the sibling ".wav" path; the input file is never changed; a non-zero exit throws the prefixed stderr, exit 0 returns the output path |
| `Normalization.OutputPathShape` | src/utils.ts:71-74 | the new file replaces the input's last part by its stem followed by ".wav", and is itself a simple path with extension ".wav" |
| `Normalization.NewOutputIsDistinct` | src/utils.ts:71-74 | for an input whose extension is not ".wav", the output path differs from the input |
| `Normalization.NormalizeIdempotent` | src/utils.ts:49-54 | for every input `ConvertToWavType` accepts, the path a successful call returns (the plan's output, by `ConvertToWavType`'s contract) takes the pass-through branch when its header is valid |
| `Normalization.ConvertTwice` | src/utils.ts:44-85 | with an encoder that keeps its promise, calling `convertToWavType` again on the path a successful call returned gives that same path back and changes no file; after a failed call there is no second call |
| `Normalization.SpeechMp3Example` | src/utils.ts:71-74 | "speech.mp3" is encoded to "speech.wav" |
| `Normalization.UpperCaseExtensionExample` | src/utils.ts:71-74 | "speech.MP3" is encoded to "speech.MP3.wav" |
| `Normalization.NoExtensionExample` | src/utils.ts:71-74 | "rec/take" is encoded to "rec/take.wav" |
| `Normalization.UpperCaseWavExample` | src/utils.ts:45-49 | "/audio/clip.WAV" takes the ".wav" branch |

## Left out

- `checkIfFileExists` (src/utils.ts:6-10) is a thin wrapper over `fs.existsSync`. It becomes the precondition that the input path is in the file system.
- The logger calls (src/utils.ts:47, 52, 56, 76) only print diagnostics and never affect control flow.
- The ffmpeg command line and `shell.exec` (src/utils.ts:60-61, 78-79) become the `EncoderRun` oracle. Its exit code and standard error are inputs, and so is the file it leaves at the destination (possibly none, possibly a partial file on failure). The audio content is not modelled. A 16000 Hz header on success is an explicit hypothesis (`EncoderConforms`), not a fact.
- Normalization.RunEncoder: assumes the shell passes both paths to ffmpeg unchanged. The source puts them inside double quotes in a `sh` command line (src/utils.ts:60, 78), where `$`, backquotes, `"` and `\` are interpreted. For a path containing any of them, such as `take$1.mp3`, ffmpeg may read or write other files than the ones named. There the model's new file system, and its claim that a successful result names a conforming file, do not hold.
- Promises and `async`/`await` are not modelled. The stream is the sequence of events it delivers. A stream that never ends or fails would leave the promise pending. `ConvertToWavType` takes only streams that end or fail, because file streams always do.
- Node's `basename`, `extname` and `dirname` are exact only for paths without a trailing slash; `dirname` keeps Node's "//" root. `join` is modelled only for "simple" paths: no empty, "." or ".." part, no repeated '/'. `ConvertToWavType` therefore requires a simple input only when the extension is not ".wav", the one branch that calls `dirname` and `join`; a ".wav" input such as "../clip.wav" is admitted as it is. Windows paths are not covered.
- `toLowerCase` is modelled on ASCII letters only. Unicode case mapping, including characters whose lower case has another length, is not modelled.
- `renameSync` is modelled as one map update that fails only when the source is missing. Permission errors, cross-device moves and the atomicity guaranteed by the operating system are not modelled. Neither are races between concurrent calls on the same temporary name.
- The temporary file is not cleaned up after a failed encode, and the model shows this: it stays in the file system. An existing sibling `.wav` is overwritten in the new-file branch, because ffmpeg is run with `-y`; the model shows this as well.
- A read error of the header stream propagates as it is, without the "[nwhisper]" prefix (src/utils.ts:40, 50).
- A RIFX (big-endian) file is still read little-endian at offset 24 (src/utils.ts:24, 32).
- A re-encoded file conforms only through the encoder: nothing after the rename checks its header again.
