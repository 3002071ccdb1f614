/** `convertToWavType`: decides from the extension and the header verdict
    whether a file passes through, is re-encoded in place through a
    temporary file, or is encoded to a new sibling ".wav" file, and performs
    the encoder run and the rename in that order. */
module Normalization {
  import opened Options
  import opened NodePath
  import opened HeaderInspector
  import opened FileSystem

  const WavExtension: string := ".wav"
  /** Appended to the input path to name the file the encoder writes before the rename. */
  const TempSuffix: string := ".temp.wav"
  /** Prefix of the message of the error thrown when the encoder exits non-zero. */
  const FailurePrefix: string := "[nwhisper] Failed to convert audio file: "

  /** The three outcomes of the decision table. */
  datatype Plan = PassThrough | ReencodeInPlace(temp: Path) | EncodeToNew(output: Path)

  /** What a call can throw: the header stream's error, the encoder's failure
      (carrying its message), or a failed `renameSync`. */
  datatype Failure =
    | ReadFailure(reason: string)
    | EncoderFailure(message: string)
    | RenameFailure(src: Path, dst: Path)

  /** What one run of the external encoder does: its exit code, its standard
      error, and the file it leaves at the destination, if any. */
  datatype EncoderRun = EncoderRun(code: int, stderr: string, written: Option<seq<byte>>)

  /** The observable steps of a call, in order. */
  datatype Effect =
    | ReadHeader(path: Path)
    | Encode(source: Path, dest: Path, code: int)
    | Rename(src: Path, dst: Path)

  /** The lower-cased extension is ".wav". */
  predicate IsWavPath(p: Path)
  {
    ToLower(ExtName(p)) == WavExtension
  }

  /** The file the in-place branch encodes into. */
  function TempPath(p: Path): (t: Path)
    ensures |t| > |p| && p <= t
  {
    p + TempSuffix
  }

  /** `join(dirname(p), basename(p, ext) + ".wav")` with the lower-cased extension. */
  function OutputPath(p: Path): Path
  {
    Join(DirName(p), BaseNameWithout(p, ToLower(ExtName(p))) + WavExtension)
  }

  /** The decision table; `headerValid` is only consulted for ".wav" paths. */
  function PlanFor(p: Path, headerValid: bool): (plan: Plan)
    ensures plan.PassThrough? <==> IsWavPath(p) && headerValid
    ensures plan.ReencodeInPlace? <==> IsWavPath(p) && !headerValid
    ensures plan.EncodeToNew? <==> !IsWavPath(p)
    ensures plan.ReencodeInPlace? ==> |plan.temp| > |p| && p <= plan.temp
  {
    if IsWavPath(p) then
      if headerValid then PassThrough else ReencodeInPlace(TempPath(p))
    else EncodeToNew(OutputPath(p))
  }

  /** The file at `dest` after an encoder run that leaves `written` there. */
  function Written(files: map<Path, seq<byte>>, dest: Path, written: Option<seq<byte>>): (r: map<Path, seq<byte>>)
    ensures written.Some? ==> dest in r && r[dest] == written.value
    ensures forall k :: k != dest ==> (k in r <==> k in files)
    ensures forall k :: k != dest && k in files ==> r[k] == files[k]
    ensures written.None? ==> r == files
  {
    if written.Some? then files[dest := written.value] else files
  }

  /** Every rename in `effects` moves a file that an earlier encoder run,
      which exited with 0, wrote. */
  predicate RenamesFollowSuccessfulEncode(effects: seq<Effect>)
  {
    forall i :: 0 <= i < |effects| && effects[i].Rename? ==>
      exists j :: 0 <= j < i && effects[j].Encode? && effects[j].dest == effects[i].src && effects[j].code == 0
  }

  /** The encoder keeps its documented promise: a zero exit leaves a 16000 Hz
      RIFF header at the destination. */
  predicate EncoderConforms(run: EncoderRun)
  {
    run.code == 0 ==> run.written.Some? && HeaderVerdict(run.written.value)
  }

  /** `shell.exec` of the ffmpeg command line; `run` stands for what the encoder does. */
  method RunEncoder(fs: Files, source: Path, dest: Path, run: EncoderRun) returns (code: int, stderr: string)
    modifies fs
    ensures fs.files == Written(old(fs.files), dest, run.written)
    ensures code == run.code && stderr == run.stderr
  {
    if run.written.Some? {
      fs.Write(dest, run.written.value);
    }
    code, stderr := run.code, run.stderr;
  }

  /** `convertToWavType(input)`. `chunks` and `readError` are what the header
      stream delivers: the first 44 bytes of the file when it does not fail. */
  method ConvertToWavType(fs: Files, input: Path, chunks: seq<seq<byte>>, readError: Option<string>,
                          encoder: EncoderRun)
    returns (result: Result<Path, Failure>, effects: seq<Effect>)
    requires !IsWavPath(input) ==> SimplePath(input)
    requires input in fs.files
    requires readError.None? ==> Concat(chunks) == HeaderWindow(fs.files[input])
    modifies fs
    // The header is read exactly for ".wav" paths, whatever the case of the extension.
    ensures IsWavPath(input) <==> |effects| > 0 && effects[0] == ReadHeader(input)
    ensures IsWavPath(input) && readError.Some? ==>
      result == Err(ReadFailure(readError.value)) && effects == [ReadHeader(input)]
      && fs.files == old(fs.files)
    // A ".wav" file with a good header is returned as it is; no encoder runs.
    ensures IsWavPath(input) && readError.None? && HeaderVerdict(old(fs.files[input])) ==>
      result == Ok(input) && effects == [ReadHeader(input)] && fs.files == old(fs.files)
    // A ".wav" file with a bad header: encode to the temporary file, then rename it onto the input.
    ensures IsWavPath(input) && readError.None? && !HeaderVerdict(old(fs.files[input])) ==>
      InPlaceOutcome(old(fs.files), fs.files, input, encoder, result, effects[1..])
    // Any other extension: encode to the sibling ".wav" file.
    ensures !IsWavPath(input) ==>
      && effects == [Encode(input, OutputPath(input), encoder.code)]
      && fs.files == Written(old(fs.files), OutputPath(input), encoder.written)
      && result == if encoder.code == 0 then Ok(OutputPath(input))
                   else Err(EncoderFailure(FailurePrefix + encoder.stderr))
    // Safety: renames only follow a successful encode, and the original file
    // changes only through the in-place rename.
    ensures RenamesFollowSuccessfulEncode(effects)
    ensures input in fs.files
    ensures result.Err? || !IsWavPath(input) ==> fs.files[input] == old(fs.files[input])
    ensures fs.files[input] != old(fs.files[input]) ==>
      result == Ok(input) && Rename(TempPath(input), input) in effects
    // What is returned is a conforming file when the encoder keeps its promise.
    ensures result.Ok? && EncoderConforms(encoder) ==>
      result.value in fs.files && HeaderVerdict(fs.files[result.value])
    // The branch taken is the decision table's plan for the input and its header.
    ensures readError.None? || !IsWavPath(input) ==>
      var plan := PlanFor(input, HeaderVerdict(old(fs.files[input])));
      && (plan.PassThrough? ==> result == Ok(input) && effects == [ReadHeader(input)] && fs.files == old(fs.files))
      && (plan.ReencodeInPlace? ==> |effects| >= 2 && effects[1] == Encode(input, plan.temp, encoder.code))
      && (plan.EncodeToNew? ==> effects == [Encode(input, plan.output, encoder.code)]
                                && (result.Ok? ==> result.value == plan.output))
  {
    ghost var plan := PlanFor(input, HeaderVerdict(fs.files[input]));
    var extension := ToLower(ExtName(input));
    if extension == WavExtension {
      result, effects := ConvertWavFile(fs, input, chunks, readError, encoder);
    } else {
      assert plan == EncodeToNew(OutputPath(input));
      result, effects := EncodeToNewFile(fs, input, extension, encoder);
      NoRenameInOneEncode(effects[0]);
    }
  }

  /** The ".wav" branch: read the header, pass a conforming file through,
      and re-encode any other one in place. */
  method ConvertWavFile(fs: Files, input: Path, chunks: seq<seq<byte>>, readError: Option<string>,
                        encoder: EncoderRun)
    returns (result: Result<Path, Failure>, effects: seq<Effect>)
    requires IsWavPath(input)
    requires input in fs.files
    requires readError.None? ==> Concat(chunks) == HeaderWindow(fs.files[input])
    modifies fs
    ensures |effects| > 0 && effects[0] == ReadHeader(input)
    ensures readError.Some? ==>
      result == Err(ReadFailure(readError.value)) && effects == [ReadHeader(input)]
      && fs.files == old(fs.files)
    ensures readError.None? && HeaderVerdict(old(fs.files[input])) ==>
      result == Ok(input) && effects == [ReadHeader(input)] && fs.files == old(fs.files)
    ensures readError.None? && !HeaderVerdict(old(fs.files[input])) ==>
      && InPlaceOutcome(old(fs.files), fs.files, input, encoder, result, effects[1..])
      && |effects| >= 2 && effects[1] == Encode(input, TempPath(input), encoder.code)
    ensures RenamesFollowSuccessfulEncode(effects)
    ensures input in fs.files
    ensures result.Err? ==> fs.files[input] == old(fs.files[input])
    ensures fs.files[input] != old(fs.files[input]) ==>
      result == Ok(input) && Rename(TempPath(input), input) in effects
    ensures result.Ok? ==> result.value == input
    ensures result.Ok? && EncoderConforms(encoder) ==> HeaderVerdict(fs.files[input])
  {
    var file := fs.files[input];
    var last := if readError.Some? then StreamError(readError.value) else End;
    var settled := IsValidWavHeader(DataEvents(chunks) + [last]);
    if readError.Some? {
      FailedStreamRejects(chunks, readError.value);
      result, effects := Err(ReadFailure(settled.reason)), [ReadHeader(input)];
      return;
    }
    DeliveredStreamResolves(file, chunks);
    if settled.valid {
      result, effects := Ok(input), [ReadHeader(input)];
      return;
    }
    var encodeEffects;
    result, encodeEffects := ReplaceThroughTemp(fs, input, encoder);
    effects := [ReadHeader(input)] + encodeEffects;
    assert effects[1..] == encodeEffects && effects[1] == encodeEffects[0];
    assert Rename(TempPath(input), input) in encodeEffects ==> Rename(TempPath(input), input) in effects;
    RenamesFollowAfterRead(input, encodeEffects);
  }

  /** The in-place branch, as `ReplaceThroughTemp` promises it: `files` is the
      state before, `files'` the state after. */
  predicate InPlaceOutcome(files: map<Path, seq<byte>>, files': map<Path, seq<byte>>, input: Path,
                           encoder: EncoderRun, result: Result<Path, Failure>, effects: seq<Effect>)
  {
    var temp := TempPath(input);
    var encoded := Written(files, temp, encoder.written);
    && (encoder.code != 0 ==>
          && result == Err(EncoderFailure(FailurePrefix + encoder.stderr))
          && effects == [Encode(input, temp, encoder.code)]
          && files' == encoded)
    && (encoder.code == 0 ==>
          && effects == [Encode(input, temp, 0), Rename(temp, input)]
          && (temp in encoded ==> result == Ok(input) && files' == Renamed(encoded, temp, input))
          && (temp !in encoded ==> result == Err(RenameFailure(temp, input)) && files' == encoded))
  }

  /** A ".wav" file whose header is not conforming: encode into `input + ".temp.wav"`,
      throw if the encoder fails, otherwise rename the temporary file onto the input. */
  method ReplaceThroughTemp(fs: Files, input: Path, encoder: EncoderRun)
    returns (result: Result<Path, Failure>, effects: seq<Effect>)
    requires input in fs.files
    modifies fs
    ensures InPlaceOutcome(old(fs.files), fs.files, input, encoder, result, effects)
    ensures RenamesFollowSuccessfulEncode(effects)
    ensures input in fs.files
    ensures result.Err? ==> fs.files[input] == old(fs.files[input])
    ensures fs.files[input] != old(fs.files[input]) ==>
      result == Ok(input) && Rename(TempPath(input), input) in effects
    ensures result.Ok? ==> result.value == input
    ensures result.Ok? && EncoderConforms(encoder) ==> HeaderVerdict(fs.files[input])
  {
    var tempFile := input + TempSuffix;
    var code, stderr := RunEncoder(fs, input, tempFile, encoder);
    effects := [Encode(input, tempFile, code)];
    if code != 0 {
      result := Err(EncoderFailure(FailurePrefix + stderr));
      return;
    }
    var renamed := fs.Rename(tempFile, input);
    effects := effects + [Rename(tempFile, input)];
    assert effects[0] == Encode(input, tempFile, 0);
    if !renamed {
      result := Err(RenameFailure(tempFile, input));
      return;
    }
    result := Ok(input);
  }

  /** Any other extension: encode into `join(dirname(input), basename(input, ext) + ".wav")`,
      throwing if the encoder fails. */
  method EncodeToNewFile(fs: Files, input: Path, extension: string, encoder: EncoderRun)
    returns (result: Result<Path, Failure>, effects: seq<Effect>)
    requires SimplePath(input) && input in fs.files
    requires extension == ToLower(ExtName(input)) && extension != WavExtension
    modifies fs
    ensures effects == [Encode(input, OutputPath(input), encoder.code)]
    ensures fs.files == Written(old(fs.files), OutputPath(input), encoder.written)
    ensures result == if encoder.code == 0 then Ok(OutputPath(input))
                      else Err(EncoderFailure(FailurePrefix + encoder.stderr))
    ensures input in fs.files && fs.files[input] == old(fs.files[input])
  {
    var outputFile := Join(DirName(input), BaseNameWithout(input, extension) + WavExtension);
    NewOutputIsDistinct(input);
    var code, stderr := RunEncoder(fs, input, outputFile, encoder);
    effects := [Encode(input, outputFile, code)];
    if code != 0 {
      result := Err(EncoderFailure(FailurePrefix + stderr));
      return;
    }
    result := Ok(outputFile);
  }

  /** A single encoder run renames nothing. */
  lemma NoRenameInOneEncode(e: Effect)
    requires e.Encode?
    ensures RenamesFollowSuccessfulEncode([e])
  {
  }

  /** Reading the header first does not put a rename before its encode. */
  lemma RenamesFollowAfterRead(input: Path, effects: seq<Effect>)
    requires RenamesFollowSuccessfulEncode(effects)
    ensures RenamesFollowSuccessfulEncode([ReadHeader(input)] + effects)
  {
    var all := [ReadHeader(input)] + effects;
    forall i | 0 <= i < |all| && all[i].Rename?
      ensures exists j :: 0 <= j < i && all[j].Encode? && all[j].dest == all[i].src && all[j].code == 0
    {
      assert all[i] == effects[i - 1];
      var j :| 0 <= j < i - 1 && effects[j].Encode? && effects[j].dest == effects[i - 1].src && effects[j].code == 0;
      assert all[j + 1] == effects[j];
    }
  }

  // ---------------------------------------------------------------------
  // Lemmas

  /** The extension test ignores case: exactly ".wav", ".WAV", ".Wav", ... take the ".wav" branch. */
  lemma WavExtensionIgnoresCase(e: string)
    ensures ToLower(e) == WavExtension <==>
      |e| == 4 && e[0] == '.' && (e[1] == 'w' || e[1] == 'W')
      && (e[2] == 'a' || e[2] == 'A') && (e[3] == 'v' || e[3] == 'V')
  {
    var l := ToLower(e);
    if |e| == 4 {
      assert l[0] == LowerChar(e[0]) && l[1] == LowerChar(e[1]);
      assert l[2] == LowerChar(e[2]) && l[3] == LowerChar(e[3]);
      if l == WavExtension {
        assert l[0] == '.' && l[1] == 'w' && l[2] == 'a' && l[3] == 'v';
      }
    }
  }

  /** The stem of a simple path is a non-empty plain name. */
  lemma StemIsPlainName(p: Path)
    requires SimplePath(p)
    ensures var stem := BaseNameWithout(p, ToLower(ExtName(p)));
      stem != "" && forall i :: 0 <= i < |stem| ==> stem[i] != '/'
  {
    StemKeepsUpperCaseExtension(p);
  }

  /** The new file sits beside the input: the input's last part is replaced by the
      stem followed by ".wav", and the result is again a simple ".wav" path. */
  lemma OutputPathShape(p: Path)
    requires SimplePath(p)
    ensures var stem := BaseNameWithout(p, ToLower(ExtName(p)));
      OutputPath(p) == DirPrefix(p) + (stem + WavExtension)
    ensures SimplePath(OutputPath(p)) && IsWavPath(OutputPath(p))
  {
    var stem := BaseNameWithout(p, ToLower(ExtName(p)));
    StemIsPlainName(p);
    var name := WavName(stem);
    JoinDirName(p, name);
    SimplePathRename(p, name);
    SiblingIsWavPath(p, stem);
  }

  lemma SiblingIsWavPath(p: Path, stem: string)
    requires stem != "" && forall i :: 0 <= i < |stem| ==> stem[i] != '/'
    ensures IsWavPath(DirPrefix(p) + (stem + WavExtension))
  {
    var q := DirPrefix(p) + (stem + WavExtension);
    ExtNameOfWavName(p, stem);
    WavIsLowerCase();
    assert ToLower(ExtName(q)) == ToLower(WavExtension);
  }

  lemma WavIsLowerCase()
    ensures ToLower(WavExtension) == WavExtension
  {
    WavExtensionIgnoresCase(WavExtension);
  }

  /** A plain stem followed by ".wav" is a plain name other than "." and "..". */
  lemma WavName(stem: string) returns (name: string)
    requires stem != "" && forall i :: 0 <= i < |stem| ==> stem[i] != '/'
    ensures name == stem + WavExtension
    ensures PlainPart(name)
    ensures forall i :: 0 <= i < |name| ==> name[i] != '/'
  {
    name := stem + WavExtension;
    forall i | 0 <= i < |name| ensures name[i] != '/' {
      if i >= |stem| { assert name[i] == WavExtension[i - |stem|]; }
    }
    assert |name| > 2;
  }

  /** For a non-".wav" input the new file is never the input itself, so the
      input is not overwritten. */
  lemma NewOutputIsDistinct(p: Path)
    requires SimplePath(p) && !IsWavPath(p)
    ensures OutputPath(p) != p
  {
    OutputPathShape(p);
  }

  /** Normalizing the result of a normalization is a no-op: a new file's path
      takes the ".wav" branch, and with a conforming header it passes through. */
  lemma NormalizeIdempotent(p: Path, headerValid: bool)
    requires !IsWavPath(p) ==> SimplePath(p)
    ensures var plan := PlanFor(p, headerValid);
      plan.EncodeToNew? ==> SimplePath(plan.output) && PlanFor(plan.output, true) == PassThrough
    ensures !PlanFor(p, headerValid).EncodeToNew? ==> PlanFor(p, true) == PassThrough
  {
    if !IsWavPath(p) {
      OutputPathShape(p);
    }
  }

  /** Running `convertToWavType` on the path a successful run returned: with an
      encoder that keeps its promise and a header stream that delivers the
      file, the second run passes the file through and changes nothing. */
  method ConvertTwice(fs: Files, input: Path, chunks: seq<seq<byte>>, readError: Option<string>,
                      encoder: EncoderRun, again: EncoderRun, highWaterMark: nat)
    returns (first: Result<Path, Failure>, second: Option<Result<Path, Failure>>, afterFirst: map<Path, seq<byte>>)
    requires !IsWavPath(input) ==> SimplePath(input)
    requires input in fs.files
    requires readError.None? ==> Concat(chunks) == HeaderWindow(fs.files[input])
    requires EncoderConforms(encoder) && highWaterMark > 0
    modifies fs
    ensures first.Ok? ==> second == Some(Ok(first.value)) && fs.files == afterFirst
    ensures first.Err? ==> second.None? && fs.files == afterFirst
  {
    var effects;
    first, effects := ConvertToWavType(fs, input, chunks, readError, encoder);
    afterFirst := fs.files;
    if first.Err? {
      second := None;
      return;
    }
    var out := first.value;
    NormalizeIdempotent(input, HeaderVerdict(old(fs.files[input])));
    assert IsWavPath(out);
    var chunks' := ReadStreamChunks(fs.files[out], highWaterMark);
    var rerun;
    rerun, effects := ConvertToWavType(fs, out, chunks', None, again);
    second := Some(rerun);
  }

  // ---------------------------------------------------------------------
  // Examples of the output-path rule

  /** "speech.mp3" is encoded to "speech.wav" beside it. */
  lemma SpeechMp3Example()
    ensures !IsWavPath("speech.mp3") && OutputPath("speech.mp3") == "speech.wav"
  {
    var p := "speech.mp3";
    LastIndexOfUnique(p, '/', None);
    LastIndexOfUnique(p, '.', Some(6));
    assert ExtName(p) == ".mp3";
    assert ToLower(".mp3") == ".mp3";
  }

  /** `basename` strips the lower-cased extension case-sensitively, so an
      upper-case extension stays in the name: "speech.MP3" gives "speech.MP3.wav". */
  lemma UpperCaseExtensionExample()
    ensures !IsWavPath("speech.MP3") && OutputPath("speech.MP3") == "speech.MP3.wav"
  {
    var p := "speech.MP3";
    LastIndexOfUnique(p, '/', None);
    LastIndexOfUnique(p, '.', Some(6));
    assert ExtName(p) == ".MP3";
    assert ToLower(".MP3") == ".mp3";
  }

  /** A name without an extension gets ".wav" appended, in the same directory. */
  lemma NoExtensionExample()
    ensures !IsWavPath("rec/take") && OutputPath("rec/take") == "rec/take.wav"
  {
    var p := "rec/take";
    LastIndexOfUnique(p, '/', Some(3));
    LastIndexOfUnique("take", '.', None);
    assert BaseName(p) == "take" && DirName(p) == "rec";
    assert ExtName(p) == "";
    assert ToLower("") == "";
  }

  /** ".WAV" takes the ".wav" branch. */
  lemma UpperCaseWavExample()
    ensures IsWavPath("/audio/clip.WAV")
  {
    var p := "/audio/clip.WAV";
    LastIndexOfUnique(p, '/', Some(6));
    assert BaseName(p) == "clip.WAV";
    LastIndexOfUnique("clip.WAV", '.', Some(4));
    assert ExtName(p) == ".WAV";
    WavExtensionIgnoresCase(".WAV");
  }

  /** A relative ".wav" path with a ".." part takes the ".wav" branch, which
      does not need the path to be simple. */
  lemma RelativeWavExample()
    ensures IsWavPath("../clip.wav") && !SimplePath("../clip.wav")
  {
    var p := "../clip.wav";
    RelativeWavIsWav();
    NotSimpleBelowDotDot(p);
  }

  lemma RelativeWavIsWav()
    ensures IsWavPath("../clip.wav")
  {
    var p := "../clip.wav";
    LastIndexOfUnique(p, '/', Some(2));
    assert BaseName(p) == "clip.wav";
    LastIndexOfUnique("clip.wav", '.', Some(4));
    assert ExtName(p) == ".wav";
    WavIsLowerCase();
  }

  lemma NotSimpleBelowDotDot(p: Path)
    requires |p| > 3 && p[..3] == "../"
    ensures !SimplePath(p)
  {
    assert p[..2] == "..";
    LastIndexOfUnique("..", '/', None);
    assert !PlainParent(p, 2);
  }
}
