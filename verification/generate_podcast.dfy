/** The podcast handler: request validation, the download into a fresh `yt-` directory, the
    registration of temporary paths, the transcript, the reply and the `finally` cleanup. The
    download tool, ffmpeg, the speech, chat and voice services and the base64 encoder are
    reduced to what they return, what they leave on disk and whether they throw. */
module GeneratePodcast {
  import opened Wrappers
  import opened JsStrings
  import opened Segments
  import Transcript
  import opened TempFiles

  /** The three form fields the handler reads (the first value when a field repeats). */
  datatype Fields = Fields(youtubeUrl: Option<string>, apiKey: Option<string>, nijivoiceApiKey: Option<string>)

  /** `fields` is `None` when the multipart parser rejects the request. */
  datatype Request = Request(verb: string, fields: Option<Fields>)

  /** The steps inside the `try` that can throw. */
  datatype Stage = MakeTempDir | Download | ExtractAudio | Transcribe | Script | Speech | WriteMp3 | ReadMp3

  type Bytes = seq<bv8>

  /** Everything outside the handler: the disk, the system temporary directory, the random
      suffix `mkdtemp` picks, the names the download leaves in its directory (in `readdirSync`
      order), what the speech service returns, the script and voice services, the base64
      encoder, which step throws (if any) and whether that step leaves a partly written file. */
  datatype World = World(
    disk: Disk,
    tmpDir: string,
    dirSuffix: string,
    listing: seq<string>,
    segments: seq<WhisperSegment>,
    generate: string -> string,
    speak: string -> Bytes,
    base64: Bytes -> string,
    fault: Option<Stage>,
    partial: bool)

  datatype Reply =
    | MethodNotAllowed
    | MissingVoiceKey
    | MissingUrlOrKey
    | ServerError
    | AudioUrlMissing
    | Podcast(success: bool, audioData: string, message: string, audioUrl: string)

  function Status(r: Reply): int {
    match r
    case MethodNotAllowed => 405
    case MissingVoiceKey => 400
    case MissingUrlOrKey => 400
    case ServerError => 500
    case AudioUrlMissing => 500
    case Podcast(_, _, _, _) => 200
  }

  const DataUriPrefix := "data:audio/mp3;base64,"
  const SuccessMessage := "音声の生成に成功したで！"
  const AudioName := "audio.wav"
  const Mp3Name := "podcast.mp3"

  /** The directory `mkdtemp` creates for the download. */
  function DownloadDir(w: World): string {
    Join(w.tmpDir, "yt-" + w.dirSuffix)
  }

  predicate IsVideoName(name: string) {
    |name| >= 6 && name[..6] == "video."
  }

  /** `files.find(file => file.startsWith('video.'))`. */
  function FindVideo(listing: seq<string>): (r: Option<string>)
    ensures r.None? <==> forall i :: 0 <= i < |listing| ==> !IsVideoName(listing[i])
    ensures r.Some? ==> exists i :: (0 <= i < |listing| && listing[i] == r.value && IsVideoName(r.value)
      && forall j :: 0 <= j < i ==> !IsVideoName(listing[j]))
    decreases |listing|
  {
    if |listing| == 0 then None
    else if IsVideoName(listing[0]) then Some(listing[0])
    else
      var r := FindVideo(listing[1..]);
      assert forall i :: 1 <= i < |listing| ==> listing[i] == listing[1..][i - 1];
      if r.Some? then
        assert exists i :: (0 <= i < |listing| && listing[i] == r.value && IsVideoName(r.value)
          && forall j :: 0 <= j < i ==> !IsVideoName(listing[j])) by {
          var i :| 0 <= i < |listing| - 1 && listing[1..][i] == r.value && IsVideoName(r.value)
            && forall j :: 0 <= j < i ==> !IsVideoName(listing[1..][j]);
          assert listing[i + 1] == r.value;
        }
        r
      else r
  }

  /** The paths of the names the download leaves in `dir`. */
  function InDir(dir: string, names: seq<string>): (paths: seq<string>)
    ensures |paths| == |names|
  {
    seq(|names|, i requires 0 <= i < |names| => Join(dir, names[i]))
  }

  /** Where the `try` block exits: the reply it chose and the bookkeeping `finally` sees. */
  datatype Exit = Exit(reply: Reply, registry: Registry)

  datatype Outcome = Outcome(reply: Reply, disk: Disk)

  /** The whole handler: the method check before the `try`, then the `try`/`catch`, then the
      `finally`, which maps disks to disks and never touches the reply. */
  function Handle(req: Request, w: World): (o: Outcome)
    ensures Status(o.reply) == 405 <==> req.verb != "POST"
    ensures req.verb == "POST" ==> o.reply == Attempt(req.fields, w).reply
    ensures o.reply == MissingVoiceKey <==>
      req.verb == "POST" && req.fields.Some? && !Truthy(req.fields.value.nijivoiceApiKey)
    ensures o.reply == MissingUrlOrKey <==>
      && req.verb == "POST" && req.fields.Some? && Truthy(req.fields.value.nijivoiceApiKey)
      && (!Truthy(req.fields.value.youtubeUrl) || !Truthy(req.fields.value.apiKey))
    ensures Status(o.reply) == 405 || Status(o.reply) == 400 ==> o.disk == w.disk
  {
    if req.verb != "POST" then Outcome(MethodNotAllowed, w.disk)
    else
      var e := Attempt(req.fields, w);
      Outcome(e.reply, Cleanup(e.registry))
  }

  function Nothing(disk: Disk): Registry {
    Registry(disk, [], None)
  }

  /** The `try` block: parsing and validation. */
  function Attempt(fields: Option<Fields>, w: World): (e: Exit)
    ensures e.reply != MethodNotAllowed
  {
    if fields.None? then Exit(ServerError, Nothing(w.disk))
    else if !Truthy(fields.value.nijivoiceApiKey) then Exit(MissingVoiceKey, Nothing(w.disk))
    else if !Truthy(fields.value.youtubeUrl) || !Truthy(fields.value.apiKey) then Exit(MissingUrlOrKey, Nothing(w.disk))
    else Fetch(w)
  }

  /** `downloadYouTubeVideo`: the directory is created first and is not registered until the
      download has returned a path. */
  function Fetch(w: World): (e: Exit)
    ensures e.reply != MethodNotAllowed && e.reply != MissingVoiceKey && e.reply != MissingUrlOrKey
  {
    if w.fault == Some(MakeTempDir) then Exit(ServerError, Nothing(w.disk))
    else
      var dir := DownloadDir(w);
      var d := Disk(w.disk.files + Elems(InDir(dir, w.listing)), w.disk.dirs + {dir});
      var video := FindVideo(w.listing);
      if w.fault == Some(Download) || video.None? then Exit(ServerError, Nothing(d))
      else
        var input := Join(dir, video.value);
        Produce(input, Dirname(input), d, w)
  }

  /** Everything after the download: extraction, transcript, script, voice, the mp3 file and
      the reply. */
  function Produce(input: string, tempDir: string, d: Disk, w: World): (e: Exit)
    ensures e.reply != MethodNotAllowed && e.reply != MissingVoiceKey && e.reply != MissingUrlOrKey
  {
    var audio := Join(tempDir, AudioName);
    var registered := [input, audio];
    if w.fault == Some(ExtractAudio) then
      Exit(ServerError, Registry(if w.partial then Disk(d.files + {audio}, d.dirs) else d, registered, Some(tempDir)))
    else
      var d1 := Disk(d.files + {audio}, d.dirs);
      if w.fault == Some(Transcribe) || w.fault == Some(Script) || w.fault == Some(Speech) then
        Exit(ServerError, Registry(d1, registered, Some(tempDir)))
      else
        var mp3 := Join(tempDir, Mp3Name);
        if w.fault == Some(WriteMp3) then
          Exit(ServerError, Registry(if w.partial then Disk(d1.files + {mp3}, d1.dirs) else d1, registered, Some(tempDir)))
        else
          var reg := Registry(Disk(d1.files + {mp3}, d1.dirs), registered + [mp3], Some(tempDir));
          if w.fault == Some(ReadMp3) then Exit(ServerError, reg)
          else Exit(Respond(w), reg)
  }

  /** The audio the voice service produces for the script generated from the transcript. */
  function Audio(w: World): Bytes {
    w.speak(w.generate(Transcript.Transcript(Transcribed(w.segments))))
  }

  /** The success reply, including the check on `audioUrl` that can never fire. */
  function Respond(w: World): Reply {
    var uri := DataUriPrefix + w.base64(Audio(w));
    if uri == "" then AudioUrlMissing else Podcast(true, uri, SuccessMessage, uri)
  }

  /** A request that passes validation. */
  predicate Valid(req: Request) {
    && req.verb == "POST" && req.fields.Some?
    && Truthy(req.fields.value.nijivoiceApiKey)
    && Truthy(req.fields.value.youtubeUrl) && Truthy(req.fields.value.apiKey)
  }

  /** A successful run replies 200 with `success`, both data fields equal to the data URI of the
      base64 encoding of the voiced script, and the script generated from the transcript. */
  lemma SuccessReply(req: Request, w: World)
    requires Valid(req) && w.fault.None? && FindVideo(w.listing).Some?
    ensures var o, uri := Handle(req, w), DataUriPrefix + w.base64(Audio(w));
      && Status(o.reply) == 200
      && o.reply == Podcast(true, uri, SuccessMessage, uri)
      && o.reply.audioData[..|DataUriPrefix|] == DataUriPrefix
  {
    var uri := DataUriPrefix + w.base64(Audio(w));
    assert uri[0] == 'd';
    assert Respond(w) == Podcast(true, uri, SuccessMessage, uri);
    var dir := DownloadDir(w);
    var d := Disk(w.disk.files + Elems(InDir(dir, w.listing)), w.disk.dirs + {dir});
    var input := Join(dir, FindVideo(w.listing).value);
    assert Fetch(w) == Produce(input, Dirname(input), d, w);
    ProduceSucceeds(input, Dirname(input), d, w);
    assert Handle(req, w).reply == Attempt(req.fields, w).reply == Fetch(w).reply;
  }

  /** Without a failing step, whatever the paths, the steps after the download end in the
      success reply. */
  lemma ProduceSucceeds(input: string, tempDir: string, d: Disk, w: World)
    requires w.fault.None?
    ensures Produce(input, tempDir, d, w).reply == Respond(w)
  {
  }

  /** The directory `mkdtemp` hands out is new, so nothing on the disk is in it or is it. */
  predicate FreshDir(disk: Disk, dir: string) {
    && dir !in disk.files && dir !in disk.dirs
    && (forall p :: p in disk.files ==> Dirname(p) != dir)
    && (forall p :: p in disk.dirs ==> Dirname(p) != dir)
  }

  /** What the lemmas take for granted about the surroundings: a consistent disk, a fresh download
      directory and plain file names from `readdirSync`. */
  predicate WellFormed(w: World) {
    && w.disk.Valid()
    && IsDirPath(w.tmpDir) && '/' !in w.dirSuffix
    && FreshDir(w.disk, DownloadDir(w))
    && PlainNames(w.listing)
  }

  /** `readdirSync` returns names, never paths. */
  predicate PlainNames(names: seq<string>) {
    forall i :: 0 <= i < |names| ==> '/' !in names[i]
  }

  /** Where the run stands at each exit: a failed download registers nothing, the audio path
      is registered before extraction runs, the mp3 path only after it is written. */
  lemma RegistrationOrder(req: Request, w: World)
    requires Valid(req) && PlainNames(w.listing) && '/' !in w.dirSuffix
    ensures var e, dir := Attempt(req.fields, w), DownloadDir(w);
      var video := FindVideo(w.listing);
      && (w.fault == Some(MakeTempDir) || w.fault == Some(Download) || video.None? ==>
            e.registry.tempFiles == [] && e.registry.tempDir.None?)
      && (w.fault != Some(MakeTempDir) && w.fault != Some(Download) && video.Some? ==>
            var input := Join(dir, video.value);
            var audio, mp3 := Join(dir, AudioName), Join(dir, Mp3Name);
            && e.registry.tempDir == Some(dir)
            && (BeforeMp3(w.fault) ==> e.registry.tempFiles == [input, audio])
            && (!BeforeMp3(w.fault) ==> e.registry.tempFiles == [input, audio, mp3]))
  {
    var video := FindVideo(w.listing);
    assert Attempt(req.fields, w) == Fetch(w);
    if w.fault != Some(MakeTempDir) && w.fault != Some(Download) && video.Some? {
      var dir := DownloadDir(w);
      var input := Join(dir, video.value);
      var d := Disk(w.disk.files + Elems(InDir(dir, w.listing)), w.disk.dirs + {dir});
      assert Fetch(w) == Produce(input, Dirname(input), d, w);
      VideoDir(w);
      ProduceRegistration(input, dir, d, w);
    }
  }

  /** The failures that end the run before the mp3 file is registered. */
  predicate BeforeMp3(fault: Option<Stage>) {
    fault.Some? && fault.value in {ExtractAudio, Transcribe, Script, Speech, WriteMp3}
  }

  lemma ProduceRegistration(input: string, tempDir: string, d: Disk, w: World)
    ensures var e := Produce(input, tempDir, d, w);
      var audio, mp3 := Join(tempDir, AudioName), Join(tempDir, Mp3Name);
      && e.registry.tempDir == Some(tempDir)
      && (BeforeMp3(w.fault) ==> e.registry.tempFiles == [input, audio])
      && (!BeforeMp3(w.fault) ==> e.registry.tempFiles == [input, audio, mp3])
  {
  }

  /** The downloaded video sits directly in the download directory, so that directory is what
      the handler registers. */
  lemma VideoDir(w: World)
    requires PlainNames(w.listing) && FindVideo(w.listing).Some? && '/' !in w.dirSuffix
    ensures Dirname(Join(DownloadDir(w), FindVideo(w.listing).value)) == DownloadDir(w)
  {
    var v := FindVideo(w.listing).value;
    var i :| 0 <= i < |w.listing| && w.listing[i] == v;
    DownloadDirIsDirPath(w);
    DirnameJoin(DownloadDir(w), v);
  }

  /** The download directory ends with the last character of `yt-` and the suffix, never with a
      separator. */
  lemma DownloadDirIsDirPath(w: World)
    requires '/' !in w.dirSuffix
    ensures IsDirPath(DownloadDir(w))
  {
    var leaf := "yt-" + w.dirSuffix;
    assert leaf[|leaf| - 1] != '/' by {
      if |w.dirSuffix| > 0 {
        assert leaf[|leaf| - 1] == w.dirSuffix[|w.dirSuffix| - 1];
      }
    }
    assert DownloadDir(w)[|DownloadDir(w)| - 1] == leaf[|leaf| - 1];
  }

  /** Cleanup of a fresh directory the run wrote into: when every file written there was
      registered the disk is back to what it was before the run; otherwise the unregistered
      files stay, and so does the directory, whose removal fails because it is not empty. */
  lemma CleanupFreshDir(base: Disk, dir: string, written: set<string>, registered: seq<string>)
    requires base.Valid() && FreshDir(base, dir) && dir != "" && Dirname(dir) != dir
    requires forall p :: p in written ==> Dirname(p) == dir
    requires forall i :: 0 <= i < |registered| ==> Dirname(registered[i]) == dir
    ensures var left := written - Elems(registered);
      Cleanup(Registry(Disk(base.files + written, base.dirs + {dir}), registered, Some(dir)))
        == if left == {} then base else Disk(base.files + left, base.dirs + {dir})
  {
    var disk := Disk(base.files + written, base.dirs + {dir});
    var reg := Registry(disk, registered, Some(dir));
    var left := written - Elems(registered);
    assert disk.Valid() by {
      forall p | p in written ensures p !in disk.dirs {
        assert Dirname(p) == dir;
      }
    }
    forall i | 0 <= i < |registered| ensures registered[i] !in disk.dirs && registered[i] !in base.files {
      assert Dirname(registered[i]) == dir;
    }
    CleanupSpec(reg);
    var rest := disk.files - Elems(registered);
    assert rest == base.files + left;
    if left == {} {
      assert IsEmptyDir(Disk(rest, disk.dirs), dir);
    } else {
      var p :| p in left;
      assert Dirname(p) == dir && p in rest;
      assert !IsEmptyDir(Disk(rest, disk.dirs), dir);
    }
  }

  /** The files the steps after the download have written when the run leaves the `try`. */
  function Written(fault: Option<Stage>, partial: bool, audio: string, mp3: string): set<string> {
    if fault == Some(ExtractAudio) then (if partial then {audio} else {})
    else if fault == Some(WriteMp3) then (if partial then {audio, mp3} else {audio})
    else if BeforeMp3(fault) then {audio}
    else {audio, mp3}
  }

  lemma ProduceDisk(input: string, tempDir: string, d: Disk, w: World)
    ensures Produce(input, tempDir, d, w).registry.disk
      == Disk(d.files + Written(w.fault, w.partial, Join(tempDir, AudioName), Join(tempDir, Mp3Name)), d.dirs)
  {
  }

  /** A download that throws, or finds no `video.*` file, registers nothing: the reply is 500 and
      the `yt-` directory with whatever the download left in it stays on disk. */
  lemma DownloadFailureLeaksDir(req: Request, w: World)
    requires Valid(req) && w.fault != Some(MakeTempDir)
    requires w.fault == Some(Download) || FindVideo(w.listing).None?
    ensures var o, dir := Handle(req, w), DownloadDir(w);
      && o.reply == ServerError
      && o.disk == Disk(w.disk.files + Elems(InDir(dir, w.listing)), w.disk.dirs + {dir})
  {
    assert Attempt(req.fields, w) == Fetch(w);
  }

  /** What each exit after a download that left only the video file leaves on disk: the disk as
      it was before the request, except when writing the mp3 throws after creating the file,
      which is never registered, so it and the `yt-` directory stay. */
  lemma ExitLeavesDisk(req: Request, w: World)
    requires Valid(req) && WellFormed(w) && w.fault != Some(MakeTempDir) && w.fault != Some(Download)
    requires |w.listing| == 1 && IsVideoName(w.listing[0])
    ensures var o, dir := Handle(req, w), DownloadDir(w);
      o.disk == if w.fault == Some(WriteMp3) && w.partial
                then Disk(w.disk.files + {Join(dir, Mp3Name)}, w.disk.dirs + {dir})
                else w.disk
  {
    var dir, v := DownloadDir(w), w.listing[0];
    var input, audio, mp3 := Join(dir, v), Join(dir, AudioName), Join(dir, Mp3Name);
    assert FindVideo(w.listing) == Some(v);
    VideoDir(w);
    assert Elems(InDir(dir, w.listing)) == {input} by {
      assert InDir(dir, w.listing) == [input];
    }
    var d := Disk(w.disk.files + {input}, w.disk.dirs + {dir});
    var e := Produce(input, dir, d, w);
    assert Handle(req, w).disk == Cleanup(e.registry) by {
      assert Fetch(w) == e;
    }
    var registered := if BeforeMp3(w.fault) then [input, audio] else [input, audio, mp3];
    var written := {input} + Written(w.fault, w.partial, audio, mp3);
    assert e.registry == Registry(Disk(w.disk.files + written, w.disk.dirs + {dir}), registered, Some(dir)) by {
      ProduceRegistration(input, dir, d, w);
      ProduceDisk(input, dir, d, w);
      assert d.files + Written(w.fault, w.partial, audio, mp3) == w.disk.files + written;
    }
    DownloadDirParent(w);
    FixedNamesArePlain();
    DownloadDirIsDirPath(w);
    DirnameJoin(dir, AudioName);
    DirnameJoin(dir, Mp3Name);
    NamesDiffer(dir, v);
    CleanupAfterProduce(w.disk, dir, input, audio, mp3, w.fault, w.partial);
  }

  /** The download directory sits directly in the system temporary directory. */
  lemma DownloadDirParent(w: World)
    requires IsDirPath(w.tmpDir) && '/' !in w.dirSuffix
    ensures DownloadDir(w) != "" && Dirname(DownloadDir(w)) == w.tmpDir != DownloadDir(w)
  {
    assert '/' !in "yt-" + w.dirSuffix by {
      assert forall k :: 0 <= k < 3 ==> ("yt-" + w.dirSuffix)[k] == "yt-"[k];
    }
    DirnameJoin(w.tmpDir, "yt-" + w.dirSuffix);
  }

  /** The `finally` after any exit past the download, in terms of the three paths. */
  lemma CleanupAfterProduce(base: Disk, dir: string, input: string, audio: string, mp3: string,
                            fault: Option<Stage>, partial: bool)
    requires base.Valid() && FreshDir(base, dir) && dir != "" && Dirname(dir) != dir
    requires Dirname(input) == dir && Dirname(audio) == dir && Dirname(mp3) == dir
    requires mp3 != input && mp3 != audio
    ensures var registered := if BeforeMp3(fault) then [input, audio] else [input, audio, mp3];
      var written := {input} + Written(fault, partial, audio, mp3);
      Cleanup(Registry(Disk(base.files + written, base.dirs + {dir}), registered, Some(dir)))
        == if fault == Some(WriteMp3) && partial then Disk(base.files + {mp3}, base.dirs + {dir}) else base
  {
    var registered := if BeforeMp3(fault) then [input, audio] else [input, audio, mp3];
    var written := {input} + Written(fault, partial, audio, mp3);
    assert written <= {input, audio, mp3};
    if BeforeMp3(fault) {
      ElemsPair(input, audio);
    } else {
      ElemsTriple(input, audio, mp3);
    }
    CleanupFreshDir(base, dir, written, registered);
    var left := written - Elems(registered);
    if fault == Some(WriteMp3) && partial {
      assert left == {mp3};
    } else {
      assert left == {};
    }
  }

  lemma FixedNamesArePlain()
    ensures '/' !in AudioName && '/' !in Mp3Name
  {
    assert forall k :: 0 <= k < |AudioName| ==> AudioName[k] != '/';
    assert forall k :: 0 <= k < |Mp3Name| ==> Mp3Name[k] != '/';
  }

  /** The three paths in the download directory are distinct. */
  lemma NamesDiffer(dir: string, v: string)
    requires IsVideoName(v)
    ensures Join(dir, v) != Join(dir, AudioName) && Join(dir, v) != Join(dir, Mp3Name)
    ensures Join(dir, AudioName) != Join(dir, Mp3Name)
  {
    var k := |JoinPrefix(dir)|;
    assert Join(dir, v)[k] == v[0] == 'v';
    assert Join(dir, AudioName)[k] == 'a';
    assert Join(dir, Mp3Name)[k] == 'p';
  }
}
