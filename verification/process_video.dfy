/** The video handler: request gate, audio extraction, transcription, subtitle serialisation,
    the choice of muxer command, the reply and the success-path deletions. The external tools
    (ffmpeg, the speech and chat services) are reduced to what they leave on disk and whether
    they throw. */
module ProcessVideo {
  import opened Wrappers
  import opened JsStrings
  import opened Segments
  import Srt
  import opened TempFiles

  /** What the multipart parser yields: where the uploaded `video` file was saved, if one came,
      and the `apiKey` field. */
  datatype Form = Form(videoPath: Option<string>, apiKey: Option<string>)

  /** `form` is `None` when the multipart parser rejects the request. */
  datatype Request = Request(verb: string, form: Option<Form>)

  /** The steps inside the `try` that can throw; `Translate(at)` is the request for the kept
      segment at position `at`, counted from 0. */
  datatype Stage = ExtractAudio | Transcribe | Translate(at: nat) | WriteSubtitles | RunFfmpeg | ReadOutput

  /** Everything outside the handler: the disk before the request, what the speech service
      returns, the translation service, which step throws (if any) and whether that step leaves
      a partly written output file behind. */
  datatype World = World(
    disk: Disk,
    segments: seq<WhisperSegment>,
    translate: string -> string,
    fault: Option<Stage>,
    partial: bool)

  datatype Reply =
    | MethodNotAllowed
    | MissingParameters
    | ServerError(stage: Option<Stage>)   // `None`: the multipart parser threw
    | Video(contentType: string, disposition: string)

  function Status(r: Reply): int {
    match r
    case MethodNotAllowed => 405
    case MissingParameters => 400
    case ServerError(_) => 500
    case Video(_, _) => 200
  }

  /** The reply, the disk after the handler, the subtitle file contents and muxer command if
      those steps were reached, and the texts sent for translation. */
  datatype Outcome = Outcome(reply: Reply, disk: Disk, srt: Option<string>, command: Option<MuxCommand>, translated: seq<string>)

  const AudioSuffix := ".wav"
  const SubtitleSuffix := ".srt"
  const OutputSuffix := "_output.mp4"
  const SubtitleStyle := "Alignment=2,FontName=Noto Sans CJK JP,FontSize=24,PrimaryColour=&HFFFFFF,OutlineColour=&H000000,BorderStyle=3,Outline=1,Shadow=0,MarginV=35"

  /** The four working paths, in the order the handler deletes them. */
  function WorkPaths(input: string): seq<string> {
    [input, input + AudioSuffix, input + SubtitleSuffix, input + OutputSuffix]
  }

  lemma WorkPathsDistinct(input: string)
    ensures Distinct(WorkPaths(input))
  {
    var ps := WorkPaths(input);
    assert |ps[1]| == |ps[2]| == |input| + 4 && |ps[3]| == |input| + 11;
    assert ps[1][|input| + 1] == 'w' && ps[2][|input| + 1] == 's';
  }

  lemma ElemsWorkPaths(input: string)
    ensures Elems(WorkPaths(input)) == {input, input + AudioSuffix, input + SubtitleSuffix, input + OutputSuffix}
  {
    var ps := WorkPaths(input);
    assert forall p :: p in ps <==> p == ps[0] || p == ps[1] || p == ps[2] || p == ps[3];
  }

  lemma AddedThenRemoved(base: set<string>, a: string, b: string, c: string, d: string)
    ensures base + {a} + {b} + {c} + {d} - {a, b, c, d} == base - {a, b, c, d}
  {
  }

  /** The two muxer invocations the handler chooses between. */
  datatype MuxCommand =
    | CopyStreams(input: string, output: string)
    | BurnSubtitles(input: string, srtPath: string, output: string)

  function Quoted(s: string): string {
    "\"" + s + "\""
  }

  /** `ffmpeg -y -i "<input>" <options> "<output>"`. */
  function Invocation(input: string, options: string, output: string): string {
    "ffmpeg -y -i " + Quoted(input) + " " + options + " " + Quoted(output)
  }

  /** What goes between the input and the output: a plain stream copy, or the subtitle filter
      with its fixed style and the audio copied. */
  function Options(c: MuxCommand): string {
    match c
    case CopyStreams(_, _) => "-c copy"
    case BurnSubtitles(_, srtPath, _) =>
      "-vf " + Quoted("subtitles=" + srtPath + ":force_style='" + SubtitleStyle + "'") + " -c:a copy"
  }

  /** The shell command line of each invocation. */
  function CommandLine(c: MuxCommand): string {
    Invocation(c.input, Options(c), c.output)
  }

  /** An invocation reads as its three parts: the fixed head with the quoted input, the options,
      and the quoted output at the end. */
  lemma InvocationParts(input: string, options: string, output: string)
    ensures var head, line := "ffmpeg -y -i " + Quoted(input) + " ", Invocation(input, options, output);
      && |line| == |head| + |options| + 1 + |Quoted(output)|
      && line[..|head|] == head
      && line[|head|..|head| + |options|] == options
      && line[|line| - |Quoted(output)|..] == Quoted(output)
  {
    var head := "ffmpeg -y -i " + Quoted(input) + " ";
    var line := head + options + " " + Quoted(output);
    assert line[..|head|] == head;
    assert line[|head|..|head| + |options|] == options;
  }

  /** Both command lines run ffmpeg with `-y` on the same quoted input and end with the same
      quoted output; they part at the options, `-c copy` for the stream copy and `-vf` for the
      subtitle filter, so the two are never the same command. */
  lemma CommandLinesDiffer(input: string, srtPath: string, output: string)
    ensures var head := "ffmpeg -y -i " + Quoted(input) + " ";
      var copy, burn := CommandLine(CopyStreams(input, output)), CommandLine(BurnSubtitles(input, srtPath, output));
      && |copy| >= |head| + 3 && |burn| >= |head| + 3
      && copy[..|head|] == head && burn[..|head|] == head
      && copy[|copy| - |Quoted(output)|..] == Quoted(output) && burn[|burn| - |Quoted(output)|..] == Quoted(output)
      && copy[|head|..|head| + 3] == "-c " && burn[|head|..|head| + 3] == "-vf"
      && copy != burn
  {
    var head := "ffmpeg -y -i " + Quoted(input) + " ";
    var copyOpts, burnOpts := Options(CopyStreams(input, output)), Options(BurnSubtitles(input, srtPath, output));
    InvocationParts(input, copyOpts, output);
    InvocationParts(input, burnOpts, output);
    var copy, burn := Invocation(input, copyOpts, output), Invocation(input, burnOpts, output);
    assert copy[|head|..|head| + 3] == copyOpts[..3] == "-c ";
    assert burn[|head|..|head| + 3] == burnOpts[..3] == "-vf";
  }

  /** The command chosen for given subtitle contents: copy when they trim to nothing. */
  function ChooseCommand(srt: string, input: string): MuxCommand {
    if |Trim(srt)| == 0 then CopyStreams(input, input + OutputSuffix)
    else BurnSubtitles(input, input + SubtitleSuffix, input + OutputSuffix)
  }

  function AddFile(disk: Disk, path: string): Disk {
    Disk(disk.files + {path}, disk.dirs)
  }

  /** The disk after a step that throws: a partly written output stays if the step left one. */
  function AfterFault(disk: Disk, output: string, partial: bool): Disk {
    if partial then AddFile(disk, output) else disk
  }

  const Mp4Reply := Video("video/mp4", "attachment; filename=\"output.mp4\"")

  /** The handler from the method check to the end of the outer `catch`. */
  function Handle(req: Request, w: World): (o: Outcome)
    ensures Status(o.reply) == 405 <==> req.verb != "POST"
    ensures Status(o.reply) == 400 <==>
      req.verb == "POST" && req.form.Some? && (req.form.value.videoPath.None? || !Truthy(req.form.value.apiKey))
    ensures Status(o.reply) != 200 ==> w.disk.files <= o.disk.files && o.disk.dirs == w.disk.dirs
  {
    if req.verb != "POST" then Outcome(MethodNotAllowed, w.disk, None, None, [])
    else if req.form.None? then Outcome(ServerError(None), w.disk, None, None, [])
    else if req.form.value.videoPath.None? then Outcome(MissingParameters, w.disk, None, None, [])
    else
      // the parser has already saved the upload when the fields are inspected
      var input := req.form.value.videoPath.value;
      var d0 := AddFile(w.disk, input);
      if !Truthy(req.form.value.apiKey) then Outcome(MissingParameters, d0, None, None, [])
      else Extract(input, d0, w)
  }

  /** Audio extraction and transcription. */
  function Extract(input: string, d0: Disk, w: World): (o: Outcome)
    ensures o.reply != MethodNotAllowed && o.reply != MissingParameters
    ensures Status(o.reply) != 200 ==> d0.files <= o.disk.files && o.disk.dirs == d0.dirs
  {
    if w.fault.Some? && w.fault.value.ExtractAudio? then
      Outcome(ServerError(w.fault), AfterFault(d0, input + AudioSuffix, w.partial), None, None, [])
    else
      var d1 := AddFile(d0, input + AudioSuffix);
      if w.fault.Some? && w.fault.value.Transcribe? then Outcome(ServerError(w.fault), d1, None, None, [])
      else Serialise(input, d1, w, Transcribed(w.segments))
  }

  /** The subtitle loop and writing its result to the `.srt` file. */
  function Serialise(input: string, d1: Disk, w: World, segs: seq<Segment>): (o: Outcome)
    ensures o.reply != MethodNotAllowed && o.reply != MissingParameters
    ensures Status(o.reply) != 200 ==> d1.files <= o.disk.files && o.disk.dirs == d1.dirs
  {
    var calls := Srt.Texts(Srt.Kept(segs));
    // the failing request is the last one made; a position past the kept segments is never reached
    if w.fault.Some? && w.fault.value.Translate? && w.fault.value.at < |calls| then
      Outcome(ServerError(w.fault), d1, None, None, calls[..w.fault.value.at + 1])
    else if w.fault.Some? && w.fault.value.WriteSubtitles? then
      Outcome(ServerError(w.fault), AfterFault(d1, input + SubtitleSuffix, w.partial), None, None, calls)
    else Mux(input, AddFile(d1, input + SubtitleSuffix), w, Srt.SrtContent(segs, w.translate), calls)
  }

  /** The muxer run, reading its output, the reply and the deletions. */
  function Mux(input: string, d2: Disk, w: World, srt: string, calls: seq<string>): (o: Outcome)
    ensures o.reply != MethodNotAllowed && o.reply != MissingParameters
    ensures o.command == Some(ChooseCommand(srt, input)) && o.srt == Some(srt) && o.translated == calls
    ensures Status(o.reply) != 200 ==> d2.files <= o.disk.files && o.disk.dirs == d2.dirs
  {
    var command := ChooseCommand(srt, input);
    if w.fault.Some? && w.fault.value.RunFfmpeg? then
      Outcome(ServerError(w.fault), AfterFault(d2, input + OutputSuffix, w.partial), Some(srt), Some(command), calls)
    else
      var d3 := AddFile(d2, input + OutputSuffix);
      if w.fault.Some? && w.fault.value.ReadOutput? then Outcome(ServerError(w.fault), d3, Some(srt), Some(command), calls)
      else Outcome(Mp4Reply, UnlinkInOrder(d3, WorkPaths(input)).disk, Some(srt), Some(command), calls)
  }

  /** A well-formed request that runs to the end. */
  predicate Completes(req: Request, w: World) {
    && req.verb == "POST" && req.form.Some?
    && req.form.value.videoPath.Some? && Truthy(req.form.value.apiKey)
    && w.fault.None?
  }

  /** A successful run replies 200 with the mp4 headers, wrote the serialised subtitles, asked
      for one translation per kept segment in order, and deleted its four working files and
      nothing else. */
  lemma SuccessPath(req: Request, w: World)
    requires Completes(req, w)
    ensures var o, input := Handle(req, w), req.form.value.videoPath.value;
      var segs := Transcribed(w.segments);
      && o.reply == Mp4Reply
      && o.srt == Some(Srt.SrtContent(segs, w.translate))
      && o.translated == Srt.Texts(Srt.Kept(segs))
      && o.disk == Disk(w.disk.files - Elems(WorkPaths(input)), w.disk.dirs)
  {
    var input := req.form.value.videoPath.value;
    var paths := WorkPaths(input);
    var segs := Transcribed(w.segments);
    var d0 := AddFile(w.disk, input);
    var d1 := AddFile(d0, paths[1]);
    var d2 := AddFile(d1, paths[2]);
    var d3 := AddFile(d2, paths[3]);
    assert Handle(req, w) == Extract(input, d0, w);
    assert Extract(input, d0, w) == Serialise(input, d1, w, segs);
    var srt, calls := Srt.SrtContent(segs, w.translate), Srt.Texts(Srt.Kept(segs));
    assert Serialise(input, d1, w, segs) == Mux(input, d2, w, srt, calls);
    assert Mux(input, d2, w, srt, calls).disk == UnlinkInOrder(d3, paths).disk;
    WorkPathsDistinct(input);
    UnlinkInOrderAll(d3, paths);
    ElemsWorkPaths(input);
    AddedThenRemoved(w.disk.files, input, paths[1], paths[2], paths[3]);
  }

  /** The copy-only command is chosen exactly when no segment is kept; the subtitle filter
      otherwise. */
  lemma CommandChoice(input: string, d2: Disk, w: World, segs: seq<Segment>)
    ensures var o := Mux(input, d2, w, Srt.SrtContent(segs, w.translate), Srt.Texts(Srt.Kept(segs)));
      var none := |Srt.Kept(segs)| == 0;
      && o.command.Some?
      && (o.command.value == CopyStreams(input, input + OutputSuffix) <==> none)
      && (!none ==> o.command.value == BurnSubtitles(input, input + SubtitleSuffix, input + OutputSuffix))
  {
    Srt.SrtBlankIffNoneKept(segs, w.translate);
  }

  /** A translation request that would fail at position `k` matters only when more than `k`
      segments are kept: otherwise it is never made and the run is the same as without the
      fault. */
  lemma TranslateFaultNeedsKeptSegment(req: Request, w: World, k: nat)
    requires w.fault == Some(Translate(k))
    requires |Srt.Kept(Transcribed(w.segments))| <= k
    ensures Handle(req, w) == Handle(req, w.(fault := None))
  {
    var healthy := w.(fault := None);
    if req.verb == "POST" && req.form.Some? && req.form.value.videoPath.Some? && Truthy(req.form.value.apiKey) {
      var input := req.form.value.videoPath.value;
      var d0 := AddFile(w.disk, input);
      var d1 := AddFile(d0, input + AudioSuffix);
      var d2 := AddFile(d1, input + SubtitleSuffix);
      var segs := Transcribed(w.segments);
      var srt, calls := Srt.SrtContent(segs, w.translate), Srt.Texts(Srt.Kept(segs));
      assert Handle(req, w) == Serialise(input, d1, w, segs) == Mux(input, d2, w, srt, calls);
      assert Handle(req, healthy) == Serialise(input, d1, healthy, segs) == Mux(input, d2, healthy, srt, calls);
    }
  }

  /** When the request for the `k`-th kept segment throws, exactly the first `k + 1` kept texts
      were sent, in order, no subtitle file was written, no command ran, and the upload and the
      extracted audio stay on disk. */
  lemma TranslateFaultStops(req: Request, w: World, k: nat)
    requires req.verb == "POST" && req.form.Some? && req.form.value.videoPath.Some?
    requires Truthy(req.form.value.apiKey)
    requires w.fault == Some(Translate(k)) && k < |Srt.Kept(Transcribed(w.segments))|
    ensures var o, input := Handle(req, w), req.form.value.videoPath.value;
      var sent := Srt.Texts(Srt.Kept(Transcribed(w.segments)));
      && o.reply == ServerError(Some(Translate(k)))
      && |o.translated| == k + 1
      && (forall j :: 0 <= j <= k ==> o.translated[j] == sent[j])
      && o.srt.None? && o.command.None?
      && o.disk == Disk(w.disk.files + {input, input + AudioSuffix}, w.disk.dirs)
  {
    var input := req.form.value.videoPath.value;
    var d0 := AddFile(w.disk, input);
    var d1 := AddFile(d0, input + AudioSuffix);
    assert Handle(req, w) == Serialise(input, d1, w, Transcribed(w.segments));
  }

  /** No exit other than success deletes anything: the upload and every intermediate file the
      failing run produced stay on disk. */
  lemma ErrorPathKeepsFiles(req: Request, w: World, s: Stage)
    requires w.fault == Some(s) && Handle(req, w).reply == ServerError(Some(s))
    requires req.verb == "POST" && req.form.Some? && req.form.value.videoPath.Some?
    ensures var o, input := Handle(req, w), req.form.value.videoPath.value;
      && input in o.disk.files
      && (s != ExtractAudio ==> input + AudioSuffix in o.disk.files)
      && (s == RunFfmpeg || s == ReadOutput ==> input + SubtitleSuffix in o.disk.files)
      && (s == ReadOutput ==> input + OutputSuffix in o.disk.files)
  {
  }

  /** A request that fails the parameter check still leaves the saved upload on disk. */
  lemma MissingKeyKeepsUpload(req: Request, w: World)
    requires req.verb == "POST" && req.form.Some? && req.form.value.videoPath.Some?
    requires !Truthy(req.form.value.apiKey)
    ensures var o := Handle(req, w);
      && o.reply == MissingParameters
      && o.disk.files == w.disk.files + {req.form.value.videoPath.value}
      && o.translated == [] && o.command.None?
  {
  }
}
