/** The SubRip serialiser of the video handler: blank segments are dropped, the rest are
    translated one by one, numbered 1, 2, 3, ... and rendered as `index`, `start --> end`,
    the translated text and a blank line, with every cue shown for at least 500 ms. */
module Srt {
  import opened Wrappers
  import opened JsStrings
  import opened Decimal
  import opened SrtTime
  import opened Segments

  /** The minimum display time of a cue. */
  const MinDurationMs: int := 500

  datatype Cue = Cue(index: nat, startMs: int, endMs: int, text: string)

  /** The loop's `continue` test, `!segment.text.trim()`, which holds exactly for blank texts
      (`TrimEmptyIffBlank`). */
  predicate Skipped(seg: Segment) {
    IsBlank(seg.text)
  }

  /** The end time a cue is given: `start + max(end - start, 500)`. The start is never moved. */
  function EffectiveEnd(seg: Segment): (e: int)
    ensures e - seg.startMs >= MinDurationMs
    ensures seg.endMs - seg.startMs >= MinDurationMs ==> e == seg.endMs
    ensures seg.endMs - seg.startMs < MinDurationMs ==> e == seg.startMs + MinDurationMs
  {
    var duration := seg.endMs - seg.startMs;
    seg.startMs + (if duration > MinDurationMs then duration else MinDurationMs)
  }

  /** The segments among the first `n` that get a cue, in input order. */
  function KeptUpTo(segs: seq<Segment>, n: nat): seq<Segment>
    requires n <= |segs|
  {
    if n == 0 then []
    else KeptUpTo(segs, n - 1) + (if Skipped(segs[n - 1]) then [] else [segs[n - 1]])
  }

  /** The segments that get a cue, in input order. */
  function Kept(segs: seq<Segment>): seq<Segment> {
    KeptUpTo(segs, |segs|)
  }

  /** Where the kept segments among the first `n` sit in the input. */
  function KeptPositions(segs: seq<Segment>, n: nat): seq<nat>
    requires n <= |segs|
  {
    if n == 0 then []
    else KeptPositions(segs, n - 1) + (if Skipped(segs[n - 1]) then [] else [n - 1])
  }

  /** The kept segments among the first `n` are exactly the non-blank ones, taken in strictly
      increasing input positions: nothing is reordered, duplicated or lost. */
  lemma {:induction false} KeptSelection(segs: seq<Segment>, n: nat)
    requires n <= |segs|
    ensures var k, p := KeptUpTo(segs, n), KeptPositions(segs, n);
      && |p| == |k|
      && (forall j :: 0 <= j < |p| ==> p[j] < n && k[j] == segs[p[j]])
      && (forall j, l :: 0 <= j < l < |p| ==> p[j] < p[l])
      && (forall i :: 0 <= i < n ==> (i in p <==> !Skipped(segs[i])))
  {
    if n > 0 {
      KeptSelection(segs, n - 1);
    }
  }

  /** A prefix of the input keeps what it kept before more segments were added after it. */
  lemma {:induction false} KeptUpToPrefix(a: seq<Segment>, b: seq<Segment>, n: nat)
    requires n <= |a|
    ensures KeptUpTo(a + b, n) == KeptUpTo(a, n)
  {
    if n > 0 {
      var ab := a + b;
      assert KeptUpTo(ab, n - 1) == KeptUpTo(a, n - 1) by {
        KeptUpToPrefix(a, b, n - 1);
      }
      assert ab[n - 1] == a[n - 1];
    }
  }

  /** After a prefix, the kept segments are those of the prefix followed by those of the rest. */
  lemma {:induction false} KeptUpToSuffix(a: seq<Segment>, b: seq<Segment>, n: nat)
    requires n <= |b|
    ensures KeptUpTo(a + b, |a| + n) == Kept(a) + KeptUpTo(b, n)
  {
    if n == 0 {
      KeptUpToPrefix(a, b, |a|);
    } else {
      var ab, seg := a + b, b[n - 1];
      var added := if Skipped(seg) then [] else [seg];
      var before, rest := KeptUpTo(ab, |a| + n - 1), KeptUpTo(b, n - 1);
      assert before == Kept(a) + rest by {
        KeptUpToSuffix(a, b, n - 1);
      }
      assert KeptUpTo(ab, |a| + n) == before + added by {
        assert ab[|a| + n - 1] == seg;
      }
      assert KeptUpTo(b, n) == rest + added;
    }
  }

  /** Filtering distributes over concatenation. */
  lemma KeptAppend(a: seq<Segment>, b: seq<Segment>)
    ensures Kept(a + b) == Kept(a) + Kept(b)
  {
    KeptUpToSuffix(a, b, |b|);
  }

  /** The cue the loop emits for a kept segment given its number. */
  function MakeCue(index: nat, seg: Segment, translate: string -> string): Cue {
    Cue(index, seg.startMs, EffectiveEnd(seg), translate(seg.text))
  }

  /** The cues of the kept segments, numbered from 1 in order. */
  function CueList(kept: seq<Segment>, translate: string -> string): (cs: seq<Cue>)
    ensures |cs| == |kept|
  {
    seq(|kept|, k requires 0 <= k < |kept| => MakeCue(k + 1, kept[k], translate))
  }

  /** The lines of one block: number, `start --> end`, text, then an empty line. */
  function CueLayout(number: string, start: string, end: string, text: string): string {
    number + ("\n" + (start + (" --> " + (end + ("\n" + (text + "\n\n"))))))
  }

  /** One block with its times printed by `fmt`. Everything about numbering, order and layout
      holds whatever `fmt` does, so it is stated for any `fmt`; the handler uses `FormatTime`. */
  function Block(c: Cue, fmt: int -> string): string {
    CueLayout(NatToDecimal(c.index), fmt(c.startMs), fmt(c.endMs), c.text)
  }

  /** One SubRip block as the handler writes it. */
  function RenderCue(c: Cue): string {
    Block(c, FormatTime)
  }

  /** The blocks of a cue list, one after another. */
  function RenderCues(cs: seq<Cue>, fmt: int -> string): string {
    if |cs| == 0 then "" else RenderCues(cs[..|cs| - 1], fmt) + Block(cs[|cs| - 1], fmt)
  }

  /** The texts handed to the translation service, one per kept segment. */
  function Texts(segs: seq<Segment>): (ts: seq<string>)
    ensures |ts| == |segs|
  {
    seq(|segs|, k requires 0 <= k < |segs| => segs[k].text)
  }

  /** The file contents the handler writes: the rendered cues of the kept segments. */
  function SrtContent(segs: seq<Segment>, translate: string -> string): string {
    RenderCues(CueList(Kept(segs), translate), FormatTime)
  }

  /** Appending a cue appends its block. */
  lemma RenderCuesSnoc(cs: seq<Cue>, c: Cue, fmt: int -> string)
    ensures RenderCues(cs + [c], fmt) == RenderCues(cs, fmt) + Block(c, fmt)
  {
    assert (cs + [c])[..|cs|] == cs;
  }

  /** A non-empty list renders to text that starts with a digit (the first cue's number); an
      empty one renders to nothing. */
  lemma {:induction false} RenderCuesStartWithDigit(cs: seq<Cue>, fmt: int -> string)
    ensures |cs| == 0 ==> RenderCues(cs, fmt) == ""
    ensures |cs| > 0 ==> |RenderCues(cs, fmt)| > 0 && IsDigit(RenderCues(cs, fmt)[0])
  {
    if |cs| > 0 {
      var init := cs[..|cs| - 1];
      RenderCuesStartWithDigit(init, fmt);
      if |init| == 0 {
        var d := NatToDecimal(cs[0].index);
        assert Block(cs[0], fmt)[0] == d[0];
      }
    }
  }

  /** The content is empty exactly when no segment is kept. */
  lemma SrtEmptyIffNoneKept(segs: seq<Segment>, translate: string -> string)
    ensures SrtContent(segs, translate) == "" <==> |Kept(segs)| == 0
  {
    RenderCuesStartWithDigit(CueList(Kept(segs), translate), FormatTime);
  }

  /** Rendered cues are blank exactly when there are none: the first block starts with a digit. */
  lemma RenderCuesBlankIffEmpty(cs: seq<Cue>, fmt: int -> string)
    ensures Trim(RenderCues(cs, fmt)) == "" <==> |cs| == 0
  {
    RenderCuesStartWithDigit(cs, fmt);
    if |cs| > 0 {
      TrimNonEmptyWhenFirstVisible(RenderCues(cs, fmt));
    }
  }

  /** The content is blank exactly when no segment is kept, so the handler's
      `srtContent.trim().length === 0` test holds exactly when no segment is kept. */
  lemma SrtBlankIffNoneKept(segs: seq<Segment>, translate: string -> string)
    ensures Trim(SrtContent(segs, translate)) == "" <==> |Kept(segs)| == 0
  {
    RenderCuesBlankIffEmpty(CueList(Kept(segs), translate), FormatTime);
  }

  /** What the cues say about the input: cue k carries number k + 1 and comes from the k-th
      non-blank segment, keeps its start, shows for at least 500 ms (exactly its own duration
      when that is 500 ms or more) and carries the translation of its text. */
  lemma CuesFollowInput(segs: seq<Segment>, translate: string -> string)
    ensures var cs, p := CueList(Kept(segs), translate), KeptPositions(segs, |segs|);
      && |cs| == |p|
      && (forall i :: 0 <= i < |segs| ==> (i in p <==> !Skipped(segs[i])))
      && (forall j, l :: 0 <= j < l < |p| ==> p[j] < p[l])
      && forall k :: 0 <= k < |cs| ==>
           && p[k] < |segs|
           && cs[k].index == k + 1
           && cs[k].startMs == segs[p[k]].startMs
           && cs[k].text == translate(segs[p[k]].text)
           && cs[k].endMs - cs[k].startMs >= MinDurationMs
           && (segs[p[k]].endMs - segs[p[k]].startMs >= MinDurationMs ==> cs[k].endMs == segs[p[k]].endMs)
           && (segs[p[k]].endMs - segs[p[k]].startMs < MinDurationMs ==> cs[k].endMs == cs[k].startMs + MinDurationMs)
  {
    KeptSelection(segs, |segs|);
    var cs, kept, p := CueList(Kept(segs), translate), Kept(segs), KeptPositions(segs, |segs|);
    forall k | 0 <= k < |cs| ensures cs[k] == MakeCue(k + 1, segs[p[k]], translate) {
      assert kept[k] == segs[p[k]];
    }
  }

  /** A blank segment anywhere in the input changes nothing: it takes no number, adds no block and
      causes no translation request. */
  lemma BlankSegmentInvisible(a: seq<Segment>, x: Segment, b: seq<Segment>, translate: string -> string)
    requires IsBlank(x.text)
    ensures Kept(a + [x] + b) == Kept(a + b)
    ensures SrtContent(a + [x] + b, translate) == SrtContent(a + b, translate)
    ensures Texts(Kept(a + [x] + b)) == Texts(Kept(a + b))
  {
    KeptAppend(a + [x], b);
    KeptAppend(a, [x]);
    KeptAppend(a, b);
    assert Kept([x]) == [] by {
      assert [x][0] == x;
      assert KeptUpTo([x], 1) == KeptUpTo([x], 0);
    }
  }

  /** One more kept segment adds one cue, numbered after the others. */
  lemma CueListSnoc(kept: seq<Segment>, seg: Segment, translate: string -> string)
    ensures CueList(kept + [seg], translate) == CueList(kept, translate) + [MakeCue(|kept| + 1, seg, translate)]
  {
    var l, r := CueList(kept + [seg], translate), CueList(kept, translate) + [MakeCue(|kept| + 1, seg, translate)];
    forall k | 0 <= k < |l| ensures l[k] == r[k] {
      if k < |kept| {
        assert (kept + [seg])[k] == kept[k];
      }
    }
  }

  /** One more kept segment adds one translation request. */
  lemma TextsSnoc(kept: seq<Segment>, seg: Segment)
    ensures Texts(kept + [seg]) == Texts(kept) + [seg.text]
  {
    assert forall k | 0 <= k < |kept| :: (kept + [seg])[k] == kept[k];
  }

  /** One more kept segment adds one block, numbered after the others, and one translation
      request. */
  lemma CueStep(kept: seq<Segment>, seg: Segment, translate: string -> string, fmt: int -> string)
    ensures RenderCues(CueList(kept + [seg], translate), fmt)
         == RenderCues(CueList(kept, translate), fmt) + Block(MakeCue(|kept| + 1, seg, translate), fmt)
    ensures Texts(kept + [seg]) == Texts(kept) + [seg.text]
  {
    CueListSnoc(kept, seg, translate);
    RenderCuesSnoc(CueList(kept, translate), MakeCue(|kept| + 1, seg, translate), fmt);
    TextsSnoc(kept, seg);
  }

  /** The handler's loop, with the time formatter as a parameter: blank segments are skipped;
      every other one is translated, stretched to the minimum duration, rendered under the next
      number and appended. `calls` records, in order, the texts passed to `translate`. */
  method SerialiseWith(segs: seq<Segment>, translate: string -> string, fmt: int -> string)
    returns (srt: string, calls: seq<string>)
    ensures srt == RenderCues(CueList(Kept(segs), translate), fmt)
    ensures calls == Texts(Kept(segs))
  {
    var subtitleIndex := 1;
    srt := "";
    calls := [];
    ghost var kept: seq<Segment> := [];
    var i := 0;
    while i < |segs|
      invariant 0 <= i <= |segs|
      invariant kept == KeptUpTo(segs, i)
      invariant subtitleIndex == |kept| + 1
      invariant srt == RenderCues(CueList(kept, translate), fmt)
      invariant calls == Texts(kept)
    {
      var seg := segs[i];
      if !Skipped(seg) {
        var sentence := translate(seg.text);
        calls := calls + [seg.text];
        var duration := seg.endMs - seg.startMs;
        var endTime := seg.startMs + (if duration > MinDurationMs then duration else MinDurationMs);
        var cue := Cue(subtitleIndex, seg.startMs, endTime, sentence);
        assert cue == MakeCue(|kept| + 1, seg, translate);
        CueStep(kept, seg, translate, fmt);
        srt := srt + Block(cue, fmt);
        subtitleIndex := subtitleIndex + 1;
        kept := kept + [seg];
      }
      i := i + 1;
    }
  }

  /** The handler's loop with its own `formatTime`: it writes the SubRip content of the input,
      asks for exactly the translations of the kept texts, in order, and writes nothing exactly
      when it asks for nothing. */
  method BuildSrt(segs: seq<Segment>, translate: string -> string) returns (srt: string, calls: seq<string>)
    ensures srt == SrtContent(segs, translate)
    ensures calls == Texts(Kept(segs))
    ensures srt == "" <==> |calls| == 0
  {
    srt, calls := SerialiseWith(segs, translate, FormatTime);
    SrtEmptyIffNoneKept(segs, translate);
  }

  /** The four parts of a block as text: number, start, end and cue text. */
  datatype CueParts = CueParts(number: string, start: string, end: string, text: string)

  /** Cuts `s` at the first occurrence of `c`, dropping it. */
  function SplitAt(s: string, c: char): Option<(string, string)> {
    match IndexOf(s, c)
    case None => None
    case Some(i) => Some((s[..i], s[i + 1..]))
  }

  /** Cutting at a separator the head does not hold gives back the head and the rest. */
  lemma SplitAtFirst(a: string, c: char, b: string)
    requires c !in a
    ensures SplitAt(a + ([c] + b), c) == Some((a, b))
  {
    IndexOfBeforeRest(a, c, b);
    assert (a + ([c] + b))[..|a|] == a;
    assert (a + ([c] + b))[|a| + 1..] == b;
  }

  /** Cuts a time line `start --> end` at its first space, which must open the arrow. */
  function SplitArrow(line: string): Option<(string, string)> {
    var halves :- SplitAt(line, ' ');
    if |halves.1| < 4 || halves.1[..4] != "--> " then None
    else Some((halves.0, halves.1[4..]))
  }

  lemma SplitArrowLayout(t1: string, t2: string)
    requires ' ' !in t1
    ensures SplitArrow(t1 + (" --> " + t2)) == Some((t1, t2))
  {
    assert " --> " + t2 == [' '] + ("--> " + t2);
    SplitAtFirst(t1, ' ', "--> " + t2);
    assert ("--> " + t2)[..4] == "--> ";
    assert ("--> " + t2)[4..] == t2;
  }

  /** Removes the blank line closing a block. */
  function StripBlankLine(body: string): Option<string> {
    if |body| < 2 || body[|body| - 2..] != "\n\n" then None else Some(body[..|body| - 2])
  }

  lemma StripBlankLineLayout(text: string)
    ensures StripBlankLine(text + "\n\n") == Some(text)
  {
    assert (text + "\n\n")[..|text|] == text;
  }

  /** Cuts one block at its first two line breaks, at the arrow of the time line and before the
      closing blank line. */
  function SplitCue(s: string): Option<CueParts> {
    var first :- SplitAt(s, '\n');
    var second :- SplitAt(first.1, '\n');
    var times :- SplitArrow(second.0);
    var text :- StripBlankLine(second.1);
    Some(CueParts(first.0, times.0, times.1, text))
  }

  /** Reads one block back: the number line, the `start --> end` line, then the text up to the
      closing blank line. */
  function ParseCue(s: string): Option<Cue> {
    var parts :- SplitCue(s);
    if |parts.number| == 0 || !IsDigits(parts.number) then None
    else
      var start :- ParseTimestamp(parts.start);
      var end :- ParseTimestamp(parts.end);
      Some(Cue(DecimalValue(parts.number), start, end, parts.text))
  }

  /** The time line of a block ends at the line break after the end time. */
  lemma TimeLine(t1: string, t2: string, body: string)
    requires '\n' !in t1 && '\n' !in t2
    ensures '\n' !in t1 + (" --> " + t2)
    ensures t1 + (" --> " + (t2 + ("\n" + body))) == (t1 + (" --> " + t2)) + ("\n" + body)
  {
    AppendAssoc(t1, " --> " + t2, "\n" + body);
    var arrow := " --> " + t2;
    forall k | 0 <= k < |arrow|
      ensures arrow[k] != '\n'
    {
      if k >= 5 {
        assert arrow[k] == t2[k - 5];
      }
    }
  }

  /** Cutting a laid-out block gives back its parts when the number has no line break and the
      start time has no space or line break and the end time no line break. */
  lemma SplitCueLayout(d: string, t1: string, t2: string, text: string)
    requires '\n' !in d && ' ' !in t1 && '\n' !in t1 && '\n' !in t2
    ensures SplitCue(CueLayout(d, t1, t2, text)) == Some(CueParts(d, t1, t2, text))
  {
    var body := text + "\n\n";
    var line := t1 + (" --> " + t2);
    var rest := t1 + (" --> " + (t2 + ("\n" + body)));
    SplitAtFirst(d, '\n', rest);
    TimeLine(t1, t2, body);
    SplitAtFirst(line, '\n', body);
    SplitArrowLayout(t1, t2);
    StripBlankLineLayout(text);
  }

  /** Every block the serialiser writes for non-negative times reads back as the cue it was
      written from, whatever the text holds. */
  lemma ParseRenderCue(c: Cue)
    requires c.startMs >= 0 && c.endMs >= 0
    ensures ParseCue(RenderCue(c)) == Some(c)
  {
    var d := NatToDecimal(c.index);
    assert '\n' !in d by {
      forall k | 0 <= k < |d| ensures d[k] != '\n' { assert IsDigit(d[k]); }
    }
    FormatTimeHasNoSeparators(c.startMs);
    FormatTimeHasNoSeparators(c.endMs);
    SplitCueLayout(d, FormatTime(c.startMs), FormatTime(c.endMs), c.text);
    ParseFormatTime(c.startMs);
    ParseFormatTime(c.endMs);
    DecimalRoundTrip(c.index);
  }

  /** Three segments with a blank one in the middle give two cues, numbered 1 and 2. */
  lemma SkipsBlankExample(translate: string -> string)
    ensures CueList(Kept([Segment(0, 1000, "A"), Segment(1000, 2000, ""), Segment(2000, 3000, "B")]), translate)
      == [Cue(1, 0, 1000, translate("A")), Cue(2, 2000, 3000, translate("B"))]
  {
    ExampleKept(Segment(0, 1000, "A"), Segment(1000, 2000, ""), Segment(2000, 3000, "B"));
  }

  /** A cue shorter than half a second is stretched to it. */
  lemma StretchExample(translate: string -> string)
    ensures CueList(Kept([Segment(1000, 1200, "Hi")]), translate) == [Cue(1, 1000, 1500, translate("Hi"))]
  {
    var x := Segment(1000, 1200, "Hi");
    assert !IsBlank(x.text) by {
      assert x.text[0] == 'H';
    }
  }

  /** The block of the first cue of that example. */
  lemma RenderCueExample(t: string)
    ensures RenderCue(Cue(1, 0, 1000, t)) == "1\n00:00:00,000 --> 00:00:01,000\n" + t + "\n\n"
  {
    assert RenderCue(Cue(1, 0, 1000, t)) == CueLayout("1", "00:00:00,000", "00:00:01,000", t) by {
      FormatTimeZero();
      FormatTimeOneSecond();
      assert NatToDecimal(1) == "1";
    }
    CueLayoutExample(t);
  }

  lemma CueLayoutExample(t: string)
    ensures CueLayout("1", "00:00:00,000", "00:00:01,000", t) == "1\n00:00:00,000 --> 00:00:01,000\n" + t + "\n\n"
  {
    var head := "1\n00:00:00,000 --> 00:00:01,000\n";
    assert "1" + ("\n" + ("00:00:00,000" + (" --> " + ("00:00:01,000" + "\n")))) == head;
    CueLayoutHead("1", "00:00:00,000", "00:00:01,000", t);
  }

  /** A block is its header lines followed by the text and the blank line. */
  lemma CueLayoutHead(number: string, start: string, end: string, text: string)
    ensures CueLayout(number, start, end, text)
      == (number + ("\n" + (start + (" --> " + (end + "\n"))))) + text + "\n\n"
  {
  }

  lemma ExampleKept(x: Segment, y: Segment, z: Segment)
    requires x == Segment(0, 1000, "A") && y == Segment(1000, 2000, "") && z == Segment(2000, 3000, "B")
    ensures Kept([x, y, z]) == [x, z]
  {
    assert !IsBlank(x.text) by {
      assert x.text[0] == 'A';
    }
    assert !IsBlank(z.text) by {
      assert z.text[0] == 'B';
    }
    var segs := [x, y, z];
    assert KeptUpTo(segs, 1) == [x];
    assert KeptUpTo(segs, 2) == [x];
    assert KeptUpTo(segs, 3) == [x, z];
  }
}
