/** The podcast handler's transcript: every segment whose (already trimmed) text is non-empty
    contributes that text followed by one space, in input order. */
module Transcript {
  import opened JsStrings
  import opened Segments
  import Srt

  /** What one segment adds: nothing when its text is the empty (falsy) string. */
  function Piece(seg: Segment): string {
    if seg.text != "" then seg.text + " " else ""
  }

  /** The transcript after the loop has seen the first `n` segments. */
  function TranscriptUpTo(segs: seq<Segment>, n: nat): string
    requires n <= |segs|
  {
    if n == 0 then "" else TranscriptUpTo(segs, n - 1) + Piece(segs[n - 1])
  }

  /** The transcript of all segments. */
  function Transcript(segs: seq<Segment>): string {
    TranscriptUpTo(segs, |segs|)
  }

  /** Independent reading: each text of `ts`, followed by one space. */
  function Terminated(ts: seq<string>): string
    decreases |ts|
  {
    if |ts| == 0 then "" else ts[0] + " " + Terminated(ts[1..])
  }

  lemma {:induction false} TerminatedSnoc(ts: seq<string>, t: string)
    ensures Terminated(ts + [t]) == Terminated(ts) + (t + " ")
    decreases |ts|
  {
    if |ts| == 0 {
      assert ts + [t] == [t];
      assert Terminated([t]) == t + " " + Terminated([]);
    } else {
      assert (ts + [t])[1..] == ts[1..] + [t];
      TerminatedSnoc(ts[1..], t);
    }
  }

  lemma {:induction false} TranscriptUpToPrefix(a: seq<Segment>, b: seq<Segment>, n: nat)
    requires n <= |a|
    ensures TranscriptUpTo(a + b, n) == TranscriptUpTo(a, n)
  {
    if n > 0 {
      var ab := a + b;
      assert TranscriptUpTo(ab, n - 1) == TranscriptUpTo(a, n - 1) by {
        TranscriptUpToPrefix(a, b, n - 1);
      }
      assert ab[n - 1] == a[n - 1];
    }
  }

  lemma {:induction false} TranscriptUpToSuffix(a: seq<Segment>, b: seq<Segment>, n: nat)
    requires n <= |b|
    ensures TranscriptUpTo(a + b, |a| + n) == Transcript(a) + TranscriptUpTo(b, n)
  {
    if n == 0 {
      TranscriptUpToPrefix(a, b, |a|);
    } else {
      var ab, last := a + b, Piece(b[n - 1]);
      var before, rest := TranscriptUpTo(ab, |a| + n - 1), TranscriptUpTo(b, n - 1);
      assert before == Transcript(a) + rest by {
        TranscriptUpToSuffix(a, b, n - 1);
      }
      assert TranscriptUpTo(ab, |a| + n) == before + last by {
        assert ab[|a| + n - 1] == b[n - 1];
      }
      assert TranscriptUpTo(b, n) == rest + last;
      AppendAssoc(Transcript(a), rest, last);
    }
  }

  /** The transcript of a concatenation is the concatenation of the transcripts. */
  lemma TranscriptAppend(a: seq<Segment>, b: seq<Segment>)
    ensures Transcript(a + b) == Transcript(a) + Transcript(b)
  {
    TranscriptUpToSuffix(a, b, |b|);
  }

  /** After `n` segments the transcript is empty exactly when none of them has a non-empty text,
      and otherwise it ends with the separating space. */
  lemma {:induction false} TranscriptUpToEmptyIff(segs: seq<Segment>, n: nat)
    requires n <= |segs|
    ensures TranscriptUpTo(segs, n) == "" <==> forall i :: 0 <= i < n ==> segs[i].text == ""
    ensures TranscriptUpTo(segs, n) != "" ==> TranscriptUpTo(segs, n)[|TranscriptUpTo(segs, n)| - 1] == ' '
  {
    if n > 0 {
      TranscriptUpToEmptyIff(segs, n - 1);
    }
  }

  /** The transcript is empty exactly when no segment has a non-empty text, and otherwise it
      ends with the separating space. */
  lemma TranscriptEmptyIff(segs: seq<Segment>)
    ensures Transcript(segs) == "" <==> forall i :: 0 <= i < |segs| ==> segs[i].text == ""
    ensures Transcript(segs) != "" ==> Transcript(segs)[|Transcript(segs)| - 1] == ' '
  {
    TranscriptUpToEmptyIff(segs, |segs|);
  }

  /** A text that equals its own trim is blank exactly when it is empty. */
  lemma TrimmedBlankIffEmpty(s: string)
    requires Trim(s) == s
    ensures IsBlank(s) <==> s == ""
  {
    TrimEmptyIffBlank(s);
  }

  /** Over segments whose text is blank only when empty, the transcript and the subtitle
      serialiser keep the same segments. */
  lemma {:induction false} TranscriptOfTrimmed(segs: seq<Segment>, n: nat)
    requires n <= |segs|
    requires forall i :: 0 <= i < |segs| ==> (IsBlank(segs[i].text) <==> segs[i].text == "")
    ensures TranscriptUpTo(segs, n) == Terminated(Srt.Texts(Srt.KeptUpTo(segs, n)))
  {
    if n > 0 {
      var seg := segs[n - 1];
      var kept := Srt.KeptUpTo(segs, n - 1);
      var added := if Srt.Skipped(seg) then [] else [seg];
      assert TranscriptUpTo(segs, n - 1) == Terminated(Srt.Texts(kept)) by {
        TranscriptOfTrimmed(segs, n - 1);
      }
      assert Terminated(Srt.Texts(kept)) + Piece(seg) == Terminated(Srt.Texts(kept + added)) by {
        TranscriptStep(kept, seg);
      }
      assert Srt.KeptUpTo(segs, n) == kept + added;
    }
  }

  lemma TranscriptStep(kept: seq<Segment>, seg: Segment)
    requires IsBlank(seg.text) <==> seg.text == ""
    ensures Terminated(Srt.Texts(kept)) + Piece(seg)
      == Terminated(Srt.Texts(kept + if Srt.Skipped(seg) then [] else [seg]))
  {
    if !Srt.Skipped(seg) {
      Srt.TextsSnoc(kept, seg);
      TerminatedSnoc(Srt.Texts(kept), seg.text);
    } else {
      assert kept + [] == kept;
    }
  }

  /** Over the service's trimmed segments, the transcript is made of exactly the texts the
      subtitle serialiser keeps, in the same order. */
  lemma TranscriptMatchesSubtitles(raw: seq<WhisperSegment>)
    ensures var segs := Transcribed(raw);
      Transcript(segs) == Terminated(Srt.Texts(Srt.Kept(segs)))
  {
    var segs := Transcribed(raw);
    forall i | 0 <= i < |segs| ensures IsBlank(segs[i].text) <==> segs[i].text == "" {
      TranscribedTexts(raw, i);
      TrimmedBlankIffEmpty(segs[i].text);
    }
    TranscriptOfTrimmed(segs, |segs|);
  }

  lemma EmptyTextAddsNothing(ta: seq<Segment>, x: Segment, tb: seq<Segment>)
    requires x.text == ""
    ensures Transcript(ta + [x] + tb) == Transcript(ta + tb)
  {
    assert TranscriptUpTo([x], 0) == "";
    assert Transcript([x]) == "";
    TranscriptAppend(ta, [x]);
    TranscriptAppend(ta + [x], tb);
    TranscriptAppend(ta, tb);
  }

  lemma TranscribedAppend(a: seq<WhisperSegment>, b: seq<WhisperSegment>)
    ensures Transcribed(a + b) == Transcribed(a) + Transcribed(b)
  {
    var l, r := Transcribed(a + b), Transcribed(a) + Transcribed(b);
    forall i | 0 <= i < |l| ensures l[i] == r[i] {
      if i < |a| { assert (a + b)[i] == a[i]; } else { assert (a + b)[i] == b[i - |a|]; }
    }
  }

  /** A segment the service returned with a whitespace-only text leaves the transcript as if it
      had not been there. */
  lemma BlankSegmentAddsNothing(a: seq<WhisperSegment>, w: WhisperSegment, b: seq<WhisperSegment>)
    requires IsBlank(w.text)
    ensures Transcript(Transcribed(a + [w] + b)) == Transcript(Transcribed(a + b))
  {
    TranscribedAppend(a + [w], b);
    TranscribedAppend(a, [w]);
    TranscribedAppend(a, b);
    assert Transcribed([w]) == [FromWhisper(w)];
    TrimEmptyIffBlank(w.text);
    EmptyTextAddsNothing(Transcribed(a), FromWhisper(w), Transcribed(b));
  }

  /** The handler's loop: append `text + " "` for each segment with a truthy text. */
  method BuildTranscript(segs: seq<Segment>) returns (transcript: string)
    ensures transcript == Transcript(segs)
    ensures transcript == "" <==> forall i :: 0 <= i < |segs| ==> segs[i].text == ""
  {
    transcript := "";
    for i := 0 to |segs|
      invariant transcript == TranscriptUpTo(segs, i)
    {
      var segment := segs[i];
      if segment.text != "" {
        transcript := transcript + segment.text + " ";
      }
    }
    TranscriptEmptyIff(segs);
  }
}
