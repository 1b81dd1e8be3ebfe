/** Timed transcript units as both handlers obtain them from the speech-recognition service. */
module Segments {
  import opened JsStrings

  /** A segment as the service returns it, its times already converted to whole milliseconds. */
  datatype WhisperSegment = WhisperSegment(startMs: int, endMs: int, text: string)

  /** A segment after the handlers' mapping step. */
  datatype Segment = Segment(startMs: int, endMs: int, text: string)

  /** The mapping both transcription helpers apply: times kept, text trimmed. */
  function FromWhisper(w: WhisperSegment): Segment {
    Segment(w.startMs, w.endMs, Trim(w.text))
  }

  function Transcribed(raw: seq<WhisperSegment>): (segs: seq<Segment>)
    ensures |segs| == |raw|
  {
    seq(|raw|, i requires 0 <= i < |raw| => FromWhisper(raw[i]))
  }

  /** After the mapping every text is already trimmed, it is empty exactly when the service
      returned a blank text, and the timing is untouched. */
  lemma TranscribedTexts(raw: seq<WhisperSegment>, i: int)
    requires 0 <= i < |raw|
    ensures var s := Transcribed(raw)[i];
      && s.startMs == raw[i].startMs && s.endMs == raw[i].endMs
      && Trim(s.text) == s.text
      && (s.text == "" <==> IsBlank(raw[i].text))
  {
    TrimIdempotent(raw[i].text);
    TrimEmptyIffBlank(raw[i].text);
  }
}
