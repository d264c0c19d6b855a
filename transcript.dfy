/** The transcript representation every processor consumes: time-stamped
    text spans as produced by the speech-to-text engine. Times are whole
    milliseconds. */
module Transcript {

  datatype Segment = Segment(start: int, end: int, text: string)

  /** The texts of a run of segments, in order. */
  function Texts(segs: seq<Segment>): (r: seq<string>)
    ensures |r| == |segs| && forall k :: 0 <= k < |segs| ==> r[k] == segs[k].text
  {
    seq(|segs|, k requires 0 <= k < |segs| => segs[k].text)
  }

  /** The transcript is ordered by start time, as the engine emits it. */
  predicate SortedByStart(segs: seq<Segment>)
  {
    forall k, l :: 0 <= k < l < |segs| ==> segs[k].start <= segs[l].start
  }
}
