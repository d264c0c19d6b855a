/** Clip candidate detection (workers/app/processors/clips.py): a greedy
    left-to-right sweep that grows a window of consecutive transcript
    segments until its span reaches the minimum clip length, never absorbing
    a segment that would push the span past the maximum. */
module Clips {
  import opened Transcript
  import opened Strings

  /** The defaults of detect_clips: 20 s, 45 s and 5 clips. */
  const DefaultMinDuration: int := 20000
  const DefaultMaxDuration: int := 45000
  const DefaultMaxClips: int := 5

  /** An emitted clip candidate; `duration` is `end - start`. */
  datatype Clip = Clip(start: int, end: int, duration: int, text: string)

  /** Where the growth of the window that starts at some segment `i` stopped:
      `last` is the last segment absorbed into the window (`i` itself when
      none was), and `next` is the segment the sweep resumes at. */
  datatype Stop = Stop(next: nat, last: nat)

  /** The emitted window `segs[first..last + 1]`. */
  datatype Span = Span(first: nat, last: nat)

  /** The inner loop of the sweep: the window starts at `i` and has absorbed
      every segment before `j`. It stops without absorbing `j` when the input
      is exhausted or when `j` would stretch the span past `maxD`, and it
      stops right after absorbing `j` once the span reaches `minD`. Only
      absorbed segments are measured against `maxD`: segment `i` never is. */
  function Grow(segs: seq<Segment>, i: nat, j: nat, minD: int, maxD: int): (w: Stop)
    requires i < j <= |segs|
    ensures j - 1 <= w.last < |segs|
    ensures j <= w.next <= |segs|
    ensures w.next == w.last || w.next == w.last + 1
    decreases |segs| - j
  {
    if j == |segs| then Stop(j, j - 1)
    else if segs[j].end - segs[i].start > maxD then Stop(j, j - 1)
    else if segs[j].end - segs[i].start >= minD then Stop(j, j)
    else Grow(segs, i, j + 1, minD, maxD)
  }

  /** The window that starts at segment `i`. */
  function Window(segs: seq<Segment>, i: nat, minD: int, maxD: int): (w: Stop)
    requires i < |segs|
    ensures i <= w.last < |segs| && i < w.next <= |segs|
    ensures w.next == w.last || w.next == w.last + 1
  {
    Grow(segs, i, i + 1, minD, maxD)
  }

  /** A declarative description of the window starting at `i`, independent of
      the loop that computes it:
      - every absorbed segment keeps the span within `maxD`;
      - every absorbed segment before the stop leaves the span below `minD`;
      - a window that stops on its last absorbed segment (`next == last`)
        stopped because the span reached `minD`, so the next window restarts
        on that same segment;
      - otherwise (`next == last + 1`) the input ran out or segment `next`
        would have exceeded `maxD`, and that rejected segment starts the next
        window. */
  ghost predicate IsWindow(segs: seq<Segment>, i: nat, w: Stop, minD: int, maxD: int)
  {
    && i < w.next <= |segs| && i <= w.last < |segs|
    && (w.next == w.last || w.next == w.last + 1)
    && (forall k :: i < k <= w.last ==> segs[k].end - segs[i].start <= maxD)
    && (forall k :: i < k < w.next ==> segs[k].end - segs[i].start < minD)
    && (w.next == w.last ==> segs[w.last].end - segs[i].start >= minD)
    && (w.next == w.last + 1 && w.next < |segs| ==> segs[w.next].end - segs[i].start > maxD)
  }

  lemma {:induction false} GrowIsWindow(segs: seq<Segment>, i: nat, j: nat, minD: int, maxD: int)
    requires i < j <= |segs|
    requires forall k :: i < k < j ==> segs[k].end - segs[i].start <= maxD
    requires forall k :: i < k < j ==> segs[k].end - segs[i].start < minD
    ensures IsWindow(segs, i, Grow(segs, i, j, minD, maxD), minD, maxD)
    decreases |segs| - j
  {
    if j < |segs| && segs[j].end - segs[i].start <= maxD && segs[j].end - segs[i].start < minD {
      GrowIsWindow(segs, i, j + 1, minD, maxD);
    }
  }

  /** The window the sweep computes meets the declarative description. */
  lemma WindowIsWindow(segs: seq<Segment>, i: nat, minD: int, maxD: int)
    requires i < |segs|
    ensures IsWindow(segs, i, Window(segs, i, minD, maxD), minD, maxD)
  {
    GrowIsWindow(segs, i, i + 1, minD, maxD);
  }

  /** ... and the description leaves no choice: it is the only such window. */
  lemma WindowUnique(segs: seq<Segment>, i: nat, w1: Stop, w2: Stop, minD: int, maxD: int)
    requires IsWindow(segs, i, w1, minD, maxD) && IsWindow(segs, i, w2, minD, maxD)
    ensures w1 == w2
  {
  }

  ghost predicate SpansIn(segs: seq<Segment>, spans: seq<Span>)
  {
    forall k :: 0 <= k < |spans| ==> spans[k].first <= spans[k].last < |segs|
  }

  /** The windows the sweep emits, starting at segment `i` with room for
      `room` more clips. A window is emitted exactly when its span reaches
      `minD`; either way the sweep resumes at the window's `next`. Emitted
      windows start strictly later one after another, but a window may start
      on the last segment of the one before it. */
  function EmittedSpans(segs: seq<Segment>, i: nat, minD: int, maxD: int, room: int): (r: seq<Span>)
    requires i <= |segs|
    ensures room <= 0 || i == |segs| ==> r == []
    ensures |r| <= if room < 0 then 0 else room
    decreases |segs| - i
  {
    if i == |segs| || room <= 0 then []
    else
      var w := Window(segs, i, minD, maxD);
      if segs[w.last].end - segs[i].start >= minD then
        [Span(i, w.last)] + EmittedSpans(segs, w.next, minD, maxD, room - 1)
      else
        EmittedSpans(segs, w.next, minD, maxD, room)
  }

  ghost predicate EmittedWindows(segs: seq<Segment>, i: nat, r: seq<Span>, minD: int, maxD: int)
  {
    && SpansIn(segs, r)
    && forall k :: 0 <= k < |r| ==>
      && i <= r[k].first <= r[k].last < |segs|
      && Window(segs, r[k].first, minD, maxD).last == r[k].last
      && segs[r[k].last].end - segs[r[k].first].start >= minD
  }

  /** Every emitted window lies at or after `i`, is the window the sweep
      grew from its first segment, and spans at least `minD`. */
  lemma {:induction false} EmittedSpansAreWindows(segs: seq<Segment>, i: nat, minD: int, maxD: int, room: int)
    requires i <= |segs|
    ensures EmittedWindows(segs, i, EmittedSpans(segs, i, minD, maxD, room), minD, maxD)
    decreases |segs| - i
  {
    if i < |segs| && room > 0 {
      var w := Window(segs, i, minD, maxD);
      if segs[w.last].end - segs[i].start >= minD {
        EmittedSpansAreWindows(segs, w.next, minD, maxD, room - 1);
      } else {
        EmittedSpansAreWindows(segs, w.next, minD, maxD, room);
      }
    }
  }

  /** The clip of an emitted window: it starts where its first segment starts,
      ends where its last segment ends, and its text is the stripped,
      space-joined texts of the window's segments, in order. */
  function ClipOf(segs: seq<Segment>, first: nat, last: nat): Clip
    requires first <= last < |segs|
  {
    var start := segs[first].start;
    var end := segs[last].end;
    Clip(start, end, end - start, Strip(Join(Texts(segs[first..last + 1]), " ")))
  }

  function ClipsOf(segs: seq<Segment>, spans: seq<Span>): (r: seq<Clip>)
    requires SpansIn(segs, spans)
    ensures |r| == |spans|
  {
    seq(|spans|, k requires 0 <= k < |spans| => ClipOf(segs, spans[k].first, spans[k].last))
  }

  /** What detect_clips returns. */
  function DetectClipsSpec(segs: seq<Segment>, minD: int, maxD: int, maxClips: int): (r: seq<Clip>)
    ensures |r| == |EmittedSpans(segs, 0, minD, maxD, maxClips)|
    ensures segs == [] || maxClips <= 0 ==> r == []
    ensures 0 <= maxClips ==> |r| <= maxClips
    ensures forall k :: 0 <= k < |r| ==> r[k].duration == r[k].end - r[k].start >= minD
  {
    EmittedSpansAreWindows(segs, 0, minD, maxD, maxClips);
    ClipsOf(segs, EmittedSpans(segs, 0, minD, maxD, maxClips))
  }

  lemma ClipsOfSnoc(segs: seq<Segment>, spans: seq<Span>, sp: Span)
    requires SpansIn(segs, spans) && sp.first <= sp.last < |segs|
    ensures SpansIn(segs, spans + [sp])
    ensures ClipsOf(segs, spans + [sp]) == ClipsOf(segs, spans) + [ClipOf(segs, sp.first, sp.last)]
  {
    assert SpansIn(segs, spans + [sp]) by {
      forall k | 0 <= k < |spans| + 1
        ensures (spans + [sp])[k].first <= (spans + [sp])[k].last < |segs|
      {
        if k < |spans| { assert (spans + [sp])[k] == spans[k]; }
      }
    }
    var a := ClipsOf(segs, spans + [sp]);
    var b := ClipsOf(segs, spans) + [ClipOf(segs, sp.first, sp.last)];
    forall k | 0 <= k < |a| ensures a[k] == b[k] {
      if k < |spans| { assert (spans + [sp])[k] == spans[k]; }
    }
  }

  /** One more segment of the window adds one more space-separated text. */
  lemma JoinedTextsSnoc(segs: seq<Segment>, i: nat, j: nat)
    requires i < j < |segs|
    ensures Join(Texts(segs[i..j + 1]), " ") == Join(Texts(segs[i..j]), " ") + " " + segs[j].text
  {
    var t := Texts(segs[i..j + 1]);
    assert t[..|t| - 1] == Texts(segs[i..j]);
  }

  ghost predicate InSweepOrder(r: seq<Span>)
  {
    forall k, l :: 0 <= k < l < |r| ==> r[k].first < r[l].first && r[k].last <= r[l].first
  }

  /** Emitted windows start strictly later one after another, and each one
      starts no earlier than the last segment of the one before it: the
      windows are contiguous runs taken in input order, but consecutive ones
      may share that one segment. */
  lemma {:induction false} EmittedSpansOrdered(segs: seq<Segment>, i: nat, minD: int, maxD: int, room: int)
    requires i <= |segs|
    ensures InSweepOrder(EmittedSpans(segs, i, minD, maxD, room))
    decreases |segs| - i
  {
    if i < |segs| && room > 0 {
      var w := Window(segs, i, minD, maxD);
      var emit := segs[w.last].end - segs[i].start >= minD;
      var room' := if emit then room - 1 else room;
      var rest := EmittedSpans(segs, w.next, minD, maxD, room');
      EmittedSpansOrdered(segs, w.next, minD, maxD, room');
      EmittedSpansAreWindows(segs, w.next, minD, maxD, room');
      if emit {
        assert EmittedSpans(segs, i, minD, maxD, room) == [Span(i, w.last)] + rest;
        OrderedCons(Span(i, w.last), rest, w.next);
      }
    }
  }

  /** A window put in front of windows in sweep order that all start at or
      after `next` keeps the order, when it starts before `next` and ends no
      later. */
  lemma OrderedCons(sp: Span, rest: seq<Span>, next: nat)
    requires InSweepOrder(rest)
    requires sp.first < next && sp.last <= next
    requires forall k :: 0 <= k < |rest| ==> next <= rest[k].first
    ensures InSweepOrder([sp] + rest)
  {
    var r := [sp] + rest;
    forall k, l | 0 <= k < l < |r|
      ensures r[k].first < r[l].first && r[k].last <= r[l].first
    {
      assert r[l] == rest[l - 1];
      if k > 0 {
        assert r[k] == rest[k - 1];
      }
    }
  }

  /** The span-to-clip correspondence: the k-th clip is the clip of the k-th
      emitted window. */
  lemma ClipAt(segs: seq<Segment>, minD: int, maxD: int, maxClips: int, k: nat)
    requires k < |DetectClipsSpec(segs, minD, maxD, maxClips)|
    ensures var r := EmittedSpans(segs, 0, minD, maxD, maxClips);
      && k < |r| && r[k].first <= r[k].last < |segs|
      && Window(segs, r[k].first, minD, maxD).last == r[k].last
      && DetectClipsSpec(segs, minD, maxD, maxClips)[k] == ClipOf(segs, r[k].first, r[k].last)
  {
    EmittedSpansAreWindows(segs, 0, minD, maxD, maxClips);
  }

  /** The maximum is enforced only on absorbed segments: a clip is within
      `maxD` whenever its first segment alone is. */
  lemma ClipWithinMax(segs: seq<Segment>, minD: int, maxD: int, maxClips: int, k: nat)
    requires k < |DetectClipsSpec(segs, minD, maxD, maxClips)|
    ensures var sp := EmittedSpans(segs, 0, minD, maxD, maxClips)[k];
      && sp.first < |segs|
      && (segs[sp.first].end - segs[sp.first].start <= maxD ==>
          DetectClipsSpec(segs, minD, maxD, maxClips)[k].duration <= maxD)
  {
    ClipAt(segs, minD, maxD, maxClips, k);
    var sp := EmittedSpans(segs, 0, minD, maxD, maxClips)[k];
    WindowIsWindow(segs, sp.first, minD, maxD);
  }

  /** So when no single segment is longer than `maxD`, every clip lasts
      between `minD` and `maxD`. */
  lemma ClipsWithinBounds(segs: seq<Segment>, minD: int, maxD: int, maxClips: int)
    requires forall k :: 0 <= k < |segs| ==> segs[k].end - segs[k].start <= maxD
    ensures var r := DetectClipsSpec(segs, minD, maxD, maxClips);
      forall k :: 0 <= k < |r| ==> minD <= r[k].duration <= maxD
  {
    var r := DetectClipsSpec(segs, minD, maxD, maxClips);
    forall k | 0 <= k < |r| ensures r[k].duration <= maxD {
      ClipAt(segs, minD, maxD, maxClips, k);
      ClipWithinMax(segs, minD, maxD, maxClips, k);
    }
  }

  /** Clips come out in input order: on a transcript sorted by start time,
      clip start times never decrease. */
  lemma ClipStartsSorted(segs: seq<Segment>, minD: int, maxD: int, maxClips: int)
    requires SortedByStart(segs)
    ensures var r := DetectClipsSpec(segs, minD, maxD, maxClips);
      forall k, l :: 0 <= k < l < |r| ==> r[k].start <= r[l].start
  {
    var r := DetectClipsSpec(segs, minD, maxD, maxClips);
    var spans := EmittedSpans(segs, 0, minD, maxD, maxClips);
    EmittedSpansOrdered(segs, 0, minD, maxD, maxClips);
    forall k, l | 0 <= k < l < |r| ensures r[k].start <= r[l].start {
      ClipAt(segs, minD, maxD, maxClips, k);
      ClipAt(segs, minD, maxD, maxClips, l);
      assert spans[k].first < spans[l].first;
    }
  }

  /** A lone segment longer than the maximum, which alone reaches the
      minimum, is still emitted as a clip, over the maximum. With more
      segments after it, `OversizedSegmentAlone` gives the conditions. */
  lemma OversizedFirstSegmentKept()
    ensures DetectClipsSpec([Segment(0, 60000, " intro ")], DefaultMinDuration,
                            DefaultMaxDuration, DefaultMaxClips)
            == [Clip(0, 60000, 60000, "intro")]
  {
    var segs := [Segment(0, 60000, " intro ")];
    OversizedWindow(segs);
    assert Join(Texts(segs[0..1]), " ") == " intro " by {
      assert Texts(segs[0..1]) == [" intro "];
    }
    StripIntro();
  }

  /** The general case: a segment longer than the maximum that alone reaches
      the minimum is emitted on its own, as long as the segment after it does
      not end earlier. The next segment is then over the maximum too and is
      rejected, so the window is that segment alone. */
  lemma OversizedSegmentAlone(segs: seq<Segment>, i: nat, minD: int, maxD: int, room: int)
    requires i < |segs|
    requires segs[i].end - segs[i].start > maxD && segs[i].end - segs[i].start >= minD
    requires i + 1 == |segs| || segs[i + 1].end >= segs[i].end
    ensures Window(segs, i, minD, maxD) == Stop(i + 1, i)
    ensures room > 0 ==> EmittedSpans(segs, i, minD, maxD, room)[0] == Span(i, i)
    ensures ClipOf(segs, i, i)
            == Clip(segs[i].start, segs[i].end, segs[i].end - segs[i].start, Strip(segs[i].text))
  {
    SingleClip(segs, i);
  }

  /** The clip of a one-segment window is that segment with its text stripped. */
  lemma SingleClip(segs: seq<Segment>, i: nat)
    requires i < |segs|
    ensures ClipOf(segs, i, i)
            == Clip(segs[i].start, segs[i].end, segs[i].end - segs[i].start, Strip(segs[i].text))
  {
    assert Texts(segs[i..i + 1]) == [segs[i].text];
  }

  /** The window's end is the end of the last absorbed segment, not the
      furthest end seen. Here a segment nested inside an oversized first one
      ends less than the minimum after the window start: it is absorbed and
      pulls the end back, and since no later segment within the maximum
      brings the span back up to the minimum, the window is dropped. */
  lemma NestedSegmentDropsWindow()
    ensures DetectClipsSpec([Segment(0, 50000, "a"), Segment(1000, 5000, "b"),
                             Segment(40000, 50000, "c")],
                            DefaultMinDuration, DefaultMaxDuration, DefaultMaxClips) == []
  {
    var segs := [Segment(0, 50000, "a"), Segment(1000, 5000, "b"), Segment(40000, 50000, "c")];
    var minD, maxD := DefaultMinDuration, DefaultMaxDuration;
    assert Window(segs, 0, minD, maxD) == Stop(2, 1);
    assert Window(segs, 2, minD, maxD) == Stop(3, 2);
    assert EmittedSpans(segs, 2, minD, maxD, DefaultMaxClips) == [];
    assert EmittedSpans(segs, 0, minD, maxD, DefaultMaxClips) == [];
  }

  /** A window whose end was pulled back is not lost when a later segment
      within the maximum brings the span back up to the minimum. */
  lemma NestedSegmentRecovered(segs: seq<Segment>)
    requires segs == [Segment(0, 50000, "a"), Segment(1000, 5000, "b"), Segment(6000, 25000, "c")]
    ensures EmittedSpans(segs, 0, DefaultMinDuration, DefaultMaxDuration, DefaultMaxClips) == [Span(0, 2)]
  {
    var minD, maxD := DefaultMinDuration, DefaultMaxDuration;
    assert Grow(segs, 0, 2, minD, maxD) == Stop(2, 2);
    assert Window(segs, 0, minD, maxD) == Stop(2, 2);
    assert Window(segs, 2, minD, maxD) == Stop(3, 2);
    assert EmittedSpans(segs, 2, minD, maxD, DefaultMaxClips - 1) == [];
  }

  /** Only the first segment of a window escapes the maximum. On a
      transcript not sorted by start, an oversized segment is measured from
      an earlier window's start, may fit there, and is absorbed into that
      window instead of being emitted on its own. */
  lemma UnsortedOversizedAbsorbed(segs: seq<Segment>)
    requires segs == [Segment(50000, 51000, "x"), Segment(0, 60000, "big"), Segment(60000, 75000, "y")]
    ensures EmittedSpans(segs, 0, DefaultMinDuration, DefaultMaxDuration, DefaultMaxClips) == [Span(0, 2)]
  {
    var minD, maxD := DefaultMinDuration, DefaultMaxDuration;
    assert Grow(segs, 0, 2, minD, maxD) == Stop(2, 2);
    assert Window(segs, 0, minD, maxD) == Stop(2, 2);
    assert Window(segs, 2, minD, maxD) == Stop(3, 2);
    assert EmittedSpans(segs, 2, minD, maxD, DefaultMaxClips - 1) == [];
  }

  lemma OversizedWindow(segs: seq<Segment>)
    requires segs == [Segment(0, 60000, " intro ")]
    ensures EmittedSpans(segs, 0, DefaultMinDuration, DefaultMaxDuration, DefaultMaxClips) == [Span(0, 0)]
  {
    assert Window(segs, 0, DefaultMinDuration, DefaultMaxDuration) == Stop(1, 0);
  }

  lemma StripIntro()
    ensures Strip(" intro ") == "intro"
  {
    assert Trims(" intro ", "intro", 1);
    TrimIsStrip(" intro ", "intro", 1);
  }

  /** A window that stops on reaching the minimum hands its last segment to
      the next window: with three 10 s segments, "b" is in both clips. */
  lemma ConsecutiveClipsShareSegment()
    ensures DetectClipsSpec([Segment(0, 10000, "a"), Segment(10000, 20000, "b"),
                             Segment(20000, 30000, "c")],
                            DefaultMinDuration, DefaultMaxDuration, DefaultMaxClips)
            == [Clip(0, 20000, 20000, "a b"), Clip(10000, 30000, 20000, "b c")]
  {
    var segs := [Segment(0, 10000, "a"), Segment(10000, 20000, "b"), Segment(20000, 30000, "c")];
    SharedWindows(segs);
    SharedClips(segs);
    ClipsOfPair(segs, Span(0, 1), Span(1, 2));
  }

  lemma ClipsOfPair(segs: seq<Segment>, a: Span, b: Span)
    requires a.first <= a.last < |segs| && b.first <= b.last < |segs|
    ensures SpansIn(segs, [a, b]) && ClipsOf(segs, [a, b]) == [ClipOf(segs, a.first, a.last), ClipOf(segs, b.first, b.last)]
  {
  }

  lemma SharedClips(segs: seq<Segment>)
    requires segs == [Segment(0, 10000, "a"), Segment(10000, 20000, "b"), Segment(20000, 30000, "c")]
    ensures ClipOf(segs, 0, 1) == Clip(0, 20000, 20000, "a b")
    ensures ClipOf(segs, 1, 2) == Clip(10000, 30000, 20000, "b c")
  {
    PairClip(segs, 0);
    PairClip(segs, 1);
    SpaceJoined();
  }

  lemma SpaceJoined()
    ensures "a" + " " + "b" == "a b" && "b" + " " + "c" == "b c"
  {
  }

  /** The clip of two segments whose texts have no surrounding blanks. */
  lemma PairClip(segs: seq<Segment>, i: nat)
    requires i + 1 < |segs|
    requires segs[i].text != [] && !IsSpace(segs[i].text[0])
    requires segs[i + 1].text != [] && !IsSpace(segs[i + 1].text[|segs[i + 1].text| - 1])
    ensures ClipOf(segs, i, i + 1)
            == Clip(segs[i].start, segs[i + 1].end, segs[i + 1].end - segs[i].start,
                    segs[i].text + " " + segs[i + 1].text)
  {
    JoinPairTexts(segs, i);
    var x, y := segs[i].text, segs[i + 1].text;
    assert (x + " " + y)[0] == x[0];
  }

  lemma JoinPairTexts(segs: seq<Segment>, i: nat)
    requires i + 1 < |segs|
    ensures Join(Texts(segs[i..i + 2]), " ") == segs[i].text + " " + segs[i + 1].text
  {
    var t := Texts(segs[i..i + 2]);
    assert t[..1] == [segs[i].text];
  }

  lemma SharedWindows(segs: seq<Segment>)
    requires segs == [Segment(0, 10000, "a"), Segment(10000, 20000, "b"), Segment(20000, 30000, "c")]
    ensures EmittedSpans(segs, 0, DefaultMinDuration, DefaultMaxDuration, DefaultMaxClips)
            == [Span(0, 1), Span(1, 2)]
  {
    var minD, maxD := DefaultMinDuration, DefaultMaxDuration;
    assert Window(segs, 0, minD, maxD) == Stop(1, 1);
    assert Window(segs, 1, minD, maxD) == Stop(2, 2);
    assert Window(segs, 2, minD, maxD) == Stop(3, 2);
    assert EmittedSpans(segs, 2, minD, maxD, 3) == [];
  }

  /** The inner loop of detect_clips (lines 13-29): grows the window that
      starts at segment `i`, carrying the running `end` and `text`. On return
      the window is segments `i..last`, `j` is where the sweep resumes, and
      the accumulators hold the window's end time and its space-joined text. */
  method GrowWindow(segments: seq<Segment>, i: nat, minDuration: int, maxDuration: int)
    returns (j: nat, end: int, text: string, ghost last: nat)
    requires i < |segments|
    ensures Window(segments, i, minDuration, maxDuration) == Stop(j, last)
    ensures end == segments[last].end
    ensures text == Join(Texts(segments[i..last + 1]), " ")
  {
    var start := segments[i].start;
    end := segments[i].end;
    text := segments[i].text;
    last := i;
    j := i + 1;
    assert Texts(segments[i..i + 1]) == [text];
    while j < |segments|
      invariant i < j <= |segments| && last == j - 1
      invariant Grow(segments, i, j, minDuration, maxDuration) == Window(segments, i, minDuration, maxDuration)
      invariant end == segments[last].end
      invariant text == Join(Texts(segments[i..last + 1]), " ")
    {
      var nextEnd := segments[j].end;
      if nextEnd - start > maxDuration {
        return;
      }
      end := nextEnd;
      JoinedTextsSnoc(segments, i, j);
      text := text + " " + segments[j].text;
      last := j;
      if end - start >= minDuration {
        return;
      }
      j := j + 1;
    }
  }

  /** The outer loop's invariant: the clips so far are those of the windows
      emitted so far, and those windows followed by what the sweep emits from
      `i` on are what it emits from the beginning. */
  ghost predicate SweepInvariant(segs: seq<Segment>, minD: int, maxD: int, maxClips: int,
                                 i: nat, spans: seq<Span>, clips: seq<Clip>)
  {
    && i <= |segs|
    && SpansIn(segs, spans) && clips == ClipsOf(segs, spans)
    && spans + EmittedSpans(segs, i, minD, maxD, maxClips - |spans|)
       == EmittedSpans(segs, 0, minD, maxD, maxClips)
  }

  /** One round of the outer loop keeps the invariant. */
  lemma SweepStep(segs: seq<Segment>, minD: int, maxD: int, maxClips: int,
                  i: nat, spans: seq<Span>, clips: seq<Clip>)
    requires SweepInvariant(segs, minD, maxD, maxClips, i, spans, clips)
    requires i < |segs| && |clips| < maxClips
    ensures var w := Window(segs, i, minD, maxD);
      if segs[w.last].end - segs[i].start >= minD then
        SweepInvariant(segs, minD, maxD, maxClips, w.next, spans + [Span(i, w.last)],
                       clips + [ClipOf(segs, i, w.last)])
      else
        SweepInvariant(segs, minD, maxD, maxClips, w.next, spans, clips)
  {
    var w := Window(segs, i, minD, maxD);
    if segs[w.last].end - segs[i].start >= minD {
      SweepEmit(segs, minD, maxD, maxClips, i, spans, clips);
    }
  }

  lemma SweepEmit(segs: seq<Segment>, minD: int, maxD: int, maxClips: int,
                  i: nat, spans: seq<Span>, clips: seq<Clip>)
    requires SweepInvariant(segs, minD, maxD, maxClips, i, spans, clips)
    requires i < |segs| && |clips| < maxClips
    requires segs[Window(segs, i, minD, maxD).last].end - segs[i].start >= minD
    ensures var w := Window(segs, i, minD, maxD);
      SweepInvariant(segs, minD, maxD, maxClips, w.next, spans + [Span(i, w.last)],
                     clips + [ClipOf(segs, i, w.last)])
  {
    var w := Window(segs, i, minD, maxD);
    var room := maxClips - |spans|;
    var sp := Span(i, w.last);
    ClipsOfSnoc(segs, spans, sp);
    var rest := EmittedSpans(segs, w.next, minD, maxD, room - 1);
    assert EmittedSpans(segs, i, minD, maxD, room) == [sp] + rest;
    assert (spans + [sp]) + rest == spans + ([sp] + rest);
    assert maxClips - |spans + [sp]| == room - 1;
  }

  /** When the outer loop stops, on running out of input or of room, the
      clips so far are the whole result. */
  lemma SweepDone(segs: seq<Segment>, minD: int, maxD: int, maxClips: int,
                  i: nat, spans: seq<Span>, clips: seq<Clip>)
    requires SweepInvariant(segs, minD, maxD, maxClips, i, spans, clips)
    requires !(i < |segs| && |clips| < maxClips)
    ensures clips == DetectClipsSpec(segs, minD, maxD, maxClips)
  {
    assert EmittedSpans(segs, i, minD, maxD, maxClips - |spans|) == [];
    assert spans == EmittedSpans(segs, 0, minD, maxD, maxClips);
  }

  /** detect_clips: the outer loop grows a window at `i`, appends its clip
      when the window reaches `minDuration`, and resumes at `j`, until the
      input is used up or `maxClips` clips are out. */
  method DetectClips(segments: seq<Segment>, minDuration: int, maxDuration: int, maxClips: int)
    returns (clips: seq<Clip>)
    ensures clips == DetectClipsSpec(segments, minDuration, maxDuration, maxClips)
  {
    clips := [];
    ghost var spans: seq<Span> := [];
    var i := 0;
    while i < |segments| && |clips| < maxClips
      invariant SweepInvariant(segments, minDuration, maxDuration, maxClips, i, spans, clips)
      decreases |segments| - i
    {
      var start := segments[i].start;
      var j, end, text, last := GrowWindow(segments, i, minDuration, maxDuration);
      SweepStep(segments, minDuration, maxDuration, maxClips, i, spans, clips);
      if end - start >= minDuration {
        assert Clip(start, end, end - start, Strip(text)) == ClipOf(segments, i, last);
        clips := clips + [Clip(start, end, end - start, Strip(text))];
        spans := spans + [Span(i, last)];
      }
      i := j;
    }
    SweepDone(segments, minDuration, maxDuration, maxClips, i, spans, clips);
  }
}
