/** Caption track building (workers/app/processors/captions.py): SubRip
    timestamps, the projection of transcript segments onto a clip's window
    as an SRT document, and the guard in front of the burn-in call. */
module Captions {
  import opened Transcript
  import opened Strings
  import opened Wrappers

  // ---------------------------------------------------------------------
  // format_ts
  // ---------------------------------------------------------------------

  /** The hour, minute, second and millisecond fields of a timestamp. */
  datatype Fields = Fields(h: int, m: int, s: int, ms: int)

  /** The fields format_ts computes from a time of `t` milliseconds. Hours,
      minutes and seconds use Python's floor division and modulo; the
      millisecond field is `t` minus its truncation toward zero, so for a
      negative time it is negative. */
  function TsFields(t: int): Fields
  {
    Fields(t / 3600000, (t % 3600000) / 60000, (t % 60000) / 1000,
           if t >= 0 then t % 1000 else -((-t) % 1000))
  }

  /** For a non-negative time the fields are in range and add back up to
      the time: nothing below a millisecond is there to lose, and nothing is
      rounded. */
  lemma TsFieldsExact(t: int)
    requires 0 <= t
    ensures var f := TsFields(t);
      && 0 <= f.h && 0 <= f.m < 60 && 0 <= f.s < 60 && 0 <= f.ms < 1000
      && f.h * 3600000 + f.m * 60000 + f.s * 1000 + f.ms == t
  {
    var q1 := t / 3600000;
    var r1 := t % 3600000;
    var m := r1 / 60000;
    var r2 := r1 % 60000;
    assert r1 == m * 60000 + r2;
    assert t == (q1 * 60 + m) * 60000 + r2;
    assert t % 60000 == r2;
    var s := r2 / 1000;
    var r3 := r2 % 1000;
    assert t == ((q1 * 60 + m) * 60 + s) * 1000 + r3;
    assert t % 1000 == r3;
  }

  /** The `HH:MM:SS,mmm` layout of four already formatted fields. */
  function Stamp(hh: string, mm: string, ss: string, mmm: string): string
  {
    hh + ":" + mm + ":" + ss + "," + mmm
  }

  /** format_ts: `HH:MM:SS,mmm`, each field zero-padded to 2, 2, 2 and 3
      places. */
  function FormatTs(t: int): string
  {
    var f := TsFields(t);
    Stamp(PadInt(f.h, 2), PadInt(f.m, 2), PadInt(f.s, 2), PadInt(f.ms, 3))
  }

  /** Where the separators of a stamp sit, counted from its end. */
  lemma StampShape(hh: string, mm: string, ss: string, mmm: string)
    requires |mm| == 2 && |ss| == 2 && |mmm| == 3
    ensures var r := Stamp(hh, mm, ss, mmm);
      && |r| == |hh| + 10 && r[|r| - 10] == ':' && r[|r| - 7] == ':' && r[|r| - 4] == ','
      && r[..|r| - 10] == hh && r[|r| - 9..|r| - 7] == mm
      && r[|r| - 6..|r| - 4] == ss && r[|r| - 3..] == mmm
  {
  }

  /** For a non-negative time the last ten characters always have the
      `HH:MM:SS,mmm` shape (the hour field widens past 99 hours), and below
      100 hours the whole timestamp is twelve characters. */
  lemma FormatTsShape(t: int)
    requires 0 <= t
    ensures var r := FormatTs(t);
      && |r| >= 12 && r[|r| - 10] == ':' && r[|r| - 7] == ':' && r[|r| - 4] == ','
      && (t < 360000000 ==> |r| == 12)
  {
    var f := TsFields(t);
    TsFieldsExact(t);
    PadIntWidth(f.m, 2);
    PadIntWidth(f.s, 2);
    PadIntWidth(f.ms, 3);
    PadIntNonNegative(f.h, 2);
    if t < 360000000 {
      PadIntWidth(f.h, 2);
    }
    StampShape(PadInt(f.h, 2), PadInt(f.m, 2), PadInt(f.s, 2), PadInt(f.ms, 3));
  }

  /** The time four decimal fields stand for, if they all are decimal. */
  function FieldsValue(hh: string, mm: string, ss: string, mmm: string): Option<int>
  {
    var h, m, s, ms := Decimal(hh), Decimal(mm), Decimal(ss), Decimal(mmm);
    if h.Some? && m.Some? && s.Some? && ms.Some?
    then Some(h.value * 3600000 + m.value * 60000 + s.value * 1000 + ms.value)
    else None
  }

  /** Reads a `HH:MM:SS,mmm` timestamp (with an hour field of two or more
      digits) back into milliseconds; anything else is not a timestamp. */
  function ParseTs(r: string): Option<int>
  {
    var n := |r|;
    if n >= 12 && r[n - 10] == ':' && r[n - 7] == ':' && r[n - 4] == ','
    then FieldsValue(r[..n - 10], r[n - 9..n - 7], r[n - 6..n - 4], r[n - 3..])
    else None
  }

  /** Reading a stamp gives back what its four fields stand for. */
  lemma ParseStamp(hh: string, mm: string, ss: string, mmm: string)
    requires |hh| >= 2 && |mm| == 2 && |ss| == 2 && |mmm| == 3
    ensures ParseTs(Stamp(hh, mm, ss, mmm)) == FieldsValue(hh, mm, ss, mmm)
  {
    StampShape(hh, mm, ss, mmm);
  }

  /** Round trip: reading a formatted non-negative time gives the time back,
      so the four fields really are `h*3600000 + m*60000 + s*1000 + ms`. */
  lemma ParseFormatTs(t: int)
    requires 0 <= t
    ensures ParseTs(FormatTs(t)) == Some(t)
  {
    var f := TsFields(t);
    TsFieldsExact(t);
    PadIntWidth(f.m, 2);
    PadIntWidth(f.s, 2);
    PadIntWidth(f.ms, 3);
    PadIntNonNegative(f.h, 2);
    PadsValue(f.h, f.m, f.s, f.ms);
    var hh, mm, ss, mmm := PadInt(f.h, 2), PadInt(f.m, 2), PadInt(f.s, 2), PadInt(f.ms, 3);
    ParseStamp(hh, mm, ss, mmm);
    assert FormatTs(t) == Stamp(hh, mm, ss, mmm);
  }

  /** The padded fields read back as the numbers they were made from. */
  lemma PadsValue(h: int, m: int, s: int, ms: int)
    requires 0 <= h && 0 <= m && 0 <= s && 0 <= ms
    ensures FieldsValue(PadInt(h, 2), PadInt(m, 2), PadInt(s, 2), PadInt(ms, 3))
            == Some(h * 3600000 + m * 60000 + s * 1000 + ms)
  {
    PadIntDecimal(h, 2);
    PadIntDecimal(m, 2);
    PadIntDecimal(s, 2);
    PadIntDecimal(ms, 3);
  }

  /** Different non-negative times never print the same. */
  lemma FormatTsInjective(t1: int, t2: int)
    requires 0 <= t1 && 0 <= t2 && FormatTs(t1) == FormatTs(t2)
    ensures t1 == t2
  {
    ParseFormatTs(t1);
    ParseFormatTs(t2);
  }

  // ---------------------------------------------------------------------
  // build_srt
  // ---------------------------------------------------------------------

  /** build_srt skips a segment that ends before the window starts or starts
      after it ends; a segment that only touches an edge is kept. */
  predicate Overlaps(seg: Segment, start: int, end: int)
  {
    !(seg.end < start || seg.start > end)
  }

  /** The segments build_srt keeps, in input order. */
  function Kept(segs: seq<Segment>, start: int, end: int): (r: seq<Segment>)
    ensures |r| <= |segs|
    ensures forall k :: 0 <= k < |r| ==> Overlaps(r[k], start, end)
    decreases |segs|
  {
    if segs == [] then []
    else
      var last := segs[|segs| - 1];
      Kept(segs[..|segs| - 1], start, end) + (if Overlaps(last, start, end) then [last] else [])
  }

  /** A segment is kept exactly when it is in the input and reaches the
      window: `seg.end >= start && seg.start <= end`. */
  lemma {:induction false} KeptExactly(segs: seq<Segment>, start: int, end: int, x: Segment)
    ensures x in Kept(segs, start, end) <==> x in segs && x.end >= start && x.start <= end
    decreases |segs|
  {
    if segs != [] {
      var init := segs[..|segs| - 1];
      KeptExactly(init, start, end, x);
      assert segs == init + [segs[|segs| - 1]];
    }
  }

  /** Filtering distributes over concatenation, so the kept segments keep
      their input order. */
  lemma {:induction false} KeptAppend(a: seq<Segment>, b: seq<Segment>, start: int, end: int)
    ensures Kept(a + b, start, end) == Kept(a, start, end) + Kept(b, start, end)
    decreases |b|
  {
    if b != [] {
      var b' := b[..|b| - 1];
      assert (a + b)[..|a + b| - 1] == a + b';
      KeptAppend(a, b', start, end);
    } else {
      assert a + b == a;
    }
  }

  /** One subtitle entry: its number, its window-relative bounds and its
      stripped text. */
  datatype SrtEntry = SrtEntry(index: nat, from: int, to: int, text: string)

  /** The entry for a kept segment: clipped to the window, then rebased to
      the window start. For an ordered window and segment, both bounds lie in
      `[0, end - start]` and the entry does not end before it starts. */
  function EntryOf(seg: Segment, index: nat, start: int, end: int): (e: SrtEntry)
    ensures e.index == index
    ensures start <= end && seg.start <= seg.end && Overlaps(seg, start, end)
            ==> 0 <= e.from <= e.to <= end - start
  {
    var from := (if seg.start > start then seg.start else start) - start;
    var to := (if seg.end < end then seg.end else end) - start;
    SrtEntry(index, from, to, Strip(seg.text))
  }

  /** The entries of the SRT document: one per kept segment, numbered from 1
      with no gaps. */
  function Entries(segs: seq<Segment>, start: int, end: int): (r: seq<SrtEntry>)
    ensures |r| == |Kept(segs, start, end)|
    ensures forall k :: 0 <= k < |r| ==> r[k].index == k + 1
    decreases |segs|
  {
    if segs == [] then []
    else
      var init := segs[..|segs| - 1];
      var last := segs[|segs| - 1];
      Entries(init, start, end)
      + (if Overlaps(last, start, end) then [EntryOf(last, |Kept(init, start, end)| + 1, start, end)] else [])
  }

  /** Entry `k` is made from kept segment `k`. */
  lemma {:induction false} EntriesAt(segs: seq<Segment>, start: int, end: int, k: nat)
    requires k < |Kept(segs, start, end)|
    ensures Entries(segs, start, end)[k] == EntryOf(Kept(segs, start, end)[k], k + 1, start, end)
    decreases |segs|
  {
    var init := segs[..|segs| - 1];
    if k < |Kept(init, start, end)| {
      EntriesAt(init, start, end, k);
    }
  }

  /** A segment that is not kept adds no entry; a kept one adds the next
      number. */
  lemma EntriesSnoc(segs: seq<Segment>, x: Segment, start: int, end: int)
    ensures Entries(segs + [x], start, end)
            == Entries(segs, start, end)
               + (if Overlaps(x, start, end)
                  then [EntryOf(x, |Kept(segs, start, end)| + 1, start, end)] else [])
  {
    assert (segs + [x])[..|segs + [x]| - 1] == segs;
  }

  /** An entry written out: its number, its time-range line and its text. */
  datatype SrtBlock = SrtBlock(number: string, timing: string, text: string)

  /** The time-range line of an entry: `HH:MM:SS,mmm --> HH:MM:SS,mmm`. */
  function TimingLine(from: int, to: int): string
  {
    FormatTs(from) + " --> " + FormatTs(to)
  }

  function Render(e: SrtEntry): SrtBlock
  {
    SrtBlock(Digits(e.index), TimingLine(e.from, e.to), e.text)
  }

  function Rendered(es: seq<SrtEntry>): (r: seq<SrtBlock>)
    ensures |r| == |es|
    decreases |es|
  {
    if es == [] then [] else Rendered(es[..|es| - 1]) + [Render(es[|es| - 1])]
  }

  lemma RenderedSnoc(es: seq<SrtEntry>, e: SrtEntry)
    ensures Rendered(es + [e]) == Rendered(es) + [Render(e)]
  {
    assert (es + [e])[..|es|] == es;
  }

  lemma {:induction false} RenderedAt(es: seq<SrtEntry>, k: nat)
    requires k < |es|
    ensures Rendered(es)[k] == Render(es[k])
    decreases |es|
  {
    if k < |es| - 1 {
      RenderedAt(es[..|es| - 1], k);
    }
  }

  /** The four lines a block contributes: number, time range, text and a
      blank separator line. */
  function BlockLines(b: SrtBlock): seq<string>
  {
    [b.number, b.timing, b.text, ""]
  }

  function SrtLines(bs: seq<SrtBlock>): (r: seq<string>)
    ensures |r| == 4 * |bs|
    decreases |bs|
  {
    if bs == [] then [] else SrtLines(bs[..|bs| - 1]) + BlockLines(bs[|bs| - 1])
  }

  /** Appending a block appends its four lines. */
  lemma SrtLinesSnoc(bs: seq<SrtBlock>, b: SrtBlock)
    ensures SrtLines(bs + [b]) == SrtLines(bs) + [b.number, b.timing, b.text, ""]
  {
    assert (bs + [b])[..|bs|] == bs;
  }

  /** Lines `4k .. 4k + 3` are the number, the time range, the text and the
      blank line of block `k`. */
  lemma {:induction false} SrtLinesAt(bs: seq<SrtBlock>, k: nat)
    requires k < |bs|
    ensures SrtLines(bs)[4 * k..4 * k + 4] == BlockLines(bs[k])
    decreases |bs|
  {
    var init := bs[..|bs| - 1];
    if k < |bs| - 1 {
      SrtLinesAt(init, k);
      assert SrtLines(bs)[4 * k..4 * k + 4] == SrtLines(init)[4 * k..4 * k + 4];
    }
  }

  /** The text build_srt writes: every line joined with "\n". */
  function SrtText(segs: seq<Segment>, start: int, end: int): string
  {
    Join(SrtLines(Rendered(Entries(segs, start, end))), "\n")
  }

  /** What build_srt has produced after the segments `segs`: the next
      number to use and the lines of the entries so far. */
  ghost predicate Built(segs: seq<Segment>, start: int, end: int, idx: int, lines: seq<string>)
  {
    idx == |Kept(segs, start, end)| + 1 && lines == SrtLines(Rendered(Entries(segs, start, end)))
  }

  /** Taking one more element of a sequence appends that element. */
  lemma PrefixSnoc(s: seq<Segment>, n: nat)
    requires n < |s|
    ensures s[..n + 1] == s[..n] + [s[n]]
  {
  }

  /** One step of build_srt, over segment `n`: a segment outside the window
      changes nothing, and a kept one appends its number, its time range,
      its text and a blank line. */
  lemma BuildStep(segments: seq<Segment>, n: nat, start: int, end: int, idx: int, lines: seq<string>)
    requires n < |segments| && Built(segments[..n], start, end, idx, lines)
    ensures !Overlaps(segments[n], start, end) ==> Built(segments[..n + 1], start, end, idx, lines)
    ensures Overlaps(segments[n], start, end) && idx >= 0 ==>
              var e := EntryOf(segments[n], idx, start, end);
              Built(segments[..n + 1], start, end, idx + 1,
                    lines + [Digits(idx), TimingLine(e.from, e.to), e.text, ""])
  {
    var segs, x := segments[..n], segments[n];
    PrefixSnoc(segments, n);
    EntriesSnoc(segs, x, start, end);
    assert (segs + [x])[..|segs|] == segs;
    assert Kept(segs + [x], start, end) == Kept(segs, start, end) + (if Overlaps(x, start, end) then [x] else []);
    if !Overlaps(x, start, end) {
      assert Entries(segs + [x], start, end) == Entries(segs, start, end);
    } else {
      var e := EntryOf(x, idx, start, end);
      var es := Entries(segs, start, end);
      assert Entries(segs + [x], start, end) == es + [e];
      RenderedSnoc(es, e);
      SrtLinesSnoc(Rendered(es), Render(e));
    }
  }

  /** After the last segment the lines are the whole document's. */
  lemma BuildDone(segments: seq<Segment>, start: int, end: int, idx: int, lines: seq<string>)
    requires Built(segments[..|segments|], start, end, idx, lines)
    ensures SrtText(segments, start, end) == Join(lines, "\n")
  {
    assert segments[..|segments|] == segments;
  }

  /** build_srt, without the file write: loops over the segments, skips the
      ones outside the window, and appends four lines per kept segment while
      counting entries from 1. */
  method BuildSrt(segments: seq<Segment>, start: int, end: int) returns (srt: string)
    ensures srt == SrtText(segments, start, end)
  {
    var lines: seq<string> := [];
    var idx := 1;
    assert segments[..0] == [];
    for n := 0 to |segments|
      invariant idx >= 1 && Built(segments[..n], start, end, idx, lines)
    {
      var seg := segments[n];
      BuildStep(segments, n, start, end, idx, lines);
      if seg.end < start || seg.start > end {
        continue;
      }
      var entry := EntryOf(seg, idx, start, end);
      lines := lines + [Digits(idx), TimingLine(entry.from, entry.to), entry.text, ""];
      idx := idx + 1;
    }
    srt := Join(lines, "\n");
    BuildDone(segments, start, end, idx, lines);
  }

  /** A block as text: number, time range and text, each ending in a
      newline. */
  function BlockText(b: SrtBlock): string
  {
    b.number + "\n" + b.timing + "\n" + b.text + "\n"
  }

  function BlockTexts(bs: seq<SrtBlock>): (r: seq<string>)
    ensures |r| == |bs|
    decreases |bs|
  {
    if bs == [] then [] else BlockTexts(bs[..|bs| - 1]) + [BlockText(bs[|bs| - 1])]
  }

  lemma BlockLinesJoin(b: SrtBlock)
    ensures Join(BlockLines(b), "\n") == BlockText(b)
  {
    var l := BlockLines(b);
    assert l[..3][..2][..1] == [b.number];
    assert Join(l[..3][..2], "\n") == b.number + "\n" + b.timing;
    assert Join(l[..3], "\n") == b.number + "\n" + b.timing + "\n" + b.text;
    assert Join(l, "\n") == Join(l[..3], "\n") + "\n" + "";
  }

  /** The document is its blocks separated by blank lines: joining the lines
      with "\n" puts one more "\n" between consecutive blocks, and none after
      the last. */
  lemma {:induction false} SrtTextIsBlocks(bs: seq<SrtBlock>)
    ensures Join(SrtLines(bs), "\n") == Join(BlockTexts(bs), "\n")
    decreases |bs|
  {
    if bs != [] {
      var init := bs[..|bs| - 1];
      var b := bs[|bs| - 1];
      BlockLinesJoin(b);
      if init == [] {
        assert SrtLines(bs) == BlockLines(b);
        assert BlockTexts(bs) == [BlockText(b)];
      } else {
        SrtTextIsBlocks(init);
        JoinAppend(SrtLines(init), BlockLines(b), "\n");
        JoinAppend(BlockTexts(init), [BlockText(b)], "\n");
      }
    }
  }

  lemma {:induction false} JoinLength(parts: seq<string>, sep: string)
    requires parts != []
    ensures |Join(parts, sep)| >= |parts[0]|
    decreases |parts|
  {
    if |parts| > 1 {
      JoinLength(parts[..|parts| - 1], sep);
    }
  }

  /** The document is empty exactly when no segment reaches the window. */
  lemma SrtEmptyIff(segs: seq<Segment>, start: int, end: int)
    ensures SrtText(segs, start, end) == "" <==> Kept(segs, start, end) == []
  {
    var bs := Rendered(Entries(segs, start, end));
    if bs != [] {
      SrtLinesAt(bs, 0);
      var lines := SrtLines(bs);
      assert lines[0] == lines[0..4][0] == bs[0].number;
      JoinLength(lines, "\n");
    }
  }

  /** Each entry of the document: its number is its position counted from 1,
      its bounds are its kept segment clipped to the window and rebased, and
      it is written as number, time range, stripped text and a blank line. */
  lemma EntryAt(segs: seq<Segment>, start: int, end: int, k: nat)
    requires k < |Kept(segs, start, end)|
    ensures var seg := Kept(segs, start, end)[k];
            var e := Entries(segs, start, end)[k];
      && e.index == k + 1
      && e.from == (if seg.start > start then seg.start else start) - start
      && e.to == (if seg.end < end then seg.end else end) - start
      && e.text == Strip(seg.text)
      && SrtLines(Rendered(Entries(segs, start, end)))[4 * k..4 * k + 4]
         == [Digits(k + 1), FormatTs(e.from) + " --> " + FormatTs(e.to), Strip(seg.text), ""]
  {
    var es := Entries(segs, start, end);
    EntriesAt(segs, start, end, k);
    RenderedAt(es, k);
    SrtLinesAt(Rendered(es), k);
  }

  /** A 10 s to 20 s window over four segments keeps b, c and d, clipped
      and rebased, and drops a. Segment b (8 s to 12 s) is clipped to start
      at the window start, so it becomes 0 s to 2 s. */
  lemma WindowExample()
    ensures Entries([Segment(0, 5000, "a"), Segment(8000, 12000, "b"),
                     Segment(15000, 18000, "c"), Segment(19000, 25000, "d")], 10000, 20000)
            == [SrtEntry(1, 0, 2000, "b"), SrtEntry(2, 5000, 8000, "c"),
                SrtEntry(3, 9000, 10000, "d")]
  {
    var segs := [Segment(0, 5000, "a"), Segment(8000, 12000, "b"),
                 Segment(15000, 18000, "c"), Segment(19000, 25000, "d")];
    WindowEntriesShape(segs);
    WindowEntryValues();
  }

  lemma WindowEntriesShape(segs: seq<Segment>)
    requires segs == [Segment(0, 5000, "a"), Segment(8000, 12000, "b"),
                      Segment(15000, 18000, "c"), Segment(19000, 25000, "d")]
    ensures Entries(segs, 10000, 20000)
            == [EntryOf(segs[1], 1, 10000, 20000), EntryOf(segs[2], 2, 10000, 20000),
                EntryOf(segs[3], 3, 10000, 20000)]
  {
    assert segs[..1][..0] == [];
    assert Entries(segs[..1], 10000, 20000) == [];
    assert segs[..2][..1] == segs[..1];
    assert Entries(segs[..2], 10000, 20000) == [EntryOf(segs[1], 1, 10000, 20000)];
    assert segs[..3][..2] == segs[..2];
    assert Entries(segs[..3], 10000, 20000)
           == [EntryOf(segs[1], 1, 10000, 20000), EntryOf(segs[2], 2, 10000, 20000)];
    assert segs[..3] == segs[..|segs| - 1];
    assert |Kept(segs[..3], 10000, 20000)| == 2;
  }

  lemma WindowEntryValues()
    ensures EntryOf(Segment(8000, 12000, "b"), 1, 10000, 20000) == SrtEntry(1, 0, 2000, "b")
    ensures EntryOf(Segment(15000, 18000, "c"), 2, 10000, 20000) == SrtEntry(2, 5000, 8000, "c")
    ensures EntryOf(Segment(19000, 25000, "d"), 3, 10000, 20000) == SrtEntry(3, 9000, 10000, "d")
  {
  }

  /** A sample timestamp: 2 s prints as "00:00:02,000". */
  lemma FormatTsExample()
    ensures FormatTs(2000) == "00:00:02,000"
  {
    assert TsFields(2000) == Fields(0, 0, 2, 0);
    assert PadInt(0, 2) == "00" by {
      assert Digits(0) == "0";
    }
    assert PadInt(2, 2) == "02" by {
      assert Digits(2) == "2";
    }
    assert PadInt(0, 3) == "000" by {
      assert Digits(0) == "0";
      assert Zeros(2) == "00";
    }
  }

  // ---------------------------------------------------------------------
  // burn_captions
  // ---------------------------------------------------------------------

  datatype BurnError = SamePath

  /** What burn_captions hands to the transcoder: the clip, the subtitle
      file and where to write the captioned clip. */
  datatype BurnRequest = BurnRequest(video: string, subtitles: string, output: string)

  /** The guard in front of the burn-in: paths are compared after
      resolution (`resolve`), and when input and output resolve to the same
      file the call fails before the transcoder is invoked. */
  function BurnCaptions(videoPath: string, srtPath: string, outPath: string,
                        resolve: string -> string): (r: Result<BurnRequest, BurnError>)
    ensures r.Failure? <==> resolve(videoPath) == resolve(outPath)
    ensures r.Success? ==> r.value == BurnRequest(videoPath, srtPath, outPath)
    ensures r.Success? ==> resolve(r.value.video) != resolve(r.value.output)
  {
    if resolve(videoPath) == resolve(outPath) then Failure(SamePath)
    else Success(BurnRequest(videoPath, srtPath, outPath))
  }
}
