/**
 * The FFmpeg concat-demuxer file ("ffconcat.txt") that `get_ugoira_frames`
 * writes next to the extracted frames.
 *
 * The descriptor is a header line followed by one `file`/`duration` block per
 * frame, plus one extra block that repeats the last frame for 1 ms, so that
 * the encoder shows the real last frame for its full delay.
 */
module Ffconcat {
  import opened Wrappers
  import opened Duration
  import opened Seqs

  /** One entry of the metadata's `frames` list. */
  datatype Frame = Frame(file: string, delay: Millis)

  /** One `file`/`duration` record of a descriptor, as text. */
  datatype Entry = Entry(file: string, duration: string)

  const Header: string := "ffconcat version 1.0\n\n"

  /** Delay given to the repeated last frame. */
  const TrailerDelay: Millis := 1

  /** The text written for one frame. */
  function Block(f: Frame): string
  {
    FileLine(f) + "\n" + DurationLine(f) + "\n" + "\n"
  }

  function FileLine(f: Frame): string { "file " + f.file }

  function DurationLine(f: Frame): string { "duration " + Seconds(f.delay) }

  /** The blocks of `fs`, in list order. */
  function Blocks(fs: seq<Frame>): string
  {
    if fs == [] then "" else Block(fs[0]) + Blocks(fs[1..])
  }

  /** The frame list after the last frame has been copied with delay 1 and
      appended. */
  function WithTrailer(fs: seq<Frame>): (r: seq<Frame>)
    requires |fs| > 0
    ensures |r| == |fs| + 1 && r[..|fs|] == fs
    ensures r[|fs|] == Frame(fs[|fs| - 1].file, 1)
  {
    fs + [fs[|fs| - 1].(delay := TrailerDelay)]
  }

  /** The whole descriptor text for a non-empty frame list. */
  function Descriptor(fs: seq<Frame>): string
    requires |fs| > 0
  {
    Header + Blocks(WithTrailer(fs))
  }

  /** The record a frame is expected to produce. */
  function EntryOf(f: Frame): Entry
  {
    Entry(f.file, Seconds(f.delay))
  }

  function Entries(fs: seq<Frame>): (es: seq<Entry>)
    ensures |es| == |fs|
    ensures forall i | 0 <= i < |fs| :: es[i] == EntryOf(fs[i])
  {
    Map(EntryOf, fs)
  }

  // ---------------------------------------------------------------------
  // Reading a descriptor back: the partner of the writer. It accepts the
  // header, then any number of `file X\nduration D\n\n` blocks and nothing
  // else.
  // ---------------------------------------------------------------------

  /** Splits off the first line of `t` (without its newline). */
  function SplitLine(t: string): (r: Option<(string, string)>)
    ensures r.Some? ==> |r.value.1| < |t| && NoNewline(r.value.0)
    ensures r.Some? ==> t == r.value.0 + "\n" + r.value.1
  {
    match IndexOf(t, '\n')
    case None => None
    case Some(k) =>
      assert t == t[..k] + "\n" + t[k + 1..];
      Some((t[..k], t[k + 1..]))
  }

  function ParseBlock(t: string): (r: Option<(Entry, string)>)
    ensures r.Some? ==> |r.value.1| < |t|
  {
    match SplitLine(t)
    case None => None
    case Some((line1, rest1)) =>
      match SplitLine(rest1)
      case None => None
      case Some((line2, rest2)) =>
        if |line1| >= 5 && line1[..5] == "file " && |line2| >= 9 && line2[..9] == "duration "
           && |rest2| >= 1 && rest2[0] == '\n'
        then Some((Entry(line1[5..], line2[9..]), rest2[1..]))
        else None
  }

  function ParseBlocks(t: string): Option<seq<Entry>>
    decreases |t|
  {
    if t == [] then Some([])
    else match ParseBlock(t)
      case None => None
      case Some((e, rest)) =>
        match ParseBlocks(rest)
        case None => None
        case Some(es) => Some([e] + es)
  }

  function ParseDescriptor(t: string): Option<seq<Entry>>
  {
    if |t| >= |Header| && t[..|Header|] == Header then ParseBlocks(t[|Header|..]) else None
  }

  // ---------------------------------------------------------------------
  // Lemmas
  // ---------------------------------------------------------------------

  lemma SplitLineAt(a: string, b: string)
    requires NoNewline(a)
    ensures SplitLine(a + "\n" + b) == Some((a, b))
  {
    IndexOfAfter(a, '\n', b);
    var t := a + "\n" + b;
    assert t[..|a|] == a && t[|a| + 1..] == b;
  }

  lemma SecondsNoNewline(d: Millis)
    ensures NoNewline(Seconds(d))
  {
    var s := Seconds(d);
    assert forall i | 0 <= i < |s| :: s[i] != '\n';
  }

  lemma Regroup<T>(a: seq<T>, nl: seq<T>, b: seq<T>, rest: seq<T>)
    ensures a + nl + b + nl + nl + rest == a + nl + (b + nl + (nl + rest))
  {
  }

  lemma ParseBlockOf(f: Frame, rest: string)
    requires NoNewline(f.file)
    ensures ParseBlock(Block(f) + rest) == Some((EntryOf(f), rest))
  {
    SecondsNoNewline(f.delay);
    ParseLines(f.file, Seconds(f.delay), rest);
  }

  /** A block with any newline-free file name and duration text parses back. */
  lemma ParseLines(file: string, duration: string, rest: string)
    requires NoNewline(file) && NoNewline(duration)
    ensures ParseBlock("file " + file + "\n" + ("duration " + duration) + "\n" + "\n" + rest)
         == Some((Entry(file, duration), rest))
  {
    var l1, l2 := "file " + file, "duration " + duration;
    assert NoNewline(l1);
    assert NoNewline(l2);
    Regroup(l1, "\n", l2, rest);
    SplitLineAt(l1, l2 + "\n" + ("\n" + rest));
    SplitLineAt(l2, "\n" + rest);
    assert l1[..5] == "file " && l1[5..] == file;
    assert l2[..9] == "duration " && l2[9..] == duration;
    assert ("\n" + rest)[1..] == rest;
  }

  lemma {:induction false} ParseBlocksOf(fs: seq<Frame>)
    requires forall i | 0 <= i < |fs| :: NoNewline(fs[i].file)
    ensures ParseBlocks(Blocks(fs)) == Some(Entries(fs))
  {
    if fs != [] {
      var t, rest := Blocks(fs), Blocks(fs[1..]);
      assert t == Block(fs[0]) + rest;
      ParseBlockOf(fs[0], rest);
      ParseBlocksOf(fs[1..]);
    }
  }

  lemma {:induction false} BlocksSnoc(fs: seq<Frame>, f: Frame)
    ensures Blocks(fs + [f]) == Blocks(fs) + Block(f)
  {
    if fs != [] {
      assert (fs + [f])[1..] == fs[1..] + [f];
      BlocksSnoc(fs[1..], f);
    } else {
      assert [f][1..] == [];
    }
  }

  lemma WithTrailerFiles(fs: seq<Frame>)
    requires |fs| > 0
    requires forall i | 0 <= i < |fs| :: NoNewline(fs[i].file)
    ensures forall i | 0 <= i < |fs| + 1 :: NoNewline(WithTrailer(fs)[i].file)
  {
  }

  /** The descriptor read back: exactly the records of the extended list. */
  lemma {:induction false} ParseDescriptorOf(fs: seq<Frame>)
    requires |fs| > 0
    requires forall i | 0 <= i < |fs| :: NoNewline(fs[i].file)
    ensures ParseDescriptor(Descriptor(fs)) == Some(Entries(WithTrailer(fs)))
  {
    var all := WithTrailer(fs);
    WithTrailerFiles(fs);
    ParseBlocksOf(all);
    var t := Descriptor(fs);
    assert t[..|Header|] == Header && t[|Header|..] == Blocks(all);
  }

  /** The descriptor is the header followed by exactly |fs| + 1 blocks and nothing
      else: block i names frame i with its own duration, and the last block
      repeats the last frame's file with duration 0.001. */
  lemma DescriptorShape(fs: seq<Frame>)
    requires |fs| > 0
    requires forall i | 0 <= i < |fs| :: NoNewline(fs[i].file)
    ensures ParseDescriptor(Descriptor(fs)).Some?
    ensures var es := ParseDescriptor(Descriptor(fs)).value;
      && |es| == |fs| + 1
      && (forall i | 0 <= i < |fs| :: es[i] == Entry(fs[i].file, Seconds(fs[i].delay)))
      && es[|fs|] == Entry(fs[|fs| - 1].file, "0.001")
  {
    ParseDescriptorOf(fs);
    var all := WithTrailer(fs);
    var es := Entries(all);
    assert forall i | 0 <= i < |fs| :: all[i] == fs[i];
    assert Seconds(1) == "0.001" by { SecondsExamples(); }
    assert es[|fs|] == EntryOf(all[|fs|]);
  }

  /** Every duration in the descriptor reads back as the delay it was written
      from: the frame's own delay, then 1 ms for the repeated last frame. */
  lemma DescriptorDurations(fs: seq<Frame>)
    requires |fs| > 0
    requires forall i | 0 <= i < |fs| :: NoNewline(fs[i].file)
    ensures ParseDescriptor(Descriptor(fs)).Some?
    ensures var es := ParseDescriptor(Descriptor(fs)).value;
      && |es| == |fs| + 1
      && (forall i | 0 <= i < |fs| + 1 :: ParseSeconds(es[i].duration) == Some(WithTrailer(fs)[i].delay as nat))
  {
    ParseDescriptorOf(fs);
    EntryDurations(WithTrailer(fs));
  }

  lemma EntryDurations(fs: seq<Frame>)
    ensures forall i | 0 <= i < |fs| :: ParseSeconds(Entries(fs)[i].duration) == Some(fs[i].delay as nat)
  {
    forall i | 0 <= i < |fs| ensures ParseSeconds(Entries(fs)[i].duration) == Some(fs[i].delay as nat) {
      SecondsRoundTrip(fs[i].delay);
    }
  }

  /** The last two records name the same file; their durations coincide exactly
      when the last real frame's delay is itself 1 ms. */
  lemma LastTwoRecords(fs: seq<Frame>)
    requires |fs| > 0
    requires forall i | 0 <= i < |fs| :: NoNewline(fs[i].file)
    ensures ParseDescriptor(Descriptor(fs)).Some?
    ensures var es := ParseDescriptor(Descriptor(fs)).value;
      && |es| == |fs| + 1
      && es[|fs| - 1].file == es[|fs|].file
      && (es[|fs| - 1].duration == es[|fs|].duration <==> fs[|fs| - 1].delay == 1)
  {
    ParseDescriptorOf(fs);
    var all := WithTrailer(fs);
    assert all[|fs| - 1] == fs[|fs| - 1];
    SecondsInjective(fs[|fs| - 1].delay, 1);
  }

  /** The two-frame example: records (000000.jpg, 0.1), (000001.jpg, 0.2),
      (000001.jpg, 0.001), in that order. */
  lemma TwoFrameExample()
    ensures Descriptor([Frame("000000.jpg", 100), Frame("000001.jpg", 200)])
      == "ffconcat version 1.0\n\n"
      + "file 000000.jpg\nduration 0.1\n\n"
      + "file 000001.jpg\nduration 0.2\n\n"
      + "file 000001.jpg\nduration 0.001\n\n"
  {
    var f0, f1, f2 := Frame("000000.jpg", 100), Frame("000001.jpg", 200), Frame("000001.jpg", 1);
    ExampleBlock0();
    ExampleBlock1();
    ExampleBlock2();
    var all := WithTrailer([f0, f1]);
    assert all == [f0, f1, f2];
    BlocksSnoc([], f0);
    BlocksSnoc([f0], f1);
    BlocksSnoc([f0, f1], f2);
    assert [f0] + [f1] == [f0, f1];
    assert [f0, f1] + [f2] == all;
    var b0, b1, b2 := Block(f0), Block(f1), Block(f2);
    assert Blocks([f0]) == b0;
    assert Blocks(all) == (b0 + b1) + b2;
    AppendAssoc(Header, b0 + b1, b2);
    AppendAssoc(Header, b0, b1);
  }

  lemma ExampleBlock0()
    ensures Block(Frame("000000.jpg", 100)) == "file 000000.jpg\nduration 0.1\n\n"
  {
    SecondsExamples();
  }

  lemma ExampleBlock1()
    ensures Block(Frame("000001.jpg", 200)) == "file 000001.jpg\nduration 0.2\n\n"
  {
    SecondsExamples();
  }

  lemma ExampleBlock2()
    ensures Block(Frame("000001.jpg", 1)) == "file 000001.jpg\nduration 0.001\n\n"
  {
    SecondsExamples();
  }

  // ---------------------------------------------------------------------
  // The writer
  // ---------------------------------------------------------------------

  /** The decoded metadata object; its `frames` list is extended in place. */
  class UgoiraData {
    var src: string
    var frames: seq<Frame>

    constructor (src: string, frames: seq<Frame>)
      ensures this.src == src && this.frames == frames
    {
      this.src := src;
      this.frames := frames;
    }
  }

  /** Writes the descriptor: the header, then (after appending a 1 ms copy of
      the last frame to `data.frames`) one block per frame of the extended
      list, in order. The original entries are left as they were. */
  method WriteFfconcat(data: UgoiraData) returns (text: string)
    requires |data.frames| > 0
    modifies data
    ensures data.src == old(data.src)
    ensures |data.frames| == |old(data.frames)| + 1
    ensures data.frames[..|old(data.frames)|] == old(data.frames)
    ensures data.frames[|old(data.frames)|] == Frame(old(data.frames)[|old(data.frames)| - 1].file, 1)
    ensures text == Descriptor(old(data.frames))
  {
    text := Header;
    var lastFrame := data.frames[|data.frames| - 1];
    lastFrame := lastFrame.(delay := TrailerDelay);
    data.frames := data.frames + [lastFrame];
    var i := 0;
    while i < |data.frames|
      invariant data.src == old(data.src)
      invariant data.frames == old(data.frames) + [lastFrame]
      invariant 0 <= i <= |data.frames|
      invariant text == Header + Blocks(data.frames[..i])
    {
      var block := Block(data.frames[i]);
      BlocksSnoc(data.frames[..i], data.frames[i]);
      SliceSnoc(data.frames, i);
      AppendAssoc(Header, Blocks(data.frames[..i]), block);
      text := text + block;
      i := i + 1;
    }
    assert data.frames[..i] == data.frames == WithTrailer(old(data.frames));
  }
}
