/** The caption text written by Editor.create_srt_file: one block per chunk,
    `"{i+1} \n{start} --> {end}\n{text} \n\n"`, the whole then `.strip()`ped.
    Opening and writing the file is not modelled. */
module Srt {
  import opened Subtitles
  import Timecode

  /** Python's `str.isspace` for one character. */
  predicate IsSpace(c: char) {
    c == ' ' || c == '\t' || c == '\n' || c == '\r' || c == '\U{0B}' || c == '\U{0C}'
    || ('\U{1C}' <= c <= '\U{1F}') || c == '\U{85}' || c == '\U{A0}' || c == '\U{1680}'
    || ('\U{2000}' <= c <= '\U{200A}') || c == '\U{2028}' || c == '\U{2029}'
    || c == '\U{202F}' || c == '\U{205F}' || c == '\U{3000}'
  }

  predicate AllSpace(s: string) {
    forall i :: 0 <= i < |s| ==> IsSpace(s[i])
  }

  /** Leading whitespace removed: what is left is a suffix of `s`, all that was
      cut is whitespace, and what is left does not start with whitespace. */
  function TrimStart(s: string): (r: string)
    ensures |r| <= |s| && r == s[|s| - |r|..]
    ensures AllSpace(s[..|s| - |r|])
    ensures r == [] || !IsSpace(r[0])
  {
    if s != [] && IsSpace(s[0]) then TrimStart(s[1..]) else s
  }

  /** Trailing whitespace removed: what is left is a prefix of `s`, all that was
      cut is whitespace, and what is left does not end with whitespace. */
  function TrimEnd(s: string): (r: string)
    ensures |r| <= |s| && r == s[..|r|]
    ensures AllSpace(s[|r|..])
    ensures r == [] || !IsSpace(r[|r| - 1])
  {
    if s != [] && IsSpace(s[|s| - 1]) then TrimEnd(s[..|s| - 1]) else s
  }

  /** Python's `str.strip()`. */
  function Strip(s: string): string {
    TrimEnd(TrimStart(s))
  }

  /** `r` is `s[lo..lo + |r|]` and everything of `s` around it is whitespace. */
  predicate Stretch(r: string, s: string, lo: int) {
    0 <= lo <= lo + |r| <= |s| && r == s[lo..lo + |r|]
    && AllSpace(s[..lo]) && AllSpace(s[lo + |r|..])
  }

  /** What strip promises: the result is a stretch of the input and
      everything cut from either end is whitespace ... */
  lemma StripSpec(s: string)
    ensures exists lo :: Stretch(Strip(s), s, lo)
  {
    var t := TrimStart(s);
    StripWitness(s, t, TrimEnd(t));
    assert Stretch(Strip(s), s, |s| - |t|);
  }

  /** ... and the result neither starts nor ends with whitespace. */
  lemma StripEnds(s: string)
    ensures var r := Strip(s); r == [] || (!IsSpace(r[0]) && !IsSpace(r[|r| - 1]))
  {
    var t := TrimStart(s);
    var r := TrimEnd(t);
    if r != [] {
      assert r[0] == t[0];
    }
  }

  /** The slice bookkeeping of StripSpec: a prefix of a suffix is a stretch. */
  lemma StripWitness(s: string, t: string, r: string)
    requires |t| <= |s| && t == s[|s| - |t|..] && AllSpace(s[..|s| - |t|])
    requires |r| <= |t| && r == t[..|r|] && AllSpace(t[|r|..])
    ensures Stretch(r, s, |s| - |t|)
  {
    var lo := |s| - |t|;
    assert s[lo + |r|..] == t[|r|..];
  }

  /** Removing trailing whitespace ignores any whitespace appended first. */
  lemma {:induction false} TrimEndSpaces(x: string, w: string)
    requires AllSpace(w)
    ensures TrimEnd(x + w) == TrimEnd(x)
    decreases |w|
  {
    if w != [] {
      assert (x + w)[..|x + w| - 1] == x + w[..|w| - 1];
      TrimEndSpaces(x, w[..|w| - 1]);
    } else {
      assert x + w == x;
    }
  }

  /** The index line of a block: the 1-based index and a space. */
  function IndexLine(index: nat): string {
    Timecode.Digits(index) + " \n"
  }

  /** The timing line of a block: `start --> end`. */
  function TimeLine(c: Timed): string {
    Timecode.FormatTime(c.start) + " --> " + Timecode.FormatTime(c.end) + "\n"
  }

  /** The timing line carries format_time as written: a chunk starting at
      59.9996 s gets a four-digit millisecond field. */
  lemma TimeLineAt59_9996(c: Timed)
    requires c.start == 59.9996
    ensures TimeLine(c)[..13] == "00:00:59,1000"
  {
    Timecode.FormatTimeAt59_9996();
    PrefixOfConcat(Timecode.FormatTime(c.start), " --> " + Timecode.FormatTime(c.end) + "\n");
  }

  lemma PrefixOfConcat(a: string, b: string)
    ensures (a + b)[..|a|] == a
  {
  }

  /** The text line of a block: the chunk's text and a space. */
  function TextLine(c: Timed): string {
    c.text + " \n"
  }

  /** One caption block: index line, timing line, text line, blank line. */
  function Block(index: nat, c: Timed): string {
    IndexLine(index) + TimeLine(c) + TextLine(c) + "\n"
  }

  /** The blocks of all chunks, numbered from 1, before stripping. */
  function Blocks(chunks: seq<Timed>): string {
    if chunks == [] then ""
    else Blocks(chunks[..|chunks| - 1]) + Block(|chunks|, chunks[|chunks| - 1])
  }

  /** The text Editor.create_srt_file writes, with its timing lines as
      format_time renders them. */
  function SrtText(chunks: seq<Timed>): string {
    Strip(Blocks(chunks))
  }

  lemma Assoc(t: string, a: string, b: string, c: string, d: string)
    ensures t + a + b + c + d == t + (a + b + c + d)
  {
  }

  /** The block text starts with the index of the first block, "1". */
  lemma {:induction false} BlocksStartWithOne(chunks: seq<Timed>)
    requires chunks != []
    ensures Blocks(chunks)[0] == '1'
    decreases |chunks|
  {
    var init := chunks[..|chunks| - 1];
    if init == [] {
      assert Timecode.Digits(1) == "1";
      assert Blocks(chunks) == Block(1, chunks[0]);
      assert Block(1, chunks[0])[0] == IndexLine(1)[0];
    } else {
      BlocksStartWithOne(init);
    }
  }

  /** The block text ends with the last chunk's text followed by " \n\n". */
  lemma BlocksLast(chunks: seq<Timed>)
    requires chunks != []
    ensures var n := |chunks|;
      Blocks(chunks) == Blocks(chunks[..n - 1]) + IndexLine(n) + TimeLine(chunks[n - 1]) + chunks[n - 1].text + " \n\n"
  {
    var n := |chunks|;
    var c := chunks[n - 1];
    var p := Blocks(chunks[..n - 1]) + IndexLine(n) + TimeLine(c);
    Assoc(Blocks(chunks[..n - 1]), IndexLine(n), TimeLine(c), TextLine(c), "\n");
    assert Blocks(chunks) == p + TextLine(c) + "\n";
    TailJoin(p, c.text);
  }

  lemma BlankTail()
    ensures AllSpace(" \n\n")
  {
    var w := " \n\n";
    assert w[0] == ' ' && w[1] == '\n' && w[2] == '\n';
  }

  lemma TailJoin(p: string, t: string)
    ensures p + (t + " \n") + "\n" == p + t + " \n\n"
  {
    assert " \n" + "\n" == " \n\n";
    assert (t + " \n") + "\n" == t + (" \n" + "\n");
    assert p + (t + " \n\n") == p + t + " \n\n";
  }

  /** The caption text is empty with no chunks; otherwise it is every block
      in order with only the last one cut short: the last block keeps its
      index line, its timecode line and its text, and then loses all trailing
      whitespace: the text's trailing space, the blank line, and whitespace
      the text ends with, which for an empty or all-whitespace text includes
      the timecode line's line break. */
  lemma SrtTextShape(chunks: seq<Timed>)
    ensures chunks == [] ==> SrtText(chunks) == ""
    ensures chunks != [] ==> var n := |chunks|;
      SrtText(chunks) == TrimEnd(Blocks(chunks[..n - 1]) + IndexLine(n) + TimeLine(chunks[n - 1]) + chunks[n - 1].text)
  {
    if chunks != [] {
      var n := |chunks|;
      var b := Blocks(chunks);
      BlocksStartWithOne(chunks);
      assert TrimStart(b) == b;
      var kept := Blocks(chunks[..n - 1]) + IndexLine(n) + TimeLine(chunks[n - 1]) + chunks[n - 1].text;
      BlocksLast(chunks);
      BlankTail();
      TrimEndSpaces(kept, " \n\n");
    }
  }

  /** With at least one chunk the caption text starts with the first index,
      "1", and ends with something other than whitespace. */
  lemma SrtTextEnds(chunks: seq<Timed>)
    requires chunks != []
    ensures var t := SrtText(chunks);
      t != [] && t[0] == '1' && !IsSpace(t[|t| - 1])
  {
    var b := Blocks(chunks);
    BlocksStartWithOne(chunks);
    assert TrimStart(b) == b;
    var t := TrimEnd(b);
    assert |t| > 0;
    assert t[0] == b[0];
  }

  /** One turn of the block loop appends block `index + 1`. */
  lemma BlockStep(chunks: seq<Timed>, index: nat, text: string)
    requires index < |chunks| && text == Blocks(chunks[..index])
    ensures text + IndexLine(index + 1) + TimeLine(chunks[index]) + TextLine(chunks[index]) + "\n"
      == Blocks(chunks[..index + 1])
  {
    var c := chunks[index];
    var prefix := chunks[..index + 1];
    assert prefix[..index] == chunks[..index] && prefix[index] == c;
    assert Blocks(prefix) == text + Block(index + 1, c);
    Assoc(text, IndexLine(index + 1), TimeLine(c), TextLine(c), "\n");
  }

  /** Editor.create_srt_file without the file: blocks appended in a loop, then stripped. */
  method CreateSrtText(chunks: seq<Timed>) returns (text: string)
    ensures text == SrtText(chunks)
  {
    text := "";
    var index := 0;
    while index < |chunks|
      invariant 0 <= index <= |chunks|
      invariant text == Blocks(chunks[..index])
    {
      var chunk := chunks[index];
      BlockStep(chunks, index, text);
      text := text + IndexLine(index + 1);
      text := text + TimeLine(chunk);
      text := text + TextLine(chunk);
      text := text + "\n";
      index := index + 1;
    }
    assert chunks[..index] == chunks;
    text := Strip(text);
  }
}
