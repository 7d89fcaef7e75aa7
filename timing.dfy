/** Timing of the image clips in Editor.create_video: each scene gets a share
    of the narration proportional to the length of its text, and the clips are
    laid out one after another, each later clip starting a third of its time
    before the clip before it ends. The clip rendering itself
    (zoom, position, composition, the cross-fade effect) is not modelled; only
    the durations and start times are. */
module Timing {
  datatype Result<T> = Ok(value: T) | Err(msg: string)

  function Min(a: int, b: int): int { if a <= b then a else b }

  /** Sum of reals, left to right as Python's `sum`. */
  function Sum(xs: seq<real>): real {
    if xs == [] then 0.0 else Sum(xs[..|xs| - 1]) + xs[|xs| - 1]
  }

  /** Sum of naturals. */
  function SumNat(xs: seq<nat>): nat {
    if xs == [] then 0 else SumNat(xs[..|xs| - 1]) + xs[|xs| - 1]
  }

  // ---------------------------------------------------------------------
  // Allocation: time_per_images
  // ---------------------------------------------------------------------

  /** `images_texts_length`: the length of each scene's text. */
  function TextLengths(scenes: seq<string>): (r: seq<nat>)
    ensures |r| == |scenes|
  {
    seq(|scenes|, i requires 0 <= i < |scenes| => |scenes[i]|)
  }

  /** `ratios`: each length divided by the total. */
  function Ratios(lengths: seq<nat>, total: nat): (r: seq<real>)
    requires total > 0
    ensures |r| == |lengths|
  {
    seq(|lengths|, i requires 0 <= i < |lengths| => lengths[i] as real / total as real)
  }

  /** `time_per_images`: the audio duration scaled by each ratio. */
  function Scaled(ratios: seq<real>, audio: real): (r: seq<real>)
    ensures |r| == |ratios|
  {
    seq(|ratios|, i requires 0 <= i < |ratios| => audio * ratios[i])
  }

  /** The time each scene's image is shown. With no scenes nothing is divided
      and the list is empty; with scenes whose texts are all empty the total
      is 0 and Python raises ZeroDivisionError. */
  function TimePerImages(scenes: seq<string>, audio: real): (r: Result<seq<real>>)
    ensures r.Ok? ==> |r.value| == |scenes|
  {
    var lengths := TextLengths(scenes);
    var total := SumNat(lengths);
    if scenes == [] then Ok([])
    else if total == 0 then Err("division by zero")
    else Ok(Scaled(Ratios(lengths, total), audio))
  }

  lemma {:induction false} SumNatZero(xs: seq<nat>)
    ensures SumNat(xs) == 0 <==> forall i :: 0 <= i < |xs| ==> xs[i] == 0
  {
    if xs != [] {
      SumNatZero(xs[..|xs| - 1]);
      assert forall i :: 0 <= i < |xs| - 1 ==> xs[..|xs| - 1][i] == xs[i];
    }
  }

  /** Allocation fails exactly when there is a scene and every scene's text is
      empty. */
  lemma TimePerImagesFails(scenes: seq<string>, audio: real)
    ensures TimePerImages(scenes, audio).Err?
      <==> scenes != [] && forall i :: 0 <= i < |scenes| ==> scenes[i] == ""
  {
    var lengths := TextLengths(scenes);
    SumNatZero(lengths);
    assert forall i :: 0 <= i < |scenes| ==> lengths[i] == |scenes[i]|;
  }

  lemma {:induction false} SumRatios(lengths: seq<nat>, total: nat)
    requires total > 0
    ensures Sum(Ratios(lengths, total)) == SumNat(lengths) as real / total as real
  {
    if lengths != [] {
      var n := |lengths|;
      assert Ratios(lengths, total)[..n - 1] == Ratios(lengths[..n - 1], total);
      SumRatios(lengths[..n - 1], total);
      var a := SumNat(lengths[..n - 1]) as real;
      var b := lengths[n - 1] as real;
      var t := total as real;
      assert a / t + b / t == (a + b) / t;
    }
  }

  lemma ScaledPrefix(ratios: seq<real>, audio: real, k: nat)
    requires k <= |ratios|
    ensures Scaled(ratios, audio)[..k] == Scaled(ratios[..k], audio)
  {
    var front := Scaled(ratios[..k], audio);
    assert forall i :: 0 <= i < k ==> Scaled(ratios, audio)[i] == audio * ratios[i] == front[i];
  }

  lemma RealDistribute(a: real, x: real, y: real)
    ensures a * x + a * y == a * (x + y)
  {
  }

  lemma {:induction false} SumScaled(ratios: seq<real>, audio: real)
    ensures Sum(Scaled(ratios, audio)) == audio * Sum(ratios)
  {
    if ratios != [] {
      var n := |ratios|;
      ScaledPrefix(ratios, audio, n - 1);
      SumScaled(ratios[..n - 1], audio);
      RealDistribute(audio, Sum(ratios[..n - 1]), ratios[n - 1]);
    }
  }

  /** The allocated times add up to the audio duration. */
  lemma TimePerImagesSum(scenes: seq<string>, audio: real)
    requires TimePerImages(scenes, audio).Ok? && scenes != []
    ensures Sum(TimePerImages(scenes, audio).value) == audio
  {
    var lengths := TextLengths(scenes);
    var total := SumNat(lengths);
    assert TimePerImages(scenes, audio).value == Scaled(Ratios(lengths, total), audio);
    SumRatios(lengths, total);
    SumScaled(Ratios(lengths, total), audio);
    Cancel(audio, 1.0, total as real);
  }

  lemma Cancel(a: real, x: real, t: real)
    requires t > 0.0
    ensures a * (x * t / t) == a * x
    ensures a * (x / t) * t == a * x
  {
    assert x * t / t == x;
    assert x / t * t == x;
  }

  lemma NonNegProduct(a: real, b: real)
    requires a >= 0.0 && b >= 0.0
    ensures a * b >= 0.0
  {
  }

  /** One time per scene, each proportional to its scene's text length (with
      the total length as the common divisor), and none negative when the
      audio duration is not. */
  lemma TimePerImagesShares(scenes: seq<string>, audio: real)
    requires TimePerImages(scenes, audio).Ok?
    ensures var times := TimePerImages(scenes, audio).value;
      var total := SumNat(TextLengths(scenes)) as real;
      |times| == |scenes|
      && (forall i :: 0 <= i < |times| ==> times[i] * total == audio * |scenes[i]| as real)
      && (audio >= 0.0 ==> forall i :: 0 <= i < |times| ==> times[i] >= 0.0)
  {
    var times := TimePerImages(scenes, audio).value;
    var total := SumNat(TextLengths(scenes)) as real;
    forall i | 0 <= i < |times|
      ensures times[i] * total == audio * |scenes[i]| as real
      ensures audio >= 0.0 ==> times[i] >= 0.0
    {
      ShareAt(scenes, audio, i);
    }
  }

  lemma ShareAt(scenes: seq<string>, audio: real, i: nat)
    requires TimePerImages(scenes, audio).Ok? && i < |scenes|
    ensures var times := TimePerImages(scenes, audio).value;
      var total := SumNat(TextLengths(scenes)) as real;
      i < |times| && times[i] * total == audio * |scenes[i]| as real
      && (audio >= 0.0 ==> times[i] >= 0.0)
  {
    var lengths := TextLengths(scenes);
    var total := SumNat(lengths);
    var ratios := Ratios(lengths, total);
    var times := Scaled(ratios, audio);
    assert TimePerImages(scenes, audio).value == times;
    var l := |scenes[i]| as real;
    var t := total as real;
    assert lengths[i] == |scenes[i]|;
    assert ratios[i] == l / t;
    assert times[i] == audio * (l / t);
    Cancel(audio, l, t);
    if audio >= 0.0 {
      NonNegProduct(audio, l / t);
    }
  }

  // ---------------------------------------------------------------------
  // Fetched images
  // ---------------------------------------------------------------------

  /** `image_files` after the sort: the indices of the images whose fetch
      succeeded (`ok[i]`), in increasing order. The order in which the fetches
      complete does not matter after the sort, so it is not an input. */
  function Fetched(ok: seq<bool>): seq<nat> {
    if ok == [] then []
    else Fetched(ok[..|ok| - 1]) + (if ok[|ok| - 1] then [|ok| - 1] else [])
  }

  predicate Increasing(xs: seq<nat>) {
    forall i, j :: 0 <= i < j < |xs| ==> xs[i] < xs[j]
  }

  /** An index is among the fetched ones exactly when its fetch succeeded. */
  lemma {:induction false} FetchedMembers(ok: seq<bool>)
    ensures forall i :: i in Fetched(ok) <==> 0 <= i < |ok| && ok[i]
  {
    if ok != [] {
      var n := |ok|;
      FetchedMembers(ok[..n - 1]);
      assert forall i :: 0 <= i < n - 1 ==> ok[..n - 1][i] == ok[i];
    }
  }

  /** The fetched indices are increasing, and an index is among them exactly
      when its fetch succeeded. */
  lemma {:induction false} FetchedSpec(ok: seq<bool>)
    ensures Increasing(Fetched(ok))
    ensures forall i :: i in Fetched(ok) <==> 0 <= i < |ok| && ok[i]
  {
    FetchedMembers(ok);
    if ok != [] {
      var n := |ok|;
      var init := Fetched(ok[..n - 1]);
      FetchedSpec(ok[..n - 1]);
      assert forall k :: 0 <= k < |init| ==> init[k] in init;
      assert forall k :: 0 <= k < |init| ==> init[k] < n - 1;
    }
  }

  /** When every fetch succeeds, the images are 0, 1, ..., n-1. */
  lemma {:induction false} FetchedAll(ok: seq<bool>)
    requires forall i :: 0 <= i < |ok| ==> ok[i]
    ensures |Fetched(ok)| == |ok|
    ensures forall k :: 0 <= k < |ok| ==> Fetched(ok)[k] == k
  {
    if ok != [] {
      FetchedAll(ok[..|ok| - 1]);
    }
  }

  // ---------------------------------------------------------------------
  // Clips
  // ---------------------------------------------------------------------

  /** A clip: the image index it shows, the time allotted to it, how long it
      lasts and whether the cross-fade-in effect is applied to it. */
  datatype Clip = Clip(image: nat, time: real, duration: real, crossfade: bool)

  /** Every image but image 0 is shown a third longer than its time, the extra
      third being the overlap with the clip before it. */
  function ClipDuration(image: nat, time: real): real {
    if image != 0 then time + time / 3.0 else time
  }

  /** The clip for the image with index `image`, given the number of fetched
      images: the cross-fade is applied when `0 < image < fetchedCount`. */
  function MakeClip(image: nat, time: real, fetchedCount: nat): Clip {
    Clip(image, time, ClipDuration(image, time), 0 < image < fetchedCount)
  }

  /** The clips zip builds: one per fetched image, paired position by
      position with the allocated times, as many as the shorter list. */
  function Clips(fetched: seq<nat>, times: seq<real>): (r: seq<Clip>)
    ensures |r| == Min(|fetched|, |times|)
  {
    var n := Min(|fetched|, |times|);
    seq(n, k requires 0 <= k < n => MakeClip(fetched[k], times[k], |fetched|))
  }

  /** The loop building `animated_clips`. */
  method AnimateClips(fetched: seq<nat>, times: seq<real>) returns (clips: seq<Clip>)
    ensures clips == Clips(fetched, times)
  {
    clips := [];
    var k := 0;
    while k < |fetched| && k < |times|
      invariant 0 <= k <= Min(|fetched|, |times|)
      invariant |clips| == k
      invariant forall j :: 0 <= j < k ==> clips[j] == MakeClip(fetched[j], times[j], |fetched|)
    {
      var clip := MakeClip(fetched[k], times[k], |fetched|);
      clips := clips + [clip];
      k := k + 1;
    }
  }

  /** The clip of an image other than the first lasts its fade time, a third
      of its allotted time, longer than that time; without the fade it lasts
      exactly its allotted time. */
  lemma ClipOverlap(image: nat, time: real, fetchedCount: nat)
    requires image != 0
    ensures MakeClip(image, time, fetchedCount).duration - time / 3.0 == time
  {
  }

  /** A failed fetch can leave a later clip without its cross-fade although it
      still overlaps the clip before it: the condition compares the image index
      with the number of fetched images. */
  lemma CrossfadeSkipped()
    ensures var clips := Clips(Fetched([true, false, true]), [3.0, 3.0, 3.0]);
      |clips| == 2 && clips[1].image == 2 && !clips[1].crossfade
      && clips[1].duration == 4.0
  {
    assert Fetched([true, false, true]) == [0, 2] by {
      assert [true, false, true][..2] == [true, false];
      assert [true, false] [..1] == [true];
      assert [true][..0] == [];
    }
  }

  // ---------------------------------------------------------------------
  // Timeline
  // ---------------------------------------------------------------------

  /** A clip with the time it starts at in the final composition. */
  datatype Placed = Placed(clip: Clip, start: real)

  /** The placed clips and the final value of `current_time`. */
  datatype Timeline = Timeline(placed: seq<Placed>, end: real)

  /** `current_time` after the first `k` clips are placed: the first clip's
      duration, then each further clip adds its duration less its fade. */
  function CurrentTime(clips: seq<Clip>, times: seq<real>, k: nat): real
    requires 1 <= k <= |clips| <= |times|
  {
    if k == 1 then clips[0].duration
    else CurrentTime(clips, times, k - 1) + clips[k - 1].duration - times[k - 1] / 3.0
  }

  /** Where clip `i` starts: the first at 0, every other one its fade time
      before the current time. */
  function StartTime(clips: seq<Clip>, times: seq<real>, i: nat): real
    requires i < |clips| <= |times|
  {
    if i == 0 then 0.0 else CurrentTime(clips, times, i) - times[i] / 3.0
  }

  /** The crossfade placement loop of Editor.create_video. With no clips the
      source raises "movie should contain images". */
  method AssembleTimeline(clips: seq<Clip>, times: seq<real>) returns (r: Result<Timeline>)
    requires |clips| <= |times|
    ensures r.Err? <==> clips == []
    ensures r.Ok? ==> (|r.value.placed| == |clips|
      && (forall i :: 0 <= i < |clips| ==> r.value.placed[i] == Placed(clips[i], StartTime(clips, times, i)))
      && r.value.end == CurrentTime(clips, times, |clips|))
  {
    if |clips| > 0 {
      var finalClips := [Placed(clips[0], 0.0)];
      var currentTime := clips[0].duration;
      var i := 1;
      while i < |clips|
        invariant 1 <= i <= |clips|
        invariant |finalClips| == i
        invariant forall j :: 0 <= j < i ==> finalClips[j] == Placed(clips[j], StartTime(clips, times, j))
        invariant currentTime == CurrentTime(clips, times, i)
      {
        var fade := times[i] / 3.0;
        finalClips := finalClips + [Placed(clips[i], currentTime - fade)];
        currentTime := currentTime + (clips[i].duration - fade);
        i := i + 1;
      }
      r := Ok(Timeline(finalClips, currentTime));
    } else {
      r := Err("movie should contain images");
    }
  }

  /** Each clip ends exactly where the current time stands once it is placed,
      so every later clip starts its fade time before the previous clip ends. */
  lemma ClipEnds(clips: seq<Clip>, times: seq<real>, i: nat)
    requires i < |clips| <= |times|
    ensures StartTime(clips, times, i) + clips[i].duration == CurrentTime(clips, times, i + 1)
    ensures i > 0 ==> (StartTime(clips, times, i - 1) + clips[i - 1].duration
      - StartTime(clips, times, i) == times[i] / 3.0)
  {
    if i > 0 {
      ClipEnds(clips, times, i - 1);
    }
  }

  /** A later clip starts no earlier than the clip before it exactly when its
      fade time is at most the previous clip's duration; a longer fade moves
      its start before the previous clip's start. */
  lemma StartAfterPrevious(clips: seq<Clip>, times: seq<real>, i: nat)
    requires 0 < i < |clips| <= |times|
    ensures StartTime(clips, times, i - 1) <= StartTime(clips, times, i)
      <==> times[i] / 3.0 <= clips[i - 1].duration
  {
    ClipEnds(clips, times, i);
  }

  /** Scene texts of 10 and 300 characters give times 1 and 30: the second
      clip starts at -9, before the first clip, and overlaps it by 1 second
      rather than by its fade time of 10. */
  lemma StartBeforePrevious()
    ensures var clips := Clips([0, 1], [1.0, 30.0]);
      |clips| == 2
      && StartTime(clips, [1.0, 30.0], 0) == 0.0
      && StartTime(clips, [1.0, 30.0], 1) == -9.0
  {
    var clips := Clips([0, 1], [1.0, 30.0]);
    assert clips[0].duration == 1.0;
    assert CurrentTime(clips, [1.0, 30.0], 1) == 1.0;
  }

  lemma {:induction false} SumFront(xs: seq<real>)
    requires xs != []
    ensures Sum(xs) == xs[0] + Sum(xs[1..])
  {
    var n := |xs|;
    if n > 1 {
      SumFront(xs[..n - 1]);
      assert xs[..n - 1][1..] == xs[1..][..n - 2];
    } else {
      assert xs[1..] == [];
    }
  }

  /** With the clips of images in increasing order, every clip after the
      first advances the current time by exactly its allotted time. */
  lemma {:induction false} CurrentTimeSum(fetched: seq<nat>, times: seq<real>, k: nat)
    requires Increasing(fetched)
    requires 1 <= k <= |Clips(fetched, times)|
    ensures CurrentTime(Clips(fetched, times), times, k) == Clips(fetched, times)[0].duration + Sum(times[1..k])
  {
    var clips := Clips(fetched, times);
    if k == 1 {
      assert times[1..1] == [];
    } else {
      CurrentTimeSum(fetched, times, k - 1);
      assert fetched[0] < fetched[k - 1];
      ClipOverlap(fetched[k - 1], times[k - 1], |fetched|);
      assert times[1..k][..k - 2] == times[1..k - 1];
    }
  }

  /** When image k is fetched for every time k, the final current time is
      the sum of all the times. */
  lemma TimelineSum(ok: seq<bool>, times: seq<real>)
    requires |ok| == |times| && times != []
    requires forall i :: 0 <= i < |ok| ==> ok[i]
    ensures var clips := Clips(Fetched(ok), times);
      |clips| == |times| && CurrentTime(clips, times, |clips|) == Sum(times)
  {
    FetchedAll(ok);
    FetchedSpec(ok);
    var fetched := Fetched(ok);
    var clips := Clips(fetched, times);
    CurrentTimeSum(fetched, times, |clips|);
    SumFront(times);
    assert times[1..|clips|] == times[1..];
    assert clips[0] == MakeClip(0, times[0], |fetched|);
  }

  /** When every image is fetched and there is one image per scene, the
      timeline ends exactly at the end of the narration: the final current
      time equals the audio duration. */
  lemma TimelineMatchesAudio(scenes: seq<string>, ok: seq<bool>, audio: real)
    requires TimePerImages(scenes, audio).Ok? && scenes != []
    requires |ok| == |scenes| && forall i :: 0 <= i < |ok| ==> ok[i]
    ensures var times := TimePerImages(scenes, audio).value;
      var clips := Clips(Fetched(ok), times);
      |clips| == |scenes| && CurrentTime(clips, times, |clips|) == audio
  {
    var times := TimePerImages(scenes, audio).value;
    assert |times| == |scenes|;
    TimelineSum(ok, times);
    TimePerImagesSum(scenes, audio);
  }

  /** With images in increasing order and no negative time, the current time
      never goes back, so the last clip is the last to end: the composed video
      lasts exactly the final current time. */
  lemma TimelineLastEnds(fetched: seq<nat>, times: seq<real>, i: nat)
    requires Increasing(fetched)
    requires forall k :: 0 <= k < |times| ==> times[k] >= 0.0
    requires i < |Clips(fetched, times)|
    ensures var clips := Clips(fetched, times);
      StartTime(clips, times, i) + clips[i].duration <= CurrentTime(clips, times, |clips|)
  {
    var clips := Clips(fetched, times);
    ClipEnds(clips, times, i);
    CurrentTimeMonotone(fetched, times, i + 1, |clips|);
  }

  lemma {:induction false} CurrentTimeMonotone(fetched: seq<nat>, times: seq<real>, j: nat, k: nat)
    requires Increasing(fetched)
    requires forall m :: 0 <= m < |times| ==> times[m] >= 0.0
    requires 1 <= j <= k <= |Clips(fetched, times)|
    ensures CurrentTime(Clips(fetched, times), times, j) <= CurrentTime(Clips(fetched, times), times, k)
    decreases k - j
  {
    if j < k {
      CurrentTimeMonotone(fetched, times, j, k - 1);
      assert fetched[0] < fetched[k - 1];
      ClipOverlap(fetched[k - 1], times[k - 1], |fetched|);
    }
  }
}
