/**
 What `queue_samples` does to its data once it holds the mutex and is ready: the
 interpolation history, the bounded backlog and the fade-in. Samples are reals; SDL's
 conversion may return anything that fits its buffer.
 */
module AudioStream {
  import Arith
  import opened AudioLifecycle
  import opened Common

  const CHANNELS: nat := 2
  const HISTORY_LEN: nat := 8
  const HISTORY_FRAMES: nat := 4
  const FRAME_BYTES: nat := 8
  const FLOAT_BYTES: nat := 4
  const MAX_QUEUE_MS: nat := 100
  const FADE_MS: nat := 10

  // ---- What the stream is to contain

  /** Samples as they are queued: the two channels of every frame exchanged, and scaled. */
  function Swapped(samples: seq<int>, gain: real): (s: seq<real>)
    requires |samples| % CHANNELS == 0
    ensures |s| == |samples|
  {
    seq(|samples|, i requires 0 <= i < |samples| =>
      Times((if i % 2 == 0 then samples[i + 1] else samples[i - 1]) as real, gain))
  }

  function Times(x: real, factor: real): real {
    x * factor
  }

  /** The volume clamped to 0..1, or 0 when it is no number, times 0.5 / 32768. */
  function Gain(volume: Option<real>): real {
    (if volume.None? then 0.0 else if volume.value < 0.0 then 0.0 else if volume.value > 1.0 then 1.0 else volume.value)
    * (0.5 / 32768.0)
  }

  /** The last eight samples. */
  function Tail(s: seq<real>): (t: seq<real>)
    requires |s| >= HISTORY_LEN
    ensures |t| == HISTORY_LEN
  {
    s[|s| - HISTORY_LEN..]
  }

  function Silence(): (s: seq<real>)
    ensures |s| == HISTORY_LEN && forall i :: 0 <= i < |s| ==> s[i] == 0.0
  {
    seq(HISTORY_LEN, _ => 0.0)
  }

  function FadeTotal(rate: nat): nat {
    rate * FADE_MS / 1000
  }

  function MaxFrames(rate: nat): nat {
    rate * MAX_QUEUE_MS / 1000
  }

  /** Frame `j` since the last reset is scaled by `j / total`, and from `total` on not at all. */
  function FadeFactor(j: nat, total: nat): real {
    if j < total then j as real / total as real else 1.0
  }

  /** Interleaved samples, the first of them belonging to frame `j` since the last reset. */
  function Faded(s: seq<real>, j: nat, total: nat): (t: seq<real>)
    ensures |t| == |s| && forall i :: 0 <= i < |s| ==> t[i] == Scaled(s[i], j + i / CHANNELS, total)
  {
    seq(|s|, i requires 0 <= i < |s| => Scaled(s[i], j + i / CHANNELS, total))
  }

  function Scaled(x: real, j: nat, total: nat): real {
    Times(x, FadeFactor(j, total))
  }

  // ---- Independence of chunking

  function Flatten<T>(chunks: seq<seq<T>>): seq<T> {
    if chunks == [] then [] else Flatten(chunks[..|chunks| - 1]) + chunks[|chunks| - 1]
  }

  /** The fade over two stretches is the fade over their concatenation. */
  lemma FadedAppend(a: seq<real>, b: seq<real>, j: nat, total: nat)
    requires |a| % CHANNELS == 0
    ensures Faded(a + b, j, total) == Faded(a, j, total) + Faded(b, j + |a| / CHANNELS, total)
  {
    hide Scaled;
    var l, r := Faded(a + b, j, total), Faded(a, j, total) + Faded(b, j + |a| / CHANNELS, total);
    forall i | 0 <= i < |l|
      ensures l[i] == r[i]
    {
      if i >= |a| {
        HalfOfSum(|a|, i - |a|);
      }
    }
  }

  lemma HalfOfSum(a: nat, b: nat)
    requires a % CHANNELS == 0
    ensures a / CHANNELS + b / CHANNELS == (a + b) / CHANNELS
  {
  }

  /** Fading chunk by chunk, each from where the last one ended. */
  function FadedChunks(chunks: seq<seq<real>>, total: nat): seq<real> {
    if chunks == [] then []
    else
      var before := chunks[..|chunks| - 1];
      FadedChunks(before, total) + Faded(chunks[|chunks| - 1], |Flatten(before)| / CHANNELS, total)
  }

  ghost predicate WholeFrames(chunks: seq<seq<real>>) {
    forall c :: 0 <= c < |chunks| ==> |chunks[c]| % CHANNELS == 0
  }

  lemma {:induction false} FlattenWhole(chunks: seq<seq<real>>)
    requires WholeFrames(chunks)
    ensures |Flatten(chunks)| % CHANNELS == 0
  {
    if chunks == [] {
    } else {
      FlattenWhole(chunks[..|chunks| - 1]);
    }
  }

  lemma FadedNothing(total: nat)
    ensures Faded([], 0, total) == []
  {
  }

  /** In frame `j` a sample is scaled by `j / total`, and from frame `total` on not at all. */
  predicate IsFaded(y: real, x: real, j: nat, total: nat) {
    if j < total then y * total as real == x * j as real else y == x
  }

  lemma ScaledIsFaded(x: real, j: nat, total: nat)
    ensures IsFaded(Scaled(x, j, total), x, j, total)
  {
  }

  /** However the frames since a reset are split into calls, they fade as one stretch. */
  lemma {:induction false} FadeIndependentOfChunks(chunks: seq<seq<real>>, total: nat)
    requires WholeFrames(chunks)
    ensures FadedChunks(chunks, total) == Faded(Flatten(chunks), 0, total)
  {
    hide Faded;
    if chunks == [] {
      FadedNothing(total);
    } else {
      var before, last := chunks[..|chunks| - 1], chunks[|chunks| - 1];
      FadeIndependentOfChunks(before, total);
      FlattenWhole(before);
      FadedAppend(Flatten(before), last, 0, total);
    }
  }

  /** So each sample is scaled by its frame's place since the reset, whatever chunk it came in. */
  lemma FadesByFrame(chunks: seq<seq<real>>, total: nat, i: nat)
    requires WholeFrames(chunks) && i < |Flatten(chunks)|
    ensures |FadedChunks(chunks, total)| == |Flatten(chunks)|
    ensures IsFaded(FadedChunks(chunks, total)[i], Flatten(chunks)[i], i / 2, total)
  {
    FadeIndependentOfChunks(chunks, total);
    ScaledIsFaded(Flatten(chunks)[i], i / CHANNELS, total);
    hide Flatten, FadedChunks, Scaled, IsFaded;
  }

  /** The history after each chunk is the tail of the old history and the chunk. */
  function HistoryAfter(chunks: seq<seq<real>>): (h: seq<real>)
    ensures |h| == HISTORY_LEN
  {
    if chunks == [] then Silence() else Tail(HistoryAfter(chunks[..|chunks| - 1]) + chunks[|chunks| - 1])
  }

  lemma TailOfTail(h: seq<real>, s: seq<real>, chunk: seq<real>)
    requires |s| >= HISTORY_LEN && h == Tail(s)
    ensures Tail(h + chunk) == Tail(s + chunk)
  {
  }

  /** However short the chunks, the history is the last eight samples of silence and everything since. */
  lemma {:induction false} HistoryIndependentOfChunks(chunks: seq<seq<real>>)
    ensures HistoryAfter(chunks) == Tail(Silence() + Flatten(chunks))
    ensures var all := Silence() + Flatten(chunks);
      forall k :: 0 <= k < 8 ==> HistoryAfter(chunks)[k] == all[|all| - 8 + k]
  {
    if chunks == [] {
      assert Silence() + Flatten(chunks) == Silence();
    } else {
      var before, last := chunks[..|chunks| - 1], chunks[|chunks| - 1];
      HistoryIndependentOfChunks(before);
      TailOfTail(HistoryAfter(before), Silence() + Flatten(before), last);
      assert Silence() + Flatten(before) + last == Silence() + Flatten(chunks);
    }
  }

  // ---- The stream

  /**
   The outcome of `SDL_ConvertAudio`: failure, or the buffer with the number of bytes
   converted at its front.
   */
  datatype Conversion = Failed | Converted(contents: seq<real>, bytes: nat)

  /** Samples that `queue_samples` does not turn away: whole frames, some, and not too many. */
  predicate Takes(samples: Option<seq<int>>) {
    samples.Some? && 0 < |samples.value| <= 192000 && |samples.value| % CHANNELS == 0
  }

  /** A conversion returns the whole buffer, and reports no more bytes than it holds. */
  predicate Fits(conversion: Conversion, count: nat, lenMult: nat) {
    conversion.Converted? ==>
      && |conversion.contents| == (count + HISTORY_LEN) * (if lenMult < 1 then 1 else lenMult)
      && conversion.bytes <= |conversion.contents| * FLOAT_BYTES
  }

  function ConvertedFrames(conversion: Conversion): nat {
    if conversion.Failed? then 0 else conversion.bytes / FRAME_BYTES
  }

  /** A frame is eight bytes; an incomplete one does not count. */
  lemma FramesConverted(contents: seq<real>, bytes: nat)
    ensures var n := ConvertedFrames(Converted(contents, bytes)); 8 * n <= bytes < 8 * (n + 1)
  {
  }

  /** Any number of frames up to 96000 is taken, and nothing else. */
  lemma TakesWholeFrames(samples: seq<int>)
    ensures Takes(Some(samples)) <==> exists frames: nat :: 1 <= frames <= 96000 && |samples| == 2 * frames
    ensures !Takes(None)
  {
    if |samples| % 2 == 0 {
      assert |samples| == 2 * (|samples| / 2);
    }
  }

  /** Whether the backlog is dropped, and which converted frames are queued. */
  datatype Plan = Plan(reset: bool, first: nat, frames: nat)

  /**
   Half of the discarded frames go at the front. A backlog that would grow beyond the
   limit is dropped whole, and of a chunk beyond the limit only the end is kept.
   */
  function PlanFor(queuedFrames: nat, converted: nat, discard: nat, max: nat): Plan
    requires converted > discard
  {
    var frames := converted - discard;
    if queuedFrames + frames <= max then Plan(false, discard / 2, frames)
    else if frames <= max then Plan(true, discard / 2, frames)
    else Plan(true, discard / 2 + (frames - max), max)
  }

  /**
   The queued slice lies inside the converted frames and the device queue stays within its
   limit; the slice is as long as the limit allows, and what is cut off is cut at the front,
   so that half of the discarded frames always remain behind it.
   */
  lemma PlanFits(queuedFrames: nat, converted: nat, discard: nat, max: nat)
    requires converted > discard
    ensures var plan := PlanFor(queuedFrames, converted, discard, max);
      && plan.first + plan.frames <= converted
      && (if plan.reset then 0 else queuedFrames) + plan.frames <= max
      && (plan.reset <==> queuedFrames + (converted - discard) > max)
      && plan.frames == Min(converted - discard, max)
      && converted - (plan.first + plan.frames) == (discard + 1) / 2
      && (converted - discard <= max ==> plan.first == discard / 2)
  {
  }

  /** Once the fade is over, where exactly it ended does not matter. */
  lemma FadedPast(s: seq<real>, j: nat, j': nat, total: nat)
    requires j == j' || (j >= total && j' >= total)
    ensures Faded(s, j, total) == Faded(s, j', total)
  {
    if j != j' {
      forall i | 0 <= i < |s|
        ensures Scaled(s[i], j + i / CHANNELS, total) == Scaled(s[i], j' + i / CHANNELS, total)
      {
        FullVolume(s[i], j + i / CHANNELS, total);
        FullVolume(s[i], j' + i / CHANNELS, total);
      }
    }
    hide Scaled;
  }

  lemma ScaledBy(x: real, j: nat, total: nat, fade: real)
    requires j < total && fade == j as real / total as real
    ensures Times(x, fade) == Scaled(x, j, total)
  {
  }

  lemma FullVolume(x: real, j: nat, total: nat)
    requires j >= total
    ensures Scaled(x, j, total) == x
  {
  }

  /** The samples of the planned frames. */
  function SliceOf(contents: seq<real>, plan: Plan): (s: seq<real>)
    requires (plan.first + plan.frames) * CHANNELS <= |contents|
    ensures |s| == plan.frames * CHANNELS
  {
    contents[plan.first * CHANNELS..(plan.first + plan.frames) * CHANNELS]
  }

  /** The queue holds 100 ms and the fade lasts 10 ms. */
  lemma Durations(rate: nat)
    ensures MaxFrames(rate) == rate / 10 && FadeTotal(rate) == rate / 100
  {
  }

  /** The samples of a frame change places and are scaled alike. */
  lemma FramesAreSwapped(samples: seq<int>, gain: real, frame: nat)
    requires |samples| % CHANNELS == 0 && 2 * frame + 1 < |samples|
    ensures Swapped(samples, gain)[2 * frame] == samples[2 * frame + 1] as real * gain
    ensures Swapped(samples, gain)[2 * frame + 1] == samples[2 * frame] as real * gain
  {
  }

  /** Full volume brings 16-bit samples to half of the float range; below 0 and without a number there is silence. */
  lemma GainScales(volume: Option<real>)
    ensures volume.None? || volume.value <= 0.0 ==> Gain(volume) == 0.0
    ensures volume.Some? && 0.0 <= volume.value <= 1.0 ==> Gain(volume) * 32768.0 == volume.value * 0.5
    ensures volume.Some? && volume.value >= 1.0 ==> Gain(volume) * 32768.0 == 0.5
  {
  }

  lemma QueueGrows(a: nat, b: nat)
    requires a % CHANNELS == 0
    ensures (a + b * CHANNELS) % CHANNELS == 0 && (a + b * CHANNELS) / CHANNELS == a / CHANNELS + b
  {
  }

  lemma BytesAreFrames(n: nat)
    requires n % CHANNELS == 0
    ensures n * FLOAT_BYTES % FRAME_BYTES == 0 && n * FLOAT_BYTES / FRAME_BYTES == n / CHANNELS
  {
  }

  /** What is left of the fade, and all frames since the last reset before and after it. */
  ghost predicate FadeOk(remaining: nat, raw: seq<real>, submitted: seq<real>, total: nat) {
    && |raw| % CHANNELS == 0
    && remaining == (if |raw| / CHANNELS < total then total - |raw| / CHANNELS else 0)
    && submitted == Faded(raw, 0, total)
  }

  /** A further slice, faded from where the last one ended, continues the one fade. */
  lemma FadeContinues(remaining: nat, raw: seq<real>, submitted: seq<real>, total: nat, slice: seq<real>,
                      frames: nat)
    requires FadeOk(remaining, raw, submitted, total) && |slice| == frames * CHANNELS
    ensures FadeOk(if frames < remaining then remaining - frames else 0, raw + slice,
           submitted + Faded(slice, total - remaining, total), total)
    ensures remaining <= total && Faded(slice, total - remaining, total) == Faded(slice, |raw| / CHANNELS, total)
  {
    hide Faded;
    FadedPast(slice, total - remaining, |raw| / CHANNELS, total);
    FadedAppend(raw, slice, 0, total);
    HalfOfSum(|raw|, |slice|);
  }

  /** What a slice adds to the device queue after `sent` samples since the last reset; nothing if it is refused. */
  function Heard(slice: seq<real>, sent: nat, rate: nat, accepted: bool): seq<real> {
    if accepted then Faded(slice, sent / CHANNELS, FadeTotal(rate)) else []
  }

  class Stream {
    var inputRate: nat
    var outputRate: nat
    var discardFrames: nat
    var fadeRemaining: nat
    /** The pause word that the last reset has seen. */
    var appliedWord: nat
    const history: array<real>
    /** The device queue, as interleaved samples. */
    var queued: seq<real>
    /** All scaled inputs since the history was last zeroed. */
    ghost var inputs: seq<real>
    /** The frames handed to the device queue since the last reset: before and after fading. */
    ghost var raw: seq<real>
    ghost var submitted: seq<real>

    ghost predicate RatesOk()
      reads this`inputRate, this`outputRate, this`discardFrames
    {
      && 8000 <= inputRate <= 192000 && 8000 <= outputRate <= 192000
      && discardFrames == HISTORY_FRAMES * outputRate / inputRate
    }

    /** The history is the end of everything since it was last silent. */
    ghost predicate HistoryOk()
      reads this`inputs, history
    {
      history.Length == HISTORY_LEN && history[..] == Tail(Silence() + inputs)
    }

    /** The device queue is whole frames, and no more than 100 ms of them. */
    ghost predicate QueueOk()
      reads this`queued, this`outputRate
    {
      |queued| % CHANNELS == 0 && |queued| / CHANNELS <= MaxFrames(outputRate)
    }

    ghost predicate Valid()
      reads this, history
    {
      RatesOk() && HistoryOk() && QueueOk() && FadeOk(fadeRemaining, raw, submitted, FadeTotal(outputRate))
    }

    /** The state `open` leaves at `rate` before the first sample: empty queue, silence, full fade ahead. */
    constructor (input: nat, rate: nat, word: nat)
      requires 8000 <= input <= 192000 && 8000 <= rate <= 192000
      ensures Valid() && fresh(history) && outputRate == rate && inputRate == input && appliedWord == word
      ensures queued == [] && inputs == [] && raw == [] && discardFrames == 4 * rate / input
    {
      inputRate, outputRate := input, rate;
      discardFrames := HISTORY_FRAMES * rate / input;
      history := new real[HISTORY_LEN](_ => 0.0);
      queued, inputs, raw, submitted := [], [], [], [];
      fadeRemaining := rate * FADE_MS / 1000;
      appliedWord := word;
      new;
      assert history[..] == Silence() && Silence() + inputs == Silence();
    }

    /** The device takes whole frames from the front. */
    method Drain(frames: nat)
      requires Valid() && frames * CHANNELS <= |queued|
      modifies this`queued
      ensures Valid() && queued == old(queued)[frames * CHANNELS..]
    {
      hide FadeOk, MaxFrames, HistoryOk;
      queued := queued[frames * CHANNELS..];
    }

    method FillHistory()
      requires history.Length == HISTORY_LEN
      modifies history
      ensures history[..] == Silence()
    {
      for i := 0 to HISTORY_LEN
        invariant forall j :: 0 <= j < i ==> history[j] == 0.0
      {
        history[i] := 0.0;
      }
    }

    /** `reset_queue`: nothing queued, silence behind, the whole fade ahead. */
    method ResetQueue()
      requires Valid()
      modifies this`queued, this`fadeRemaining, this`inputs, this`raw, this`submitted, history
      ensures Valid() && queued == [] && inputs == [] && raw == []
      ensures fadeRemaining == FadeTotal(outputRate)
    {
      queued := [];
      FillHistory();
      fadeRemaining := outputRate * FADE_MS / 1000;
      inputs, raw, submitted := [], [], [];
      assert Silence() + inputs == Silence();
    }

    /** `service`: `entry` and `word` are the pause words read before and under the mutex. */
    method Service(entry: nat, word: nat)
      requires Valid()
      modifies this`queued, this`fadeRemaining, this`inputs, this`raw, this`submitted, this`appliedWord, history
      ensures Valid()
      ensures if Paused(entry) || Paused(word) || word == old(appliedWord)
              then queued == old(queued) && fadeRemaining == old(fadeRemaining) && inputs == old(inputs)
                   && raw == old(raw) && appliedWord == old(appliedWord) && history[..] == old(history[..])
              else queued == [] && inputs == [] && raw == [] && fadeRemaining == FadeTotal(outputRate)
      ensures !Paused(entry) && !Paused(word) ==> Passes(word, appliedWord)
    {
      if Paused(entry) {
        return;
      }
      if Paused(word) || word == appliedWord {
        return;
      }
      ResetQueue();
      appliedWord := word;
    }

    /** `set_frequency`: a new input rate means a new converter, if SDL builds one, and a silent history. */
    method SetFrequency(frequency: nat, built: bool)
      requires Valid()
      modifies this`inputRate, this`discardFrames, this`inputs, history
      ensures Valid()
      ensures if frequency < 8000 || frequency > 192000 || frequency == old(inputRate) || !built
              then inputRate == old(inputRate) && inputs == old(inputs) && history[..] == old(history[..])
              else inputRate == frequency && inputs == [] && discardFrames == 4 * outputRate / frequency
    {
      if frequency < 8000 || frequency > 192000 || frequency == inputRate {
        return;
      }
      if !built {
        return;
      }
      inputRate := frequency;
      discardFrames := HISTORY_FRAMES * outputRate / inputRate;
      FillHistory();
      inputs := [];
      assert Silence() + inputs == Silence();
    }

    /** The buffer to convert: the history, then the channel-swapped, scaled samples. */
    method FillBuffer(samples: seq<int>, gain: real, length: nat) returns (buffer: array<real>)
      requires history.Length == HISTORY_LEN && |samples| % CHANNELS == 0 && |samples| + HISTORY_LEN <= length
      ensures fresh(buffer) && buffer.Length == length
      ensures buffer[..|samples| + HISTORY_LEN] == history[..] + Swapped(samples, gain)
    {
      hide Times;
      var count := |samples|;
      buffer := new real[length];
      ghost var swapped := Swapped(samples, gain);
      for i := 0 to HISTORY_LEN
        invariant forall j :: 0 <= j < i ==> buffer[j] == history[j]
      {
        buffer[i] := history[i];
      }
      var i := 0;
      while i < count
        invariant i <= count && i % CHANNELS == 0
        invariant forall j :: 0 <= j < HISTORY_LEN ==> buffer[j] == history[j]
        invariant forall j :: HISTORY_LEN <= j < HISTORY_LEN + i ==> buffer[j] == swapped[j - HISTORY_LEN]
      {
        buffer[HISTORY_LEN + i] := Times(samples[i + 1] as real, gain);
        buffer[HISTORY_LEN + i + 1] := Times(samples[i] as real, gain);
        i := i + CHANNELS;
      }
    }

    /** The history update, for chunks longer and shorter than the history. */
    method KeepTail(buffer: array<real>, count: nat, ghost swapped: seq<real>)
      requires history.Length == HISTORY_LEN && buffer != history && count + HISTORY_LEN <= buffer.Length
      requires buffer[..count + HISTORY_LEN] == history[..] + swapped && |swapped| == count
      modifies history
      ensures history[..] == Tail(old(history[..]) + swapped)
    {
      ghost var whole := history[..] + swapped;
      for k := 0 to HISTORY_LEN
        invariant forall j :: 0 <= j < k ==> history[j] == whole[count + j]
        invariant buffer[..count + HISTORY_LEN] == whole
      {
        assert buffer[count + k] == buffer[..count + HISTORY_LEN][count + k];
        history[k] := buffer[count + k];
      }
    }

    /** The buffer to convert, and the new history. */
    method Prepare(samples: seq<int>, gain: real, lenMult: nat) returns (buffer: array<real>)
      requires Valid() && |samples| % CHANNELS == 0
      modifies this`inputs, history
      ensures Valid() && inputs == old(inputs) + Swapped(samples, gain)
      ensures fresh(buffer) && buffer.Length == (|samples| + HISTORY_LEN) * if lenMult < 1 then 1 else lenMult
      ensures |samples| + HISTORY_LEN <= buffer.Length
      ensures buffer[..|samples| + HISTORY_LEN] == old(history[..]) + Swapped(samples, gain)
    {
      hide Tail, Silence, Swapped, Faded, FadeTotal, MaxFrames;
      ghost var swapped, behind := Swapped(samples, gain), history[..];
      var total, mult := |samples| + HISTORY_LEN, if lenMult < 1 then 1 else lenMult;
      Arith.MulMonotone(1, mult, total);
      buffer := FillBuffer(samples, gain, total * mult);
      KeepTail(buffer, |samples|, swapped);
      TailOfTail(behind, Silence() + inputs, swapped);
      assert Silence() + inputs + swapped == Silence() + (inputs + swapped);
      inputs := inputs + swapped;
    }

    /** The fade over the first `frames` frames of the slice at `output`, in place. */
    method Fade(buffer: array<real>, output: nat, frames: nat, fadeTotal: nat)
      requires output + frames * CHANNELS <= buffer.Length
      requires fadeRemaining <= fadeTotal && buffer != history
      modifies buffer, this`fadeRemaining
      ensures var j := fadeTotal - old(fadeRemaining);
        && buffer[output..output + frames * CHANNELS]
           == Faded(old(buffer[output..output + frames * CHANNELS]), j, fadeTotal)
        && fadeRemaining == (if frames < old(fadeRemaining) then old(fadeRemaining) - frames else 0)
    {
      hide Scaled, Times;
      ghost var before, j := buffer[output..output + frames * CHANNELS], fadeTotal - fadeRemaining;
      var fadeFrames := if frames < fadeRemaining then frames else fadeRemaining;
      for i := 0 to fadeFrames
        invariant fadeRemaining == old(fadeRemaining)
        invariant forall m :: 0 <= m < i * CHANNELS ==>
          buffer[output + m] == Scaled(before[m], j + m / CHANNELS, fadeTotal)
        invariant forall m :: i * CHANNELS <= m < frames * CHANNELS ==> buffer[output + m] == before[m]
      {
        var fade := (fadeTotal - fadeRemaining + i) as real / fadeTotal as real;
        ScaleFrame(buffer, output + i * CHANNELS, fade);
        ScaledBy(before[i * CHANNELS], j + i, fadeTotal, fade);
        ScaledBy(before[i * CHANNELS + 1], j + i, fadeTotal, fade);
      }
      forall m | fadeFrames * CHANNELS <= m < frames * CHANNELS
        ensures buffer[output + m] == Scaled(before[m], j + m / CHANNELS, fadeTotal)
      {
        FullVolume(before[m], j + m / CHANNELS, fadeTotal);
      }
      assert buffer[output..output + frames * CHANNELS] == Faded(before, j, fadeTotal);
      fadeRemaining := fadeRemaining - fadeFrames;
    }

    method ScaleFrame(buffer: array<real>, at: nat, fade: real)
      requires at + CHANNELS <= buffer.Length
      modifies buffer
      ensures buffer[at] == Times(old(buffer[at]), fade) && buffer[at + 1] == Times(old(buffer[at + 1]), fade)
      ensures forall k :: 0 <= k < buffer.Length && k != at && k != at + 1 ==> buffer[k] == old(buffer[k])
    {
      buffer[at] := buffer[at] * fade;
      buffer[at + 1] := buffer[at + 1] * fade;
    }

    /** Fades the slice at `output` and hands it to the device queue. */
    method Submit(buffer: array<real>, output: nat, frames: nat, accepted: bool, ghost slice: seq<real>)
      requires Valid() && buffer != history && output + frames * CHANNELS <= buffer.Length
      requires buffer[output..output + frames * CHANNELS] == slice
      requires |queued| / CHANNELS + frames <= MaxFrames(outputRate)
      modifies this`queued, this`fadeRemaining, this`raw, this`submitted, buffer
      ensures Valid() && raw == old(raw) + slice
      ensures queued == old(queued) + Heard(slice, |old(raw)|, outputRate, accepted)
    {
      hide Faded, FadeOk, MaxFrames, RatesOk, HistoryOk;
      var fadeTotal := outputRate * FADE_MS / 1000;
      assert fadeTotal == FadeTotal(outputRate);
      hide FadeTotal;
      FadeContinues(fadeRemaining, raw, submitted, fadeTotal, slice, frames);
      QueueGrows(|queued|, frames);
      ghost var faded := Faded(slice, |raw| / CHANNELS, fadeTotal);
      Fade(buffer, output, frames, fadeTotal);
      raw, submitted := raw + slice, submitted + faded;
      if accepted {
        queued := queued + buffer[output..output + frames * CHANNELS];
      }
    }

    /** The second half of `queue_samples`: `converted` frames stand at the front of the buffer. */
    method QueueConverted(buffer: array<real>, converted: nat, accepted: bool, ghost contents: seq<real>)
      requires Valid() && buffer != history && buffer[..] == contents
      requires converted > discardFrames && converted * CHANNELS <= |contents|
      modifies this`queued, this`fadeRemaining, this`inputs, this`raw, this`submitted, history, buffer
      ensures Valid()
      ensures var plan := PlanFor(|old(queued)| / CHANNELS, converted, discardFrames, MaxFrames(outputRate));
        && plan.first + plan.frames <= converted
        && raw == (if plan.reset then [] else old(raw)) + SliceOf(contents, plan)
        && queued == (if plan.reset then [] else old(queued)) +
             Heard(SliceOf(contents, plan), |if plan.reset then [] else old(raw)|, outputRate, accepted)
        && inputs == if plan.reset then [] else old(inputs)
    {
      ghost var plan := PlanFor(|queued| / CHANNELS, converted, discardFrames, MaxFrames(outputRate));
      PlanFits(|queued| / CHANNELS, converted, discardFrames, MaxFrames(outputRate));
      hide Valid, MaxFrames, Faded, FadeTotal, PlanFor;
      var output, frames := MakeRoom(converted);
      assert buffer[output..output + frames * CHANNELS] == contents[output..output + frames * CHANNELS];
      Submit(buffer, output, frames, accepted, SliceOf(contents, plan));
    }

    /** Drops the backlog if it would grow too large, and picks the slice to queue. */
    method MakeRoom(converted: nat) returns (output: nat, frames: nat)
      requires Valid() && converted > discardFrames
      modifies this`queued, this`fadeRemaining, this`inputs, this`raw, this`submitted, history
      ensures Valid()
      ensures var plan := PlanFor(|old(queued)| / CHANNELS, converted, discardFrames, MaxFrames(outputRate));
        && output == plan.first * CHANNELS && frames == plan.frames
        && queued == (if plan.reset then [] else old(queued))
        && raw == (if plan.reset then [] else old(raw))
        && inputs == if plan.reset then [] else old(inputs)
    {
      frames := converted - discardFrames;
      output := discardFrames / 2 * CHANNELS;
      var maxFrames := outputRate * MAX_QUEUE_MS / 1000;
      var queuedBytes := |queued| * FLOAT_BYTES;
      BytesAreFrames(|queued|);
      assert maxFrames == MaxFrames(outputRate);
      hide Valid, MaxFrames, Faded, FadeTotal;
      if queuedBytes % FRAME_BYTES != 0 || queuedBytes / FRAME_BYTES + frames > maxFrames {
        ResetQueue();
        if frames > maxFrames {
          output := output + (frames - maxFrames) * CHANNELS;
          frames := maxFrames;
        }
      }
    }

    /**
     What accepted samples do: they become history, and if enough was converted, the planned
     slice goes to the device queue, faded from where the last one ended.
     */
    twostate predicate Took(samples: seq<int>, volume: Option<real>, lenMult: nat, conversion: Conversion,
                            accepted: bool)
      requires Takes(Some(samples)) && Fits(conversion, |samples|, lenMult)
      reads this
    {
      var given := old(inputs) + Swapped(samples, Gain(volume));
      var converted := ConvertedFrames(conversion);
      if converted <= discardFrames then
        inputs == given && queued == old(queued) && raw == old(raw) && fadeRemaining == old(fadeRemaining)
      else
        var plan := PlanFor(|old(queued)| / CHANNELS, converted, discardFrames, MaxFrames(outputRate));
        var raw0, queued0 := if plan.reset then [] else old(raw), if plan.reset then [] else old(queued);
        && (plan.first + plan.frames) * FRAME_BYTES <= conversion.bytes
        && raw == raw0 + SliceOf(conversion.contents, plan)
        && queued == queued0 + Heard(SliceOf(conversion.contents, plan), |raw0|, outputRate, accepted)
        && inputs == (if plan.reset then [] else given)
        && (accepted ==> |queued| == |queued0| + Min(converted - discardFrames, MaxFrames(outputRate)) * CHANNELS)
    }

    /** `queue_samples` with samples it takes, under the mutex and ready. */
    method QueueTaken(samples: seq<int>, volume: Option<real>, lenMult: nat, conversion: Conversion, accepted: bool)
      requires Valid() && Takes(Some(samples)) && Fits(conversion, |samples|, lenMult)
      modifies this`queued, this`fadeRemaining, this`inputs, this`raw, this`submitted, history
      ensures Valid()
      ensures Took(samples, volume, lenMult, conversion, accepted)
    {
      hide Faded, PlanFor, MaxFrames, FadeTotal, FadeOk, HistoryOk, Swapped, Gain;
      var buffer := Prepare(samples, Gain(volume), lenMult);
      if conversion.Failed? {
        return;
      }
      forall i | 0 <= i < buffer.Length {
        buffer[i] := conversion.contents[i];
      }
      assert buffer[..] == conversion.contents;
      var converted := conversion.bytes / FRAME_BYTES;
      if converted <= discardFrames {
        return;
      }
      PlanFits(|queued| / CHANNELS, converted, discardFrames, MaxFrames(outputRate));
      QueueConverted(buffer, converted, accepted, conversion.contents);
    }

    /**
     `queue_samples`. `entry` and `word` are the pause words read before and under the
     mutex, `samples` may be missing, and `conversion` and `accepted` are what the
     conversion and the device queue answer.
     */
    method QueueSamples(entry: nat, word: nat, samples: Option<seq<int>>, volume: Option<real>, lenMult: nat,
                        conversion: Conversion, accepted: bool)
      requires Valid() && (Takes(samples) ==> Fits(conversion, |samples.value|, lenMult))
      modifies this`queued, this`fadeRemaining, this`inputs, this`raw, this`submitted, history
      ensures Valid() && history[..] == Tail(Silence() + inputs)
      ensures |queued| % 2 == 0 && |queued| / 2 <= outputRate / 10
      ensures Paused(entry) || !Passes(word, appliedWord) || !Takes(samples) ==>
        && queued == old(queued) && raw == old(raw) && inputs == old(inputs)
        && fadeRemaining == old(fadeRemaining) && history[..] == old(history[..])
      ensures !Paused(entry) && Passes(word, appliedWord) && Takes(samples) ==>
        Took(samples.value, volume, lenMult, conversion, accepted)
    {
      Bounds();
      hide Valid, Fits, Took;
      if Paused(entry) {
        return;
      }
      if samples.None? || |samples.value| == 0 || |samples.value| % CHANNELS != 0 || |samples.value| > 192000 {
        return;
      }
      if !Passes(word, appliedWord) {
        return;
      }
      QueueTaken(samples.value, volume, lenMult, conversion, accepted);
      Bounds();
    }

    /** The history is the end of all inputs, and the queue is whole frames, 100 ms at most. */
    lemma Bounds()
      requires Valid()
      ensures history[..] == Tail(Silence() + inputs)
      ensures |queued| % 2 == 0 && |queued| / 2 <= outputRate / 10
    {
      Durations(outputRate);
    }
  }
}
