/** Audio batches and merging them; samples are real numbers, so rounding plays no part. */
module AudioSamples {
  datatype AudioSamples = Mono(mono: seq<real>) | Stereo(stereo: seq<(real, real)>) {
    function Len(): nat {
      match this
      case Mono(samples) => |samples|
      case Stereo(samples) => |samples|
    }
  }

  function Mix(s: seq<(real, real)>): (r: seq<real>)
    ensures |r| == |s|
  {
    seq(|s|, i requires 0 <= i < |s| => (s[i].0 + s[i].1) / 2.0)
  }

  function Double(s: seq<real>): (r: seq<(real, real)>)
    ensures |r| == |s|
  {
    seq(|s|, i requires 0 <= i < |s| => (s[i], s[i]))
  }

  /** A batch in the channel layout of another. */
  function ConvertTo(layout: AudioSamples, batch: AudioSamples): (r: AudioSamples)
    ensures r.Mono? == layout.Mono? && r.Len() == batch.Len()
  {
    match (layout, batch)
    case (Mono(_), Mono(_)) => batch
    case (Stereo(_), Stereo(_)) => batch
    case (Mono(_), Stereo(s)) => Mono(Mix(s))
    case (Stereo(_), Mono(s)) => Stereo(Double(s))
  }

  /** Two batches of one layout, one after the other. */
  function Concat(a: AudioSamples, b: AudioSamples): AudioSamples
    requires a.Mono? == b.Mono?
  {
    if a.Mono? then Mono(a.mono + b.mono) else Stereo(a.stereo + b.stereo)
  }

  function Merged(a: AudioSamples, b: AudioSamples): AudioSamples {
    Concat(a, ConvertTo(a, b))
  }

  /** Sample by sample what merging means: the old samples stay, and those of the other batch follow in the old layout. */
  ghost predicate Appends(before: AudioSamples, other: AudioSamples, after: AudioSamples) {
    && after.Mono? == before.Mono? && after.Len() == before.Len() + other.Len()
    && (before.Mono? ==> after.mono[..before.Len()] == before.mono)
    && (before.Stereo? ==> after.stereo[..before.Len()] == before.stereo)
    && forall k :: 0 <= k < other.Len() ==> Follows(before, other, after, k)
  }

  /** Behind the old samples stands sample k of the other batch: half of both channels in mono, on both channels in stereo. */
  predicate Follows(before: AudioSamples, other: AudioSamples, after: AudioSamples, k: nat)
    requires after.Len() == before.Len() + other.Len() && k < other.Len()
  {
    var i := before.Len() + k;
    if after.Mono? then 2.0 * after.mono[i] == if other.Mono? then 2.0 * other.mono[k] else other.stereo[k].0 + other.stereo[k].1
    else after.stereo[i] == if other.Mono? then (other.mono[k], other.mono[k]) else other.stereo[k]
  }

  lemma MergedAppends(a: AudioSamples, b: AudioSamples)
    ensures Appends(a, b, Merged(a, b))
  {
  }

  /** What merging means determines the outcome. */
  lemma AppendsDetermines(a: AudioSamples, b: AudioSamples, x: AudioSamples, y: AudioSamples)
    requires Appends(a, b, x) && Appends(a, b, y)
    ensures x == y
  {
    if a.Mono? {
      forall i | 0 <= i < |x.mono| ensures x.mono[i] == y.mono[i] {
        if i < a.Len() {
          assert x.mono[i] == x.mono[..a.Len()][i];
        } else {
          assert Follows(a, b, x, i - a.Len()) && Follows(a, b, y, i - a.Len());
        }
      }
    } else {
      forall i | 0 <= i < |x.stereo| ensures x.stereo[i] == y.stereo[i] {
        if i < a.Len() {
          assert x.stereo[i] == x.stereo[..a.Len()][i];
        } else {
          assert Follows(a, b, x, i - a.Len()) && Follows(a, b, y, i - a.Len());
        }
      }
    }
  }

  function Swapped(s: seq<(real, real)>): (r: seq<(real, real)>)
    ensures |r| == |s|
  {
    seq(|s|, i requires 0 <= i < |s| => (s[i].1, s[i].0))
  }

  function Total(s: seq<real>): real {
    if s == [] then 0.0 else Total(s[..|s| - 1]) + s[|s| - 1]
  }

  /** The sum of all samples of both channels. */
  function TotalOfBoth(s: seq<(real, real)>): real {
    if s == [] then 0.0 else TotalOfBoth(s[..|s| - 1]) + s[|s| - 1].0 + s[|s| - 1].1
  }

  /** Mixing down treats the channels alike, and the samples appended carry half of what both channels sum up to. */
  lemma DownmixIsFair(mono: seq<real>, stereo: seq<(real, real)>)
    ensures Merged(Mono(mono), Stereo(Swapped(stereo))) == Merged(Mono(mono), Stereo(stereo))
    ensures 2.0 * (Total(Merged(Mono(mono), Stereo(stereo)).mono) - Total(mono)) == TotalOfBoth(stereo)
  {
    MergedAppends(Mono(mono), Stereo(stereo));
    MergedAppends(Mono(mono), Stereo(Swapped(stereo)));
    AppendsDetermines(Mono(mono), Stereo(stereo), Merged(Mono(mono), Stereo(Swapped(stereo))), Merged(Mono(mono), Stereo(stereo)));
    TotalConcat(mono, Mix(stereo));
    TotalOfMix(stereo);
  }

  lemma {:induction false} TotalConcat(a: seq<real>, b: seq<real>)
    ensures Total(a + b) == Total(a) + Total(b)
    decreases |b|
  {
    if b == [] {
      assert a + b == a;
    } else {
      TotalConcat(a, b[..|b| - 1]);
      assert (a + b)[..|a + b| - 1] == a + b[..|b| - 1];
    }
  }

  lemma {:induction false} TotalOfMix(s: seq<(real, real)>)
    ensures 2.0 * Total(Mix(s)) == TotalOfBoth(s)
  {
    if s != [] {
      var t := s[..|s| - 1];
      TotalOfMix(t);
      assert Mix(s)[..|s| - 1] == Mix(t);
    }
  }

  class AudioBatch {
    var samples: AudioSamples

    constructor (samples: AudioSamples)
      ensures this.samples == samples
    {
      this.samples := samples;
    }

    /**
     Appends a batch, converted to the layout of this one: a sample mixed down is half
     the sum of both channels, a mono sample goes to both channels.
     */
    method Merge(other: AudioSamples)
      modifies this
      ensures samples == Merged(old(samples), other)
      ensures Appends(old(samples), other, samples)
    {
      MergedAppends(samples, other);
      match (samples, other) {
        case (Mono(first), Mono(second)) => samples := Mono(first + second);
        case (Stereo(first), Stereo(second)) => samples := Stereo(first + second);
        case (Mono(first), Stereo(second)) =>
          var mono: seq<real> := [];
          for i := 0 to |second|
            invariant mono == Mix(second[..i])
          {
            mono := mono + [(second[i].0 + second[i].1) / 2.0];
          }
          assert second[..|second|] == second;
          samples := Mono(first + mono);
        case (Stereo(first), Mono(second)) =>
          var stereo: seq<(real, real)> := [];
          for i := 0 to |second|
            invariant stereo == Double(second[..i])
          {
            stereo := stereo + [(second[i], second[i])];
          }
          assert second[..|second|] == second;
          samples := Stereo(first + stereo);
      }
    }
  }

  /** The outcome of merging a list of batches from left to right. */
  function MergedAll(first: AudioSamples, batches: seq<AudioSamples>): AudioSamples
    decreases |batches|
  {
    if batches == [] then first else MergedAll(Merged(first, batches[0]), batches[1..])
  }

  /** Every batch converted to the layout of the first, one after the other. */
  function Joined(layout: AudioSamples, batches: seq<AudioSamples>): (r: AudioSamples)
    ensures r.Mono? == layout.Mono?
    decreases |batches|
  {
    if batches == [] then (if layout.Mono? then Mono([]) else Stereo([]))
    else Concat(ConvertTo(layout, batches[0]), Joined(layout, batches[1..]))
  }

  function TotalLen(batches: seq<AudioSamples>): nat {
    if batches == [] then 0 else batches[0].Len() + TotalLen(batches[1..])
  }

  /** Merging keeps the first layout, adds up the lengths, and is the concatenation of the converted batches. */
  lemma {:induction false} MergeAllIsConcat(first: AudioSamples, batches: seq<AudioSamples>)
    ensures MergedAll(first, batches) == Concat(first, Joined(first, batches))
    ensures MergedAll(first, batches).Mono? == first.Mono?
    ensures MergedAll(first, batches).Len() == first.Len() + TotalLen(batches)
    decreases |batches|
  {
    if batches == [] {
      ConcatLaws(first, first, Joined(first, []));
    } else {
      var next := Merged(first, batches[0]);
      MergeAllIsConcat(next, batches[1..]);
      SameLayout(next, first, batches[1..]);
      ConcatLaws(first, ConvertTo(first, batches[0]), Joined(first, batches[1..]));
    }
  }

  lemma {:induction false} SameLayout(a: AudioSamples, b: AudioSamples, batches: seq<AudioSamples>)
    requires a.Mono? == b.Mono?
    ensures Joined(a, batches) == Joined(b, batches)
    decreases |batches|
  {
    if batches != [] {
      SameLayout(a, b, batches[1..]);
    }
  }

  lemma ConcatLaws(a: AudioSamples, b: AudioSamples, c: AudioSamples)
    requires a.Mono? == b.Mono? == c.Mono?
    ensures Concat(Concat(a, b), c) == Concat(a, Concat(b, c))
    ensures c.Len() == 0 ==> Concat(a, c) == a
  {
    if a.Mono? {
      assert a.mono + b.mono + c.mono == a.mono + (b.mono + c.mono);
    } else {
      assert a.stereo + b.stereo + c.stereo == a.stereo + (b.stereo + c.stereo);
    }
  }

  /** Mono to stereo and back loses nothing; the other way round only if both channels agree everywhere. */
  lemma ConversionsInvert(mono: seq<real>, stereo: seq<(real, real)>)
    ensures Mix(Double(mono)) == mono
    ensures Double(Mix(stereo)) == stereo <==> ChannelsAgree(stereo)
  {
    if Double(Mix(stereo)) == stereo {
      forall i | 0 <= i < |stereo| ensures stereo[i].0 == stereo[i].1 {
        assert Double(Mix(stereo))[i] == stereo[i];
      }
    }
  }

  predicate ChannelsAgree(stereo: seq<(real, real)>) {
    forall i :: 0 <= i < |stereo| ==> stereo[i].0 == stereo[i].1
  }

  /**
   Merging is associative, except when a mono batch stands between two stereo ones
   and the last of these is not the same on both channels.
   */
  lemma MergeAssociativeIff(a: AudioSamples, b: AudioSamples, c: AudioSamples)
    ensures Merged(Merged(a, b), c) == Merged(a, Merged(b, c))
        <==> !(a.Stereo? && b.Mono? && c.Stereo?) || ChannelsAgree(c.stereo)
  {
    ConcatLaws(a, ConvertTo(a, b), ConvertTo(a, c));
    match (a, b, c) {
      case (Stereo(x), Mono(y), Stereo(z)) =>
        DoubleConcat(y, Mix(z));
        ConversionsInvert([], z);
        SamePrefix(x + Double(y), z, Double(Mix(z)));
        assert x + Double(y) + Double(Mix(z)) == x + (Double(y) + Double(Mix(z)));
      case (Stereo(_), Mono(y), Mono(z)) => DoubleConcat(y, z);
      case (Mono(_), Stereo(y), Stereo(z)) => MixConcat(y, z);
      case (Mono(_), Stereo(y), Mono(z)) =>
        MixConcat(y, Double(z));
        ConversionsInvert(z, []);
      case _ =>
    }
  }

  lemma DoubleConcat(a: seq<real>, b: seq<real>)
    ensures Double(a + b) == Double(a) + Double(b)
  {
  }

  lemma MixConcat(a: seq<(real, real)>, b: seq<(real, real)>)
    ensures Mix(a + b) == Mix(a) + Mix(b)
  {
  }

  lemma SamePrefix<T>(a: seq<T>, b: seq<T>, c: seq<T>)
    requires |b| == |c|
    ensures a + b == a + c <==> b == c
  {
    assert (a + b)[|a|..] == b && (a + c)[|a|..] == c;
  }
}
