/** Concealment by expansion (neteq/src/expand.rs); the noise generator's output is a parameter. */
module Expansion {
  import opened Numbers
  import opened Signal
  import opened TimeStretch

  datatype ExpandPhase = Expand | ExpandStart | ExpandEnd

  datatype ExpandResult = Success | NoExpand

  function SamplesRequired(phase: ExpandPhase, ov: nat): nat {
    if phase.Expand? then 0 else ov
  }

  /** Noise, faded in from the end of the audio at the start and out into new audio at the end. */
  ghost function Concealed(input: seq<real>, noise: seq<real>, phase: ExpandPhase, ov: nat): (r: seq<real>)
    requires SamplesRequired(phase, ov) <= |input| && SamplesRequired(phase, ov) <= |noise|
    ensures |r| == |noise|
  {
    match phase
    case Expand => noise
    case ExpandStart => Crossfaded(input[..ov], noise[..ov], ov) + noise[ov..]
    case ExpandEnd => noise[..|noise| - ov] + Crossfaded(noise[|noise| - ov..], input[..ov], ov)
  }

  /** The seams are continuous: a start begins with the audio's sample, an end begins its fade from noise. */
  lemma ConcealmentIsContinuous(input: seq<real>, noise: seq<real>, phase: ExpandPhase, ov: nat)
    requires 0 < ov <= |input| && ov <= |noise| && !phase.Expand?
    ensures phase.ExpandStart? ==> Concealed(input, noise, phase, ov)[0] == input[0]
    ensures phase.ExpandEnd? ==> Concealed(input, noise, phase, ov)[|noise| - ov] == noise[|noise| - ov]
  {
    FadeIsConvex(input[0], noise[0], 0, ov);
    FadeIsConvex(noise[|noise| - ov], input[0], 0, ov);
  }

  lemma StartSamples(input: seq<real>, noise: seq<real>, ov: nat, i: nat)
    requires 0 < ov <= |input| && ov <= |noise| && i < |noise|
    ensures Concealed(input, noise, ExpandStart, ov)[i] == if i < ov then FadeSample(input[i], noise[i], i, ov) else noise[i]
  {
    var a, n := input[..ov], noise[..ov];
    assert Crossfaded(a, n, ov) == Faded(a, n, ov);
    if i < ov {
      assert Faded(a, n, ov)[i] == FadeSample(a[i], n[i], i, ov);
    }
  }

  lemma EndSamples(input: seq<real>, noise: seq<real>, ov: nat, i: nat)
    requires 0 < ov <= |input| && ov <= |noise| && i < |noise|
    ensures var start := |noise| - ov;
      Concealed(input, noise, ExpandEnd, ov)[i]
      == if i < start then noise[i] else FadeSample(noise[i], input[i - start], i - start, ov)
  {
    var start := |noise| - ov;
    var n, a := noise[start..], input[..ov];
    assert Crossfaded(n, a, ov) == Faded(n, a, ov);
    if start <= i {
      assert Faded(n, a, ov)[i - start] == FadeSample(n[i - start], a[i - start], i - start, ov);
    }
  }

  /** Sample by sample: noise outside the seam, and in it a blend from the audio, or into it. */
  lemma ConcealedSamples(input: seq<real>, noise: seq<real>, phase: ExpandPhase, ov: nat, i: nat)
    requires 0 < ov <= |input| && ov <= |noise| && i < |noise|
    ensures phase.Expand? ==> Concealed(input, noise, phase, ov)[i] == noise[i]
    ensures phase.ExpandStart? ==>
      Concealed(input, noise, phase, ov)[i] == if i < ov then FadeSample(input[i], noise[i], i, ov) else noise[i]
    ensures phase.ExpandEnd? ==>
      Concealed(input, noise, phase, ov)[i]
      == if i < |noise| - ov then noise[i] else FadeSample(noise[i], input[i - (|noise| - ov)], i - (|noise| - ov), ov)
  {
    match phase
    case Expand =>
    case ExpandStart => StartSamples(input, noise, ov, i);
    case ExpandEnd => EndSamples(input, noise, ov, i);
  }

  /** The last sample of an end is within one step of the audio that follows. */
  lemma EndMeetsTheAudio(input: seq<real>, noise: seq<real>, ov: nat)
    requires 0 < ov <= |input| && ov <= |noise|
    ensures var last := |noise| - 1;
      ov as real * (input[ov - 1] - Concealed(input, noise, ExpandEnd, ov)[last]) == input[ov - 1] - noise[last]
  {
    var last := |noise| - 1;
    ConcealedSamples(input, noise, ExpandEnd, ov, last);
    FadeIsLinear(noise[last], input[ov - 1], ov - 1, ov);
  }

  class Expander {
    var usedInputSamples: nat
    const overlapLength: OverlapSize

    constructor (sampleRate: nat)
      ensures usedInputSamples == 0 && overlapLength == OverlapLength(sampleRate)
    {
      usedInputSamples, overlapLength := 0, OverlapLength(sampleRate);
    }

    /** Fades the start of the frame in from the end of the audio. */
    method FadeIn(input: seq<real>, noise: seq<real>, output: array<real>)
      requires overlapLength <= |input| && overlapLength <= |noise| && output[..] == noise
      modifies output
      ensures output[..] == Concealed(input, noise, ExpandStart, overlapLength)
    {
      var ov := overlapLength;
      Crossfade(input[..ov], noise[..ov], ov, output, 0);
    }

    /** Fades the end of the frame out into the new audio. */
    method FadeOut(input: seq<real>, noise: seq<real>, output: array<real>)
      requires overlapLength <= |input| && overlapLength <= |noise| && output[..] == noise
      modifies output
      ensures output[..] == Concealed(input, noise, ExpandEnd, overlapLength)
    {
      var ov := overlapLength;
      var endStart := output.Length - ov;
      Crossfade(noise[endStart..], input[..ov], ov, output, endStart);
    }

    method Process(input: seq<real>, output: array<real>, phase: ExpandPhase, noise: seq<real>) returns (r: ExpandResult)
      requires |noise| == output.Length
      modifies this, output
      ensures r.Success? <==>
        SamplesRequired(phase, overlapLength) <= |input| && SamplesRequired(phase, overlapLength) <= output.Length
      ensures r.Success? ==>
        && output[..] == Concealed(input, noise, phase, overlapLength)
        && usedInputSamples == SamplesRequired(phase, overlapLength)
      ensures r.NoExpand? ==>
        var n := Min(|input|, output.Length);
        output[..] == input[..n] + old(output[n..]) && usedInputSamples == n
    {
      var required := SamplesRequired(phase, overlapLength);
      if |input| < required || output.Length < required {
        var samples := Min(|input|, output.Length);
        CopyInto(input[..samples], output, 0);
        usedInputSamples := samples;
        return NoExpand;
      }
      CopyInto(noise, output, 0);
      if phase.ExpandStart? {
        FadeIn(input, noise, output);
      } else if phase.ExpandEnd? {
        FadeOut(input, noise, output);
      }
      usedInputSamples := required;
      r := ExpandResult.Success;
    }
  }
}
