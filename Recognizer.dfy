/**
 * The integer part of the text recognizer: the label lookup, the arg-max search over one step's
 * scores, and the greedy CTC collapse that turns a sample's steps into text. Scores are integers
 * (the network's floating-point outputs are not modelled) and the fixed 0.001 threshold is the
 * parameter `threshold`.
 */
module Recognizer {
  import opened Wrappers

  /**
   * The label of network index `i`: index 0 is the CTC blank, indexes 1..|labels| name the
   * dictionary entries, the index just past them is a space, and any other index throws with
   * a message naming the index and the number of labels.
   */
  function LabelByIndex(i: int, labels: seq<string>): (r: Result<string>)
    ensures r.Ok? <==> 1 <= i <= |labels| + 1
    ensures r.Ok? ==> r.value == (labels + [" "])[i - 1]
  {
    if 0 < i <= |labels| then Ok(labels[i - 1])
    else if i == |labels| + 1 then Ok(" ")
    else Err("Unable to GetLabelByIndex: index " + IntText(i) + " out of range " + IntText(|labels|)
             + ", OCR model or labels not matched?")
  }

  /** The decimal text of `n`, as C# string interpolation writes an int. */
  function IntText(n: int): string {
    if n < 0 then "-" + DecimalText(-n) else DecimalText(n)
  }

  function DecimalText(n: nat): string
    decreases n
  {
    (if n < 10 then "" else DecimalText(n / 10)) + ["0123456789"[n % 10]]
  }

  /** `k` is the first position holding the largest score of `s`. */
  predicate IsFirstMax(s: seq<int>, k: int) {
    && 0 <= k < |s|
    && (forall j :: 0 <= j < |s| ==> s[j] <= s[k])
    && (forall j :: 0 <= j < k ==> s[j] < s[k])
  }

  /** `k` is the first position holding the smallest score of `s`. */
  predicate IsFirstMin(s: seq<int>, k: int) {
    && 0 <= k < |s|
    && (forall j :: 0 <= j < |s| ==> s[j] >= s[k])
    && (forall j :: 0 <= j < k ==> s[j] > s[k])
  }

  /** The position a left-to-right scan with a strict `>` ends on. */
  function FirstMax(s: seq<int>): (k: nat)
    requires |s| > 0
    ensures IsFirstMax(s, k)
  {
    if |s| == 1 then 0
    else
      var k := FirstMax(s[..|s| - 1]);
      assert s[..|s| - 1][k] == s[k];
      if s[|s| - 1] > s[k] then |s| - 1 else k
  }

  /** The position a left-to-right scan with a strict `<` ends on. */
  function FirstMin(s: seq<int>): (k: nat)
    requires |s| > 0
    ensures IsFirstMin(s, k)
  {
    if |s| == 1 then 0
    else
      var k := FirstMin(s[..|s| - 1]);
      assert s[..|s| - 1][k] == s[k];
      if s[|s| - 1] < s[k] then |s| - 1 else k
  }

  /** There is only one first maximum and only one first minimum. */
  lemma FirstUnique(s: seq<int>, k1: int, k2: int)
    ensures IsFirstMax(s, k1) && IsFirstMax(s, k2) ==> k1 == k2
    ensures IsFirstMin(s, k1) && IsFirstMin(s, k2) ==> k1 == k2
  {
    if IsFirstMax(s, k1) && IsFirstMax(s, k2) {
      assert s[k1] <= s[k2] && s[k2] <= s[k1];
      assert !(k1 < k2) && !(k2 < k1);
    }
    if IsFirstMin(s, k1) && IsFirstMin(s, k2) {
      assert s[k1] >= s[k2] && s[k2] >= s[k1];
      assert !(k1 < k2) && !(k2 < k1);
    }
  }

  function Larger(a: int, b: int): int {
    if a >= b then a else b
  }

  /**
   * One scan of `span` for its extreme scores. The extremes are None for an empty span (the
   * source's double.MaxValue / double.MinValue starting values). Position 1 of an index array
   * receives the position of each new extreme, but only when the array is there and longer than
   * one; when both index arrays are the same array, the later of the two writes wins.
   */
  method MinMaxIndex(span: seq<int>, minIdx: array?<int>, maxIdx: array?<int>)
      returns (minValue: Option<int>, maxValue: Option<int>)
    modifies minIdx, maxIdx
    ensures |span| == 0 <==> minValue.None? && maxValue.None?
    ensures |span| > 0 ==> minValue == Some(span[FirstMin(span)]) && maxValue == Some(span[FirstMax(span)])
    ensures maxIdx != null && maxIdx.Length > 1 && maxIdx != minIdx && |span| > 0 ==> maxIdx[1] == FirstMax(span)
    ensures minIdx != null && minIdx.Length > 1 && maxIdx != minIdx && |span| > 0 ==> minIdx[1] == FirstMin(span)
    ensures maxIdx != null && maxIdx.Length > 1 && maxIdx == minIdx && |span| > 0 ==>
              maxIdx[1] == Larger(FirstMax(span), FirstMin(span))
    ensures maxIdx != null ==> forall j :: 0 <= j < maxIdx.Length && (j != 1 || |span| == 0) ==> maxIdx[j] == old(maxIdx[j])
    ensures minIdx != null ==> forall j :: 0 <= j < minIdx.Length && (j != 1 || |span| == 0) ==> minIdx[j] == old(minIdx[j])
  {
    minValue := None;
    maxValue := None;
    ghost var kMax, kMin := 0, 0;
    for i := 0 to |span|
      invariant Scanned(span, i, minIdx, maxIdx, minValue, maxValue, kMin, kMax)
      invariant maxIdx != null ==> forall j :: 0 <= j < maxIdx.Length && (j != 1 || i == 0) ==> maxIdx[j] == old(maxIdx[j])
      invariant minIdx != null ==> forall j :: 0 <= j < minIdx.Length && (j != 1 || i == 0) ==> minIdx[j] == old(minIdx[j])
    {
      minValue, maxValue, kMin, kMax := ScanAt(span, i, minIdx, maxIdx, minValue, maxValue, kMin, kMax);
    }
    assert span[..|span|] == span;
  }

  /** The state of MinMaxIndex after the first `i` scores, whose first extremes are at `kMin` and `kMax`. */
  ghost predicate Scanned(span: seq<int>, i: int, minIdx: array?<int>, maxIdx: array?<int>,
                          minValue: Option<int>, maxValue: Option<int>, kMin: int, kMax: int)
    reads minIdx, maxIdx
  {
    && 0 <= i <= |span|
    && (i == 0 <==> minValue.None? && maxValue.None?)
    && (i > 0 ==> kMax == FirstMax(span[..i]) && kMin == FirstMin(span[..i]))
    && (i > 0 ==> minValue == Some(span[kMin]) && maxValue == Some(span[kMax]))
    && (maxIdx != null && maxIdx.Length > 1 && maxIdx != minIdx && i > 0 ==> maxIdx[1] == kMax)
    && (minIdx != null && minIdx.Length > 1 && maxIdx != minIdx && i > 0 ==> minIdx[1] == kMin)
    && (maxIdx != null && maxIdx.Length > 1 && maxIdx == minIdx && i > 0 ==> maxIdx[1] == Larger(kMax, kMin))
  }

  /** One pass of the scan loop: position `i` may become the new maximum, then the new minimum. */
  method ScanAt(span: seq<int>, i: int, minIdx: array?<int>, maxIdx: array?<int>,
                minValue: Option<int>, maxValue: Option<int>, ghost kMin: int, ghost kMax: int)
      returns (minValue': Option<int>, maxValue': Option<int>, ghost kMin': int, ghost kMax': int)
    requires i < |span| && Scanned(span, i, minIdx, maxIdx, minValue, maxValue, kMin, kMax)
    modifies minIdx, maxIdx
    ensures Scanned(span, i + 1, minIdx, maxIdx, minValue', maxValue', kMin', kMax')
    ensures maxIdx != null ==> forall j :: 0 <= j < maxIdx.Length && j != 1 ==> maxIdx[j] == old(maxIdx[j])
    ensures minIdx != null ==> forall j :: 0 <= j < minIdx.Length && j != 1 ==> minIdx[j] == old(minIdx[j])
  {
    ScanStep(span, i);
    minValue', maxValue', kMin', kMax' := minValue, maxValue, kMin, kMax;
    if maxValue'.None? || span[i] > maxValue'.value {
      maxValue' := Some(span[i]);
      kMax' := i;
      if maxIdx != null && maxIdx.Length > 1 {
        maxIdx[1] := i;
      }
    }
    if minValue'.None? || span[i] < minValue'.value {
      minValue' := Some(span[i]);
      kMin' := i;
      if minIdx != null && minIdx.Length > 1 {
        minIdx[1] := i;
      }
    }
  }

  /** How the scan's extremes move when position `i` joins the prefix. */
  lemma ScanStep(s: seq<int>, i: int)
    requires 0 <= i < |s|
    ensures FirstMax(s[..i + 1]) == if i == 0 || s[i] > s[FirstMax(s[..i])] then i else FirstMax(s[..i])
    ensures FirstMin(s[..i + 1]) == if i == 0 || s[i] < s[FirstMin(s[..i])] then i else FirstMin(s[..i])
  {
    assert s[..i + 1][..i] == s[..i];
  }

  /** What one decoding step reads off its scores: the arg-max index, and the peak score if there was one. */
  datatype Step = Step(index: int, peak: Option<int>)

  /** The step of one slice of scores: index 0 and no peak when the slice is empty. */
  function StepOf(slice: seq<int>): (st: Step)
    ensures |slice| == 0 ==> st == Step(0, None)
    ensures |slice| > 0 ==> IsFirstMax(slice, st.index) && st.peak == Some(slice[st.index])
  {
    if |slice| == 0 then Step(0, None)
    else
      var k := FirstMax(slice);
      Step(k, Some(slice[k]))
  }

  /** A recognized text: its labels in order and the sum of their peak scores. */
  datatype Text = Text(labels: seq<string>, score: int)

  /**
   * The greedy CTC rule: step `n` emits a label when its index is not the blank, differs from the
   * index of the step before it (whether or not that step emitted), and its peak beats the threshold.
   */
  predicate Emits(steps: seq<Step>, n: int, threshold: int)
    requires 0 <= n < |steps|
  {
    && steps[n].index > 0
    && !(n > 0 && steps[n].index == steps[n - 1].index)
    && steps[n].peak.Some? && steps[n].peak.value > threshold
  }

  /** The text of a run of steps, or the exception the first unknown emitted index raises. */
  function Decode(steps: seq<Step>, labels: seq<string>, threshold: int): (r: Result<Text>)
    ensures r.Ok? ==> |r.value.labels| <= |steps|
  {
    if |steps| == 0 then Ok(Text([], 0))
    else
      var n := |steps| - 1;
      var prefix := steps[..n];
      match Decode(prefix, labels, threshold)
      case Err(e) => Err(e)
      case Ok(t) =>
        if Emits(steps, n, threshold) then
          match LabelByIndex(steps[n].index, labels)
          case Err(e) => Err(e)
          case Ok(name) => Ok(Text(t.labels + [name], t.score + steps[n].peak.value))
        else Ok(t)
  }

  /** Emitting depends only on a step and the one before it, so a prefix decides it the same way. */
  lemma EmitsPrefix(steps: seq<Step>, k: int, n: int, threshold: int)
    requires 0 <= n < k <= |steps|
    ensures Emits(steps[..k], n, threshold) == Emits(steps, n, threshold)
  {
  }

  /** Decoding fails exactly when some emitting step has an index past the dictionary and the space. */
  lemma {:induction false} DecodeFails(steps: seq<Step>, labels: seq<string>, threshold: int)
    ensures Decode(steps, labels, threshold).Err? <==>
            exists n :: 0 <= n < |steps| && Emits(steps, n, threshold) && steps[n].index > |labels| + 1
  {
    if |steps| > 0 {
      var n := |steps| - 1;
      var prefix := steps[..n];
      DecodeFails(prefix, labels, threshold);
      forall m | 0 <= m < n ensures Emits(prefix, m, threshold) == Emits(steps, m, threshold) {
        EmitsPrefix(steps, n, m, threshold);
      }
      if Decode(steps, labels, threshold).Err? && Decode(prefix, labels, threshold).Ok? {
        assert Emits(steps, n, threshold) && steps[n].index > |labels| + 1;
      }
      if Decode(prefix, labels, threshold).Err? {
        var m :| 0 <= m < n && Emits(prefix, m, threshold) && prefix[m].index > |labels| + 1;
        assert steps[m] == prefix[m];
      }
    }
  }

  /**
   * Repeating the last step emits nothing more: a label held over several steps is written once.
   */
  lemma RepeatCollapses(steps: seq<Step>, labels: seq<string>, threshold: int)
    requires |steps| > 0
    ensures Decode(steps + [steps[|steps| - 1]], labels, threshold) == Decode(steps, labels, threshold)
  {
    var longer := steps + [steps[|steps| - 1]];
    assert longer[..|steps|] == steps;
    assert !Emits(longer, |steps|, threshold);
  }

  /**
   * A step whose index is the blank is never written, but it resets the repeat test: the same label
   * on both sides of a blank is written twice.
   */
  lemma BlankSeparates(index: int, peak: int, other: int, labels: seq<string>, threshold: int)
    requires 1 <= index <= |labels| && peak > threshold
    ensures Decode([Step(index, Some(peak)), Step(index, Some(peak))], labels, threshold)
            == Ok(Text([labels[index - 1]], peak))
    ensures Decode([Step(index, Some(peak)), Step(0, Some(other)), Step(index, Some(peak))], labels, threshold)
            == Ok(Text([labels[index - 1], labels[index - 1]], peak + peak))
  {
    var held, blank := Step(index, Some(peak)), Step(0, Some(other));
    var one := [held];
    assert one[..0] == [] && Emits(one, 0, threshold);
    assert LabelByIndex(index, labels) == Ok(labels[index - 1]);
    assert [] + [labels[index - 1]] == [labels[index - 1]];
    assert Decode(one, labels, threshold) == Ok(Text([labels[index - 1]], peak));
    var two := [held, held];
    assert two[..1] == one && !Emits(two, 1, threshold);
    var gap := [held, blank];
    assert gap[..1] == one && !Emits(gap, 1, threshold);
    assert Decode(gap, labels, threshold) == Ok(Text([labels[index - 1]], peak));
    var three := [held, blank, held];
    assert three[..2] == gap && Emits(three, 2, threshold);
    assert [labels[index - 1]] + [labels[index - 1]] == [labels[index - 1], labels[index - 1]];
  }

  /** The slice of step `n` of sample `i` lies inside an output of sampleCount · charCount · labelCount scores. */
  lemma SliceInBounds(sampleCount: nat, charCount: nat, labelCount: nat, i: nat, n: nat)
    requires i < sampleCount && n < charCount
    ensures 0 <= (n + i * charCount) * labelCount
    ensures (n + i * charCount) * labelCount + labelCount <= sampleCount * charCount * labelCount
  {
    var a := n + i * charCount + 1;
    assert a <= (i + 1) * charCount;
    MulMono(i + 1, sampleCount, charCount);
    MulMono(a, sampleCount * charCount, labelCount);
    assert (n + i * charCount) * labelCount + labelCount == a * labelCount;
  }

  lemma MulMono(a: nat, b: nat, c: nat)
    requires a <= b
    ensures a * c <= b * c
  {
  }

  /** The steps of sample `i`, one per character position, each read from its own slice. */
  function StepsOf(outputData: seq<int>, sampleCount: nat, charCount: nat, labelCount: nat, i: nat, k: nat): (steps: seq<Step>)
    requires |outputData| == sampleCount * charCount * labelCount && i < sampleCount && k <= charCount
    ensures |steps| == k
  {
    if k == 0 then []
    else
      var n := k - 1;
      StepsOf(outputData, sampleCount, charCount, labelCount, i, n) + [StepOf(SliceOf(outputData, sampleCount, charCount, labelCount, i, n))]
  }

  /** The labelCount scores of step `n` of sample `i`, which start at (n + i · charCount) · labelCount. */
  function SliceOf(outputData: seq<int>, sampleCount: nat, charCount: nat, labelCount: nat, i: nat, n: nat): (slice: seq<int>)
    requires |outputData| == sampleCount * charCount * labelCount && i < sampleCount && n < charCount
    ensures |slice| == labelCount
  {
    SliceInBounds(sampleCount, charCount, labelCount, i, n);
    var start := (n + i * charCount) * labelCount;
    outputData[start..start + labelCount]
  }

  /** Step `n` of sample `i`: its slice of scores goes through MinMaxIndex with a fresh index array. */
  method ReadStep(outputData: seq<int>, sampleCount: nat, charCount: nat, labelCount: nat, i: nat, n: nat)
      returns (step: Step)
    requires |outputData| == sampleCount * charCount * labelCount && i < sampleCount && n < charCount
    ensures StepsOf(outputData, sampleCount, charCount, labelCount, i, n + 1)
            == StepsOf(outputData, sampleCount, charCount, labelCount, i, n) + [step]
  {
    var span := SliceOf(outputData, sampleCount, charCount, labelCount, i, n);
    var maxIdx := new int[] [0, 0];
    var _, maxVal := MinMaxIndex(span, null, maxIdx);
    step := Step(maxIdx[1], maxVal);
    assert step == StepOf(span) by {
      if |span| > 0 {
        FirstUnique(span, maxIdx[1], StepOf(span).index);
      }
    }
  }

  /**
   * The collapse loop for sample `i`: each step's slice goes through MinMaxIndex, and an emitting
   * step appends its label and adds its peak to the score.
   */
  method DecodeSample(outputData: seq<int>, sampleCount: nat, charCount: nat, labelCount: nat, i: nat,
                      labels: seq<string>, threshold: int) returns (r: Result<Text>)
    requires |outputData| == sampleCount * charCount * labelCount && i < sampleCount
    ensures r == Decode(StepsOf(outputData, sampleCount, charCount, labelCount, i, charCount), labels, threshold)
  {
    var sb: seq<string> := [];
    var lastIndex := 0;
    var score := 0;
    ghost var steps: seq<Step> := [];
    for n := 0 to charCount
      invariant steps == StepsOf(outputData, sampleCount, charCount, labelCount, i, n)
      invariant Decode(steps, labels, threshold) == Ok(Text(sb, score))
      invariant n > 0 ==> lastIndex == steps[n - 1].index
    {
      var step := ReadStep(outputData, sampleCount, charCount, labelCount, i, n);
      ghost var next := steps + [step];
      assert next[..n] == steps;
      if step.index > 0 && !(n > 0 && step.index == lastIndex) && step.peak.Some? && step.peak.value > threshold {
        assert Emits(next, n, threshold);
        var name := LabelByIndex(step.index, labels);
        if name.Err? {
          r := Err(name.message);
          assert r == Decode(next, labels, threshold);
          RestFails(outputData, sampleCount, charCount, labelCount, i, n + 1, labels, threshold);
          return;
        }
        score := score + step.peak.value;
        sb := sb + [name.value];
      }
      lastIndex := step.index;
      steps := next;
    }
    r := Ok(Text(sb, score));
  }

  /** Once the steps up to `k` fail to decode, so do all of them. */
  lemma {:induction false} RestFails(outputData: seq<int>, sampleCount: nat, charCount: nat, labelCount: nat, i: nat,
                                     k: nat, labels: seq<string>, threshold: int)
    requires |outputData| == sampleCount * charCount * labelCount && i < sampleCount && k <= charCount
    requires Decode(StepsOf(outputData, sampleCount, charCount, labelCount, i, k), labels, threshold).Err?
    ensures Decode(StepsOf(outputData, sampleCount, charCount, labelCount, i, charCount), labels, threshold)
            == Decode(StepsOf(outputData, sampleCount, charCount, labelCount, i, k), labels, threshold)
    decreases charCount - k
  {
    if k < charCount {
      var longer := StepsOf(outputData, sampleCount, charCount, labelCount, i, k + 1);
      assert longer[..k] == StepsOf(outputData, sampleCount, charCount, labelCount, i, k);
      RestFails(outputData, sampleCount, charCount, labelCount, i, k + 1, labels, threshold);
    }
  }

  /**
   * The loop over the samples: the texts of all samples in order, or the exception of the first
   * sample that raises one.
   */
  method DecodeAll(outputData: seq<int>, sampleCount: nat, charCount: nat, labelCount: nat,
                   labels: seq<string>, threshold: int) returns (r: Result<seq<Text>>)
    requires |outputData| == sampleCount * charCount * labelCount
    ensures r.Ok? <==> forall i :: 0 <= i < sampleCount ==>
              Decode(StepsOf(outputData, sampleCount, charCount, labelCount, i, charCount), labels, threshold).Ok?
    ensures r.Ok? ==> |r.value| == sampleCount && forall i :: 0 <= i < sampleCount ==>
              Ok(r.value[i]) == Decode(StepsOf(outputData, sampleCount, charCount, labelCount, i, charCount), labels, threshold)
  {
    var results: seq<Text> := [];
    for i := 0 to sampleCount
      invariant |results| == i
      invariant forall k :: 0 <= k < i ==>
                  Ok(results[k]) == Decode(StepsOf(outputData, sampleCount, charCount, labelCount, k, charCount), labels, threshold)
    {
      var t := DecodeSample(outputData, sampleCount, charCount, labelCount, i, labels, threshold);
      if t.Err? {
        return Err(t.message);
      }
      results := results + [t.value];
    }
    r := Ok(results);
  }
}
