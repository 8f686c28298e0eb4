/**
 * The post-processing task `advanced_audio_processing`: which effects run,
 * in which order, under which name the result is saved, and the retry when
 * anything fails. The effects themselves (gain, fades, resampling and
 * normalisation of decoded audio) are tags; see README for what that leaves
 * out.
 */
module Effects {
  import opened Wrappers
  import opened Text
  import opened Files
  import Retry

  /** A value of the effects dict: a number, or a flag such as `normalize`. */
  datatype Value = Number(x: real) | Flag(b: bool)

  /** One effect applied to the audio, with the parameter it was given. */
  datatype Step = Gain(db: Value) | FadeIn(ms: Value) | FadeOut(ms: Value) | Speed(factor: Value) | Normalize

  /** The effects dict as its items, in key order. */
  type EffectsDict = seq<(string, Value)>

  /** A dict never holds a key twice. */
  predicate DistinctKeys(effects: EffectsDict) {
    forall i, j :: 0 <= i < j < |effects| ==> effects[i].0 != effects[j].0
  }

  /** `effects[key]` if `key in effects`. */
  function Lookup(effects: EffectsDict, key: string): Option<Value> {
    if effects == [] then None
    else if effects[0].0 == key then Some(effects[0].1)
    else Lookup(effects[1..], key)
  }

  /** Python truthiness of a value: a non-zero number or `True`. */
  predicate Truthy(v: Value) {
    match v
    case Number(x) => x != 0.0
    case Flag(b) => b
  }

  /** `effects.get('normalize', False)` is truthy. */
  predicate NormalizeOn(effects: EffectsDict) {
    Lookup(effects, "normalize").Some? && Truthy(Lookup(effects, "normalize").value)
  }

  /** Place of a step in the fixed pipeline. */
  function Rank(s: Step): nat {
    match s
    case Gain(_) => 0
    case FadeIn(_) => 1
    case FadeOut(_) => 2
    case Speed(_) => 3
    case Normalize => 4
  }

  function GainStep(effects: EffectsDict): seq<Step> {
    match Lookup(effects, "volume") case Some(v) => [Gain(v)] case None => []
  }

  function FadeInStep(effects: EffectsDict): seq<Step> {
    match Lookup(effects, "fade_in") case Some(v) => [FadeIn(v)] case None => []
  }

  function FadeOutStep(effects: EffectsDict): seq<Step> {
    match Lookup(effects, "fade_out") case Some(v) => [FadeOut(v)] case None => []
  }

  function SpeedStep(effects: EffectsDict): seq<Step> {
    match Lookup(effects, "speed") case Some(v) => [Speed(v)] case None => []
  }

  function NormalizeStep(effects: EffectsDict): seq<Step> {
    if NormalizeOn(effects) then [Normalize] else []
  }

  /** The steps the task runs for `effects`, as a reference definition:
      volume, fade-in, fade-out and speed when their key is present, then
      normalisation when it is asked for. */
  function Pipeline(effects: EffectsDict): seq<Step> {
    GainStep(effects) + FadeInStep(effects) + FadeOutStep(effects) + SpeedStep(effects) + NormalizeStep(effects)
  }

  /** Steps come in strictly increasing pipeline order. */
  predicate StrictlyRanked(steps: seq<Step>) {
    forall i, j :: 0 <= i < j < |steps| ==> Rank(steps[i]) < Rank(steps[j])
  }

  lemma RankedAppend(xs: seq<Step>, ys: seq<Step>, n: nat)
    requires StrictlyRanked(xs) && StrictlyRanked(ys)
    requires forall x :: x in xs ==> Rank(x) < n
    requires forall y :: y in ys ==> n <= Rank(y)
    ensures StrictlyRanked(xs + ys)
  {
    var zs := xs + ys;
    forall i, j | 0 <= i < j < |zs|
      ensures Rank(zs[i]) < Rank(zs[j])
    {
      if j < |xs| {
        assert zs[i] == xs[i] && zs[j] == xs[j];
      } else if i >= |xs| {
        assert zs[i] == ys[i - |xs|] && zs[j] == ys[j - |xs|];
      } else {
        assert zs[i] in xs && zs[j] in ys;
      }
    }
  }

  /** No effect runs twice and none runs out of the fixed order. */
  lemma PipelineOrdered(effects: EffectsDict)
    ensures |Pipeline(effects)| <= 5
    ensures StrictlyRanked(Pipeline(effects))
  {
    var a := GainStep(effects);
    var b := a + FadeInStep(effects);
    var c := b + FadeOutStep(effects);
    var d := c + SpeedStep(effects);
    RankedAppend(a, FadeInStep(effects), 1);
    RankedAppend(b, FadeOutStep(effects), 2);
    RankedAppend(c, SpeedStep(effects), 3);
    RankedAppend(d, NormalizeStep(effects), 4);
  }

  /** Each effect runs exactly when its key is present, with that key's value;
      normalisation runs exactly when its value is truthy. */
  lemma PipelineSteps(effects: EffectsDict)
    ensures forall v :: Gain(v) in Pipeline(effects) <==> Lookup(effects, "volume") == Some(v)
    ensures forall v :: FadeIn(v) in Pipeline(effects) <==> Lookup(effects, "fade_in") == Some(v)
    ensures forall v :: FadeOut(v) in Pipeline(effects) <==> Lookup(effects, "fade_out") == Some(v)
    ensures forall v :: Speed(v) in Pipeline(effects) <==> Lookup(effects, "speed") == Some(v)
    ensures Normalize in Pipeline(effects) <==> NormalizeOn(effects)
  {
    var ps := Pipeline(effects);
    assert forall s :: s in ps <==>
      s in GainStep(effects) || s in FadeInStep(effects) || s in FadeOutStep(effects)
      || s in SpeedStep(effects) || s in NormalizeStep(effects);
    forall v ensures Gain(v) in ps <==> Gain(v) in GainStep(effects) {}
    forall v ensures FadeIn(v) in ps <==> FadeIn(v) in FadeInStep(effects) {}
    forall v ensures FadeOut(v) in ps <==> FadeOut(v) in FadeOutStep(effects) {}
    forall v ensures Speed(v) in ps <==> Speed(v) in SpeedStep(effects) {}
  }

  /** With distinct keys, a lookup finds a key's value exactly when that pair
      is one of the items, wherever it stands. */
  lemma {:induction false} LookupMeaning(effects: EffectsDict, key: string, v: Value)
    requires DistinctKeys(effects)
    ensures Lookup(effects, key) == Some(v) <==> (key, v) in effects
    ensures Lookup(effects, key) == None <==> forall i :: 0 <= i < |effects| ==> effects[i].0 != key
  {
    if effects != [] {
      assert effects == [effects[0]] + effects[1..];
      LookupMeaning(effects[1..], key, v);
      if effects[0].0 == key {
        assert forall i :: 1 <= i < |effects| ==> effects[i].0 != key;
      }
    }
  }

  /** Two dicts with the same items look up every key alike. */
  lemma LookupKeyOrder(a: EffectsDict, b: EffectsDict, key: string)
    requires DistinctKeys(a) && DistinctKeys(b)
    requires forall item :: item in a <==> item in b
    ensures Lookup(a, key) == Lookup(b, key)
  {
    match Lookup(a, key)
    case Some(v) =>
      LookupMeaning(a, key, v);
      LookupMeaning(b, key, v);
    case None =>
      match Lookup(b, key)
      case Some(w) =>
        LookupMeaning(a, key, w);
        LookupMeaning(b, key, w);
      case None =>
  }

  /** The key order of the dict does not matter: the same items in any order
      give the same pipeline. */
  lemma PipelineKeyOrder(a: EffectsDict, b: EffectsDict)
    requires DistinctKeys(a) && DistinctKeys(b)
    requires forall item :: item in a <==> item in b
    ensures Pipeline(a) == Pipeline(b)
  {
    LookupKeyOrder(a, b, "volume");
    LookupKeyOrder(a, b, "fade_in");
    LookupKeyOrder(a, b, "fade_out");
    LookupKeyOrder(a, b, "speed");
    LookupKeyOrder(a, b, "normalize");
  }

  /** The dict `process_audio` builds from its form: volume, fades and the
      normalise checkbox always, speed only when the field was filled in. */
  function FormEffects(volume: real, fadeIn: real, fadeOut: real, normalizeChecked: bool, speed: Option<real>): (effects: EffectsDict)
    ensures DistinctKeys(effects)
  {
    [("volume", Number(volume)), ("fade_in", Number(fadeIn)), ("fade_out", Number(fadeOut)),
     ("normalize", Flag(normalizeChecked))]
    + (match speed case Some(s) => [("speed", Number(s))] case None => [])
  }

  /** A form submission always runs gain and both fades; the speed change,
      although its key comes last in the dict, runs before normalisation. */
  lemma FormPipeline(volume: real, fadeIn: real, fadeOut: real, normalizeChecked: bool, speed: Option<real>)
    ensures Pipeline(FormEffects(volume, fadeIn, fadeOut, normalizeChecked, speed))
         == [Gain(Number(volume)), FadeIn(Number(fadeIn)), FadeOut(Number(fadeOut))]
            + (match speed case Some(s) => [Speed(Number(s))] case None => [])
            + (if normalizeChecked then [Normalize] else [])
  {
    var e := FormEffects(volume, fadeIn, fadeOut, normalizeChecked, speed);
    LookupMeaning(e, "volume", Number(volume));
    LookupMeaning(e, "fade_in", Number(fadeIn));
    LookupMeaning(e, "fade_out", Number(fadeOut));
    LookupMeaning(e, "normalize", Flag(normalizeChecked));
    assert e[3] == ("normalize", Flag(normalizeChecked));
    match speed {
      case Some(s) =>
        LookupMeaning(e, "speed", Number(s));
        assert e[4] == ("speed", Number(s));
      case None =>
        LookupMeaning(e, "speed", Number(0.0));
    }
  }

  const Mp3Extension := ".mp3"
  const ProcessedSuffix := "_processed.mp3"

  /** The output name as written: every ".mp3" in the input name becomes
      "_processed.mp3". */
  function ProcessedName(audioFilename: string): (output: string)
    ensures output == Join(Split(audioFilename, Mp3Extension), ProcessedSuffix)
  {
    ReplaceIsSplitJoin(audioFilename, Mp3Extension, ProcessedSuffix);
    Replace(audioFilename, Mp3Extension, ProcessedSuffix)
  }

  /** A name without ".mp3" is returned as it is. */
  lemma ProcessedNameUnchanged(audioFilename: string)
    requires !Contains(audioFilename, Mp3Extension)
    ensures ProcessedName(audioFilename) == audioFilename
  {
    ReplaceAbsent(audioFilename, Mp3Extension, ProcessedSuffix);
  }

  /** `s` has no letter 'm'. */
  predicate NoLetterM(s: string) {
    'm' !in s
  }

  /** A name without the letter 'm' has no ".mp3" in it. */
  lemma NoMp3Without(name: string)
    requires NoLetterM(name)
    ensures !Contains(name, Mp3Extension)
  {
    forall k
      ensures !OccursAt(name, Mp3Extension, k)
    {
      assert 0 <= k <= |name| - |Mp3Extension| ==> name[k..k + |Mp3Extension|][1] == name[k + 1];
    }
  }

  /** Gluing two strings without ".mp3" by a character that ".mp3" does not
      use gives none either: an occurrence across the glue would use it. */
  lemma GlueNoMp3(a: string, c: char, b: string)
    requires c !in Mp3Extension && !Contains(a, Mp3Extension) && !Contains(b, Mp3Extension)
    ensures !Contains(a + [c] + b, Mp3Extension)
  {
    var s := a + [c] + b;
    forall k | 0 <= k <= |s| - 4
      ensures !OccursAt(s, Mp3Extension, k)
    {
      if k + 4 <= |a| {
        assert s[k..k + 4] == a[k..k + 4];
        assert !OccursAt(a, Mp3Extension, k);
      } else if k > |a| {
        assert s[k..k + 4] == b[k - |a| - 1..k - |a| + 3];
        assert !OccursAt(b, Mp3Extension, k - |a| - 1);
      } else {
        assert s[k..k + 4][|a| - k] == c;
      }
    }
  }

  /** Appending a character other than '3' cannot complete a ".mp3". */
  lemma AppendNoMp3(a: string, c: char)
    requires c != '3' && !Contains(a, Mp3Extension)
    ensures !Contains(a + [c], Mp3Extension)
  {
    var s := a + [c];
    forall k | 0 <= k <= |s| - 4
      ensures !OccursAt(s, Mp3Extension, k)
    {
      if k + 4 <= |a| {
        assert s[k..k + 4] == a[k..k + 4];
        assert !OccursAt(a, Mp3Extension, k);
      } else {
        assert s[k..k + 4][3] == c;
      }
    }
  }

  /** A prefix of a string without ".mp3" has none either. */
  lemma PrefixNoMp3(s: string, r: string)
    requires StartsWith(s, r) && !Contains(s, Mp3Extension)
    ensures !Contains(r, Mp3Extension)
  {
    forall k | 0 <= k <= |r| - 4
      ensures !OccursAt(r, Mp3Extension, k)
    {
      assert r[k..k + 4] == s[k..k + 4];
      assert !OccursAt(s, Mp3Extension, k);
    }
  }

  /** A wav file made by `safe_filename` has no ".mp3" in its name when its
      prefix, clock reading and uuid digits have none: the separators '/',
      '_' and the ".wav" extension cannot complete one. */
  lemma WavNameNoMp3(prefix: string, timestamp: string, uuidHex: string)
    requires !IsAbsolute(prefix)
    requires !Contains(prefix, Mp3Extension) && !Contains(timestamp, Mp3Extension) && !Contains(uuidHex, Mp3Extension)
    ensures !Contains(SafeFilename(prefix, "wav", timestamp, uuidHex), Mp3Extension)
  {
    var uuid := Take(uuidHex, UniqueIdLength);
    PrefixNoMp3(uuidHex, uuid);
    AppendNoMp3(uuid, '.');
    NoMp3Without("av");
    GlueNoMp3(uuid + ".", 'w', "av");
    var tail := uuid + "." + ['w'] + "av";
    GlueNoMp3(timestamp, '_', tail);
    GlueNoMp3(prefix, '_', timestamp + "_" + tail);
    NoMp3Without(OutputDir);
    GlueNoMp3(OutputDir, '/', prefix + "_" + (timestamp + "_" + tail));
    assert SafeFilename(prefix, "wav", timestamp, uuidHex) == OutputDir + "/" + (prefix + "_" + (timestamp + "_" + tail));
  }

  /** A wav file made by `safe_filename` is given its own name as the output
      name, so the export writes mp3 data over the original file. This holds
      for every voice id, clock reading and uuid without ".mp3" in them, such
      as `safe_filename("v1", "wav")`. */
  lemma WavOutputOverwritesInput(prefix: string, timestamp: string, uuidHex: string)
    requires !IsAbsolute(prefix)
    requires !Contains(prefix, Mp3Extension) && !Contains(timestamp, Mp3Extension) && !Contains(uuidHex, Mp3Extension)
    ensures var name := SafeFilename(prefix, "wav", timestamp, uuidHex);
            EndsWith(name, ".wav") && ProcessedName(name) == name
  {
    var name := SafeFilename(prefix, "wav", timestamp, uuidHex);
    WavNameNoMp3(prefix, timestamp, uuidHex);
    ProcessedNameUnchanged(name);
  }

  /** The output name intended: drop a trailing ".mp3" and add
      "_processed.mp3". */
  function DerivedName(audioFilename: string): (output: string)
    ensures EndsWith(output, ProcessedSuffix)
    ensures output != audioFilename
    ensures EndsWith(audioFilename, Mp3Extension) ==>
              output == audioFilename[..|audioFilename| - |Mp3Extension|] + ProcessedSuffix
  {
    var stem := if EndsWith(audioFilename, Mp3Extension) then audioFilename[..|audioFilename| - |Mp3Extension|] else audioFilename;
    var output := stem + ProcessedSuffix;
    assert |output| > |audioFilename|;
    assert output[|output| - |ProcessedSuffix|..] == ProcessedSuffix;
    output
  }

  /** Replacing the final occurrence of `target`, when it is the only one,
      leaves everything before it alone. */
  lemma {:induction false} ReplaceAtEnd(a: string, target: string, replacement: string)
    requires |target| > 0
    requires !Contains(a + target[..|target| - 1], target)
    ensures Replace(a + target, target, replacement) == a + replacement
    decreases |a|
  {
    var s := a + target;
    if a == [] {
      assert s == target && s[|target|..] == [];
    } else {
      var whole, rest := a + target[..|target| - 1], a[1..] + target[..|target| - 1];
      assert s[..|target|] == whole[0..|target|];
      assert !OccursAt(whole, target, 0);
      ShiftedAbsent(whole, target);
      assert rest == whole[1..];
      ReplaceAtEnd(a[1..], target, replacement);
      assert s[1..] == a[1..] + target;
      assert Replace(s, target, replacement) == [s[0]] + Replace(s[1..], target, replacement);
      assert a == [a[0]] + a[1..];
    }
  }

  /** When ".mp3" occurs in a name only as its extension, the name written
      and the name intended agree. */
  lemma DerivedNameAgrees(audioFilename: string)
    requires EndsWith(audioFilename, Mp3Extension)
    requires !Contains(audioFilename[..|audioFilename| - 1], Mp3Extension)
    ensures DerivedName(audioFilename) == ProcessedName(audioFilename)
  {
    var stem := audioFilename[..|audioFilename| - |Mp3Extension|];
    assert audioFilename == stem + Mp3Extension;
    assert audioFilename[..|audioFilename| - 1] == stem + Mp3Extension[..|Mp3Extension| - 1];
    ReplaceAtEnd(stem, Mp3Extension, ProcessedSuffix);
  }

  /** What the task hands back: the name of the exported file, or a retry
      scheduled after a failure. */
  datatype Outcome = Exported(output: string) | Retrying(countdown: nat)

  /** The task body. `decoded` says whether the file could be read and
      processed; when it could not, the task is retried after five seconds.
      Otherwise the effects present are applied one after another and the
      result is exported under the name as written, `ProcessedName`. */
  method Process(audioFilename: string, effects: EffectsDict, decoded: bool) returns (steps: seq<Step>, outcome: Outcome)
    ensures decoded ==> steps == Pipeline(effects) && outcome == Exported(ProcessedName(audioFilename))
    ensures !decoded ==> steps == [] && outcome == Retrying(Retry.ProcessingDelay)
  {
    if !decoded {
      return [], Retrying(Retry.ProcessingDelay);
    }
    steps := [];
    var v := Lookup(effects, "volume");
    if v.Some? {
      steps := steps + [Gain(v.value)];
    }
    assert steps == GainStep(effects);
    v := Lookup(effects, "fade_in");
    if v.Some? {
      steps := steps + [FadeIn(v.value)];
    }
    assert steps == GainStep(effects) + FadeInStep(effects);
    v := Lookup(effects, "fade_out");
    if v.Some? {
      steps := steps + [FadeOut(v.value)];
    }
    assert steps == GainStep(effects) + FadeInStep(effects) + FadeOutStep(effects);
    v := Lookup(effects, "speed");
    if v.Some? {
      steps := steps + [Speed(v.value)];
    }
    assert steps == GainStep(effects) + FadeInStep(effects) + FadeOutStep(effects) + SpeedStep(effects);
    v := Lookup(effects, "normalize");
    if v.Some? && Truthy(v.value) {
      steps := steps + [Normalize];
    }
    outcome := Exported(ProcessedName(audioFilename));
  }
}
