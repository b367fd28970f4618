/** glTF 2.0 animation decoding (sections 5.7 and 5.8 of the glTF 2.0
    specification): channel targets, samplers, channels and whole animations. */
module Animation {
  import opened Common
  import opened Json

  /** eAnimationChannelTargetPath; Code() is the enumerator's numeric value. */
  datatype TargetPath = PathNotSet | Translation | Rotation | Scale | Weights | PathInvalid
  {
    function Code(): nat {
      match this
      case PathNotSet => 0
      case Translation => 1
      case Rotation => 2
      case Scale => 3
      case Weights => 4
      case PathInvalid => 99
    }
  }

  /** eAnimationSamplerInterpolation; Code() is the enumerator's numeric value. */
  datatype Interpolation = InterpolationNotSet | InterpLinear | Step | CubicSpline | InterpolationInvalid
  {
    function Code(): nat {
      match this
      case InterpolationNotSet => 0
      case InterpLinear => 1
      case Step => 2
      case CubicSpline => 3
      case InterpolationInvalid => 99
    }
  }

  datatype ChannelTarget = ChannelTarget(nodeIdx: int, path: TargetPath, json: JsonObject)

  datatype AnimationSampler = AnimationSampler(
    inputIdx: int,
    outputIdx: int,
    interpolation: Interpolation,
    json: JsonObject)

  datatype Channel = Channel(samplerIdx: int, target: ChannelTarget, json: JsonObject)

  datatype Animation = Animation(channels: seq<Channel>, samplers: seq<AnimationSampler>, json: JsonObject)

  const DefaultTarget: ChannelTarget := ChannelTarget(-1, PathNotSet, map[])
  const DefaultSampler: AnimationSampler := AnimationSampler(-1, -1, InterpLinear, map[])
  const DefaultChannel: Channel := Channel(-1, DefaultTarget, map[])

  /** The if/else chain on the "path" string. */
  function PathFromString(path: string): (p: TargetPath)
    ensures p != PathNotSet
    ensures p == Translation <==> EqualsIgnoreCase(path, "translation")
    ensures p == Rotation <==> EqualsIgnoreCase(path, "rotation")
    ensures p == Scale <==> EqualsIgnoreCase(path, "scale")
    ensures p == Weights <==> EqualsIgnoreCase(path, "weights")
  {
    if EqualsIgnoreCase(path, "translation") then Translation
    else if EqualsIgnoreCase(path, "rotation") then Rotation
    else if EqualsIgnoreCase(path, "scale") then Scale
    else if EqualsIgnoreCase(path, "weights") then Weights
    else PathInvalid
  }

  /** createAnimationChannelTargetFromJson */
  function CreateChannelTargetFromJson(o: JsonObject): (t: ChannelTarget)
    ensures t.json == o
    ensures "node" !in o ==> t.nodeIdx == -1
    ensures "node" in o ==> t.nodeIdx == ToInteger(o["node"])
    ensures "path" !in o ==> t.path == PathInvalid
    ensures "path" in o ==> t.path == PathFromString(ToStr(o["path"]))
    ensures t.path != PathNotSet
  {
    var node := if "node" in o then IntegerAt(o, "node") else DefaultTarget.nodeIdx;
    ChannelTarget(node, PathFromString(StringAt(o, "path")), o)
  }

  /** The if/else chain on the "interpolation" string. */
  function InterpolationFromString(s: string): (r: Interpolation)
    ensures r != InterpolationNotSet
    ensures r == InterpLinear <==> EqualsIgnoreCase(s, "linear")
    ensures r == Step <==> EqualsIgnoreCase(s, "step")
    ensures r == CubicSpline <==> EqualsIgnoreCase(s, "cubicspline")
  {
    if EqualsIgnoreCase(s, "linear") then InterpLinear
    else if EqualsIgnoreCase(s, "step") then Step
    else if EqualsIgnoreCase(s, "cubicspline") then CubicSpline
    else InterpolationInvalid
  }

  /** createAnimationSamplerFromJson */
  function CreateAnimationSamplerFromJson(o: JsonObject): (s: AnimationSampler)
    ensures s.json == o
    ensures s.inputIdx == IntegerAt(o, "input") && s.outputIdx == IntegerAt(o, "output")
    ensures "interpolation" !in o ==> s.interpolation == InterpLinear
    ensures "interpolation" in o ==> s.interpolation == InterpolationFromString(ToStr(o["interpolation"]))
  {
    var interpolation :=
      if "interpolation" in o then InterpolationFromString(StringAt(o, "interpolation"))
      else DefaultSampler.interpolation;
    AnimationSampler(IntegerAt(o, "input"), IntegerAt(o, "output"), interpolation, o)
  }

  /** createAnimationChannelFromJson */
  function CreateChannelFromJson(o: JsonObject): (c: Channel)
    ensures c.json == o
    ensures c.samplerIdx == IntegerAt(o, "sampler")
    ensures c.target == CreateChannelTargetFromJson(ToObject(Value(o, "target")))
    ensures "target" !in o ==> c.target.nodeIdx == -1 && c.target.path == PathInvalid
  {
    Channel(IntegerAt(o, "sampler"), CreateChannelTargetFromJson(ToObject(Value(o, "target"))), o)
  }

  /** createAnimationFromJson: both lists are resized to the arrays' lengths and filled
      element by element. */
  method CreateAnimationFromJson(o: JsonObject) returns (a: Animation)
    ensures a.json == o
    ensures |a.channels| == |ToArray(Value(o, "channels"))|
    ensures forall i :: 0 <= i < |a.channels| ==>
              a.channels[i] == CreateChannelFromJson(ToObject(ToArray(Value(o, "channels"))[i]))
    ensures |a.samplers| == |ToArray(Value(o, "samplers"))|
    ensures forall i :: 0 <= i < |a.samplers| ==>
              a.samplers[i] == CreateAnimationSamplerFromJson(ToObject(ToArray(Value(o, "samplers"))[i]))
  {
    var channels := ToArray(Value(o, "channels"));
    var count := |channels|;
    var chans := seq(count, _ => DefaultChannel);
    for i := 0 to count
      invariant |chans| == count
      invariant forall j :: 0 <= j < i ==> chans[j] == CreateChannelFromJson(ToObject(channels[j]))
    {
      chans := chans[i := CreateChannelFromJson(ToObject(channels[i]))];
    }

    var samplers := ToArray(Value(o, "samplers"));
    count := |samplers|;
    var samps := seq(count, _ => DefaultSampler);
    for i := 0 to count
      invariant |samps| == count
      invariant forall j :: 0 <= j < i ==> samps[j] == CreateAnimationSamplerFromJson(ToObject(samplers[j]))
    {
      samps := samps[i := CreateAnimationSamplerFromJson(ToObject(samplers[i]))];
    }

    a := Animation(chans, samps, o);
  }

  /** Case does not matter: "ROTATION" names the rotation path. */
  lemma UpperCasePathAccepted()
    ensures PathFromString("ROTATION") == Rotation
    ensures InterpolationFromString("Step") == Step
  {
    assert EqualsIgnoreCase("ROTATION", "rotation");
    assert !EqualsIgnoreCase("ROTATION", "translation");
    assert EqualsIgnoreCase("Step", "step");
    assert !EqualsIgnoreCase("Step", "linear");
  }
}
