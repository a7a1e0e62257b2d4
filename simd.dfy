/** Run-time SIMD feature flags: two process-wide booleans saying whether the
    SSE4.1 and AVX2 kernels may be used. A feature can only be switched on when
    the library was built with it. */
module Simd {
  import opened Common

  /** VipsFeatureFlags */
  type FeatureFlags = bv32

  const FeatureNone: FeatureFlags := 0
  const FeatureSse41: FeatureFlags := 1
  const FeatureAvx2: FeatureFlags := 2

  /** The compile-time switches the file is guarded by. */
  datatype Build = Build(haveSse41: bool, haveAvx2: bool, emscripten: bool, x86FeatureBuiltins: bool)

  /** What `__builtin_cpu_supports` answers on the machine running the code. */
  datatype Cpu = Cpu(sse41: bool, avx2: bool)

  /** The two static globals `have_sse41` and `have_avx2`. */
  datatype FlagState = FlagState(sse41: bool, avx2: bool)

  /** vips_simd_get_builtin_features */
  function BuiltinFeatures(build: Build): (f: FeatureFlags)
    ensures (f & FeatureSse41 != 0) <==> build.haveSse41
    ensures (f & FeatureAvx2 != 0) <==> build.haveAvx2
    ensures f & !(FeatureSse41 | FeatureAvx2) == 0
  {
    var features := FeatureNone;
    var features := if build.haveSse41 then features | FeatureSse41 else features;
    if build.haveAvx2 then features | FeatureAvx2 else features
  }

  /** vips_simd_get_supported_features over the given globals. */
  function SupportedFeatures(st: FlagState): (f: FeatureFlags)
    ensures (f & FeatureSse41 != 0) <==> st.sse41
    ensures (f & FeatureAvx2 != 0) <==> st.avx2
    ensures f & !(FeatureSse41 | FeatureAvx2) == 0
  {
    (if st.sse41 then FeatureSse41 else 0) | (if st.avx2 then FeatureAvx2 else 0)
  }

  /** A flag is on only if the library was built with that feature. */
  predicate WithinBuild(build: Build, st: FlagState)
  {
    (st.sse41 ==> build.haveSse41) && (st.avx2 ==> build.haveAvx2)
  }

  /** The globals after vips_simd_set_features(features). */
  function SetFeatures(build: Build, st: FlagState, features: FeatureFlags): (st': FlagState)
    ensures st'.sse41 == if build.haveSse41 then features & FeatureSse41 != 0 else st.sse41
    ensures st'.avx2 == if build.haveAvx2 then features & FeatureAvx2 != 0 else st.avx2
  {
    var st := if build.haveSse41 then st.(sse41 := features & FeatureSse41 != 0) else st;
    if build.haveAvx2 then st.(avx2 := features & FeatureAvx2 != 0) else st
  }

  /** (unsigned int) of what strtoul returned: truncation to 32 bits. */
  function ToFeatureFlags(parsed: nat): FeatureFlags
  {
    (parsed % 0x1_0000_0000) as bv32
  }

  /** vips__simd_init: `env` is the value strtoul parsed from VIPS_SIMD, when
      that variable is set; otherwise the build flags and the CPU decide. */
  function Init(build: Build, st: FlagState, env: Option<nat>, cpu: Cpu): (st': FlagState)
    ensures env.Some? ==> st' == SetFeatures(build, st, ToFeatureFlags(env.value))
    ensures WithinBuild(build, st) ==> WithinBuild(build, st')
  {
    match env
    case Some(v) => SetFeatures(build, st, ToFeatureFlags(v))
    case None =>
      if build.emscripten then
        (if build.haveSse41 then st.(sse41 := true) else st)
      else if build.x86FeatureBuiltins then
        var st := if build.haveSse41 && cpu.sse41 then st.(sse41 := true) else st;
        if build.haveAvx2 && cpu.avx2 then st.(avx2 := true) else st
      else st
  }

  /** The supported features are always among the built-in ones. */
  lemma SupportedWithinBuiltin(build: Build, st: FlagState)
    requires WithinBuild(build, st)
    ensures SupportedFeatures(st) & !BuiltinFeatures(build) == 0
    ensures SupportedFeatures(st) & BuiltinFeatures(build) == SupportedFeatures(st)
  {
    var s, b := SupportedFeatures(st), BuiltinFeatures(build);
    assert s & !(FeatureSse41 | FeatureAvx2) == 0;
  }

  /** Setting features from a state within the build leaves exactly the
      requested features that are built in. */
  lemma SetFeaturesSupported(build: Build, st: FlagState, features: FeatureFlags)
    requires WithinBuild(build, st)
    ensures WithinBuild(build, SetFeatures(build, st, features))
    ensures SupportedFeatures(SetFeatures(build, st, features)) == features & BuiltinFeatures(build)
  {
    var s := SupportedFeatures(SetFeatures(build, st, features));
    var b := BuiltinFeatures(build);
    assert s & !(FeatureSse41 | FeatureAvx2) == 0;
    assert b & !(FeatureSse41 | FeatureAvx2) == 0;
  }

  /** Setting the same features twice is the same as setting them once. */
  lemma SetFeaturesIdempotent(build: Build, st: FlagState, features: FeatureFlags)
    ensures SetFeatures(build, SetFeatures(build, st, features), features) == SetFeatures(build, st, features)
  {
  }

  /** The globals as the library holds them. */
  class Features {
    const build: Build
    var haveSse41: bool
    var haveAvx2: bool

    function State(): FlagState reads this { FlagState(haveSse41, haveAvx2) }

    ghost predicate Valid() reads this { WithinBuild(build, State()) }

    /** Static storage starts zeroed: both flags FALSE. */
    constructor (build: Build)
      ensures this.build == build && State() == FlagState(false, false) && Valid()
    {
      this.build := build;
      haveSse41, haveAvx2 := false, false;
    }

    function GetSupportedFeatures(): (f: FeatureFlags)
      reads this
      requires Valid()
      ensures f & !BuiltinFeatures(build) == 0
      ensures (f & FeatureSse41 != 0) == haveSse41 && (f & FeatureAvx2 != 0) == haveAvx2
    {
      SupportedWithinBuiltin(build, State());
      SupportedFeatures(State())
    }

    method SetFeaturesFrom(features: FeatureFlags)
      requires Valid()
      modifies this
      ensures Valid() && State() == SetFeatures(build, old(State()), features)
      ensures GetSupportedFeatures() == features & BuiltinFeatures(build)
    {
      SetFeaturesSupported(build, State(), features);
      if build.haveSse41 {
        haveSse41 := features & FeatureSse41 != 0;
      }
      if build.haveAvx2 {
        haveAvx2 := features & FeatureAvx2 != 0;
      }
    }

    method SimdInit(env: Option<nat>, cpu: Cpu)
      requires Valid()
      modifies this
      ensures Valid() && State() == Init(build, old(State()), env, cpu)
    {
      if env.Some? {
        SetFeaturesFrom(ToFeatureFlags(env.value));
        return;
      }
      if build.emscripten {
        if build.haveSse41 {
          haveSse41 := true;
        }
      } else if build.x86FeatureBuiltins {
        if build.haveSse41 && cpu.sse41 {
          haveSse41 := true;
        }
        if build.haveAvx2 && cpu.avx2 {
          haveAvx2 := true;
        }
      }
    }
  }
}
