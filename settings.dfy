/**
 * The run settings: the table of defaults and the merge of the caller's keyword
 * arguments over it, which rejects any keyword the table does not know.
 */
module Settings {
  import opened Results

  /** A setting's value, as the keyword argument carries it. */
  datatype Value =
    | RealV(r: real)
    | IntV(i: int)
    | BoolV(b: bool)
    | StrV(s: string)
    | ListV(items: seq<string>)

  /** The 23 settings the search knows. */
  datatype Name =
    | T0
    | BetaDecrease
    | BetaIncrease
    | Ediff0
    | AlphaA
    | AlphaR
    | NSoft
    | NsOrb
    | NpOrb
    | WidthCutoff
    | Exclude
    | Dt
    | Mdmin
    | Fmax
    | EnhancedFeedback
    | EnergyThreshold
    | NPoslow
    | MinimaThreshold
    | RestartOptim
    | StartLowest
    | Verbose
    | NewStart
    | RunTime

  /** The keyword spelling of each setting. */
  function Keyword(n: Name): string
  {
    match n
    case T0 => "T0"
    case BetaDecrease => "beta_decrease"
    case BetaIncrease => "beta_increase"
    case Ediff0 => "Ediff0"
    case AlphaA => "alpha_a"
    case AlphaR => "alpha_r"
    case NSoft => "n_soft"
    case NsOrb => "ns_orb"
    case NpOrb => "np_orb"
    case WidthCutoff => "width_cutoff"
    case Exclude => "exclude"
    case Dt => "dt"
    case Mdmin => "mdmin"
    case Fmax => "fmax"
    case EnhancedFeedback => "enhanced_feedback"
    case EnergyThreshold => "energy_threshold"
    case NPoslow => "n_poslow"
    case MinimaThreshold => "minima_threshold"
    case RestartOptim => "restart_optim"
    case StartLowest => "start_lowest"
    case Verbose => "verbose"
    case NewStart => "new_start"
    case RunTime => "run_time"
  }

  /** The settings in the order of the defaults table. */
  const Names: seq<Name> := [T0, BetaDecrease, BetaIncrease, Ediff0, AlphaA, AlphaR, NSoft, NsOrb, NpOrb, WidthCutoff, Exclude, Dt, Mdmin, Fmax, EnhancedFeedback, EnergyThreshold, NPoslow, MinimaThreshold, RestartOptim, StartLowest, Verbose, NewStart, RunTime]

  lemma {:induction false} NamesComplete(n: Name)
    ensures n in Names
  {
  }

  /** The first setting from index `from` on whose keyword is `key`. */
  function Find(key: string, from: nat): (r: Option<Name>)
    requires from <= |Names|
    ensures r.Some? ==> Keyword(r.value) == key
    ensures r.None? ==> forall i :: from <= i < |Names| ==> Keyword(Names[i]) != key
    decreases |Names| - from
  {
    if from == |Names| then None
    else if Keyword(Names[from]) == key then Some(Names[from])
    else Find(key, from + 1)
  }

  /** The setting a keyword names, if any. */
  function Named(key: string): (r: Option<Name>)
    ensures r.Some? ==> Keyword(r.value) == key
    ensures r.None? ==> forall n: Name :: Keyword(n) != key
  {
    var r := Find(key, 0);
    forall n: Name ensures r.None? ==> Keyword(n) != key {
      NamesComplete(n);
    }
    r
  }

  /** The run time that sets no limit. */
  const Unlimited: string := "infinit"

  /** The default value of each setting. */
  function Default(n: Name): Value
  {
    match n
    case T0 => RealV(2000.0)
    case BetaDecrease => RealV(1.0 / 1.1)
    case BetaIncrease => RealV(1.1)
    case Ediff0 => RealV(0.01)
    case AlphaA => RealV(0.95)
    case AlphaR => RealV(1.05)
    case NSoft => IntV(20)
    case NsOrb => IntV(1)
    case NpOrb => IntV(1)
    case WidthCutoff => RealV(3.5)
    case Exclude => ListV([])
    case Dt => RealV(0.05)
    case Mdmin => IntV(2)
    case Fmax => RealV(0.000005)
    case EnhancedFeedback => BoolV(false)
    case EnergyThreshold => RealV(0.00005)
    case NPoslow => IntV(30)
    case MinimaThreshold => RealV(0.005)
    case RestartOptim => BoolV(false)
    case StartLowest => BoolV(false)
    case Verbose => BoolV(true)
    case NewStart => BoolV(false)
    case RunTime => StrV(Unlimited)
  }

  /** A complete settings table: a value for every setting. */
  type Table = Name -> Value

  /** Keyword arguments in call order, one entry per keyword. */
  type Kwargs = seq<(string, Value)>

  datatype SettingsError = UnknownKeyword(key: string)

  predicate Known(key: string)
  {
    Named(key).Some?
  }

  /** The value passed for keyword `key`, if any (the first entry naming it). */
  function Lookup(kwargs: Kwargs, key: string): (r: Option<Value>)
    ensures r.None? <==> forall i :: 0 <= i < |kwargs| ==> kwargs[i].0 != key
    ensures r.Some? ==> exists i :: 0 <= i < |kwargs| && kwargs[i] == (key, r.value)
  {
    if kwargs == [] then None
    else if kwargs[0].0 == key then Some(kwargs[0].1)
    else Lookup(kwargs[1..], key)
  }

  /** The first keyword, in call order, that names no setting. */
  function FirstUnknown(kwargs: Kwargs): (r: Option<string>)
    ensures r.None? <==> forall i :: 0 <= i < |kwargs| ==> Known(kwargs[i].0)
    ensures r.Some? ==> exists i :: 0 <= i < |kwargs| && kwargs[i].0 == r.value && !Known(r.value)
                                  && forall j :: 0 <= j < i ==> Known(kwargs[j].0)
  {
    if kwargs == [] then None
    else if !Known(kwargs[0].0) then Some(kwargs[0].0)
    else FirstUnknown(kwargs[1..])
  }

  /** The value setting n ends up with: the one passed for its keyword, or its default. */
  function Given(kwargs: Kwargs, n: Name): Value
  {
    var passed := Lookup(kwargs, Keyword(n));
    if passed.Some? then passed.value else Default(n)
  }

  /**
   * The constructor's settings merge: a keyword that names no setting is an error
   * naming the first such keyword; otherwise every setting takes the value passed for
   * it, or its default.
   */
  function Merge(kwargs: Kwargs): (r: Result<Table, SettingsError>)
    ensures r.Err? <==> exists i :: 0 <= i < |kwargs| && !Known(kwargs[i].0)
    ensures r.Err? ==> !Known(r.error.key) && exists i :: 0 <= i < |kwargs| && kwargs[i].0 == r.error.key
    ensures r.Ok? ==> forall n: Name ::
                        r.value(n) == (if Lookup(kwargs, Keyword(n)).Some? then Lookup(kwargs, Keyword(n)).value else Default(n))
  {
    match FirstUnknown(kwargs)
    case Some(key) => Err(UnknownKeyword(key))
    case None => Ok(n => Given(kwargs, n))
  }

  /** With no keyword arguments every setting keeps its default. */
  lemma {:induction false} MergeNothing()
    ensures Merge([]).Ok?
    ensures forall n: Name :: Merge([]).value(n) == Default(n)
  {
    assert FirstUnknown([]).None?;
    forall n: Name ensures Merge([]).value(n) == Default(n) {
      assert Lookup([], Keyword(n)).None?;
    }
  }

  /** A misspelt keyword is rejected even when a valid one precedes it. */
  lemma {:induction false} MergeRejectsMisspelt()
    ensures Merge([("T0", RealV(500.0)), ("temperature", RealV(500.0))]) == Err(UnknownKeyword("temperature"))
  {
    var bad := [("T0", RealV(500.0)), ("temperature", RealV(500.0))];
    assert Known("T0") by {
      assert Keyword(T0) == "T0";
    }
    NoSettingNamed("temperature");
    assert FirstUnknown(bad[1..]) == Some("temperature");
  }

  /** `temperature` is not a keyword of the search. */
  lemma NoSettingNamed(key: string)
    requires key == "temperature"
    ensures !Known(key)
  {
    forall n: Name ensures Keyword(n) != key {
    }
  }

  /** A valid keyword alone overrides its own default and leaves the others alone. */
  lemma {:induction false} MergeOverrides()
    ensures Merge([("T0", RealV(500.0))]).Ok?
    ensures Merge([("T0", RealV(500.0))]).value(T0) == RealV(500.0)
    ensures Merge([("T0", RealV(500.0))]).value(Ediff0) == RealV(0.01)
  {
    var good := [("T0", RealV(500.0))];
    assert Known("T0") by {
      assert Keyword(T0) == "T0";
    }
    assert FirstUnknown(good[1..]).None?;
    assert Keyword(Ediff0) == "Ediff0";
    assert Lookup(good, "Ediff0").None?;
  }

  /** The typed view of a complete settings table, as the search reads it. */
  datatype Config = Config(
    t0: real, betaDecrease: real, betaIncrease: real, ediff0: real, alphaA: real, alphaR: real,
    nSoft: int, nsOrb: int, npOrb: int, widthCutoff: real, exclude: seq<string>, dt: real,
    mdmin: int, fmax: real, enhancedFeedback: bool, energyThreshold: real, nPoslow: int,
    minimaThreshold: real, restartOptim: bool, startLowest: bool, verbose: bool, newStart: bool,
    runTime: string)

  predicate IsNumber(v: Value)
  {
    v.RealV? || v.IntV?
  }

  /** Every setting is present with a value of the kind it is used as (an integer serves as a real). */
  predicate WellTyped(m: Table)
  {
    RealsFit(m) && IntsFit(m) && OthersFit(m)
  }

  /** The settings used as reals hold numbers. */
  predicate RealsFit(m: Table)
  {
    && IsNumber(m(T0)) && IsNumber(m(BetaDecrease)) && IsNumber(m(BetaIncrease)) && IsNumber(m(Ediff0))
    && IsNumber(m(AlphaA)) && IsNumber(m(AlphaR)) && IsNumber(m(WidthCutoff)) && IsNumber(m(Dt))
    && IsNumber(m(Fmax)) && IsNumber(m(EnergyThreshold)) && IsNumber(m(MinimaThreshold))
  }

  /** The settings used as integers hold integers. */
  predicate IntsFit(m: Table)
  {
    m(NSoft).IntV? && m(NsOrb).IntV? && m(NpOrb).IntV? && m(Mdmin).IntV? && m(NPoslow).IntV?
  }

  /** The switches hold booleans, the exclusions a list and the run time a string. */
  predicate OthersFit(m: Table)
  {
    && m(Exclude).ListV? && m(EnhancedFeedback).BoolV? && m(RestartOptim).BoolV? && m(StartLowest).BoolV?
    && m(Verbose).BoolV? && m(NewStart).BoolV? && m(RunTime).StrV?
  }

  function AsReal(v: Value): (x: real)
    requires IsNumber(v)
    ensures v.IntV? ==> x == v.i as real
    ensures v.RealV? ==> x == v.r
  {
    if v.RealV? then v.r else v.i as real
  }

  /** The typed record of a well-typed table; each field is its setting's value. */
  function ToConfig(m: Table): (c: Config)
    requires WellTyped(m)
    ensures c.t0 == AsReal(m(T0)) && c.ediff0 == AsReal(m(Ediff0))
    ensures c.betaDecrease == AsReal(m(BetaDecrease)) && c.betaIncrease == AsReal(m(BetaIncrease))
    ensures c.alphaA == AsReal(m(AlphaA)) && c.alphaR == AsReal(m(AlphaR))
    ensures c.widthCutoff == AsReal(m(WidthCutoff)) && c.dt == AsReal(m(Dt)) && c.fmax == AsReal(m(Fmax))
    ensures c.energyThreshold == AsReal(m(EnergyThreshold)) && c.minimaThreshold == AsReal(m(MinimaThreshold))
    ensures c.nSoft == m(NSoft).i && c.nsOrb == m(NsOrb).i && c.npOrb == m(NpOrb).i
    ensures c.mdmin == m(Mdmin).i && c.nPoslow == m(NPoslow).i
    ensures c.enhancedFeedback == m(EnhancedFeedback).b && c.restartOptim == m(RestartOptim).b
    ensures c.startLowest == m(StartLowest).b && c.verbose == m(Verbose).b && c.newStart == m(NewStart).b
    ensures c.runTime == m(RunTime).s && c.exclude == m(Exclude).items
  {
    Config(
      AsReal(m(T0)), AsReal(m(BetaDecrease)), AsReal(m(BetaIncrease)), AsReal(m(Ediff0)),
      AsReal(m(AlphaA)), AsReal(m(AlphaR)), m(NSoft).i, m(NsOrb).i, m(NpOrb).i,
      AsReal(m(WidthCutoff)), m(Exclude).items, AsReal(m(Dt)), m(Mdmin).i, AsReal(m(Fmax)),
      m(EnhancedFeedback).b, AsReal(m(EnergyThreshold)), m(NPoslow).i,
      AsReal(m(MinimaThreshold)), m(RestartOptim).b, m(StartLowest).b, m(Verbose).b,
      m(NewStart).b, m(RunTime).s)
  }

  lemma {:induction false} DefaultsWellTyped()
    ensures WellTyped(Default)
  {
    DefaultRealsFit();
    DefaultIntsFit();
    DefaultOthersFit();
  }

  lemma DefaultRealsFit()
    ensures RealsFit(Default)
  {
  }

  lemma DefaultIntsFit()
    ensures IntsFit(Default)
  {
  }

  lemma DefaultOthersFit()
    ensures OthersFit(Default)
  {
  }

  /** The defaults give the published starting temperature and threshold and their feedback factors. */
  lemma {:induction false} DefaultConfig()
    ensures WellTyped(Default)
    ensures var c := ToConfig(Default);
            c.t0 == 2000.0 && c.ediff0 == 0.01 && c.alphaA == 0.95 && c.alphaR == 1.05
  {
    DefaultsWellTyped();
    var c := ToConfig(Default);
    assert c.t0 == 2000.0 && c.ediff0 == 0.01;
    assert c.alphaA == 0.95 && c.alphaR == 1.05;
  }

  /** The defaults give positive gates, thirty snapshots, no exclusions and an unlimited run time. */
  lemma {:induction false} DefaultGates()
    ensures WellTyped(Default)
    ensures var c := ToConfig(Default);
            c.energyThreshold > 0.0 && c.minimaThreshold > 0.0 && c.nPoslow == 30
            && c.runTime == Unlimited && c.exclude == []
  {
    DefaultsWellTyped();
    var c := ToConfig(Default);
    assert c.energyThreshold > 0.0 && c.minimaThreshold > 0.0;
    assert Default(RunTime) == StrV(Unlimited) && Default(Exclude) == ListV([]);
    assert c.nPoslow == 30 && c.runTime == Unlimited && c.exclude == [];
  }
}
