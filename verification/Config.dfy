/** The benchmark configuration as environment variables, and back. */
module Config {
  import opened Basics
  import opened Counting
  import opened EnvMap

  const MIN_INT := -0x8000_0000_0000_0000
  const MAX_INT := 0x7FFF_FFFF_FFFF_FFFF
  type int64 = x: int | -0x8000_0000_0000_0000 <= x <= 0x7FFF_FFFF_FFFF_FFFF witness 0

  // ------------------------------------------------------------------ decimal numbers

  function Digit(d: nat): char
    requires d < 10
  {
    '0' + d as char
  }

  function Digits(n: nat): (s: string)
    ensures |s| >= 1 && forall i :: 0 <= i < |s| ==> '0' <= s[i] <= '9'
  {
    if n < 10 then [Digit(n)] else Digits(n / 10) + [Digit(n % 10)]
  }

  /** `%d` of a number. */
  function Print(n: int): string {
    if n < 0 then "-" + Digits(-n) else Digits(n)
  }

  predicate AllDigits(s: string) {
    forall i :: 0 <= i < |s| ==> '0' <= s[i] <= '9'
  }

  function Number(s: string): nat
    requires AllDigits(s)
  {
    if s == "" then 0 else 10 * Number(s[..|s| - 1]) + (s[|s| - 1] as int - '0' as int)
  }

  /** `strconv.Atoi`: an optional sign, at least one digit, and nothing else, within 64 bits. */
  function Atoi(s: string): Option<int64> {
    var signed := s != "" && (s[0] == '-' || s[0] == '+');
    var ds := if signed then s[1..] else s;
    if ds == "" || !AllDigits(ds) then None
    else
      var m: int := Number(ds);
      var n := if signed && s[0] == '-' then -m else m;
      if MIN_INT <= n <= MAX_INT then Some(n) else None
  }

  lemma {:induction false} NumberDigits(n: nat)
    ensures Number(Digits(n)) == n
  {
    if n >= 10 {
      NumberDigits(n / 10);
      var s := Digits(n);
      assert s[..|s| - 1] == Digits(n / 10);
    } else {
      assert [Digit(n)][..0] == [];
    }
  }

  /** Unsigned digits have no sign in front. */
  lemma AtoiDigits(ds: string)
    requires ds != "" && AllDigits(ds) && Number(ds) <= MAX_INT
    ensures Atoi(ds) == Some(Number(ds))
  {
    hide Number;
    assert '0' <= ds[0] <= '9';
  }

  lemma AtoiMinus(ds: string)
    requires ds != "" && AllDigits(ds) && Number(ds) <= MAX_INT + 1
    ensures Atoi("-" + ds) == Some(-(Number(ds) as int))
  {
    hide Number;
    assert ("-" + ds)[1..] == ds;
  }

  /** Every 64-bit number reads back as it was printed. */
  lemma AtoiPrint(n: int64)
    ensures Print(n) != "" && Atoi(Print(n)) == Some(n)
  {
    hide Atoi, Number, Digits;
    var x: int := n;
    if x < 0 {
      NumberDigits(-x);
      AtoiMinus(Digits(-x));
    } else {
      NumberDigits(x);
      AtoiDigits(Digits(x));
    }
  }

  /** `s` is the decimal numeral of `n`: a minus sign exactly if `n` is negative, then digits that spell
      its magnitude, without a zero in front of others. */
  predicate IsNumeral(s: string, n: int) {
    && s != "" && (s[0] == '-' <==> n < 0)
    && var ds := if n < 0 then s[1..] else s;
       IsMagnitude(ds, if n < 0 then -n else n)
  }

  predicate IsMagnitude(ds: string, m: nat) {
    && ds != "" && AllDigits(ds) && Number(ds) == m
    && (ds[0] == '0' ==> ds == "0")
  }

  lemma {:induction false} DigitsAreMagnitude(n: nat)
    ensures IsMagnitude(Digits(n), n)
    ensures n > 0 ==> Digits(n)[0] != '0'
  {
    NumberDigits(n);
    if n >= 10 {
      DigitsAreMagnitude(n / 10);
    }
  }

  lemma PrintIsNumeral(n: int)
    ensures IsNumeral(Print(n), n)
  {
    hide Digits, Number;
    if n < 0 {
      DigitsAreMagnitude(-n);
      assert ("-" + Digits(-n))[1..] == Digits(-n);
    } else {
      DigitsAreMagnitude(n);
      assert '0' <= Digits(n)[0] <= '9';
    }
  }

  lemma {:induction false} LeadingDigit(ds: string)
    requires ds != "" && AllDigits(ds) && ds[0] != '0'
    ensures Number(ds) >= 1
    decreases |ds|
  {
    if |ds| > 1 {
      LeadingDigit(ds[..|ds| - 1]);
    }
  }

  lemma {:induction false} MagnitudeUnique(s: string, t: string, m: nat)
    requires IsMagnitude(s, m) && IsMagnitude(t, m)
    ensures s == t
    decreases |s|
  {
    var a, b := s[..|s| - 1], t[..|t| - 1];
    LastDigit(s, t, m);
    if a != "" {
      LeadingDigit(a);
    }
    if b != "" {
      LeadingDigit(b);
    }
    if a != "" && b != "" {
      MagnitudeUnique(a, b, Number(a));
    }
    assert s == a + [s[|s| - 1]] && t == b + [t[|t| - 1]];
  }

  lemma LastDigit(s: string, t: string, m: nat)
    requires s != "" && t != "" && AllDigits(s) && AllDigits(t) && Number(s) == m == Number(t)
    ensures s[|s| - 1] == t[|t| - 1] && Number(s[..|s| - 1]) == Number(t[..|t| - 1])
  {
    var c, d := s[|s| - 1] as int - '0' as int, t[|t| - 1] as int - '0' as int;
    assert m % 10 == c && m % 10 == d;
  }

  /** A number has one numeral. */
  lemma NumeralUnique(s: string, t: string, n: int)
    requires IsNumeral(s, n) && IsNumeral(t, n)
    ensures s == t
  {
    hide IsMagnitude;
    if n < 0 {
      MagnitudeUnique(s[1..], t[1..], -n);
      assert s == [s[0]] + s[1..] && t == [t[0]] + t[1..];
    } else {
      MagnitudeUnique(s, t, n);
    }
  }

  /** Numerals, spelled out. */
  lemma SomeNumerals()
    ensures Print(3) == "3" && Print(0) == "0" && Print(1250) == "1250" && Print(-87) == "-87"
  {
    hide Digits;
    OneDigit(0);
    OneDigit(3);
    OneDigit(1);
    MoreDigits(12);
    MoreDigits(125);
    MoreDigits(1250);
    OneDigit(8);
    MoreDigits(87);
  }

  lemma OneDigit(n: nat)
    requires n < 10
    ensures Digits(n) == [Digit(n)]
  {}

  lemma MoreDigits(n: nat)
    requires n >= 10
    ensures Digits(n) == Digits(n / 10) + [Digit(n % 10)]
  {}

  /** Reading accepts an optional sign and digits whose number fits in 64 bits, and nothing else. */
  lemma AtoiIff(s: string, n: int64)
    ensures Atoi(s) == Some(n) <==>
            exists sign, ds :: sign in {"", "+", "-"} && s == sign + ds && ds != "" && AllDigits(ds)
                               && n as int == if sign == "-" then -(Number(ds) as int) else Number(ds) as int
  {
    hide Number;
    if Atoi(s) == Some(n) {
      if s[0] == '-' || s[0] == '+' {
        var sign, ds := [s[0]], s[1..];
        assert s == sign + ds;
        assert sign in {"", "+", "-"};
        assert n as int == if sign == "-" then -(Number(ds) as int) else Number(ds) as int;
      } else {
        assert s == "" + s;
        assert "" in {"", "+", "-"};
      }
    }
    if sign, ds :| sign in {"", "+", "-"} && s == sign + ds && ds != "" && AllDigits(ds)
                   && n as int == if sign == "-" then -(Number(ds) as int) else Number(ds) as int {
      SignThenDigits(sign, ds, n);
    }
  }

  lemma SignThenDigits(sign: string, ds: string, n: int64)
    requires sign in {"", "+", "-"} && ds != "" && AllDigits(ds)
    requires n as int == if sign == "-" then -(Number(ds) as int) else Number(ds) as int
    ensures Atoi(sign + ds) == Some(n)
  {
    hide Number;
    if sign == "" {
      assert sign + ds == ds && '0' <= ds[0] <= '9';
    } else {
      assert (sign + ds)[0] == sign[0] && (sign + ds)[1..] == ds;
    }
  }

  // ------------------------------------------------------------------ the variables

  const JOB := "BENCHMARK_JOB"
  const IMAGE := "BENCHMARK_IMAGE"
  const PULL_POLICY := "BENCHMARK_IMAGE_PULL_POLICY"
  const SUITE := "BENCHMARK_SUITE"
  const NAME := "BENCHMARK_NAME"
  const WORKERS := "BENCHMARK_WORKERS"
  const PARALLELISM := "BENCHMARK_PARALLELISM"
  const REQUESTS := "BENCHMARK_REQUESTS"
  const DURATION := "BENCHMARK_DURATION"
  const ARGS := "BENCHMARK_ARGS"

  type Env = map<string, string>

  /** The fields that travel through the environment. */
  datatype Settings = Settings(
    id: string, image: string, pullPolicy: string, suite: string, benchmark: string,
    workers: int64, parallelism: int64, requests: int64,
    duration: Option<int64>,
    args: map<string, string>)

  /** The variables written over `env`; a missing duration leaves what was there. */
  function Written(s: Settings, joined: string, env: Env): Env {
    var scalars := env[JOB := s.id][IMAGE := s.image][PULL_POLICY := s.pullPolicy][SUITE := s.suite]
                      [NAME := s.benchmark][WORKERS := Print(s.workers)]
                      [PARALLELISM := Print(s.parallelism)][REQUESTS := Print(s.requests)];
    var timed := if s.duration.Some? then scalars[DURATION := Print(s.duration.value)] else scalars;
    timed[ARGS := joined]
  }

  class BenchmarkConfig {
    var settings: Settings
    var env: Option<Env>

    constructor (settings: Settings, env: Option<Env>)
      ensures this.settings == settings && this.env == env
    {
      this.settings, this.env := settings, env;
    }

    /** Writes the settings into the configuration's own map and returns it; a nil map panics. */
    method ToEnv() returns (r: Option<Env>)
      modifies this
      ensures settings == old(settings) && env == r
      ensures old(env).None? ==> r.None?
      ensures old(env).Some? ==>
                exists order ::
                  IsOrder(order, settings.args)
                  && r == Some(Written(settings, Joined(settings.args, order), old(env).value))
                  && IsWritten(settings, Joined(settings.args, order), old(env).value, r.value)
    {
      hide Print, IsWritten;
      if env.None? {
        return None;
      }
      var e := env.value;
      e := e[JOB := settings.id];
      e := e[IMAGE := settings.image];
      e := e[PULL_POLICY := settings.pullPolicy];
      e := e[SUITE := settings.suite];
      e := e[NAME := settings.benchmark];
      e := e[WORKERS := Print(settings.workers)];
      e := e[PARALLELISM := Print(settings.parallelism)];
      e := e[REQUESTS := Print(settings.requests)];
      if settings.duration.Some? {
        e := e[DURATION := Print(settings.duration.value)];
      }
      var joined := JoinMap(settings.args);
      WrittenIs(settings, joined, env.value);
      e := e[ARGS := joined];
      env := Some(e);
      r := env;
    }
  }

  /** A variable that is not set reads as the empty string. */
  function Getenv(env: Env, key: string): string {
    if key in env then env[key] else ""
  }

  /** Reading the settings back, arguments over the cluster's defaults; a number that does not parse
      panics. */
  function FromEnv(env: Env, defaults: map<string, string>): Option<Settings> {
    var workers := Atoi(Getenv(env, WORKERS));
    var parallelism := Atoi(Getenv(env, PARALLELISM));
    var requests := Atoi(Getenv(env, REQUESTS));
    var time := Getenv(env, DURATION);
    var args := defaults + Parsed(Getenv(env, ARGS));
    if workers.None? || parallelism.None? || requests.None? then None
    else if time != "" && Atoi(time).None? then None
    else Some(Settings(Getenv(env, JOB), Getenv(env, IMAGE), Getenv(env, PULL_POLICY), Getenv(env, SUITE),
                       Getenv(env, NAME), workers.value, parallelism.value, requests.value,
                       if time == "" then None else Atoi(time), args))
  }

  lemma KeysDiffer()
    ensures |JOB| == 13 && |IMAGE| == 15 && |PULL_POLICY| == 27 && |SUITE| == 15 && |NAME| == 14
    ensures |WORKERS| == 17 && |PARALLELISM| == 21 && |REQUESTS| == 18 && |DURATION| == 18 && |ARGS| == 14
    ensures IMAGE != SUITE && NAME != ARGS && REQUESTS != DURATION
  {
    assert IMAGE[10] == 'I' && SUITE[10] == 'S';
    assert NAME[10] == 'N' && ARGS[10] == 'A';
    assert REQUESTS[10] == 'R' && DURATION[10] == 'D';
  }

  /** `e` is `env` with the settings written over it, variable by variable. */
  ghost predicate IsWritten(s: Settings, joined: string, env: Env, e: Env) {
    && Holds(e, "BENCHMARK_JOB", s.id) && Holds(e, "BENCHMARK_IMAGE", s.image)
    && Holds(e, "BENCHMARK_IMAGE_PULL_POLICY", s.pullPolicy)
    && Holds(e, "BENCHMARK_SUITE", s.suite) && Holds(e, "BENCHMARK_NAME", s.benchmark)
    && IsNumeral(Getenv(e, "BENCHMARK_WORKERS"), s.workers)
    && IsNumeral(Getenv(e, "BENCHMARK_PARALLELISM"), s.parallelism)
    && IsNumeral(Getenv(e, "BENCHMARK_REQUESTS"), s.requests)
    && (if s.duration.Some? then IsNumeral(Getenv(e, "BENCHMARK_DURATION"), s.duration.value)
        else Same(e, env, "BENCHMARK_DURATION"))
    && Holds(e, "BENCHMARK_ARGS", joined)
    && forall key :: !IsVariable(key) ==> Same(e, env, key)
  }

  predicate IsVariable(key: string) {
    key in {"BENCHMARK_JOB", "BENCHMARK_IMAGE", "BENCHMARK_IMAGE_PULL_POLICY", "BENCHMARK_SUITE",
            "BENCHMARK_NAME", "BENCHMARK_WORKERS", "BENCHMARK_PARALLELISM", "BENCHMARK_REQUESTS",
            "BENCHMARK_DURATION", "BENCHMARK_ARGS"}
  }

  predicate Holds(e: Env, key: string, value: string) { key in e && e[key] == value }

  predicate Same(e: Env, env: Env, key: string) {
    (key in e <==> key in env) && (key in e ==> e[key] == env[key])
  }

  lemma WrittenIs(s: Settings, joined: string, env: Env)
    ensures IsWritten(s, joined, env, Written(s, joined, env))
  {
    hide Print, IsNumeral;
    KeysDiffer();
    PrintIsNumeral(s.workers);
    PrintIsNumeral(s.parallelism);
    PrintIsNumeral(s.requests);
    if s.duration.Some? {
      PrintIsNumeral(s.duration.value);
    }
  }

  /** What each variable holds after the settings were written. */
  lemma WrittenReads(s: Settings, joined: string, env: Env)
    ensures var e := Written(s, joined, env);
            && Getenv(e, JOB) == s.id && Getenv(e, IMAGE) == s.image && Getenv(e, PULL_POLICY) == s.pullPolicy
            && Getenv(e, SUITE) == s.suite && Getenv(e, NAME) == s.benchmark
            && Getenv(e, WORKERS) == Print(s.workers) && Getenv(e, PARALLELISM) == Print(s.parallelism)
            && Getenv(e, REQUESTS) == Print(s.requests) && Getenv(e, ARGS) == joined
            && Getenv(e, DURATION) == if s.duration.Some? then Print(s.duration.value) else Getenv(env, DURATION)
  {
    hide Print;
    KeysDiffer();
  }

  /** A duration left over from an earlier configuration in the same map. */
  predicate Stale(s: Settings, env: Env) {
    s.duration.None? && Getenv(env, DURATION) != ""
  }

  /** Joining over a map without separators in the wrong places, and overriding the same way, agree
      only on arguments without them. */
  lemma OverridesClean(args: map<string, string>, order: seq<string>, defaults: map<string, string>)
    requires IsOrder(order, args) && (Clean(args) || Clean(defaults))
    ensures defaults + Parsed(Joined(args, order)) == defaults + args <==> Clean(args)
  {
    hide Parsed, Joined, CleanEntry;
    RoundTripIff(args, order);
    var parsed := Parsed(Joined(args, order));
    ParsedClean(Joined(args, order));
    if !Clean(args) {
      var k :| k in args && !CleanEntry(k, args[k]);
      assert (defaults + args)[k] == args[k];
      assert Clean(defaults + parsed);
    }
  }

  /** The round trip, over defaults that were read from the environment themselves (or any defaults, if
      the arguments are clean): the settings come back, with the defaults under the arguments, exactly
      when no stale duration is in the map and no argument has a separator where the text is cut. */
  lemma SettingsRoundTrip(s: Settings, env: Env, order: seq<string>, defaults: map<string, string>)
    requires IsOrder(order, s.args) && (Clean(s.args) || Clean(defaults))
    ensures FromEnv(Written(s, Joined(s.args, order), env), defaults) == Some(s.(args := defaults + s.args))
            <==> !Stale(s, env) && Clean(s.args)
  {
    hide Print, Atoi, Parsed, Joined, Written, Clean;
    WrittenReads(s, Joined(s.args, order), env);
    AtoiPrint(s.workers);
    AtoiPrint(s.parallelism);
    AtoiPrint(s.requests);
    if s.duration.Some? {
      AtoiPrint(s.duration.value);
    }
    OverridesClean(s.args, order, defaults);
  }

  /** Over all defaults at once: the settings come back exactly when no stale duration is in the map and
      no argument has a separator where the text is cut. */
  lemma SettingsRoundTripIff(s: Settings, env: Env, order: seq<string>)
    requires IsOrder(order, s.args)
    ensures (forall defaults: map<string, string> ::
               FromEnv(Written(s, Joined(s.args, order), env), defaults) == Some(s.(args := defaults + s.args)))
            <==> !Stale(s, env) && Clean(s.args)
  {
    hide FromEnv, Joined, Written, CleanEntry, Stale;
    var e := Written(s, Joined(s.args, order), env);
    var none: map<string, string> := map[];
    SettingsRoundTrip(s, env, order, none);
    if Clean(s.args) {
      forall defaults: map<string, string>
        ensures FromEnv(e, defaults) == Some(s.(args := defaults + s.args)) <==> !Stale(s, env)
      {
        SettingsRoundTrip(s, env, order, defaults);
      }
    }
    assert FromEnv(e, none) == Some(s.(args := none + s.args)) <==> !Stale(s, env) && Clean(s.args);
  }

  /** The other variables of the map are left alone. */
  lemma OthersKept(s: Settings, joined: string, env: Env, key: string)
    requires !IsVariable(key)
    ensures Getenv(Written(s, joined, env), key) == Getenv(env, key)
  {
    hide Print;
  }

  /** Settings can be read exactly when the three numbers, and the duration if there is one, are numbers. */
  lemma ReadsIff(env: Env, defaults: map<string, string>)
    ensures FromEnv(env, defaults).Some? <==>
            && Atoi(Getenv(env, "BENCHMARK_WORKERS")).Some?
            && Atoi(Getenv(env, "BENCHMARK_PARALLELISM")).Some?
            && Atoi(Getenv(env, "BENCHMARK_REQUESTS")).Some?
            && (Getenv(env, "BENCHMARK_DURATION") == "" || Atoi(Getenv(env, "BENCHMARK_DURATION")).Some?)
  {
    hide Atoi, Parsed;
  }

  /** What a stale duration does: it is read back in place of none, or stops the reader. */
  lemma StaleTakesOver(s: Settings, env: Env, order: seq<string>, defaults: map<string, string>)
    requires Stale(s, env) && IsOrder(order, s.args) && Clean(s.args)
    ensures var left := Atoi(Getenv(env, DURATION));
            FromEnv(Written(s, Joined(s.args, order), env), defaults)
            == if left.None? then None else Some(s.(duration := left, args := defaults + s.args))
  {
    hide Print, Atoi, Parsed, Joined, Written;
    WrittenReads(s, Joined(s.args, order), env);
    AtoiPrint(s.workers);
    AtoiPrint(s.parallelism);
    AtoiPrint(s.requests);
    RoundTripIff(s.args, order);
  }

  /** Five nanoseconds left over in the map become the limit of a benchmark that had none. */
  lemma FiveLeftOver(s: Settings, order: seq<string>)
    requires s.duration.None? && IsOrder(order, s.args) && Clean(s.args)
    ensures FromEnv(Written(s, Joined(s.args, order), map[DURATION := Print(5)]), map[])
         == Some(s.(duration := Some(5)))
  {
    hide Print, Atoi, Written, Joined, Parsed;
    var env := map[DURATION := Print(5)];
    AtoiPrint(5);
    StaleTakesOver(s, env, order, map[]);
    assert map[] + s.args == s.args;
  }

  // ------------------------------------------------------------------ from process to process

  /** The variable the command line puts the cluster's arguments in, and the only one it starts from. */
  const CLUSTER_ARGS := "ONIT_ARGS"

  lemma ClusterArgsDiffer()
    ensures CLUSTER_ARGS != DURATION
  {
    assert |CLUSTER_ARGS| == 9;
    KeysDiffer();
  }

  /** The first hop, from a map with nothing but the cluster's arguments: no duration can be stale, so
      the settings come back exactly when the arguments have no separator where the text is cut. */
  lemma FirstHopIff(s: Settings, env: Env, order: seq<string>, defaults: map<string, string>)
    requires env.Keys <= {CLUSTER_ARGS} && IsOrder(order, s.args) && Clean(defaults)
    ensures FromEnv(Written(s, Joined(s.args, order), env), defaults) == Some(s.(args := defaults + s.args))
            <==> Clean(s.args)
  {
    hide FromEnv, Written, Joined, Clean;
    ClusterArgsDiffer();
    SettingsRoundTrip(s, env, order, defaults);
  }

  /** Settings read from an environment can be written back over it: nothing in it is stale for them, and
      no argument can have a separator where the text is cut. */
  lemma ReadIsClean(env: Env, defaults: map<string, string>, s: Settings)
    requires FromEnv(env, defaults) == Some(s) && Clean(defaults)
    ensures !Stale(s, env) && Clean(s.args) && defaults + s.args == s.args
  {
    hide Atoi, Parsed, CleanEntry;
    ParsedClean(Getenv(env, ARGS));
    var parsed := Parsed(Getenv(env, ARGS));
    assert Clean(defaults + parsed);
    assert defaults + (defaults + parsed) == defaults + parsed;
  }

  /** Every hop after the first is lossless: settings that were read, with another name, image or suite
      but the same limit and arguments, are written over the environment they were read from and read
      back as they are. */
  lemma NextHop(env: Env, defaults: map<string, string>, read: Settings, s: Settings, order: seq<string>)
    requires FromEnv(env, defaults) == Some(read) && Clean(defaults)
    requires s.duration == read.duration && s.args == read.args && IsOrder(order, s.args)
    ensures FromEnv(Written(s, Joined(s.args, order), env), defaults) == Some(s)
  {
    hide FromEnv, Written, Joined, Clean;
    ReadIsClean(env, defaults, read);
    SettingsRoundTrip(s, env, order, defaults);
    assert s.(args := defaults + s.args) == s;
  }

  /** Any number of hops, with whatever orders their maps are walked in. */
  ghost function Hops(env: Env, s: Settings, orders: seq<seq<string>>): Env
    requires forall i :: 0 <= i < |orders| ==> IsOrder(orders[i], s.args)
    decreases |orders|
  {
    if orders == [] then env
    else assert IsOrder(orders[0], s.args); Hops(Written(s, Joined(s.args, orders[0]), env), s, orders[1..])
  }

  /** Settings read once are read the same after any number of hops. */
  lemma {:induction false} HopsLossless(env: Env, defaults: map<string, string>, s: Settings, orders: seq<seq<string>>)
    requires FromEnv(env, defaults) == Some(s) && Clean(defaults)
    requires forall i :: 0 <= i < |orders| ==> IsOrder(orders[i], s.args)
    ensures FromEnv(Hops(env, s, orders), defaults) == Some(s)
    decreases |orders|
  {
    hide FromEnv, Written, Joined, Clean;
    if orders != [] {
      NextHop(env, defaults, s, s, orders[0]);
      HopsLossless(Written(s, Joined(s.args, orders[0]), env), defaults, s, orders[1..]);
    }
  }

  /** Through the object: writing, then reading what was written, under the defaults in `text`; a nil
      map fails. */
  method RoundTrip(c: BenchmarkConfig, text: string) returns (s: Option<Settings>)
    modifies c
    ensures old(c.env).None? ==> s.None?
    ensures old(c.env).Some? ==>
              (s == Some(old(c.settings).(args := Parsed(text) + old(c.settings).args))
               <==> !Stale(old(c.settings), old(c.env).value) && Clean(old(c.settings).args))
  {
    hide FromEnv, Written, Stale, Joined, Parsed, Clean;
    ghost var before := c.env;
    var env := c.ToEnv();
    if env.None? {
      return None;
    }
    ghost var order :| IsOrder(order, c.settings.args)
                       && env == Some(Written(c.settings, Joined(c.settings.args, order), before.value));
    var defaults := SplitMap(text);
    ParsedClean(text);
    SettingsRoundTrip(c.settings, before.value, order, defaults);
    s := FromEnv(env.value, defaults);
  }
}
