/** The whole of sd-idle: the command line decides a configuration, and the daemon runs
    under it (sd-idle/src/sd-idle-2.6.c:111-127). */
module SdIdle {
  import opened Strings
  import opened DiskMask
  import opened DiskMachine
  import opened DiskHistory
  import opened DiskOrder
  import opened Daemon
  import opened Options

  // The options that an argument list writes down, none when it is malformed.
  function Given(args: seq<string>): seq<Opt> {
    match ReadOptions(args)
    case None => []
    case Some(opts) => opts
  }

  // The configuration left behind by an accepted argument list.
  ghost predicate Configures(abi: Abi, args: seq<string>, cfg: Config) {
    match FinalSettings(abi, args)
    case None => false
    case Some(s) => Describes(cfg.managing, s.choice) && cfg.idletime == s.idletime && cfg.checktime == s.checktime
  }

  lemma ManagedLetters(mask: bv32, c: Choice, d: nat)
    requires Describes(mask, c) && d < DISKS
    ensures IsSet(mask, d) <==> d in c.disks
  {
    hide IsSet;
  }

  /** Accepted arguments give a configuration the machine is defined for: times at their
      minima or above, and exactly the disks that the -d options select. */
  lemma ConfigurationMeans(abi: Abi, args: seq<string>, cfg: Config)
    requires Configures(abi, args, cfg)
    ensures cfg.Valid() && cfg.idletime >= IDLETIME_MIN && cfg.checktime >= CHECKTIME_MIN
    ensures forall d :: 0 <= d < DISKS ==> (IsSet(cfg.managing, d) <==> d in FoldChoice(Given(args)).disks)
  {
    hide IsSet, Describes, FoldChoice, ReadOptions, ApplyOptions;
    AcceptedSettings(abi, Given(args));
    var s := FinalSettings(abi, args).value;
    forall d | 0 <= d < DISKS ensures IsSet(cfg.managing, d) <==> d in FoldChoice(Given(args)).disks {
      ManagedLetters(cfg.managing, s.choice, d);
    }
  }

  lemma NoDowns(events: seq<Event>)
    requires events == []
    ensures Downs(events) == 0
  {
  }

  /** From the command line to the disk: in every run under accepted arguments a disk is
      stopped once for each streak of its lines that reaches the threshold when the -d
      options select it, and never otherwise. */
  lemma StopsOfArguments(abi: Abi, args: seq<string>, cfg: Config, xs: seq<Input>, d: nat)
    requires Configures(abi, args, cfg) && d < DISKS
    ensures cfg.checktime > 0
    ensures CountOf(Stops(Run(cfg, Start(), xs).log), d)
         == if d in FoldChoice(Given(args)).disks then |Crossings(cfg, Accepted(cfg.managing, xs, d))| else 0
  {
    hide IsSet, Configures, FoldChoice, Given, Run, Start, Accepted, Crossings, Stops, CountOf, EventsOf;
    ConfigurationMeans(abi, args, cfg);
    if d in FoldChoice(Given(args)).disks {
      StopsCountStreaks(cfg, xs, d);
    } else {
      UnmanagedUntouched(cfg, xs, d);
      StopsAreDowns(Run(cfg, Start(), xs).log, d);
      NoDowns(EventsOf(Run(cfg, Start(), xs).log, d));
    }
  }

  /** The program: an exit, or the daemon with the configuration of the arguments, whose
      messages and stop commands are those of the run over all lines of all passes. */
  method SdIdle(abi: Abi, args: seq<string>, passes: seq<seq<Input>>)
      returns (outcome: Outcome, messages: seq<string>, stops: seq<nat>)
    requires forall cfg :: Configures(abi, args, cfg) ==> SafeRun(cfg, Start(), Flat(passes))
    ensures outcome == Expected(abi, args)
    ensures outcome.Exit? ==> messages == [] && stops == []
    ensures outcome == Proceed ==>
              exists cfg :: && Configures(abi, args, cfg)
                            && messages == Texts(Run(cfg, Start(), Flat(passes)).log)
                            && stops == Stops(Run(cfg, Start(), Flat(passes)).log)
  {
    hide FinalSettings, Describes, Run, SafeRun, Texts, Stops, Start;
    var options := new Options(abi);
    outcome := options.ParseOptions(args);
    if outcome.Exit? { return outcome, [], []; }
    ghost var cfg := Config(options.idletime, options.checktime, options.managing);
    assert Configures(abi, args, cfg);
    ConfigurationMeans(abi, args, cfg);
    var daemon := new Daemon(options.idletime, options.checktime, options.managing);
    daemon.Manage(passes);
    messages, stops := daemon.messages, daemon.stops;
    assert messages == Texts(Run(cfg, Start(), Flat(passes)).log);
  }
}
