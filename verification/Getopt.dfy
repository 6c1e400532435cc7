/**
  The resumable scanner.  Each call reports one option and permutes `argv` in place; the
  contract of a call says that the report is the next event of `GetoptSpec.Scan` and that
  what is consumed, skipped and still to come adds up to the same meaning as before.
 */
module Getopt {
  import opened Common
  import opened ArgvExchange
  import opened GetoptSpec

  // ---- The state between calls, as a value -------------------------------------------

  /** `chars` is what is left of the element at `optind`, empty between elements. */
  datatype State = State(av: seq<string>, first: int, last: int, optind: int, chars: string)

  ghost predicate Bounds(s: State) { 1 <= s.first <= s.last <= s.optind <= |s.av| }

  ghost predicate Between(cfg: Config, s: State) {
    && Bounds(s)
    && (cfg.ordering != Permute ==> s.first == s.last)
    && (s.chars != [] ==> Entered(cfg, s.chars, s.av[s.optind..]))
  }

  /** With `r` of the option element `args[0]` still to come, the run ends as from its start. */
  ghost predicate Entered(cfg: Config, r: string, args: seq<string>) {
    && args != [] && !NonOption(args[0]) && args[0] != "--"
    && r != [] && ScanElement(cfg, r, args).end == Scan(cfg, args).end
  }

  /** Options already consumed, in order: those moved to the front and those since. */
  ghost function Consumed(s: State): seq<string>
    requires Bounds(s)
  {
    s.av[1..s.first] + s.av[s.last..s.optind]
  }

  ghost function Remaining(cfg: Config, s: State): Parse
    requires Between(cfg, s)
  {
    if s.chars == [] then Scan(cfg, s.av[s.optind..]) else ScanElement(cfg, s.chars, s.av[s.optind..])
  }

  /** The meaning of the whole list from here: pending events, all options, all left-overs. */
  ghost function Total(cfg: Config, s: State): Parse
    requires Between(cfg, s)
  {
    var p := Remaining(cfg, s);
    Parse(p.events, Consumed(s) + p.opts, s.av[s.first..s.last] + p.rest, p.end)
  }

  /** From the meaning `p` of the list, a call took the first event and nothing else. */
  ghost predicate Reports(cfg: Config, p: Parse, t: State)
    requires p.events != []
  {
    Between(cfg, t) && Total(cfg, t) == p.(events := p.events[1..])
  }

  /** The event to report is the one that goes wrong. */
  ghost predicate Fails(p: Parse) { |p.events| == 1 && p.end != Done }

  /** The event to report takes `optind` behind the list. */
  ghost predicate RunsOut(p: Parse) { Fails(p) && p.end == Overruns }

  /** What a call leaves after reporting the first event of `p`: the other events still to come,
      or a list that will never end, or `optind` behind the list. */
  ghost predicate Follows(cfg: Config, p: Parse, t: State)
    requires p.events != []
  {
    if !Fails(p) then Reports(cfg, p, t)
    else if p.end == Loops then Between(cfg, t) && Total(cfg, t).end == Loops
    else t.optind == |t.av| + 1
  }

  /** The call that ends the run leaves options first, then left-overs, `optind` between. */
  ghost predicate Ends(p: Parse, t: State) {
    && p.events == [] && p.end == Done
    && t.av != [] && t.av == [t.av[0]] + p.opts + p.rest
    && t.optind == 1 + |p.opts|
  }

  /** What a call answers when the meaning of the list is `p`: the next event, or the end. */
  ghost predicate Answers(cfg: Config, p: Parse, t: State, ret: int) {
    if p.events == [] then ret == -1 && Ends(p, t)
    else ret == p.events[0].ret && Follows(cfg, p, t)
  }

  // ---- Each move of the scanner keeps the meaning ----------------------------------------

  lemma ExchangeKeeps(cfg: Config, s: State)
    requires Between(cfg, s) && s.chars == []
    ensures var t := s.(av := Exchanged(s.av, s.first, s.last, s.optind),
                        first := s.first + s.optind - s.last, last := s.optind);
      cfg.ordering == Permute ==> Between(cfg, t) && Total(cfg, t) == Total(cfg, s) && t.av[0] == s.av[0]
  {
    var t := s.(av := Exchanged(s.av, s.first, s.last, s.optind),
                first := s.first + s.optind - s.last, last := s.optind);
    assert t.av[t.optind..] == s.av[s.optind..];
    assert t.av[1..t.first] == s.av[1..s.first] + s.av[s.last..s.optind];
    assert t.av[t.last..t.optind] == [];
    assert t.av[t.first..t.last] == s.av[s.first..s.last];
  }

  lemma NoNonOptionsKeeps(cfg: Config, s: State)
    requires Between(cfg, s) && s.chars == [] && s.first == s.last
    ensures var t := s.(first := s.optind, last := s.optind);
      Between(cfg, t) && Total(cfg, t) == Total(cfg, s)
  {
    var t := s.(first := s.optind, last := s.optind);
    assert Consumed(t) == s.av[1..s.optind] == Consumed(s);
  }

  lemma SkipKeeps(cfg: Config, s: State)
    requires Between(cfg, s) && s.chars == [] && cfg.ordering == Permute
    requires s.last == s.optind < |s.av| && NonOption(s.av[s.optind])
    ensures var t := s.(last := s.last + 1, optind := s.optind + 1);
      Between(cfg, t) && Total(cfg, t) == Total(cfg, s)
  {
    var t := s.(last := s.last + 1, optind := s.optind + 1);
    assert s.av[s.optind..][1..] == t.av[t.optind..];
    assert t.av[t.first..t.last] == s.av[s.first..s.last] + [s.av[s.optind]];
    assert Consumed(t) == Consumed(s);
  }

  /** Everything up to `optind` that is not yet consumed is skipped, and the meaning is `total`. */
  ghost predicate Skipping(cfg: Config, s: State, total: Parse) {
    Between(cfg, s) && s.chars == [] && Total(cfg, s) == total
  }

  lemma SkippingNext(cfg: Config, s: State, total: Parse) returns (t: State)
    requires Skipping(cfg, s, total) && cfg.ordering == Permute
    requires s.last == s.optind < |s.av| && NonOption(s.av[s.optind])
    ensures t == s.(last := s.last + 1, optind := s.optind + 1) && Skipping(cfg, t, total)
  {
    t := s.(last := s.last + 1, optind := s.optind + 1);
    SkipKeeps(cfg, s);
  }

  lemma EnterKeeps(cfg: Config, s: State)
    requires Between(cfg, s) && s.chars == [] && s.optind < |s.av|
    requires !NonOption(s.av[s.optind]) && s.av[s.optind] != "--"
    ensures var t := s.(chars := Body(cfg, s.av[s.optind]));
      Between(cfg, t) && Total(cfg, t) == Total(cfg, s)
  {
  }

  /** The state after the step `st` inside the element at `optind`. */
  ghost function Stepped(s: State, st: Step): State {
    s.(optind := s.optind + st.takes, chars := if st.takes == 0 then st.rest else [])
  }

  /** Taking the step `st` from `s` reports the first event of the meaning. */
  ghost predicate Moves(cfg: Config, s: State, st: Step)
    requires Between(cfg, s)
  {
    var p := Total(cfg, s);
    p.events != [] && p.events[0] == st.out && Follows(cfg, p, Stepped(s, st))
  }

  lemma StepReports(cfg: Config, s: State, st: Step)
    requires Between(cfg, s) && s.chars != [] && st == ElementStep(cfg, s.chars, s.av[s.optind..])
    ensures Moves(cfg, s, st)
  {
    if st.takes > |s.av| - s.optind {
      OverrunningStepReports(cfg, s, st);
    } else if st.takes > 0 {
      TakingStepReports(cfg, s, st, Scan(cfg, s.av[s.optind..][st.takes..]));
    } else if st.rest == [] {
      LoopingStepReports(cfg, s, st);
    } else {
      GoingStepReports(cfg, s, st, ScanElement(cfg, st.rest, s.av[s.optind..]));
    }
  }

  lemma OverrunningStepReports(cfg: Config, s: State, st: Step)
    requires Between(cfg, s) && s.chars != []
    requires st == ElementStep(cfg, s.chars, s.av[s.optind..]) && st.takes > |s.av| - s.optind
    ensures Moves(cfg, s, st)
  {
    ScanOverruns(cfg, s.chars, s.av[s.optind..], st);
  }

  lemma GoingStepReports(cfg: Config, s: State, st: Step, q: Parse)
    requires Between(cfg, s) && s.chars != [] && q.events != []
    requires st == ElementStep(cfg, s.chars, s.av[s.optind..]) && st.takes == 0 && st.rest != []
    requires q == ScanElement(cfg, st.rest, s.av[s.optind..])
    ensures Moves(cfg, s, st)
  {
    ScanGoes(cfg, s.chars, s.av[s.optind..], st, q);
    assert ([st.out] + q.events)[1..] == q.events;
  }

  lemma LoopingStepReports(cfg: Config, s: State, st: Step)
    requires Between(cfg, s) && s.chars != []
    requires st == ElementStep(cfg, s.chars, s.av[s.optind..]) && st.takes == 0 && st.rest == []
    ensures Moves(cfg, s, st)
  {
    ScanLoops(cfg, s.chars, s.av[s.optind..], st);
  }

  lemma TakingStepReports(cfg: Config, s: State, st: Step, q: Parse)
    requires Between(cfg, s) && s.chars != [] && (q.end != Done ==> q.events != [])
    requires st == ElementStep(cfg, s.chars, s.av[s.optind..]) && 0 < st.takes <= |s.av| - s.optind
    requires q == Scan(cfg, s.av[s.optind..][st.takes..])
    ensures Moves(cfg, s, st)
  {
    var t := TakenState(s, st.takes);
    assert t == Stepped(s, st) && Between(cfg, t);
    ScanTakes(cfg, s.chars, s.av[s.optind..], st, q);
    var used, skipped := s.av[s.optind..][..st.takes], s.av[s.first..s.last];
    ShiftTaken(Total(cfg, s), Total(cfg, t), st.out, Consumed(s), used, skipped, q);
  }

  lemma ShiftTaken(p: Parse, r: Parse, out: Outcome, consumed: seq<string>, used: seq<string>, skipped: seq<string>,
                   q: Parse)
    requires p == Parse([out] + q.events, consumed + (used + q.opts), skipped + q.rest, q.end)
    requires r == Parse(q.events, consumed + used + q.opts, skipped + q.rest, q.end)
    requires q.end != Done ==> q.events != []
    ensures !Fails(p) && r == p.(events := p.events[1..])
  {
    assert consumed + used + q.opts == consumed + (used + q.opts);
  }

  /** Moving `optind` over `k` elements adds them to the consumed ones. */
  lemma TakenState(s: State, k: int) returns (t: State)
    requires Bounds(s) && 0 < k <= |s.av| - s.optind
    ensures t == s.(optind := s.optind + k, chars := []) && t.av[t.optind..] == s.av[s.optind..][k..]
    ensures Consumed(t) == Consumed(s) + s.av[s.optind..][..k]
  {
    t := s.(optind := s.optind + k, chars := []);
  }

  lemma InOrderReports(cfg: Config, s: State)
    requires Between(cfg, s) && s.chars == [] && s.optind < |s.av|
    requires cfg.ordering == ReturnInOrder && NonOption(s.av[s.optind])
    ensures var p := Total(cfg, s);
      && p.events != [] && p.events[0] == Outcome(1, Some(s.av[s.optind]), None, None, None)
      && !Fails(p) && Reports(cfg, p, s.(optind := s.optind + 1))
  {
    var t := s.(optind := s.optind + 1);
    assert s.av[s.optind..][1..] == t.av[t.optind..];
    assert Consumed(t) == Consumed(s) + [s.av[s.optind]];
  }

  lemma EndTotal(cfg: Config, s: State)
    requires Between(cfg, s) && s.chars == [] && s.optind == |s.av|
    ensures Total(cfg, s) == Parse([], Consumed(s), s.av[s.first..s.last], Done)
  {
    assert s.av[s.optind..] == [];
  }

  lemma EndOfListEnds(cfg: Config, s: State, t: State)
    requires Between(cfg, s) && s.chars == [] && s.optind == |s.av|
    requires cfg.ordering == Permute ==> s.last == s.optind
    requires t.av == s.av && t.optind == if s.first != s.last then s.first else s.optind
    ensures Ends(Total(cfg, s), t)
  {
    EndTotal(cfg, s);
    if cfg.ordering == Permute {
      assert s.av == [s.av[0]] + s.av[1..s.first] + s.av[s.first..s.last];
    } else {
      assert s.av == [s.av[0]] + (s.av[1..s.first] + s.av[s.first..s.optind]);
    }
  }

  lemma RequireOrderEnds(cfg: Config, s: State)
    requires Between(cfg, s) && s.chars == [] && s.optind < |s.av|
    requires cfg.ordering == RequireOrder && NonOption(s.av[s.optind])
    ensures Ends(Total(cfg, s), s)
  {
    assert s.av == [s.av[0]] + (s.av[1..s.first] + s.av[s.first..s.optind]) + s.av[s.optind..];
  }

  /** At "--": it joins the options, everything after it is left over. */
  lemma TerminatorTotal(cfg: Config, s: State)
    requires Between(cfg, s) && s.chars == [] && s.optind < |s.av| && s.av[s.optind] == "--"
    ensures Total(cfg, s) == Parse([], Consumed(s) + ["--"], s.av[s.first..s.last] + s.av[s.optind + 1..], Done)
  {
    assert s.av[s.optind..][1..] == s.av[s.optind + 1..];
  }

  lemma TerminatorEnds(cfg: Config, s: State, t: State)
    requires Between(cfg, s) && s.chars == [] && s.optind < |s.av| && s.av[s.optind] == "--"
    requires s.first != s.last == s.optind
    requires t.av == Exchanged(s.av, s.first, s.last, s.optind + 1) && t.optind == s.first + 1
    ensures Ends(Total(cfg, s), t)
  {
    TerminatorTotal(cfg, s);
    assert Consumed(s) == s.av[1..s.first];
    assert s.av[s.last..s.optind + 1] == ["--"];
    assert s.av[..s.first] == [s.av[0]] + s.av[1..s.first];
  }

  lemma BareTerminatorEnds(cfg: Config, s: State, t: State)
    requires Between(cfg, s) && s.chars == [] && s.optind < |s.av| && s.av[s.optind] == "--"
    requires s.first == s.last
    requires t.av == s.av && t.optind == s.optind + 1
    ensures Ends(Total(cfg, s), t)
  {
    TerminatorTotal(cfg, s);
    assert Consumed(s) == s.av[1..s.optind];
    assert s.av == [s.av[0]] + (s.av[1..s.optind] + ["--"]) + s.av[s.optind + 1..];
  }

  // ---- The scanner -------------------------------------------------------------------------

  class Scanner {
    const argv: array<string>
    var optind: int
    var optarg: Option<string>
    var optopt: int
    var longind: int
    var flags: map<int, int>
    var initialized: bool
    var nextchar: Option<string>
    var ordering: Ordering
    var firstNonopt: int
    var lastNonopt: int

    /** A fresh scanner over `args`: `optind` is 1 and nothing has been scanned. */
    constructor (args: array<string>)
      ensures argv == args && optind == 1 && !initialized
    {
      argv := args;
      optind, initialized, ordering, firstNonopt, lastNonopt := 1, false, Permute, 0, 0;
      optarg, optopt, longind, flags, nextchar := None, '?' as int, 0, map[], None;
    }

    ghost function Snapshot(): State
      reads this, argv
    {
      State(argv[..], firstNonopt, lastNonopt, optind, nextchar.GetOr([]))
    }

    /** Ready for the next call with this configuration. */
    ghost predicate Ready(cfg: Config)
      reads this, argv
    {
      && initialized && ordering == cfg.ordering
      && Between(cfg, Snapshot())
      && (nextchar.GetOr([]) != [] ==> !IsLong(cfg, argv[optind]))
    }

    /** The variables a call leaves behind agree with the report. */
    twostate predicate Shows(out: Outcome)
      reads this
    {
      && optarg == out.optarg
      && optopt == out.optopt.GetOr(old(optopt))
      && longind == out.index.GetOr(old(longind))
      && flags == if out.flag.Some? then old(flags)[out.flag.value.0 := out.flag.value.1] else old(flags)
    }

    /** In PERMUTE order: moves the options since the last non-options in front of them. */
    method GatherOptions(cfg: Config)
      requires Ready(cfg) && nextchar.GetOr([]) == [] && cfg.ordering == Permute
      modifies argv, this`firstNonopt, this`lastNonopt
      ensures argv[..] != [] && argv[0] == old(argv[0])
      ensures Between(cfg, Snapshot().(last := optind))
      ensures Total(cfg, Snapshot().(last := optind)) == old(Total(cfg, Snapshot()))
    {
      if firstNonopt != lastNonopt && lastNonopt != optind {
        ExchangeKeeps(cfg, Snapshot());
        Exchange(argv, firstNonopt, lastNonopt, optind);
        firstNonopt, lastNonopt := firstNonopt + (optind - lastNonopt), optind;
      } else if lastNonopt != optind {
        NoNonOptionsKeeps(cfg, Snapshot());
        firstNonopt := optind;
      }
    }

    /** Then skips to the next option. */
    method SkipNonOptions(cfg: Config)
      requires Ready(cfg) && nextchar.GetOr([]) == [] && cfg.ordering == Permute
      modifies argv, this`optind, this`firstNonopt, this`lastNonopt
      ensures Ready(cfg) && lastNonopt == optind
      ensures argv[..] != [] && argv[0] == old(argv[0]) && Total(cfg, Snapshot()) == old(Total(cfg, Snapshot()))
      ensures optind < argv.Length ==> !NonOption(argv[optind])
    {
      GatherOptions(cfg);
      SkipForward(cfg, old(Total(cfg, Snapshot())));
      lastNonopt := optind;
    }

    /** The loop over non-options: everything before `optind` that is not consumed is skipped. */
    method SkipForward(cfg: Config, ghost total: Parse)
      requires cfg.ordering == Permute && Skipping(cfg, Snapshot().(last := optind), total)
      modifies this`optind
      ensures Skipping(cfg, Snapshot().(last := optind), total)
      ensures optind < argv.Length ==> !NonOption(argv[optind])
    {
      ghost var s := Snapshot().(last := optind);
      while optind < argv.Length && NonOption(argv[optind])
        invariant s == Snapshot().(last := optind) && Skipping(cfg, s, total)
      {
        s := SkippingNext(cfg, s, total);
        optind := optind + 1;
      }
    }

    /** The "--" element and the end of the list.  Returns whether the run is over. */
    method AtEnd(cfg: Config) returns (over: bool)
      requires Ready(cfg) && nextchar.GetOr([]) == []
      requires cfg.ordering == Permute ==> lastNonopt == optind
      modifies argv, this`optind, this`firstNonopt, this`lastNonopt
      ensures over == old(optind == argv.Length || argv[optind] == "--")
      ensures over ==> Ends(old(Total(cfg, Snapshot())), Snapshot()) && argv[0] == old(argv[0])
      ensures !over ==> Snapshot() == old(Snapshot())
    {
      ghost var s := Snapshot();
      if optind != argv.Length && argv[optind] == "--" {
        optind := optind + 1;
        if firstNonopt != lastNonopt && lastNonopt != optind {
          Exchange(argv, firstNonopt, lastNonopt, optind);
          firstNonopt, lastNonopt := firstNonopt + (optind - lastNonopt), optind;
        } else if firstNonopt == lastNonopt {
          firstNonopt := optind;
        }
        lastNonopt := argv.Length;
        optind := argv.Length;
      }
      if optind == argv.Length {
        if firstNonopt != lastNonopt {
          optind := firstNonopt;
        }
        if s.optind == |s.av| { EndOfListEnds(cfg, s, Snapshot()); }
        else if s.first != s.last { TerminatorEnds(cfg, s, Snapshot()); }
        else { BareTerminatorEnds(cfg, s, Snapshot()); }
        return true;
      }
      return false;
    }

    // ---- Long options ------------------------------------------------------------------

    static method NameEnd(r: string) returns (e: int)
      ensures e == if Find(r, '=') < 0 then |r| else Find(r, '=')
    {
      e := 0;
      while e < |r| && r[e] != '='
        invariant 0 <= e <= |r|
        invariant '=' !in r[..e]
      {
        e := e + 1;
      }
    }

    static method FindLong(opts: seq<LongOption>, name: string) returns (m: Match)
      ensures m == Lookup(opts, name, 0, -1, false)
    {
      var i, found, ambiguous := 0, -1, false;
      while i < |opts|
        invariant 0 <= i <= |opts| && -1 <= found < |opts|
        invariant Lookup(opts, name, 0, -1, false) == Lookup(opts, name, i, found, ambiguous)
      {
        if Abbreviates(name, opts[i].name) {
          if |name| == |opts[i].name| {
            return Found(i);
          } else if found < 0 {
            found := i;
          } else if !SameAction(opts[found], opts[i]) {
            ambiguous := true;
          }
        }
        i := i + 1;
      }
      m := if found < 0 then NotFound else if ambiguous then Ambiguous else Found(found);
    }

    /** A long option: `nextchar` holds the text after the two dashes. */
    method LongElement(cfg: Config) returns (ret: int)
      requires nextchar.Some? && nextchar.value != [] && cfg.longopts.Some? && 0 <= optind < argv.Length
      requires optarg == None
      modifies this`optind, this`optarg, this`optopt, this`longind, this`flags, this`nextchar
      ensures var next := if old(optind) + 1 < argv.Length then Some(argv[old(optind) + 1]) else None;
        var st := LongStep(cfg, old(nextchar.value), next);
        && ret == st.out.ret && Shows(st.out)
        && optind == old(optind) + st.takes && nextchar == Some([])
    {
      var r := nextchar.value;
      var nameend := NameEnd(r);
      assert r[..|r|] == r;
      var m := FindLong(cfg.longopts.value, r[..nameend]);
      nextchar := Some([]);
      if m.Ambiguous? {
        optind, optopt := optind + 1, 0;
        return '?' as int;
      }
      if m.Found? {
        var pfound := cfg.longopts.value[m.index];
        optind := optind + 1;
        if nameend < |r| {
          if pfound.hasArg != 0 {
            optarg := Some(r[nameend + 1..]);
          } else {
            optopt := pfound.val;
            return '?' as int;
          }
        } else if pfound.hasArg == 1 {
          if optind < argv.Length {
            optarg := Some(argv[optind]);
            optind := optind + 1;
          } else {
            optopt := pfound.val;
            return MissingArgument(cfg);
          }
        }
        longind := m.index;
        if pfound.flag.Some? {
          flags := flags[pfound.flag.value := pfound.val];
          return 0;
        }
        return pfound.val;
      }
      optind, optopt := optind + 1, 0;
      return '?' as int;
    }

    // ---- Short options ---------------------------------------------------------------------

    /** `-W text`: `text` names a long option and ends before `optind`. */
    method NamedElement(cfg: Config, text: string, ghost start: int, ghost used: int) returns (ret: int)
      requires cfg.longopts.Some? && optarg == Some(text)
      requires 0 <= start && 1 <= used && optind == start + used <= argv.Length
      modifies this`optind, this`optarg, this`longind, this`flags, this`nextchar
      ensures var st := NamedByW(cfg, text, used, argv[..][start..]);
        ret == st.out.ret && Shows(st.out) && optind == start + st.takes && nextchar.GetOr([]) == []
    {
      var nameend := NameEnd(text);
      assert text[..|text|] == text;
      var m := FindLong(cfg.longopts.value, text[..nameend]);
      if m.Ambiguous? {
        nextchar := Some([]);
        optind := optind + 1;
        return '?' as int;
      }
      if m.Found? {
        nextchar := Some([]);
        var pfound := cfg.longopts.value[m.index];
        if nameend < |text| {
          if pfound.hasArg != 0 {
            optarg := Some(text[nameend + 1..]);
          } else {
            return '?' as int;
          }
        } else if pfound.hasArg == 1 {
          if optind < argv.Length {
            optarg := Some(argv[optind]);
            optind := optind + 1;
          } else {
            return MissingArgument(cfg);
          }
        } else {
          optarg := None;
        }
        longind := m.index;
        if pfound.flag.Some? {
          flags := flags[pfound.flag.value := pfound.val];
          return 0;
        }
        return pfound.val;
      }
      nextchar := None;
      return 'W' as int;
    }

    /** `W` in a cluster where it spells long options: `nextchar` holds what follows it. */
    method ElementByW(cfg: Config, ghost start: int) returns (ret: int)
      requires nextchar.Some? && optarg == None && 0 <= start < argv.Length
      requires optind == if nextchar.value == [] then start + 1 else start
      modifies this`optind, this`optarg, this`optopt, this`longind, this`flags, this`nextchar
      ensures var st := StepByW(cfg, old(nextchar.value), argv[..][start..]);
        ret == st.out.ret && Shows(st.out) && optind == start + st.takes && nextchar.GetOr([]) == []
    {
      if cfg.longopts.None? {
        nextchar := None;
        return 'W' as int;
      }
      if nextchar.value != [] {
        optarg := nextchar;
        optind := optind + 1;
        ret := NamedElement(cfg, nextchar.value, start, 1);
      } else if optind == argv.Length {
        optopt := 'W' as int;
        return MissingArgument(cfg);
      } else {
        optarg := Some(argv[optind]);
        optind := optind + 1;
        ret := NamedElement(cfg, optarg.value, start, 2);
      }
    }

    /** One character of a cluster of short options. */
    method ShortElement(cfg: Config) returns (ret: int)
      requires nextchar.Some? && nextchar.value != [] && 0 <= optind < argv.Length && optarg == None
      modifies this`optind, this`optarg, this`optopt, this`longind, this`flags, this`nextchar
      ensures var st := ShortStep(cfg, old(nextchar.value), argv[..][old(optind)..]);
        && ret == st.out.ret && Shows(st.out)
        && optind == old(optind) + st.takes && nextchar.GetOr([]) == if st.takes == 0 then st.rest else []
    {
      var c := nextchar.value[0];
      var more := nextchar.value[1..];
      nextchar := Some(more);
      var temp := Find(cfg.optstring, c);
      if more == [] {
        optind := optind + 1;
      }
      if temp < 0 || c == ':' || c == ';' {
        optopt := Value(c);
        return '?' as int;
      }
      if c == 'W' && At(cfg.optstring, temp + 1) == ';' {
        ret := ElementByW(cfg, old(optind));
        return;
      }
      if At(cfg.optstring, temp + 1) == ':' {
        nextchar := None;
        if At(cfg.optstring, temp + 2) == ':' {
          if more != [] {
            optarg := Some(more);
            optind := optind + 1;
          }
        } else {
          if more != [] {
            optarg := Some(more);
            optind := optind + 1;
          } else if optind == argv.Length {
            optopt := Value(c);
            return MissingArgument(cfg);
          } else {
            optarg := Some(argv[optind]);
            optind := optind + 1;
          }
        }
      }
      return Value(c);
    }

    // ---- One call ------------------------------------------------------------------------------

    /** One step inside the element at `optind`, long or short. */
    method StepElement(cfg: Config) returns (ret: int)
      requires Between(cfg, Snapshot()) && nextchar.GetOr([]) != [] && optarg == None
      modifies this`optind, this`optarg, this`optopt, this`longind, this`flags, this`nextchar
      ensures var st := ElementStep(cfg, old(nextchar.GetOr([])), argv[..][old(optind)..]);
        && ret == st.out.ret && Shows(st.out) && Snapshot() == Stepped(old(Snapshot()), st)
    {
      if cfg.longopts.Some? && |argv[optind]| >= 2 && argv[optind][1] == '-' {
        ret := LongElement(cfg);
      } else {
        ret := ShortElement(cfg);
      }
    }

    /** The element at `optind`, from where the last call left it. */
    method Element(cfg: Config, ghost p: Parse) returns (ret: int)
      requires initialized && ordering == cfg.ordering
      requires Between(cfg, Snapshot()) && nextchar.GetOr([]) != [] && optarg == None && p == Total(cfg, Snapshot())
      modifies this`optind, this`optarg, this`optopt, this`longind, this`flags, this`nextchar
      ensures Answers(cfg, p, Snapshot(), ret)
      ensures p.events != [] && Shows(p.events[0]) && (!RunsOut(p) ==> Ready(cfg))
    {
      StepReports(cfg, Snapshot(), ElementStep(cfg, nextchar.GetOr([]), argv[..][optind..]));
      ret := StepElement(cfg);
    }

    /** Brings `optind` to the element to look at next. */
    method Settle(cfg: Config)
      requires Ready(cfg) && nextchar.GetOr([]) == []
      modifies argv, this`optind, this`firstNonopt, this`lastNonopt
      ensures Ready(cfg) && (cfg.ordering == Permute ==> lastNonopt == optind)
      ensures argv[..] != [] && argv[0] == old(argv[0]) && Total(cfg, Snapshot()) == old(Total(cfg, Snapshot()))
      ensures cfg.ordering == Permute && optind < argv.Length ==> !NonOption(argv[optind])
    {
      lastNonopt := if lastNonopt > optind then optind else lastNonopt;
      firstNonopt := if firstNonopt > optind then optind else firstNonopt;
      if ordering == Permute {
        SkipNonOptions(cfg);
      }
    }

    /** Between elements: moves on to the next option element, or to the end of the run, or
        over one non-option that is to be reported in order. */
    method Advance(cfg: Config, ghost p: Parse) returns (ret: Option<int>)
      requires Ready(cfg) && nextchar.GetOr([]) == [] && optarg == None && p == Total(cfg, Snapshot())
      modifies argv, this`optind, this`firstNonopt, this`lastNonopt, this`optarg, this`nextchar
      ensures argv[..] != [] && argv[0] == old(argv[0])
      ensures ret == None ==>
        Between(cfg, Snapshot()) && nextchar.GetOr([]) != [] && optarg == None && Total(cfg, Snapshot()) == p
      ensures ret.Some? ==> Answers(cfg, p, Snapshot(), ret.value)
      ensures ret.Some? && p.events != [] ==> Ready(cfg) && p.events[0] == Outcome(1, optarg, None, None, None)
    {
      Settle(cfg);
      var over := AtEnd(cfg);
      if over {
        return Some(-1);
      }
      ret := OpenElement(cfg, p);
    }

    /** At an element that does not end the list. */
    method OpenElement(cfg: Config, ghost p: Parse) returns (ret: Option<int>)
      requires Ready(cfg) && nextchar.GetOr([]) == [] && optarg == None && p == Total(cfg, Snapshot())
      requires optind < argv.Length && argv[optind] != "--"
      requires cfg.ordering == Permute ==> !NonOption(argv[optind])
      modifies this`optind, this`optarg, this`nextchar
      ensures ret == None ==>
        Between(cfg, Snapshot()) && nextchar.GetOr([]) != [] && optarg == None && Total(cfg, Snapshot()) == p
      ensures ret.Some? ==> Answers(cfg, p, Snapshot(), ret.value)
      ensures ret.Some? && p.events != [] ==> Ready(cfg) && p.events[0] == Outcome(1, optarg, None, None, None)
    {
      ghost var s := Snapshot();
      if NonOption(argv[optind]) {
        if ordering == RequireOrder {
          RequireOrderEnds(cfg, s);
          return Some(-1);
        }
        InOrderReports(cfg, s);
        optarg := Some(argv[optind]);
        optind := optind + 1;
        return Some(1);
      }
      EnterKeeps(cfg, s);
      nextchar := Some(Body(cfg, argv[optind]));
      return None;
    }

    method NextElement(cfg: Config, ghost p: Parse) returns (ret: int)
      requires Ready(cfg) && nextchar.GetOr([]) == [] && optarg == None && p == Total(cfg, Snapshot())
      modifies this`optind, this`optarg, this`optopt, this`longind, this`flags, this`nextchar
      modifies argv, this`firstNonopt, this`lastNonopt
      ensures argv[..] != [] && argv[0] == old(argv[0])
      ensures Answers(cfg, p, Snapshot(), ret)
      ensures p.events != [] ==> Shows(p.events[0]) && (!RunsOut(p) ==> Ready(cfg))
    {
      var r := Advance(cfg, p);
      if r.Some? {
        return r.value;
      }
      ret := Element(cfg, p);
    }

    /** One call after initialisation: reports the next event, or ends the run. */
    method Next(cfg: Config, ghost p: Parse) returns (ret: int)
      requires Ready(cfg) && optarg == None && p == Total(cfg, Snapshot())
      modifies this, argv
      ensures initialized && ordering == cfg.ordering
      ensures argv[..] != [] && argv[0] == old(argv[0])
      ensures Answers(cfg, p, Snapshot(), ret)
      ensures p.events != [] ==> Shows(p.events[0]) && (!RunsOut(p) ==> Ready(cfg))
    {
      if nextchar.None? || nextchar.value == [] {
        ret := NextElement(cfg, p);
      } else {
        ret := Element(cfg, p);
      }
    }

    /** Sets up the scanner and strips the ordering character from the option string. */
    method Initialize(optstring: string, ghost longopts: Option<seq<LongOption>>, posixlyCorrect: bool)
        returns (stripped: string)
      modifies this`firstNonopt, this`lastNonopt, this`nextchar, this`ordering
      ensures firstNonopt == lastNonopt == optind && nextchar == None
      ensures Configure(optstring, longopts, posixlyCorrect) == Config(stripped, longopts, ordering)
    {
      firstNonopt, lastNonopt, nextchar := optind, optind, None;
      stripped := optstring;
      if optstring != [] && optstring[0] == '-' {
        ordering, stripped := ReturnInOrder, optstring[1..];
      } else if optstring != [] && optstring[0] == '+' {
        ordering, stripped := RequireOrder, optstring[1..];
      } else if posixlyCorrect {
        ordering := RequireOrder;
      } else {
        ordering := Permute;
      }
    }

    ghost predicate NeedsInit()
      reads this
    {
      optind == 0 || !initialized
    }

    /** The state a call starts from, after the set-up it may do first. */
    ghost function Start(): State
      reads this, argv
    {
      if NeedsInit() then var k := if optind == 0 then 1 else optind; State(argv[..], k, k, k, [])
      else Snapshot()
    }

    /** A call with this configuration may come next. */
    ghost predicate Callable(cfg: Config)
      reads this, argv
    {
      if NeedsInit() then 0 <= optind <= argv.Length else Ready(cfg)
    }

    /** What a call does before it looks at any element. */
    method Prepare(optstring: string, ghost longopts: Option<seq<LongOption>>, posixlyCorrect: bool)
        returns (stripped: string)
      requires argv.Length > 0 && Callable(Configure(optstring, longopts, posixlyCorrect))
      modifies this`optarg, this`optind, this`initialized, this`firstNonopt, this`lastNonopt, this`nextchar,
        this`ordering
      ensures optarg == None && Configure(optstring, longopts, posixlyCorrect) == Config(stripped, longopts, ordering)
      ensures Ready(Config(stripped, longopts, ordering)) && Snapshot() == old(Start())
    {
      optarg := None;
      stripped := optstring;
      if optind == 0 || !initialized {
        if optind == 0 {
          optind := 1;
        }
        stripped := Initialize(optstring, longopts, posixlyCorrect);
        initialized := true;
      } else if optstring != [] && (optstring[0] == '-' || optstring[0] == '+') {
        stripped := optstring[1..];
      }
    }

    /** One call of getopt or getopt_long. */
    method Call(optstring: string, longopts: Option<seq<LongOption>>, posixlyCorrect: bool) returns (ret: int)
      requires argv.Length > 0 ==> Callable(Configure(optstring, longopts, posixlyCorrect))
      modifies this, argv
      ensures argv.Length == 0 ==> ret == -1
      ensures argv.Length > 0 ==>
        var cfg := Configure(optstring, longopts, posixlyCorrect);
        var p := old(Total(cfg, Start()));
        && initialized && argv[0] == old(argv[0]) && Answers(cfg, p, Snapshot(), ret)
        && (p.events != [] ==> Shows(p.events[0]) && (!RunsOut(p) ==> Ready(cfg)))
    {
      if argv.Length < 1 {
        return -1;
      }
      var stripped := Prepare(optstring, longopts, posixlyCorrect);
      ghost var cfg := Config(stripped, longopts, ordering);
      ret := Next(Config(stripped, longopts, ordering), Total(cfg, Snapshot()));
    }
  }

  // ---- Whole runs ------------------------------------------------------------------------------

  /** How many events come before the first one that a caller takes for the end. */
  ghost function BeforeEnd(events: seq<Outcome>): (k: nat)
    ensures k <= |events| && (k < |events| ==> events[k].ret == -1)
    ensures forall i :: 0 <= i < k ==> events[i].ret != -1
  {
    if events == [] || events[0].ret == -1 then 0 else 1 + BeforeEnd(events[1..])
  }

  /** Calling until -1 comes to an end: the list does, or an option has the value -1. */
  ghost predicate Finishes(p: Parse) { p.end == Done || BeforeEnd(p.events) < |p.events| }

  /** Calls getopt until it returns -1.  For every argument list, option string and option
      table with which the run ends it reports exactly the events of the list's meaning, up to
      an option with the value -1 if there is one.  Otherwise it leaves the program name, then
      every consumed element, then every left-over, in original order. */
  method Run(sc: Scanner, optstring: string, longopts: Option<seq<LongOption>>, posixlyCorrect: bool)
      returns (rets: seq<int>, args: seq<Option<string>>)
    requires sc.argv.Length > 0 && sc.optind == 1 && !sc.initialized
    requires Finishes(Scan(Configure(optstring, longopts, posixlyCorrect), sc.argv[1..]))
    modifies sc, sc.argv
    ensures var p := Scan(Configure(optstring, longopts, posixlyCorrect), old(sc.argv[1..]));
      var k := BeforeEnd(p.events);
      && rets == Rets(p.events[..k]) && args == Args(p.events[..k])
      && (k == |p.events| ==>
            && sc.argv[..] == [old(sc.argv[0])] + p.opts + p.rest
            && sc.optind == 1 + |p.opts| <= sc.argv.Length)
      && Interleaves(old(sc.argv[1..]), p.opts, p.rest)
  {
    ghost var cfg := Configure(optstring, longopts, posixlyCorrect);
    ghost var all, name := Scan(cfg, sc.argv[1..]), sc.argv[0];
    ScanIsStablePartition(cfg, sc.argv[1..]);
    var ret := FirstCall(sc, optstring, longopts, posixlyCorrect, all);
    rets, args := CallOn(sc, optstring, longopts, posixlyCorrect, all, name, ret);
  }

  /** The calls after the first one. */
  method CallOn(sc: Scanner, optstring: string, longopts: Option<seq<LongOption>>, posixlyCorrect: bool,
                ghost all: Parse, ghost name: string, first: int) returns (rets: seq<int>, args: seq<Option<string>>)
    requires Answered(sc, Configure(optstring, longopts, posixlyCorrect), all, 0, first, name) && Finishes(all)
    modifies sc, sc.argv
    ensures rets == Rets(all.events[..BeforeEnd(all.events)]) && args == Args(all.events[..BeforeEnd(all.events)])
    ensures BeforeEnd(all.events) == |all.events| ==>
      sc.argv[..] == [name] + all.opts + all.rest && sc.optind == 1 + |all.opts| <= sc.argv.Length
  {
    ghost var cfg := Configure(optstring, longopts, posixlyCorrect);
    rets, args := [], [];
    ghost var n := 0;
    var ret := first;
    while ret != -1
      invariant n <= BeforeEnd(all.events) && Answered(sc, cfg, all, n, ret, name)
      invariant rets == Rets(all.events[..n]) && args == Args(all.events[..n])
      decreases |all.events| - n
    {
      rets, args := rets + [ret], args + [sc.optarg];
      ret := CallAgain(sc, optstring, longopts, posixlyCorrect, all, n, ret, name);
      RetsNext(all.events, n);
      n := n + 1;
    }
    RunEnds(sc, cfg, all, n, name);
  }

  lemma GoesOn(sc: Scanner, cfg: Config, all: Parse, n: int, ret: int, name: string)
    requires Answered(sc, cfg, all, n, ret, name) && ret != -1
    requires Finishes(all) && n <= BeforeEnd(all.events)
    ensures n < BeforeEnd(all.events) && !Fails(From(all, n))
  {
  }

  lemma RunEnds(sc: Scanner, cfg: Config, all: Parse, n: int, name: string)
    requires Answered(sc, cfg, all, n, -1, name) && n <= BeforeEnd(all.events)
    ensures n == BeforeEnd(all.events)
    ensures n == |all.events| ==>
      sc.argv[..] == [name] + all.opts + all.rest && sc.optind == 1 + |all.opts| <= sc.argv.Length
  {
    if n == |all.events| {
      assert From(all, n).events == [];
    }
  }

  method FirstCall(sc: Scanner, optstring: string, longopts: Option<seq<LongOption>>, posixlyCorrect: bool,
                   ghost all: Parse) returns (ret: int)
    requires sc.argv.Length > 0 && sc.optind == 1 && !sc.initialized
    requires all == Scan(Configure(optstring, longopts, posixlyCorrect), sc.argv[1..])
    modifies sc, sc.argv
    ensures Answered(sc, Configure(optstring, longopts, posixlyCorrect), all, 0, ret, old(sc.argv[0]))
  {
    StartTotal(Configure(optstring, longopts, posixlyCorrect), sc.argv[..]);
    assert sc.argv[..][1..] == sc.argv[1..] && From(all, 0) == all;
    ret := sc.Call(optstring, longopts, posixlyCorrect);
  }

  /** After `n` reported events the last call answered with the next one, or with the end. */
  ghost predicate Answered(sc: Scanner, cfg: Config, all: Parse, n: int, ret: int, name: string)
    reads sc, sc.argv
  {
    && 0 <= n <= |all.events|
    && sc.argv.Length > 0 && sc.argv[0] == name && sc.initialized
    && Answers(cfg, From(all, n), sc.Snapshot(), ret)
    && (n < |all.events| ==>
          && ret == all.events[n].ret && sc.optarg == all.events[n].optarg
          && (!RunsOut(From(all, n)) ==> sc.Ready(cfg)))
  }

  method CallAgain(sc: Scanner, optstring: string, longopts: Option<seq<LongOption>>, posixlyCorrect: bool,
                   ghost all: Parse, ghost n: int, ghost ret: int, ghost name: string) returns (next: int)
    requires Answered(sc, Configure(optstring, longopts, posixlyCorrect), all, n, ret, name)
    requires ret != -1 && Finishes(all) && n <= BeforeEnd(all.events)
    modifies sc, sc.argv
    ensures n < BeforeEnd(all.events) && ret == all.events[n].ret && old(sc.optarg) == all.events[n].optarg
    ensures Answered(sc, Configure(optstring, longopts, posixlyCorrect), all, n + 1, next, name)
  {
    GoesOn(sc, Configure(optstring, longopts, posixlyCorrect), all, n, ret, name);
    FromNext(Configure(optstring, longopts, posixlyCorrect), all, n, sc.Snapshot(), ret);
    next := sc.Call(optstring, longopts, posixlyCorrect);
  }

  /** The meaning of the list once `n` events have been reported. */
  ghost function From(all: Parse, n: int): Parse
    requires 0 <= n <= |all.events|
  {
    all.(events := all.events[n..])
  }

  lemma FromNext(cfg: Config, all: Parse, n: int, t: State, ret: int)
    requires 0 <= n < |all.events| && Answers(cfg, From(all, n), t, ret) && !Fails(From(all, n))
    ensures ret == all.events[n].ret && Between(cfg, t) && Total(cfg, t) == From(all, n + 1)
  {
    assert all.events[n..][1..] == all.events[n + 1..];
  }

  ghost function Rets(events: seq<Outcome>): seq<int> {
    seq(|events|, i requires 0 <= i < |events| => events[i].ret)
  }

  ghost function Args(events: seq<Outcome>): seq<Option<string>> {
    seq(|events|, i requires 0 <= i < |events| => events[i].optarg)
  }

  lemma RetsNext(events: seq<Outcome>, n: int)
    requires 0 <= n < |events|
    ensures Rets(events[..n + 1]) == Rets(events[..n]) + [events[n].ret]
    ensures Args(events[..n + 1]) == Args(events[..n]) + [events[n].optarg]
  {
  }

  lemma StartTotal(cfg: Config, av: seq<string>)
    requires av != []
    ensures Total(cfg, State(av, 1, 1, 1, [])) == Scan(cfg, av[1..])
  {
  }

  /** With a list that loops, and no option of value -1, no number of calls gets to the end. */
  method CallMany(sc: Scanner, optstring: string, longopts: Option<seq<LongOption>>, posixlyCorrect: bool, n: nat)
      returns (rets: seq<int>)
    requires sc.argv.Length > 0 && sc.optind == 1 && !sc.initialized
    requires NeverMinusOne(Configure(optstring, longopts, posixlyCorrect))
    requires Scan(Configure(optstring, longopts, posixlyCorrect), sc.argv[1..]).end == Loops
    modifies sc, sc.argv
    ensures |rets| == n && -1 !in rets
  {
    ghost var cfg := Configure(optstring, longopts, posixlyCorrect);
    StartTotal(cfg, sc.argv[..]);
    assert sc.argv[..][1..] == sc.argv[1..];
    rets := [];
    for i := 0 to n
      invariant |rets| == i && -1 !in rets
      invariant sc.Callable(cfg) && Between(cfg, sc.Start()) && Total(cfg, sc.Start()).end == Loops
    {
      TotalIsNotEnd(cfg, sc.Start());
      var ret := sc.Call(optstring, longopts, posixlyCorrect);
      rets := rets + [ret];
    }
  }

  lemma TotalIsNotEnd(cfg: Config, s: State)
    requires Between(cfg, s) && NeverMinusOne(cfg) && Total(cfg, s).end != Done
    ensures Total(cfg, s).events != [] && Total(cfg, s).events[0].ret != -1
  {
    if s.chars == [] {
      EventsAreNotEnds(cfg, s.av[s.optind..]);
    } else {
      ElementEventsAreNotEnds(cfg, s.chars, s.av[s.optind..]);
    }
  }
}
