/**
  What a run of getopt means, as a function of the argument list: which options it reports,
  which elements it consumes and which it leaves over.  No index and no permutation appears
  here; `Getopt` proves the in-place scanner against it.
 */
module GetoptSpec {
  import opened Common

  datatype Ordering = RequireOrder | Permute | ReturnInOrder

  datatype LongOption = LongOption(name: string, hasArg: int, flag: Option<int>, val: int)

  /** `optstring` is the option string without its leading ordering character. */
  datatype Config = Config(optstring: string, longopts: Option<seq<LongOption>>, ordering: Ordering)

  /** What one call reports: its result, the argument, and the variables it sets. */
  datatype Outcome = Outcome(ret: int, optarg: Option<string>, optopt: Option<int>,
                             index: Option<int>, flag: Option<(int, int)>)

  /** One step inside an option element: the report, how many elements are used up with it
      (0 while the element goes on) and the characters of the element still to come.  A step
      that takes 0 and leaves no characters goes back to the start of the element. */
  datatype Step = Step(out: Outcome, takes: int, rest: string)

  /** How a run ends: at the end of the options, never, or with `optind` behind the list. */
  datatype End = Done | Loops | Overruns

  /** The reports, the elements consumed and left over, and the end.  A run that does not get
      to the end of the options has its events up to the step that goes wrong. */
  datatype Parse = Parse(events: seq<Outcome>, opts: seq<string>, rest: seq<string>, end: End)

  // ---- Elements --------------------------------------------------------------------

  function At(s: string, i: int): char { if 0 <= i < |s| then s[i] else '\0' }

  /** The number of a character, which is a signed byte. */
  function Value(c: char): int { if c as int < 128 then c as int else c as int - 256 }

  predicate NonOption(e: string) { |e| < 2 || e[0] != '-' }

  predicate IsLong(cfg: Config, e: string) { cfg.longopts.Some? && |e| >= 2 && e[1] == '-' }

  /** The characters of an option element that follow its dashes. */
  function Body(cfg: Config, e: string): (r: string)
    requires !NonOption(e) && e != "--"
    ensures r != [] && |r| < |e|
  {
    if IsLong(cfg, e) then
      assert |e| == 2 ==> e == "--";
      e[2..]
    else e[1..]
  }

  /** First position of `c`, or -1. */
  function Find(s: string, c: char): (r: int)
    ensures -1 <= r < |s|
    ensures r >= 0 ==> s[r] == c && forall i :: 0 <= i < r ==> s[i] != c
    ensures r < 0 ==> c !in s
  {
    if s == [] then -1
    else if s[0] == c then 0
    else
      var r := Find(s[1..], c);
      if r < 0 then -1 else r + 1
  }

  /** The option string asks for the `-W name` spelling of long options. */
  predicate LongByW(optstring: string) {
    Find(optstring, 'W') >= 0 && At(optstring, Find(optstring, 'W') + 1) == ';'
  }

  function MissingArgument(cfg: Config): int { if At(cfg.optstring, 0) == ':' then ':' as int else '?' as int }

  // ---- Long options ------------------------------------------------------------------

  datatype Match = NotFound | Ambiguous | Found(index: int)

  predicate Abbreviates(name: string, full: string) { name <= full }

  predicate SameAction(p: LongOption, q: LongOption) {
    p.hasArg == q.hasArg && p.flag == q.flag && p.val == q.val
  }

  predicate Spelled(opts: seq<LongOption>, name: string) {
    exists e :: 0 <= e < |opts| && opts[e].name == name
  }

  ghost predicate FirstExact(opts: seq<LongOption>, i: int, name: string) {
    0 <= i < |opts| && opts[i].name == name && forall j :: 0 <= j < i ==> opts[j].name != name
  }

  ghost predicate FirstAbbreviated(opts: seq<LongOption>, i: int, name: string) {
    && 0 <= i < |opts| && Abbreviates(name, opts[i].name)
    && forall j :: 0 <= j < i ==> !Abbreviates(name, opts[j].name)
  }

  /** All entries below `n` that the name abbreviates act like `p`. */
  ghost predicate AllAlike(opts: seq<LongOption>, n: int, name: string, p: LongOption)
    requires n <= |opts|
  {
    forall j :: 0 <= j < n && Abbreviates(name, opts[j].name) ==> SameAction(p, opts[j])
  }

  /** How a name selects an option: the first entry spelled exactly so; otherwise the first
      entry it abbreviates, unless it also abbreviates an entry that acts differently. */
  ghost predicate Selects(opts: seq<LongOption>, name: string, m: Match) {
    match m
    case Found(i) =>
      || FirstExact(opts, i, name)
      || (!Spelled(opts, name) && FirstAbbreviated(opts, i, name) && AllAlike(opts, |opts|, name, opts[i]))
    case Ambiguous =>
      !Spelled(opts, name) && exists i :: FirstAbbreviated(opts, i, name) && !AllAlike(opts, |opts|, name, opts[i])
    case NotFound => forall j :: 0 <= j < |opts| ==> !Abbreviates(name, opts[j].name)
  }

  /** The scan of the source: first exact entry, first abbreviated one, and whether some
      other abbreviated entry before the exact one acts differently. */
  function Lookup(opts: seq<LongOption>, name: string, i: int, found: int, ambiguous: bool): (m: Match)
    requires 0 <= i <= |opts| && -1 <= found < |opts|
    ensures m.Found? ==> 0 <= m.index < |opts|
    decreases |opts| - i
  {
    if i == |opts| then
      if found < 0 then NotFound else if ambiguous then Ambiguous else Found(found)
    else if !Abbreviates(name, opts[i].name) then Lookup(opts, name, i + 1, found, ambiguous)
    else if |name| == |opts[i].name| then Found(i)
    else if found < 0 then Lookup(opts, name, i + 1, i, ambiguous)
    else Lookup(opts, name, i + 1, found, ambiguous || !SameAction(opts[found], opts[i]))
  }

  /** What the scan knows after the entries below `i`: none is spelled exactly so, `found` is
      the first abbreviated one, and `ambiguous` says whether another one acts differently. */
  ghost predicate Scanned(opts: seq<LongOption>, name: string, i: int, found: int, ambiguous: bool) {
    && 0 <= i <= |opts| && -1 <= found < i
    && (forall j :: 0 <= j < i ==> opts[j].name != name)
    && (found < 0 ==> !ambiguous && forall j :: 0 <= j < i ==> !Abbreviates(name, opts[j].name))
    && (found >= 0 ==>
          && FirstAbbreviated(opts, found, name)
          && (ambiguous <==> !AllAlike(opts, i, name, opts[found])))
  }

  lemma {:induction false} LookupFinds(opts: seq<LongOption>, name: string, i: int, found: int, ambiguous: bool,
                                       m: Match)
    requires Scanned(opts, name, i, found, ambiguous)
    requires m == Lookup(opts, name, i, found, ambiguous)
    ensures Selects(opts, name, m)
    decreases |opts| - i
  {
    if i == |opts| {
      ScanEnds(opts, name, found, ambiguous);
    } else if !Abbreviates(name, opts[i].name) {
      assert Scanned(opts, name, i + 1, found, ambiguous);
      LookupFinds(opts, name, i + 1, found, ambiguous, m);
    } else if |name| == |opts[i].name| {
      assert FirstExact(opts, i, name);
    } else if found < 0 {
      LookupFinds(opts, name, i + 1, i, ambiguous, m);
    } else {
      ScanGoesOn(opts, name, i, found, ambiguous);
      LookupFinds(opts, name, i + 1, found, ambiguous || !SameAction(opts[found], opts[i]), m);
    }
  }

  /** The scan picks the option that the name selects. */
  lemma LookupSelects(opts: seq<LongOption>, name: string)
    ensures Selects(opts, name, Lookup(opts, name, 0, -1, false))
  {
    LookupFinds(opts, name, 0, -1, false, Lookup(opts, name, 0, -1, false));
  }

  lemma ScanEnds(opts: seq<LongOption>, name: string, found: int, ambiguous: bool)
    requires Scanned(opts, name, |opts|, found, ambiguous)
    ensures Selects(opts, name, if found < 0 then NotFound else if ambiguous then Ambiguous else Found(found))
  {
  }

  lemma ScanGoesOn(opts: seq<LongOption>, name: string, i: int, found: int, ambiguous: bool)
    requires Scanned(opts, name, i, found, ambiguous) && i < |opts| && found >= 0
    requires Abbreviates(name, opts[i].name) && opts[i].name != name
    ensures Scanned(opts, name, i + 1, found, ambiguous || !SameAction(opts[found], opts[i]))
  {
  }

  /** The name in the text of a long option, up to an equals sign. */
  function NameOf(text: string): string {
    var eq := Find(text, '=');
    if eq < 0 then text else text[..eq]
  }

  /** The report of entry `i`, which is `p`: its value, or 0 after setting its flag. */
  function Selected(p: LongOption, i: int, arg: Option<string>): Outcome {
    if p.flag.Some? then Outcome(0, arg, None, Some(i), Some((p.flag.value, p.val)))
    else Outcome(p.val, arg, None, Some(i), None)
  }

  function LongStep(cfg: Config, r: string, next: Option<string>): (s: Step)
    requires cfg.longopts.Some?
    ensures 1 <= s.takes <= 2 && (s.takes == 2 ==> next.Some?)
  {
    var opts := cfg.longopts.value;
    var eq := Find(r, '=');
    match Lookup(opts, NameOf(r), 0, -1, false)
    case NotFound => Step(Outcome('?' as int, None, Some(0), None, None), 1, [])
    case Ambiguous => Step(Outcome('?' as int, None, Some(0), None, None), 1, [])
    case Found(i) =>
      var p := opts[i];
      if eq >= 0 && p.hasArg == 0 then
        Step(Outcome('?' as int, None, Some(p.val), None, None), 1, [])
      else if eq < 0 && p.hasArg == 1 && next.None? then
        Step(Outcome(MissingArgument(cfg), None, Some(p.val), None, None), 1, [])
      else
        var arg := if eq >= 0 then Some(r[eq + 1..]) else if p.hasArg == 1 then next else None;
        Step(Selected(p, i, arg), if eq < 0 && p.hasArg == 1 then 2 else 1, [])
  }

  // ---- Short options -----------------------------------------------------------------

  /** `-W text`: the rest of the element or else the next one names a long option.  Without an
      option table the scanner goes back to the start of the element unless it is finished. */
  function StepByW(cfg: Config, more: string, args: seq<string>): (s: Step)
    requires args != []
    ensures 0 <= s.takes <= |args| + 1 && s.rest == []
  {
    if cfg.longopts.None? then
      Step(Outcome('W' as int, None, None, None, None), if more == [] then 1 else 0, [])
    else if more != [] then NamedByW(cfg, more, 1, args)
    else if |args| > 1 then NamedByW(cfg, args[1], 2, args)
    else Step(Outcome(MissingArgument(cfg), None, Some('W' as int), None, None), 1, [])
  }

  /** The text stands in the first `used` elements.  An ambiguous name takes one more. */
  function NamedByW(cfg: Config, text: string, used: int, args: seq<string>): (s: Step)
    requires cfg.longopts.Some? && 1 <= used <= |args|
    ensures used <= s.takes <= used + 1 && s.rest == []
    ensures s.takes > |args| <==> used == |args| && Lookup(cfg.longopts.value, NameOf(text), 0, -1, false).Ambiguous?
  {
    var opts := cfg.longopts.value;
    var eq := Find(text, '=');
    match Lookup(opts, NameOf(text), 0, -1, false)
    case NotFound => Step(Outcome('W' as int, Some(text), None, None, None), used, [])
    case Ambiguous => Step(Outcome('?' as int, Some(text), None, None, None), used + 1, [])
    case Found(i) =>
      var p := opts[i];
      if eq >= 0 && p.hasArg == 0 then
        Step(Outcome('?' as int, Some(text), None, None, None), used, [])
      else if eq < 0 && p.hasArg == 1 && used == |args| then
        Step(Outcome(MissingArgument(cfg), Some(text), None, None, None), used, [])
      else
        var arg := if eq >= 0 then Some(text[eq + 1..]) else if p.hasArg == 1 then Some(args[used]) else None;
        Step(Selected(p, i, arg), if eq < 0 && p.hasArg == 1 then used + 1 else used, [])
  }

  function ShortStep(cfg: Config, r: string, args: seq<string>): (s: Step)
    requires r != [] && args != []
    ensures 0 <= s.takes <= |args| + 1
    ensures s.takes == 0 && s.rest != [] ==> s.rest == r[1..]
  {
    var c, more := r[0], r[1..];
    var t := Find(cfg.optstring, c);
    var ends := if more == [] then 1 else 0;
    if t < 0 || c == ':' || c == ';' then
      Step(Outcome('?' as int, None, Some(Value(c)), None, None), ends, more)
    else if c == 'W' && At(cfg.optstring, t + 1) == ';' then StepByW(cfg, more, args)
    else if At(cfg.optstring, t + 1) != ':' then
      Step(Outcome(Value(c), None, None, None, None), ends, more)
    else if more != [] then
      Step(Outcome(Value(c), Some(more), None, None, None), 1, [])
    else if At(cfg.optstring, t + 2) == ':' then
      Step(Outcome(Value(c), None, None, None, None), 1, [])
    else if |args| > 1 then
      Step(Outcome(Value(c), Some(args[1]), None, None, None), 2, [])
    else
      Step(Outcome(MissingArgument(cfg), None, Some(Value(c)), None, None), 1, [])
  }

  // ---- The whole list --------------------------------------------------------------

  function ElementStep(cfg: Config, r: string, args: seq<string>): (s: Step)
    requires args != [] && r != []
    ensures 0 <= s.takes <= |args| + 1
    ensures s.takes == 0 && s.rest != [] ==> s.rest == r[1..] && !IsLong(cfg, args[0])
  {
    var next := if |args| > 1 then Some(args[1]) else None;
    if IsLong(cfg, args[0]) then LongStep(cfg, r, next) else ShortStep(cfg, r, args)
  }

  /** The meaning of an argument list. */
  function Scan(cfg: Config, args: seq<string>): (p: Parse)
    ensures p.end != Done ==> p.events != []
    decreases |args|, 1, 0
  {
    if args == [] then Parse([], [], [], Done)
    else if NonOption(args[0]) then
      match cfg.ordering
      case RequireOrder => Parse([], [], args, Done)
      case Permute =>
        var p := Scan(cfg, args[1..]);
        Parse(p.events, p.opts, [args[0]] + p.rest, p.end)
      case ReturnInOrder =>
        var p := Scan(cfg, args[1..]);
        Parse([Outcome(1, Some(args[0]), None, None, None)] + p.events, [args[0]] + p.opts, p.rest, p.end)
    else if args[0] == "--" then Parse([], [args[0]], args[1..], Done)
    else ScanElement(cfg, Body(cfg, args[0]), args)
  }

  /** The same, in the middle of the element `args[0]` with `r` of it still to come. */
  function ScanElement(cfg: Config, r: string, args: seq<string>): (p: Parse)
    requires args != [] && r != []
    ensures p.events != []
    decreases |args|, 0, |r|
  {
    var s := ElementStep(cfg, r, args);
    if s.takes > |args| then Parse([s.out], args, [], Overruns)
    else if s.takes > 0 then
      var p := Scan(cfg, args[s.takes..]);
      Parse([s.out] + p.events, args[..s.takes] + p.opts, p.rest, p.end)
    else if s.rest == [] then Parse([s.out], [], args, Loops)
    else
      var p := ScanElement(cfg, s.rest, args);
      Parse([s.out] + p.events, p.opts, p.rest, p.end)
  }

  // The four ways in which a step goes on.

  lemma ScanOverruns(cfg: Config, r: string, args: seq<string>, st: Step)
    requires args != [] && r != [] && st == ElementStep(cfg, r, args) && st.takes > |args|
    ensures st.takes == |args| + 1 && ScanElement(cfg, r, args) == Parse([st.out], args, [], Overruns)
  {
  }

  lemma ScanLoops(cfg: Config, r: string, args: seq<string>, st: Step)
    requires args != [] && r != [] && st == ElementStep(cfg, r, args) && st.takes == 0 && st.rest == []
    ensures ScanElement(cfg, r, args) == Parse([st.out], [], args, Loops)
  {
  }

  lemma ScanGoes(cfg: Config, r: string, args: seq<string>, st: Step, q: Parse)
    requires args != [] && r != [] && st == ElementStep(cfg, r, args) && st.takes == 0 && st.rest != []
    requires q == ScanElement(cfg, st.rest, args)
    ensures ScanElement(cfg, r, args) == Parse([st.out] + q.events, q.opts, q.rest, q.end)
  {
  }

  lemma ScanTakes(cfg: Config, r: string, args: seq<string>, st: Step, q: Parse)
    requires args != [] && r != [] && st == ElementStep(cfg, r, args) && 0 < st.takes <= |args|
    requires q == Scan(cfg, args[st.takes..])
    ensures ScanElement(cfg, r, args) == Parse([st.out] + q.events, args[..st.takes] + q.opts, q.rest, q.end)
  {
  }

  // ---- When every run gets to the end ------------------------------------------------------

  /** The name abbreviates two entries that act differently. */
  predicate Clash(opts: seq<LongOption>, name: string, i: int, j: int)
    requires 0 <= i < |opts| && 0 <= j < |opts|
  {
    Abbreviates(name, opts[i].name) && Abbreviates(name, opts[j].name) && !SameAction(opts[i], opts[j])
  }

  /** Whenever two entries that act differently begin alike, that beginning is itself an entry
      (or holds an equals sign, so that no name reaches so far). */
  predicate Unambiguous(opts: seq<LongOption>) {
    forall i, j, k ::
      0 <= i < |opts| && 0 <= j < |opts| && 0 <= k <= |opts[i].name| && Clash(opts, opts[i].name[..k], i, j) ==>
        '=' in opts[i].name[..k] || Spelled(opts, opts[i].name[..k])
  }

  /** A name is ambiguous if and only if it is no entry and abbreviates two that differ. */
  lemma AmbiguousExactlyWhen(opts: seq<LongOption>, name: string)
    ensures Lookup(opts, name, 0, -1, false).Ambiguous? <==>
      !Spelled(opts, name) && exists i, j :: 0 <= i < |opts| && 0 <= j < |opts| && Clash(opts, name, i, j)
  {
    LookupSelects(opts, name);
    var m := Lookup(opts, name, 0, -1, false);
    if m.Ambiguous? {
      var i :| FirstAbbreviated(opts, i, name) && !AllAlike(opts, |opts|, name, opts[i]);
      var j :| 0 <= j < |opts| && Abbreviates(name, opts[j].name) && !SameAction(opts[i], opts[j]);
      assert Clash(opts, name, i, j);
    }
  }

  /** A table makes some name ambiguous, or it is `Unambiguous`. */
  lemma AmbiguousName(opts: seq<LongOption>)
    ensures Unambiguous(opts) <==> forall name :: '=' !in name ==> !Lookup(opts, name, 0, -1, false).Ambiguous?
  {
    if Unambiguous(opts) {
      forall name | '=' !in name ensures !Lookup(opts, name, 0, -1, false).Ambiguous? {
        NotAmbiguous(opts, name);
      }
    } else {
      var i, j, k :| 0 <= i < |opts| && 0 <= j < |opts| && 0 <= k <= |opts[i].name|
        && Clash(opts, opts[i].name[..k], i, j)
        && '=' !in opts[i].name[..k] && !Spelled(opts, opts[i].name[..k]);
      AmbiguousExactlyWhen(opts, opts[i].name[..k]);
    }
  }

  lemma NotAmbiguous(opts: seq<LongOption>, name: string)
    requires Unambiguous(opts) && '=' !in name
    ensures !Lookup(opts, name, 0, -1, false).Ambiguous?
  {
    AmbiguousExactlyWhen(opts, name);
    forall i, j | 0 <= i < |opts| && 0 <= j < |opts| && Clash(opts, name, i, j) ensures Spelled(opts, name) {
      assert opts[i].name[..|name|] == name;
    }
  }

  /** `-W` is not used, or there is a table and no name in it is ambiguous. */
  predicate SafeByW(cfg: Config) {
    LongByW(cfg.optstring) ==> cfg.longopts.Some? && Unambiguous(cfg.longopts.value)
  }

  /** Every list is scanned to the end of its options if and only if `-W` is safe. */
  lemma DoneExactlyWhen(cfg: Config)
    ensures (forall args :: Scan(cfg, args).end == Done) <==> SafeByW(cfg)
  {
    if SafeByW(cfg) {
      forall args ensures Scan(cfg, args).end == Done { SafeIsDone(cfg, args); }
    } else if cfg.longopts.None? {
      MissingTableLoops(cfg);
    } else {
      AmbiguousName(cfg.longopts.value);
      var name: string :| '=' !in name && Lookup(cfg.longopts.value, name, 0, -1, false).Ambiguous?;
      AmbiguousNameOverruns(cfg, name);
    }
  }

  lemma {:induction false} SafeIsDone(cfg: Config, args: seq<string>)
    requires SafeByW(cfg)
    ensures Scan(cfg, args).end == Done
    decreases |args|, 1, 0
  {
    if args != [] && NonOption(args[0]) && cfg.ordering != RequireOrder {
      SafeIsDone(cfg, args[1..]);
    } else if args != [] && !NonOption(args[0]) && args[0] != "--" {
      ElementIsDone(cfg, Body(cfg, args[0]), args);
    }
  }

  lemma {:induction false} ElementIsDone(cfg: Config, r: string, args: seq<string>)
    requires SafeByW(cfg) && args != [] && r != []
    ensures ScanElement(cfg, r, args).end == Done
    decreases |args|, 0, |r|
  {
    var s := ElementStep(cfg, r, args);
    SafeStep(cfg, r, args);
    if s.takes > 0 {
      SafeIsDone(cfg, args[s.takes..]);
    } else {
      ElementIsDone(cfg, s.rest, args);
    }
  }

  lemma SafeStep(cfg: Config, r: string, args: seq<string>)
    requires SafeByW(cfg) && args != [] && r != []
    ensures var s := ElementStep(cfg, r, args); s.takes <= |args| && (s.takes == 0 ==> s.rest != [])
  {
    if !IsLong(cfg, args[0]) && LongByW(cfg.optstring) {
      NotAmbiguous(cfg.longopts.value, NameOf(r[1..]));
      if |args| > 1 {
        NotAmbiguous(cfg.longopts.value, NameOf(args[1]));
      }
    }
  }

  /** Without a table, `-Wx` is reported again and again. */
  lemma MissingTableLoops(cfg: Config)
    requires LongByW(cfg.optstring) && cfg.longopts.None?
    ensures Scan(cfg, ["-Wx"]).end == Loops
  {
    var args := ["-Wx"];
    assert Body(cfg, args[0]) == "Wx";
    assert ElementStep(cfg, "Wx", args).takes == 0;
  }

  /** An ambiguous name in the last element takes `optind` behind the list. */
  lemma AmbiguousNameOverruns(cfg: Config, name: string)
    requires LongByW(cfg.optstring) && cfg.longopts.Some?
    requires '=' !in name && Lookup(cfg.longopts.value, name, 0, -1, false).Ambiguous?
    ensures Scan(cfg, ["-W", name]).end == Overruns
  {
    var args := ["-W", name];
    assert Body(cfg, args[0]) == "W" && NameOf(name) == name;
    assert ElementStep(cfg, "W", args).takes == 3;
  }

  /** With the option string `W;` and no table, `-Wx` loops. */
  lemma LoopCounterexample()
    ensures Scan(Config("W;", None, Permute), ["-Wx"]).end == Loops
  {
    MissingTableLoops(Config("W;", None, Permute));
  }

  /** With the long options `ab` and `ac`, `-W a` takes `optind` behind the list. */
  lemma OverrunCounterexample()
    ensures var opts := [LongOption("ab", 0, None, 1), LongOption("ac", 0, None, 2)];
      Scan(Config("W;", Some(opts), Permute), ["-W", "a"]).end == Overruns
  {
    var opts := [LongOption("ab", 0, None, 1), LongOption("ac", 0, None, 2)];
    AmbiguousExactlyWhen(opts, "a");
    assert Clash(opts, "a", 0, 1);
    AmbiguousNameOverruns(Config("W;", Some(opts), Permute), "a");
  }

  // ---- Configuration ------------------------------------------------------------------

  function Configure(optstring: string, longopts: Option<seq<LongOption>>, posixlyCorrect: bool): (cfg: Config)
  {
    if At(optstring, 0) == '-' && optstring != [] then Config(optstring[1..], longopts, ReturnInOrder)
    else if At(optstring, 0) == '+' && optstring != [] then Config(optstring[1..], longopts, RequireOrder)
    else Config(optstring, longopts, if posixlyCorrect then RequireOrder else Permute)
  }

  // ---- When no option is reported as the end -------------------------------------------------

  /** The character whose number is -1. */
  const LAST_BYTE: char := '\U{FF}'

  /** Some spelling of its name up to `k` selects entry `i`; nothing at all does so only with an
      argument behind an equals sign, or after `-W`. */
  predicate Reaches(cfg: Config, opts: seq<LongOption>, i: int, k: int)
    requires 0 <= i < |opts| && 0 <= k <= |opts[i].name|
  {
    && '=' !in opts[i].name[..k] && Lookup(opts, opts[i].name[..k], 0, -1, false) == Found(i)
    && (k > 0 || opts[i].hasArg != 0 || LongByW(cfg.optstring))
  }

  /** A long option that returns the value that callers take for the end of the run. */
  predicate EndsRun(p: LongOption) { p.val == -1 && p.flag.None? }

  /** No option character has the number -1, and no long option that can be selected has the
      value -1. */
  predicate NeverMinusOne(cfg: Config) {
    && LAST_BYTE !in cfg.optstring
    && (cfg.longopts.Some? ==>
          var opts := cfg.longopts.value;
          forall i, k :: 0 <= i < |opts| && 0 <= k <= |opts[i].name| && Reaches(cfg, opts, i, k) ==> !EndsRun(opts[i]))
  }

  lemma {:induction false} EventsAreNotEnds(cfg: Config, args: seq<string>)
    requires NeverMinusOne(cfg)
    ensures forall i :: 0 <= i < |Scan(cfg, args).events| ==> Scan(cfg, args).events[i].ret != -1
    decreases |args|, 1, 0
  {
    if args != [] && NonOption(args[0]) && cfg.ordering != RequireOrder {
      EventsAreNotEnds(cfg, args[1..]);
    } else if args != [] && !NonOption(args[0]) && args[0] != "--" {
      ElementEventsAreNotEnds(cfg, Body(cfg, args[0]), args);
    }
  }

  lemma {:induction false} ElementEventsAreNotEnds(cfg: Config, r: string, args: seq<string>)
    requires NeverMinusOne(cfg) && args != [] && r != []
    ensures forall i :: 0 <= i < |ScanElement(cfg, r, args).events| ==> ScanElement(cfg, r, args).events[i].ret != -1
    decreases |args|, 0, |r|
  {
    var s := ElementStep(cfg, r, args);
    StepIsNotEnd(cfg, r, args);
    if 0 < s.takes <= |args| {
      EventsAreNotEnds(cfg, args[s.takes..]);
    } else if s.takes == 0 && s.rest != [] {
      ElementEventsAreNotEnds(cfg, s.rest, args);
    }
  }

  /** The name selects an entry of which it is a spelling. */
  lemma FoundIsSpelled(opts: seq<LongOption>, name: string, i: int)
    requires Lookup(opts, name, 0, -1, false) == Found(i)
    ensures |name| <= |opts[i].name| && opts[i].name[..|name|] == name
  {
    LookupSelects(opts, name);
  }

  lemma SelectedIsNotEnd(cfg: Config, opts: seq<LongOption>, name: string, i: int)
    requires NeverMinusOne(cfg) && cfg.longopts == Some(opts) && '=' !in name
    requires Lookup(opts, name, 0, -1, false) == Found(i)
    requires name != [] || opts[i].hasArg != 0 || LongByW(cfg.optstring)
    ensures !EndsRun(opts[i])
  {
    FoundIsSpelled(opts, name, i);
    assert Reaches(cfg, opts, i, |name|);
  }

  lemma LongStepIsNotEnd(cfg: Config, r: string, next: Option<string>)
    requires NeverMinusOne(cfg) && cfg.longopts.Some? && r != []
    ensures LongStep(cfg, r, next).out.ret != -1
  {
    var m := Lookup(cfg.longopts.value, NameOf(r), 0, -1, false);
    if m.Found? && (Find(r, '=') < 0 || cfg.longopts.value[m.index].hasArg != 0) {
      SelectedIsNotEnd(cfg, cfg.longopts.value, NameOf(r), m.index);
    }
  }

  lemma NamedIsNotEnd(cfg: Config, text: string, used: int, args: seq<string>)
    requires NeverMinusOne(cfg) && cfg.longopts.Some? && LongByW(cfg.optstring) && 1 <= used <= |args|
    ensures NamedByW(cfg, text, used, args).out.ret != -1
  {
    var m := Lookup(cfg.longopts.value, NameOf(text), 0, -1, false);
    if m.Found? {
      SelectedIsNotEnd(cfg, cfg.longopts.value, NameOf(text), m.index);
    }
  }

  lemma StepIsNotEnd(cfg: Config, r: string, args: seq<string>)
    requires NeverMinusOne(cfg) && args != [] && r != []
    ensures ElementStep(cfg, r, args).out.ret != -1
  {
    if IsLong(cfg, args[0]) {
      LongStepIsNotEnd(cfg, r, if |args| > 1 then Some(args[1]) else None);
    } else if cfg.longopts.Some? && LongByW(cfg.optstring) {
      NamedIsNotEnd(cfg, r[1..], 1, args);
      if |args| > 1 { NamedIsNotEnd(cfg, args[1], 2, args); }
    }
  }

  /** No report about this list is taken for the end. */
  ghost predicate Told(cfg: Config, args: seq<string>) {
    forall i :: 0 <= i < |Scan(cfg, args).events| ==> Scan(cfg, args).events[i].ret != -1
  }

  /** No option is ever reported as -1 if and only if none that can be selected has that number. */
  lemma NotEndsExactlyWhen(cfg: Config)
    ensures (forall args :: Told(cfg, args)) <==> NeverMinusOne(cfg)
  {
    if NeverMinusOne(cfg) {
      forall args ensures Told(cfg, args) { EventsAreNotEnds(cfg, args); }
    } else if LAST_BYTE in cfg.optstring {
      LastByteEnds(cfg);
    } else {
      var opts := cfg.longopts.value;
      var i, k :| 0 <= i < |opts| && 0 <= k <= |opts[i].name| && Reaches(cfg, opts, i, k) && EndsRun(opts[i]);
      LongOptionEnds(cfg, opts, i, k);
    }
  }

  lemma FirstEvent(cfg: Config, args: seq<string>, r: string)
    requires args != [] && !NonOption(args[0]) && args[0] != "--" && r == Body(cfg, args[0])
    requires ElementStep(cfg, r, args).out.ret == -1
    ensures !Told(cfg, args)
  {
    assert Scan(cfg, args).events[0].ret == -1;
  }

  lemma LastByteEnds(cfg: Config)
    requires LAST_BYTE in cfg.optstring
    ensures !Told(cfg, [['-', LAST_BYTE], "x"])
  {
    var args := [['-', LAST_BYTE], "x"];
    assert Body(cfg, args[0]) == [LAST_BYTE];
    FirstEvent(cfg, args, [LAST_BYTE]);
  }

  /** The element that selects entry `i`: by its name, or by nothing and an argument, or after `-W`. */
  function Selecting(p: LongOption, k: int): seq<string>
    requires 0 <= k <= |p.name|
  {
    if k > 0 then ["--" + p.name[..k], "x"] else if p.hasArg != 0 then ["--="] else ["-W", "", "x"]
  }

  lemma LongOptionEnds(cfg: Config, opts: seq<LongOption>, i: int, k: int)
    requires cfg.longopts == Some(opts) && 0 <= i < |opts| && 0 <= k <= |opts[i].name|
    requires Reaches(cfg, opts, i, k) && EndsRun(opts[i])
    ensures !Told(cfg, Selecting(opts[i], k))
  {
    var args, name := Selecting(opts[i], k), opts[i].name[..k];
    if k > 0 {
      assert Body(cfg, args[0]) == name && NameOf(name) == name;
      FirstEvent(cfg, args, name);
    } else if opts[i].hasArg != 0 {
      assert Body(cfg, args[0]) == "=" && NameOf("=") == name;
      FirstEvent(cfg, args, "=");
    } else {
      assert Body(cfg, args[0]) == "W" && NameOf("") == name && "W"[1..] == [];
      FirstEvent(cfg, args, "W");
    }
  }

  /** With the option character 0xFF, the list with that option is reported as at its end. */
  lemma LastByteCounterexample()
    ensures !Told(Config([LAST_BYTE], None, Permute), [['-', LAST_BYTE], "x"])
  {
    LastByteEnds(Config([LAST_BYTE], None, Permute));
  }

  // ---- What the meaning promises: a stable partition ----------------------------------

  /** `s` is an interleaving of `a` and `b`, each in its own order. */
  ghost predicate Interleaves(s: seq<string>, a: seq<string>, b: seq<string>)
    decreases |s|
  {
    if s == [] then a == [] && b == []
    else
      || (a != [] && a[0] == s[0] && Interleaves(s[1..], a[1..], b))
      || (b != [] && b[0] == s[0] && Interleaves(s[1..], a, b[1..]))
  }

  /** Consumed elements and left-over elements keep their order and together are the list. */
  lemma {:induction false} ScanIsStablePartition(cfg: Config, args: seq<string>)
    ensures Interleaves(args, Scan(cfg, args).opts, Scan(cfg, args).rest)
    decreases |args|, 1, 0
  {
    if args == [] {
    } else if NonOption(args[0]) {
      if cfg.ordering == RequireOrder {
        AllLeftOver(args);
      } else {
        ScanIsStablePartition(cfg, args[1..]);
        var p := Scan(cfg, args[1..]);
        assert ([args[0]] + p.rest)[1..] == p.rest && ([args[0]] + p.opts)[1..] == p.opts;
      }
    } else if args[0] == "--" {
      AllLeftOver(args[1..]);
    } else {
      ElementIsStablePartition(cfg, Body(cfg, args[0]), args);
    }
  }

  lemma {:induction false} ElementIsStablePartition(cfg: Config, r: string, args: seq<string>)
    requires args != [] && r != []
    ensures Interleaves(args, ScanElement(cfg, r, args).opts, ScanElement(cfg, r, args).rest)
    decreases |args|, 0, |r|
  {
    var s := ElementStep(cfg, r, args);
    if s.takes > |args| {
      TakeFront(args, |args|, [], []);
      assert args[..|args|] + [] == args;
    } else if s.takes > 0 {
      ScanIsStablePartition(cfg, args[s.takes..]);
      var p := Scan(cfg, args[s.takes..]);
      TakeFront(args, s.takes, p.opts, p.rest);
    } else if s.rest == [] {
      AllLeftOver(args);
    } else {
      ElementIsStablePartition(cfg, s.rest, args);
    }
  }

  lemma {:induction false} TakeFront(args: seq<string>, k: int, a: seq<string>, b: seq<string>)
    requires 0 <= k <= |args| && Interleaves(args[k..], a, b)
    ensures Interleaves(args, args[..k] + a, b)
    decreases k
  {
    if k == 0 {
      assert args[0..] == args && args[..0] + a == a;
    } else {
      assert args[1..][k - 1..] == args[k..];
      TakeFront(args[1..], k - 1, a, b);
      assert (args[..k] + a)[1..] == args[1..][..k - 1] + a;
    }
  }

  lemma {:induction false} AllLeftOver(args: seq<string>)
    ensures Interleaves(args, [], args)
  {
    if args != [] {
      AllLeftOver(args[1..]);
    }
  }
}
