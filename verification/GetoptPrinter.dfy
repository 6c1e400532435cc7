/**
  Command lines as they are written.  An option string is printed from declarations, a command
  line from options in every spelling, operands and mistakes; scanning the printed line gives
  back what was meant.  Nothing here refers to how the scanner works.
 */
module GetoptPrinter {
  import opened Common
  import opened GetoptSpec
  import opened Getopt

  // ---- Option strings ------------------------------------------------------------------------

  /** What the option string says of a character: no argument, one that is required, one that is
      optional, or (for `W`) the name of a long option. */
  datatype Kind = Flag | Required | Optional | LongName

  datatype Decl = Decl(c: char, kind: Kind)

  predicate Declarable(d: Decl) { d.c != ':' && d.c != ';' && (d.kind == LongName ==> d.c == 'W') }

  predicate AllDeclarable(ds: seq<Decl>) { forall i :: 0 <= i < |ds| ==> Declarable(ds[i]) }

  function Mark(kind: Kind): string {
    match kind
    case Flag => ""
    case Required => ":"
    case Optional => "::"
    case LongName => ";"
  }

  function PrintDecls(ds: seq<Decl>): string {
    if ds == [] then "" else [ds[0].c] + (Mark(ds[0].kind) + PrintDecls(ds[1..]))
  }

  /** The first declaration of a character counts. */
  function KindOf(ds: seq<Decl>, c: char): Option<Kind> {
    if ds == [] then None else if ds[0].c == c then Some(ds[0].kind) else KindOf(ds[1..], c)
  }

  /** A leading colon asks for missing arguments to be reported as a colon. */
  predicate Declares(cfg: Config, ds: seq<Decl>, colon: bool) {
    AllDeclarable(ds) && cfg.optstring == (if colon then ":" else "") + PrintDecls(ds)
  }

  // ---- Long options ----------------------------------------------------------------------------

  /** A long option as it is written: `name`, `name=arg`, or `name` and the argument apart; or a
      mistake: no such name, an ambiguous one, an argument where none is allowed. */
  datatype LongForm =
    | Bare(name: string, i: int)
    | Equals(name: string, i: int, arg: string)
    | Apart(name: string, i: int, arg: string)
    | Unknown(name: string, suffix: string)
    | Vague(name: string, suffix: string)
    | Refused(name: string, i: int, arg: string)

  /** What is written behind the name. */
  function Suffix(f: LongForm): string {
    match f
    case Equals(_, _, arg) => "=" + arg
    case Refused(_, _, arg) => "=" + arg
    case Unknown(_, suffix) => suffix
    case Vague(_, suffix) => suffix
    case _ => ""
  }

  function Text(f: LongForm): string { f.name + Suffix(f) }

  /** What the name selects. */
  function Picked(f: LongForm): Match { if f.Unknown? then NotFound else if f.Vague? then Ambiguous else Found(f.i) }

  function Behind(f: LongForm): seq<string> { if f.Apart? then [f.arg] else [] }

  ghost predicate Names(opts: seq<LongOption>, name: string, i: int) {
    '=' !in name && 0 <= i < |opts| && Selects(opts, name, Found(i))
  }

  ghost predicate ProperLong(opts: seq<LongOption>, f: LongForm) {
    && '=' !in f.name && (Suffix(f) == "" || Suffix(f)[0] == '=') && Selects(opts, f.name, Picked(f))
    && (f.Bare? || f.Equals? || f.Apart? || f.Refused? ==> 0 <= f.i < |opts|)
    && match f
       case Bare(_, i) => opts[i].hasArg != 1
       case Equals(_, i, _) => opts[i].hasArg != 0
       case Apart(_, i, _) => opts[i].hasArg == 1
       case Refused(_, i, _) => opts[i].hasArg == 0
       case _ => true
  }

  /** A selected entry gives its value, or sets its flag to it and gives 0; its place is told. */
  function Chosen(opts: seq<LongOption>, i: int, arg: Option<string>): Outcome
    requires 0 <= i < |opts|
  {
    var p := opts[i];
    match p.flag
    case None => Outcome(p.val, arg, None, Some(i), None)
    case Some(flag) => Outcome(0, arg, None, Some(i), Some((flag, p.val)))
  }

  /** The mistake `?`, with what is said of the option. */
  function Mistake(arg: Option<string>, about: Option<int>): Outcome { Outcome('?' as int, arg, about, None, None) }

  function Lacking(colon: bool, arg: Option<string>, about: Option<int>): Outcome {
    Outcome(if colon then ':' as int else '?' as int, arg, about, None, None)
  }

  ghost function LongEvent(opts: seq<LongOption>, f: LongForm): Outcome
    requires ProperLong(opts, f)
  {
    match f
    case Bare(name, i) => Chosen(opts, i, None)
    case Equals(name, i, arg) => Chosen(opts, i, Some(arg))
    case Apart(name, i, arg) => Chosen(opts, i, Some(arg))
    case Unknown(name, suffix) => Mistake(None, Some(0))
    case Vague(name, suffix) => Mistake(None, Some(0))
    case Refused(name, i, arg) => Mistake(None, Some(opts[i].val))
  }

  /** After `-W` a mistake shows the whole text, and an unknown name is handed over. */
  ghost function WEvent(opts: seq<LongOption>, f: LongForm): Outcome
    requires ProperLong(opts, f)
  {
    match f
    case Unknown(name, suffix) => Outcome('W' as int, Some(Text(f)), None, None, None)
    case Vague(name, suffix) => Mistake(Some(Text(f)), None)
    case Refused(name, i, arg) => Mistake(Some(Text(f)), None)
    case _ => LongEvent(opts, f)
  }

  // ---- Command lines ------------------------------------------------------------------------------

  /** How a cluster of short options ends: with a plain character; with an option and its argument in
      the same element, or in the next one, or without one; or with `-W` and a long option in the
      same element or in the next one, or without a table.  An ambiguous name after `-W` swallows
      the element behind it. */
  datatype Last =
    | Nothing
    | Attached(c: char, text: string)
    | Separate(c: char, text: string)
    | Without(c: char)
    | WAttached(form: LongForm, swallowed: seq<string>)
    | WSeparate(form: LongForm, swallowed: seq<string>)
    | WAlone

  datatype Item = Cluster(plain: string, last: Last) | Long(form: LongForm) | Operand(text: string)

  function LastText(last: Last): string {
    match last
    case Nothing => ""
    case Attached(c, text) => [c] + text
    case Separate(c, text) => [c]
    case Without(c) => [c]
    case WAttached(form, swallowed) => "W" + Text(form)
    case WSeparate(form, swallowed) => "W"
    case WAlone => "W"
  }

  function LastBehind(last: Last): seq<string> {
    match last
    case Separate(c, text) => [text]
    case WAttached(form, swallowed) => Behind(form) + swallowed
    case WSeparate(form, swallowed) => [Text(form)] + (Behind(form) + swallowed)
    case _ => []
  }

  function Print(item: Item): (r: seq<string>)
    ensures r != []
  {
    match item
    case Cluster(plain, last) => ["-" + (plain + LastText(last))] + LastBehind(last)
    case Long(form) => ["--" + Text(form)] + Behind(form)
    case Operand(text) => [text]
  }

  /** An operand is an element without a dash in front, or a single dash. */
  predicate IsOperand(e: string) { e == "" || e == "-" || e[0] != '-' }

  /** A character that takes no argument: a flag, or none at all. */
  predicate IsPlain(ds: seq<Decl>, c: char) { KindOf(ds, c) == None || KindOf(ds, c) == Some(Flag) }

  ghost predicate ProperLast(cfg: Config, ds: seq<Decl>, last: Last) {
    match last
    case Nothing => true
    case Attached(c, text) => text != "" && (KindOf(ds, c) == Some(Required) || KindOf(ds, c) == Some(Optional))
    case Separate(c, text) => KindOf(ds, c) == Some(Required)
    case Without(c) => KindOf(ds, c) == Some(Optional)
    case WAttached(form, swallowed) =>
      && KindOf(ds, 'W') == Some(LongName) && cfg.longopts.Some? && ProperLong(cfg.longopts.value, form)
      && Text(form) != "" && |swallowed| == if form.Vague? then 1 else 0
    case WSeparate(form, swallowed) =>
      && KindOf(ds, 'W') == Some(LongName) && cfg.longopts.Some? && ProperLong(cfg.longopts.value, form)
      && |swallowed| == if form.Vague? then 1 else 0
    case WAlone => KindOf(ds, 'W') == Some(LongName) && cfg.longopts.None?
  }

  /** A cluster may not look like the terminator or like a long option. */
  predicate LooksShort(cfg: Config, r: string) {
    r != "" && (r[0] != '-' || (cfg.longopts.None? && r != "-"))
  }

  ghost predicate Proper(cfg: Config, ds: seq<Decl>, item: Item) {
    match item
    case Cluster(plain, last) =>
      && LooksShort(cfg, plain + LastText(last)) && ProperLast(cfg, ds, last)
      && forall k :: 0 <= k < |plain| ==> IsPlain(ds, plain[k])
    case Long(form) => cfg.longopts.Some? && Text(form) != "" && ProperLong(cfg.longopts.value, form)
    case Operand(text) => IsOperand(text) && cfg.ordering != RequireOrder
  }

  /** A plain character: its number, or the mistake that it is no option. */
  function PlainEvent(ds: seq<Decl>, c: char): Outcome {
    if KindOf(ds, c) == None then Mistake(None, Some(Value(c))) else Outcome(Value(c), None, None, None, None)
  }

  function PlainEvents(ds: seq<Decl>, plain: string): seq<Outcome> {
    seq(|plain|, k requires 0 <= k < |plain| => PlainEvent(ds, plain[k]))
  }

  ghost function LastEvents(cfg: Config, ds: seq<Decl>, last: Last): seq<Outcome>
    requires ProperLast(cfg, ds, last)
  {
    match last
    case Nothing => []
    case Attached(c, text) => [Outcome(Value(c), Some(text), None, None, None)]
    case Separate(c, text) => [Outcome(Value(c), Some(text), None, None, None)]
    case Without(c) => [Outcome(Value(c), None, None, None, None)]
    case WAttached(form, swallowed) => [WEvent(cfg.longopts.value, form)]
    case WSeparate(form, swallowed) => [WEvent(cfg.longopts.value, form)]
    case WAlone => [Outcome('W' as int, None, None, None, None)]
  }

  ghost function Events(cfg: Config, ds: seq<Decl>, item: Item): seq<Outcome>
    requires Proper(cfg, ds, item)
  {
    match item
    case Cluster(plain, last) => PlainEvents(ds, plain) + LastEvents(cfg, ds, last)
    case Long(form) => [LongEvent(cfg.longopts.value, form)]
    case Operand(text) => if cfg.ordering == ReturnInOrder then [Outcome(1, Some(text), None, None, None)] else []
  }

  /** How a command line ends: with nothing more; with the terminator and anything; with an operand
      that stops the options, and anything; or with an option whose argument is missing. */
  datatype Final =
    | End
    | Terminated(rest: seq<string>)
    | Stopped(rest: seq<string>)
    | LacksShort(plain: string, c: char)
    | LacksLong(name: string, i: int)
    | LacksName(plain: string)
    | LacksAfterW(plain: string, name: string, i: int, attached: bool)

  function PrintFinal(f: Final): seq<string> {
    match f
    case End => []
    case Terminated(rest) => ["--"] + rest
    case Stopped(rest) => rest
    case LacksShort(plain, c) => ["-" + (plain + [c])]
    case LacksLong(name, i) => ["--" + name]
    case LacksName(plain) => ["-" + (plain + "W")]
    case LacksAfterW(plain, name, i, attached) =>
      if attached then ["-" + (plain + ("W" + name))] else ["-" + (plain + "W"), name]
  }

  ghost predicate AllPlain(cfg: Config, ds: seq<Decl>, plain: string, rest: string) {
    LooksShort(cfg, plain + rest) && forall k :: 0 <= k < |plain| ==> IsPlain(ds, plain[k])
  }

  ghost predicate ProperFinal(cfg: Config, ds: seq<Decl>, f: Final) {
    match f
    case End => true
    case Terminated(rest) => true
    case Stopped(rest) => cfg.ordering == RequireOrder && rest != [] && IsOperand(rest[0])
    case LacksShort(plain, c) => KindOf(ds, c) == Some(Required) && AllPlain(cfg, ds, plain, [c])
    case LacksLong(name, i) =>
      cfg.longopts.Some? && name != "" && Names(cfg.longopts.value, name, i) && cfg.longopts.value[i].hasArg == 1
    case LacksName(plain) =>
      KindOf(ds, 'W') == Some(LongName) && cfg.longopts.Some? && AllPlain(cfg, ds, plain, "W")
    case LacksAfterW(plain, name, i, attached) =>
      && KindOf(ds, 'W') == Some(LongName) && cfg.longopts.Some? && (attached ==> name != "")
      && Names(cfg.longopts.value, name, i) && cfg.longopts.value[i].hasArg == 1
      && AllPlain(cfg, ds, plain, "W" + if attached then name else "")
  }

  ghost function FinalParse(cfg: Config, ds: seq<Decl>, colon: bool, f: Final): Parse
    requires ProperFinal(cfg, ds, f)
  {
    match f
    case End => Parse([], [], [], Done)
    case Terminated(rest) => Parse([], ["--"], rest, Done)
    case Stopped(rest) => Parse([], [], rest, Done)
    case LacksShort(plain, c) =>
      Parse(PlainEvents(ds, plain) + [Lacking(colon, None, Some(Value(c)))], PrintFinal(f), [], Done)
    case LacksLong(name, i) =>
      Parse([Lacking(colon, None, Some(cfg.longopts.value[i].val))], PrintFinal(f), [], Done)
    case LacksName(plain) =>
      Parse(PlainEvents(ds, plain) + [Lacking(colon, None, Some('W' as int))], PrintFinal(f), [], Done)
    case LacksAfterW(plain, name, i, attached) =>
      Parse(PlainEvents(ds, plain) + [Lacking(colon, Some(name), None)], PrintFinal(f), [], Done)
  }

  ghost predicate AllProper(cfg: Config, ds: seq<Decl>, items: seq<Item>) {
    forall k :: 0 <= k < |items| ==> Proper(cfg, ds, items[k])
  }

  function PrintAll(items: seq<Item>, f: Final): seq<string> {
    if items == [] then PrintFinal(f) else Print(items[0]) + PrintAll(items[1..], f)
  }

  /** What the line means: its reports in order, and what is consumed and left over. */
  ghost function Meaning(cfg: Config, ds: seq<Decl>, colon: bool, items: seq<Item>, f: Final): Parse
    requires AllProper(cfg, ds, items) && ProperFinal(cfg, ds, f)
  {
    if items == [] then FinalParse(cfg, ds, colon, f) else
      var p := Meaning(cfg, ds, colon, items[1..], f);
      var item := items[0];
      if item.Operand? && cfg.ordering == Permute then Parse(p.events, p.opts, [item.text] + p.rest, p.end)
      else Parse(Events(cfg, ds, item) + p.events, Print(item) + p.opts, p.rest, p.end)
  }

  // ---- What the scanner finds in a printed option string ----------------------------------------

  lemma {:induction false} FindBehind(p: string, s: string, c: char)
    requires c !in p
    ensures Find(p + s, c) == if Find(s, c) < 0 then -1 else |p| + Find(s, c)
  {
    if p == [] {
      assert p + s == s;
    } else {
      assert (p + s)[1..] == p[1..] + s;
      FindBehind(p[1..], s, c);
    }
  }

  lemma AtBehind(p: string, s: string, k: int)
    requires k >= 0
    ensures At(p + s, |p| + k) == At(s, k)
  {
  }

  /** What stands behind a declared character. */
  predicate Marked(s: string, t: int, kind: Kind) {
    match kind
    case Flag => At(s, t + 1) != ':' && At(s, t + 1) != ';'
    case Required => At(s, t + 1) == ':' && At(s, t + 2) != ':'
    case Optional => At(s, t + 1) == ':' && At(s, t + 2) == ':'
    case LongName => At(s, t + 1) == ';'
  }

  lemma DeclFirst(ds: seq<Decl>)
    requires AllDeclarable(ds)
    ensures At(PrintDecls(ds), 0) != ':' && At(PrintDecls(ds), 0) != ';'
  {
  }

  lemma MarkedHere(c: char, kind: Kind, rest: string)
    requires At(rest, 0) != ':' && At(rest, 0) != ';'
    ensures Marked([c] + (Mark(kind) + rest), 0, kind)
  {
    var s := [c] + (Mark(kind) + rest);
    AtBehind([c], Mark(kind) + rest, 0);
    AtBehind([c], Mark(kind) + rest, 1);
    AtBehind(Mark(kind), rest, 0);
    assert kind == Flag ==> Mark(kind) + rest == rest;
  }

  /** The place of a character in an option string agrees with its declaration. */
  predicate Located(s: string, c: char, kind: Option<Kind>) {
    if kind.None? then Find(s, c) < 0 else Find(s, c) >= 0 && Marked(s, Find(s, c), kind.value)
  }

  lemma {:induction false} FindDecl(ds: seq<Decl>, c: char, s: string)
    requires AllDeclarable(ds) && c != ':' && c != ';' && s == PrintDecls(ds)
    ensures Located(s, c, KindOf(ds, c))
    decreases |ds|
  {
    if ds != [] {
      var rest := PrintDecls(ds[1..]);
      if ds[0].c == c {
        DeclFirst(ds[1..]);
        MarkedHere(c, ds[0].kind, rest);
      } else {
        FindDecl(ds[1..], c, rest);
        FindAfter(ds[0], c, rest, s, KindOf(ds[1..], c));
      }
    }
  }

  /** Behind the declaration of another character. */
  lemma FindAfter(d: Decl, c: char, rest: string, s: string, kind: Option<Kind>)
    requires c != ':' && c != ';' && d.c != c && s == [d.c] + (Mark(d.kind) + rest) && Located(rest, c, kind)
    ensures Located(s, c, kind)
  {
    var front := [d.c] + Mark(d.kind);
    assert s == front + rest;
    FindBehind(front, rest, c);
    MarkedBehind(front, rest, Find(rest, c), kind);
  }

  lemma MarkedBehind(front: string, rest: string, t: int, kind: Option<Kind>)
    requires kind.Some? ==> t >= 0 && Marked(rest, t, kind.value)
    ensures kind.Some? ==> Marked(front + rest, |front| + t, kind.value)
  {
    if kind.Some? {
      AtBehind(front, rest, t + 1);
      AtBehind(front, rest, t + 2);
    }
  }

  /** In the whole option string. */
  lemma FindIn(cfg: Config, ds: seq<Decl>, colon: bool, c: char)
    requires Declares(cfg, ds, colon) && c != ':' && c != ';'
    ensures Located(cfg.optstring, c, KindOf(ds, c))
  {
    FindDecl(ds, c, PrintDecls(ds));
    var front := if colon then ":" else "";
    FindBehind(front, PrintDecls(ds), c);
    MarkedBehind(front, PrintDecls(ds), Find(PrintDecls(ds), c), KindOf(ds, c));
  }

  lemma {:induction false} NotDeclared(ds: seq<Decl>, c: char)
    requires AllDeclarable(ds) && (c == ':' || c == ';')
    ensures KindOf(ds, c) == None
  {
    if ds != [] { NotDeclared(ds[1..], c); }
  }

  lemma LackingIs(cfg: Config, ds: seq<Decl>, colon: bool)
    requires Declares(cfg, ds, colon)
    ensures MissingArgument(cfg) == if colon then ':' as int else '?' as int
  {
    DeclFirst(ds);
    if !colon { assert cfg.optstring == PrintDecls(ds); }
  }

  // ---- What the scanner finds in a printed element -----------------------------------------------

  lemma PlainStep(cfg: Config, ds: seq<Decl>, colon: bool, c: char, more: string, args: seq<string>)
    requires Declares(cfg, ds, colon) && IsPlain(ds, c) && args != []
    ensures ShortStep(cfg, [c] + more, args) == Step(PlainEvent(ds, c), if more == [] then 1 else 0, more)
  {
    var r := [c] + more;
    assert r[0] == c && r[1..] == more;
    if c == ':' || c == ';' {
      NotDeclared(ds, c);
    } else {
      FindIn(cfg, ds, colon, c);
    }
  }

  lemma {:induction false} PlainScan(cfg: Config, ds: seq<Decl>, colon: bool, plain: string, tail: string,
                                     args: seq<string>, q: Parse)
    requires Declares(cfg, ds, colon) && args != [] && !IsLong(cfg, args[0]) && tail != []
    requires forall k :: 0 <= k < |plain| ==> IsPlain(ds, plain[k])
    requires q == ScanElement(cfg, tail, args)
    ensures ScanElement(cfg, plain + tail, args) == Parse(PlainEvents(ds, plain) + q.events, q.opts, q.rest, q.end)
    decreases |plain|
  {
    if plain == [] {
      assert plain + tail == tail && PlainEvents(ds, plain) + q.events == q.events;
    } else {
      PlainScan(cfg, ds, colon, plain[1..], tail, args, q);
      PlainFirst(cfg, ds, colon, plain, tail, args, ScanElement(cfg, plain[1..] + tail, args));
      PlainEventsFirst(ds, plain, q.events);
    }
  }

  lemma PlainFirst(cfg: Config, ds: seq<Decl>, colon: bool, plain: string, tail: string, args: seq<string>, q: Parse)
    requires Declares(cfg, ds, colon) && args != [] && !IsLong(cfg, args[0]) && tail != []
    requires plain != [] && IsPlain(ds, plain[0]) && q == ScanElement(cfg, plain[1..] + tail, args)
    ensures ScanElement(cfg, plain + tail, args) == Parse([PlainEvent(ds, plain[0])] + q.events, q.opts, q.rest, q.end)
  {
    var c, more := plain[0], plain[1..] + tail;
    assert plain + tail == [c] + more;
    PlainStep(cfg, ds, colon, c, more, args);
    ScanGoes(cfg, plain + tail, args, Step(PlainEvent(ds, c), 0, more), q);
  }

  lemma PlainEventsFirst(ds: seq<Decl>, plain: string, more: seq<Outcome>)
    requires plain != []
    ensures PlainEvents(ds, plain) + more == [PlainEvent(ds, plain[0])] + (PlainEvents(ds, plain[1..]) + more)
  {
  }

  /** A step that takes the first `n` elements and leaves the others. */
  lemma TakingScan(cfg: Config, r: string, args: seq<string>, taken: seq<string>, more: seq<string>, out: Outcome,
                   rest: string, q: Parse)
    requires r != [] && taken != [] && args == taken + more && q == Scan(cfg, more)
    requires ElementStep(cfg, r, args) == Step(out, |taken|, rest)
    ensures ScanElement(cfg, r, args) == Parse([out] + q.events, taken + q.opts, q.rest, q.end)
  {
    assert args[|taken|..] == more && args[..|taken|] == taken;
    ScanTakes(cfg, r, args, ElementStep(cfg, r, args), q);
  }

  lemma SelectsOnce(opts: seq<LongOption>, name: string, m: Match)
    requires Selects(opts, name, m)
    ensures Lookup(opts, name, 0, -1, false) == m
  {
    LookupSelects(opts, name);
    var k := Lookup(opts, name, 0, -1, false);
    if k.Found? && m.Found? {
      assert FirstExact(opts, k.index, name) <==> FirstExact(opts, m.index, name);
    }
  }

  lemma NameIs(name: string, suffix: string)
    requires '=' !in name && (suffix == "" || suffix[0] == '=')
    ensures NameOf(name + suffix) == name
    ensures Find(name + suffix, '=') == if suffix == "" then -1 else |name|
  {
    FindBehind(name, suffix, '=');
    if suffix == "" { assert name + suffix == name; }
  }

  /** The name in a text, what it selects, and the argument behind an equals sign. */
  lemma FormParts(opts: seq<LongOption>, f: LongForm)
    requires ProperLong(opts, f)
    ensures Lookup(opts, NameOf(Text(f)), 0, -1, false) == Picked(f)
    ensures Find(Text(f), '=') == if Suffix(f) == "" then -1 else |f.name|
    ensures Suffix(f) != "" ==> Text(f)[|f.name| + 1..] == Suffix(f)[1..]
  {
    NameIs(f.name, Suffix(f));
    SelectsOnce(opts, f.name, Picked(f));
  }

  lemma LongStepIs(cfg: Config, f: LongForm, next: Option<string>)
    requires cfg.longopts.Some? && ProperLong(cfg.longopts.value, f) && (f.Apart? ==> next == Some(f.arg))
    ensures LongStep(cfg, Text(f), next) == Step(LongEvent(cfg.longopts.value, f), if f.Apart? then 2 else 1, [])
  {
    if f.Unknown? || f.Vague? || f.Refused? {
      LongMistake(cfg, f, next);
    } else {
      LongChosen(cfg, f, next);
    }
  }

  lemma LongMistake(cfg: Config, f: LongForm, next: Option<string>)
    requires cfg.longopts.Some? && ProperLong(cfg.longopts.value, f) && (f.Unknown? || f.Vague? || f.Refused?)
    ensures LongStep(cfg, Text(f), next) == Step(LongEvent(cfg.longopts.value, f), 1, [])
  {
    FormParts(cfg.longopts.value, f);
  }

  lemma LongChosen(cfg: Config, f: LongForm, next: Option<string>)
    requires cfg.longopts.Some? && ProperLong(cfg.longopts.value, f)
    requires f.Bare? || f.Equals? || (f.Apart? && next == Some(f.arg))
    ensures LongStep(cfg, Text(f), next) == Step(LongEvent(cfg.longopts.value, f), if f.Apart? then 2 else 1, [])
  {
    FormParts(cfg.longopts.value, f);
  }

  lemma NamedIs(cfg: Config, f: LongForm, front: seq<string>, swallowed: seq<string>, more: seq<string>,
                args: seq<string>)
    requires cfg.longopts.Some? && ProperLong(cfg.longopts.value, f) && front != []
    requires |swallowed| == (if f.Vague? then 1 else 0) && args == front + (Behind(f) + swallowed) + more
    ensures NamedByW(cfg, Text(f), |front|, args)
         == Step(WEvent(cfg.longopts.value, f), |front| + |Behind(f) + swallowed|, [])
  {
    if f.Unknown? || f.Vague? || f.Refused? {
      NamedMistake(cfg, f, |front|, args);
    } else {
      if f.Apart? { assert args[|front|] == f.arg; }
      NamedChosen(cfg, f, |front|, args);
    }
  }

  lemma NamedMistake(cfg: Config, f: LongForm, used: int, args: seq<string>)
    requires cfg.longopts.Some? && ProperLong(cfg.longopts.value, f) && 1 <= used <= |args|
    requires f.Unknown? || f.Vague? || f.Refused?
    ensures NamedByW(cfg, Text(f), used, args)
         == Step(WEvent(cfg.longopts.value, f), if f.Vague? then used + 1 else used, [])
  {
    FormParts(cfg.longopts.value, f);
  }

  lemma NamedChosen(cfg: Config, f: LongForm, used: int, args: seq<string>)
    requires cfg.longopts.Some? && ProperLong(cfg.longopts.value, f) && 1 <= used <= |args|
    requires f.Bare? || f.Equals? || (f.Apart? && used < |args| && args[used] == f.arg)
    ensures NamedByW(cfg, Text(f), used, args)
         == Step(WEvent(cfg.longopts.value, f), if f.Apart? then used + 1 else used, [])
  {
    FormParts(cfg.longopts.value, f);
  }

  // ---- The law -----------------------------------------------------------------------------------

  lemma ShortElementIs(cfg: Config, r: string)
    requires LooksShort(cfg, r)
    ensures var e := "-" + r; !NonOption(e) && e != "--" && !IsLong(cfg, e) && Body(cfg, e) == r
  {
    var e := "-" + r;
    assert e[0] == '-' && e[1] == r[0] && e[1..] == r;
    assert |r| == 1 ==> r == [r[0]];
  }

  /** The end of a cluster. */
  lemma LastScan(cfg: Config, ds: seq<Decl>, colon: bool, last: Last, e: string, more: seq<string>, q: Parse)
    requires Declares(cfg, ds, colon) && ProperLast(cfg, ds, last) && !last.Nothing? && !IsLong(cfg, e)
    requires q == Scan(cfg, more)
    ensures ScanElement(cfg, LastText(last), [e] + LastBehind(last) + more)
         == Parse(LastEvents(cfg, ds, last) + q.events, [e] + LastBehind(last) + q.opts, q.rest, q.end)
  {
    var taken := [e] + LastBehind(last);
    LastStep(cfg, ds, colon, last, e, more, taken + more);
    TakingScan(cfg, LastText(last), taken + more, taken, more, LastEvents(cfg, ds, last)[0], [], q);
  }

  lemma LastStep(cfg: Config, ds: seq<Decl>, colon: bool, last: Last, e: string, more: seq<string>, args: seq<string>)
    requires Declares(cfg, ds, colon) && ProperLast(cfg, ds, last) && !last.Nothing? && !IsLong(cfg, e)
    requires args == [e] + LastBehind(last) + more
    ensures ElementStep(cfg, LastText(last), args) == Step(LastEvents(cfg, ds, last)[0], 1 + |LastBehind(last)|, [])
  {
    assert args[0] == e;
    match last
    case WAttached(form, swallowed) => WAttachedStep(cfg, ds, colon, form, swallowed, e, more, args);
    case WSeparate(form, swallowed) => WSeparateStep(cfg, ds, colon, form, swallowed, e, more, args);
    case WAlone =>
      WStep(cfg, ds, colon, [], args);
      assert "W" + [] == "W";
    case _ => ArgumentStep(cfg, ds, colon, last, e, more, args);
  }

  lemma WAttachedStep(cfg: Config, ds: seq<Decl>, colon: bool, form: LongForm, swallowed: seq<string>, e: string,
                      more: seq<string>, args: seq<string>)
    requires Declares(cfg, ds, colon) && ProperLast(cfg, ds, WAttached(form, swallowed))
    requires args == [e] + (Behind(form) + swallowed) + more
    ensures ShortStep(cfg, "W" + Text(form), args)
         == Step(WEvent(cfg.longopts.value, form), 1 + |Behind(form) + swallowed|, [])
  {
    WStep(cfg, ds, colon, Text(form), args);
    NamedIs(cfg, form, [e], swallowed, more, args);
  }

  lemma WSeparateStep(cfg: Config, ds: seq<Decl>, colon: bool, form: LongForm, swallowed: seq<string>, e: string,
                      more: seq<string>, args: seq<string>)
    requires Declares(cfg, ds, colon) && ProperLast(cfg, ds, WSeparate(form, swallowed))
    requires args == [e] + ([Text(form)] + (Behind(form) + swallowed)) + more
    ensures ShortStep(cfg, "W", args) == Step(WEvent(cfg.longopts.value, form), 2 + |Behind(form) + swallowed|, [])
  {
    assert args[1] == Text(form) && args == [e, Text(form)] + (Behind(form) + swallowed) + more;
    WStep(cfg, ds, colon, [], args);
    assert "W" + [] == "W";
    NamedIs(cfg, form, [e, Text(form)], swallowed, more, args);
  }

  lemma ArgumentStep(cfg: Config, ds: seq<Decl>, colon: bool, last: Last, e: string, more: seq<string>,
                     args: seq<string>)
    requires Declares(cfg, ds, colon) && ProperLast(cfg, ds, last)
      && (last.Attached? || last.Separate? || last.Without?)
    requires args == [e] + LastBehind(last) + more
    ensures ShortStep(cfg, LastText(last), args) == Step(LastEvents(cfg, ds, last)[0], 1 + |LastBehind(last)|, [])
  {
    var r, c := LastText(last), last.c;
    if c == ':' || c == ';' { NotDeclared(ds, c); }
    FindIn(cfg, ds, colon, c);
    assert r[0] == c && r[1..] == if last.Attached? then last.text else [];
    if last.Separate? { assert args[1] == last.text; }
  }

  /** `W` and what stands behind it. */
  lemma WStep(cfg: Config, ds: seq<Decl>, colon: bool, text: string, args: seq<string>)
    requires Declares(cfg, ds, colon) && KindOf(ds, 'W') == Some(LongName) && args != []
    ensures ShortStep(cfg, "W" + text, args) == StepByW(cfg, text, args)
  {
    FindIn(cfg, ds, colon, 'W');
    assert ("W" + text)[0] == 'W' && ("W" + text)[1..] == text;
  }

  lemma ClusterScan(cfg: Config, ds: seq<Decl>, colon: bool, plain: string, last: Last, more: seq<string>, q: Parse)
    requires Declares(cfg, ds, colon) && Proper(cfg, ds, Cluster(plain, last)) && q == Scan(cfg, more)
    ensures var item := Cluster(plain, last);
      Scan(cfg, Print(item) + more)
        == Parse(Events(cfg, ds, item) + q.events, Print(item) + q.opts, q.rest, q.end)
  {
    var r := plain + LastText(last);
    var e, args := "-" + r, ["-" + r] + LastBehind(last) + more;
    ShortElementIs(cfg, r);
    assert args[0] == e;
    ScanOpens(cfg, args, r);
    if last.Nothing? {
      assert r == plain && PlainEvents(ds, plain) + [] == PlainEvents(ds, plain) && [e] + [] == [e];
      AllPlainScan(cfg, ds, colon, plain, args, more, q);
    } else {
      MixedScan(cfg, ds, colon, plain, last, e, more, q);
    }
  }

  lemma ScanOpens(cfg: Config, args: seq<string>, r: string)
    requires args != [] && !NonOption(args[0]) && args[0] != "--" && r == Body(cfg, args[0])
    ensures Scan(cfg, args) == ScanElement(cfg, r, args)
  {
  }

  /** A cluster of plain characters and something else at the end. */
  lemma MixedScan(cfg: Config, ds: seq<Decl>, colon: bool, plain: string, last: Last, e: string, more: seq<string>,
                  q: Parse)
    requires Declares(cfg, ds, colon) && ProperLast(cfg, ds, last) && !last.Nothing? && !IsLong(cfg, e)
    requires (forall k :: 0 <= k < |plain| ==> IsPlain(ds, plain[k])) && q == Scan(cfg, more)
    ensures ScanElement(cfg, plain + LastText(last), [e] + LastBehind(last) + more)
         == Parse(PlainEvents(ds, plain) + LastEvents(cfg, ds, last) + q.events, [e] + LastBehind(last) + q.opts,
                  q.rest, q.end)
  {
    var args := [e] + LastBehind(last) + more;
    LastScan(cfg, ds, colon, last, e, more, q);
    PlainScan(cfg, ds, colon, plain, LastText(last), args, ScanElement(cfg, LastText(last), args));
    Regroup(PlainEvents(ds, plain), LastEvents(cfg, ds, last), q.events);
  }

  /** A cluster of plain characters only. */
  lemma AllPlainScan(cfg: Config, ds: seq<Decl>, colon: bool, plain: string, args: seq<string>, more: seq<string>,
                     q: Parse)
    requires Declares(cfg, ds, colon) && args != [] && args == [args[0]] + more && !IsLong(cfg, args[0])
    requires plain != [] && (forall k :: 0 <= k < |plain| ==> IsPlain(ds, plain[k])) && q == Scan(cfg, more)
    ensures ScanElement(cfg, plain, args) == Parse(PlainEvents(ds, plain) + q.events, [args[0]] + q.opts, q.rest, q.end)
  {
    var n := |plain| - 1;
    var front, c := plain[..n], plain[n];
    PlainStep(cfg, ds, colon, c, [], args);
    assert [c] + [] == [c] && plain == front + [c];
    TakingScan(cfg, [c], args, [args[0]], more, PlainEvent(ds, c), [], q);
    PlainScan(cfg, ds, colon, front, [c], args, ScanElement(cfg, [c], args));
    assert PlainEvents(ds, plain) == PlainEvents(ds, front) + [PlainEvent(ds, c)];
    Regroup(PlainEvents(ds, front), [PlainEvent(ds, c)], q.events);
  }

  lemma LongScan(cfg: Config, ds: seq<Decl>, form: LongForm, more: seq<string>, q: Parse)
    requires Proper(cfg, ds, Long(form)) && q == Scan(cfg, more)
    ensures var item := Long(form);
      Scan(cfg, Print(item) + more)
        == Parse(Events(cfg, ds, item) + q.events, Print(item) + q.opts, q.rest, q.end)
  {
    var e, args := "--" + Text(form), Print(Long(form)) + more;
    assert e[0] == '-' && e[1] == '-' && e[2..] == Text(form) && args[0] == e;
    assert |e| > 2;
    ScanOpens(cfg, args, Text(form));
    if form.Apart? { assert args[1] == form.arg; }
    LongStepIs(cfg, form, if |args| > 1 then Some(args[1]) else None);
    TakingScan(cfg, Text(form), args, Print(Long(form)), more, LongEvent(cfg.longopts.value, form), [], q);
  }

  lemma OperandIs(e: string)
    ensures IsOperand(e) <==> NonOption(e)
  {
    if |e| == 1 && e[0] == '-' { assert e == "-"; }
  }

  lemma FinalScan(cfg: Config, ds: seq<Decl>, colon: bool, f: Final)
    requires Declares(cfg, ds, colon) && ProperFinal(cfg, ds, f)
    ensures Scan(cfg, PrintFinal(f)) == FinalParse(cfg, ds, colon, f)
  {
    match f
    case End =>
    case Terminated(rest) => assert (["--"] + rest)[1..] == rest;
    case Stopped(rest) => OperandIs(rest[0]);
    case LacksLong(name, i) => LacksLongScan(cfg, ds, colon, name, i);
    case _ => LacksScan(cfg, ds, colon, f);
  }

  lemma LacksLongScan(cfg: Config, ds: seq<Decl>, colon: bool, name: string, i: int)
    requires Declares(cfg, ds, colon) && ProperFinal(cfg, ds, LacksLong(name, i))
    ensures Scan(cfg, ["--" + name]) == FinalParse(cfg, ds, colon, LacksLong(name, i))
  {
    var e := "--" + name;
    assert e[0] == '-' && e[1] == '-' && e[2..] == name;
    assert |e| > 2;
    LackingIs(cfg, ds, colon);
    NameIs(name, "");
    assert name + "" == name;
    SelectsOnce(cfg.longopts.value, name, Found(i));
    TakingScan(cfg, name, [e], [e], [], Lacking(colon, None, Some(cfg.longopts.value[i].val)), [], Scan(cfg, []));
  }

  /** The plain characters, the rest of the element and the report of the short finals. */
  ghost function LackingText(f: Final): string
    requires f.LacksShort? || f.LacksName? || f.LacksAfterW?
  {
    if f.LacksShort? then [f.c] else "W" + if f.LacksAfterW? && f.attached then f.name else ""
  }

  ghost function LackingEvent(colon: bool, f: Final): Outcome
    requires f.LacksShort? || f.LacksName? || f.LacksAfterW?
  {
    match f
    case LacksShort(plain, c) => Lacking(colon, None, Some(Value(c)))
    case LacksAfterW(plain, name, i, attached) => Lacking(colon, Some(name), None)
    case _ => Lacking(colon, None, Some('W' as int))
  }

  lemma LacksScan(cfg: Config, ds: seq<Decl>, colon: bool, f: Final)
    requires Declares(cfg, ds, colon) && ProperFinal(cfg, ds, f) && (f.LacksShort? || f.LacksName? || f.LacksAfterW?)
    ensures Scan(cfg, PrintFinal(f)) == FinalParse(cfg, ds, colon, f)
  {
    var text, args := LackingText(f), PrintFinal(f);
    var r := f.plain + text;
    assert args[0] == "-" + r;
    ShortElementIs(cfg, r);
    LackingStep(cfg, ds, colon, f);
    assert args + [] == args;
    TakingScan(cfg, text, args, args, [], LackingEvent(colon, f), [], Scan(cfg, []));
    PlainScan(cfg, ds, colon, f.plain, text, args, ScanElement(cfg, text, args));
    assert [LackingEvent(colon, f)] + [] == [LackingEvent(colon, f)];
  }

  lemma LackingStep(cfg: Config, ds: seq<Decl>, colon: bool, f: Final)
    requires Declares(cfg, ds, colon) && ProperFinal(cfg, ds, f) && (f.LacksShort? || f.LacksName? || f.LacksAfterW?)
    requires !IsLong(cfg, PrintFinal(f)[0])
    ensures ElementStep(cfg, LackingText(f), PrintFinal(f)) == Step(LackingEvent(colon, f), |PrintFinal(f)|, [])
  {
    LackingIs(cfg, ds, colon);
    if f.LacksShort? {
      if f.c == ':' || f.c == ';' { NotDeclared(ds, f.c); }
      FindIn(cfg, ds, colon, f.c);
    } else {
      WStep(cfg, ds, colon, LackingText(f)[1..], PrintFinal(f));
      if f.LacksAfterW? {
        NameIs(f.name, "");
        assert f.name + "" == f.name;
        SelectsOnce(cfg.longopts.value, f.name, Found(f.i));
      }
    }
  }

  /** For every option string printed from declarations and every command line printed from options
      in any spelling, operands and mistakes, scanning gives back exactly what was meant: value,
      argument, subject of a mistake, place in the table and flag of every option, in order. */
  lemma {:induction false} PrintedIsScanned(cfg: Config, ds: seq<Decl>, colon: bool, items: seq<Item>, f: Final)
    requires Declares(cfg, ds, colon) && AllProper(cfg, ds, items) && ProperFinal(cfg, ds, f)
    ensures Scan(cfg, PrintAll(items, f)) == Meaning(cfg, ds, colon, items, f)
    decreases |items|
  {
    if items == [] {
      FinalScan(cfg, ds, colon, f);
    } else {
      var item, more := items[0], PrintAll(items[1..], f);
      assert Proper(cfg, ds, item);
      PrintedIsScanned(cfg, ds, colon, items[1..], f);
      match item
      case Cluster(plain, last) => ClusterScan(cfg, ds, colon, plain, last, more, Scan(cfg, more));
      case Long(form) => LongScan(cfg, ds, form, more, Scan(cfg, more));
      case Operand(text) =>
        OperandIs(text);
        assert ([text] + more)[0] == text && ([text] + more)[1..] == more;
    }
  }

  /** The first character of the option string chooses the order. */
  lemma ConfigureIs(text: string, longopts: Option<seq<LongOption>>, posixlyCorrect: bool)
    ensures Configure("-" + text, longopts, posixlyCorrect) == Config(text, longopts, ReturnInOrder)
    ensures Configure("+" + text, longopts, posixlyCorrect) == Config(text, longopts, RequireOrder)
    ensures text == "" || (text[0] != '-' && text[0] != '+') ==>
      Configure(text, longopts, posixlyCorrect)
        == Config(text, longopts, if posixlyCorrect then RequireOrder else Permute)
  {
    assert ("-" + text)[1..] == text && ("+" + text)[1..] == text;
  }

  /** The number of a character is its byte, read with a sign. */
  lemma ValueIs(c: char)
    requires c as int < 256
    ensures -128 <= Value(c) <= 127 && (Value(c) - c as int) % 256 == 0
  {
  }

  /** The same through the scanner: a run over a printed command line. */
  method RunPrinted(sc: Scanner, optstring: string, longopts: Option<seq<LongOption>>, posixlyCorrect: bool,
                    ghost ds: seq<Decl>, ghost colon: bool, ghost items: seq<Item>, ghost f: Final)
      returns (rets: seq<int>, args: seq<Option<string>>)
    requires sc.argv.Length > 0 && sc.optind == 1 && !sc.initialized
    requires var cfg := Configure(optstring, longopts, posixlyCorrect);
      && Declares(cfg, ds, colon) && AllProper(cfg, ds, items) && ProperFinal(cfg, ds, f)
      && sc.argv[1..] == PrintAll(items, f) && NeverMinusOne(cfg)
    modifies sc, sc.argv
    ensures var m := Meaning(Configure(optstring, longopts, posixlyCorrect), ds, colon, items, f);
      && |rets| == |args| == |m.events|
      && (forall k :: 0 <= k < |m.events| ==> rets[k] == m.events[k].ret && args[k] == m.events[k].optarg)
      && sc.argv[..] == [old(sc.argv[0])] + m.opts + m.rest && sc.optind == 1 + |m.opts|
  {
    ghost var cfg := Configure(optstring, longopts, posixlyCorrect);
    PrintedIsScanned(cfg, ds, colon, items, f);
    MeaningEnds(cfg, ds, colon, items, f);
    EventsAreNotEnds(cfg, sc.argv[1..]);
    ghost var p := Scan(cfg, sc.argv[1..]);
    AllBeforeEnd(p.events);
    assert p.events[..|p.events|] == p.events;
    rets, args := Run(sc, optstring, longopts, posixlyCorrect);
  }

  lemma {:induction false} MeaningEnds(cfg: Config, ds: seq<Decl>, colon: bool, items: seq<Item>, f: Final)
    requires AllProper(cfg, ds, items) && ProperFinal(cfg, ds, f)
    ensures Meaning(cfg, ds, colon, items, f).end == Done
    decreases |items|
  {
    if items != [] { MeaningEnds(cfg, ds, colon, items[1..], f); }
  }

  lemma {:induction false} AllBeforeEnd(events: seq<Outcome>)
    requires forall i :: 0 <= i < |events| ==> events[i].ret != -1
    ensures BeforeEnd(events) == |events|
  {
    if events != [] { AllBeforeEnd(events[1..]); }
  }
}
