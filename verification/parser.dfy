/** The parsing engine of `parser.hpp`. Argument records live in one arena;
    the positional list and the name table hold indices into it, and the
    values the engine writes back into caller variables are kept in a store
    keyed by the same indices. */
module Parser {
  import opened Wrappers
  import opened Values
  import opened Policy
  import opened Arguments

  /** The errors `parse()` can return, each carrying what its message names. */
  datatype ParseError =
    | UnknownOption(name: string)
    | BadOptionValue(token: string, cause: DecodeError)
    | BadPositionalValue(cause: DecodeError)
    | TypeMismatch(token: string, expected: Kind, got: Value)
    | BindMismatch(name: string, expected: Kind, gotKind: Kind)
    | MissingValue(token: string)
    | UnexpectedPositional(position: nat)
    | MissingRequiredPositional(name: string)
    | MissingRequiredOption(name: string)

  /** `parser`: its policies, `argv`, the argument records, the records
      whose `provided` flag is set, the positional list (`m_positionals`),
      the name table (`m_options`) and the values bound so far. */
  datatype Parser = Parser(
    cfg: Config,
    argv: seq<string>,
    arena: seq<Argument>,
    supplied: set<nat>,
    positionals: seq<nat>,
    options: map<string, nat>,
    store: map<nat, Value>)

  /** What registration establishes and parsing keeps: the policies meet
      their constraints; the positional list and the name table point into
      the arena; a positional record sits at one place in the list and is
      never also an option; each table name is one of its record's names;
      every record has a name; only records are supplied; every bound value
      has its record's kind. */
  predicate Valid(p: Parser) {
    && p.cfg.Valid()
    && (forall i :: i in p.supplied ==> i < |p.arena|)
    && (forall i :: 0 <= i < |p.positionals| ==> p.positionals[i] < |p.arena|)
    && Distinct(p.positionals)
    && (forall n :: n in p.options ==> p.options[n] < |p.arena|)
    && (forall n :: n in p.options ==> n != "" && n in p.arena[p.options[n]].names)
    && (forall n :: n in p.options ==> p.options[n] !in p.positionals)
    && (forall i :: 0 <= i < |p.arena| ==> |p.arena[i].names| > 0)
    && (forall i :: i in p.store ==> i < |p.arena| && KindOf(p.store[i]) == p.arena[i].kind)
  }

  /** Position `i` of `s`; the name that lets `Distinct` be used only where
      it is asked for. */
  function Slot(s: seq<nat>, i: nat): nat
    requires i < |s|
  {
    s[i]
  }

  /** No index occurs twice in `s`. */
  predicate Distinct(s: seq<nat>) {
    forall i, j :: 0 <= i < j < |s| ==> Slot(s, i) != Slot(s, j)
  }

  /** Two different positions of a distinct sequence hold different
      indices. */
  lemma DistinctAt(s: seq<nat>, i: nat, j: nat)
    requires Distinct(s) && i < j < |s|
    ensures s[i] != s[j]
  {
    assert Slot(s, i) != Slot(s, j);
  }

  /** Appending an index not yet present keeps a sequence distinct. */
  lemma DistinctAppend(s: seq<nat>, x: nat)
    requires Distinct(s) && x !in s
    ensures Distinct(s + [x])
  {
    var t := s + [x];
    forall i, j | 0 <= i < j < |t| ensures Slot(t, i) != Slot(t, j) {
      if j == |s| {
        assert t[i] == s[i];
      } else {
        assert Slot(s, i) != Slot(s, j);
      }
    }
  }

  /** The `parser(argc, argv)` constructor: nothing registered, nothing
      bound. */
  function New(cfg: Config, argv: seq<string>): (p: Parser)
    requires cfg.Valid()
    ensures Valid(p)
    ensures p.arena == [] && p.supplied == {} && p.positionals == [] && p.options == map[] && p.store == map[]
  {
    Parser(cfg, argv, [], {}, [], map[], map[])
  }

  predicate StartsWith(s: string, prefix: string) {
    |prefix| <= |s| && s[..|prefix|] == prefix
  }

  /** `positional(name, bind)`: a new record answering to `name`, appended
      to the positional list. Returns the parser and the record's index. */
  function AddPositional(p: Parser, name: string, kind: Kind): (r: (Parser, nat))
    requires Valid(p) && name != ""
    ensures Valid(r.0)
    ensures r.1 == |p.arena| && r.0.arena == p.arena + [NewArgument(kind, [name])]
    ensures r.0.positionals == p.positionals + [r.1]
    ensures r.0.supplied == p.supplied && r.1 !in r.0.supplied
    ensures r.0.options == p.options && r.0.store == p.store && r.0.cfg == p.cfg && r.0.argv == p.argv
  {
    var idx := |p.arena|;
    DistinctAppend(p.positionals, idx);
    (p.(arena := p.arena + [NewArgument(kind, [name])], positionals := p.positionals + [idx]), idx)
  }

  /** The names vector `option` builds: the long name if given, then the
      short name if given. */
  function OptionNameList(n: OptionNames): (r: seq<string>)
    ensures |r| > 0 <==> n.OneDefined()
    ensures forall x :: x in r <==> x != "" && (x == n.longName || x == n.shortName)
    ensures |r| > 0 ==> r[0] == (if n.longName != "" then n.longName else n.shortName)
  {
    (if n.longName != "" then [n.longName] else []) + (if n.shortName != "" then [n.shortName] else [])
  }

  /** What `option` checks before registering: some name is given, and each
      given name carries the prefix of its role. */
  predicate WellNamed(cfg: Config, n: OptionNames) {
    && n.OneDefined()
    && (n.longName != "" ==> StartsWith(n.longName, cfg.LongPrefix()))
    && (n.shortName != "" ==> StartsWith(n.shortName, cfg.ShortPrefix()))
  }

  /** `option(names, bind)`: a new record entered in the name table under
      every given name, replacing any earlier entry for that name. Returns
      the parser and the record's index. */
  function AddOption(p: Parser, n: OptionNames, kind: Kind): (r: (Parser, nat))
    requires Valid(p) && WellNamed(p.cfg, n)
    ensures Valid(r.0)
    ensures r.1 == |p.arena| && r.0.arena == p.arena + [NewArgument(kind, OptionNameList(n))]
    ensures r.0.arena[r.1].Name() == (if n.longName != "" then n.longName else n.shortName)
    ensures forall x :: x in r.0.options <==> x in p.options || x in OptionNameList(n)
    ensures forall x :: x in OptionNameList(n) ==> r.0.options[x] == r.1
    ensures forall x :: x in p.options && x !in OptionNameList(n) ==> r.0.options[x] == p.options[x]
    ensures r.0.supplied == p.supplied && r.1 !in r.0.supplied
    ensures r.0.positionals == p.positionals && r.0.store == p.store && r.0.cfg == p.cfg && r.0.argv == p.argv
  {
    var names := OptionNameList(n);
    var idx := |p.arena|;
    var opts := if n.longName != "" then p.options[n.longName := idx] else p.options;
    var opts' := if n.shortName != "" then opts[n.shortName := idx] else opts;
    var q := p.(arena := p.arena + [NewArgument(kind, names)], options := opts');
    AddOptionValid(p, q, names, idx, kind);
    (q, idx)
  }

  /** The parser `AddOption` builds keeps the invariant. */
  lemma AddOptionValid(p: Parser, q: Parser, names: seq<string>, idx: nat, kind: Kind)
    requires Valid(p) && idx == |p.arena| && |names| > 0 && "" !in names
    requires q == p.(arena := p.arena + [NewArgument(kind, names)], options := q.options)
    requires forall x :: x in q.options <==> x in p.options || x in names
    requires forall x :: x in names ==> q.options[x] == idx
    requires forall x :: x in p.options && x !in names ==> q.options[x] == p.options[x]
    ensures Valid(q)
  {
    forall i | 0 <= i < |p.arena|
      ensures q.arena[i] == p.arena[i]
    {
    }
    forall x | x in q.options
      ensures q.options[x] < |q.arena| && x != "" && x in q.arena[q.options[x]].names
    {
      if x in names {
        assert q.arena[idx].names == names;
      } else {
        assert q.arena[p.options[x]] == p.arena[p.options[x]];
      }
    }
  }

  /** `.required()` on the record at `idx`. */
  function SetRequired(p: Parser, idx: nat): (q: Parser)
    requires Valid(p) && idx < |p.arena|
    ensures Valid(q)
    ensures |q.arena| == |p.arena| && q.arena[idx].required
    ensures forall i :: 0 <= i < |p.arena| && i != idx ==> q.arena[i] == p.arena[i]
    ensures q.arena[idx] == p.arena[idx].(required := true)
    ensures q.supplied == p.supplied && q.positionals == p.positionals && q.options == p.options && q.store == p.store
  {
    p.(arena := p.arena[idx := p.arena[idx].Required()])
  }

  /** `.help(h)` on the record at `idx`. */
  function SetHelp(p: Parser, idx: nat, h: string): (q: Parser)
    requires Valid(p) && idx < |p.arena|
    ensures Valid(q)
    ensures |q.arena| == |p.arena| && q.arena[idx].help == h
    ensures forall i :: 0 <= i < |p.arena| && i != idx ==> q.arena[i] == p.arena[i]
    ensures q.arena[idx] == p.arena[idx].(help := h)
    ensures q.supplied == p.supplied && q.positionals == p.positionals && q.options == p.options && q.store == p.store
  {
    p.(arena := p.arena[idx := p.arena[idx].Help(h)])
  }

  /** How `parse` classifies a token: long prefix first, then short prefix,
      otherwise positional. */
  datatype TokenClass = LongToken | ShortToken | PositionalToken

  function Classify(cfg: Config, tok: string): (c: TokenClass)
    ensures var l, sh := cfg.LongPrefix(), cfg.ShortPrefix();
      && (c == LongToken <==> |l| <= |tok| && tok[..|l|] == l)
      && (c == ShortToken <==> !(|l| <= |tok| && tok[..|l|] == l) && |sh| <= |tok| && tok[..|sh|] == sh)
  {
    if StartsWith(tok, cfg.LongPrefix()) then LongToken
    else if StartsWith(tok, cfg.ShortPrefix()) then ShortToken
    else PositionalToken
  }

  /** The position of the first `c` in `s`, or `|s|` if there is none. */
  function FirstIndex(s: string, c: char): (i: nat)
    ensures i <= |s|
    ensures forall j :: 0 <= j < i ==> s[j] != c
    ensures i < |s| ==> s[i] == c
  {
    if s == [] then 0
    else if s[0] == c then 0
    else 1 + FirstIndex(s[1..], c)
  }

  /** The split of a long token into option name and value text: at the
      first assignment character, or the whole token and empty text when
      there is none. */
  function SplitAssign(tok: string, c: char): (r: (string, string))
    ensures c !in r.0
    ensures c in tok ==> tok == r.0 + [c] + r.1
    ensures c !in tok ==> r == (tok, "")
  {
    var i := FirstIndex(tok, c);
    if i < |tok| then
      assert tok == tok[..i] + [c] + tok[i + 1..];
      (tok[..i], tok[i + 1..])
    else
      (tok, "")
  }

  /** `provided = true` on the record at `idx`. */
  function MarkProvided(p: Parser, idx: nat): (q: Parser)
    requires Valid(p) && idx < |p.arena|
    ensures Evolves(p, q)
    ensures q.supplied == p.supplied + {idx}
    ensures q.store == p.store
  {
    p.(supplied := p.supplied + {idx})
  }

  /** What parsing may do to a parser: set `provided` flags and bind values
      of the right kind; the configuration, `argv`, the records, the
      positional list and the name table stay as they are. */
  predicate Evolves(p: Parser, q: Parser) {
    && Valid(q)
    && q.cfg == p.cfg && q.argv == p.argv && q.arena == p.arena
    && q.positionals == p.positionals && q.options == p.options
    && p.supplied <= q.supplied
  }

  lemma EvolvesTransitive(p: Parser, q: Parser, r: Parser)
    requires Evolves(p, q) && Evolves(q, r)
    ensures Evolves(p, r)
  {
  }

  /** The write-back of `binder<T>`: stores the value when its kind is the
      record's kind, else reports the mismatch with the record's name. */
  function Bind(p: Parser, idx: nat, v: Value): (r: Result<Parser, ParseError>)
    requires Valid(p) && idx < |p.arena|
    ensures r.Ok? <==> KindOf(v) == p.arena[idx].kind
    ensures r.Ok? ==> Evolves(p, r.value) && r.value.supplied == p.supplied
    ensures r.Ok? ==> r.value.store == p.store[idx := v]
    ensures r.Err? ==> r.error == BindMismatch(p.arena[idx].Name(), p.arena[idx].kind, KindOf(v))
  {
    var a := p.arena[idx];
    if KindOf(v) == a.kind then Ok(p.(store := p.store[idx := v]))
    else Err(BindMismatch(a.Name(), a.kind, KindOf(v)))
  }

  /** Binding `true` to a boolean record, which cannot mismatch. */
  function BindTrue(p: Parser, idx: nat): (q: Parser)
    requires Valid(p) && idx < |p.arena| && p.arena[idx].kind == Bool
    ensures Evolves(p, q) && q.supplied == p.supplied
    ensures q.store == p.store[idx := BoolV(true)]
  {
    Bind(p, idx, BoolV(true)).value
  }

  /** `m_type_check`: the decoded value's kind must be the record's kind. */
  function TypeCheck(token: string, v: Value, a: Argument): (r: Option<ParseError>)
    ensures r.None? <==> KindOf(v) == a.kind
    ensures r.Some? ==> r.value == TypeMismatch(token, a.kind, v)
  {
    if KindOf(v) != a.kind then Some(TypeMismatch(token, a.kind, v)) else None
  }

  /** The result of handling one token: the parser afterwards, how many
      tokens were consumed, and the error if there was one. */
  datatype Step = Step(state: Parser, used: nat, err: Option<ParseError>)

  /** Type-check `v` against the record at `idx`, then bind it. */
  function CheckAndBind(p: Parser, idx: nat, token: string, v: Value, used: nat): (s: Step)
    requires Valid(p) && idx < |p.arena|
    ensures Evolves(p, s.state) && s.used == used
    ensures s.err.None? <==> KindOf(v) == p.arena[idx].kind
    ensures s.err.None? ==> s.state == p.(store := p.store[idx := v])
    ensures s.err.Some? ==> s.state == p && s.err.value == TypeMismatch(token, p.arena[idx].kind, v)
  {
    match TypeCheck(token, v, p.arena[idx])
    case Some(e) => Step(p, used, Some(e))
    case None =>
      match Bind(p, idx, v)
      case Ok(q) => Step(q, used, None)
      case Err(e) => Step(p, used, Some(e))
  }

  /** `m_parse_long_opt`: split at the first assignment character, look the
      name up, mark the record provided, decode the value text. A boolean
      whose text does not decode is `true`, bound without a type check. */
  function LongOpt(p: Parser, tok: string, dec: Decoder): (s: Step)
    requires Valid(p)
    ensures Evolves(p, s.state) && s.used == 1
    ensures var name := SplitAssign(tok, p.cfg.AssignDelim()).0;
      && (name !in p.options <==> s.err == Some(UnknownOption(name)))
      && (name !in p.options ==> s.state == p)
      && (name in p.options ==> s.state.supplied == p.supplied + {p.options[name]})
      && (name in p.options && s.err.None? ==>
            var idx := p.options[name];
            idx in s.state.store && s.state.store == p.store[idx := s.state.store[idx]])
    ensures s.err.None? || s.err.value.UnknownOption? || s.err.value.BadOptionValue? || s.err.value.TypeMismatch?
    ensures s.err.Some? ==> s.state.store == p.store
  {
    var (name, raw) := SplitAssign(tok, p.cfg.AssignDelim());
    if name !in p.options then Step(p, 1, Some(UnknownOption(name)))
    else
      var idx := p.options[name];
      var q := MarkProvided(p, idx);
      var kind := q.arena[idx].kind;
      match dec(raw, kind)
      case Err(e) =>
        if kind == Bool then Step(BindTrue(q, idx), 1, None)
        else Step(q, 1, Some(BadOptionValue(tok, e)))
      case Ok(v) => CheckAndBind(q, idx, tok, v, 1)
  }

  /** `m_parse_short_opt`: look the exact token up and mark the record
      provided. A boolean is bound to `true` and consumes nothing more;
      anything else consumes the next token, whatever it looks like, as its
      value, and is an error when there is no next token. A value that does
      not decode is reported as on the long path; see `ShortOptAsWritten`
      for what the source does instead. */
  function ShortOpt(p: Parser, tok: string, rest: seq<string>, dec: Decoder): (s: Step)
    requires Valid(p)
    ensures Evolves(p, s.state)
    ensures s.err.None? ==> s.used in {1, 2} && s.used <= 1 + |rest|
    ensures tok !in p.options <==> s.err == Some(UnknownOption(tok))
    ensures tok !in p.options ==> s.state == p
    ensures tok in p.options ==> s.state.supplied == p.supplied + {p.options[tok]}
    ensures tok in p.options && s.err.None? ==>
      var idx := p.options[tok];
      idx in s.state.store && s.state.store == p.store[idx := s.state.store[idx]]
    ensures tok in p.options && p.arena[p.options[tok]].kind == Bool ==>
      s.err.None? && s.used == 1 && s.state.store == p.store[p.options[tok] := BoolV(true)]
    ensures tok in p.options && p.arena[p.options[tok]].kind != Bool ==>
      if rest == [] then s.err == Some(MissingValue(tok)) else s.used == 2
    ensures s.err.None? || s.err.value.UnknownOption? || s.err.value.MissingValue?
            || s.err.value.BadOptionValue? || s.err.value.TypeMismatch?
    ensures s.err.Some? ==> s.state.store == p.store
  {
    if tok !in p.options then Step(p, 1, Some(UnknownOption(tok)))
    else
      var idx := p.options[tok];
      var q := MarkProvided(p, idx);
      var kind := q.arena[idx].kind;
      if kind == Bool then Step(BindTrue(q, idx), 1, None)
      else if rest == [] then Step(q, 1, Some(MissingValue(tok)))
      else
        match dec(rest[0], kind)
        case Err(e) => Step(q, 2, Some(BadOptionValue(tok, e)))
        case Ok(v) => CheckAndBind(q, idx, tok, v, 2)
  }

  /** What the source's short path can lead to: a defined step, or
      undefined behaviour. */
  datatype ShortOutcome = Defined(step: Step) | Undefined

  /** `m_parse_short_opt` as written: the decode result is dereferenced
      without a check, so a value that does not decode is undefined
      behaviour. */
  function ShortOptAsWritten(p: Parser, tok: string, rest: seq<string>, dec: Decoder): (o: ShortOutcome)
    requires Valid(p)
    ensures o.Defined? ==> o.step == ShortOpt(p, tok, rest, dec)
    ensures o.Undefined? <==> tok in p.options && p.arena[p.options[tok]].kind != Bool
                              && rest != [] && dec(rest[0], p.arena[p.options[tok]].kind).Err?
  {
    if tok in p.options && p.arena[p.options[tok]].kind != Bool && rest != []
       && dec(rest[0], p.arena[p.options[tok]].kind).Err?
    then Undefined
    else Defined(ShortOpt(p, tok, rest, dec))
  }

  /** `m_parse_positional`: the token goes to the positional at `position`,
      which is marked provided; an error when every positional is taken. */
  function PositionalArg(p: Parser, tok: string, position: nat, dec: Decoder): (s: Step)
    requires Valid(p)
    ensures Evolves(p, s.state) && s.used == 1
    ensures position >= |p.positionals| <==> s.err == Some(UnexpectedPositional(position))
    ensures s.state.supplied == if position < |p.positionals| then p.supplied + {p.positionals[position]} else p.supplied
    ensures position < |p.positionals| && s.err.None? ==>
      var idx := p.positionals[position];
      idx in s.state.store && dec(tok, p.arena[idx].kind) == Ok(s.state.store[idx])
      && s.state.store == p.store[idx := s.state.store[idx]]
    ensures s.err.None? || s.err.value.UnexpectedPositional? || s.err.value.BadPositionalValue?
            || s.err.value.TypeMismatch?
    ensures s.err.Some? ==> s.state.store == p.store
  {
    if position >= |p.positionals| then Step(p, 1, Some(UnexpectedPositional(position)))
    else
      var idx := p.positionals[position];
      var q := MarkProvided(p, idx);
      match dec(tok, q.arena[idx].kind)
      case Err(e) => Step(q, 1, Some(BadPositionalValue(e)))
      case Ok(v) => CheckAndBind(q, idx, tok, v, 1)
  }

  /** Where the walk stopped: the parser, the positional counter, and the
      first error if there was one. */
  datatype Outcome = Outcome(state: Parser, position: nat, err: Option<ParseError>)

  /** One turn of the loop of `parse`: the first of `toks` is dispatched by
      its class; a short option may also consume the token after it. */
  function StepAt(p: Parser, toks: seq<string>, position: nat, dec: Decoder): (s: Step)
    requires Valid(p) && toks != []
    ensures Evolves(p, s.state)
    ensures s.err.None? ==> 1 <= s.used <= |toks|
  {
    match Classify(p.cfg, toks[0])
    case LongToken => LongOpt(p, toks[0], dec)
    case ShortToken => ShortOpt(p, toks[0], toks[1..], dec)
    case PositionalToken => PositionalArg(p, toks[0], position, dec)
  }

  /** The positional counter after a successful turn: one more after a
      positional, unchanged after an option. */
  function Advance(cfg: Config, tok: string, position: nat): nat {
    if Classify(cfg, tok) == PositionalToken then position + 1 else position
  }

  /** The loop of `parse`, over the tokens not yet handled: the first error
      ends the walk; otherwise the walk goes on after the tokens the turn
      consumed. */
  function Walk(p: Parser, toks: seq<string>, position: nat, dec: Decoder): (o: Outcome)
    requires Valid(p)
    ensures Evolves(p, o.state)
    decreases |toks|
  {
    if toks == [] then Outcome(p, position, None)
    else
      var s := StepAt(p, toks, position, dec);
      if s.err.Some? then Outcome(s.state, position, s.err)
      else
        var o := Walk(s.state, toks[s.used..], Advance(p.cfg, toks[0], position), dec);
        EvolvesTransitive(p, s.state, o.state);
        o
  }

  /** The record at `idx` is required but was never supplied. */
  predicate Missing(p: Parser, idx: nat)
    requires idx < |p.arena|
  {
    p.arena[idx].required && idx !in p.supplied
  }

  /** The positional half of `m_check_required`, from list position `i` on:
      the display name of the first missing positional. */
  function FirstMissingPositional(p: Parser, i: nat): (r: Option<string>)
    requires Valid(p) && i <= |p.positionals|
    ensures r.None? <==> forall j :: i <= j < |p.positionals| ==> !Missing(p, p.positionals[j])
    ensures r.Some? ==> exists j :: i <= j < |p.positionals| && Missing(p, p.positionals[j])
                          && r.value == p.arena[p.positionals[j]].Name()
                          && forall k :: i <= k < j ==> !Missing(p, p.positionals[k])
    decreases |p.positionals| - i
  {
    if i == |p.positionals| then None
    else
      var idx := p.positionals[i];
      if Missing(p, idx) then Some(p.arena[idx].Name()) else FirstMissingPositional(p, i + 1)
  }

  /** The option half of `m_check_required`, visiting table names in
      `order`, which stands for the unspecified iteration order of the
      `unordered_map`: the display name of the first missing option met. */
  function FirstMissingOption(p: Parser, order: seq<string>): (r: Option<string>)
    requires Valid(p)
    ensures r.None? <==> forall j :: 0 <= j < |order| && order[j] in p.options ==> !Missing(p, p.options[order[j]])
    ensures r.Some? ==> exists n :: n in order && n in p.options && Missing(p, p.options[n])
                          && r.value == p.arena[p.options[n]].Name()
    ensures Covers(p, order) ==> (r.None? <==> forall n :: n in p.options ==> !Missing(p, p.options[n]))
  {
    if order == [] then None
    else if order[0] in p.options && Missing(p, p.options[order[0]]) then
      Some(p.arena[p.options[order[0]]].Name())
    else
      var r := FirstMissingOption(p, order[1..]);
      assert forall j :: 1 <= j < |order| ==> order[j] == order[1..][j - 1];
      r
  }

  /** `order` visits every name of the table, as iterating over the
      `unordered_map` does. */
  predicate Covers(p: Parser, order: seq<string>) {
    forall n :: n in p.options ==> n in order
  }

  /** `m_check_required`: missing positionals in declaration order first,
      then missing options. */
  function CheckRequired(p: Parser, order: seq<string>): (r: Option<ParseError>)
    requires Valid(p) && Covers(p, order)
    ensures r.None? || r.value.MissingRequiredPositional? || r.value.MissingRequiredOption?
    ensures r.None? <==> (forall j :: 0 <= j < |p.positionals| ==> !Missing(p, p.positionals[j]))
                         && (forall n :: n in p.options ==> !Missing(p, p.options[n]))
    ensures (exists j :: 0 <= j < |p.positionals| && Missing(p, p.positionals[j]))
            <==> r.Some? && r.value.MissingRequiredPositional?
    ensures r.Some? && r.value.MissingRequiredPositional? ==>
      exists j :: 0 <= j < |p.positionals| && Missing(p, p.positionals[j])
        && r.value.name == p.arena[p.positionals[j]].Name()
        && forall k :: 0 <= k < j ==> !Missing(p, p.positionals[k])
    ensures r.Some? && r.value.MissingRequiredOption? ==>
      exists n :: n in order && n in p.options && Missing(p, p.options[n])
        && r.value.name == p.arena[p.options[n]].Name()
  {
    match FirstMissingPositional(p, 0)
    case Some(n) => Some(MissingRequiredPositional(n))
    case None =>
      match FirstMissingOption(p, order)
      case Some(n) => Some(MissingRequiredOption(n))
      case None => None
  }

  /** The tokens `parse` looks at: all of `argv` but the program name. */
  function Tokens(argv: seq<string>): (t: seq<string>)
    ensures |t| == if argv == [] then 0 else |argv| - 1
    ensures forall i :: 0 <= i < |t| ==> t[i] == argv[i + 1]
  {
    if argv == [] then [] else argv[1..]
  }

  /** `parse<Vp>()`: walk every token after the program name, stop at the
      first error, and only after a complete walk check for missing required
      arguments. `order` is the name table's iteration order. */
  function Parse(p: Parser, dec: Decoder, order: seq<string>): (o: Outcome)
    requires Valid(p) && Covers(p, order)
    ensures Evolves(p, o.state)
    ensures o.state == Walk(p, Tokens(p.argv), 0, dec).state
    ensures Walk(p, Tokens(p.argv), 0, dec).err.Some? ==> o.err == Walk(p, Tokens(p.argv), 0, dec).err
    ensures o.err.None? <==>
      && Walk(p, Tokens(p.argv), 0, dec).err.None?
      && (forall j :: 0 <= j < |p.positionals| ==> !Missing(o.state, p.positionals[j]))
      && (forall n :: n in p.options ==> !Missing(o.state, p.options[n]))
    ensures Walk(p, Tokens(p.argv), 0, dec).err.None? && o.err.Some? ==>
      o.err.value.MissingRequiredPositional? || o.err.value.MissingRequiredOption?
    ensures Walk(p, Tokens(p.argv), 0, dec).err.None?
            && (forall j :: 0 <= j < |p.positionals| ==> !Missing(o.state, p.positionals[j]))
            && (exists n :: n in p.options && Missing(o.state, p.options[n])) ==>
      o.err.Some? && o.err.value.MissingRequiredOption?
    ensures Walk(p, Tokens(p.argv), 0, dec).err.None?
            && (exists j :: 0 <= j < |p.positionals| && Missing(o.state, p.positionals[j])) ==>
      o.err.Some? && o.err.value.MissingRequiredPositional?
  {
    var w := Walk(p, Tokens(p.argv), 0, dec);
    if w.err.Some? then w else Outcome(w.state, w.position, CheckRequired(w.state, order))
  }
}
