/** Concrete command lines from the library's own test program, worked out
    on the model with the default policies and the default value parser. */
module Scenarios {
  import opened Wrappers
  import opened CharConv
  import opened Values
  import opened Policy
  import opened Arguments
  import opened Parser
  import opened Dispatch

  /** The parser of the tests, as far as the walk sees it: a positional
      `input` of kind `Path` at arena index 0, required when
      `inputRequired`, and an option `--output`/`-o` of kind `Path` at index
      1, required when `outputRequired`, nothing supplied or bound yet, and
      the default policies. */
  predicate InOutShape(p: Parser, inputRequired: bool, outputRequired: bool) {
    && Valid(p)
    && |p.arena| == 2 && p.positionals == [0] && p.store == map[] && p.supplied == {}
    && p.options == map["--output" := 1, "-o" := 1]
    && p.arena[0].kind == Path && p.arena[1].kind == Path
    && p.arena[0].names == ["input"] && p.arena[1].names == ["--output", "-o"]
    && p.arena[0].required == inputRequired && p.arena[1].required == outputRequired
    && p.cfg == DefaultConfig
  }

  /** The registration calls of the tests build a parser of that shape. */
  function InOut(argv: seq<string>, inputRequired: bool, outputRequired: bool): (p: Parser)
    ensures InOutShape(p, inputRequired, outputRequired) && p.argv == argv
  {
    DefaultConfigValid();
    var p0 := New(DefaultConfig, argv);
    var (p1, i) := AddPositional(p0, "input", Path);
    var p2 := if inputRequired then SetRequired(p1, i) else p1;
    var names := OptionNames("--output", "-o");
    assert StartsWith("--output", "--") && StartsWith("-o", "-");
    var (p3, o) := AddOption(p2, names, Path);
    assert OptionNameList(names) == ["--output", "-o"];
    var p4 := if outputRequired then SetRequired(p3, o) else p3;
    assert p4.options == map["--output" := 1, "-o" := 1];
    p4
  }

  /** The parser of `missing_required_positional`: only a required
      positional `input` of kind `Path`, no options, nothing supplied or
      bound yet, and the default policies. */
  predicate InputOnlyShape(p: Parser) {
    && Valid(p)
    && |p.arena| == 1 && p.positionals == [0] && p.store == map[] && p.supplied == {}
    && p.options == map[]
    && p.arena[0].kind == Path && p.arena[0].names == ["input"] && p.arena[0].required
    && p.cfg == DefaultConfig
  }

  /** `parser.positional("input", in).required()` on a new parser. */
  function InputOnly(argv: seq<string>): (p: Parser)
    ensures InputOnlyShape(p) && p.argv == argv
  {
    DefaultConfigValid();
    var p0 := New(DefaultConfig, argv);
    var (p1, i) := AddPositional(p0, "input", Path);
    SetRequired(p1, i)
  }

  /** `InOutShape` with the input required, the output required when
      `outputRequired`, and a boolean option `--do-thing`/`-do` at arena
      index 2. */
  predicate WithFlagShape(p: Parser, outputRequired: bool) {
    && Valid(p)
    && |p.arena| == 3 && p.positionals == [0] && p.store == map[] && p.supplied == {}
    && p.options == map["--output" := 1, "-o" := 1, "--do-thing" := 2, "-do" := 2]
    && p.arena[0].kind == Path && p.arena[1].kind == Path && p.arena[2].kind == Bool
    && p.arena[0].required && p.arena[1].required == outputRequired && !p.arena[2].required
    && p.arena[0].names == ["input"] && p.arena[1].names == ["--output", "-o"]
    && p.arena[2].names == ["--do-thing", "-do"]
    && p.cfg == DefaultConfig
  }

  /** The registration calls of the flag tests build a parser of that
      shape. */
  function WithFlag(argv: seq<string>, outputRequired: bool): (p: Parser)
    ensures WithFlagShape(p, outputRequired) && p.argv == argv
  {
    AddFlag(InOut(argv, true, outputRequired), outputRequired)
  }

  /** Registering the boolean option `--do-thing`/`-do` on the parser of
      the tests. */
  function AddFlag(p0: Parser, outputRequired: bool): (p: Parser)
    requires InOutShape(p0, true, outputRequired)
    ensures WithFlagShape(p, outputRequired) && p.argv == p0.argv
  {
    var names := OptionNames("--do-thing", "-do");
    assert WellNamed(p0.cfg, names) by {
      DefaultConfigValid();
      assert StartsWith("--do-thing", "--") && StartsWith("-do", "-");
    }
    var (p1, f) := AddOption(p0, names, Bool);
    assert p1.options == map["--output" := 1, "-o" := 1, "--do-thing" := 2, "-do" := 2] by {
      assert OptionNameList(names) == ["--do-thing", "-do"];
    }
    p1
  }

  /** With the default policies a token is long when it starts with `--`,
      short when it starts with `-` only, and positional otherwise. */
  lemma ClassifyDefault(tok: string)
    ensures Classify(DefaultConfig, tok)
            == if StartsWith(tok, "--") then LongToken
               else if StartsWith(tok, "-") then ShortToken
               else PositionalToken
  {
    DefaultConfigValid();
  }

  /** A token that does not start with `-` is positional under the default
      policies. */
  lemma PlainIsPositional(tok: string)
    requires tok != [] && tok[0] != '-'
    ensures Classify(DefaultConfig, tok) == PositionalToken
  {
    ClassifyDefault(tok);
    assert tok[..1] != "-";
  }

  /** The record at `idx` supplied and bound to `v`. */
  function Bound(p: Parser, idx: nat, v: Value): Parser {
    p.(supplied := p.supplied + {idx}, store := p.store[idx := v])
  }

  /** The default value parser takes any text as a path. */
  lemma DecodesPath(s: string, fc: FloatCodec)
    ensures DefaultDecoder(fc)(s, Path) == Ok(PathV(s))
  {
  }

  /** A positional turn whose token decodes to the positional's kind: the
      record is supplied and bound, and the walk goes on after the token. */
  lemma PositionalTurnOk(p: Parser, tok: string, rest: seq<string>, q: nat, dec: Decoder, v: Value)
    requires Valid(p) && Classify(p.cfg, tok) == PositionalToken
    requires q < |p.positionals|
    requires dec(tok, p.arena[p.positionals[q]].kind) == Ok(v) && KindOf(v) == p.arena[p.positionals[q]].kind
    ensures Valid(Bound(p, p.positionals[q], v))
    ensures Walk(p, [tok] + rest, q, dec) == Walk(Bound(p, p.positionals[q], v), rest, q + 1, dec)
  {
    var idx := p.positionals[q];
    var p1 := MarkProvided(p, idx);
    var st := PositionalArg(p, tok, q, dec);
    assert st == CheckAndBind(p1, idx, tok, v, 1);
    assert st.state == Bound(p, idx, v) && st.used == 1 && st.err.None?;
    var toks := [tok] + rest;
    assert toks[0] == tok && toks[1..] == rest;
    assert StepAt(p, toks, q, dec) == st;
    assert Walk(p, toks, q, dec) == Walk(st.state, toks[1..], Advance(p.cfg, tok, q), dec);
  }

  /** A short turn whose option takes the next token as a value of its
      kind: the record is supplied and bound, and the walk goes on after the
      value with the counter unchanged. */
  lemma ShortTurnOk(p: Parser, tok: string, arg: string, rest: seq<string>, q: nat, dec: Decoder, v: Value)
    requires Valid(p) && Classify(p.cfg, tok) == ShortToken
    requires tok in p.options && p.arena[p.options[tok]].kind != Bool
    requires dec(arg, p.arena[p.options[tok]].kind) == Ok(v) && KindOf(v) == p.arena[p.options[tok]].kind
    ensures Valid(Bound(p, p.options[tok], v))
    ensures Walk(p, [tok, arg] + rest, q, dec) == Walk(Bound(p, p.options[tok], v), rest, q, dec)
  {
    var st := ShortOpt(p, tok, [arg] + rest, dec);
    assert ([arg] + rest)[0] == arg;
    assert st.state == Bound(p, p.options[tok], v) && st.used == 2 && st.err.None?;
    var toks := [tok, arg] + rest;
    assert toks[0] == tok && toks[1..] == [arg] + rest && toks[2..] == rest;
    assert ([arg] + rest)[0] == arg;
  }

  /** A short option that takes a value, as the last token: the walk stops
      with a missing value. */
  lemma ShortTurnMissing(p: Parser, tok: string, q: nat, dec: Decoder)
    requires Valid(p) && Classify(p.cfg, tok) == ShortToken
    requires tok in p.options && p.arena[p.options[tok]].kind != Bool
    ensures Walk(p, [tok], q, dec).err == Some(MissingValue(tok))
  {
    assert [tok][1..] == [];
  }

  /** A long turn that succeeds consumes its token only and leaves the
      counter alone. */
  lemma LongTurnOk(p: Parser, tok: string, rest: seq<string>, q: nat, dec: Decoder)
    requires Valid(p) && Classify(p.cfg, tok) == LongToken && LongOpt(p, tok, dec).err.None?
    ensures Walk(p, [tok] + rest, q, dec) == Walk(LongOpt(p, tok, dec).state, rest, q, dec)
  {
    assert ([tok] + rest)[0] == tok && ([tok] + rest)[1..] == rest;
  }

  /** A bare boolean long flag under the default value parser: the record
      is supplied and bound to `true`. */
  lemma LongFlagTurn(p: Parser, tok: string, rest: seq<string>, q: nat, fc: FloatCodec)
    requires Valid(p) && Classify(p.cfg, tok) == LongToken
    requires p.cfg.AssignDelim() !in tok
    requires tok in p.options && p.arena[p.options[tok]].kind == Bool
    ensures Valid(Bound(p, p.options[tok], BoolV(true)))
    ensures Walk(p, [tok] + rest, q, DefaultDecoder(fc))
            == Walk(Bound(p, p.options[tok], BoolV(true)), rest, q, DefaultDecoder(fc))
  {
    assert SplitAssign(tok, p.cfg.AssignDelim()) == (tok, "");
    LongBoolFlag(p, tok, fc);
    assert "" !in {"false", "off", "no"};
    LongTurnOk(p, tok, rest, q, DefaultDecoder(fc));
  }

  /** Once every required record is supplied, the check finds nothing
      missing. */
  lemma NothingMissing(r: Parser, order: seq<string>)
    requires Valid(r)
    requires Covers(r, order)
    requires forall i :: 0 <= i < |r.arena| && r.arena[i].required ==> i in r.supplied
    ensures CheckRequired(r, order) == None
  {
  }

  /** `NothingMissing` for a parser of two records. The quantified
      precondition becomes one fact per record, which the scenario lemmas
      establish directly from the bindings they build. */
  lemma NothingMissingOfTwo(r: Parser, order: seq<string>)
    requires Valid(r) && |r.arena| == 2
    requires Covers(r, order)
    requires r.arena[0].required ==> 0 in r.supplied
    requires r.arena[1].required ==> 1 in r.supplied
    ensures CheckRequired(r, order) == None
  {
    NothingMissing(r, order);
  }

  /** `NothingMissing` for a parser of three records, for the same
      reason. */
  lemma NothingMissingOfThree(r: Parser, order: seq<string>)
    requires Valid(r) && |r.arena| == 3
    requires Covers(r, order)
    requires r.arena[0].required ==> 0 in r.supplied
    requires r.arena[1].required ==> 1 in r.supplied
    requires r.arena[2].required ==> 2 in r.supplied
    ensures CheckRequired(r, order) == None
  {
    NothingMissing(r, order);
  }

  /** With the positional supplied and a required `--output`/`-o` not,
      the check reports `--output` in every iteration order. */
  lemma OutputMissing(r: Parser, order: seq<string>)
    requires Valid(r) && |r.arena| == 2 && r.positionals == [0]
    requires Covers(r, order)
    requires r.options == map["--output" := 1, "-o" := 1]
    requires 0 in r.supplied && 1 !in r.supplied
    requires r.arena[1].required && r.arena[1].names == ["--output", "-o"]
    ensures CheckRequired(r, order) == Some(MissingRequiredOption("--output"))
  {
    assert !Missing(r, 0) && Missing(r, 1);
    assert "--output" in r.options;
    assert FirstMissingOption(r, order).Some?;
  }

  /** The walk of a positional token, then a short option `o` that takes a
      path, then its value, over a parser whose first positional takes a
      path: both records are supplied and bound, and the walk goes on with
      the counter at one. */
  lemma InputOutputWalk(p: Parser, a: string, o: string, b: string, rest: seq<string>, dec: Decoder, va: Value, vb: Value)
    requires Valid(p) && |p.arena| >= 2 && p.positionals == [0] && p.arena[0].kind == Path
    requires Classify(p.cfg, a) == PositionalToken && Classify(p.cfg, o) == ShortToken
    requires o in p.options && p.options[o] == 1 && p.arena[1].kind == Path
    requires dec(a, Path) == Ok(va) && KindOf(va) == Path
    requires dec(b, Path) == Ok(vb) && KindOf(vb) == Path
    ensures Valid(Bound(Bound(p, 0, va), 1, vb))
    ensures Walk(p, [a] + ([o, b] + rest), 0, dec) == Walk(Bound(Bound(p, 0, va), 1, vb), rest, 1, dec)
  {
    PositionalTurnOk(p, a, [o, b] + rest, 0, dec, va);
    ShortTurnOk(Bound(p, 0, va), o, b, rest, 1, dec, vb);
  }

  /** The same parser given a positional token and then the short option
      alone: the walk stops with a missing value. */
  lemma InputMissingWalk(p: Parser, a: string, o: string, dec: Decoder, va: Value)
    requires Valid(p) && |p.arena| >= 2 && p.positionals == [0] && p.arena[0].kind == Path
    requires Classify(p.cfg, a) == PositionalToken && Classify(p.cfg, o) == ShortToken
    requires o in p.options && p.options[o] == 1 && p.arena[1].kind == Path
    requires dec(a, Path) == Ok(va) && KindOf(va) == Path
    ensures Walk(p, [a] + [o], 0, dec).err == Some(MissingValue(o))
  {
    PositionalTurnOk(p, a, [o], 0, dec, va);
    ShortTurnMissing(Bound(p, 0, va), o, 1, dec);
  }

  /** Without tokens, a required positional is reported missing. */
  lemma RequiredPositionalAbsent(p: Parser, dec: Decoder, order: seq<string>)
    requires InputOnlyShape(p) && Tokens(p.argv) == []
    requires Covers(p, order)
    ensures Parse(p, dec, order).err == Some(MissingRequiredPositional("input"))
  {
    assert Missing(p, 0);
  }

  /** `missing_required_positional`: only the program name. */
  lemma MissingRequiredPositionalTest(p: Parser, dec: Decoder, order: seq<string>)
    requires InputOnlyShape(p) && p.argv == ["prog"]
    requires Covers(p, order)
    ensures Parse(p, dec, order).err == Some(MissingRequiredPositional("input"))
  {
    RequiredPositionalAbsent(p, dec, order);
  }

  /** A positional token alone: the positional is bound and a required
      option is reported missing under its display name, whatever the
      table's iteration order. */
  lemma RequiredOptionAbsent(p: Parser, a: string, dec: Decoder, order: seq<string>, va: Value)
    requires InOutShape(p, true, true) && Tokens(p.argv) == [a]
    requires Covers(p, order)
    requires Classify(p.cfg, a) == PositionalToken
    requires dec(a, Path) == Ok(va) && KindOf(va) == Path
    ensures Parse(p, dec, order).err == Some(MissingRequiredOption("--output"))
  {
    assert [a] == [a] + [];
    PositionalTurnOk(p, a, [], 0, dec, va);
    OutputMissing(Bound(p, 0, va), order);
  }

  /** `missing_required_option`: `input` with `--output` required. */
  lemma MissingRequiredOptionTest(p: Parser, fc: FloatCodec, order: seq<string>)
    requires InOutShape(p, true, true) && p.argv == ["prog", "input"]
    requires Covers(p, order)
    ensures Parse(p, DefaultDecoder(fc), order).err == Some(MissingRequiredOption("--output"))
  {
    var a := p.argv[1];
    assert Tokens(p.argv) == [a];
    PlainIsPositional(a);
    DecodesPath(a, fc);
    RequiredOptionAbsent(p, a, DefaultDecoder(fc), order, PathV(a));
  }

  /** A long token whose name is not in the table is an error naming it. */
  lemma UnknownLongOption(p: Parser, n: string, dec: Decoder, order: seq<string>)
    requires InOutShape(p, false, false) && Tokens(p.argv) == [n]
    requires Covers(p, order)
    requires Classify(p.cfg, n) == LongToken && p.cfg.AssignDelim() !in n && n !in p.options
    ensures Parse(p, dec, order).err == Some(UnknownOption(n))
  {
    assert SplitAssign(n, p.cfg.AssignDelim()) == (n, "");
  }

  /** `unknown_option`: `--nope` is not registered. */
  lemma UnknownOptionTest(p: Parser, dec: Decoder, order: seq<string>)
    requires InOutShape(p, false, false) && p.argv == ["prog", "--nope"]
    requires Covers(p, order)
    ensures Parse(p, dec, order).err == Some(UnknownOption("--nope"))
  {
    var n := p.argv[1];
    assert Tokens(p.argv) == [n];
    ClassifyDefault(n);
    assert '=' !in n;
    UnknownLongOption(p, n, dec, order);
  }

  /** A positional token, `-o` and a path against the test parser: the
      positional token is bound to `input`, the path to the option, and
      both requirements are met. */
  lemma InputThenOutput(p: Parser, a: string, o: string, b: string, dec: Decoder, order: seq<string>, va: Value, vb: Value)
    requires InOutShape(p, true, true) && Tokens(p.argv) == [a, o, b]
    requires Covers(p, order)
    requires Classify(p.cfg, a) == PositionalToken && Classify(p.cfg, o) == ShortToken && o in p.options && p.options[o] == 1
    requires dec(a, Path) == Ok(va) && KindOf(va) == Path
    requires dec(b, Path) == Ok(vb) && KindOf(vb) == Path
    ensures var r := Parse(p, dec, order);
      r.err.None? && r.state.store == map[0 := va, 1 := vb]
  {
    assert Tokens(p.argv) == [a] + ([o, b] + []);
    var q := Bound(Bound(p, 0, va), 1, vb);
    InputOutputWalk(p, a, o, b, [], dec, va, vb);
    var w := Walk(p, Tokens(p.argv), 0, dec);
    assert w.err.None? && w.state == q;
    NothingMissingOfTwo(q, order);
    assert Parse(p, dec, order).state.store == q.store;
  }

  /** `path_option_parses`: `in.txt -o res/out.txt` binds both paths and
      meets both requirements. */
  lemma PathOptionParses(p: Parser, fc: FloatCodec, order: seq<string>)
    requires InOutShape(p, true, true) && p.argv == ["prog", "in.txt", "-o", "res/out.txt"]
    requires Covers(p, order)
    ensures var r := Parse(p, DefaultDecoder(fc), order);
      r.err.None? && r.state.store == map[0 := PathV("in.txt"), 1 := PathV("res/out.txt")]
  {
    var a, o, b := p.argv[1], p.argv[2], p.argv[3];
    assert Tokens(p.argv) == [a, o, b];
    PlainIsPositional(a);
    ClassifyDefault(o);
    DecodesPath(a, fc);
    DecodesPath(b, fc);
    InputThenOutput(p, a, o, b, DefaultDecoder(fc), order, PathV(a), PathV(b));
  }

  /** A positional token then `-o` as the last token: a missing value. */
  lemma MissingValueAtEnd(p: Parser, a: string, o: string, dec: Decoder, order: seq<string>, va: Value)
    requires InOutShape(p, true, true) && Tokens(p.argv) == [a, o]
    requires Covers(p, order)
    requires Classify(p.cfg, a) == PositionalToken && Classify(p.cfg, o) == ShortToken && o in p.options && p.options[o] == 1
    requires dec(a, Path) == Ok(va) && KindOf(va) == Path
    ensures Parse(p, dec, order).err == Some(MissingValue(o))
  {
    assert Tokens(p.argv) == [a] + [o];
    InputMissingWalk(p, a, o, dec, va);
    assert Walk(p, Tokens(p.argv), 0, dec).err == Some(MissingValue(o));
  }

  /** `error_propagates_from_value_parser`: `in -o`. */
  lemma MissingValueTest(p: Parser, fc: FloatCodec, order: seq<string>)
    requires InOutShape(p, true, true) && p.argv == ["prog", "in", "-o"]
    requires Covers(p, order)
    ensures Parse(p, DefaultDecoder(fc), order).err == Some(MissingValue("-o"))
  {
    var a, o := p.argv[1], p.argv[2];
    assert Tokens(p.argv) == [a, o];
    PlainIsPositional(a);
    ClassifyDefault(o);
    DecodesPath(a, fc);
    MissingValueAtEnd(p, a, o, DefaultDecoder(fc), order, PathV(a));
  }

  /** A token after a short option that takes a value is that value even
      when it looks like an option: it is bound as the output path instead
      of being dispatched. */
  lemma OptionLikeValue(p: Parser, o: string, b: string, fc: FloatCodec, order: seq<string>)
    requires InOutShape(p, false, false) && Tokens(p.argv) == [o, b]
    requires Covers(p, order)
    requires Classify(p.cfg, o) == ShortToken && o in p.options && p.options[o] == 1
    ensures var r := Parse(p, DefaultDecoder(fc), order);
      r.err.None? && r.state.store == map[1 := PathV(b)]
  {
    assert Tokens(p.argv) == [o, b] + [];
    DecodesPath(b, fc);
    ShortTurnOk(p, o, b, [], 0, DefaultDecoder(fc), PathV(b));
    NothingMissingOfTwo(Bound(p, 1, PathV(b)), order);
  }

  /** `-o --nope` against the test parser with nothing required: `--nope`
      becomes the output path rather than an unknown option. */
  lemma ShortSwallowsOptionLikeValue(p: Parser, fc: FloatCodec, order: seq<string>)
    requires InOutShape(p, false, false) && p.argv == ["prog", "-o", "--nope"]
    requires Covers(p, order)
    ensures var r := Parse(p, DefaultDecoder(fc), order);
      r.err.None? && r.state.store == map[1 := PathV("--nope")]
  {
    var o, b := p.argv[1], p.argv[2];
    assert Tokens(p.argv) == [o, b];
    assert o == "-o" && o in p.options;
    assert Classify(p.cfg, o) == ShortToken by {
      ClassifyDefault(o);
      assert o[..2][1] == 'o' != "--"[1];
      assert o[..1] == "-";
    }
    OptionLikeValue(p, o, b, fc, order);
  }

  /** A boolean long flag, a positional token, `-o` and a path against the
      flag parser: the flag is set, the positional and the option are
      bound, and the required input is met. */
  lemma FlagInputOutput(p: Parser, outputRequired: bool, f: string, a: string, o: string, b: string, fc: FloatCodec, order: seq<string>, va: Value, vb: Value)
    requires WithFlagShape(p, outputRequired) && Tokens(p.argv) == [f, a, o, b]
    requires Covers(p, order)
    requires Classify(p.cfg, f) == LongToken && p.cfg.AssignDelim() !in f && f in p.options && p.options[f] == 2
    requires Classify(p.cfg, a) == PositionalToken && Classify(p.cfg, o) == ShortToken && o in p.options && p.options[o] == 1
    requires DefaultDecoder(fc)(a, Path) == Ok(va) && KindOf(va) == Path
    requires DefaultDecoder(fc)(b, Path) == Ok(vb) && KindOf(vb) == Path
    ensures var r := Parse(p, DefaultDecoder(fc), order);
      r.err.None? && r.state.store == map[2 := BoolV(true), 0 := va, 1 := vb]
  {
    assert Tokens(p.argv) == [f] + ([a] + ([o, b] + []));
    LongFlagTurn(p, f, [a] + ([o, b] + []), 0, fc);
    var p1 := Bound(p, 2, BoolV(true));
    InputOutputWalk(p1, a, o, b, [], DefaultDecoder(fc), va, vb);
    NothingMissingOfThree(Bound(Bound(p1, 0, va), 1, vb), order);
  }

  /** `bool_flag_sets_true`: `--do-thing file -o out`. */
  lemma BoolFlagSetsTrue(p: Parser, fc: FloatCodec, order: seq<string>)
    requires WithFlagShape(p, false) && p.argv == ["prog", "--do-thing", "file", "-o", "out"]
    requires Covers(p, order)
    ensures var r := Parse(p, DefaultDecoder(fc), order);
      r.err.None? && r.state.store == map[2 := BoolV(true), 0 := PathV("file"), 1 := PathV("out")]
  {
    FlagScenario(p, false, p.argv[2], p.argv[4], fc, order);
  }

  /** `full_happy_path`: `--do-thing src/in -o dst/out`. */
  lemma FullHappyPath(p: Parser, fc: FloatCodec, order: seq<string>)
    requires WithFlagShape(p, true) && p.argv == ["prog", "--do-thing", "src/in", "-o", "dst/out"]
    requires Covers(p, order)
    ensures var r := Parse(p, DefaultDecoder(fc), order);
      r.err.None? && r.state.store == map[2 := BoolV(true), 0 := PathV("src/in"), 1 := PathV("dst/out")]
  {
    FlagScenario(p, true, p.argv[2], p.argv[4], fc, order);
  }

  /** How the default configuration reads `--do-thing` and `-o`. */
  lemma FlagTokens()
    ensures Classify(DefaultConfig, "--do-thing") == LongToken && DefaultConfig.AssignDelim() !in "--do-thing"
    ensures Classify(DefaultConfig, "-o") == ShortToken
  {
    DefaultConfigValid();
    ClassifyDefault("--do-thing");
    ClassifyDefault("-o");
  }

  /** `--do-thing`, a plain token, `-o` and a path against the flag
      parser. */
  lemma FlagScenario(p: Parser, outputRequired: bool, a: string, b: string, fc: FloatCodec, order: seq<string>)
    requires WithFlagShape(p, outputRequired) && p.argv == ["prog", "--do-thing", a, "-o", b]
    requires Covers(p, order)
    requires a != [] && a[0] != '-'
    ensures var r := Parse(p, DefaultDecoder(fc), order);
      r.err.None? && r.state.store == map[2 := BoolV(true), 0 := PathV(a), 1 := PathV(b)]
  {
    var f, o := p.argv[1], p.argv[3];
    assert Tokens(p.argv) == [f, a, o, b];
    assert f in p.options && p.options[f] == 2 && o in p.options && p.options[o] == 1;
    assert f == "--do-thing" && o == "-o";
    FlagTokens();
    assert Classify(p.cfg, a) == PositionalToken by {
      PlainIsPositional(a);
    }
    DecodesPath(a, fc);
    DecodesPath(b, fc);
    FlagInputOutput(p, outputRequired, f, a, o, b, fc, order, PathV(a), PathV(b));
  }

  /** A parser with one short option `-n` of kind `Int64`. */
  function IntOption(argv: seq<string>): (p: Parser)
    ensures Valid(p) && |p.arena| == 1 && p.options == map["-n" := 0] && p.arena[0].kind == Int64
    ensures p.cfg == DefaultConfig && p.argv == argv && p.store == map[]
  {
    DefaultConfigValid();
    var names := OptionNames("", "-n");
    assert StartsWith("-n", "-");
    assert OptionNameList(names) == ["-n"];
    AddOption(New(DefaultConfig, argv), names, Int64).0
  }

  /** The short path as written reaches undefined behaviour on `-n abc`,
      where the corrected path reports the bad number as the long path
      would. */
  lemma ShortDecodeFailure(fc: FloatCodec)
    ensures var p := IntOption(["prog", "-n", "abc"]);
      && ShortOptAsWritten(p, "-n", ["abc"], DefaultDecoder(fc)) == Undefined
      && ShortOpt(p, "-n", ["abc"], DefaultDecoder(fc)).err == Some(BadOptionValue("-n", BadNumber(Int64)))
  {
    var dec := DefaultDecoder(fc);
    assert dec("abc", Int64) == Decode("abc", Int64, fc);
    assert FromChars("abc", true).Invalid?;
    assert ParseInt64("abc") == Err(BadNumber(Int64));
  }
}
