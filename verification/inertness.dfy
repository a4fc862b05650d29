/** What parsing never reads: the program name `argv[0]`, the separator
    character of `delim_policy` and the help texts of the records. Two
    parsers that differ only there parse alike. */
module Inertness {
  import opened Wrappers
  import opened Values
  import opened Policy
  import opened Arguments
  import opened Parser

  /** Two records that agree on everything but the help text. */
  predicate SameRecord(a: Argument, b: Argument) {
    a.kind == b.kind && a.names == b.names && a.required == b.required
  }

  /** Two parsers that differ at most in `argv`, in the separator character
      and in help texts. */
  predicate Alike(p: Parser, q: Parser) {
    && p.cfg.prefix == q.cfg.prefix
    && p.cfg.delim.assign == q.cfg.delim.assign
    && |p.arena| == |q.arena|
    && (forall i :: 0 <= i < |p.arena| ==> SameRecord(p.arena[i], q.arena[i]))
    && p.supplied == q.supplied
    && p.positionals == q.positionals
    && p.options == q.options
    && p.store == q.store
  }

  /** Two turns with the same consumption and error, from and to alike
      parsers. */
  predicate SameStep(s: Step, t: Step) {
    s.used == t.used && s.err == t.err && Alike(s.state, t.state)
  }

  /** Marking a record provided keeps two parsers alike. */
  lemma MarkProvidedAlike(p: Parser, q: Parser, idx: nat)
    requires Valid(p) && Valid(q) && Alike(p, q) && idx < |p.arena|
    ensures Alike(MarkProvided(p, idx), MarkProvided(q, idx))
  {
  }

  /** A type check and bind on alike parsers has alike outcomes. */
  lemma CheckAndBindAlike(p: Parser, q: Parser, idx: nat, tok: string, v: Value, used: nat)
    requires Valid(p) && Valid(q) && Alike(p, q) && idx < |p.arena|
    ensures SameStep(CheckAndBind(p, idx, tok, v, used), CheckAndBind(q, idx, tok, v, used))
  {
    assert SameRecord(p.arena[idx], q.arena[idx]);
  }

  lemma LongOptAlike(p: Parser, q: Parser, tok: string, dec: Decoder)
    requires Valid(p) && Valid(q) && Alike(p, q)
    ensures SameStep(LongOpt(p, tok, dec), LongOpt(q, tok, dec))
  {
    var name := SplitAssign(tok, p.cfg.AssignDelim()).0;
    var raw := SplitAssign(tok, p.cfg.AssignDelim()).1;
    if name in p.options {
      var idx := p.options[name];
      assert SameRecord(p.arena[idx], q.arena[idx]);
      var p1 := MarkProvided(p, idx);
      var q1 := MarkProvided(q, idx);
      MarkProvidedAlike(p, q, idx);
      if dec(raw, p.arena[idx].kind).Ok? {
        CheckAndBindAlike(p1, q1, idx, tok, dec(raw, p.arena[idx].kind).value, 1);
      }
    }
  }

  lemma ShortOptAlike(p: Parser, q: Parser, tok: string, rest: seq<string>, dec: Decoder)
    requires Valid(p) && Valid(q) && Alike(p, q)
    ensures SameStep(ShortOpt(p, tok, rest, dec), ShortOpt(q, tok, rest, dec))
  {
    if tok in p.options {
      var idx := p.options[tok];
      assert SameRecord(p.arena[idx], q.arena[idx]);
      var p1 := MarkProvided(p, idx);
      var q1 := MarkProvided(q, idx);
      MarkProvidedAlike(p, q, idx);
      if p.arena[idx].kind != Bool && rest != [] && dec(rest[0], p.arena[idx].kind).Ok? {
        CheckAndBindAlike(p1, q1, idx, tok, dec(rest[0], p.arena[idx].kind).value, 2);
      }
    }
  }

  lemma PositionalArgAlike(p: Parser, q: Parser, tok: string, position: nat, dec: Decoder)
    requires Valid(p) && Valid(q) && Alike(p, q)
    ensures SameStep(PositionalArg(p, tok, position, dec), PositionalArg(q, tok, position, dec))
  {
    if position < |p.positionals| {
      var idx := p.positionals[position];
      assert SameRecord(p.arena[idx], q.arena[idx]);
      var p1 := MarkProvided(p, idx);
      var q1 := MarkProvided(q, idx);
      MarkProvidedAlike(p, q, idx);
      if dec(tok, p.arena[idx].kind).Ok? {
        CheckAndBindAlike(p1, q1, idx, tok, dec(tok, p.arena[idx].kind).value, 1);
      }
    }
  }

  lemma StepAtAlike(p: Parser, q: Parser, toks: seq<string>, position: nat, dec: Decoder)
    requires Valid(p) && Valid(q) && Alike(p, q) && toks != []
    ensures SameStep(StepAt(p, toks, position, dec), StepAt(q, toks, position, dec))
  {
    assert p.cfg.LongPrefix() == q.cfg.LongPrefix() && p.cfg.ShortPrefix() == q.cfg.ShortPrefix();
    match Classify(p.cfg, toks[0])
    case LongToken => LongOptAlike(p, q, toks[0], dec);
    case ShortToken => ShortOptAlike(p, q, toks[0], toks[1..], dec);
    case PositionalToken => PositionalArgAlike(p, q, toks[0], position, dec);
  }

  /** Alike parsers walk the same tokens alike: the same error, the same
      counter, and alike parsers at the end. */
  lemma {:induction false} WalkAlike(p: Parser, q: Parser, toks: seq<string>, position: nat, dec: Decoder)
    requires Valid(p) && Valid(q) && Alike(p, q)
    ensures var o1 := Walk(p, toks, position, dec);
      var o2 := Walk(q, toks, position, dec);
      o1.err == o2.err && o1.position == o2.position && Alike(o1.state, o2.state)
    decreases |toks|
  {
    if toks != [] {
      var s := StepAt(p, toks, position, dec);
      var t := StepAt(q, toks, position, dec);
      StepAtAlike(p, q, toks, position, dec);
      if s.err.None? {
        assert Advance(p.cfg, toks[0], position) == Advance(q.cfg, toks[0], position) by {
          assert p.cfg.LongPrefix() == q.cfg.LongPrefix() && p.cfg.ShortPrefix() == q.cfg.ShortPrefix();
        }
        WalkAlike(s.state, t.state, toks[s.used..], Advance(p.cfg, toks[0], position), dec);
      }
    }
  }

  lemma {:induction false} FirstMissingPositionalAlike(p: Parser, q: Parser, i: nat)
    requires Valid(p) && Valid(q) && Alike(p, q) && i <= |p.positionals|
    ensures FirstMissingPositional(p, i) == FirstMissingPositional(q, i)
    decreases |p.positionals| - i
  {
    if i < |p.positionals| {
      var idx := p.positionals[i];
      assert SameRecord(p.arena[idx], q.arena[idx]);
      FirstMissingPositionalAlike(p, q, i + 1);
    }
  }

  lemma {:induction false} FirstMissingOptionAlike(p: Parser, q: Parser, order: seq<string>)
    requires Valid(p) && Valid(q) && Alike(p, q)
    ensures FirstMissingOption(p, order) == FirstMissingOption(q, order)
    decreases |order|
  {
    if order != [] {
      if order[0] in p.options {
        assert SameRecord(p.arena[p.options[order[0]]], q.arena[q.options[order[0]]]);
      }
      FirstMissingOptionAlike(p, q, order[1..]);
    }
  }

  /** Alike parsers parse alike when they hold the same tokens after the
      program name. */
  lemma ParseAlike(p: Parser, q: Parser, dec: Decoder, order: seq<string>)
    requires Valid(p) && Valid(q) && Alike(p, q) && Tokens(p.argv) == Tokens(q.argv)
    requires Covers(p, order)
    ensures var o1 := Parse(p, dec, order);
      var o2 := Parse(q, dec, order);
      o1.err == o2.err && Alike(o1.state, o2.state)
  {
    var w1 := Walk(p, Tokens(p.argv), 0, dec);
    var w2 := Walk(q, Tokens(q.argv), 0, dec);
    WalkAlike(p, q, Tokens(p.argv), 0, dec);
    FirstMissingPositionalAlike(w1.state, w2.state, 0);
    FirstMissingOptionAlike(w1.state, w2.state, order);
  }

  /** `argv[0]` is never examined: replacing the program name changes no
      error, no bound value and no `provided` flag. */
  lemma ProgramNameIgnored(p: Parser, name: string, dec: Decoder, order: seq<string>)
    requires Valid(p) && p.argv != []
    requires Covers(p, order)
    ensures var q := p.(argv := [name] + p.argv[1..]);
      && Valid(q)
      && Parse(q, dec, order).err == Parse(p, dec, order).err
      && Parse(q, dec, order).state.store == Parse(p, dec, order).state.store
      && Parse(q, dec, order).state.supplied == Parse(p, dec, order).state.supplied
  {
    var q := p.(argv := [name] + p.argv[1..]);
    assert Tokens(q.argv) == Tokens(p.argv);
    ParseAlike(p, q, dec, order);
  }

  /** The separator character is carried but never read: any separator
      other than the assignment character parses alike. */
  lemma SeparatorIgnored(p: Parser, sep: char, dec: Decoder, order: seq<string>)
    requires Valid(p) && sep != p.cfg.delim.assign
    requires Covers(p, order)
    ensures var q := p.(cfg := p.cfg.(delim := p.cfg.delim.(separator := sep)));
      && Valid(q)
      && Parse(q, dec, order).err == Parse(p, dec, order).err
      && Parse(q, dec, order).state.store == Parse(p, dec, order).state.store
      && Parse(q, dec, order).state.supplied == Parse(p, dec, order).state.supplied
  {
    var q := p.(cfg := p.cfg.(delim := p.cfg.delim.(separator := sep)));
    ParseAlike(p, q, dec, order);
  }

  /** The help text is never read by the parser: setting it changes no
      error, no bound value and no `provided` flag. */
  lemma HelpIgnored(p: Parser, idx: nat, h: string, dec: Decoder, order: seq<string>)
    requires Valid(p) && idx < |p.arena|
    requires Covers(p, order)
    ensures var q := SetHelp(p, idx, h);
      && Parse(q, dec, order).err == Parse(p, dec, order).err
      && Parse(q, dec, order).state.store == Parse(p, dec, order).state.store
      && Parse(q, dec, order).state.supplied == Parse(p, dec, order).state.supplied
  {
    var q := SetHelp(p, idx, h);
    ParseAlike(p, q, dec, order);
  }
}
