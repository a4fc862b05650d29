/** How one option token is handled, stated for the callers of the parser:
    what a long token binds, what a short token consumes, and what becomes
    of the token after a short option that takes a value. */
module Dispatch {
  import opened Wrappers
  import opened Values
  import opened Policy
  import opened Parser

  /** A registered long option that is not boolean decodes exactly the text
      after the first assignment character (empty when there is none), binds
      the decoded value, and never consumes the token after it. */
  lemma LongValueText(p: Parser, tok: string, dec: Decoder)
    requires Valid(p)
    requires var name := SplitAssign(tok, p.cfg.AssignDelim()).0;
      name in p.options && p.arena[p.options[name]].kind != Bool
    ensures var (name, raw) := SplitAssign(tok, p.cfg.AssignDelim());
      var idx := p.options[name];
      var s := LongOpt(p, tok, dec);
      && s.used == 1
      && s.state.supplied == p.supplied + {idx}
      && (dec(raw, p.arena[idx].kind).Err? ==>
            s.err == Some(BadOptionValue(tok, dec(raw, p.arena[idx].kind).error)) && s.state.store == p.store)
      && (dec(raw, p.arena[idx].kind).Ok? && KindOf(dec(raw, p.arena[idx].kind).value) == p.arena[idx].kind ==>
            s.err.None? && s.state.store == p.store[idx := dec(raw, p.arena[idx].kind).value])
  {
  }

  /** With the default value parser a registered boolean long option always
      succeeds: it binds `false` exactly when its value text is `false`,
      `off` or `no`, and `true` otherwise, the bare `--flag` and text that
      does not decode included. */
  lemma LongBoolFlag(p: Parser, tok: string, fc: FloatCodec)
    requires Valid(p)
    requires var name := SplitAssign(tok, p.cfg.AssignDelim()).0;
      name in p.options && p.arena[p.options[name]].kind == Bool
    ensures var (name, raw) := SplitAssign(tok, p.cfg.AssignDelim());
      var idx := p.options[name];
      var s := LongOpt(p, tok, DefaultDecoder(fc));
      && s.err.None? && s.used == 1
      && s.state.supplied == p.supplied + {idx}
      && s.state.store == p.store[idx := BoolV(raw !in {"false", "off", "no"})]
  {
    var (name, raw) := SplitAssign(tok, p.cfg.AssignDelim());
    var r := ParseBool(raw);
    assert DefaultDecoder(fc)(raw, Bool) == Decode(raw, Bool, fc);
    if r.Ok? {
      assert r.value <==> raw !in {"false", "off", "no"};
    }
  }

  /** A registered boolean short option binds `true` and consumes only its
      own token, whatever follows it. */
  lemma ShortBoolFlag(p: Parser, tok: string, rest: seq<string>, dec: Decoder)
    requires Valid(p) && tok in p.options && p.arena[p.options[tok]].kind == Bool
    ensures var s := ShortOpt(p, tok, rest, dec);
      && s.err.None? && s.used == 1
      && s.state.supplied == p.supplied + {p.options[tok]}
      && s.state.store == p.store[p.options[tok] := BoolV(true)]
  {
  }

  /** A registered short option that is not boolean takes the next token as
      its value, whatever that token looks like, and fails with `missing
      value` when there is none. */
  lemma ShortTakesNext(p: Parser, tok: string, rest: seq<string>, dec: Decoder)
    requires Valid(p) && tok in p.options && p.arena[p.options[tok]].kind != Bool
    ensures var idx := p.options[tok];
      var s := ShortOpt(p, tok, rest, dec);
      && s.state.supplied == p.supplied + {idx}
      && (rest == [] ==> s.err == Some(MissingValue(tok)) && s.state.store == p.store)
      && (rest != [] ==> s.used == 2)
      && (rest != [] && dec(rest[0], p.arena[idx].kind).Err? ==>
            s.err == Some(BadOptionValue(tok, dec(rest[0], p.arena[idx].kind).error)))
      && (rest != [] && dec(rest[0], p.arena[idx].kind).Ok? && KindOf(dec(rest[0], p.arena[idx].kind).value) == p.arena[idx].kind ==>
            s.err.None? && s.state.store == p.store[idx := dec(rest[0], p.arena[idx].kind).value])
  {
  }

  /** In the walk, the token after a short option that takes a value is that
      option's value and is never dispatched itself, even when it looks like
      an option: the walk goes on after it with the counter unchanged. */
  lemma ShortValueNotDispatched(p: Parser, tok: string, v: string, rest: seq<string>, q: nat, dec: Decoder)
    requires Valid(p) && Classify(p.cfg, tok) == ShortToken
    requires tok in p.options && p.arena[p.options[tok]].kind != Bool
    requires dec(v, p.arena[p.options[tok]].kind).Ok?
    requires KindOf(dec(v, p.arena[p.options[tok]].kind).value) == p.arena[p.options[tok]].kind
    ensures var s := ShortOpt(p, tok, [v] + rest, dec);
      && s.err.None?
      && s.state.store == p.store[p.options[tok] := dec(v, p.arena[p.options[tok]].kind).value]
      && Walk(p, [tok, v] + rest, q, dec) == Walk(s.state, rest, q, dec)
  {
    var toks := [tok, v] + rest;
    assert toks[0] == tok && toks[1..] == [v] + rest && toks[2..] == rest;
    assert ([v] + rest)[0] == v;
  }
}
