/** Properties of the parsing engine that relate several calls: how the walk
    composes over the token list, the order in which positionals are filled,
    which errors cannot happen, and which inputs the engine never reads. */
module ParserProperties {
  import opened Wrappers
  import opened Values
  import opened Policy
  import opened Arguments
  import opened Parser

  /** Tokens after those a turn consumed cannot change what it did, unless
      it stopped for want of a value. */
  lemma StepAtExtend(p: Parser, toks: seq<string>, b: seq<string>, q: nat, dec: Decoder)
    requires Valid(p) && toks != []
    requires StepAt(p, toks, q, dec).err.None? || !StepAt(p, toks, q, dec).err.value.MissingValue?
    ensures StepAt(p, toks + b, q, dec) == StepAt(p, toks, q, dec)
  {
    SliceAppend(toks, b, 1);
    if Classify(p.cfg, toks[0]) == ShortToken {
      var r := toks[1..];
      if r != [] {
        assert (r + b)[0] == r[0];
      }
    }
  }

  /** A walk that gets through `a` without an error leaves the rest of the
      tokens to be walked from where it stopped. */
  lemma {:induction false} WalkAppendOk(p: Parser, a: seq<string>, b: seq<string>, q: nat, dec: Decoder)
    requires Valid(p)
    requires Walk(p, a, q, dec).err.None?
    ensures var o := Walk(p, a, q, dec);
      Walk(p, a + b, q, dec) == Walk(o.state, b, o.position, dec)
    decreases |a|
  {
    if a == [] {
      assert a + b == b;
    } else {
      var s := StepAt(p, a, q, dec);
      var adv := Advance(p.cfg, a[0], q);
      StepAtExtend(p, a, b, q, dec);
      assert Walk(p, a, q, dec) == Walk(s.state, a[s.used..], adv, dec);
      SliceAppend(a, b, s.used);
      assert Walk(p, a + b, q, dec) == Walk(s.state, a[s.used..] + b, adv, dec);
      WalkAppendOk(s.state, a[s.used..], b, adv, dec);
    }
  }

  /** The first error ends the walk: appending tokens after the input of a
      failed walk changes nothing, unless the failure was a short option that
      wanted a value and found the end of the input. */
  lemma {:induction false} WalkAppendError(p: Parser, a: seq<string>, b: seq<string>, q: nat, dec: Decoder)
    requires Valid(p)
    requires Walk(p, a, q, dec).err.Some? && !Walk(p, a, q, dec).err.value.MissingValue?
    ensures Walk(p, a + b, q, dec) == Walk(p, a, q, dec)
    decreases |a|
  {
    var s := StepAt(p, a, q, dec);
    StepAtExtend(p, a, b, q, dec);
    if s.err.None? {
      SliceAppend(a, b, s.used);
      WalkAppendError(s.state, a[s.used..], b, Advance(p.cfg, a[0], q), dec);
    }
  }

  lemma SliceAppend<T>(a: seq<T>, b: seq<T>, k: nat)
    requires k <= |a|
    ensures (a + b)[k..] == a[k..] + b
    ensures k < |a| ==> (a + b)[k] == a[k]
  {
  }

  /** The name an option token is looked up under: the part before the
      assignment character for a long token, the whole token for a short
      one. */
  function LookupName(cfg: Config, tok: string): string {
    if Classify(cfg, tok) == LongToken then SplitAssign(tok, cfg.AssignDelim()).0 else tok
  }

  /** An option token whose name is not registered fails the walk with
      `unknown option` wherever it stands, provided the tokens before it were
      walked without error. (A token consumed as a short option's value is
      not in that position: see the scenarios.) */
  lemma UnknownOptionAnywhere(p: Parser, a: seq<string>, tok: string, rest: seq<string>, q: nat, dec: Decoder)
    requires Valid(p) && Walk(p, a, q, dec).err.None?
    requires Classify(p.cfg, tok) != PositionalToken && LookupName(p.cfg, tok) !in p.options
    ensures Walk(p, a + [tok] + rest, q, dec).err == Some(UnknownOption(LookupName(p.cfg, tok)))
  {
    assert a + [tok] + rest == a + ([tok] + rest);
    WalkAppendOk(p, a, [tok] + rest, q, dec);
    var o := Walk(p, a, q, dec);
    assert ([tok] + rest)[0] == tok && ([tok] + rest)[1..] == rest;
  }

  /** The positional counter never passes the number of declared
      positionals, and the only `unexpected positional argument` the walk
      reports is the one just past the last declared positional. */
  lemma {:induction false} PositionBounded(p: Parser, toks: seq<string>, q: nat, dec: Decoder)
    requires Valid(p) && q <= |p.positionals|
    ensures Walk(p, toks, q, dec).position <= |p.positionals|
    ensures var e := Walk(p, toks, q, dec).err;
      e.Some? && e.value.UnexpectedPositional? ==> e.value.position == |p.positionals|
    decreases |toks|
  {
    if toks != [] {
      var s := StepAt(p, toks, q, dec);
      StepPosition(p, toks, q, dec);
      if s.err.None? {
        PositionBounded(s.state, toks[s.used..], Advance(p.cfg, toks[0], q), dec);
      }
    }
  }

  /** One turn keeps the positional counter within bounds. */
  lemma StepPosition(p: Parser, toks: seq<string>, q: nat, dec: Decoder)
    requires Valid(p) && toks != [] && q <= |p.positionals|
    ensures var s := StepAt(p, toks, q, dec);
      && (s.err.None? ==> Advance(p.cfg, toks[0], q) <= |p.positionals|)
      && (s.err.Some? && s.err.value.UnexpectedPositional? ==> s.err.value.position == |p.positionals|)
  {
    if Classify(p.cfg, toks[0]) == PositionalToken {
      var s := PositionalArg(p, toks[0], q, dec);
      assert s.err.None? ==> q < |p.positionals|;
    }
  }

  /** The binder's own type check never fires: every value reaching a
      write-back has already been checked, or is the `true` of a boolean. */
  lemma {:induction false} NoBindMismatch(p: Parser, toks: seq<string>, q: nat, dec: Decoder)
    requires Valid(p)
    ensures var e := Walk(p, toks, q, dec).err;
      e.None? || !e.value.BindMismatch?
    decreases |toks|
  {
    if toks != [] {
      var s := StepAt(p, toks, q, dec);
      if s.err.None? {
        NoBindMismatch(s.state, toks[s.used..], Advance(p.cfg, toks[0], q), dec);
      }
    }
  }

  /** With a decoder that produces only what it is asked for, such as the
      default one, the type check never fails either. */
  lemma {:induction false} NoTypeMismatch(p: Parser, toks: seq<string>, q: nat, dec: Decoder)
    requires Valid(p) && KindRespecting(dec)
    ensures var e := Walk(p, toks, q, dec).err;
      e.None? || !e.value.TypeMismatch?
    decreases |toks|
  {
    if toks != [] {
      var s := StepAt(p, toks, q, dec);
      StepNoTypeMismatch(p, toks, q, dec);
      if s.err.None? {
        NoTypeMismatch(s.state, toks[s.used..], Advance(p.cfg, toks[0], q), dec);
      }
    }
  }

  /** One turn with a kind-respecting decoder passes its type check. */
  lemma StepNoTypeMismatch(p: Parser, toks: seq<string>, q: nat, dec: Decoder)
    requires Valid(p) && toks != [] && KindRespecting(dec)
    ensures var e := StepAt(p, toks, q, dec).err;
      e.None? || !e.value.TypeMismatch?
  {
    var tok := toks[0];
    match Classify(p.cfg, tok)
    case LongToken =>
      var name := SplitAssign(tok, p.cfg.AssignDelim()).0;
      if name in p.options {
        var idx := p.options[name];
        var raw := SplitAssign(tok, p.cfg.AssignDelim()).1;
        assert dec(raw, p.arena[idx].kind).Ok? ==> KindOf(dec(raw, p.arena[idx].kind).value) == p.arena[idx].kind;
      }
    case ShortToken =>
      if tok in p.options && toks[1..] != [] {
        var idx := p.options[tok];
        assert dec(toks[1..][0], p.arena[idx].kind).Ok? ==> KindOf(dec(toks[1..][0], p.arena[idx].kind).value) == p.arena[idx].kind;
      }
    case PositionalToken =>
      if q < |p.positionals| {
        var idx := p.positionals[q];
        assert dec(tok, p.arena[idx].kind).Ok? ==> KindOf(dec(tok, p.arena[idx].kind).value) == p.arena[idx].kind;
      }
  }

  /** Every token is a positional one: no long or short prefix. */
  predicate AllPositional(cfg: Config, toks: seq<string>) {
    forall i :: 0 <= i < |toks| ==> Classify(cfg, toks[i]) == PositionalToken
  }

  /** Record `x` is not among the positionals from list position `q` on. */
  predicate NotFrom(p: Parser, x: nat, q: nat) {
    forall j :: q <= j < |p.positionals| ==> p.positionals[j] != x
  }

  /** The walk over positional tokens, one turn at a time: a turn over a
      positional token is `PositionalArg` at the current counter, and the walk
      goes on with the counter one higher. */
  lemma PositionalTurn(p: Parser, toks: seq<string>, q: nat, dec: Decoder)
    requires Valid(p) && AllPositional(p.cfg, toks) && toks != []
    ensures var s := PositionalArg(p, toks[0], q, dec);
      && StepAt(p, toks, q, dec) == s
      && AllPositional(p.cfg, toks[1..])
      && Walk(p, toks, q, dec) == if s.err.Some? then Outcome(s.state, q, s.err) else Walk(s.state, toks[1..], q + 1, dec)
  {
    assert Classify(p.cfg, toks[0]) == PositionalToken;
    var rest := toks[1..];
    forall i | 0 <= i < |rest| ensures Classify(p.cfg, rest[i]) == PositionalToken {
      assert rest[i] == toks[i + 1];
    }
  }

  /** Record `idx` was supplied by token `tok`: it is marked provided and
      holds what `dec` makes of `tok` for its kind. */
  predicate Holds(s: Parser, idx: nat, tok: string, dec: Decoder) {
    && idx < |s.arena|
    && idx in s.supplied
    && idx in s.store
    && dec(tok, s.arena[idx].kind) == Ok(s.store[idx])
  }

  /** A walk that only knows positional tokens, from token `i` on: each token
      is taken by `PositionalArg` at the counter, which then goes up by one.
      A successful walk takes one positional per token, and the token at `k`
      fills the positional at list position `q + (k - i)`; the walk leaves
      the value of every record outside the positionals from `q` on alone. */
  function PositionalWalk(p: Parser, toks: seq<string>, i: nat, q: nat, dec: Decoder): (o: Outcome)
    requires Valid(p) && i <= |toks|
    ensures Evolves(p, o.state)
    ensures forall x :: x in p.store && NotFrom(p, x, q) ==> x in o.state.store && o.state.store[x] == p.store[x]
    ensures o.err.None? ==> o.position == q + (|toks| - i)
    ensures o.err.None? && i < |toks| ==> o.position <= |p.positionals|
    decreases |toks| - i
  {
    if i == |toks| then Outcome(p, q, None)
    else
      var s := PositionalArg(p, toks[i], q, dec);
      if s.err.Some? then Outcome(s.state, q, s.err)
      else
        var o := PositionalWalk(s.state, toks, i + 1, q + 1, dec);
        EvolvesTransitive(p, s.state, o.state);
        assert forall x :: x in p.store && NotFrom(p, x, q) ==> x in o.state.store && o.state.store[x] == p.store[x] by {
          forall x | x in p.store && NotFrom(p, x, q) ensures x in o.state.store && o.state.store[x] == p.store[x] {
            PositionalStepFrame(p, toks[i], q, dec, x);
            assert NotFrom(s.state, x, q + 1);
          }
        }
        o
  }

  /** A successful positional walk leaves the token at `k` decoded into the
      positional at list position `j`, the one `k - i` places after `q`:
      later turns bind only positionals further along the list, so they
      leave it alone. */
  lemma {:induction false} PositionalWalkBinds(p: Parser, toks: seq<string>, i: nat, q: nat, dec: Decoder, k: nat, j: nat)
    requires Valid(p) && i <= k < |toks| && j == q + (k - i)
    ensures var o := PositionalWalk(p, toks, i, q, dec);
      o.err.None? ==> j < |p.positionals| && Holds(o.state, p.positionals[j], toks[k], dec)
    decreases |toks| - i
  {
    var s := PositionalArg(p, toks[i], q, dec);
    if s.err.None? {
      var o := PositionalWalk(s.state, toks, i + 1, q + 1, dec);
      assert PositionalWalk(p, toks, i, q, dec) == o;
      if k == i {
        var idx := p.positionals[q];
        forall m | q + 1 <= m < |p.positionals| ensures p.positionals[m] != idx {
          DistinctAt(p.positionals, q, m);
        }
        assert NotFrom(s.state, idx, q + 1);
      } else {
        PositionalWalkBinds(s.state, toks, i + 1, q + 1, dec, k, j);
      }
    }
  }

  /** One positional turn binds nothing but the positional it takes. */
  lemma PositionalStepFrame(p: Parser, tok: string, q: nat, dec: Decoder, x: nat)
    requires Valid(p) && x in p.store && (q < |p.positionals| ==> p.positionals[q] != x)
    ensures var s := PositionalArg(p, tok, q, dec);
      x in s.state.store && s.state.store[x] == p.store[x]
  {
    var s := PositionalArg(p, tok, q, dec);
    if s.err.None? {
      var idx := p.positionals[q];
      assert s.state.store == p.store[idx := s.state.store[idx]];
    }
  }

  /** Over positional tokens the walk of `parse` is the positional walk. */
  lemma {:induction false} WalkIsPositionalWalk(p: Parser, toks: seq<string>, i: nat, q: nat, dec: Decoder)
    requires Valid(p) && AllPositional(p.cfg, toks) && i <= |toks|
    ensures Walk(p, toks[i..], q, dec) == PositionalWalk(p, toks, i, q, dec)
    decreases |toks| - i
  {
    if i < |toks| {
      var rest := toks[i..];
      assert rest[0] == toks[i] && rest[1..] == toks[i + 1..];
      assert AllPositional(p.cfg, rest) by {
        forall j | 0 <= j < |rest| ensures Classify(p.cfg, rest[j]) == PositionalToken {
          assert rest[j] == toks[i + j];
        }
      }
      PositionalTurn(p, rest, q, dec);
      var s := PositionalArg(p, toks[i], q, dec);
      if s.err.None? {
        WalkIsPositionalWalk(s.state, toks, i + 1, q + 1, dec);
      }
    }
  }

  /** A walk over positional tokens that succeeds takes one positional per
      token, and the counter ends just after the last one taken. */
  lemma PositionalCount(p: Parser, toks: seq<string>, q: nat, dec: Decoder)
    requires Valid(p) && AllPositional(p.cfg, toks)
    ensures var o := Walk(p, toks, q, dec);
      o.err.None? ==> o.position == q + |toks| && (toks != [] ==> q + |toks| <= |p.positionals|)
  {
    assert toks[0..] == toks;
    WalkIsPositionalWalk(p, toks, 0, q, dec);
  }

  /** A walk over positional tokens from counter `q` leaves the value bound
      to every record outside the positionals from `q` on as it was. */
  lemma PositionalFrame(p: Parser, toks: seq<string>, q: nat, dec: Decoder, x: nat)
    requires Valid(p) && AllPositional(p.cfg, toks)
    requires x in p.store && NotFrom(p, x, q)
    ensures var o := Walk(p, toks, q, dec);
      x in o.state.store && o.state.store[x] == p.store[x]
  {
    assert toks[0..] == toks;
    WalkIsPositionalWalk(p, toks, 0, q, dec);
  }

  /** Over a list of positional tokens only, positionals are filled
      strictly in order: in a successful walk the `k`-th token is decoded
      as, bound to and marks provided the positional at list position
      `q + k`. */
  lemma PositionalTokensInOrder(p: Parser, toks: seq<string>, q: nat, dec: Decoder, k: nat)
    requires Valid(p) && AllPositional(p.cfg, toks) && k < |toks|
    requires Walk(p, toks, q, dec).err.None?
    ensures q + k < |p.positionals|
    ensures Holds(Walk(p, toks, q, dec).state, p.positionals[q + k], toks[k], dec)
  {
    assert toks[0..] == toks;
    WalkIsPositionalWalk(p, toks, 0, q, dec);
    var o := PositionalWalk(p, toks, 0, q, dec);
    assert o.err.None?;
    PositionalWalkBinds(p, toks, 0, q, dec, k, q + k);
    assert Holds(o.state, p.positionals[q + k], toks[k], dec);
  }

  /** How many tokens a successful turn over `toks` takes: a short option
      whose record is not boolean takes the token after it as its value;
      every other turn takes one token. */
  function Width(p: Parser, toks: seq<string>): (w: nat)
    requires Valid(p) && toks != []
    ensures 1 <= w <= |toks|
  {
    var t := toks[0];
    if Classify(p.cfg, t) == ShortToken && t in p.options && p.arena[p.options[t]].kind != Bool && |toks| > 1
    then 2 else 1
  }

  /** How many of the turns over `toks` are positional turns: each turn
      starts `Width` tokens after the one before, and counts when its first
      token has neither option prefix. */
  function PositionalTurns(p: Parser, toks: seq<string>): nat
    requires Valid(p)
    decreases |toks|
  {
    if toks == [] then 0
    else (if Classify(p.cfg, toks[0]) == PositionalToken then 1 else 0) + PositionalTurns(p, toks[Width(p, toks)..])
  }

  /** A successful turn takes exactly `Width` tokens. */
  lemma StepWidth(p: Parser, toks: seq<string>, q: nat, dec: Decoder)
    requires Valid(p) && toks != [] && StepAt(p, toks, q, dec).err.None?
    ensures StepAt(p, toks, q, dec).used == Width(p, toks)
  {
    if Classify(p.cfg, toks[0]) == ShortToken {
      assert |toks| > 1 <==> toks[1..] != [];
    }
  }

  /** After a successful walk from counter `q`, the counter has moved on by
      the number of positional turns; `r` is any parser the walk's parser
      evolved from, so that the count can be taken on the parser the walk
      started with. */
  lemma {:induction false} WalkPosition(r: Parser, p: Parser, toks: seq<string>, q: nat, dec: Decoder)
    requires Valid(r) && Evolves(r, p)
    requires Walk(p, toks, q, dec).err.None?
    ensures Walk(p, toks, q, dec).position == q + PositionalTurns(r, toks)
    decreases |toks|
  {
    if toks != [] {
      var s := StepAt(p, toks, q, dec);
      assert s.err.None?;
      StepWidth(p, toks, q, dec);
      assert Width(p, toks) == Width(r, toks);
      EvolvesTransitive(r, p, s.state);
      WalkPosition(r, s.state, toks[s.used..], Advance(p.cfg, toks[0], q), dec);
    }
  }

  /** One turn leaves the value of a positional record alone when the turn
      cannot take it: option turns bind option records only, and a
      positional turn binds the positional at the counter. */
  lemma StepKeeps(p: Parser, toks: seq<string>, q: nat, dec: Decoder, x: nat)
    requires Valid(p) && toks != [] && x in p.store && x in p.positionals && NotFrom(p, x, q)
    ensures var s := StepAt(p, toks, q, dec);
      && x in s.state.store && s.state.store[x] == p.store[x]
      && NotFrom(s.state, x, Advance(p.cfg, toks[0], q))
  {
    var t := toks[0];
    match Classify(p.cfg, t)
    case LongToken =>
      var name := SplitAssign(t, p.cfg.AssignDelim()).0;
      if name in p.options {
        assert p.options[name] != x;
      }
    case ShortToken =>
      if t in p.options {
        assert p.options[t] != x;
      }
    case PositionalToken =>
      PositionalStepFrame(p, t, q, dec, x);
  }

  /** A walk from counter `q` leaves the value of a positional record that
      sits before list position `q` alone. */
  lemma {:induction false} WalkKeeps(p: Parser, toks: seq<string>, q: nat, dec: Decoder, x: nat)
    requires Valid(p) && x in p.store && x in p.positionals && NotFrom(p, x, q)
    ensures var o := Walk(p, toks, q, dec);
      x in o.state.store && o.state.store[x] == p.store[x]
    decreases |toks|
  {
    if toks != [] {
      var s := StepAt(p, toks, q, dec);
      StepKeeps(p, toks, q, dec, x);
      if s.err.None? {
        WalkKeeps(s.state, toks[s.used..], Advance(p.cfg, toks[0], q), dec, x);
      }
    }
  }

  /** In a successful walk over `pre + rest`, where `rest` starts with a
      positional token and the walk got through `pre` without error (so
      that token starts a turn and is not a short option's value), the
      token is decoded as, bound to and marks provided the positional at
      the counter the walk over `pre` reached. */
  lemma {:induction false} PositionalBindsAfter(p: Parser, pre: seq<string>, rest: seq<string>, q: nat, dec: Decoder)
    requires Valid(p) && rest != [] && Classify(p.cfg, rest[0]) == PositionalToken
    requires Walk(p, pre, q, dec).err.None?
    requires Walk(p, pre + rest, q, dec).err.None?
    ensures var j := Walk(p, pre, q, dec).position;
      && j < |p.positionals|
      && Holds(Walk(p, pre + rest, q, dec).state, p.positionals[j], rest[0], dec)
  {
    var w := Walk(p, pre, q, dec);
    WalkAppendOk(p, pre, rest, q, dec);
    PositionalTurnBinds(p, w.state, rest, w.position, dec);
  }

  /** Positionals are filled strictly in declaration order, whatever
      options stand between them: a positional token that starts a turn of
      a successful walk goes to the positional at list position `j`, which
      is `q` plus the number of positional turns before it. */
  lemma {:induction false} PositionalsInOrder(p: Parser, pre: seq<string>, rest: seq<string>, q: nat, dec: Decoder, j: nat)
    requires Valid(p) && rest != [] && Classify(p.cfg, rest[0]) == PositionalToken
    requires Walk(p, pre, q, dec).err.None?
    requires Walk(p, pre + rest, q, dec).err.None?
    requires j == q + PositionalTurns(p, pre)
    ensures j < |p.positionals| && Holds(Walk(p, pre + rest, q, dec).state, p.positionals[j], rest[0], dec)
  {
    assert Walk(p, pre, q, dec).position == j by {
      WalkPosition(p, p, pre, q, dec);
    }
    PositionalBindsAfter(p, pre, rest, q, dec);
  }

  /** A walk that starts with a positional token at counter `j` and
      succeeds leaves that token bound to the positional at list position
      `j`: later turns never take it again. `r` is any parser the walk's
      parser evolved from, which has the same positional list. */
  lemma PositionalTurnBinds(r: Parser, p: Parser, toks: seq<string>, j: nat, dec: Decoder)
    requires Evolves(r, p) && toks != [] && Classify(p.cfg, toks[0]) == PositionalToken
    requires Walk(p, toks, j, dec).err.None?
    ensures j < |r.positionals| && Holds(Walk(p, toks, j, dec).state, r.positionals[j], toks[0], dec)
  {
    var s := PositionalArg(p, toks[0], j, dec);
    FirstTurnPositional(p, toks, j, dec);
    PositionalArgHolds(p, toks[0], j, dec);
    var idx := p.positionals[j];
    assert NotFrom(s.state, idx, j + 1) by {
      forall m | j + 1 <= m < |p.positionals| ensures p.positionals[m] != idx {
        DistinctAt(p.positionals, j, m);
      }
    }
    WalkKeeps(s.state, toks[1..], j + 1, dec, idx);
    HoldsKept(s.state, Walk(s.state, toks[1..], j + 1, dec).state, idx, toks[0], dec);
  }

  /** A later parser that keeps a record's value keeps what it holds. */
  lemma HoldsKept(s: Parser, o: Parser, idx: nat, t: string, dec: Decoder)
    requires Holds(s, idx, t, dec) && Evolves(s, o)
    requires idx in o.store && o.store[idx] == s.store[idx]
    ensures Holds(o, idx, t, dec)
  {
  }

  /** The first turn of a successful walk that starts with a positional
      token at counter `j` is `PositionalArg`, which succeeds, and the walk
      goes on at `j + 1`. */
  lemma FirstTurnPositional(p: Parser, toks: seq<string>, j: nat, dec: Decoder)
    requires Valid(p) && toks != [] && Classify(p.cfg, toks[0]) == PositionalToken
    requires Walk(p, toks, j, dec).err.None?
    ensures var s := PositionalArg(p, toks[0], j, dec);
      && s.err.None?
      && Walk(p, toks, j, dec) == Walk(s.state, toks[1..], j + 1, dec)
  {
    var s := PositionalArg(p, toks[0], j, dec);
    assert StepAt(p, toks, j, dec) == s;
  }

  /** A positional turn that succeeds binds its token to the positional
      at the counter and marks it provided. */
  lemma PositionalArgHolds(p: Parser, t: string, j: nat, dec: Decoder)
    requires Valid(p) && PositionalArg(p, t, j, dec).err.None?
    ensures j < |p.positionals| && Holds(PositionalArg(p, t, j, dec).state, p.positionals[j], t, dec)
  {
  }

  /** No token of `toks` is looked up under a name the table maps to
      record `x`. */
  predicate Unnamed(p: Parser, toks: seq<string>, x: nat) {
    forall k :: 0 <= k < |toks| ==> LookupName(p.cfg, toks[k]) in p.options ==> p.options[LookupName(p.cfg, toks[k])] != x
  }

  /** One turn whose token does not name option record `x` does not mark
      it provided. */
  lemma StepSupplies(p: Parser, toks: seq<string>, q: nat, dec: Decoder, x: nat)
    requires Valid(p) && toks != [] && x !in p.supplied && x !in p.positionals
    requires LookupName(p.cfg, toks[0]) in p.options ==> p.options[LookupName(p.cfg, toks[0])] != x
    ensures x !in StepAt(p, toks, q, dec).state.supplied
  {
  }

  /** A walk over tokens none of which names option record `x` leaves it
      unprovided. */
  lemma {:induction false} WalkSupplies(p: Parser, toks: seq<string>, q: nat, dec: Decoder, x: nat)
    requires Valid(p) && x !in p.supplied && x !in p.positionals && Unnamed(p, toks, x)
    ensures x !in Walk(p, toks, q, dec).state.supplied
    decreases |toks|
  {
    if toks != [] {
      var s := StepAt(p, toks, q, dec);
      StepSupplies(p, toks, q, dec, x);
      if s.err.None? {
        var rest := toks[s.used..];
        assert Unnamed(s.state, rest, x) by {
          forall k | 0 <= k < |rest|
            ensures LookupName(p.cfg, rest[k]) in p.options ==> p.options[LookupName(p.cfg, rest[k])] != x
          {
            assert rest[k] == toks[s.used + k];
          }
        }
        WalkSupplies(s.state, rest, Advance(p.cfg, toks[0], q), dec, x);
      }
    }
  }

  /** One turn from counter `q` marks no positional at list position `m`
      beyond the ones the turn fills: an option turn marks only an option
      record, and a positional turn only the positional at `q`. */
  lemma StepLeavesLater(p: Parser, toks: seq<string>, q: nat, dec: Decoder, m: nat)
    requires Valid(p) && toks != [] && m < |p.positionals| && p.positionals[m] !in p.supplied
    requires Advance(p.cfg, toks[0], q) <= m
    ensures p.positionals[m] !in StepAt(p, toks, q, dec).state.supplied
  {
    if Classify(p.cfg, toks[0]) == PositionalToken && q < |p.positionals| {
      DistinctAt(p.positionals, q, m);
    }
  }

  /** A successful walk from counter `q` marks no positional at list
      position `m` or later once `m` is at least `q` plus the positional
      turns of the walk; `r` is the parser the count is taken on. */
  lemma {:induction false} WalkLeavesLater(r: Parser, p: Parser, toks: seq<string>, q: nat, dec: Decoder, m: nat)
    requires Valid(r) && Evolves(r, p)
    requires Walk(p, toks, q, dec).err.None?
    requires q + PositionalTurns(r, toks) <= m < |p.positionals| && p.positionals[m] !in p.supplied
    ensures p.positionals[m] !in Walk(p, toks, q, dec).state.supplied
    decreases |toks|
  {
    if toks != [] {
      var s := StepAt(p, toks, q, dec);
      assert s.err.None?;
      StepWidth(p, toks, q, dec);
      assert Width(p, toks) == Width(r, toks);
      StepLeavesLater(p, toks, q, dec, m);
      EvolvesTransitive(r, p, s.state);
      WalkLeavesLater(r, s.state, toks[s.used..], Advance(p.cfg, toks[0], q), dec, m);
    }
  }

  /** A required positional that the tokens do not reach, because fewer
      positional turns come before it, always fails the parse: either the
      walk stops at some error, or the check for required arguments reports
      a missing positional. */
  lemma RequiredPositionalAbsentFails(p: Parser, dec: Decoder, order: seq<string>, j: nat)
    requires Valid(p) && Covers(p, order)
    requires PositionalTurns(p, Tokens(p.argv)) <= j < |p.positionals|
    requires p.arena[p.positionals[j]].required && p.positionals[j] !in p.supplied
    ensures var o := Parse(p, dec, order);
      && o.err.Some?
      && (Walk(p, Tokens(p.argv), 0, dec).err.None? ==> o.err.value.MissingRequiredPositional?)
  {
    var w := Walk(p, Tokens(p.argv), 0, dec);
    if w.err.None? {
      WalkLeavesLater(p, p, Tokens(p.argv), 0, dec, j);
      assert Missing(w.state, w.state.positionals[j]);
    }
  }

  /** A required option that no token names always fails the parse: either
      the walk stops at some other error, or the check for required
      arguments reports a missing one. */
  lemma RequiredOptionAbsentFails(p: Parser, dec: Decoder, order: seq<string>, n: string)
    requires Valid(p) && Covers(p, order)
    requires n in p.options && p.arena[p.options[n]].required && p.options[n] !in p.supplied
    requires Unnamed(p, Tokens(p.argv), p.options[n])
    ensures var o := Parse(p, dec, order);
      && o.err.Some?
      && (Walk(p, Tokens(p.argv), 0, dec).err.None? ==>
            o.err.value.MissingRequiredPositional? || o.err.value.MissingRequiredOption?)
  {
    var x := p.options[n];
    WalkSupplies(p, Tokens(p.argv), 0, dec, x);
    var w := Walk(p, Tokens(p.argv), 0, dec);
    assert Missing(w.state, w.state.options[n]);
  }
}
