/** The two compile-time policies of `policy.hpp`, re-expressed as a
    configuration value with a validity predicate: the long and short option
    prefixes, and the assignment and separator characters. */
module Policy {

  /** `static_string<N>`: the `N` characters of a string literal's array,
      terminating NUL included. */
  datatype StaticString = StaticString(data: seq<char>) {

    /** The array of a string literal: at least the terminator, and the
        terminator last. */
    predicate IsLiteral() {
      |data| >= 1 && data[|data| - 1] == '\0'
    }

    /** A literal with no NUL before its terminator. */
    predicate NulFree() {
      IsLiteral() && '\0' !in data[..|data| - 1]
    }

    /** `size()`: the array length less the terminator. */
    function Size(): (n: nat)
      requires |data| >= 1
      ensures n == |data| - 1
      ensures NulFree() ==> n == |View()|
    {
      if NulFree() then CStringOfLiteral(data); |data| - 1 else |data| - 1
    }

    /** The `std::string_view` built from `data` as a `const char*`: the
        characters before the first NUL. */
    function View(): string {
      CString(data)
    }
  }

  /** The characters of `s` before its first NUL, or all of `s` if it has
      none. */
  function CString(s: seq<char>): (r: string)
    ensures |r| <= |s| && r == s[..|r|]
    ensures '\0' !in r
    ensures |r| < |s| ==> s[|r|] == '\0'
  {
    if s == [] || s[0] == '\0' then [] else [s[0]] + CString(s[1..])
  }

  /** A NUL-free literal views as everything but its terminator. */
  lemma CStringOfLiteral(s: seq<char>)
    requires |s| >= 1 && s[|s| - 1] == '\0' && '\0' !in s[..|s| - 1]
    ensures CString(s) == s[..|s| - 1]
  {
  }

  /** `static_string::operator==`: arrays of different lengths differ;
      arrays of the same length are compared element by element. */
  function Equals(a: StaticString, b: StaticString): (r: bool)
    ensures r <==> a == b
  {
    if |a.data| != |b.data| then false
    else
      EqualFromSuffix(a.data, b.data, 0);
      assert a.data[0..] == a.data && b.data[0..] == b.data;
      EqualFrom(a.data, b.data, 0)
  }

  /** The element-by-element loop of `operator==`, from index `i` on. */
  function EqualFrom(x: seq<char>, y: seq<char>, i: nat): bool
    requires |x| == |y| && i <= |x|
    decreases |x| - i
  {
    if i == |x| then true
    else if x[i] != y[i] then false
    else EqualFrom(x, y, i + 1)
  }

  lemma {:induction false} EqualFromSuffix(x: seq<char>, y: seq<char>, i: nat)
    requires |x| == |y| && i <= |x|
    ensures EqualFrom(x, y, i) <==> x[i..] == y[i..]
    decreases |x| - i
  {
    if i < |x| {
      EqualFromSuffix(x, y, i + 1);
      assert x[i..] == [x[i]] + x[i + 1..];
      assert y[i..] == [y[i]] + y[i + 1..];
    }
  }

  /** `prefix_policy<Long, Short>`, constrained by `Long != Short`. */
  datatype PrefixPolicy = PrefixPolicy(long: StaticString, short: StaticString) {
    predicate Valid() {
      !Equals(long, short)
    }
    function LongPrefix(): string {
      long.View()
    }
    function ShortPrefix(): string {
      short.View()
    }
  }

  /** `delim_policy<Asgn, Sep>`, constrained by `Asgn != Sep`. The separator
      is carried but no part of the parser reads it. */
  datatype DelimPolicy = DelimPolicy(assign: char, separator: char) {
    predicate Valid() {
      assign != separator
    }
  }

  /** The two template arguments of `parser`. */
  datatype Config = Config(prefix: PrefixPolicy, delim: DelimPolicy) {
    predicate Valid() {
      prefix.Valid() && delim.Valid()
    }
    function LongPrefix(): string {
      prefix.LongPrefix()
    }
    function ShortPrefix(): string {
      prefix.ShortPrefix()
    }
    function AssignDelim(): char {
      delim.assign
    }
  }

  /** `prefix_policy<"--", "-">` and `delim_policy<'=', ','>`. */
  const DefaultConfig: Config :=
    Config(PrefixPolicy(StaticString("--\0"), StaticString("-\0")), DelimPolicy('=', ','))

  /** The default policies meet their constraints, and give the prefixes
      `--` and `-`. */
  lemma DefaultConfigValid()
    ensures DefaultConfig.Valid()
    ensures DefaultConfig.LongPrefix() == "--" && DefaultConfig.ShortPrefix() == "-"
    ensures DefaultConfig.AssignDelim() == '='
  {
    assert DefaultConfig.prefix.long.data[..2] == "--";
    CStringOfLiteral(DefaultConfig.prefix.long.data);
    CStringOfLiteral(DefaultConfig.prefix.short.data);
  }

  /** For NUL-free literals the array comparison of the constraint is the
      comparison of the prefixes the parser uses, so a valid policy has two
      different prefixes. */
  lemma ValidPrefixesDiffer(p: PrefixPolicy)
    requires p.long.NulFree() && p.short.NulFree()
    ensures p.Valid() <==> p.LongPrefix() != p.ShortPrefix()
  {
    CStringOfLiteral(p.long.data);
    CStringOfLiteral(p.short.data);
    var l := p.long.data;
    var s := p.short.data;
    if l[..|l| - 1] == s[..|s| - 1] {
      assert l == l[..|l| - 1] + ['\0'] && s == s[..|s| - 1] + ['\0'];
    }
  }

  /** With a NUL inside a literal the constraint no longer guarantees
      different prefixes: the arrays of `"-\0"` and `"-"` differ, but both
      view as `-`. */
  lemma EmbeddedNulPrefixes()
    ensures var p := PrefixPolicy(StaticString("-\0\0"), StaticString("-\0"));
      p.Valid() && p.LongPrefix() == p.ShortPrefix()
  {
    var p := PrefixPolicy(StaticString("-\0\0"), StaticString("-\0"));
    assert p.long.data[1..] == "\0\0";
    assert p.short.data[1..] == "\0";
  }
}
