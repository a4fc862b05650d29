/** The argument record of `argument.hpp`: the names an argument answers to,
    the kind of its target, the `required` flag and the help text. The
    `provided` flag, the only field parsing writes, is kept by the parser as
    the set of supplied records, and the write-back closure is replaced by
    the parser's store of bound values. */
module Arguments {
  import opened Values

  /** `option_names`: a long and a short spelling, either possibly empty. */
  datatype OptionNames = OptionNames(longName: string, shortName: string) {

    /** `one_defined()`: at least one spelling is given. */
    predicate OneDefined()
      ensures OneDefined() <==> longName != "" || shortName != ""
    {
      !(longName == "" && shortName == "")
    }
  }

  /** `argument`: `kind` stands for `m_type` and is never changed after
      construction; `names[0]` is the display name. */
  datatype Argument = Argument(
    kind: Kind,
    names: seq<string>,
    required: bool,
    help: string)
  {
    /** `name()`: the first of the names. */
    function Name(): (n: string)
      requires |names| > 0
      ensures n in names && n == names[0]
    {
      names[0]
    }

    /** `required()`: marks the argument as required and leaves every other
        field as it was. */
    function Required(): (a: Argument)
      ensures a.required
      ensures a.kind == kind && a.names == names && a.help == help
    {
      this.(required := true)
    }

    /** `help(h)`: replaces the help text and leaves every other field as it
        was. */
    function Help(h: string): (a: Argument)
      ensures a.help == h
      ensures a.kind == kind && a.names == names && a.required == required
    {
      this.(help := h)
    }
  }

  /** The `argument` constructor: not required, no help text. */
  function NewArgument(kind: Kind, names: seq<string>): (a: Argument)
    ensures !a.required && a.help == ""
    ensures a.kind == kind && a.names == names
  {
    Argument(kind, names, false, "")
  }

  /** `required()` is idempotent and commutes with `help(h)`. */
  lemma SettersCommute(a: Argument, h: string)
    ensures a.Required().Required() == a.Required()
    ensures a.Required().Help(h) == a.Help(h).Required()
  {
  }
}
