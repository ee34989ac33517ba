/** Values of the policy language: constants, terms, literals and rules. */
module Syntax {

  datatype Option<+T> = None | Some(value: T)
  {
    function GetOr(default: T): T {
      if Some? then value else default
    }
  }

  datatype Constant =
    | StringConstant(text: string)
    | IntegerConstant(number: int)
    | FloatConstant(amount: real)

  datatype Term =
    | Variable(name: string)
    | ObjectConstant(value: Constant)

  datatype Tablename = Tablename(service: Option<string>, table: string, modal: Option<string>)
  {
    /** Equality in which a missing service stands for `defaultService`. */
    predicate Same(other: Tablename, defaultService: string) {
      && table == other.table
      && modal == other.modal
      && service.GetOr(defaultService) == other.service.GetOr(defaultService)
    }

    /** The tables that stand for pending changes end in + or -. */
    predicate IsUpdate() {
      table != [] && table[|table| - 1] in ['+', '-']
    }
  }

  datatype Literal = Literal(table: Tablename, arguments: seq<Term>, negated: bool)
  {
    function VariableNames(): set<string> {
      TermVars(arguments)
    }

    function Complement(): Literal {
      this.(negated := !negated)
    }
  }

  datatype Rule = Rule(head: Literal, body: seq<Literal>)

  /** When two rules count as equal: the order of a body does not matter. */
  predicate SameRule(r: Rule, r': Rule) {
    r.head == r'.head && multiset(r.body) == multiset(r'.body)
  }

  function TermVars(terms: seq<Term>): set<string> {
    set t | t in terms && t.Variable? :: t.name
  }

  /** The variables of a list of literals. */
  function BodyVars(literals: seq<Literal>): set<string> {
    set lit, x | lit in literals && x in lit.VariableNames() :: x
  }

  /** A ground reading of the variables of one rule or query. */
  type Valuation = string -> Constant

  function TermValue(t: Term, nu: Valuation): Constant {
    match t
    case Variable(x) => nu(x)
    case ObjectConstant(c) => c
  }

  function Values(terms: seq<Term>, nu: Valuation): seq<Constant> {
    seq(|terms|, i requires 0 <= i < |terms| => TermValue(terms[i], nu))
  }
}
