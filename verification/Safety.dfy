/** When left-to-right evaluation of a rule body never meets an unbound variable it cannot handle. */
module Safety {
  import opened Syntax
  import opened Semantics

  /** The variables that must be bound before the literal is evaluated. */
  function Needs(p: Program, lit: Literal): set<string> {
    if lit.negated then lit.VariableNames()
    else if IsBuiltin(p, lit) then BuiltinInputs(p, lit)
    else {}
  }

  function BuiltinInputs(p: Program, lit: Literal): set<string>
    requires IsBuiltin(p, lit)
  {
    var n := p.builtins[lit.table.table].numInputs;
    TermVars(if n <= |lit.arguments| then lit.arguments[..n] else lit.arguments)
  }

  predicate SafeBody(p: Program, body: seq<Literal>) {
    forall i | 0 <= i < |body| :: Needs(p, body[i]) <= BodyVars(body[..i])
  }

  /** After these literals the variables of a negated literal are bound, and those among the inputs of a builtin. */
  ghost predicate CanFollow(p: Program, before: seq<Literal>, lit: Literal) {
    forall k, x | 0 <= k < |lit.arguments| && lit.arguments[k] == Variable(x)
                  && (lit.negated || (CallsBuiltin(p, lit) && k < p.builtins[lit.table.table].numInputs)) ::
      Occurs(before, x)
  }

  /** The table is that of a builtin with this number of arguments, or there are no arguments. */
  predicate CallsBuiltin(p: Program, lit: Literal) {
    && lit.table.table in p.builtins
    && (|lit.arguments| == 0 || |lit.arguments| == p.builtins[lit.table.table].arity)
  }

  predicate Occurs(literals: seq<Literal>, x: string) {
    exists j :: 0 <= j < |literals| && Variable(x) in literals[j].arguments
  }

  /** Read from left to right, every literal is ready when its turn comes. */
  ghost predicate BoundInTime(p: Program, body: seq<Literal>) {
    forall i | 0 <= i < |body| :: CanFollow(p, body[..i], body[i])
  }

  lemma OccursIsBound(literals: seq<Literal>, x: string)
    ensures Occurs(literals, x) <==> x in BodyVars(literals)
  {
    if j :| 0 <= j < |literals| && Variable(x) in literals[j].arguments {
      assert literals[j] in literals && x in literals[j].VariableNames();
    }
    if x in BodyVars(literals) {
      var lit :| lit in literals && x in lit.VariableNames();
      var j :| 0 <= j < |literals| && literals[j] == lit;
      assert Variable(x) in literals[j].arguments;
    }
  }

  /** A literal needs the variables among its arguments, all or those that are inputs. */
  lemma NeedsAre(p: Program, lit: Literal, x: string)
    ensures x in Needs(p, lit) <==>
              exists k :: 0 <= k < |lit.arguments| && lit.arguments[k] == Variable(x)
                          && (lit.negated || (CallsBuiltin(p, lit) && k < p.builtins[lit.table.table].numInputs))
  {
    if !lit.negated && IsBuiltin(p, lit) {
      var n := p.builtins[lit.table.table].numInputs;
      var inputs := if n <= |lit.arguments| then lit.arguments[..n] else lit.arguments;
      if x in TermVars(inputs) {
        var k :| 0 <= k < |inputs| && inputs[k] == Variable(x);
        assert lit.arguments[k] == Variable(x);
      }
      if k :| 0 <= k < |lit.arguments| && k < n && lit.arguments[k] == Variable(x) {
        assert inputs[k] == Variable(x);
      }
    }
  }

  lemma CanFollowIsBound(p: Program, before: seq<Literal>, lit: Literal)
    ensures CanFollow(p, before, lit) <==> Needs(p, lit) <= BodyVars(before)
  {
    hide Needs, BodyVars, Occurs;
    forall x
      ensures Occurs(before, x) <==> x in BodyVars(before)
    {
      OccursIsBound(before, x);
    }
    if CanFollow(p, before, lit) {
      forall x | x in Needs(p, lit)
        ensures x in BodyVars(before)
      {
        NeedsAre(p, lit, x);
      }
    }
    if Needs(p, lit) <= BodyVars(before) {
      forall k, x | 0 <= k < |lit.arguments| && lit.arguments[k] == Variable(x)
                    && (lit.negated || (CallsBuiltin(p, lit) && k < p.builtins[lit.table.table].numInputs))
        ensures Occurs(before, x)
      {
        NeedsAre(p, lit, x);
      }
    }
  }

  /** A body is safe if and only if all variables are bound in time. */
  lemma SafeIsBoundInTime(p: Program, body: seq<Literal>)
    ensures SafeBody(p, body) <==> BoundInTime(p, body)
  {
    hide Needs, BodyVars, CanFollow;
    forall i | 0 <= i < |body|
      ensures CanFollow(p, body[..i], body[i]) <==> Needs(p, body[i]) <= BodyVars(body[..i])
    {
      CanFollowIsBound(p, body[..i], body[i]);
    }
  }

  /** A builtin has its inputs, and the tables true and false take no variables. */
  predicate WellFormedLiteral(p: Program, lit: Literal) {
    && (IsTrueTable(lit) || IsFalseTable(lit) ==> lit.VariableNames() == {})
    && (IsBuiltin(p, lit) ==> p.builtins[lit.table.table].numInputs <= |lit.arguments|)
  }

  /** What insertion checks of a rule: its head and its body are safe. */
  predicate SafeRule(p: Program, rule: Rule) {
    && !rule.head.negated
    && rule.head.VariableNames() <= BodyVars(rule.body)
    && SafeBody(p, rule.body)
    && forall lit | lit in rule.body :: WellFormedLiteral(p, lit)
  }

  ghost predicate SafeProgram(p: Program) {
    forall theory, table, rule | rule in Rules(p, theory, table) :: SafeRule(p, rule)
  }
}
