/**
 What a nonrecursive multi-theory program with negation and builtins means.

 A literal is read in a theory; a literal that names another theory is looked up there.
 `Holds` defines the truth of a ground atom by recursion on a rank that witnesses that the
 program is nonrecursive. `ModelIsUnique` shows that the choice of rank does not matter:
 it is the only interpretation in which an atom is true exactly when some rule derives it.
 */
module Semantics {
  import opened Syntax

  /** A builtin answers None when it raises, or when it has no outputs and is not true. */
  datatype Builtin = Builtin(numInputs: nat, arity: nat, code: seq<Constant> -> Option<seq<Constant>>)

  /** A table as one theory sees it, with the missing service filled in. */
  datatype Pred = Pred(theory: string, service: string, table: string, modal: Option<string>)

  datatype Program = Program(
    theories: map<string, map<string, seq<Rule>>>,
    builtins: map<string, Builtin>,
    rank: Pred -> nat)

  function Rules(p: Program, theory: string, table: string): seq<Rule> {
    if theory in p.theories && table in p.theories[theory] then p.theories[theory][table] else []
  }

  // ---------------------------------------------------------------------------
  // How a literal is dispatched

  predicate IsTrueTable(lit: Literal) {
    lit.table.service.None? && lit.table.table == "true"
  }

  predicate IsFalseTable(lit: Literal) {
    lit.table.service.None? && lit.table.table == "false"
  }

  predicate IsBuiltin(p: Program, lit: Literal) {
    && lit.table.table in p.builtins
    && (lit.arguments == [] || p.builtins[lit.table.table].arity == |lit.arguments|)
  }

  predicate IsSpecial(p: Program, lit: Literal) {
    IsTrueTable(lit) || IsFalseTable(lit) || IsBuiltin(p, lit)
  }

  /** The literal names another theory, and is neither a modal nor a pending update. */
  predicate IsForeign(theory: string, table: Tablename) {
    table.service.Some? && table.modal.None? && table.service.value != theory && !table.IsUpdate()
  }

  function Host(theory: string, table: Tablename): string {
    if IsForeign(theory, table) then table.service.value else theory
  }

  function HeadPred(theory: string, table: Tablename): Pred {
    Pred(theory, table.service.GetOr(theory), table.table, table.modal)
  }

  function Resolve(theory: string, table: Tablename): Pred {
    HeadPred(Host(theory, table), table)
  }

  // ---------------------------------------------------------------------------
  // Truth

  ghost function LitRank(p: Program, theory: string, lit: Literal): nat {
    if IsSpecial(p, lit) then 0 else p.rank(Resolve(theory, lit.table)) + 1
  }

  /** Every table a rule's body looks up has a smaller rank than the table the rule defines. */
  ghost predicate Nonrecursive(p: Program) {
    forall theory, table, rule, i |
      rule in Rules(p, theory, table) && 0 <= i < |rule.body| ::
      LitRank(p, theory, rule.body[i]) <= p.rank(HeadPred(theory, rule.head.table))
  }

  predicate BuiltinTrue(p: Program, lit: Literal, nu: Valuation)
    requires IsBuiltin(p, lit)
  {
    var b := p.builtins[lit.table.table];
    var args := Values(lit.arguments, nu);
    && b.numInputs <= |args|
    && match b.code(args[..b.numInputs])
       case None => false
       case Some(outputs) => b.numInputs < b.arity ==> outputs == args[b.numInputs..]
  }

  ghost predicate Holds(p: Program, pred: Pred, values: seq<Constant>)
    requires Nonrecursive(p)
    decreases p.rank(pred) + 1, 0
  {
    exists rule: Rule, nu: Valuation ::
      && HeadProduces(p, pred, rule, nu, values)
      && forall i | 0 <= i < |rule.body| :: LitTrue(p, pred.theory, rule.body[i], nu)
  }

  ghost predicate HeadProduces(p: Program, pred: Pred, rule: Rule, nu: Valuation, values: seq<Constant>) {
    && rule in Rules(p, pred.theory, pred.table)
    && HeadPred(pred.theory, rule.head.table) == pred
    && Values(rule.head.arguments, nu) == values
  }

  ghost predicate AtomTrue(p: Program, theory: string, lit: Literal, nu: Valuation)
    requires Nonrecursive(p)
    decreases LitRank(p, theory, lit), 2
  {
    if IsTrueTable(lit) then true
    else if IsFalseTable(lit) then false
    else if IsBuiltin(p, lit) then BuiltinTrue(p, lit, nu)
    else Holds(p, Resolve(theory, lit.table), Values(lit.arguments, nu))
  }

  ghost predicate LitTrue(p: Program, theory: string, lit: Literal, nu: Valuation)
    requires Nonrecursive(p)
    decreases LitRank(p, theory, lit), 3
  {
    AtomTrue(p, theory, lit, nu) != lit.negated
  }

  ghost predicate AllTrue(p: Program, theory: string, literals: seq<Literal>, nu: Valuation)
    requires Nonrecursive(p)
  {
    forall i | 0 <= i < |literals| :: LitTrue(p, theory, literals[i], nu)
  }

  /** The rule, read under `nu`, proves the atom. */
  ghost predicate Derives(p: Program, pred: Pred, rule: Rule, nu: Valuation, values: seq<Constant>)
    requires Nonrecursive(p)
  {
    HeadProduces(p, pred, rule, nu, values) && AllTrue(p, pred.theory, rule.body, nu)
  }

  lemma HoldsByRule(p: Program, pred: Pred, values: seq<Constant>)
    requires Nonrecursive(p)
    ensures Holds(p, pred, values) <==> exists rule: Rule, nu: Valuation :: Derives(p, pred, rule, nu, values)
  {
    if rule: Rule, nu: Valuation :| Derives(p, pred, rule, nu, values) {
      assert HeadProduces(p, pred, rule, nu, values);
    }
    if Holds(p, pred, values) {
      var rule: Rule, nu: Valuation :|
        && HeadProduces(p, pred, rule, nu, values)
        && forall i | 0 <= i < |rule.body| :: LitTrue(p, pred.theory, rule.body[i], nu);
      assert Derives(p, pred, rule, nu, values);
    }
  }

  // ---------------------------------------------------------------------------
  // Where literals are looked up

  /** Tables of another theory that end in + or - stand for updates of it and are kept where the literal is. */
  lemma UpdatesStay(theory: string, s: string, t: string)
    ensures Resolve(theory, Tablename(Some(s), t + "+", None)) == Pred(theory, s, t + "+", None)
    ensures Resolve(theory, Tablename(Some(s), t + "-", None)) == Pred(theory, s, t + "-", None)
  {
    assert (t + "+")[|t + "+"| - 1] == '+' && (t + "-")[|t + "-"| - 1] == '-';
  }

  /** All other tables of another theory are looked up there. */
  lemma OthersAreForeign(theory: string, s: string, t: string, c: char)
    requires c != '+' && c != '-'
    ensures Resolve(theory, Tablename(Some(s), t + [c], None)) == Pred(s, s, t + [c], None)
    ensures Resolve(theory, Tablename(Some(s), "", None)) == Pred(s, s, "", None)
  {
    assert (t + [c])[|t + [c]| - 1] == c;
  }

  /** So are neither tables without a theory nor those with a modal. */
  lemma LocalsStay(theory: string, s: Option<string>, t: string, m: string)
    ensures Resolve(theory, Tablename(None, t, None)) == Pred(theory, theory, t, None)
    ensures Resolve(theory, Tablename(s, t, Some(m))) == Pred(theory, s.GetOr(theory), t, Some(m))
  {}

  /** The rule is kept by the theory, has this head, and derives the values. */
  ghost predicate KeptAndDerives(p: Program, theory: string, s: string, t: string, rule: Rule, nu: Valuation,
                                 values: seq<Constant>)
    requires Nonrecursive(p)
  {
    && theory in p.theories && t in p.theories[theory] && rule in p.theories[theory][t]
    && rule.head.table.table == t && rule.head.table.modal == None
    && (rule.head.table.service == Some(s) || (rule.head.table.service == None && theory == s))
    && Values(rule.head.arguments, nu) == values && AllTrue(p, theory, rule.body, nu)
  }

  lemma HoldsIfKept(p: Program, theory: string, s: string, t: string, values: seq<Constant>)
    requires Nonrecursive(p)
    ensures Holds(p, Pred(theory, s, t, None), values) <==>
              exists rule: Rule, nu: Valuation :: KeptAndDerives(p, theory, s, t, rule, nu, values)
  {
    HoldsByRule(p, Pred(theory, s, t, None), values);
    forall rule: Rule, nu: Valuation
      ensures KeptAndDerives(p, theory, s, t, rule, nu, values) <==>
                Derives(p, Pred(theory, s, t, None), rule, nu, values)
    {}
  }

  /** An update of another theory is true if and only if a rule kept here, with that head, derives it. */
  lemma UpdateIsTrue(p: Program, theory: string, s: string, t: string, args: seq<Term>, nu: Valuation, sign: string)
    requires Nonrecursive(p) && (sign == "+" || sign == "-")
    requires var lit := Literal(Tablename(Some(s), t + sign, None), args, false); !IsBuiltin(p, lit)
    ensures LitTrue(p, theory, Literal(Tablename(Some(s), t + sign, None), args, false), nu) <==>
              exists rule: Rule, nu': Valuation ::
                KeptAndDerives(p, theory, s, t + sign, rule, nu', Values(args, nu))
  {
    UpdatesStay(theory, s, t);
    HoldsIfKept(p, theory, s, t + sign, Values(args, nu));
  }

  /** Any other table of another theory: if and only if a rule kept there derives it. */
  lemma ForeignIsTrue(p: Program, theory: string, s: string, t: string, c: char, args: seq<Term>, nu: Valuation)
    requires Nonrecursive(p) && c != '+' && c != '-'
    requires !IsBuiltin(p, Literal(Tablename(Some(s), t + [c], None), args, false))
    ensures LitTrue(p, theory, Literal(Tablename(Some(s), t + [c], None), args, false), nu) <==>
              exists rule: Rule, nu': Valuation ::
                KeptAndDerives(p, s, s, t + [c], rule, nu', Values(args, nu))
  {
    OthersAreForeign(theory, s, t, c);
    HoldsIfKept(p, s, s, t + [c], Values(args, nu));
  }

  /** The tables true and false mean what they say. */
  lemma TrueAndFalse(p: Program, theory: string, args: seq<Term>, nu: Valuation)
    requires Nonrecursive(p)
    ensures LitTrue(p, theory, Literal(Tablename(None, "true", None), args, false), nu)
    ensures !LitTrue(p, theory, Literal(Tablename(None, "false", None), args, false), nu)
  {}

  /** A builtin is true if and only if its code answers the outputs given for these inputs, or answers at all. */
  lemma BuiltinIsTrue(p: Program, theory: string, name: string, ins: seq<Term>, outs: seq<Term>, nu: Valuation)
    requires Nonrecursive(p) && name in p.builtins && name != "true" && name != "false"
    requires p.builtins[name].numInputs == |ins| && p.builtins[name].arity == |ins| + |outs|
    ensures LitTrue(p, theory, Literal(Tablename(None, name, None), ins + outs, false), nu) <==>
              (var answer := p.builtins[name].code(Values(ins, nu));
               answer.Some? && (outs != [] ==> answer.value == Values(outs, nu)))
  {
    var values := Values(ins + outs, nu);
    assert values[..|ins|] == Values(ins, nu) && values[|ins|..] == Values(outs, nu);
  }

  // ---------------------------------------------------------------------------
  // The model is unique

  type Interpretation = (Pred, seq<Constant>) -> bool

  ghost predicate LitTrueIn(p: Program, m: Interpretation, theory: string, lit: Literal, nu: Valuation) {
    var atom :=
      if IsTrueTable(lit) then true
      else if IsFalseTable(lit) then false
      else if IsBuiltin(p, lit) then BuiltinTrue(p, lit, nu)
      else m(Resolve(theory, lit.table), Values(lit.arguments, nu));
    atom != lit.negated
  }

  ghost predicate DerivesIn(p: Program, m: Interpretation, pred: Pred, rule: Rule, nu: Valuation,
                            values: seq<Constant>)
  {
    && HeadProduces(p, pred, rule, nu, values)
    && forall i | 0 <= i < |rule.body| :: LitTrueIn(p, m, pred.theory, rule.body[i], nu)
  }

  /** An atom is true in `m` exactly when some rule derives it from what else is true in `m`. */
  ghost predicate IsModel(p: Program, m: Interpretation) {
    forall pred, values ::
      m(pred, values) <==> exists rule: Rule, nu: Valuation :: DerivesIn(p, m, pred, rule, nu, values)
  }

  lemma HoldsIsAModel(p: Program)
    requires Nonrecursive(p)
    ensures IsModel(p, (pred, values) => Holds(p, pred, values))
  {
    var m: Interpretation := (pred, values) => Holds(p, pred, values);
    forall pred, values
      ensures m(pred, values) <==> exists rule: Rule, nu: Valuation :: DerivesIn(p, m, pred, rule, nu, values)
    {
      forall rule: Rule, nu: Valuation
        ensures DerivesIn(p, m, pred, rule, nu, values) <==> Derives(p, pred, rule, nu, values)
      {
        assert forall i | 0 <= i < |rule.body| ::
            LitTrueIn(p, m, pred.theory, rule.body[i], nu) <==> LitTrue(p, pred.theory, rule.body[i], nu);
      }
      assert m(pred, values) == Holds(p, pred, values);
      HoldsByRule(p, pred, values);
    }
  }

  lemma {:induction false} ModelIsUnique(p: Program, m: Interpretation, pred: Pred, values: seq<Constant>)
    requires Nonrecursive(p) && IsModel(p, m)
    ensures m(pred, values) <==> Holds(p, pred, values)
    decreases p.rank(pred)
  {
    HoldsByRule(p, pred, values);
    forall rule: Rule, nu: Valuation
      ensures DerivesIn(p, m, pred, rule, nu, values) <==> Derives(p, pred, rule, nu, values)
    {
      if rule in Rules(p, pred.theory, pred.table) && HeadPred(pred.theory, rule.head.table) == pred {
        forall i | 0 <= i < |rule.body|
          ensures LitTrueIn(p, m, pred.theory, rule.body[i], nu) <==> LitTrue(p, pred.theory, rule.body[i], nu)
        {
          var lit := rule.body[i];
          assert LitRank(p, pred.theory, lit) <= p.rank(pred);
          if !IsSpecial(p, lit) {
            ModelIsUnique(p, m, Resolve(pred.theory, lit.table), Values(lit.arguments, nu));
          }
        }
      }
    }
  }
}
