/**
 Top-down evaluation: backtracking search over destructively updated unifiers.

 Contexts form a stack through their `previous` fields; the index of each is moved
 forward and back as the search proceeds. Every routine leaves all of this as it found it
 and only appends to the results of its caller.
 */
module TopDown {
  import opened Syntax
  import opened Unify
  import opened Semantics
  import opened Safety
  import opened SearchSpec
  import opened SearchStack
  import opened SearchState

  /** The terms with the bindings applied, as far as these go. */
  method Plug(terms: seq<Term>, binding: BiUnifier, ghost registry: Registry) returns (plugged: seq<Term>)
    requires registry.Valid() && registry.Registered(binding) && Acyclic(registry.store)
    ensures |plugged| == |terms|
    ensures forall i | 0 <= i < |terms| :: IsPlugged(plugged[i], RootOf(registry.store, terms[i], binding.id))
  {
    hide Memory.Valid, Acyclic, Root;
    plugged := [];
    for i := 0 to |terms|
      invariant |plugged| == i
      invariant forall j | 0 <= j < i :: IsPlugged(plugged[j], RootOf(registry.store, terms[j], binding.id))
    {
      var term, _ := binding.ApplyFull(terms[i], registry);
      plugged := plugged + [term];
    }
  }

  /** The caller's variables with what they are bound to now. */
  method Flatten(caller: TopDownCaller, ghost registry: Registry) returns (answer: Answer)
    requires registry.Valid() && registry.Registered(caller.binding) && Acyclic(registry.store)
    ensures IsFlattened(answer, caller.variables, caller.binding.id, registry.store)
  {
    hide Memory.Valid, Acyclic, Root;
    answer := map[];
    for i := 0 to |caller.variables|
      invariant IsFlattened(answer, caller.variables[..i], caller.binding.id, registry.store)
    {
      var x := caller.variables[i];
      var term, _ := caller.binding.ApplyFull(Variable(x), registry);
      answer := answer[x := term];
      assert caller.variables[..i + 1] == caller.variables[..i] + [x];
    }
    assert caller.variables[..|caller.variables|] == caller.variables;
  }

  /** Takes back the bindings made since the memory `m1`, once everything done after them has been undone. */
  method Backtrack(changes: seq<Undo>, ghost registry: Registry, ghost m0: Memory, ghost m1: Memory, ghost m2: Memory,
                   ghost results: seq<Answer>, ghost context: TopDownContext?, ghost caller: TopDownCaller,
                   ghost chain: seq<TopDownContext>, ghost frames: seq<Frame>, ghost answers: seq<Answer>)
    requires m1.Valid() && Kept(m0, m1) && TakesBack(m1, changes, m2)
    requires Restored(m2, results, context, caller, registry, chain, frames, answers)
    modifies registry.Objects(), registry`store
    ensures registry.units == old(registry.units)
    ensures Restored(m0, results, context, caller, registry, chain, frames, answers)
  {
    hide Memory.Valid, Kept, TakesBack, Stacked, Registry.Snapshot;
    TakesBackKept(m1, changes, m2, registry.Snapshot());
    UndoAll(changes, registry, m1);
    assert Stacked(context, chain, frames);
    RestoredSince(m0, m1, results, context, caller, registry, chain, frames, answers);
  }

  /** Continues once the current literal is proved: with the next one, or where the context was called from. */
  method TopDownFinish(p: Program, context: TopDownContext?, caller: TopDownCaller,
                       ghost registry: Registry, ghost chain: seq<TopDownContext>, ghost frames: seq<Frame>)
    returns (found: bool, ghost answers: seq<Answer>)
    requires Ready(p, registry.Snapshot(), context, caller, chain, frames)
    requires CurrentGround(frames, registry.store)
    modifies chain, caller, registry, registry.Objects()
    ensures Restored(old(registry.Snapshot()), old(caller.results), context, caller, registry, chain, frames, answers)
    ensures OnlyNew(registry)
    ensures Delivers(FinishSolutions(p, frames, old(registry.store)), caller, frames, old(registry.store),
                     found, answers)
    decreases AfterWeight(p, frames), |frames|, 2, 1
  {
    hide Memory.Valid, Acyclic, Root, SafeStack, SafeProgram, Nonrecursive, Delivers, CurrentGround, AfterTrue, LitTrue,
         Kept, Registry.Snapshot;
    ghost var s, m := registry.store, registry.Snapshot();
    if context == null {
      KeptIsReflexive(m);
      var answer := Flatten(caller, registry);
      caller.results := caller.results + [answer];
      found, answers := true, [answer];
      FlattenedAnswer(p, caller, s, answer);
    } else if context.literalIndex < |context.literals| - 1 {
      found, answers := TopDownNext(p, context, caller, registry, chain, frames);
    } else {
      SafeToReturn(p, frames, caller.variables, caller.binding.id, s);
      ReadyTail(p, m, context, caller, chain, frames);
      found, answers := TopDownFinish(p, context.previous, caller, registry, chain[1..], frames[1..]);
      ReturnDelivers(p, caller, frames, s, found, answers);
      assert Stacked(context, chain, frames);
    }
  }

  /** Moves the index to the next literal for as long as that is being evaluated. */
  method TopDownNext(p: Program, context: TopDownContext, caller: TopDownCaller,
                     ghost registry: Registry, ghost chain: seq<TopDownContext>, ghost frames: seq<Frame>)
    returns (found: bool, ghost answers: seq<Answer>)
    requires Ready(p, registry.Snapshot(), context, caller, chain, frames)
    requires CurrentGround(frames, registry.store) && context.literalIndex + 1 < |context.literals|
    modifies chain, caller, registry, registry.Objects()
    ensures Restored(old(registry.Snapshot()), old(caller.results), context, caller, registry, chain, frames, answers)
    ensures OnlyNew(registry)
    ensures Delivers(FinishSolutions(p, frames, old(registry.store)), caller, frames, old(registry.store),
                     found, answers)
    decreases AfterWeight(p, frames), |frames|, 2, 0
  {
    hide Memory.Valid, Acyclic, Root, SafeStack, SafeProgram, Nonrecursive, Delivers, CurrentGround, AfterTrue, LitTrue,
         Kept, Registry.Snapshot;
    ghost var s, m := registry.store, registry.Snapshot();
    SafeToAdvance(p, frames, s);
    AdvanceWeight(p, frames);
    context.literalIndex := context.literalIndex + 1;
    assert registry.Snapshot() == m;
    assert Stacked(context, chain, Advance(frames));
    found, answers := TopDownEval(p, context.theory, context, caller, registry, chain, Advance(frames));
    ghost var m' := registry.Snapshot();
    context.literalIndex := context.literalIndex - 1;
    assert registry.Snapshot() == m';
    assert Stacked(context, chain, frames) && OnlyNew(registry);
    AdvanceDelivers(p, caller, frames, s, found, answers);
  }

  /** Evaluates the current literal, and whatever comes after it, in the given theory. */
  method TopDownEval(p: Program, theory: string, context: TopDownContext, caller: TopDownCaller,
                     ghost registry: Registry, ghost chain: seq<TopDownContext>, ghost frames: seq<Frame>)
    returns (found: bool, ghost answers: seq<Answer>)
    requires Ready(p, registry.Snapshot(), context, caller, chain, frames) && HasCurrent(frames)
    modifies chain, caller, registry, registry.Objects()
    ensures Restored(old(registry.Snapshot()), old(caller.results), context, caller, registry, chain, frames, answers)
    ensures OnlyNew(registry)
    ensures Delivers(EvalSolutions(p, theory, Current(frames), frames, old(registry.store)), caller,
                     frames, old(registry.store), found, answers)
    decreases LitWeight(p, theory, Current(frames)) + AfterWeight(p, frames), |frames|,
              if IsForeign(theory, Current(frames).table) then 1 else 0, 3
  {
    hide Memory.Valid, Acyclic, Root, SafeStack, SafeProgram, Nonrecursive, Delivers, CurrentGround, AfterTrue, LitTrue,
         Kept, Registry.Snapshot;
    var lit := context.literals[context.literalIndex];
    ghost var s, m := registry.store, registry.Snapshot();
    if lit.negated {
      found, answers := TopDownNegation(p, theory, context, caller, registry, chain, frames);
    } else if IsTrueTable(lit) {
      ConstantTableSolutions(p, theory, lit, frames, s);
      ConstantTableIsGround(p, frames, s);
      found, answers := TopDownFinish(p, context, caller, registry, chain, frames);
    } else if IsFalseTable(lit) {
      ConstantTableSolutions(p, theory, lit, frames, s);
      DeliversNothing(EvalSolutions(p, theory, lit, frames, s), caller, frames, s);
      KeptIsReflexive(m);
      found, answers := false, [];
    } else if IsBuiltin(p, lit) {
      found, answers := TopDownBuiltin(p, theory, context, caller, registry, chain, frames);
    } else if IsForeign(theory, lit.table) {
      found, answers := TopDownModule(p, theory, context, caller, registry, chain, frames);
    } else {
      found, answers := TopDownTheory(p, theory, context, caller, registry, chain, frames);
    }
  }

  /** Negation as failure: true when the search for the complement finds nothing. */
  method TopDownNegation(p: Program, theory: string, context: TopDownContext, caller: TopDownCaller,
                         ghost registry: Registry, ghost chain: seq<TopDownContext>, ghost frames: seq<Frame>)
    returns (found: bool, ghost answers: seq<Answer>)
    requires Ready(p, registry.Snapshot(), context, caller, chain, frames) && HasCurrent(frames)
    requires Current(frames).negated
    modifies chain, caller, registry, registry.Objects()
    ensures Restored(old(registry.Snapshot()), old(caller.results), context, caller, registry, chain, frames, answers)
    ensures OnlyNew(registry)
    ensures Delivers(EvalSolutions(p, theory, Current(frames), frames, old(registry.store)), caller,
                     frames, old(registry.store), found, answers)
    decreases LitWeight(p, theory, Current(frames)) + AfterWeight(p, frames), |frames|,
              if IsForeign(theory, Current(frames).table) then 1 else 0, 2
  {
    hide Memory.Valid, Acyclic, Root, SafeStack, SafeProgram, Nonrecursive, Delivers, CurrentGround, AfterTrue, LitTrue,
         Kept, Registry.Snapshot, Stacked;
    TopFrame(context, chain, frames);
    ghost var s, m := registry.store, registry.Snapshot();
    NegationIsSafe(p, frames, theory, s);
    var refuted := TopDownComplement(p, theory, context, caller, registry, chain, frames);
    ghost var m1 := registry.Snapshot();
    assert OnlyNew(registry) && Stacked(context, chain, frames);
    if refuted {
      DeliversNothing(EvalSolutions(p, theory, Current(frames), frames, s), caller, frames, s);
      return false, [];
    }
    ReadyStill(p, m, m1, context, caller, chain, frames);
    found, answers := TopDownFinish(p, context, caller, registry, chain, frames);
    RestoredSince(m, m1, old(caller.results), context, caller, registry, chain, frames, answers);
  }

  /** Searches for one proof of the complement, with a caller of its own. */
  method TopDownComplement(p: Program, theory: string, context: TopDownContext, caller: TopDownCaller,
                           ghost registry: Registry, ghost chain: seq<TopDownContext>, ghost frames: seq<Frame>)
    returns (refuted: bool)
    requires Ready(p, registry.Snapshot(), context, caller, chain, frames) && HasCurrent(frames)
    requires Current(frames).negated
    modifies registry, registry.Objects()
    ensures registry.Valid() && Kept(old(registry.Snapshot()), registry.Snapshot())
    ensures registry.store == old(registry.store) && OnlyNew(registry)
    ensures EvalSolutions(p, theory, Current(frames), frames, old(registry.store)) ==
            if refuted then iset{} else FinishSolutions(p, frames, old(registry.store))
    decreases LitWeight(p, theory, Current(frames)) + AfterWeight(p, frames), |frames|,
              if IsForeign(theory, Current(frames).table) then 1 else 0, 1
  {
    hide Memory.Valid, Acyclic, Root, SafeStack, SafeProgram, Nonrecursive, Delivers, CurrentGround, AfterTrue, LitTrue,
         Kept, Registry.Snapshot, Stacked;
    TopFrame(context, chain, frames);
    var lit := context.literals[context.literalIndex];
    ghost var s, m := registry.store, registry.Snapshot();
    ghost var frame := NegationFrame(lit, context.binding.id, theory);
    NegationIsSafe(p, frames, theory, s);
    var plugged := Plug(lit.arguments, context.binding, registry);
    PluggedIsGround(plugged, lit.arguments, context.binding.id, s);
    assert forall i | 0 <= i < |plugged| :: plugged[i].ObjectConstant?;
    var newContext := new TopDownContext([lit.Complement()], 0, context.binding, null, theory, context.depth + 1);
    var newCaller := new TopDownCaller(caller.variables, caller.binding, false);
    StackedNothing();
    StackedPush(newContext, [], []);
    assert [newContext] + [] == [newContext] && [frame] + [] == [frame];
    assert registry.Snapshot() == m;
    NegationWeight(p, theory, lit, context.binding.id, frames);
    var triedFound: bool;
    ghost var tried;
    triedFound, tried := TopDownEval(p, theory, newContext, newCaller, registry, [newContext], [frame]);
    NegationDelivers(p, theory, lit, frames, s, newCaller, triedFound, tried);
    refuted := |newCaller.results| > 0;
  }

  method TopDownBuiltin(p: Program, theory: string, context: TopDownContext, caller: TopDownCaller,
                        ghost registry: Registry, ghost chain: seq<TopDownContext>, ghost frames: seq<Frame>)
    returns (found: bool, ghost answers: seq<Answer>)
    requires Ready(p, registry.Snapshot(), context, caller, chain, frames) && HasCurrent(frames)
    requires var lit := Current(frames);
             !lit.negated && IsBuiltin(p, lit) && !IsTrueTable(lit) && !IsFalseTable(lit)
    modifies chain, caller, registry, registry.Objects()
    ensures Restored(old(registry.Snapshot()), old(caller.results), context, caller, registry, chain, frames, answers)
    ensures OnlyNew(registry)
    ensures Delivers(EvalSolutions(p, theory, Current(frames), frames, old(registry.store)), caller,
                     frames, old(registry.store), found, answers)
    decreases LitWeight(p, theory, Current(frames)) + AfterWeight(p, frames), |frames|,
              if IsForeign(theory, Current(frames).table) then 1 else 0, 2
  {
    hide Memory.Valid, Acyclic, Root, SafeStack, SafeProgram, Nonrecursive, Delivers, CurrentGround, AfterTrue, LitTrue,
         Kept, Registry.Snapshot, Stacked;
    TopFrame(context, chain, frames);
    var lit := context.literals[context.literalIndex];
    var built := p.builtins[lit.table.table];
    ghost var s, m := registry.store, registry.Snapshot();
    BuiltinIsSafe(p, frames, s);
    var plugged := Plug(lit.arguments, context.binding, registry);
    PluggedInputsAreGround(plugged, lit.arguments, built.numInputs, context.binding.id, s);
    var args := [];
    for i := 0 to built.numInputs
      invariant |args| == i
      invariant forall j | 0 <= j < i ::
                  RootOf(registry.store, lit.arguments[j], context.binding.id) == Const(args[j])
    {
      assert plugged[i].ObjectConstant?;
      args := args + [plugged[i].value];
    }
    var result := built.code(args);
    if result.None? {
      BuiltinFails(p, theory, frames, s, args);
      DeliversNothing(EvalSolutions(p, theory, lit, frames, s), caller, frames, s);
      KeptIsReflexive(m);
      return false, [];
    }
    if built.numInputs < built.arity {
      found, answers := TopDownOutputs(p, theory, result.value, args, context, caller, registry, chain, frames);
    } else {
      BuiltinTestSolutions(p, theory, frames, s, args);
      GroundByTest(p, frames, s);
      found, answers := TopDownFinish(p, context, caller, registry, chain, frames);
    }
  }

  /** Unifies the outputs of a builtin with its remaining arguments. */
  method TopDownOutputs(p: Program, theory: string, outputs: seq<Constant>, ghost args: seq<Constant>,
                        context: TopDownContext, caller: TopDownCaller,
                        ghost registry: Registry, ghost chain: seq<TopDownContext>, ghost frames: seq<Frame>)
    returns (found: bool, ghost answers: seq<Answer>)
    requires Ready(p, registry.Snapshot(), context, caller, chain, frames) && HasCurrent(frames)
    requires BuiltinCalled(p, frames, registry.store, args, outputs)
    modifies chain, caller, registry, registry.Objects()
    ensures Restored(old(registry.Snapshot()), old(caller.results), context, caller, registry, chain, frames, answers)
    ensures OnlyNew(registry)
    ensures Delivers(EvalSolutions(p, theory, Current(frames), frames, old(registry.store)), caller,
                     frames, old(registry.store), found, answers)
    decreases LitWeight(p, theory, Current(frames)) + AfterWeight(p, frames), |frames|,
              if IsForeign(theory, Current(frames).table) then 1 else 0, 1
  {
    hide Memory.Valid, Acyclic, Root, SafeStack, SafeProgram, Nonrecursive, Delivers, CurrentGround, AfterTrue, LitTrue,
         Kept, Registry.Snapshot, Stacked;
    TopFrame(context, chain, frames);
    hide Unified, Unifiable, TakesBack;
    var lit := context.literals[context.literalIndex];
    var rest := OutputArguments(p, lit);
    ghost var s, m := registry.store, registry.Snapshot();
    var unifier := NewBiUnifier(registry);
    ghost var m1 := registry.Snapshot();
    assert OnlyNew(registry);
    ReadyStill(p, m, m1, context, caller, chain, frames);
    var undo := BiUnifyLists(ResultTerms(outputs), unifier, rest, context.binding, registry);
    if undo.None? {
      OutputsClash(p, theory, frames, s, args, outputs, unifier.id);
      DeliversNothing(EvalSolutions(p, theory, lit, frames, s), caller, frames, s);
      return false, [];
    }
    ghost var m2, s2 := registry.Snapshot(), registry.store;
    ReadyAfterOutputs(p, theory, m1, m2, context, caller, chain, frames, args, outputs, unifier.id);
    found, answers := TopDownFinish(p, context, caller, registry, chain, frames);
    assert OnlyNew(registry);
    DeliversBefore(EvalSolutions(p, theory, lit, frames, s), caller, frames, s, s2, found, answers);
    Backtrack(undo.value, registry, m, m1, m2, old(caller.results), context, caller, chain, frames, answers);
  }

  /** Moves to the theory that the literal names. */
  method TopDownModule(p: Program, theory: string, context: TopDownContext, caller: TopDownCaller,
                       ghost registry: Registry, ghost chain: seq<TopDownContext>, ghost frames: seq<Frame>)
    returns (found: bool, ghost answers: seq<Answer>)
    requires Ready(p, registry.Snapshot(), context, caller, chain, frames) && HasCurrent(frames)
    requires var lit := Current(frames);
             !lit.negated && !IsSpecial(p, lit) && IsForeign(theory, lit.table)
    modifies chain, caller, registry, registry.Objects()
    ensures Restored(old(registry.Snapshot()), old(caller.results), context, caller, registry, chain, frames, answers)
    ensures OnlyNew(registry)
    ensures Delivers(EvalSolutions(p, theory, Current(frames), frames, old(registry.store)), caller,
                     frames, old(registry.store), found, answers)
    decreases LitWeight(p, theory, Current(frames)) + AfterWeight(p, frames), |frames|,
              1, 2
  {
    hide Memory.Valid, Acyclic, Root, SafeStack, SafeProgram, Nonrecursive, Delivers, CurrentGround, AfterTrue, LitTrue,
         Kept, Registry.Snapshot, Stacked;
    TopFrame(context, chain, frames);
    var lit := context.literals[context.literalIndex];
    var service := lit.table.service.value;
    ghost var s, m := registry.store, registry.Snapshot();
    if service !in p.theories {
      MissingTheory(p, theory, lit, frames, s);
      DeliversNothing(EvalSolutions(p, theory, lit, frames, s), caller, frames, s);
      KeptIsReflexive(m);
      return false, [];
    }
    ModuleSolutions(p, theory, lit, frames, s);
    found, answers := TopDownEval(p, service, context, caller, registry, chain, frames);
  }

  /** Tries the theory's own rules for the table, one after the other. */
  method TopDownTheory(p: Program, theory: string, context: TopDownContext, caller: TopDownCaller,
                       ghost registry: Registry, ghost chain: seq<TopDownContext>, ghost frames: seq<Frame>)
    returns (found: bool, ghost answers: seq<Answer>)
    requires Ready(p, registry.Snapshot(), context, caller, chain, frames) && HasCurrent(frames)
    requires var lit := Current(frames);
             !lit.negated && !IsSpecial(p, lit) && !IsForeign(theory, lit.table)
    modifies chain, caller, registry, registry.Objects()
    ensures Restored(old(registry.Snapshot()), old(caller.results), context, caller, registry, chain, frames, answers)
    ensures OnlyNew(registry)
    ensures Delivers(EvalSolutions(p, theory, Current(frames), frames, old(registry.store)), caller,
                     frames, old(registry.store), found, answers)
    decreases LitWeight(p, theory, Current(frames)) + AfterWeight(p, frames), |frames|,
              0, 2
  {
    hide Memory.Valid, Acyclic, Root, SafeStack, SafeProgram, Nonrecursive, Delivers, CurrentGround, AfterTrue, LitTrue,
         Kept, Registry.Snapshot, Stacked;
    TopFrame(context, chain, frames);
    var lit := context.literals[context.literalIndex];
    ghost var s, m := registry.store, registry.Snapshot();
    ghost var pred := Resolve(theory, lit.table);
    var plugged := Plug(lit.arguments, context.binding, registry);
    var candidates := HeadIndex(Rules(p, theory, lit.table.table), plugged);
    CandidateSolutions(p, theory, frames, s, plugged);
    found, answers := false, [];
    KeptIsReflexive(m);
    NoCandidates(p, pred, candidates, lit, caller, frames, s);
    for i := 0 to |candidates|
      invariant Restored(m, old(caller.results), context, caller, registry, chain, frames, answers)
      invariant OnlyNew(registry)
      invariant Delivers(SomeRuleSolutions(p, pred, candidates[..i], lit, frames, s), caller, frames, s, false, answers)
    {
      ghost var before, m1 := answers, registry.Snapshot();
      ghost var more;
      ReadyStill(p, m, m1, context, caller, chain, frames);
      found, more := TopDownRule(p, theory, candidates[i], context, caller, registry, chain, frames);
      answers := answers + more;
      RestoredMore(m, m1, old(caller.results), before, context, caller, registry, chain, frames, more);
      NextRuleDelivers(p, pred, candidates, i, lit, caller, frames, s, before, found, more);
      if found && !caller.findAll {
        FoundDelivers(p, pred, candidates, i + 1, lit, caller, frames, s, answers);
        return;
      }
    }
    found := false;
    assert candidates[..|candidates|] == candidates;
  }

  /** Tries to prove the current literal by one rule, in a unifier of its own. */
  method TopDownRule(p: Program, theory: string, rule: Rule, context: TopDownContext, caller: TopDownCaller,
                     ghost registry: Registry, ghost chain: seq<TopDownContext>, ghost frames: seq<Frame>)
    returns (found: bool, ghost answers: seq<Answer>)
    requires Ready(p, registry.Snapshot(), context, caller, chain, frames) && HasCurrent(frames)
    requires var lit := Current(frames);
             && !lit.negated && !IsSpecial(p, lit) && !IsForeign(theory, lit.table)
             && rule in Rules(p, theory, lit.table.table)
    modifies chain, caller, registry, registry.Objects()
    ensures Restored(old(registry.Snapshot()), old(caller.results), context, caller, registry, chain, frames, answers)
    ensures OnlyNew(registry)
    ensures Delivers(RuleSolutions(p, Resolve(theory, Current(frames).table), rule, Current(frames), frames,
                                   old(registry.store)), caller, frames, old(registry.store), found, answers)
    decreases LitWeight(p, theory, Current(frames)) + AfterWeight(p, frames), |frames|,
              0, 1
  {
    hide Memory.Valid, Acyclic, Root, SafeStack, SafeProgram, Nonrecursive, Delivers, CurrentGround, AfterTrue, LitTrue,
         Kept, Registry.Snapshot, Stacked;
    TopFrame(context, chain, frames);
    hide Unified, Unifiable, TakesBack;
    var lit := context.literals[context.literalIndex];
    ghost var s, m := registry.store, registry.Snapshot();
    ghost var pred := Resolve(theory, lit.table);
    var unifier := NewBiUnifier(registry);
    ghost var m1 := registry.Snapshot();
    assert OnlyNew(registry);
    ReadyStill(p, m, m1, context, caller, chain, frames);
    var undo := BiUnifyAtoms(rule.head, unifier, lit, context.binding, theory, registry);
    if undo.None? {
      NoMatchDelivers(p, theory, rule, m, context, caller, chain, frames);
      return false, [];
    }
    ghost var m2, s2 := registry.Snapshot(), registry.store;
    ReadyAfterUnifying(p, theory, rule, m1, m2, context, caller, chain, frames, unifier.id);
    found, answers := TopDownBody(p, theory, rule, unifier, context, caller, registry, chain, frames);
    assert OnlyNew(registry);
    RuleDelivers(p, theory, rule, m, s2, context, caller, chain, frames, found, answers);
    Backtrack(undo.value, registry, m, m1, m2, old(caller.results), context, caller, chain, frames, answers);
  }

  /** Proves the body of a rule whose head has been unified with the current literal. */
  method TopDownBody(p: Program, theory: string, rule: Rule, unifier: BiUnifier,
                     context: TopDownContext, caller: TopDownCaller,
                     ghost registry: Registry, ghost chain: seq<TopDownContext>, ghost frames: seq<Frame>)
    returns (found: bool, ghost answers: seq<Answer>)
    requires Ready(p, registry.Snapshot(), context, caller, chain, frames) && registry.Registered(unifier)
    requires ReadyToProve(p, theory, rule, unifier.id, frames, registry.store)
    modifies chain, caller, registry, registry.Objects()
    ensures Restored(old(registry.Snapshot()), old(caller.results), context, caller, registry, chain, frames, answers)
    ensures OnlyNew(registry)
    ensures Delivers(BodySolutions(p, rule.body, unifier.id, theory, frames, old(registry.store)), caller, frames,
                     old(registry.store), found, answers)
    decreases LitWeight(p, theory, Current(frames)) + AfterWeight(p, frames), |frames|, 0, 0
  {
    hide Memory.Valid, Acyclic, Root, SafeStack, SafeProgram, Nonrecursive, Delivers, CurrentGround, AfterTrue, LitTrue,
         Kept, Registry.Snapshot, Stacked;
    TopFrame(context, chain, frames);
    ghost var s, m := registry.store, registry.Snapshot();
    if |rule.body| == 0 {
      found, answers := TopDownFinish(p, context, caller, registry, chain, frames);
      FactDelivers(p, theory, rule, unifier.id, s, caller, frames, found, answers);
    } else {
      var newContext := new TopDownContext(rule.body, 0, unifier, context, theory, context.depth + 1);
      ghost var callee := Frame(rule.body, 0, unifier.id, theory);
      StackedPush(newContext, chain, frames);
      assert registry.Snapshot() == m;
      ReadyAfterCall(p, theory, rule, m, newContext, caller, chain, frames);
      found, answers := TopDownEval(p, theory, newContext, caller, registry, [newContext] + chain, [callee] + frames);
      StackedPop(newContext, chain, callee, frames);
      CallDelivers(p, theory, rule, unifier.id, s, caller, frames, found, answers);
    }
  }
}
