/**
 * The flow bookkeeping of Gera's type checker
 * (compiler/src/frontend/type_checking.rs): which variables are visible and
 * initialised, which are captured, which accesses are errors, whether a block
 * sometimes or always returns, how branches re-initialise variables, and how
 * errors of whole modules are collected.
 *
 * Type inference itself (type groups, `limit_possible_types`, duplications)
 * is not part of this model: nodes carry no types and every type assertion is
 * taken to succeed.
 */
module TypeChecking {
  import opened Wrappers

  /** An interned identifier (`StringIdx`). */
  type Name = nat

  /** A namespace path (`NamespacePath`): the segments of a symbol's name. */
  type Path = seq<nat>

  /** `(SometimesReturns, AlwaysReturns)` of a node or block. */
  datatype Returns = Returns(sometimes: bool, always: bool)

  const NeverReturns := Returns(false, false)

  /** OR of two flag pairs, as `type_check_nodes` accumulates them. */
  function Or(a: Returns, b: Returns): Returns
  {
    Returns(a.sometimes || b.sometimes, a.always || b.always)
  }

  /** The flags of a set of alternative branches: some branch sometimes returns; every branch always returns. */
  function Combine(rs: seq<Returns>): Returns
  {
    Returns(exists i :: 0 <= i < |rs| && rs[i].sometimes,
            forall i :: 0 <= i < |rs| ==> rs[i].always)
  }

  /** What is known about a variable: whether it is mutable, and where it was declared. */
  datatype VarInfo = VarInfo(mutable: bool, source: nat)

  /**
   * The maps `type_check_node` threads through a body: initialised
   * `variables`, the names declared in the current `scope_variables`,
   * `uninitialized_variables`, and `captured_variables`.
   */
  datatype Env = Env(
    variables: map<Name, VarInfo>,
    scopeVariables: set<Name>,
    uninitialized: map<Name, VarInfo>,
    captured: set<Name>)

  datatype Error =
    | ImmutableAssignment(name: Name)
    | VariableWithoutValue(name: Name)
    | VariableDoesNotExist(name: Name)
    | InvalidParameterCount(path: Path, expected: nat, given: nat)
    | RecursiveConstant(path: Path)

  /** The outcome of checking something, with the maps and the symbol tables as they are afterwards. */
  datatype Step<+T> = Step(result: Result<T, Error>, env: Env, symbols: Symbols)

  /** The outcome of accessing a variable, with the maps afterwards. */
  datatype Access = Access(result: Result<VarInfo, Error>, env: Env)

  /** What a branch body leaves behind for `initalize_variables`. */
  datatype BranchState = BranchState(
    variables: map<Name, VarInfo>,
    uninitialized: map<Name, VarInfo>,
    flags: Returns)

  /** A parameter or variant binding: its name and declaration site. */
  datatype Binding = Binding(name: Name, source: nat)

  /**
   * The node kinds whose checking affects flow. Literals, `Module` and `Use`
   * are `Literal`; arithmetic, comparison and logical operators and obj,
   * arr and variant literals are `Operation` over their operands.
   */
  datatype Node =
    | Literal
    | ModuleAccess(path: Path)
    | VariableAccess(name: Name)
    | Variable(name: Name, mutable: bool, initial: Option<Node>, source: nat)
    | Assignment(variable: Node, value: Node)
    | Return(value: Node)
    | CaseCondition(condition: Node, body: seq<Node>, elseBody: seq<Node>)
    | CaseBranches(value: Node, branches: seq<Branch>, elseBody: seq<Node>)
    | CaseVariant(value: Node, variants: seq<VariantBranch>, variantElse: ElseBlock)
    | Call(called: Node, arguments: seq<Node>)
    | Operation(operands: seq<Node>)
    | ObjectAccess(obj: Node)
    | ArrayAccess(arr: Node, index: Node)

  /** The optional `else` of a `case` over variants. */
  datatype ElseBlock = NoElse | Else(block: seq<Node>)

  datatype Branch = Branch(matched: Node, branchBody: seq<Node>)

  datatype VariantBranch = VariantBranch(binding: Option<Binding>, variantBody: seq<Node>)

  datatype Symbol =
    | Procedure(parameters: seq<Binding>, procedureBody: seq<Node>)
    | Constant(constantValue: Node)

  /** What the flow check needs of a typed symbol: a procedure's parameter count. */
  datatype SymInfo = ProcInfo(arity: nat) | ConstInfo

  /**
   * The two symbol tables `type_check_symbol` works on: the symbols not yet
   * checked (`untyped_symbols`) and the typed ones (`symbols`).
   */
  datatype Symbols = Symbols(untyped: map<Path, CheckableSymbol>, typed: map<Path, SymInfo>)

  /** The outcome of `type_check_symbol`, with the symbol tables afterwards. */
  datatype Resolution = Resolution(result: Result<SymInfo, Error>, symbols: Symbols)

  // ---------------------------------------------------------------------------
  // Shape of well-formed input (guaranteed by the grammar checker)
  // ---------------------------------------------------------------------------

  /** An expression: declares nothing, assigns nothing, holds no statement. */
  predicate Simple(n: Node)
  {
    match n
    case Literal => true
    case ModuleAccess(_) => true
    case VariableAccess(_) => true
    case Call(called, arguments) => Simple(called) && AllSimple(arguments)
    case Operation(operands) => AllSimple(operands)
    case ObjectAccess(obj) => Simple(obj)
    case ArrayAccess(arr, index) => Simple(arr) && Simple(index)
    case _ => false
  }

  predicate AllSimple(ns: seq<Node>)
  {
    forall i :: 0 <= i < |ns| ==> Simple(ns[i])
  }

  /** Statements appear only in bodies; every value position holds an expression. */
  predicate WellFormed(n: Node)
  {
    match n
    case Variable(_, _, value, _) => value.None? || Simple(value.value)
    case Assignment(variable, value) => Simple(variable) && Simple(value)
    case Return(value) => Simple(value)
    case CaseCondition(condition, body, elseBody) =>
      Simple(condition) && AllWellFormed(body) && AllWellFormed(elseBody)
    case CaseBranches(value, branches, elseBody) =>
      Simple(value) && BranchesWellFormed(branches) && AllWellFormed(elseBody)
    case CaseVariant(value, variants, variantElse) =>
      Simple(value) && VariantsWellFormed(variants) &&
      (variantElse.Else? ==> AllWellFormed(variantElse.block))
    case _ => Simple(n)
  }

  predicate AllWellFormed(ns: seq<Node>)
  {
    forall i :: 0 <= i < |ns| ==> WellFormed(ns[i])
  }

  predicate BranchesWellFormed(bs: seq<Branch>)
  {
    forall i :: 0 <= i < |bs| ==> Simple(bs[i].matched) && AllWellFormed(bs[i].branchBody)
  }

  predicate VariantsWellFormed(vs: seq<VariantBranch>)
  {
    forall i :: 0 <= i < |vs| ==> AllWellFormed(vs[i].variantBody)
  }

  predicate WellFormedSymbol(s: Symbol)
  {
    match s
    case Procedure(_, body) => AllWellFormed(body)
    case Constant(value) => Simple(value)
  }

  /** A symbol as the grammar checker leaves it. */
  type CheckableSymbol = s: Symbol | WellFormedSymbol(s) witness Constant(Literal)

  // ---------------------------------------------------------------------------
  // Return flags, read off the syntax
  // ---------------------------------------------------------------------------

  /** Whether a node sometimes / always returns, independently of any checking. */
  function NodeReturns(n: Node): Returns
  {
    match n
    case Return(_) => Returns(true, true)
    case CaseCondition(_, body, elseBody) =>
      var b, e := BlockReturns(body), BlockReturns(elseBody);
      Returns(b.sometimes || e.sometimes, b.always && e.always)
    case CaseBranches(_, branches, elseBody) =>
      Combine(BranchesReturns(branches) + [BlockReturns(elseBody)])
    case CaseVariant(_, variants, variantElse) =>
      Combine(VariantsReturns(variants) +
              if variantElse.Else? then [BlockReturns(variantElse.block)] else [])
    case _ => NeverReturns
  }

  /** A block returns sometimes (always) iff one of its nodes does. */
  function BlockReturns(ns: seq<Node>): Returns
  {
    Returns(exists i :: 0 <= i < |ns| && NodeReturns(ns[i]).sometimes,
            exists i :: 0 <= i < |ns| && NodeReturns(ns[i]).always)
  }

  function BranchesReturns(bs: seq<Branch>): (rs: seq<Returns>)
    ensures |rs| == |bs|
    ensures forall i :: 0 <= i < |bs| ==> rs[i] == BlockReturns(bs[i].branchBody)
  {
    if bs == [] then [] else [BlockReturns(bs[0].branchBody)] + BranchesReturns(bs[1..])
  }

  function VariantsReturns(vs: seq<VariantBranch>): (rs: seq<Returns>)
    ensures |rs| == |vs|
    ensures forall i :: 0 <= i < |vs| ==> rs[i] == BlockReturns(vs[i].variantBody)
  {
    if vs == [] then [] else [BlockReturns(vs[0].variantBody)] + VariantsReturns(vs[1..])
  }

  // ---------------------------------------------------------------------------
  // Variable access and definite initialisation
  // ---------------------------------------------------------------------------

  /**
   * The `VariableAccess` arm: reading or (when `assignment`) writing `name`.
   * A name not declared in the current scope is recorded as captured, whatever
   * the outcome.
   */
  function AccessVariable(env: Env, name: Name, assignment: bool): (s: Access)
    ensures s.env.captured == if name in env.scopeVariables then env.captured else env.captured + {name}
    ensures s.env.scopeVariables == env.scopeVariables
    ensures s.result.Ok? <==>
      (name in env.variables && (!assignment || env.variables[name].mutable)) ||
      (name !in env.variables && name in env.uninitialized && assignment)
    ensures s.result.Err? && name in env.variables ==> s.result.error == ImmutableAssignment(name)
    ensures s.result.Err? && name !in env.variables && name in env.uninitialized ==>
      s.result.error == VariableWithoutValue(name)
    ensures s.result.Err? && name !in env.variables && name !in env.uninitialized ==>
      s.result.error == VariableDoesNotExist(name)
    ensures s.result.Ok? && name in env.variables ==> s.result.value == env.variables[name]
    ensures s.result.Ok? && name !in env.variables ==> s.result.value == env.uninitialized[name]
    ensures s.result.Ok? ==> name in s.env.variables && name !in s.env.uninitialized - env.variables.Keys
    ensures s.env.variables.Keys <= env.variables.Keys + {name}
    ensures name in env.variables ==> s.env.variables == env.variables && s.env.uninitialized == env.uninitialized
    ensures name !in env.variables && name in env.uninitialized ==>
      s.env.uninitialized == env.uninitialized - {name} &&
      s.env.variables == if assignment then env.variables[name := env.uninitialized[name]] else env.variables
  {
    var captured := if name in env.scopeVariables then env.captured else env.captured + {name};
    var env1 := env.(captured := captured);
    if name in env.variables then
      var info := env.variables[name];
      if assignment && !info.mutable then Access(Err(ImmutableAssignment(name)), env1)
      else Access(Ok(info), env1)
    else if name in env.uninitialized then
      var info := env.uninitialized[name];
      var env2 := env1.(uninitialized := env.uninitialized - {name});
      if assignment then Access(Ok(info), env2.(variables := env.variables[name := info]))
      else Access(Err(VariableWithoutValue(name)), env2)
    else
      Access(Err(VariableDoesNotExist(name)), env1)
  }

  /** After assigning an uninitialised mutable or immutable variable, reading it succeeds. */
  lemma AssignThenRead(env: Env, name: Name)
    requires name !in env.variables && name in env.uninitialized
    ensures AccessVariable(env, name, false).result == Err(VariableWithoutValue(name))
    ensures var w := AccessVariable(env, name, true);
      w.result.Ok? && AccessVariable(w.env, name, false).result == Ok(env.uninitialized[name])
  {
  }

  /** In every branch, `name` was either assigned or the branch always returns. */
  predicate AlwaysHasValue(name: Name, scopes: seq<BranchState>)
  {
    forall i :: 0 <= i < |scopes| ==> name in scopes[i].uninitialized ==> scopes[i].flags.always
  }

  /** Every variable still uninitialised before the branches is known to every branch. */
  predicate Covers(uninitialized: map<Name, VarInfo>, scopes: seq<BranchState>)
  {
    forall i, name :: 0 <= i < |scopes| && name in uninitialized ==>
      name in scopes[i].variables || name in scopes[i].uninitialized
  }

  /** The variables `initalize_variables` moves: those that have a value after every branch. */
  function Initialized(uninitialized: map<Name, VarInfo>, scopes: seq<BranchState>): set<Name>
  {
    set name | name in uninitialized && AlwaysHasValue(name, scopes)
  }

  /** `initalize_variables`, as a function of the maps: returns the new `(variables, uninitialized)`. */
  function Initialize(variables: map<Name, VarInfo>, uninitialized: map<Name, VarInfo>,
                      scopes: seq<BranchState>): (r: (map<Name, VarInfo>, map<Name, VarInfo>))
    requires Covers(uninitialized, scopes)
    ensures forall name :: name in uninitialized ==>
      (name in r.1 <==> !AlwaysHasValue(name, scopes)) &&
      (AlwaysHasValue(name, scopes) ==> name in r.0 && r.0[name] == uninitialized[name])
    ensures r.0.Keys == variables.Keys + Initialized(uninitialized, scopes)
    ensures r.1.Keys <= uninitialized.Keys
    ensures forall name :: name in r.1 ==> r.1[name] == uninitialized[name]
    ensures forall name :: name in variables && name !in Initialized(uninitialized, scopes) ==>
      r.0[name] == variables[name]
  {
    var moved := Initialized(uninitialized, scopes);
    (variables + Moved(uninitialized, moved), uninitialized - moved)
  }

  /** The entries of `uninitialized` for the given names. */
  function Moved(uninitialized: map<Name, VarInfo>, names: set<Name>): map<Name, VarInfo>
    requires names <= uninitialized.Keys
  {
    map name | name in names :: uninitialized[name]
  }

  /** One more name moved: one more entry. */
  lemma MovedAdd(uninitialized: map<Name, VarInfo>, names: set<Name>, name: Name)
    requires names <= uninitialized.Keys && name in uninitialized
    ensures Moved(uninitialized, names + {name}) == Moved(uninitialized, names)[name := uninitialized[name]]
  {
  }

  /** The inner loop of `initalize_variables`: does every branch that leaves `name` uninitialised always return? */
  method ScanBranches(name: Name, scopes: seq<BranchState>) returns (alwaysHasValue: bool)
    ensures alwaysHasValue <==> AlwaysHasValue(name, scopes)
  {
    alwaysHasValue := true;
    var i := 0;
    while i < |scopes|
      invariant 0 <= i <= |scopes|
      invariant alwaysHasValue ==> forall j :: 0 <= j < i ==> name in scopes[j].uninitialized ==> scopes[j].flags.always
      invariant !alwaysHasValue ==> !AlwaysHasValue(name, scopes)
    {
      if name in scopes[i].uninitialized {
        if !scopes[i].flags.always {
          alwaysHasValue := false;
          break;
        }
        i := i + 1;
        continue;
      }
      // here the variable has a value in this branch; its types are not modelled
      i := i + 1;
    }
  }

  /**
   * `initalize_variables`: for each uninitialised variable, scan the branches
   * in order; it stays uninitialised as soon as one branch leaves it without a
   * value and does not always return. The source panics on a variable a branch
   * does not know, hence `Covers`.
   */
  method InitalizeVariables(variables: map<Name, VarInfo>, uninitialized: map<Name, VarInfo>,
                            scopes: seq<BranchState>)
    returns (variables': map<Name, VarInfo>, uninitialized': map<Name, VarInfo>)
    requires Covers(uninitialized, scopes)
    ensures (variables', uninitialized') == Initialize(variables, uninitialized, scopes)
  {
    var names := uninitialized.Keys;
    ghost var done: set<Name> := {};
    variables', uninitialized' := variables, uninitialized;
    while names != {}
      invariant names + done == uninitialized.Keys && names !! done
      invariant variables' == variables + Moved(uninitialized, Initialized(uninitialized, scopes) * done)
      invariant uninitialized' == uninitialized - Initialized(uninitialized, scopes) * done
      decreases names
    {
      var name :| name in names;
      var alwaysHasValue := ScanBranches(name, scopes);
      assert alwaysHasValue <==> name in Initialized(uninitialized, scopes);
      names := names - {name};
      ghost var before := Initialized(uninitialized, scopes) * done;
      if alwaysHasValue {
        assert Initialized(uninitialized, scopes) * (done + {name}) == before + {name};
        MovedAdd(uninitialized, before, name);
        var info := uninitialized'[name];
        uninitialized' := uninitialized' - {name};
        variables' := variables'[name := info];
      } else {
        assert Initialized(uninitialized, scopes) * (done + {name}) == before;
      }
      done := done + {name};
    }
    assert done == uninitialized.Keys;
    assert Initialized(uninitialized, scopes) * done == Initialized(uninitialized, scopes);
  }

  // ---------------------------------------------------------------------------
  // Checking nodes
  // ---------------------------------------------------------------------------

  /** What a successful check may do to the maps: variables only gain names, none is forgotten. */
  predicate Grows(env: Env, env': Env)
  {
    env.variables.Keys <= env'.variables.Keys &&
    env.uninitialized.Keys <= env'.variables.Keys + env'.uninitialized.Keys &&
    env.captured <= env'.captured
  }

  /** An expression leaves the scope alone and initialises nothing unless it is an assignment target. */
  predicate KeepsScope(env: Env, env': Env, assignment: bool)
  {
    env'.scopeVariables == env.scopeVariables &&
    env'.uninitialized.Keys <= env.uninitialized.Keys &&
    (!assignment ==> env'.variables == env.variables && env'.uninitialized == env.uninitialized)
  }


  // ---------------------------------------------------------------------------
  // Symbol tables
  // ---------------------------------------------------------------------------

  /**
   * How a symbol that left `untyped` was registered: a procedure always, with
   * its parameter count (it is registered before its body is checked); a
   * constant, when it was not typed before, only as a constant.
   */
  predicate Registered(p: Path, s: Symbol, typed: map<Path, SymInfo>, typed': map<Path, SymInfo>)
  {
    match s
    case Procedure(ps, _) => p in typed' && typed'[p] == ProcInfo(|ps|)
    case Constant(_) => p !in typed && p in typed' ==> typed'[p] == ConstInfo
  }

  /**
   * What checking does to the symbol tables: symbols only ever leave
   * `untyped`, every symbol that leaves is registered as above, nothing else
   * becomes typed, and a typed symbol that was already checked keeps its entry.
   */
  predicate Progress(syms: Symbols, syms': Symbols)
  {
    var removed := syms.untyped.Keys - syms'.untyped.Keys;
    syms'.untyped.Keys <= syms.untyped.Keys &&
    syms'.untyped == syms.untyped - removed &&
    syms'.typed - removed == syms.typed - removed &&
    (forall p :: p in removed ==> Registered(p, syms.untyped[p], syms.typed, syms'.typed))
  }

  lemma ProgressTrans(a: Symbols, b: Symbols, c: Symbols)
    requires Progress(a, b) && Progress(b, c)
    ensures Progress(a, c)
  {
    var rab, rbc := a.untyped.Keys - b.untyped.Keys, b.untyped.Keys - c.untyped.Keys;
    var rac := a.untyped.Keys - c.untyped.Keys;
    assert rac == rab + rbc;
    assert c.untyped == a.untyped - rac;
    forall p | p !in rac
      ensures (p in c.typed <==> p in a.typed) && (p in c.typed ==> c.typed[p] == a.typed[p])
    {
      assert p !in rab && p !in rbc;
      assert (p in c.typed <==> p in (c.typed - rbc)) && (p in b.typed <==> p in (b.typed - rbc));
      assert (p in b.typed <==> p in (b.typed - rab)) && (p in a.typed <==> p in (a.typed - rab));
    }
    assert c.typed - rac == a.typed - rac;
    forall p | p in rac
      ensures Registered(p, a.untyped[p], a.typed, c.typed)
    {
      if p in rab {
        assert p !in rbc && (p in c.typed <==> p in (c.typed - rbc)) && (p in b.typed <==> p in (b.typed - rbc));
      } else {
        assert b.untyped[p] == a.untyped[p];
        assert p in a.typed <==> p in (a.typed - rab);
        assert p in b.typed <==> p in (b.typed - rab);
      }
    }
  }

  /** The lookup that ends `type_check_symbol`: a symbol that is not typed is a recursive constant. */
  function Lookup(syms: Symbols, path: Path): (c: Resolution)
    ensures c.symbols == syms
    ensures c.result.Ok? <==> path in syms.typed
    ensures c.result.Ok? ==> c.result.value == syms.typed[path]
    ensures c.result.Err? ==> c.result.error == RecursiveConstant(path)
  {
    Resolution(if path in syms.typed then Ok(syms.typed[path]) else Err(RecursiveConstant(path)), syms)
  }

  /** A procedure body starts from its parameters: immutable, initialised, in scope. */
  function ParameterEnv(ps: seq<Binding>): Env
  {
    Env(ParameterVariables(ps), set i | 0 <= i < |ps| :: ps[i].name, map[], {})
  }

  /** A symbol that was already out of `untyped` keeps its typed entry, or its absence. */
  lemma ProgressKeeps(syms: Symbols, syms': Symbols, path: Path)
    requires Progress(syms, syms') && path !in syms.untyped
    ensures path in syms'.typed <==> path in syms.typed
    ensures path in syms.typed ==> syms'.typed[path] == syms.typed[path]
  {
    var removed := syms.untyped.Keys - syms'.untyped.Keys;
    assert (path in syms'.typed <==> path in (syms'.typed - removed)) && (path in syms.typed <==> path in (syms.typed - removed));
  }

  /** Taking `path` out of `untyped` and registering it as `Registered` says. */
  lemma ProgressRegister(syms: Symbols, path: Path, typed': map<Path, SymInfo>)
    requires path in syms.untyped
    requires typed' - {path} == syms.typed - {path}
    requires Registered(path, syms.untyped[path], syms.typed, typed')
    ensures Progress(syms, Symbols(syms.untyped - {path}, typed'))
  {
    var syms' := Symbols(syms.untyped - {path}, typed');
    assert syms.untyped.Keys - syms'.untyped.Keys == {path};
  }

  /** Registering a symbol that an earlier step took out of `untyped`. */
  lemma ProgressRetype(syms: Symbols, syms': Symbols, path: Path, info: SymInfo)
    requires Progress(syms, syms') && path in syms.untyped && path !in syms'.untyped
    requires Registered(path, syms.untyped[path], syms.typed, syms'.typed[path := info])
    ensures Progress(syms, syms'.(typed := syms'.typed[path := info]))
  {
    var removed := syms.untyped.Keys - syms'.untyped.Keys;
    var typed' := syms'.typed[path := info];
    forall p | p !in removed
      ensures (p in typed' <==> p in syms.typed) && (p in typed' ==> typed'[p] == syms.typed[p])
    {
      assert (p in syms'.typed <==> p in (syms'.typed - removed)) && (p in syms.typed <==> p in (syms.typed - removed));
    }
    assert typed' - removed == syms.typed - removed;
  }

  /**
   * `type_check_symbol`: a symbol still in `untyped` is taken out and checked
   * on the spot; any other symbol is only looked up.
   */
  function CheckSymbol(syms: Symbols, path: Path): (c: Resolution)
    ensures Progress(syms, c.symbols)
    ensures path !in c.symbols.untyped
    ensures c.result.Ok? ==> path in c.symbols.typed && c.result.value == c.symbols.typed[path]
    ensures path !in syms.untyped ==> c == Lookup(syms, path)
    ensures path in syms.untyped && syms.untyped[path].Procedure? ==>
      path in c.symbols.typed && c.symbols.typed[path] == ProcInfo(|syms.untyped[path].parameters|)
    ensures path in syms.untyped && syms.untyped[path].Constant? && path !in syms.typed ==>
      (c.result.Ok? <==> path in c.symbols.typed)
    decreases syms.untyped.Keys, ModuleAccess(path), 1
  {
    if path in syms.untyped then
      if syms.untyped[path].Procedure? then CheckProcedure(syms, path) else CheckConstant(syms, path)
    else Lookup(syms, path)
  }

  /**
   * A procedure is registered before its body is checked, so a (mutually)
   * recursive call finds it, and it stays registered when its body fails.
   */
  function CheckProcedure(syms: Symbols, path: Path): (c: Resolution)
    requires path in syms.untyped && syms.untyped[path].Procedure?
    ensures Progress(syms, c.symbols)
    ensures path !in c.symbols.untyped
    ensures path in c.symbols.typed && c.symbols.typed[path] == ProcInfo(|syms.untyped[path].parameters|)
    ensures c.result.Ok? ==> c.result.value == ProcInfo(|syms.untyped[path].parameters|)
    decreases syms.untyped.Keys, ModuleAccess(path), 0
  {
    var ps := syms.untyped[path].parameters;
    var syms1 := Symbols(syms.untyped - {path}, syms.typed[path := ProcInfo(|ps|)]);
    ProgressRegister(syms, path, syms1.typed);
    var b := CheckNodes(syms1, ParameterEnv(ps), syms.untyped[path].procedureBody);
    ProgressTrans(syms, syms1, b.symbols);
    if b.result.Err? then Resolution(Err(b.result.error), b.symbols)
    else Lookup(b.symbols, path)
  }

  /**
   * A constant is registered only once its value checked, so a constant
   * whose value refers back to it, or whose check failed, is a
   * `RecursiveConstant` when looked up.
   */
  function CheckConstant(syms: Symbols, path: Path): (c: Resolution)
    requires path in syms.untyped && syms.untyped[path].Constant?
    ensures Progress(syms, c.symbols)
    ensures path !in c.symbols.untyped
    ensures c.result.Ok? ==> path in c.symbols.typed && c.result.value == c.symbols.typed[path]
    ensures path !in syms.typed ==> (c.result.Ok? <==> path in c.symbols.typed)
    decreases syms.untyped.Keys, ModuleAccess(path), 0
  {
    var value := syms.untyped[path].constantValue;
    SimpleIsWellFormed(value);
    var syms1 := Symbols(syms.untyped - {path}, syms.typed);
    ProgressRegister(syms, path, syms1.typed);
    var v := CheckNode(syms1, Env(map[], {}, map[], {}), value, false);
    ProgressTrans(syms, syms1, v.symbols);
    ProgressKeeps(syms1, v.symbols, path);
    if v.result.Err? then Resolution(Err(v.result.error), v.symbols)
    else
      ProgressRetype(syms, v.symbols, path, ConstInfo);
      Lookup(v.symbols.(typed := v.symbols.typed[path := ConstInfo]), path)
  }

  // ---------------------------------------------------------------------------
  // Checking nodes
  // ---------------------------------------------------------------------------

  /**
   * `type_check_node`, flow part. `assignment` is true for the target of an
   * assignment and is passed on to sub-expressions exactly where the source
   * passes it on. A module access checks the symbol it names on demand.
   */
  function CheckNode(syms: Symbols, env: Env, n: Node, assignment: bool): (s: Step<Returns>)
    requires WellFormed(n)
    ensures Progress(syms, s.symbols)
    ensures s.result.Ok? ==> s.result.value == NodeReturns(n) && Grows(env, s.env)
    ensures s.result.Ok? && Simple(n) ==> KeepsScope(env, s.env, assignment)
    ensures n.ModuleAccess? ==> var c := CheckSymbol(syms, n.path);
      s.env == env && s.symbols == c.symbols && (s.result.Ok? <==> c.result.Ok?) &&
      (s.result.Err? ==> s.result.error == c.result.error)
    decreases syms.untyped.Keys, n, 2
  {
    match n
    case Literal => Step(Ok(NeverReturns), env, syms)
    case ModuleAccess(path) =>
      var c := CheckSymbol(syms, path);
      Step(if c.result.Ok? then Ok(NeverReturns) else Err(c.result.error), env, c.symbols)
    case VariableAccess(name) =>
      var a := AccessVariable(env, name, assignment);
      Step(if a.result.Ok? then Ok(NeverReturns) else Err(a.result.error), a.env, syms)
    case Variable(_, _, _, _) => CheckDeclaration(syms, env, n, assignment)
    case Assignment(_, _) => CheckAssignment(syms, env, n, assignment)
    case Return(value) =>
      SimpleIsWellFormed(value);
      var v := CheckNode(syms, env, value, assignment);
      if v.result.Err? then v else Step(Ok(Returns(true, true)), v.env, v.symbols)
    case CaseCondition(_, _, _) => CheckCaseCondition(syms, env, n, assignment)
    case CaseBranches(_, _, _) => CheckCaseBranches(syms, env, n, assignment)
    case CaseVariant(_, _, _) => CheckCaseVariant(syms, env, n, assignment)
    case Call(_, _) => CheckCall(syms, env, n, assignment)
    case Operation(operands) => CheckAll(syms, env, operands, assignment)
    case ObjectAccess(obj) =>
      SimpleIsWellFormed(obj);
      var o := CheckNode(syms, env, obj, false);
      if o.result.Err? then o else Step(Ok(NeverReturns), o.env, o.symbols)
    case ArrayAccess(_, _) => CheckArrayAccess(syms, env, n)
  }

  /** An assignment: the value, then the target as an assignment target. */
  function CheckAssignment(syms: Symbols, env: Env, n: Node, assignment: bool): (s: Step<Returns>)
    requires n.Assignment? && WellFormed(n)
    ensures Progress(syms, s.symbols)
    ensures s.result.Ok? ==> s.result.value == NeverReturns && Grows(env, s.env)
    decreases syms.untyped.Keys, n, 0
  {
    SimpleIsWellFormed(n.value);
    SimpleIsWellFormed(n.variable);
    var v := CheckNode(syms, env, n.value, assignment);
    if v.result.Err? then v
    else
      var t := CheckNode(v.symbols, v.env, n.variable, true);
      ProgressTrans(syms, v.symbols, t.symbols);
      if t.result.Err? then t else Step(Ok(NeverReturns), t.env, t.symbols)
  }

  /** An array access: the array, then the index, neither as an assignment target. */
  function CheckArrayAccess(syms: Symbols, env: Env, n: Node): (s: Step<Returns>)
    requires n.ArrayAccess? && WellFormed(n)
    ensures Progress(syms, s.symbols)
    ensures s.result.Ok? ==> s.result.value == NeverReturns && Grows(env, s.env) && KeepsScope(env, s.env, false)
    decreases syms.untyped.Keys, n, 0
  {
    SimpleIsWellFormed(n.arr);
    SimpleIsWellFormed(n.index);
    var a := CheckNode(syms, env, n.arr, false);
    if a.result.Err? then a
    else
      var i := CheckNode(a.symbols, a.env, n.index, false);
      ProgressTrans(syms, a.symbols, i.symbols);
      if i.result.Err? then i else Step(Ok(NeverReturns), i.env, i.symbols)
  }

  /** A declaration: with a value it is initialised, without one it is uninitialised; either way it enters the scope. */
  function CheckDeclaration(syms: Symbols, env: Env, n: Node, assignment: bool): (s: Step<Returns>)
    requires n.Variable? && WellFormed(n)
    ensures Progress(syms, s.symbols)
    ensures s.result.Ok? ==> s.result.value == NeverReturns && Grows(env, s.env)
    ensures s.result.Ok? ==> n.name in s.env.scopeVariables
    ensures s.result.Ok? && n.initial.Some? ==>
      n.name in s.env.variables && s.env.variables[n.name] == VarInfo(n.mutable, n.source)
    ensures s.result.Ok? && n.initial.None? ==>
      n.name in s.env.uninitialized && s.env.uninitialized[n.name] == VarInfo(n.mutable, n.source)
    decreases syms.untyped.Keys, n, 0
  {
    var info := VarInfo(n.mutable, n.source);
    if n.initial.Some? then
      SimpleIsWellFormed(n.initial.value);
      var v := CheckNode(syms, env, n.initial.value, assignment);
      if v.result.Err? then v
      else Step(Ok(NeverReturns), v.env.(variables := v.env.variables[n.name := info],
                                         scopeVariables := v.env.scopeVariables + {n.name}), v.symbols)
    else
      Step(Ok(NeverReturns), env.(uninitialized := env.uninitialized[n.name := info],
                                  scopeVariables := env.scopeVariables + {n.name}), syms)
  }

  /** The flags of each branch, in order. */
  function Flags(scopes: seq<BranchState>): (fs: seq<Returns>)
    ensures |fs| == |scopes| && forall i :: 0 <= i < |scopes| ==> fs[i] == scopes[i].flags
  {
    seq(|scopes|, i requires 0 <= i < |scopes| => scopes[i].flags)
  }

  lemma SimpleIsWellFormed(n: Node)
    requires Simple(n)
    ensures WellFormed(n)
  {
  }

  lemma CoversAppend(u: map<Name, VarInfo>, a: seq<BranchState>, b: seq<BranchState>)
    requires Covers(u, a) && Covers(u, b)
    ensures Covers(u, a + b)
  {
    forall i, name | 0 <= i < |a + b| && name in u
      ensures name in (a + b)[i].variables || name in (a + b)[i].uninitialized
    {
      if i >= |a| { assert (a + b)[i] == b[i - |a|]; }
    }
  }

  lemma CoversFewer(u: map<Name, VarInfo>, u': map<Name, VarInfo>, scopes: seq<BranchState>)
    requires u'.Keys <= u.Keys && Covers(u, scopes)
    ensures Covers(u', scopes)
  {
  }

  /** The result of a `case` once its branches are known: variables re-initialised, flags combined. */
  function AfterBranches(syms: Symbols, env: Env, scopes: seq<BranchState>, captured: set<Name>): (s: Step<Returns>)
    requires Covers(env.uninitialized, scopes)
    requires env.captured <= captured
    ensures s.result.Ok? && s.result.value == Combine(Flags(scopes))
    ensures Grows(env, s.env) && s.symbols == syms
  {
    var maps := Initialize(env.variables, env.uninitialized, scopes);
    Step(Ok(Combine(Flags(scopes))),
         env.(variables := maps.0, uninitialized := maps.1, captured := captured), syms)
  }

  /** `case` on a condition: the body and the else body are two branches. */
  function CheckCaseCondition(syms: Symbols, env: Env, n: Node, assignment: bool): (s: Step<Returns>)
    requires n.CaseCondition? && WellFormed(n)
    ensures Progress(syms, s.symbols)
    ensures s.result.Ok? ==> s.result.value == NodeReturns(n) && Grows(env, s.env)
    decreases syms.untyped.Keys, n, 0
  {
    SimpleIsWellFormed(n.condition);
    var c := CheckNode(syms, env, n.condition, assignment);
    if c.result.Err? then c
    else
      var b := CheckNodes(c.symbols, c.env, n.body);
      ProgressTrans(syms, c.symbols, b.symbols);
      if b.result.Err? then b
      else
        var e := CheckNodes(b.symbols, c.env.(captured := b.env.captured), n.elseBody);
        ProgressTrans(syms, b.symbols, e.symbols);
        if e.result.Err? then e
        else
          var scopes := [BranchState(b.env.variables, b.env.uninitialized, b.result.value),
                         BranchState(e.env.variables, e.env.uninitialized, e.result.value)];
          var after := AfterBranches(e.symbols, c.env, scopes, e.env.captured);
          Step(Ok(Returns(b.result.value.sometimes || e.result.value.sometimes,
                          b.result.value.always && e.result.value.always)), after.env, e.symbols)
  }

  /** `case` on a value: every branch value is checked after its body, then the else body. */
  function CheckCaseBranches(syms: Symbols, env: Env, n: Node, assignment: bool): (s: Step<Returns>)
    requires n.CaseBranches? && WellFormed(n)
    ensures Progress(syms, s.symbols)
    ensures s.result.Ok? ==> s.result.value == NodeReturns(n) && Grows(env, s.env)
    decreases syms.untyped.Keys, n, 0
  {
    SimpleIsWellFormed(n.value);
    var v := CheckNode(syms, env, n.value, assignment);
    if v.result.Err? then v
    else
      var bs := CheckBranches(v.symbols, v.env, n.branches);
      ProgressTrans(syms, v.symbols, bs.symbols);
      if bs.result.Err? then Step(Err(bs.result.error), bs.env, bs.symbols)
      else
        var e := CheckNodes(bs.symbols, bs.env, n.elseBody);
        ProgressTrans(syms, bs.symbols, e.symbols);
        if e.result.Err? then e
        else
          var scopes := bs.result.value + [BranchState(e.env.variables, e.env.uninitialized, e.result.value)];
          assert Flags(scopes) == BranchesReturns(n.branches) + [BlockReturns(n.elseBody)];
          CoversAppend(bs.env.uninitialized, bs.result.value, [scopes[|scopes| - 1]]);
          AfterBranches(e.symbols, bs.env, scopes, e.env.captured)
  }

  /** `case` on a variant: the branches first, then the matched value, then the optional else body. */
  function CheckCaseVariant(syms: Symbols, env: Env, n: Node, assignment: bool): (s: Step<Returns>)
    requires n.CaseVariant? && WellFormed(n)
    ensures Progress(syms, s.symbols)
    ensures s.result.Ok? ==> s.result.value == NodeReturns(n) && Grows(env, s.env)
    decreases syms.untyped.Keys, n, 1
  {
    var bs := CheckVariants(syms, env, n.variants);
    if bs.result.Err? then Step(Err(bs.result.error), bs.env, bs.symbols)
    else
      SimpleIsWellFormed(n.value);
      var v := CheckNode(bs.symbols, bs.env, n.value, assignment);
      ProgressTrans(syms, bs.symbols, v.symbols);
      if v.result.Err? then v
      else
        CoversFewer(env.uninitialized, v.env.uninitialized, bs.result.value);
        if n.variantElse.Else? then
          var e := CheckVariantElse(v.symbols, v.env, n, bs.result.value);
          ProgressTrans(syms, v.symbols, e.symbols);
          e
        else
          var scopes := bs.result.value;
          assert Flags(scopes) == VariantsReturns(n.variants) + [];
          AfterBranches(v.symbols, v.env, scopes, v.env.captured)
  }

  /** The else body of a `case` on a variant, the last of its branches. */
  function CheckVariantElse(syms: Symbols, env: Env, n: Node, states: seq<BranchState>): (s: Step<Returns>)
    requires n.CaseVariant? && WellFormed(n) && n.variantElse.Else?
    requires |states| == |n.variants| && Covers(env.uninitialized, states)
    requires forall i :: 0 <= i < |states| ==> states[i].flags == BlockReturns(n.variants[i].variantBody)
    ensures Progress(syms, s.symbols)
    ensures s.result.Ok? ==> s.result.value == NodeReturns(n) && Grows(env, s.env)
    decreases syms.untyped.Keys, n, 0
  {
    var e := CheckNodes(syms, env, n.variantElse.block);
    if e.result.Err? then e
    else
      var scopes := states + [BranchState(e.env.variables, e.env.uninitialized, e.result.value)];
      assert Flags(scopes) == VariantsReturns(n.variants) + [BlockReturns(n.variantElse.block)];
      CoversAppend(env.uninitialized, states, [scopes[|scopes| - 1]]);
      AfterBranches(e.symbols, env, scopes, e.env.captured)
  }

  /**
   * A call. When the callee is a module path, its symbol is checked first (an
   * error there is the error of the call); a procedure must then get exactly
   * as many arguments as it has parameters. Then the arguments are checked in
   * order, then the callee.
   */
  function CheckCall(syms: Symbols, env: Env, n: Node, assignment: bool): (s: Step<Returns>)
    requires n.Call? && WellFormed(n)
    ensures Progress(syms, s.symbols)
    ensures s.result.Ok? ==> s.result.value == NeverReturns && Grows(env, s.env) && KeepsScope(env, s.env, assignment)
    ensures n.called.ModuleAccess? && CheckSymbol(syms, n.called.path).result.Err? ==>
      var c := CheckSymbol(syms, n.called.path);
      s == Step(Err(c.result.error), env, c.symbols)
    ensures n.called.ModuleAccess? && CheckSymbol(syms, n.called.path).result.Ok? ==>
      var c := CheckSymbol(syms, n.called.path);
      c.result.value.ProcInfo? && |n.arguments| != c.result.value.arity ==>
        s == Step(Err(InvalidParameterCount(n.called.path, c.result.value.arity, |n.arguments|)), env, c.symbols)
    decreases syms.untyped.Keys, n, 0
  {
    var c := if n.called.ModuleAccess? then CheckSymbol(syms, n.called.path) else Resolution(Ok(ConstInfo), syms);
    if c.result.Err? then Step(Err(c.result.error), env, c.symbols)
    else if c.result.value.ProcInfo? && |n.arguments| != c.result.value.arity then
      Step(Err(InvalidParameterCount(n.called.path, c.result.value.arity, |n.arguments|)), env, c.symbols)
    else
      var a := CheckAll(c.symbols, env, n.arguments, assignment);
      ProgressTrans(syms, c.symbols, a.symbols);
      if a.result.Err? then a
      else
        SimpleIsWellFormed(n.called);
        var k := CheckNode(a.symbols, a.env, n.called, assignment);
        ProgressTrans(syms, a.symbols, k.symbols);
        if k.result.Err? then k else Step(Ok(NeverReturns), k.env, k.symbols)
  }

  /** Sub-expressions checked left to right, stopping at the first error. */
  function CheckAll(syms: Symbols, env: Env, ns: seq<Node>, assignment: bool): (s: Step<Returns>)
    requires AllSimple(ns)
    ensures Progress(syms, s.symbols)
    ensures s.result.Ok? ==> s.result.value == NeverReturns && Grows(env, s.env) && KeepsScope(env, s.env, assignment)
    decreases syms.untyped.Keys, ns, 0
  {
    if ns == [] then Step(Ok(NeverReturns), env, syms)
    else
      SimpleIsWellFormed(ns[0]);
      var h := CheckNode(syms, env, ns[0], assignment);
      if h.result.Err? then h
      else
        var t := CheckAll(h.symbols, h.env, ns[1..], assignment);
        ProgressTrans(syms, h.symbols, t.symbols);
        t
  }

  /** `type_check_nodes`: a body checked node after node; the flags are OR-ed. */
  function CheckNodes(syms: Symbols, env: Env, ns: seq<Node>): (s: Step<Returns>)
    requires AllWellFormed(ns)
    ensures Progress(syms, s.symbols)
    ensures s.result.Ok? ==> s.result.value == BlockReturns(ns) && Grows(env, s.env)
    decreases syms.untyped.Keys, ns, 0
  {
    if ns == [] then Step(Ok(NeverReturns), env, syms)
    else
      var h := CheckNode(syms, env, ns[0], false);
      if h.result.Err? then h
      else
        var t := CheckNodes(h.symbols, h.env, ns[1..]);
        ProgressTrans(syms, h.symbols, t.symbols);
        if t.result.Err? then t
        else
          assert ns == [ns[0]] + ns[1..];
          BlockReturnsCons(ns);
          Step(Ok(Or(h.result.value, t.result.value)), t.env, t.symbols)
  }

  lemma BlockReturnsCons(ns: seq<Node>)
    requires ns != []
    ensures BlockReturns(ns) == Or(NodeReturns(ns[0]), BlockReturns(ns[1..]))
  {
    var t := ns[1..];
    assert forall i :: 0 <= i < |t| ==> t[i] == ns[i + 1];
    if NodeReturns(ns[0]).sometimes || BlockReturns(t).sometimes {
      if !NodeReturns(ns[0]).sometimes {
        var i :| 0 <= i < |t| && NodeReturns(t[i]).sometimes;
        assert NodeReturns(ns[i + 1]).sometimes;
      }
    }
    if NodeReturns(ns[0]).always || BlockReturns(t).always {
      if !NodeReturns(ns[0]).always {
        var i :| 0 <= i < |t| && NodeReturns(t[i]).always;
        assert NodeReturns(ns[i + 1]).always;
      }
    }
  }

  /**
   * One branch of `CaseBranches`: its body runs on copies of the maps; the
   * branch value is then checked as a non-assignment against an empty
   * variable map (only the shared maps are kept).
   */
  function CheckBranch(syms: Symbols, env: Env, b: Branch): (s: Step<BranchState>)
    requires Simple(b.matched) && AllWellFormed(b.branchBody)
    ensures Progress(syms, s.symbols)
    ensures s.result.Ok? ==>
      s.result.value.flags == BlockReturns(b.branchBody) &&
      Covers(env.uninitialized, [s.result.value]) &&
      s.env == env.(captured := s.env.captured) && env.captured <= s.env.captured
    decreases syms.untyped.Keys, b
  {
    var body := CheckNodes(syms, env, b.branchBody);
    if body.result.Err? then Step(Err(body.result.error), body.env, body.symbols)
    else
      SimpleIsWellFormed(b.matched);
      var valueEnv := Env(map[], env.scopeVariables, env.uninitialized, body.env.captured);
      var v := CheckNode(body.symbols, valueEnv, b.matched, false);
      ProgressTrans(syms, body.symbols, v.symbols);
      if v.result.Err? then Step(Err(v.result.error), v.env, v.symbols)
      else
        Step(Ok(BranchState(body.env.variables, body.env.uninitialized, body.result.value)),
             env.(scopeVariables := v.env.scopeVariables, uninitialized := v.env.uninitialized,
                  captured := v.env.captured),
             v.symbols)
  }

  /** The branches of `CaseBranches`, in order; all of them start from the same maps. */
  function CheckBranches(syms: Symbols, env: Env, bs: seq<Branch>): (s: Step<seq<BranchState>>)
    requires BranchesWellFormed(bs)
    ensures Progress(syms, s.symbols)
    ensures s.result.Ok? ==>
      |s.result.value| == |bs| &&
      (forall i :: 0 <= i < |bs| ==> s.result.value[i].flags == BlockReturns(bs[i].branchBody)) &&
      Covers(env.uninitialized, s.result.value) &&
      s.env.variables == env.variables && s.env.uninitialized == env.uninitialized &&
      s.env.scopeVariables == env.scopeVariables && env.captured <= s.env.captured
    decreases syms.untyped.Keys, bs
  {
    if bs == [] then Step(Ok([]), env, syms)
    else
      var b := CheckBranch(syms, env, bs[0]);
      if b.result.Err? then Step(Err(b.result.error), b.env, b.symbols)
      else
        var rest := CheckBranches(b.symbols, b.env, bs[1..]);
        ProgressTrans(syms, b.symbols, rest.symbols);
        if rest.result.Err? then rest
        else
          CoversAppend(env.uninitialized, [b.result.value], rest.result.value);
          Step(Ok([b.result.value] + rest.result.value), rest.env, rest.symbols)
  }

  /** The branches of `CaseVariant`: a branch's binding is an immutable variable of that branch only. */
  function CheckVariants(syms: Symbols, env: Env, vs: seq<VariantBranch>): (s: Step<seq<BranchState>>)
    requires VariantsWellFormed(vs)
    ensures Progress(syms, s.symbols)
    ensures s.result.Ok? ==>
      |s.result.value| == |vs| &&
      (forall i :: 0 <= i < |vs| ==> s.result.value[i].flags == BlockReturns(vs[i].variantBody)) &&
      Covers(env.uninitialized, s.result.value) &&
      s.env.variables == env.variables && s.env.uninitialized == env.uninitialized &&
      s.env.scopeVariables == env.scopeVariables && env.captured <= s.env.captured
    decreases syms.untyped.Keys, vs
  {
    if vs == [] then Step(Ok([]), env, syms)
    else
      var binding := vs[0].binding;
      var branchEnv :=
        if binding.Some? then
          env.(variables := env.variables[binding.value.name := VarInfo(false, binding.value.source)],
               scopeVariables := env.scopeVariables + {binding.value.name})
        else env;
      var b := CheckNodes(syms, branchEnv, vs[0].variantBody);
      if b.result.Err? then Step(Err(b.result.error), b.env, b.symbols)
      else
        var rest := CheckVariants(b.symbols, env.(captured := b.env.captured), vs[1..]);
        ProgressTrans(syms, b.symbols, rest.symbols);
        if rest.result.Err? then rest
        else
          var state := BranchState(b.env.variables, b.env.uninitialized, b.result.value);
          Step(Ok([state] + rest.result.value), rest.env, rest.symbols)
  }

  // ---------------------------------------------------------------------------
  // Blocks
  // ---------------------------------------------------------------------------

  /** A block's outcome after a prefix with flags `acc` has succeeded. */
  function Then(acc: Returns, s: Step<Returns>): (t: Step<Returns>)
    ensures t.env == s.env && t.symbols == s.symbols && (t.result.Err? <==> s.result.Err?)
    ensures s.result.Err? ==> t.result == s.result
  {
    if s.result.Err? then s else Step(Ok(Or(acc, s.result.value)), s.env, s.symbols)
  }

  /**
   * Checking `a + b` is checking `a`, then `b` from where `a` left the maps
   * and the symbol tables: an error in `a` is the error of the whole and `b`
   * is never looked at; otherwise the flags are OR-ed.
   */
  lemma {:induction false} CheckNodesAppend(syms: Symbols, env: Env, a: seq<Node>, b: seq<Node>)
    requires AllWellFormed(a) && AllWellFormed(b)
    ensures AllWellFormed(a + b)
    ensures var sa := CheckNodes(syms, env, a);
      CheckNodes(syms, env, a + b) ==
        if sa.result.Err? then sa else Then(sa.result.value, CheckNodes(sa.symbols, sa.env, b))
    decreases a
  {
    assert forall i :: 0 <= i < |a + b| ==> (a + b)[i] == if i < |a| then a[i] else b[i - |a|];
    if a == [] {
      assert a + b == b;
    } else {
      assert (a + b)[1..] == a[1..] + b;
      var h := CheckNode(syms, env, a[0], false);
      if h.result.Ok? {
        CheckNodesAppend(h.symbols, h.env, a[1..], b);
      }
    }
  }

  /**
   * `type_check_nodes`: takes the nodes off the front one at a time, OR-ing
   * their flags and returning the first error.
   */
  method TypeCheckNodes(syms: Symbols, env: Env, nodes: seq<Node>)
    returns (r: Result<Returns, Error>, env': Env, syms': Symbols)
    requires AllWellFormed(nodes)
    ensures Step(r, env', syms') == CheckNodes(syms, env, nodes)
    ensures r.Ok? ==> r.value == BlockReturns(nodes)
  {
    var rest := nodes;
    var flags := NeverReturns;
    env', syms' := env, syms;
    while rest != []
      invariant AllWellFormed(rest)
      invariant CheckNodes(syms, env, nodes) == Then(flags, CheckNodes(syms', env', rest))
      decreases |rest|
    {
      var h := CheckNode(syms', env', rest[0], false);
      if h.result.Err? {
        return h.result, h.env, h.symbols;
      }
      flags := Or(flags, h.result.value);
      env', syms' := h.env, h.symbols;
      rest := rest[1..];
    }
    return Ok(flags), env', syms';
  }

  // ---------------------------------------------------------------------------
  // Return flags
  // ---------------------------------------------------------------------------

  /** Every `case` over variants has a branch or an else body. */
  predicate HasAlternatives(n: Node)
  {
    match n
    case CaseCondition(_, body, elseBody) => AllHaveAlternatives(body) && AllHaveAlternatives(elseBody)
    case CaseBranches(_, branches, elseBody) =>
      (forall i :: 0 <= i < |branches| ==> AllHaveAlternatives(branches[i].branchBody)) &&
      AllHaveAlternatives(elseBody)
    case CaseVariant(_, variants, variantElse) =>
      (|variants| > 0 || variantElse.Else?) &&
      (forall i :: 0 <= i < |variants| ==> AllHaveAlternatives(variants[i].variantBody)) &&
      (variantElse.Else? ==> AllHaveAlternatives(variantElse.block))
    case _ => true
  }

  predicate AllHaveAlternatives(ns: seq<Node>)
  {
    forall i :: 0 <= i < |ns| ==> HasAlternatives(ns[i])
  }

  /** A node that always returns also sometimes returns, unless it holds a `case` with no alternative at all. */
  lemma {:induction false} AlwaysImpliesSometimes(n: Node)
    requires HasAlternatives(n)
    ensures NodeReturns(n).always ==> NodeReturns(n).sometimes
    decreases n, 1
  {
    match n
    case CaseCondition(_, body, elseBody) =>
      BlockAlwaysImpliesSometimes(body);
      BlockAlwaysImpliesSometimes(elseBody);
    case CaseBranches(_, branches, elseBody) =>
      BlockAlwaysImpliesSometimes(elseBody);
      var rs := BranchesReturns(branches) + [BlockReturns(elseBody)];
      assert rs[|rs| - 1] == BlockReturns(elseBody);
    case CaseVariant(_, variants, variantElse) =>
      var rs := VariantsReturns(variants) + if variantElse.Else? then [BlockReturns(variantElse.block)] else [];
      if |variants| > 0 {
        BlockAlwaysImpliesSometimes(variants[0].variantBody);
        assert rs[0] == BlockReturns(variants[0].variantBody);
      } else {
        BlockAlwaysImpliesSometimes(variantElse.block);
        assert rs[0] == BlockReturns(variantElse.block);
      }
    case _ =>
  }

  lemma {:induction false} BlockAlwaysImpliesSometimes(ns: seq<Node>)
    requires AllHaveAlternatives(ns)
    ensures BlockReturns(ns).always ==> BlockReturns(ns).sometimes
    decreases ns, 0
  {
    if BlockReturns(ns).always {
      var i :| 0 <= i < |ns| && NodeReturns(ns[i]).always;
      AlwaysImpliesSometimes(ns[i]);
    }
  }

  /** A `case` over variants with no branch and no else body counts as always returning, without ever returning. */
  lemma EmptyVariantCaseAlwaysReturns(value: Node)
    ensures NodeReturns(CaseVariant(value, [], NoElse)) == Returns(false, true)
  {
  }


  // ---------------------------------------------------------------------------
  // Symbols and modules
  // ---------------------------------------------------------------------------

  /** A procedure's parameters are immutable, initialised variables; a later parameter of the same name wins. */
  function ParameterVariables(ps: seq<Binding>): (m: map<Name, VarInfo>)
    ensures m.Keys == set i | 0 <= i < |ps| :: ps[i].name
    ensures forall name :: name in m ==> !m[name].mutable
    ensures ps != [] ==> m[ps[|ps| - 1].name] == VarInfo(false, ps[|ps| - 1].source)
  {
    if ps == [] then map[]
    else
      var init := ParameterVariables(ps[..|ps| - 1]);
      assert forall i :: 0 <= i < |ps| - 1 ==> ps[..|ps| - 1][i] == ps[i];
      init[ps[|ps| - 1].name := VarInfo(false, ps[|ps| - 1].source)]
  }

  /**
   * The symbols checked in `order`: the errors, one per failing check, in
   * order, and the symbol tables afterwards. A symbol an earlier check
   * already took out of `untyped` on demand is only looked up.
   */
  function CheckPaths(syms: Symbols, order: seq<Path>): (m: (seq<Error>, Symbols))
    ensures |m.0| <= |order|
    ensures Progress(syms, m.1)
    ensures forall i :: 0 <= i < |order| ==> order[i] !in m.1.untyped
    ensures m.0 == [] ==> forall i :: 0 <= i < |order| ==> order[i] in m.1.typed
    decreases |order|
  {
    if order == [] then ([], syms)
    else
      var c := CheckSymbol(syms, order[0]);
      var rest := CheckPaths(c.symbols, order[1..]);
      ProgressTrans(syms, c.symbols, rest.1);
      ProgressKeeps(c.symbols, rest.1, order[0]);
      (if c.result.Err? then [c.result.error] + rest.0 else rest.0, rest.1)
  }

  /**
   * `type_check_modules`: every symbol of the modules is checked, in the order
   * the symbol map yields their paths (`order`), against the symbols typed
   * before (`typed`). The result is `Ok` iff no check failed, else all the
   * errors; afterwards every procedure of the modules is typed with its
   * parameter count, a constant only if its check succeeded, and the symbols
   * typed before keep their entries.
   */
  method TypeCheckModules(typed: map<Path, SymInfo>, symbols: map<Path, CheckableSymbol>, order: seq<Path>)
    returns (r: Result<(), seq<Error>>, typed': map<Path, SymInfo>)
    requires forall p :: p in order <==> p in symbols
    ensures var m := CheckPaths(Symbols(symbols, typed), order);
      r == (if m.0 == [] then Ok(()) else Err(m.0)) && typed' == m.1.typed
    ensures forall p :: p in symbols ==> Registered(p, symbols[p], typed, typed')
    ensures typed' - symbols.Keys == typed - symbols.Keys
    ensures r.Ok? ==> forall p :: p in symbols ==> p in typed'
  {
    var syms := Symbols(symbols, typed);
    ghost var start := syms;
    var errors := [];
    assert order[0..] == order;
    assert CheckPaths(start, order).0 == errors + CheckPaths(start, order).0;
    for i := 0 to |order|
      invariant CheckPaths(start, order) ==
        (errors + CheckPaths(syms, order[i..]).0, CheckPaths(syms, order[i..]).1)
    {
      assert order[i..][1..] == order[i + 1..];
      var c := CheckSymbol(syms, order[i]);
      if c.result.Err? {
        ConcatAssoc(errors, [c.result.error], CheckPaths(c.symbols, order[i + 1..]).0);
        errors := errors + [c.result.error];
      }
      syms := c.symbols;
    }
    assert order[|order|..] == [] && errors + [] == errors;
    assert CheckPaths(start, order) == (errors, syms);
    AllChecked(start, order);
    typed' := syms.typed;
    if |errors| > 0 {
      return Err(errors), typed';
    }
    return Ok(()), typed';
  }

  lemma ConcatAssoc<T>(a: seq<T>, b: seq<T>, c: seq<T>)
    ensures a + (b + c) == a + b + c
  {
  }

  /**
   * Once the paths of all the modules' symbols are checked, none is left
   * untyped, each is registered, and the symbols typed before keep their
   * entries.
   */
  lemma AllChecked(start: Symbols, order: seq<Path>)
    requires forall p :: p in order <==> p in start.untyped
    ensures var final := CheckPaths(start, order).1;
      final.untyped == map[] &&
      (forall p :: p in start.untyped ==> Registered(p, start.untyped[p], start.typed, final.typed)) &&
      final.typed - start.untyped.Keys == start.typed - start.untyped.Keys
  {
    var final := CheckPaths(start, order).1;
    assert forall p :: p !in final.untyped;
    assert start.untyped.Keys - final.untyped.Keys == start.untyped.Keys;
  }

  /** Checking a symbol a second time only looks it up, and leaves the tables alone. */
  lemma SecondCheckIsLookup(syms: Symbols, path: Path)
    ensures var c := CheckSymbol(syms, path);
      var d := CheckSymbol(c.symbols, path);
      d.symbols == c.symbols && (c.result.Ok? ==> d.result == c.result) &&
      (path in syms.untyped && syms.untyped[path].Procedure? ==>
        d.result == Ok(ProcInfo(|syms.untyped[path].parameters|))) &&
      (path in syms.untyped && syms.untyped[path].Constant? && path !in syms.typed && c.result.Err? ==>
        d.result == Err(RecursiveConstant(path)))
  {
  }

  /** A constant whose value names the constant itself is a recursive constant. */
  lemma SelfReferentialConstant(syms: Symbols, path: Path)
    requires path in syms.untyped && path !in syms.typed
    requires syms.untyped[path] == Constant(ModuleAccess(path))
    ensures CheckSymbol(syms, path).result == Err(RecursiveConstant(path))
    ensures path !in CheckSymbol(syms, path).symbols.typed
  {
    var syms1 := Symbols(syms.untyped - {path}, syms.typed);
    assert CheckSymbol(syms1, path) == Lookup(syms1, path);
  }

  /** `a(q)` calls `b`, then assigns its own immutable parameter; `b(p)` assigns its immutable parameter. */
  function ExampleModule(a: Path, b: Path, p: Name, q: Name): map<Path, CheckableSymbol>
  {
    var bodyA := [Call(ModuleAccess(b), [Literal]), Assignment(VariableAccess(q), Literal)];
    var bodyB := [Assignment(VariableAccess(p), Literal)];
    assert WellFormed(bodyA[0]) && WellFormed(bodyA[1]) && WellFormed(bodyB[0]);
    map[a := Procedure([Binding(q, 0)], bodyA), b := Procedure([Binding(p, 1)], bodyB)]
  }

  /**
   * The module above checked in the order a, b: `b` is checked on demand
   * inside `a`, its error ends the check of `a`, and `b` is then only looked
   * up, so the module has exactly one error.
   */
  lemma OnDemandCheckExample(a: Path, b: Path, p: Name, q: Name)
    requires a != b
    ensures CheckPaths(Symbols(ExampleModule(a, b, p, q), map[]), [a, b]).0 == [ImmutableAssignment(p)]
  {
    var m := ExampleModule(a, b, p, q);
    var syms0 := Symbols(m, map[]);
    var syms1 := Symbols(m - {a}, map[a := ProcInfo(1)]);
    var syms2 := Symbols(m - {a} - {b}, map[a := ProcInfo(1), b := ProcInfo(1)]);
    assert syms2.untyped == map[];
    // `b` fails on its own parameter
    var envB := ParameterEnv([Binding(p, 1)]);
    var bodyB := m[b].procedureBody;
    assert p in envB.variables && !envB.variables[p].mutable;
    assert bodyB[0] == Assignment(VariableAccess(p), Literal);
    assert CheckNode(syms2, envB, Literal, false) == Step(Ok(NeverReturns), envB, syms2);
    var target := CheckNode(syms2, envB, VariableAccess(p), true);
    assert target.result == Err(ImmutableAssignment(p)) && target.symbols == syms2;
    var assignB := CheckAssignment(syms2, envB, bodyB[0], false);
    assert assignB.result == Err(ImmutableAssignment(p)) && assignB.symbols == syms2;
    assert CheckNode(syms2, envB, bodyB[0], false) == assignB;
    var checkB := CheckNodes(syms2, envB, bodyB);
    assert checkB.result == Err(ImmutableAssignment(p)) && checkB.symbols == syms2;
    assert CheckSymbol(syms1, b) == Resolution(Err(ImmutableAssignment(p)), syms2);
    // so the call of `b` in `a` fails, and with it `a`
    var envA := ParameterEnv([Binding(q, 0)]);
    var bodyA := m[a].procedureBody;
    var call := CheckCall(syms1, envA, bodyA[0], false);
    assert call.result == Err(ImmutableAssignment(p)) && call.symbols == syms2;
    assert CheckNode(syms1, envA, bodyA[0], false) == call;
    var checkA := CheckNodes(syms1, envA, bodyA);
    assert checkA.result == Err(ImmutableAssignment(p)) && checkA.symbols == syms2;
    assert CheckSymbol(syms0, a) == Resolution(Err(ImmutableAssignment(p)), syms2);
    // `b` is then only looked up
    assert CheckSymbol(syms2, b).result == Ok(ProcInfo(1));
    assert [a, b][1..] == [b] && [b][1..] == [];
  }
}
