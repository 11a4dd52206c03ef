/**
 * Propositional formulas and their conversion to conjunctive normal form
 * (Week1/prop_logic/to_cnf.py).
 *
 * The conversion is a pipeline of four rewrites: implication elimination,
 * negation pushing, distribution of Or over And, and flattening into a list
 * of literal sets.  Each stage is a function; its shape guarantee is stated in
 * its own contract and its semantic guarantee (same truth value under every
 * valuation) in a lemma beside it.
 */
module Cnf {

  datatype Expr =
    | Var(name: string)
    | Not(expr: Expr)
    | And(left: Expr, right: Expr)
    | Or(left: Expr, right: Expr)
    | Implies(left: Expr, right: Expr)

  /** Truth value under a valuation of the variable names. */
  function Eval(e: Expr, val: string -> bool): bool
  {
    match e
    case Var(n) => val(n)
    case Not(x) => !Eval(x, val)
    case And(l, r) => Eval(l, val) && Eval(r, val)
    case Or(l, r) => Eval(l, val) || Eval(r, val)
    case Implies(l, r) => !Eval(l, val) || Eval(r, val)
  }

  function Size(e: Expr): nat
  {
    match e
    case Var(_) => 1
    case Not(x) => 1 + Size(x)
    case And(l, r) => 1 + Size(l) + Size(r)
    case Or(l, r) => 1 + Size(l) + Size(r)
    case Implies(l, r) => 1 + Size(l) + Size(r)
  }

  /** The variable names mentioned in a formula. */
  function Names(e: Expr): set<string>
  {
    match e
    case Var(n) => {n}
    case Not(x) => Names(x)
    case And(l, r) => Names(l) + Names(r)
    case Or(l, r) => Names(l) + Names(r)
    case Implies(l, r) => Names(l) + Names(r)
  }

  predicate NoImplies(e: Expr)
  {
    match e
    case Var(_) => true
    case Not(x) => NoImplies(x)
    case And(l, r) => NoImplies(l) && NoImplies(r)
    case Or(l, r) => NoImplies(l) && NoImplies(r)
    case Implies(_, _) => false
  }

  /** Negation normal form: no implication, and Not wraps only a variable. */
  predicate IsNnf(e: Expr)
  {
    match e
    case Var(_) => true
    case Not(x) => x.Var?
    case And(l, r) => IsNnf(l) && IsNnf(r)
    case Or(l, r) => IsNnf(l) && IsNnf(r)
    case Implies(_, _) => false
  }

  predicate IsLiteral(e: Expr)
  {
    e.Var? || (e.Not? && e.expr.Var?)
  }

  /** An Or-tree whose leaves are literals. */
  predicate IsClause(e: Expr)
  {
    match e
    case Or(l, r) => IsClause(l) && IsClause(r)
    case _ => IsLiteral(e)
  }

  /** An And-tree of clauses: no And occurs beneath an Or. */
  predicate IsCnf(e: Expr)
  {
    match e
    case And(l, r) => IsCnf(l) && IsCnf(r)
    case _ => IsClause(e)
  }

  lemma {:induction false} NnfHasNoImplies(e: Expr)
    requires IsNnf(e)
    ensures NoImplies(e)
  {
    match e
    case And(l, r) => NnfHasNoImplies(l); NnfHasNoImplies(r);
    case Or(l, r) => NnfHasNoImplies(l); NnfHasNoImplies(r);
    case _ =>
  }

  lemma {:induction false} CnfIsNnf(e: Expr)
    requires IsCnf(e)
    ensures IsNnf(e)
  {
    match e
    case And(l, r) => CnfIsNnf(l); CnfIsNnf(r);
    case Or(l, r) => ClauseIsNnf(e);
    case _ =>
  }

  lemma {:induction false} ClauseIsNnf(e: Expr)
    requires IsClause(e)
    ensures IsNnf(e)
  {
    match e
    case Or(l, r) => ClauseIsNnf(l); ClauseIsNnf(r);
    case _ =>
  }

  // ---------------------------------------------------------------------------
  // Stage 1: implication elimination (rem_implies)
  // ---------------------------------------------------------------------------

  /** Rewrites every `A -> B` into `~A | B`, rebuilding every other node. */
  function RemImplies(e: Expr): (r: Expr)
    ensures NoImplies(r)
    ensures Names(r) == Names(e)
    ensures NoImplies(e) ==> r == e
  {
    match e
    case Var(_) => e
    case Implies(l, r) => Or(Not(RemImplies(l)), RemImplies(r))
    case Not(x) => Not(RemImplies(x))
    case And(l, r) => And(RemImplies(l), RemImplies(r))
    case Or(l, r) => Or(RemImplies(l), RemImplies(r))
  }

  lemma {:induction false} RemImpliesPreservesEval(e: Expr, val: string -> bool)
    ensures Eval(RemImplies(e), val) == Eval(e, val)
  {
    match e
    case Var(_) =>
    case Implies(l, r) => RemImpliesPreservesEval(l, val); RemImpliesPreservesEval(r, val);
    case Not(x) => RemImpliesPreservesEval(x, val);
    case And(l, r) => RemImpliesPreservesEval(l, val); RemImpliesPreservesEval(r, val);
    case Or(l, r) => RemImpliesPreservesEval(l, val); RemImpliesPreservesEval(r, val);
  }

  // ---------------------------------------------------------------------------
  // Stage 2: pushing negations inward (negationPush)
  // ---------------------------------------------------------------------------

  /**
   * Removes double negations and applies De Morgan's laws.  An implication,
   * negated or not, is returned untouched, as the source does: that stage
   * expects the output of implication elimination.
   */
  function NegationPush(e: Expr): (r: Expr)
    ensures NoImplies(e) ==> IsNnf(r)
    ensures Names(r) <= Names(e)
    decreases Size(e)
  {
    match e
    case Var(_) => e
    case Not(ins) =>
      (match ins
       case Var(_) => e
       case Not(x) =>
         assert Size(e) == 2 + Size(x);
         assert NoImplies(e) == NoImplies(ins) == NoImplies(x);
         NegationPush(x)
       case And(l, r) =>
         assert Size(e) == 2 + Size(l) + Size(r);
         assert NoImplies(e) == NoImplies(ins) == (NoImplies(l) && NoImplies(r));
         Or(NegationPush(Not(l)), NegationPush(Not(r)))
       case Or(l, r) =>
         assert Size(e) == 2 + Size(l) + Size(r);
         assert NoImplies(e) == NoImplies(ins) == (NoImplies(l) && NoImplies(r));
         And(NegationPush(Not(l)), NegationPush(Not(r)))
       case Implies(_, _) =>
         assert NoImplies(e) == NoImplies(ins) == false;
         e)
    case And(l, r) => And(NegationPush(l), NegationPush(r))
    case Or(l, r) => Or(NegationPush(l), NegationPush(r))
    case Implies(_, _) => e
  }

  lemma {:induction false} NegationPushPreservesEval(e: Expr, val: string -> bool)
    ensures Eval(NegationPush(e), val) == Eval(e, val)
    decreases Size(e)
  {
    match e
    case Var(_) =>
    case Not(ins) =>
      match ins {
        case Var(_) =>
        case Not(x) =>
          assert Size(e) == 2 + Size(x);
          NegationPushPreservesEval(x, val);
        case And(l, r) =>
          assert Size(e) == 2 + Size(l) + Size(r);
          NegationPushPreservesEval(Not(l), val);
          NegationPushPreservesEval(Not(r), val);
        case Or(l, r) =>
          assert Size(e) == 2 + Size(l) + Size(r);
          NegationPushPreservesEval(Not(l), val);
          NegationPushPreservesEval(Not(r), val);
        case Implies(_, _) =>
      }
    case And(l, r) => NegationPushPreservesEval(l, val); NegationPushPreservesEval(r, val);
    case Or(l, r) => NegationPushPreservesEval(l, val); NegationPushPreservesEval(r, val);
    case Implies(_, _) =>
  }

  // ---------------------------------------------------------------------------
  // Stage 3: distributing Or over And (orDistribution)
  // ---------------------------------------------------------------------------

  /**
   * A termination measure for the distribution step: And adds, Or multiplies.
   * The recursive calls of OrDistribution are on rebuilt Or nodes, not on
   * subterms, and this weight decreases on each of them.
   */
  function Weight(e: Expr): (w: nat)
    ensures w >= 2
  {
    match e
    case Var(_) => 2
    case Not(_) => 2
    case And(l, r) => Weight(l) + Weight(r) + 1
    case Or(l, r) => Weight(l) * Weight(r)
    case Implies(l, r) => Weight(l) * Weight(r)
  }

  lemma MulMono(a: nat, b: nat, c: nat, d: nat)
    requires a <= c && b <= d
    ensures a * b <= c * d
  {
    calc {
      a * b;
    <=  { assert a * b <= c * b by { assert (c - a) * b >= 0; } }
      c * b;
    <=  { assert c * (d - b) >= 0; }
      c * d;
    }
  }

  /** Weight facts for the first two recursive calls of OrDistribution. */
  lemma ChildWeights(e: Expr)
    requires e.Or? || e.Implies?
    ensures Weight(e.left) < Weight(e) && Weight(e.right) < Weight(e)
  {
    MulMono(Weight(e.left), 2, Weight(e.left), Weight(e.right));
    MulMono(2, Weight(e.right), Weight(e.left), Weight(e.right));
  }

  lemma SplitArith(x: nat, y: nat, z: nat)
    requires x >= 2 && y >= 2 && z >= 2
    ensures x * z + y * z + 1 < (x + y + 1) * z
    ensures z * (x + y + 1) == (x + y + 1) * z
  {
    assert (x + y + 1) * z == x * z + y * z + z;
  }

  /** Weight facts for distributing `(a & b) | c` into `(a | c) & (b | c)`. */
  lemma SplitWeights(a: Expr, b: Expr, c: Expr, bound: nat)
    requires Weight(Or(And(a, b), c)) <= bound
    ensures Weight(Or(a, c)) < bound && Weight(Or(b, c)) < bound
    ensures Weight(Or(a, c)) + Weight(Or(b, c)) + 1 < bound
  {
    SplitArith(Weight(a), Weight(b), Weight(c));
  }

  /** The same facts with the And on the right: `c | (a & b)`. */
  lemma SplitWeightsRight(a: Expr, b: Expr, c: Expr, bound: nat)
    requires Weight(Or(c, And(a, b))) <= bound
    ensures Weight(Or(a, c)) < bound && Weight(Or(b, c)) < bound
    ensures Weight(Or(a, c)) + Weight(Or(b, c)) + 1 < bound
  {
    SplitArith(Weight(a), Weight(b), Weight(c));
  }

  /**
   * Distributes Or over And.  An implication below the top is treated like an
   * Or, as in the source.  The contract gives the termination measure; the
   * shape and meaning of the result are stated in the lemmas below.
   */
  function OrDistribution(e: Expr): (r: Expr)
    ensures Weight(r) <= Weight(e)
    decreases Weight(e)
  {
    if e.Var? || e.Not? then e
    else if e.left.Var? && e.right.Var? then e
    else if e.And? then
      And(OrDistribution(e.left), OrDistribution(e.right))
    else
      ChildWeights(e);
      var left := OrDistribution(e.left);
      var right := OrDistribution(e.right);
      MulMono(Weight(left), Weight(right), Weight(e.left), Weight(e.right));
      if left.And? then
        SplitWeights(left.left, left.right, right, Weight(e));
        And(OrDistribution(Or(left.left, right)), OrDistribution(Or(left.right, right)))
      else if right.And? then
        SplitWeightsRight(right.left, right.right, left, Weight(e));
        And(OrDistribution(Or(right.left, left)), OrDistribution(Or(right.right, left)))
      else
        Or(left, right)
  }

  /** On negation normal form, distribution yields conjunctive normal form. */
  lemma {:induction false} OrDistributionCnf(e: Expr)
    requires IsNnf(e)
    ensures IsCnf(OrDistribution(e))
    decreases Weight(e)
  {
    if e.Var? || e.Not? {
    } else if e.left.Var? && e.right.Var? {
    } else if e.And? {
      OrDistributionCnf(e.left);
      OrDistributionCnf(e.right);
    } else {
      ChildWeights(e);
      OrDistributionCnf(e.left);
      OrDistributionCnf(e.right);
      var left := OrDistribution(e.left);
      var right := OrDistribution(e.right);
      MulMono(Weight(left), Weight(right), Weight(e.left), Weight(e.right));
      CnfIsNnf(left);
      CnfIsNnf(right);
      if left.And? {
        SplitWeights(left.left, left.right, right, Weight(e));
        OrDistributionCnf(Or(left.left, right));
        OrDistributionCnf(Or(left.right, right));
      } else if right.And? {
        SplitWeightsRight(right.left, right.right, left, Weight(e));
        OrDistributionCnf(Or(right.left, left));
        OrDistributionCnf(Or(right.right, left));
      }
    }
  }

  /** Distribution keeps the truth value of an implication-free formula. */
  lemma {:induction false} OrDistributionShape(e: Expr)
    requires NoImplies(e)
    ensures NoImplies(OrDistribution(e))
    ensures Names(OrDistribution(e)) <= Names(e)
    decreases Weight(e)
  {
    if e.Var? || e.Not? {
    } else if e.left.Var? && e.right.Var? {
    } else if e.And? {
      OrDistributionShape(e.left);
      OrDistributionShape(e.right);
    } else {
      ChildWeights(e);
      OrDistributionShape(e.left);
      OrDistributionShape(e.right);
      var left := OrDistribution(e.left);
      var right := OrDistribution(e.right);
      MulMono(Weight(left), Weight(right), Weight(e.left), Weight(e.right));
      if left.And? {
        SplitWeights(left.left, left.right, right, Weight(e));
        OrDistributionShape(Or(left.left, right));
        OrDistributionShape(Or(left.right, right));
      } else if right.And? {
        SplitWeightsRight(right.left, right.right, left, Weight(e));
        OrDistributionShape(Or(right.left, left));
        OrDistributionShape(Or(right.right, left));
      }
    }
  }

  lemma {:induction false} OrDistributionPreservesEval(e: Expr, val: string -> bool)
    requires NoImplies(e)
    ensures Eval(OrDistribution(e), val) == Eval(e, val)
    decreases Weight(e)
  {
    if e.Var? || e.Not? {
    } else if e.left.Var? && e.right.Var? {
    } else if e.And? {
      OrDistributionPreservesEval(e.left, val);
      OrDistributionPreservesEval(e.right, val);
    } else {
      ChildWeights(e);
      OrDistributionShape(e.left);
      OrDistributionShape(e.right);
      OrDistributionPreservesEval(e.left, val);
      OrDistributionPreservesEval(e.right, val);
      var left := OrDistribution(e.left);
      var right := OrDistribution(e.right);
      MulMono(Weight(left), Weight(right), Weight(e.left), Weight(e.right));
      if left.And? {
        SplitWeights(left.left, left.right, right, Weight(e));
        OrDistributionPreservesEval(Or(left.left, right), val);
        OrDistributionPreservesEval(Or(left.right, right), val);
      } else if right.And? {
        SplitWeightsRight(right.left, right.right, left, Weight(e));
        OrDistributionPreservesEval(Or(right.left, left), val);
        OrDistributionPreservesEval(Or(right.right, left), val);
      }
    }
  }

  // ---------------------------------------------------------------------------
  // Stage 4: flattening into literal sets (clauses, get_literals)
  // ---------------------------------------------------------------------------

  /** A literal string is true when its variable has the polarity it names. */
  predicate LitHolds(lit: string, val: string -> bool)
  {
    if |lit| > 0 && lit[0] == '~' then !val(lit[1..]) else val(lit)
  }

  /** The literal strings of a clause: "name" for a variable, "~name" for its negation. */
  function GetLiterals(e: Expr): (r: set<string>)
    requires IsClause(e)
    ensures r != {}
  {
    match e
    case Var(n) => {n}
    case Not(x) => {"~" + x.name}
    case Or(l, r) => GetLiterals(l) + GetLiterals(r)
  }

  /** No variable name begins with '~', which would read as a negation. */
  predicate PlainNames(names: set<string>)
  {
    forall n :: n in names ==> |n| == 0 || n[0] != '~'
  }

  lemma PlainNamesSubset(a: set<string>, b: set<string>)
    requires a <= b && PlainNames(b)
    ensures PlainNames(a)
  {
  }

  lemma {:induction false} GetLiteralsEval(e: Expr, val: string -> bool)
    requires IsClause(e) && PlainNames(Names(e))
    ensures (exists lit :: lit in GetLiterals(e) && LitHolds(lit, val)) == Eval(e, val)
  {
    match e
    case Var(n) =>
      assert LitHolds(n, val) == val(n);
    case Not(x) =>
      var lit := "~" + x.name;
      assert lit[0] == '~' && lit[1..] == x.name;
      assert GetLiterals(e) == {lit};
      assert LitHolds(lit, val) == Eval(e, val);
    case Or(l, r) =>
      GetLiteralsEval(l, val);
      GetLiteralsEval(r, val);
  }

  /** The top-level And spine, left to right, one literal set per conjunct. */
  function Clauses(e: Expr): (r: seq<set<string>>)
    requires IsCnf(e)
    ensures |r| >= 1
  {
    if e.And? then Clauses(e.left) + Clauses(e.right) else [GetLiterals(e)]
  }

  /** A list of literal sets holds when every set has a true literal. */
  predicate ClausesHold(cls: seq<set<string>>, val: string -> bool)
  {
    forall i :: 0 <= i < |cls| ==> exists lit :: lit in cls[i] && LitHolds(lit, val)
  }

  lemma {:induction false} ClausesEval(e: Expr, val: string -> bool)
    requires IsCnf(e) && PlainNames(Names(e))
    ensures ClausesHold(Clauses(e), val) == Eval(e, val)
  {
    if e.And? {
      ClausesEval(e.left, val);
      ClausesEval(e.right, val);
      var a, b := Clauses(e.left), Clauses(e.right);
      assert Clauses(e) == a + b;
      if ClausesHold(a + b, val) {
        forall i | 0 <= i < |a| ensures exists lit :: lit in a[i] && LitHolds(lit, val) {
          assert (a + b)[i] == a[i];
        }
        forall i | 0 <= i < |b| ensures exists lit :: lit in b[i] && LitHolds(lit, val) {
          assert (a + b)[|a| + i] == b[i];
        }
      }
    } else {
      GetLiteralsEval(e, val);
    }
  }

  // ---------------------------------------------------------------------------
  // The whole pipeline (to_cnf)
  // ---------------------------------------------------------------------------

  function ToCnf(e: Expr): (r: seq<set<string>>)
    ensures |r| >= 1
  {
    var e1 := RemImplies(e);
    var e2 := NegationPush(e1);
    OrDistributionCnf(e2);
    var e3 := OrDistribution(e2);
    Clauses(e3)
  }

  /**
   * The returned literal sets, read as a conjunction of disjunctions, are
   * equivalent to the input formula, provided no variable name begins with '~'.
   */
  lemma ToCnfCorrect(e: Expr, val: string -> bool)
    requires PlainNames(Names(e))
    ensures ClausesHold(ToCnf(e), val) == Eval(e, val)
  {
    var e1 := RemImplies(e);
    var e2 := NegationPush(e1);
    OrDistributionCnf(e2);
    var cls := Clauses(OrDistribution(e2));
    assert ToCnf(e) == cls;
    RemImpliesPreservesEval(e, val);
    NegationPushPreservesEval(e1, val);
    PipelineTail(e2, e, val);
  }

  lemma PipelineTail(e2: Expr, e: Expr, val: string -> bool)
    requires IsNnf(e2) && Names(e2) <= Names(e) && PlainNames(Names(e))
    ensures IsCnf(OrDistribution(e2))
    ensures ClausesHold(Clauses(OrDistribution(e2)), val) == Eval(e2, val)
  {
    NnfHasNoImplies(e2);
    var e3 := OrDistribution(e2);
    OrDistributionShape(e2);
    OrDistributionPreservesEval(e2, val);
    OrDistributionCnf(e2);
    PlainNamesSubset(Names(e3), Names(e));
    ClausesEval(e3, val);
  }
}
