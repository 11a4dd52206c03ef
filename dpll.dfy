/**
 * The DPLL satisfiability procedure (Week1/prop_logic/dpll.py).
 *
 * Clauses are sets of literal strings: "P" is the variable P, "~P" its
 * negation.  An assignment maps variable names to truth values.  The solver
 * propagates unit clauses and pure literals until neither applies, then
 * branches on the first unassigned variable.
 */
module Dpll {

  type Clause = set<string>
  type Assignment = map<string, bool>

  /** The variable of a literal: the literal without a leading '~'. */
  function LitVar(lit: string): (v: string)
    ensures lit == if LitVal(lit) then v else "~" + v
  {
    if |lit| > 0 && lit[0] == '~' then
      assert lit == "~" + lit[1..];
      lit[1..]
    else lit
  }

  /** The polarity of a literal: false exactly when it starts with '~'. */
  function LitVal(lit: string): bool
  {
    !(|lit| > 0 && lit[0] == '~')
  }

  /** The literal made true by giving `v` the value `val`. */
  function SatLit(v: string, val: bool): string
  {
    if val then v else "~" + v
  }

  /** The literal made false by giving `v` the value `val`. */
  function BadLit(v: string, val: bool): string
  {
    if val then "~" + v else v
  }

  predicate StartsWithTilde(s: string)
  {
    |s| > 0 && s[0] == '~'
  }

  // ---------------------------------------------------------------------------
  // Semantics
  // ---------------------------------------------------------------------------

  ghost predicate Holds(lit: string, b: Assignment)
  {
    LitVar(lit) in b && b[LitVar(lit)] == LitVal(lit)
  }

  ghost predicate ClauseHolds(c: Clause, b: Assignment)
  {
    exists lit :: lit in c && Holds(lit, b)
  }

  ghost predicate AllHold(cls: seq<Clause>, b: Assignment)
  {
    forall i :: 0 <= i < |cls| ==> ClauseHolds(cls[i], b)
  }

  /** `b` keeps every binding of `a`. */
  ghost predicate Extends(b: Assignment, a: Assignment)
  {
    forall v :: v in a ==> v in b && b[v] == a[v]
  }

  ghost predicate SatisfiableFrom(cls: seq<Clause>, a: Assignment)
  {
    exists b :: Extends(b, a) && AllHold(cls, b)
  }

  ghost function Vars(cls: seq<Clause>): set<string>
  {
    set i, lit | 0 <= i < |cls| && lit in cls[i] :: LitVar(lit)
  }

  /** No variable name starts with '~' (so no literal is written "~~P"). */
  ghost predicate WellFormed(cls: seq<Clause>)
  {
    forall v :: v in Vars(cls) ==> !StartsWithTilde(v)
  }

  /** No variable of the clauses is assigned yet. */
  ghost predicate Unassigned(a: Assignment, cls: seq<Clause>)
  {
    forall v :: v in Vars(cls) ==> v !in a
  }

  lemma LitOfVar(lit: string, v: string)
    requires LitVar(lit) == v
    ensures lit == v || lit == "~" + v
  {
  }

  lemma SatBadLits(v: string, val: bool)
    requires !StartsWithTilde(v)
    ensures LitVar(SatLit(v, val)) == v && LitVal(SatLit(v, val)) == val
    ensures LitVar(BadLit(v, val)) == v && LitVal(BadLit(v, val)) == !val
  {
    var neg := "~" + v;
    assert neg[0] == '~' && neg[1..] == v;
  }

  // ---------------------------------------------------------------------------
  // Clause reduction (simplify)
  // ---------------------------------------------------------------------------

  /**
   * Setting `v` to `val`: every clause containing the satisfied literal is
   * dropped, the falsified literal is removed from the others, and the
   * remaining clauses keep their order.
   */
  function Simplified(curr: seq<Clause>, v: string, val: bool): (out: seq<Clause>)
    ensures |out| <= |curr|
    ensures (exists i :: 0 <= i < |curr| && SatLit(v, val) in curr[i]) ==> |out| < |curr|
    ensures forall c :: c in out ==> SatLit(v, val) !in c && BadLit(v, val) !in c
  {
    if curr == [] then []
    else
      var init := Simplified(curr[..|curr| - 1], v, val);
      var cl := curr[|curr| - 1];
      assert forall i :: 0 <= i < |curr| - 1 ==> curr[..|curr| - 1][i] == curr[i];
      if SatLit(v, val) in cl then init else init + [cl - {BadLit(v, val)}]
  }

  /** Both directions of membership in the reduced clause list. */
  lemma {:induction false} SimplifiedElems(curr: seq<Clause>, v: string, val: bool)
    ensures forall i :: 0 <= i < |curr| && SatLit(v, val) !in curr[i] ==>
      curr[i] - {BadLit(v, val)} in Simplified(curr, v, val)
    ensures forall c :: c in Simplified(curr, v, val) ==>
      exists i :: 0 <= i < |curr| && SatLit(v, val) !in curr[i] && c == curr[i] - {BadLit(v, val)}
  {
    if curr != [] {
      var init := curr[..|curr| - 1];
      SimplifiedElems(init, v, val);
      assert forall i :: 0 <= i < |init| ==> init[i] == curr[i];
    }
  }

  lemma SimplifiedVars(curr: seq<Clause>, v: string, val: bool)
    ensures Vars(Simplified(curr, v, val)) <= Vars(curr) - {v}
  {
    SimplifiedElems(curr, v, val);
    var out := Simplified(curr, v, val);
    forall x | x in Vars(out) ensures x in Vars(curr) - {v} {
      var i, lit :| 0 <= i < |out| && lit in out[i] && LitVar(lit) == x;
      assert out[i] in out;
      var k :| 0 <= k < |curr| && SatLit(v, val) !in curr[k] && out[i] == curr[k] - {BadLit(v, val)};
      assert lit in curr[k];
      if x == v {
        LitOfVar(lit, v);
      }
    }
  }

  /** A model of the reduced list that makes the satisfied literal true is a model of the input. */
  lemma SimplifyBack(curr: seq<Clause>, v: string, val: bool, b: Assignment)
    requires Holds(SatLit(v, val), b)
    requires AllHold(Simplified(curr, v, val), b)
    ensures AllHold(curr, b)
  {
    SimplifiedElems(curr, v, val);
    var out := Simplified(curr, v, val);
    forall i | 0 <= i < |curr| ensures ClauseHolds(curr[i], b) {
      if SatLit(v, val) !in curr[i] {
        var c := curr[i] - {BadLit(v, val)};
        var j :| 0 <= j < |out| && out[j] == c;
        var lit :| lit in c && Holds(lit, b);
        assert lit in curr[i];
      }
    }
  }

  /** A model of the input that makes the falsified literal false is a model of the reduced list. */
  lemma SimplifyForward(curr: seq<Clause>, v: string, val: bool, b: Assignment)
    requires !Holds(BadLit(v, val), b)
    requires AllHold(curr, b)
    ensures AllHold(Simplified(curr, v, val), b)
  {
    SimplifiedElems(curr, v, val);
    var out := Simplified(curr, v, val);
    forall j | 0 <= j < |out| ensures ClauseHolds(out[j], b) {
      assert out[j] in out;
      var i :| 0 <= i < |curr| && SatLit(v, val) !in curr[i] && out[j] == curr[i] - {BadLit(v, val)};
      var lit :| lit in curr[i] && Holds(lit, b);
      assert lit in out[j];
    }
  }

  method Simplify(curr: seq<Clause>, v: string, val: bool) returns (out: seq<Clause>)
    ensures out == Simplified(curr, v, val)
  {
    var pos := v;
    var neg := "~" + v;
    var satL := if val then pos else neg;
    var badL := if val then neg else pos;
    out := [];
    var i := 0;
    while i < |curr|
      invariant 0 <= i <= |curr|
      invariant out == Simplified(curr[..i], v, val)
    {
      var cl := curr[i];
      assert curr[..i + 1][..i] == curr[..i];
      assert curr[..i + 1][i] == cl;
      assert satL == SatLit(v, val) && badL == BadLit(v, val);
      if satL in cl {
      } else if badL in cl {
        var nc := cl - {badL};
        out := out + [nc];
      } else {
        assert cl - {badL} == cl;
        out := out + [cl];
      }
      i := i + 1;
    }
    assert curr[..i] == curr;
  }

  // ---------------------------------------------------------------------------
  // The steps of the search, one lemma each
  // ---------------------------------------------------------------------------

  /** Every model of `cls` that extends `a` is a model of `clauses`. */
  ghost predicate Sound(clauses: seq<Clause>, cls: seq<Clause>, a: Assignment)
  {
    forall b :: Extends(b, a) && AllHold(cls, b) ==> AllHold(clauses, b)
  }

  lemma AssignStepSound(clauses: seq<Clause>, cls: seq<Clause>, a: Assignment, v: string, val: bool)
    requires Sound(clauses, cls, a)
    requires v in a ==> a[v] == val
    requires LitVar(SatLit(v, val)) == v && LitVal(SatLit(v, val)) == val
    ensures Extends(a[v := val], a)
    ensures Sound(clauses, Simplified(cls, v, val), a[v := val])
  {
    forall b | Extends(b, a[v := val]) && AllHold(Simplified(cls, v, val), b)
      ensures AllHold(clauses, b)
    {
      assert v in a[v := val];
      SimplifyBack(cls, v, val, b);
    }
  }

  lemma ExtendsTrans(c: Assignment, b: Assignment, a: Assignment)
    requires Extends(c, b) && Extends(b, a)
    ensures Extends(c, a)
  {
  }

  lemma UnassignedStep(a: Assignment, cls: seq<Clause>, v: string, val: bool)
    requires Unassigned(a, cls)
    ensures Unassigned(a[v := val], Simplified(cls, v, val))
  {
    SimplifiedVars(cls, v, val);
  }

  /** A unit clause {u} forces the polarity of u in every model. */
  lemma UnitComplete(cls: seq<Clause>, a: Assignment, j: int, u: string)
    requires 0 <= j < |cls| && cls[j] == {u}
    requires WellFormed(cls)
    requires SatisfiableFrom(cls, a)
    ensures LitVar(u) in a ==> a[LitVar(u)] == LitVal(u)
    ensures SatisfiableFrom(Simplified(cls, LitVar(u), LitVal(u)), a[LitVar(u) := LitVal(u)])
  {
    var v, val := LitVar(u), LitVal(u);
    var b :| Extends(b, a) && AllHold(cls, b);
    assert ClauseHolds(cls[j], b);
    assert Holds(u, b);
    assert v in Vars(cls);
    SatBadLits(v, val);
    assert SatLit(v, val) == u;
    SimplifyForward(cls, v, val, b);
    assert Extends(b, a[v := val]);
  }

  /** Flipping a variable to the only polarity it occurs with keeps a model a model. */
  lemma PureComplete(cls: seq<Clause>, a: Assignment, v: string, val: bool)
    requires WellFormed(cls) && !StartsWithTilde(v)
    requires v !in a
    requires forall i :: 0 <= i < |cls| ==> BadLit(v, val) !in cls[i]
    requires SatisfiableFrom(cls, a)
    ensures SatisfiableFrom(Simplified(cls, v, val), a[v := val])
  {
    var b :| Extends(b, a) && AllHold(cls, b);
    var b' := b[v := val];
    SatBadLits(v, val);
    forall i | 0 <= i < |cls| ensures ClauseHolds(cls[i], b') {
      var lit :| lit in cls[i] && Holds(lit, b);
      if LitVar(lit) == v {
        LitOfVar(lit, v);
        assert lit == SatLit(v, val);
      }
      assert Holds(lit, b');
    }
    SimplifyForward(cls, v, val, b');
    assert Extends(b', a[v := val]);
  }

  /** A model, with `pick` bound (to its own value, or true), stays a model and still extends `a`. */
  lemma PinModel(cls: seq<Clause>, a: Assignment, b: Assignment, pick: string)
    requires Extends(b, a) && AllHold(cls, b)
    ensures var bv := if pick in b then b[pick] else true;
      AllHold(cls, b[pick := bv]) && Extends(b[pick := bv], a[pick := bv])
  {
    var bv := if pick in b then b[pick] else true;
    var b' := b[pick := bv];
    forall i | 0 <= i < |cls| ensures ClauseHolds(cls[i], b') {
      var lit :| lit in cls[i] && Holds(lit, b);
      assert Holds(lit, b');
    }
    var a' := a[pick := bv];
    forall x | x in a' ensures x in b' && b'[x] == a'[x] {
      if x != pick {
        assert x in a;
      } else if pick in a {
        assert b[pick] == a[pick];
      }
    }
  }

  /** Any model of `cls` gives `pick` one of the two values tried. */
  lemma BranchComplete(cls: seq<Clause>, a: Assignment, pick: string)
    requires WellFormed(cls) && pick in Vars(cls)
    requires SatisfiableFrom(cls, a)
    ensures SatisfiableFrom(Simplified(cls, pick, true), a[pick := true])
         || SatisfiableFrom(Simplified(cls, pick, false), a[pick := false])
  {
    var b :| Extends(b, a) && AllHold(cls, b);
    var bv := if pick in b then b[pick] else true;
    var b' := b[pick := bv];
    PinModel(cls, a, b, pick);
    SatBadLits(pick, bv);
    SimplifyForward(cls, pick, bv, b');
    if bv {
      assert SatisfiableFrom(Simplified(cls, pick, true), a[pick := true]);
    } else {
      assert SatisfiableFrom(Simplified(cls, pick, false), a[pick := false]);
    }
  }

  lemma EmptyClauseUnsat(cls: seq<Clause>, j: int, a: Assignment)
    requires 0 <= j < |cls| && cls[j] == {}
    ensures !SatisfiableFrom(cls, a)
  {
    forall b | Extends(b, a) ensures !AllHold(cls, b) {
      assert !ClauseHolds(cls[j], b);
    }
  }

  lemma WellFormedSub(small: seq<Clause>, big: seq<Clause>)
    requires Vars(small) <= Vars(big) && WellFormed(big)
    ensures WellFormed(small)
  {
  }

  lemma CardLess(s: set<string>, t: set<string>, x: string)
    requires s <= t - {x} && x in t
    ensures |s| < |t|
  {
    assert |t - {x}| == |t| - 1;
    assert |s| <= |t - {x}| by {
      var d := (t - {x}) - s;
      assert t - {x} == s + d;
    }
  }

  // ---------------------------------------------------------------------------
  // The search loops, each a small method over the current clause list
  // ---------------------------------------------------------------------------

  /** Whether some clause is empty (the checks after each reduction). */
  method HasEmptyClause(cls: seq<Clause>) returns (found: bool, ghost j: int)
    ensures found <==> exists k :: 0 <= k < |cls| && cls[k] == {}
    ensures found ==> 0 <= j < |cls| && cls[j] == {}
  {
    j := 0;
    var k := 0;
    while k < |cls|
      invariant 0 <= k <= |cls|
      invariant forall m :: 0 <= m < k ==> cls[m] != {}
    {
      if |cls[k]| == 0 {
        j := k;
        return true, j;
      }
      k := k + 1;
    }
    return false, j;
  }

  /** The literal of the first unit clause, if any. */
  method FirstUnit(cls: seq<Clause>) returns (found: bool, u: string, ghost j: int)
    ensures found ==> 0 <= j < |cls| && cls[j] == {u} && forall m :: 0 <= m < j ==> |cls[m]| != 1
    ensures !found ==> forall k :: 0 <= k < |cls| ==> |cls[k]| != 1
  {
    u, j := "", 0;
    var k := 0;
    while k < |cls|
      invariant 0 <= k <= |cls|
      invariant forall m :: 0 <= m < k ==> |cls[m]| != 1
    {
      if |cls[k]| == 1 {
        u :| u in cls[k];
        assert |cls[k] - {u}| == 0;
        assert cls[k] - {u} == {};
        assert cls[k] == {u};
        return true, u, k;
      }
      k := k + 1;
    }
    return false, u, j;
  }

  /** A variable of the first clause that has one not yet assigned. */
  method PickVar(cls: seq<Clause>, a: Assignment) returns (found: bool, pick: string)
    ensures found ==> pick in Vars(cls) && pick !in a
    ensures found ==> exists k :: 0 <= k < |cls| && FirstOpenClause(cls, a, k) && pick in ClauseVars(cls[k])
    ensures !found ==> forall v :: v in Vars(cls) ==> v in a
  {
    pick := "";
    var k := 0;
    while k < |cls|
      invariant 0 <= k <= |cls|
      invariant forall m, lit :: 0 <= m < k && lit in cls[m] ==> LitVar(lit) in a
    {
      if exists lit :: lit in cls[k] && LitVar(lit) !in a {
        var lit :| lit in cls[k] && LitVar(lit) !in a;
        pick := LitVar(lit);
        assert FirstOpenClause(cls, a, k) && pick in ClauseVars(cls[k]);
        return true, pick;
      }
      k := k + 1;
    }
    return false, pick;
  }

  /** The variables of one clause. */
  ghost function ClauseVars(c: Clause): set<string>
  {
    set lit | lit in c :: LitVar(lit)
  }

  /** Clause `k` is the first one with a variable not yet assigned. */
  ghost predicate FirstOpenClause(cls: seq<Clause>, a: Assignment, k: int)
    requires 0 <= k < |cls|
  {
    && (exists lit :: lit in cls[k] && LitVar(lit) !in a)
    && forall m, lit :: 0 <= m < k && lit in cls[m] ==> LitVar(lit) in a
  }

  /** Unassigned variables occurring positively (resp. negatively). */
  function PolarityVars(cls: seq<Clause>, a: Assignment, val: bool): (r: set<string>)
    ensures forall v :: v in r ==> v !in a && exists i :: 0 <= i < |cls| && SatLit(v, val) in cls[i]
  {
    var r := set i, lit | 0 <= i < |cls| && lit in cls[i] && LitVar(lit) !in a && LitVal(lit) == val :: LitVar(lit);
    assert forall i, lit :: 0 <= i < |cls| && lit in cls[i] && LitVal(lit) == val ==> lit == SatLit(LitVar(lit), val);
    r
  }

  lemma BadLitPolarity(cls: seq<Clause>, a: Assignment, v: string, val: bool, i: int)
    requires 0 <= i < |cls| && v !in a
    requires (WellFormed(cls) && !StartsWithTilde(v)) || val
    ensures BadLit(v, val) in cls[i] ==> v in PolarityVars(cls, a, !val)
  {
    var lit := BadLit(v, val);
    if lit in cls[i] {
      if val {
        assert lit[0] == '~' && lit[1..] == v;
      } else {
        assert LitVar(lit) in Vars(cls);
      }
      assert LitVar(lit) == v && LitVal(lit) == !val;
    }
  }

  lemma PureHasNoBad(cls: seq<Clause>, a: Assignment, v: string, val: bool)
    requires v in PolarityVars(cls, a, val) && v !in PolarityVars(cls, a, !val)
    requires (WellFormed(cls) && !StartsWithTilde(v)) || val
    ensures forall i :: 0 <= i < |cls| ==> BadLit(v, val) !in cls[i]
  {
    forall i | 0 <= i < |cls| ensures BadLit(v, val) !in cls[i] {
      BadLitPolarity(cls, a, v, val, i);
    }
  }

  // ---------------------------------------------------------------------------
  // The solver
  // ---------------------------------------------------------------------------

  /**
   * What the propagation loop keeps: the current clause list and assignment
   * agree with the input in both directions.
   */
  ghost predicate Inv(clauses: seq<Clause>, assignment: Assignment, cls: seq<Clause>, a: Assignment)
  {
    && Extends(a, assignment)
    && Sound(clauses, cls, a)
    && (WellFormed(clauses) && SatisfiableFrom(clauses, assignment) ==> SatisfiableFrom(cls, a))
    && Vars(cls) <= Vars(clauses)
    && (Unassigned(assignment, clauses) ==> Unassigned(a, cls))
  }

  lemma Step(clauses: seq<Clause>, assignment: Assignment, cls: seq<Clause>, a: Assignment, v: string, val: bool)
    requires Inv(clauses, assignment, cls, a)
    requires v in a ==> a[v] == val
    requires LitVar(SatLit(v, val)) == v && LitVal(SatLit(v, val)) == val
    requires WellFormed(clauses) && SatisfiableFrom(clauses, assignment) ==>
      SatisfiableFrom(Simplified(cls, v, val), a[v := val])
    ensures Inv(clauses, assignment, Simplified(cls, v, val), a[v := val])
  {
    AssignStepSound(clauses, cls, a, v, val);
    ExtendsTrans(a[v := val], a, assignment);
    if Unassigned(assignment, clauses) {
      UnassignedStep(a, cls, v, val);
    }
    SimplifiedVars(cls, v, val);
  }

  /** (v, val) is a sound choice in state (cls, a): some clause contains its literal, and it loses no model. */
  ghost predicate Chosen(clauses: seq<Clause>, assignment: Assignment, cls: seq<Clause>, a: Assignment, v: string, val: bool)
  {
    && (exists i :: 0 <= i < |cls| && SatLit(v, val) in cls[i])
    && LitVar(SatLit(v, val)) == v && LitVal(SatLit(v, val)) == val
    && (WellFormed(clauses) && SatisfiableFrom(clauses, assignment) ==>
          (v in a ==> a[v] == val) && SatisfiableFrom(Simplified(cls, v, val), a[v := val]))
  }

  /** With no clause left, the current assignment satisfies the input. */
  lemma SolvedSound(clauses: seq<Clause>, assignment: Assignment, a: Assignment)
    requires Inv(clauses, assignment, [], a)
    ensures Extends(a, assignment) && AllHold(clauses, a)
  {
    assert Extends(a, a) && AllHold([], a);
  }

  /** Assigning a chosen literal keeps the invariant and removes at least one clause. */
  lemma Decide(clauses: seq<Clause>, assignment: Assignment, cls: seq<Clause>, a: Assignment, v: string, val: bool)
    requires Inv(clauses, assignment, cls, a) && Chosen(clauses, assignment, cls, a, v, val)
    requires v in a ==> a[v] == val
    ensures Inv(clauses, assignment, Simplified(cls, v, val), a[v := val])
    ensures |Simplified(cls, v, val)| < |cls|
  {
    Step(clauses, assignment, cls, a, v, val);
  }

  /** The unit rule: the literal of a unit clause is made true. */
  lemma UnitStep(clauses: seq<Clause>, assignment: Assignment, cls: seq<Clause>, a: Assignment, uj: int, unit: string)
    requires Inv(clauses, assignment, cls, a)
    requires 0 <= uj < |cls| && cls[uj] == {unit}
    ensures Chosen(clauses, assignment, cls, a, LitVar(unit), LitVal(unit))
  {
    assert unit in cls[uj];
    if WellFormed(clauses) && SatisfiableFrom(clauses, assignment) {
      WellFormedSub(cls, clauses);
      UnitComplete(cls, a, uj, unit);
    }
  }

  /** The pure-literal rule: a variable seen with one polarity only gets that polarity. */
  lemma PureStep(clauses: seq<Clause>, assignment: Assignment, cls: seq<Clause>, a: Assignment, v: string, val: bool)
    requires Inv(clauses, assignment, cls, a)
    requires v in PolarityVars(cls, a, val) && v !in PolarityVars(cls, a, !val)
    ensures v !in a
    ensures Chosen(clauses, assignment, cls, a, v, val)
  {
    var i :| 0 <= i < |cls| && SatLit(v, val) in cls[i];
    if val {
      assert LitVar(SatLit(v, val)) == v && LitVal(SatLit(v, val)) == val by {
        assert SatLit(v, val) == LitVar(SatLit(v, val)) || SatLit(v, val) == "~" + LitVar(SatLit(v, val));
        assert v in PolarityVars(cls, a, val);
      }
    } else {
      var s := SatLit(v, val);
      assert s[0] == '~' && s[1..] == v;
    }
    assert v in Vars(cls);
    if WellFormed(clauses) && SatisfiableFrom(clauses, assignment) {
      WellFormedSub(cls, clauses);
      assert !StartsWithTilde(v);
      PureHasNoBad(cls, a, v, val);
      PureComplete(cls, a, v, val);
    }
  }

  /**
   * A variable that occurs, unassigned, with one polarity only; positive
   * candidates are preferred.
   */
  method PureLiteral(cls: seq<Clause>, a: Assignment) returns (found: bool, v: string, val: bool)
    ensures found ==> v in PolarityVars(cls, a, val) && v !in PolarityVars(cls, a, !val)
    ensures found && !val ==> PolarityVars(cls, a, true) <= PolarityVars(cls, a, false)
    ensures !found ==> PolarityVars(cls, a, true) == PolarityVars(cls, a, false)
  {
    var pos := PolarityVars(cls, a, true);
    var neg := PolarityVars(cls, a, false);
    var onlyPos := pos - neg;
    var onlyNeg := neg - pos;
    v, val := "", true;
    if onlyPos != {} || onlyNeg != {} {
      if onlyPos != {} {
        v :| v in onlyPos;
        val := true;
      } else {
        assert forall x :: x in pos ==> x in neg by {
          forall x | x in pos ensures x in neg {
            assert x !in onlyPos;
          }
        }
        v :| v in onlyNeg;
        val := false;
      }
      return true, v, val;
    }
    return false, v, val;
  }

  /** How unit propagation and pure-literal elimination end. */
  datatype Propagated =
    | Conflict
    | Solved(model: Assignment)
    | Stuck(cls: seq<Clause>, a: Assignment)

  /**
   * The propagation loop: apply the unit rule, else the pure-literal rule,
   * until neither applies (Stuck), a clause becomes empty or a unit clause
   * contradicts the assignment (Conflict), or no clause is left (Solved).
   */
  method Propagate(clauses: seq<Clause>, assignment: Assignment) returns (p: Propagated)
    requires clauses != [] && forall k :: 0 <= k < |clauses| ==> clauses[k] != {}
    ensures p.Solved? ==> Extends(p.model, assignment) && AllHold(clauses, p.model)
    ensures p.Conflict? && WellFormed(clauses) ==> !SatisfiableFrom(clauses, assignment)
    ensures p.Stuck? ==> p.cls != [] && (forall k :: 0 <= k < |p.cls| ==> p.cls[k] != {})
    ensures p.Stuck? ==> Inv(clauses, assignment, p.cls, p.a)
    ensures p.Stuck? ==> PolarityVars(p.cls, p.a, true) == PolarityVars(p.cls, p.a, false)
  {
    var a := assignment;
    var cls := clauses;
    while true
      invariant cls != [] && forall k :: 0 <= k < |cls| ==> cls[k] != {}
      invariant Inv(clauses, assignment, cls, a)
      decreases |cls|
    {
      var v: string := "";
      var val: bool := true;
      var progressed := false;

      var foundUnit, unit, uj := FirstUnit(cls);
      if foundUnit {
        UnitStep(clauses, assignment, cls, a, uj, unit);
        v, val := LitVar(unit), LitVal(unit);
        progressed := true;
      } else {
        progressed, v, val := PureLiteral(cls, a);
        if progressed {
          PureStep(clauses, assignment, cls, a, v, val);
        }
      }
      if !progressed {
        return Stuck(cls, a);
      }

      assert Chosen(clauses, assignment, cls, a, v, val);
      if v in a && a[v] != val {
        return Conflict;
      }
      Decide(clauses, assignment, cls, a, v, val);
      a := a[v := val];
      cls := Simplify(cls, v, val);
      var empty, ej := HasEmptyClause(cls);
      if empty {
        EmptyClauseUnsat(cls, ej, a);
        return Conflict;
      }
      if cls == [] {
        SolvedSound(clauses, assignment, a);
        return Solved(a);
      }
    }
  }

  /**
   * Returns (true, model) or (false, {}).  The caller's assignment is a value
   * and is never changed.  A true answer keeps every input binding and, when
   * no variable of the clauses was assigned on entry, satisfies every clause;
   * a false answer means no extension of the input assignment satisfies them.
   */
  method Solve(clauses: seq<Clause>, assignment: Assignment) returns (sat: bool, result: Assignment)
    ensures clauses == [] ==> sat && result == assignment
    ensures clauses != [] && (exists i :: 0 <= i < |clauses| && clauses[i] == {}) ==> !sat && result == map[]
    ensures !sat ==> result == map[]
    ensures sat ==> Extends(result, assignment)
    ensures sat && Unassigned(assignment, clauses) ==> AllHold(clauses, result)
    ensures !sat && WellFormed(clauses) ==> !SatisfiableFrom(clauses, assignment)
    decreases |Vars(clauses)|
  {
    if clauses == [] {
      return true, assignment;
    }
    var hasEmpty, j0 := HasEmptyClause(clauses);
    if hasEmpty {
      EmptyClauseUnsat(clauses, j0, assignment);
      return false, map[];
    }

    var p := Propagate(clauses, assignment);
    if p.Conflict? {
      return false, map[];
    } else if p.Solved? {
      return true, p.model;
    }
    var cls, a := p.cls, p.a;

    var found, pick := PickVar(cls, a);
    if !found {
      if Unassigned(assignment, clauses) {
        var lit :| lit in cls[0];
        assert LitVar(lit) in Vars(cls);
      }
      return true, a;
    }
    BranchComplete'(clauses, assignment, cls, a, pick);
    StuckPickIsPlain(cls, a, pick);

    var vals := [true, false];
    var n := 0;
    while n < 2
      invariant 0 <= n <= 2
      invariant n > 0 && WellFormed(clauses) ==> !SatisfiableFrom(Simplified(cls, pick, true), a[pick := true])
      invariant n > 1 && WellFormed(clauses) ==> !SatisfiableFrom(Simplified(cls, pick, false), a[pick := false])
    {
      var val := vals[n];
      assert val == (n == 0);
      var nextAssign := a[pick := val];
      Branch(clauses, assignment, cls, a, pick, val);
      var reduced := Simplify(cls, pick, val);
      var s, sol := Solve(reduced, nextAssign);
      if s {
        ExtendsTrans(sol, nextAssign, assignment);
        return true, sol;
      }
      n := n + 1;
    }
    return false, map[];
  }

  /** What the recursive call on `pick := val` needs and gives back. */
  lemma Branch(clauses: seq<Clause>, assignment: Assignment, cls: seq<Clause>, a: Assignment, pick: string, val: bool)
    requires Inv(clauses, assignment, cls, a)
    requires pick in Vars(cls) && pick !in a && !StartsWithTilde(pick)
    ensures |Vars(Simplified(cls, pick, val))| < |Vars(clauses)|
    ensures Extends(a[pick := val], assignment)
    ensures WellFormed(clauses) ==> WellFormed(Simplified(cls, pick, val))
    ensures Unassigned(assignment, clauses) ==> Unassigned(a[pick := val], Simplified(cls, pick, val))
    ensures Sound(clauses, Simplified(cls, pick, val), a[pick := val])
  {
    SimplifiedVars(cls, pick, val);
    CardLess(Vars(Simplified(cls, pick, val)), Vars(clauses), pick);
    ExtendsTrans(a[pick := val], a, assignment);
    SatBadLits(pick, val);
    AssignStepSound(clauses, cls, a, pick, val);
    if WellFormed(clauses) {
      WellFormedSub(Simplified(cls, pick, val), clauses);
    }
    if Unassigned(assignment, clauses) {
      UnassignedStep(a, cls, pick, val);
    }
  }

  /**
   * Where both rules are stuck, every unassigned variable occurs with both
   * polarities, so none of them begins with '~': such a name can only be read
   * as the variable of a negative literal.
   */
  lemma StuckPickIsPlain(cls: seq<Clause>, a: Assignment, pick: string)
    requires PolarityVars(cls, a, true) == PolarityVars(cls, a, false)
    requires pick in Vars(cls) && pick !in a
    ensures !StartsWithTilde(pick)
  {
  }

  lemma BranchComplete'(clauses: seq<Clause>, assignment: Assignment, cls: seq<Clause>, a: Assignment, pick: string)
    requires Inv(clauses, assignment, cls, a)
    requires pick in Vars(cls)
    ensures WellFormed(clauses) && SatisfiableFrom(clauses, assignment) ==>
      SatisfiableFrom(Simplified(cls, pick, true), a[pick := true]) ||
      SatisfiableFrom(Simplified(cls, pick, false), a[pick := false])
  {
    if WellFormed(clauses) && SatisfiableFrom(clauses, assignment) {
      WellFormedSub(cls, clauses);
      BranchComplete(cls, a, pick);
    }
  }
}
