/** Conjunctive normal form as the compiler emits it: a literal is a non-zero
    integer (v asserts variable v, -v its negation), a clause is an ordered list
    of literals read as their disjunction, and a clause set is read as the
    conjunction of its clauses. */
module Cnf {

  type Literal = int
  type Clause = seq<Literal>

  /** A truth value for every variable identifier. */
  type Assignment = int -> bool

  function Abs(x: int): nat
  {
    if x < 0 then -x else x
  }

  /** The literal `l` is true under `a`. */
  predicate Holds(a: Assignment, l: Literal)
  {
    if l >= 0 then a(l) else !a(-l)
  }

  /** At least one literal of the clause is true. */
  predicate ClauseSat(a: Assignment, c: Clause)
  {
    exists i :: 0 <= i < |c| && Holds(a, c[i])
  }

  /** Every clause of the set is true. */
  predicate CnfSat(a: Assignment, cs: seq<Clause>)
  {
    forall i :: 0 <= i < |cs| ==> ClauseSat(a, cs[i])
  }

  /** Number of positions of `ls` whose literal is true under `a`. */
  function CountTrue(a: Assignment, ls: seq<Literal>): nat
  {
    if ls == [] then 0 else (if Holds(a, ls[0]) then 1 else 0) + CountTrue(a, ls[1..])
  }

  /** Exactly one position of `ls` holds a true literal. */
  predicate ExactlyOne(a: Assignment, ls: seq<Literal>)
  {
    CountTrue(a, ls) == 1
  }

  /** No two positions of `ls` both hold true literals. */
  predicate AtMostOne(a: Assignment, ls: seq<Literal>)
  {
    forall p, q :: 0 <= p < q < |ls| ==> !(Holds(a, ls[p]) && Holds(a, ls[q]))
  }

  lemma NegationHolds(a: Assignment, l: Literal)
    requires l != 0
    ensures Holds(a, -l) <==> !Holds(a, l)
  {
  }

  lemma AppendAssoc<T>(xs: seq<T>, ys: seq<T>, zs: seq<T>)
    ensures xs + ys + zs == xs + (ys + zs)
  {
  }

  /** Taking one more element of a sequence appends that element. */
  lemma TakeNext<T>(s: seq<T>, t: int)
    requires 0 <= t < |s|
    ensures s[..t + 1] == s[..t] + [s[t]]
  {
  }

  lemma CnfSatAppend(a: Assignment, xs: seq<Clause>, ys: seq<Clause>)
    ensures CnfSat(a, xs + ys) <==> CnfSat(a, xs) && CnfSat(a, ys)
  {
    if CnfSat(a, xs) && CnfSat(a, ys) {
      forall i | 0 <= i < |xs + ys| ensures ClauseSat(a, (xs + ys)[i]) {
        if i >= |xs| {
          assert (xs + ys)[i] == ys[i - |xs|];
        }
      }
    }
    if CnfSat(a, xs + ys) {
      forall i | 0 <= i < |xs| ensures ClauseSat(a, xs[i]) {
        assert (xs + ys)[i] == xs[i];
      }
      forall i | 0 <= i < |ys| ensures ClauseSat(a, ys[i]) {
        assert (xs + ys)[|xs| + i] == ys[i];
      }
    }
  }

  lemma ClauseSatCons(a: Assignment, ls: seq<Literal>)
    requires ls != []
    ensures ClauseSat(a, ls) <==> Holds(a, ls[0]) || ClauseSat(a, ls[1..])
  {
    if ClauseSat(a, ls) && !Holds(a, ls[0]) {
      var i :| 0 <= i < |ls| && Holds(a, ls[i]);
      assert ls[1..][i - 1] == ls[i];
    }
    if ClauseSat(a, ls[1..]) {
      var i :| 0 <= i < |ls| - 1 && Holds(a, ls[1..][i]);
      assert ls[i + 1] == ls[1..][i];
    }
  }

  lemma AtMostOneCons(a: Assignment, ls: seq<Literal>)
    requires ls != []
    ensures AtMostOne(a, ls) <==>
            (Holds(a, ls[0]) ==> !ClauseSat(a, ls[1..])) && AtMostOne(a, ls[1..])
  {
    var rest := ls[1..];
    if AtMostOne(a, ls) {
      if Holds(a, ls[0]) {
        forall i | 0 <= i < |rest| ensures !Holds(a, rest[i]) {
          assert rest[i] == ls[i + 1];
        }
      }
      forall p, q | 0 <= p < q < |rest| ensures !(Holds(a, rest[p]) && Holds(a, rest[q])) {
        assert rest[p] == ls[p + 1] && rest[q] == ls[q + 1];
      }
    }
    if (Holds(a, ls[0]) ==> !ClauseSat(a, rest)) && AtMostOne(a, rest) {
      forall p, q | 0 <= p < q < |ls| ensures !(Holds(a, ls[p]) && Holds(a, ls[q])) {
        assert ls[q] == rest[q - 1];
        if p > 0 {
          assert ls[p] == rest[p - 1];
        }
      }
    }
  }

  /** No true position at all is the same as failing the clause over `ls`. */
  lemma {:induction false} CountZero(a: Assignment, ls: seq<Literal>)
    ensures CountTrue(a, ls) == 0 <==> !ClauseSat(a, ls)
  {
    if ls != [] {
      CountZero(a, ls[1..]);
      ClauseSatCons(a, ls);
    }
  }

  /** "Exactly one" splits into the at-least-one clause and pairwise exclusion,
      the two halves every encoder has to enforce. */
  lemma {:induction false} ExactlyOneSplit(a: Assignment, ls: seq<Literal>)
    ensures ExactlyOne(a, ls) <==> ClauseSat(a, ls) && AtMostOne(a, ls)
  {
    if ls != [] {
      ExactlyOneSplit(a, ls[1..]);
      CountZero(a, ls[1..]);
      ClauseSatCons(a, ls);
      AtMostOneCons(a, ls);
    }
  }

  /** "Exactly one" names a single true position that excludes every other. */
  lemma ExactlyOneWitness(a: Assignment, ls: seq<Literal>)
    ensures ExactlyOne(a, ls) <==>
            exists m :: 0 <= m < |ls| && Holds(a, ls[m]) &&
                        forall j :: 0 <= j < |ls| && j != m ==> !Holds(a, ls[j])
  {
    ExactlyOneSplit(a, ls);
    if ExactlyOne(a, ls) {
      var m :| 0 <= m < |ls| && Holds(a, ls[m]);
      forall j | 0 <= j < |ls| && j != m ensures !Holds(a, ls[j]) {
      }
    }
  }
}
