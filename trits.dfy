/** The value algebra of three-valued logic: Kleene strong NOT, AND and OR
    over {False, Unknown, True}, as the free operators on `Trit` define it. */
module Trits {

  /** The three values a trit can take. Being a datatype, no fourth value exists. */
  datatype Trit = False | Unknown | True

  /** Kleene negation: swaps False and True, keeps Unknown. */
  function Not(t: Trit): (r: Trit)
    ensures r == True <==> t == False
    ensures r == False <==> t == True
    ensures r == Unknown <==> t == Unknown
  {
    match t
    case False => True
    case Unknown => Unknown
    case True => False
  }

  /** Kleene strong conjunction: False dominates, True only when both are True. */
  function And(left: Trit, right: Trit): (r: Trit)
    ensures r == False <==> left == False || right == False
    ensures r == True <==> left == True && right == True
  {
    match left
    case False => False
    case Unknown => if right == False then False else Unknown
    case True => if right == False then False else if right == True then True else Unknown
  }

  /** Kleene strong disjunction: True dominates, False only when both are False. */
  function Or(left: Trit, right: Trit): (r: Trit)
    ensures r == True <==> left == True || right == True
    ensures r == False <==> left == False && right == False
  {
    match left
    case False => if right == True then True else if right == False then False else Unknown
    case Unknown => if right == True then True else Unknown
    case True => True
  }

  lemma DoubleNegation(t: Trit)
    ensures Not(Not(t)) == t
  {
  }

  lemma AndCommutes(a: Trit, b: Trit)
    ensures And(a, b) == And(b, a)
  {
  }

  lemma OrCommutes(a: Trit, b: Trit)
    ensures Or(a, b) == Or(b, a)
  {
  }

  lemma AndAssociates(a: Trit, b: Trit, c: Trit)
    ensures And(And(a, b), c) == And(a, And(b, c))
  {
  }

  lemma OrAssociates(a: Trit, b: Trit, c: Trit)
    ensures Or(Or(a, b), c) == Or(a, Or(b, c))
  {
  }

  /** NOT turns AND into OR and back. */
  lemma DeMorgan(a: Trit, b: Trit)
    ensures Not(And(a, b)) == Or(Not(a), Not(b))
    ensures Not(Or(a, b)) == And(Not(a), Not(b))
  {
  }

  /** Combining with Unknown keeps only the dominant value of each operator:
      AND keeps False, OR keeps True, everything else becomes Unknown. */
  lemma CombineWithUnknown(t: Trit)
    ensures And(t, Unknown) == (if t == False then False else Unknown)
    ensures Or(t, Unknown) == (if t == True then True else Unknown)
  {
  }

  /** Unknown is the fixed point of all three operators. */
  lemma UnknownPreserved(a: Trit, b: Trit)
    ensures Not(a) == Unknown <==> a == Unknown
    ensures a == Unknown && b == Unknown ==> And(a, b) == Unknown && Or(a, b) == Unknown
  {
  }

  /** The character a trit is written as: F, U or T. */
  function TritChar(t: Trit): (c: char)
    ensures c in {'F', 'U', 'T'}
  {
    match t
    case False => 'F'
    case Unknown => 'U'
    case True => 'T'
  }

  /** Distinct trits are written as distinct characters. */
  lemma TritCharInjective(a: Trit, b: Trit)
    ensures TritChar(a) == TritChar(b) ==> a == b
  {
  }
}
