/** Claims, rules, digests, and the derivations that steps make up. */
module Derivations {
  import opened Exprs

  datatype Digest = Digest(bytes: seq<int>)

  datatype Claim = Equality(lhs: Expr, rhs: Expr) | OtherClaim(tag: nat)

  /** A rule without the steps it refers to; the first and the last two refer to none. */
  datatype Form =
    | Reflexivity(expr: Expr)
    | Symmetry
    | Transitivity
    | CongruenceAdd
    | CongruenceMul
    | CongruencePow
    | CongruenceFunction(name: string)
    | Substitute(template: Expr, variable: Symbol)
    | PolynomialNormalForm(lhs: Expr, rhs: Expr)
    | Other(rule: nat)

  datatype Rule = Rule(form: Form, premises: seq<nat>)

  datatype Step = Step(id: nat, rule: Rule, claim: Claim)

  datatype Derivation = Derivation(steps: seq<Step>, root: nat)
}
