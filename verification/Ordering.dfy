/** Three-way comparison and the laws that make one a total order. */
module Ordering {

  datatype Order = LT | EQ | GT {
    function Flip(): Order {
      match this
      case LT => GT
      case EQ => EQ
      case GT => LT
    }

    /** Compare by `this` first, by `next` on a tie. */
    function Then(next: Order): Order {
      if EQ? then next else this
    }
  }

  function CompareNat(a: nat, b: nat): Order {
    if a < b then LT else if a > b then GT else EQ
  }

  /** How three comparisons `a ? b`, `b ? c`, `a ? c` of a total order relate. */
  predicate Chains(ab: Order, bc: Order, ac: Order) {
    && (ab == EQ ==> ac == bc)
    && (bc == EQ ==> ac == ab)
    && (ab == LT && bc == LT ==> ac == LT)
    && (ab == GT && bc == GT ==> ac == GT)
  }

  lemma ThenChains(ab: Order, bc: Order, ac: Order, ab': Order, bc': Order, ac': Order)
    requires Chains(ab, bc, ac) && Chains(ab', bc', ac')
    ensures Chains(ab.Then(ab'), bc.Then(bc'), ac.Then(ac'))
  {
  }

  /** Character strings in dictionary order of their code points. */
  function CompareStrings(a: string, b: string): Order {
    if a == "" && b == "" then EQ
    else if a == "" then LT
    else if b == "" then GT
    else CompareNat(a[0] as int, b[0] as int).Then(CompareStrings(a[1..], b[1..]))
  }

  lemma {:induction false} CompareStringsFlips(a: string, b: string)
    ensures CompareStrings(b, a) == CompareStrings(a, b).Flip()
    ensures CompareStrings(a, b) == EQ <==> a == b
  {
    if a != "" && b != "" {
      CompareStringsFlips(a[1..], b[1..]);
      assert a == [a[0]] + a[1..] && b == [b[0]] + b[1..];
    }
  }

  lemma {:induction false} CompareStringsChains(a: string, b: string, c: string)
    ensures Chains(CompareStrings(a, b), CompareStrings(b, c), CompareStrings(a, c))
  {
    if a != "" && b != "" && c != "" {
      CompareStringsChains(a[1..], b[1..], c[1..]);
      ThenChains(CompareNat(a[0] as int, b[0] as int), CompareNat(b[0] as int, c[0] as int),
                 CompareNat(a[0] as int, c[0] as int),
                 CompareStrings(a[1..], b[1..]), CompareStrings(b[1..], c[1..]), CompareStrings(a[1..], c[1..]));
    }
  }
}
