/** Identifiers and the optional-value wrapper shared by every module of the
    rotation engine. */
module Base {

  /** A team is identified by the number it received at registration. */
  type TeamId = nat

  /** Fields carry the small constant ids 1, 2 and 3. */
  type FieldId = nat

  /** A value that may be absent: JavaScript's `null`/`undefined`. */
  datatype Option<+T> = None | Some(value: T)

  /** Teams moved from one place to another leave the total unchanged. */
  lemma MoveBetween(a: multiset<TeamId>, b: multiset<TeamId>, c: multiset<TeamId>,
                    d: multiset<TeamId>, moved: multiset<TeamId>)
    requires a + moved == c && b == d + moved
    ensures a + b == c + d
  {
    forall x ensures (a + b)[x] == (c + d)[x] {
      assert (a + moved)[x] == c[x];
    }
  }

  /** Two totals that share a part, and whose other parts balance, balance. */
  lemma CommonPart(a: multiset<TeamId>, c: multiset<TeamId>, x: multiset<TeamId>,
                   b: multiset<TeamId>, d: multiset<TeamId>, e: multiset<TeamId>, f: multiset<TeamId>)
    requires a == x + b && c == x + d && b + e == d + f
    ensures a + e == c + f
  {
    forall y ensures (a + e)[y] == (c + f)[y] {
      assert (b + e)[y] == (d + f)[y];
    }
  }
}
