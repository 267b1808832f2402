/** The key agreement of the network introduction and of mutual authentication, over any abelian group whose order
    divides q: elliptic curve points and their scalar multiples. */
module KeyAgreement {
  import opened Base

  datatype Group<!P> = Group(add: (P, P) -> P, zero: P, order: nat)

  /** The laws, one instance at a time. */
  predicate Commutes<P(==)>(g: Group<P>, a: P, b: P) { g.add(a, b) == g.add(b, a) }
  predicate Associates<P(==)>(g: Group<P>, a: P, b: P, c: P) { g.add(g.add(a, b), c) == g.add(a, g.add(b, c)) }
  predicate HasUnit<P(==)>(g: Group<P>, a: P) { g.add(a, g.zero) == a && Times(g, g.order, a) == g.zero }

  ghost predicate IsGroup<P(!new)>(g: Group<P>) {
    && g.order > 0
    && (forall a, b :: Commutes(g, a, b))
    && (forall a, b, c :: Associates(g, a, b, c))
    && (forall a :: HasUnit(g, a))
  }

  /** Scalar multiplication. */
  function Times<P>(g: Group<P>, n: nat, a: P): P { if n == 0 then g.zero else g.add(Times(g, n - 1, a), a) }

  lemma {:induction false} TimesAdd<P(!new)>(g: Group<P>, m: nat, n: nat, a: P)
    requires IsGroup(g)
    ensures Times(g, m + n, a) == g.add(Times(g, m, a), Times(g, n, a))
    decreases n
  {
    if n == 0 {
      assert HasUnit(g, Times(g, m, a));
    } else {
      TimesAdd(g, m, n - 1, a);
      assert Associates(g, Times(g, m, a), Times(g, n - 1, a), a);
    }
  }

  lemma {:induction false} TimesTimes<P(!new)>(g: Group<P>, m: nat, n: nat, a: P)
    requires IsGroup(g)
    ensures Times(g, m, Times(g, n, a)) == Times(g, m * n, a)
    decreases m
  {
    if m > 0 {
      TimesTimes(g, m - 1, n, a);
      TimesAdd(g, (m - 1) * n, n, a);
      assert (m - 1) * n + n == m * n;
    }
  }

  lemma {:induction false} TimesZero<P(!new)>(g: Group<P>, n: nat)
    requires IsGroup(g)
    ensures Times(g, n, g.zero) == g.zero
    decreases n
  {
    if n > 0 {
      TimesZero(g, n - 1);
      assert HasUnit(g, g.zero);
    }
  }

  /** Scalars count modulo the order. */
  lemma {:induction false} TimesMod<P(!new)>(g: Group<P>, n: nat, a: P)
    requires IsGroup(g)
    ensures Times(g, n % g.order, a) == Times(g, n, a)
  {
    var q, r := n / g.order, n % g.order;
    TimesAdd(g, q * g.order, r, a);
    TimesTimes(g, q, g.order, a);
    assert HasUnit(g, a);
    TimesZero(g, q);
    assert Commutes(g, g.zero, Times(g, r, a)) && HasUnit(g, Times(g, r, a));
    assert q * g.order + r == n;
  }

  // -- PMK and PMKID ----------------------------------------------------------------------------------

  /** compute_pmk_pmkid: `nk` is the own private key, `pk` the public key from the peer's connector; the coordinate
      getter, the key derivation and the hash are parameters. */
  function PmkAndPmkid<P, K, H>(g: Group<P>, base: P, x: P -> nat, kdf: nat -> K, hash: (nat, nat) -> H, nk: nat,
      pk: P): (K, H) {
    var shared := Times(g, nk, pk);
    var own := Times(g, nk, base);
    (kdf(x(shared)), hash(Min(x(own), x(pk)), Max(x(own), x(pk))))
  }

  lemma {:induction false} SharedSecret<P(!new)>(g: Group<P>, base: P, a: nat, b: nat)
    requires IsGroup(g)
    ensures Times(g, a, Times(g, b, base)) == Times(g, b, Times(g, a, base))
  {
    TimesTimes(g, a, b, base);
    TimesTimes(g, b, a, base);
  }

  /** What is derived from the own private key a and the public key of b: the PMK from the x coordinate of a * b times
      the base point, and the PMKID from those of the two public keys in order. */
  lemma {:induction false} PmkIsOfSharedSecret<P(!new), K, H>(g: Group<P>, base: P, x: P -> nat, kdf: nat -> K,
      hash: (nat, nat) -> H, a: nat, b: nat)
    requires IsGroup(g)
    ensures var pa, pb := x(Times(g, a, base)), x(Times(g, b, base));
            PmkAndPmkid(g, base, x, kdf, hash, a, Times(g, b, base))
            == (kdf(x(Times(g, a * b, base))), if pa <= pb then hash(pa, pb) else hash(pb, pa))
  {
    TimesTimes(g, a, b, base);
  }

  /** The two peers derive the same PMK and the same PMKID, each from its own private and the other's public key. */
  lemma {:induction false} PeersDeriveSamePmk<P(!new), K, H>(g: Group<P>, base: P, x: P -> nat, kdf: nat -> K,
      hash: (nat, nat) -> H, a: nat, b: nat)
    requires IsGroup(g)
    ensures PmkAndPmkid(g, base, x, kdf, hash, a, Times(g, b, base))
      == PmkAndPmkid(g, base, x, kdf, hash, b, Times(g, a, base))
  {
    PmkIsOfSharedSecret(g, base, x, kdf, hash, a, b);
    PmkIsOfSharedSecret(g, base, x, kdf, hash, b, a);
    assert a * b == b * a;
  }

  // -- L ----------------------------------------------------------------------------------------------

  /** What the documentation of calculate_Lx promises the responder, ((b_R + p_R) mod q) * B_I, and what the
      initiator computes, b_I * (B_R + P_R). */
  function ResponderL<P>(g: Group<P>, bR: nat, pR: nat, bI: P): P
    requires g.order > 0
  {
    Times(g, (bR + pR) % g.order, bI)
  }

  function InitiatorL<P>(g: Group<P>, bI: nat, bR: P, pR: P): P { Times(g, bI, g.add(bR, pR)) }

  lemma {:induction false} LAgrees<P(!new)>(g: Group<P>, base: P, bI: nat, bR: nat, pR: nat)
    requires IsGroup(g)
    ensures ResponderL(g, bR, pR, Times(g, bI, base)) == InitiatorL(g, bI, Times(g, bR, base), Times(g, pR, base))
  {
    TimesMod(g, bR + pR, Times(g, bI, base));
    TimesAdd(g, bR, pR, base);
    SharedSecret(g, base, bR + pR, bI);
  }
}
