/**
 * The predicate and function wrappers of functions.go. Go's named function
 * types become type synonyms over Dafny's total arrows, and each wrapper
 * returns a new closure. A fallible Go function returns a pair `(B, error)`;
 * here that pair is a Returned value whose `err` is Nil when Go's error is
 * nil. Go's method `f.Compose(c)` is named Precompose, since a module cannot
 * hold it beside the free Compose.
 */
module Functions {

  type Predicate<-E> = E -> bool

  type Function<-E, B> = E -> B

  /** Go's `error`: nil, or some failure told apart from others by its tag only. */
  datatype Error = Nil | Fault(tag: nat)

  /** The pair `(value, error)` a fallible Go function returns. */
  datatype Returned<B> = Returned(value: B, err: Error)

  type FunctionE<-E, B> = E -> Returned<B>

  function Or<E>(f: Predicate<E>, orF: Predicate<E>): Predicate<E>
  {
    e => f(e) || orF(e)
  }

  function And<E>(f: Predicate<E>, andF: Predicate<E>): Predicate<E>
  {
    e => f(e) && andF(e)
  }

  function Xor<E>(f: Predicate<E>, xorF: Predicate<E>): Predicate<E>
  {
    e => f(e) != xorF(e)
  }

  function Negate<E>(f: Predicate<E>): Predicate<E>
  {
    e => !f(e)
  }

  function False<E>(): Predicate<E>
  {
    e => false
  }

  function True<E>(): Predicate<E>
  {
    e => true
  }

  /** Method `Compose`: `c` transforms the argument before `f` is applied. */
  function Precompose<E, B>(f: Function<E, B>, c: Function<E, E>): Function<E, B>
  {
    e => f(c(e))
  }

  /** `c` transforms the result after `f` is applied. */
  function AndThen<E, B>(f: Function<E, B>, c: Function<B, B>): Function<E, B>
  {
    e => c(f(e))
  }

  /** Lifts a total function to the fallible shape; it never reports an error. */
  function WithError<E, B>(f: Function<E, B>): FunctionE<E, B>
  {
    e => Returned(f(e), Nil)
  }

  function Identity<E>(): Function<E, E>
  {
    e => e
  }

  /** `a` first, then `b` on its result. */
  function Compose<E, B, C>(a: Function<E, B>, b: Function<B, C>): Function<E, C>
  {
    e => b(a(e))
  }

  /** `a` first; on failure `zero` with `a`'s error, otherwise `b` on `a`'s value. */
  function ComposeE<E, B, C>(a: FunctionE<E, B>, b: FunctionE<B, C>, zero: C): FunctionE<E, C>
  {
    e =>
      var z := a(e);
      if z.err != Nil then Returned(zero, z.err) else b(z.value)
  }

  // Predicate algebra

  /** `False` is neutral for Or. */
  lemma OrFalse<E>(p: Predicate<E>, e: E)
    ensures Or(p, False())(e) == p(e)
  {
  }

  /** `True` is neutral for And. */
  lemma AndTrue<E>(p: Predicate<E>, e: E)
    ensures And(p, True())(e) == p(e)
  {
  }

  /** `True` absorbs Or and `False` absorbs And. */
  lemma Absorbers<E>(p: Predicate<E>, e: E)
    ensures Or(p, True())(e) && !And(p, False())(e)
  {
  }

  /** Negation swaps Or and And (De Morgan). */
  lemma DeMorgan<E>(p: Predicate<E>, q: Predicate<E>, e: E)
    ensures Negate(Or(p, q))(e) == And(Negate(p), Negate(q))(e)
    ensures Negate(And(p, q))(e) == Or(Negate(p), Negate(q))(e)
  {
  }

  /** Xor holds exactly where one of the two predicates holds and the other does not. */
  lemma XorExactlyOne<E>(p: Predicate<E>, q: Predicate<E>, e: E)
    ensures Xor(p, q)(e) <==> (p(e) && !q(e)) || (!p(e) && q(e))
  {
  }

  /** Exclusive or: one of the two holds, but not both. */
  lemma XorIsOrButNotAnd<E>(p: Predicate<E>, q: Predicate<E>, e: E)
    ensures Xor(p, q)(e) == And(Or(p, q), Negate(And(p, q)))(e)
  {
  }

  /** Negating twice gives the predicate back. */
  lemma NegateInvolution<E>(p: Predicate<E>, e: E)
    ensures Negate(Negate(p))(e) == p(e)
  {
  }

  /** The complement of `True` is `False`, and the other way round. */
  lemma NegateConstants<E>(e: E)
    ensures !Negate(True())(e) && Negate(False())(e)
  {
  }

  // Function composition

  /** Method Compose and AndThen are the free Compose with the operands in either order. */
  lemma MethodFormsAreCompose<E, B>(f: Function<E, B>, pre: Function<E, E>, post: Function<B, B>, e: E)
    ensures Precompose(f, pre)(e) == Compose(pre, f)(e) == f(pre(e))
    ensures AndThen(f, post)(e) == Compose(f, post)(e) == post(f(e))
  {
  }

  /** Identity is neutral on both sides of every composition. */
  lemma IdentityNeutral<E, B>(f: Function<E, B>, e: E)
    ensures Identity<E>()(e) == e
    ensures Compose(Identity(), f)(e) == f(e) && Compose(f, Identity())(e) == f(e)
    ensures Precompose(f, Identity())(e) == f(e) && AndThen(f, Identity())(e) == f(e)
  {
  }

  /** Composition is associative. */
  lemma ComposeAssociative<E, B, C, D>(a: Function<E, B>, b: Function<B, C>, c: Function<C, D>, e: E)
    ensures Compose(Compose(a, b), c)(e) == Compose(a, Compose(b, c))(e)
  {
  }

  // Fallible composition

  /** A failing first step decides the outcome: `zero` and its error, whatever `b` is. */
  lemma ComposeEShortCircuits<E, B, C>(a: FunctionE<E, B>, b: FunctionE<B, C>, b': FunctionE<B, C>, zero: C, e: E)
    requires a(e).err != Nil
    ensures ComposeE(a, b, zero)(e) == Returned(zero, a(e).err)
    ensures ComposeE(a, b, zero)(e) == ComposeE(a, b', zero)(e)
  {
  }

  /** After a successful first step the outcome is exactly `b`'s, error included. */
  lemma ComposeEContinues<E, B, C>(a: FunctionE<E, B>, b: FunctionE<B, C>, zero: C, e: E)
    requires a(e).err == Nil
    ensures ComposeE(a, b, zero)(e) == b(a(e).value)
  {
  }

  /** Lifting with WithError commutes with composition, and a lifted function never fails. */
  lemma WithErrorCommutesWithCompose<E, B, C>(a: Function<E, B>, b: Function<B, C>, zero: C, e: E)
    ensures WithError(a)(e).err == Nil && WithError(a)(e).value == a(e)
    ensures ComposeE(WithError(a), WithError(b), zero)(e) == WithError(Compose(a, b))(e)
  {
  }

  /** Fallible composition is associative: the first failure is reported, with the last zero. */
  lemma ComposeEAssociative<E, B, C, D>(a: FunctionE<E, B>, b: FunctionE<B, C>, c: FunctionE<C, D>, zc: C, zd: D, e: E)
    ensures ComposeE(ComposeE(a, b, zc), c, zd)(e) == ComposeE(a, ComposeE(b, c, zd), zd)(e)
  {
  }
}
