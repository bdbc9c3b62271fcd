/** The finite fields the Reed-Solomon code computes in, seen abstractly.

    The program represents a field element as an integer below 256 and hides the
    arithmetic behind the methods of one class.  `Field` is that interface as a record of
    functions, `IsField` the laws every instance used by the code satisfies; they are
    established for the table-driven instance in GenericGF.dfy.  Everything about
    polynomials and about the code itself is proved from these laws alone.
 */
module GaloisField {

  /** An element of a field of 256 elements. */
  type Elem = x: int | 0 <= x < 256

  /** `exp(k)` is the k-th power of a generator, `log` its inverse on nonzero elements. */
  datatype Field = Field(
    add: (Elem, Elem) -> Elem,
    mul: (Elem, Elem) -> Elem,
    inv: Elem -> Elem,
    exp: nat -> Elem,
    log: Elem -> nat)

  /** Always true.  The associative and distributive laws below are only instantiated where
      a proof mentions `Law(a, b, c)`, so that they cannot rewrite terms without end. */
  ghost predicate Law(a: Elem, b: Elem, c: Elem) {
    true
  }

  /** Always true, and used in the same way for sums of exponents. */
  ghost predicate Sum(i: nat, j: nat) {
    true
  }

  ghost predicate AdditiveLaws(F: Field) {
    && (forall a: Elem, b: Elem :: F.add(a, b) == F.add(b, a))
    && (forall a: Elem :: F.add(a, 0) == a && F.add(0, a) == a)
    && (forall a: Elem :: F.add(a, a) == 0)
    && (forall a: Elem, b: Elem, c: Elem {:trigger Law(a, b, c)} ::
          F.add(F.add(a, b), c) == F.add(a, F.add(b, c)))
  }

  ghost predicate MulAssociates(F: Field) {
    forall a: Elem, b: Elem, c: Elem {:trigger Law(a, b, c)} ::
      F.mul(F.mul(a, b), c) == F.mul(a, F.mul(b, c))
  }

  ghost predicate MulDistributes(F: Field) {
    forall a: Elem, b: Elem, c: Elem {:trigger Law(a, b, c)} ::
      F.mul(a, F.add(b, c)) == F.add(F.mul(a, b), F.mul(a, c))
  }

  ghost predicate ExpAdds(F: Field) {
    forall i: nat, j: nat {:trigger Sum(i, j)} :: F.exp(i + j) == F.mul(F.exp(i), F.exp(j))
  }

  ghost predicate MultiplicativeLaws(F: Field) {
    && (forall a: Elem, b: Elem :: F.mul(a, b) == F.mul(b, a))
    && (forall a: Elem :: F.mul(a, 1) == a && F.mul(1, a) == a)
    && (forall a: Elem :: F.mul(a, 0) == 0 && F.mul(0, a) == 0)
    && (forall a: Elem :: a != 0 ==> F.inv(a) != 0 && F.mul(a, F.inv(a)) == 1)
    && MulAssociates(F) && MulDistributes(F)
  }

  ghost predicate PowerLaws(F: Field) {
    && F.exp(0) == 1 && F.exp(255) == 1
    && (forall i: nat :: F.exp(i) != 0)
    && ExpAdds(F)
    && (forall i: nat :: i < 255 ==> F.log(F.exp(i)) == i)
    && (forall a: Elem :: a != 0 ==> F.log(a) < 255 && F.exp(F.log(a)) == a)
  }

  /** A field of characteristic two in which `exp` runs through all nonzero elements with
      period 255. */
  ghost predicate IsField(F: Field) {
    AdditiveLaws(F) && MultiplicativeLaws(F) && PowerLaws(F)
  }

  lemma AddAssoc(F: Field, a: Elem, b: Elem, c: Elem)
    requires IsField(F)
    ensures F.add(F.add(a, b), c) == F.add(a, F.add(b, c))
  {
    assert Law(a, b, c);
  }

  lemma MulAssoc(F: Field, a: Elem, b: Elem, c: Elem)
    requires IsField(F)
    ensures F.mul(F.mul(a, b), c) == F.mul(a, F.mul(b, c))
  {
    assert Law(a, b, c);
  }

  lemma MulOne(F: Field, a: Elem)
    requires IsField(F)
    ensures F.mul(a, 1) == a && F.mul(1, a) == a
  {
  }

  lemma AddZeroRight(F: Field, a: Elem)
    requires IsField(F)
    ensures F.add(a, 0) == a
  {
  }

  lemma Distribute(F: Field, a: Elem, b: Elem, c: Elem)
    requires IsField(F)
    ensures F.mul(a, F.add(b, c)) == F.add(F.mul(a, b), F.mul(a, c))
    ensures F.mul(F.add(b, c), a) == F.add(F.mul(b, a), F.mul(c, a))
  {
    assert Law(a, b, c);
  }

  lemma ExpAdd(F: Field, i: nat, j: nat)
    requires IsField(F)
    ensures F.exp(i + j) == F.mul(F.exp(i), F.exp(j))
  {
    assert Sum(i, j);
  }

  lemma AddSwap(F: Field, a: Elem, b: Elem, c: Elem, d: Elem)
    requires IsField(F)
    ensures F.add(F.add(a, b), F.add(c, d)) == F.add(F.add(a, c), F.add(b, d))
  {
    AddAssoc(F, a, b, F.add(c, d));
    AddAssoc(F, b, c, d);
    AddAssoc(F, c, b, d);
    AddAssoc(F, a, c, F.add(b, d));
  }

  /** Adding the same element twice changes nothing. */
  lemma AddCancel(F: Field, a: Elem, b: Elem)
    requires IsField(F)
    ensures F.add(F.add(a, b), b) == a
  {
    AddAssoc(F, a, b, b);
  }

  lemma MulNonzero(F: Field, a: Elem, b: Elem)
    requires IsField(F) && a != 0 && b != 0
    ensures F.mul(a, b) != 0
  {
    MulAssoc(F, F.inv(a), a, b);
  }

  lemma InverseUnique(F: Field, a: Elem, b: Elem)
    requires IsField(F) && F.mul(a, b) == 1
    ensures a != 0 && b == F.inv(a)
  {
    MulAssoc(F, F.inv(a), a, b);
  }

  lemma InverseInverse(F: Field, a: Elem)
    requires IsField(F) && a != 0
    ensures F.inv(F.inv(a)) == a
  {
    InverseUnique(F, F.inv(a), a);
  }
}
