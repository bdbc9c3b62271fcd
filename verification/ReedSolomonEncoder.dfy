/** The encoder object: it caches the generator polynomials it has built and writes the
    check symbols into the tail of the array it is given. */
module ReedSolomonEncoding {
  import opened GaloisField
  import opened Polynomials
  import opened ReedSolomonCode
  import opened SystematicCode
  import opened ErrorCorrection
  import opened GenericField
  import opened GenericPolynomials

  class ReedSolomonEncoder {
    const field: GenericGF
    var cachedGenerators: seq<seq<Elem>>

    /** Entry k of the cache is the generator with k roots. */
    ghost predicate Valid()
      reads this
    {
      && field.Valid()
      && |cachedGenerators| > 0
      && forall k :: 0 <= k < |cachedGenerators| ==>
           Normal(cachedGenerators[k])
           && Val(cachedGenerators[k]) == Generator(field.F, field.generatorBase, k)
    }

    constructor (field: GenericGF)
      requires field.Valid()
      ensures Valid() && this.field == field
    {
      this.field := field;
      cachedGenerators := [[1]];
      new;
      var one: seq<Elem> := [1];
      assert one[..0] == [];
    }

    /** Extends the cache as far as needed; the cache never loses an entry. */
    method BuildGenerator(degree: nat) returns (g: seq<Elem>)
      requires Valid() && degree + field.generatorBase <= 256
      modifies this
      ensures Valid() && old(cachedGenerators) <= cachedGenerators
      ensures degree < |cachedGenerators| && g == cachedGenerators[degree]
      ensures Normal(g) && Val(g) == Generator(field.F, field.generatorBase, degree)
    {
      hide Mul, Val, IsField;
      if degree >= |cachedGenerators| {
        var lastGenerator := cachedGenerators[|cachedGenerators| - 1];
        for d := |cachedGenerators| to degree + 1
          invariant Valid() && old(cachedGenerators) <= cachedGenerators
          invariant |cachedGenerators| == d && lastGenerator == cachedGenerators[d - 1]
        {
          var root := field.Exp(d - 1 + field.generatorBase);
          LinearVal(root);
          var nextGenerator := GenericPolynomials.Multiply(field, lastGenerator, [1, root]);
          cachedGenerators := cachedGenerators + [nextGenerator];
          lastGenerator := nextGenerator;
        }
      }
      g := cachedGenerators[degree];
    }

    /** Leaves the data in place and writes the check symbols behind them.  The program
        throws, touching nothing, without check symbols or without data. */
    method Encode(toEncode: array<Elem>, ecBytes: nat) returns (ok: bool)
      requires Valid() && ecBytes + field.generatorBase <= 256
      modifies this, toEncode
      ensures Valid()
      ensures ok <==> 0 < ecBytes < toEncode.Length
      ensures !ok ==> toEncode[..] == old(toEncode[..])
      ensures ok ==> var data := old(toEncode[..toEncode.Length - ecBytes]);
                     toEncode[..] == data + CheckSymbols(field.F, field.generatorBase, data, ecBytes)
    {
      hide IsField, CheckSymbols, Generator, Val;
      if ecBytes == 0 || toEncode.Length <= ecBytes {
        return false;
      }
      var dataBytes := toEncode.Length - ecBytes;
      ghost var data := toEncode[..dataBytes];
      var ec := CheckSymbolsOf(toEncode[..dataBytes], ecBytes);
      for i := 0 to ecBytes
        invariant Valid()
        invariant toEncode[..dataBytes + i] == data + ec[..i]
      {
        toEncode[dataBytes + i] := ec[i];
      }
      assert toEncode[..] == toEncode[..dataBytes + ecBytes];
      assert ec[..ecBytes] == ec;
      ok := true;
    }

    /** The polynomial part of encoding: the padded remainder. */
    method CheckSymbolsOf(data: seq<Elem>, ecBytes: nat) returns (ec: seq<Elem>)
      requires Valid() && ecBytes + field.generatorBase <= 256 && 0 < ecBytes && data != []
      modifies this
      ensures Valid()
      ensures ec == CheckSymbols(field.F, field.generatorBase, data, ecBytes)
    {
      hide Val, IsField, Divide, Generator, Scale, Shift, Digits;
      ghost var F := field.F;
      ghost var g := Generator(F, field.generatorBase, ecBytes);
      GeneratorLen(F, field.generatorBase, ecBytes);
      var generator := BuildGenerator(ecBytes);
      NormalVal(generator);
      var info := Construct(data);
      info := MultiplyByMonomial(field, info, ecBytes, 1);
      ScaleOne(F, Val(data));
      var quotient, remainder := DivideBy(field, info, generator);
      DivideCorrect(F, Shift(Val(data), ecBytes), g);
      NormalVal(remainder);
      var numZeroCoefficients := ecBytes - |remainder|;
      ec := Zeros(numZeroCoefficients) + remainder;
      PaddedRemainder(F, remainder, numZeroCoefficients);
    }
  }

  lemma PaddedRemainder(F: Field, remainder: seq<Elem>, k: nat)
    requires IsField(F)
    ensures Zeros(k) + remainder == Digits(Val(remainder), k + |remainder|)
  {
    hide Val, Digits, IsField;
    ValPad(F, k, remainder);
    DigitsVal(Zeros(k) + remainder);
  }

  lemma LinearVal(a: Elem)
    ensures Normal([1, a]) && Val([1, a]) == Linear(a)
  {
    var w: seq<Elem>, one: seq<Elem> := [1, a], [1];
    assert one[..0] == [];
    assert Val(one) == Const(1);
    assert w[..1] == one;
  }
}
