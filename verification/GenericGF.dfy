/** The field object of the program: two tables filled by its constructor and read by every
    operation. */
module GenericField {
  import opened GaloisField
  import opened Bytes
  import opened FieldTables

  class GenericGF {
    const generatorBase: nat
    const expTable: seq<Elem>
    const logTable: seq<nat>
    /** The field the tables stand for. */
    ghost const F: Field

    /** The tables hold the powers of the generator and their exponents. */
    ghost predicate Valid() {
      && IsField(F)
      && (forall x: Elem, y: Elem :: F.add(x, y) == Xor(x, y))
      && |expTable| == 256 && (forall i :: 0 <= i < 256 ==> expTable[i] == F.exp(i))
      && |logTable| == 256 && (forall x: Elem :: x != 0 ==> logTable[x] == F.log(x))
      && (forall x: Elem :: x != 0 ==> F.inv(x) == F.exp(255 - F.log(x)))
    }

    constructor (primitive: Primitive, generatorBase: nat)
      requires Generates(primitive)
      ensures Valid() && F == TableField(primitive) && this.generatorBase == generatorBase
    {
      hide Power, Generates, Xor, TableField, IsField, Log;
      var exps := PowerTable(primitive);
      var logs := LogarithmTable(primitive, exps);
      this.generatorBase := generatorBase;
      expTable := exps;
      logTable := logs;
      F := TableField(primitive);
      new;
      TablesMakeField(primitive);
      TableFieldParts(primitive);
    }

    function Exp(k: nat): (r: Elem)
      requires Valid() && k < 256
      ensures r == F.exp(k)
    {
      expTable[k]
    }

    /** The program throws for zero; none of its callers passes it. */
    function Log(x: Elem): (r: nat)
      requires Valid() && x != 0
      ensures r == F.log(x)
    {
      logTable[x]
    }

    static function AddOrSubtract(x: Elem, y: Elem): Elem {
      Xor(x, y)
    }

    /** The program throws for zero; none of its callers passes it. */
    function Inverse(x: Elem): (r: Elem)
      requires Valid() && x != 0
      ensures r == F.inv(x)
    {
      expTable[256 - logTable[x] - 1]
    }

    lemma MulByZero(x: Elem, y: Elem)
      requires Valid() && (x == 0 || y == 0)
      ensures F.mul(x, y) == 0
    {
      ProductIs(F, x, y);
      hide IsField;
    }

    lemma TablesMultiply(x: Elem, y: Elem)
      requires Valid() && x != 0 && y != 0
      ensures |expTable| == 256 && |logTable| == 256
      ensures expTable[(logTable[x] + logTable[y]) % 255] == F.mul(x, y)
    {
      ProductIs(F, x, y);
      hide IsField;
    }

    function Multiply(x: Elem, y: Elem): (r: Elem)
      requires Valid()
      ensures r == F.mul(x, y)
    {
      hide Valid;
      if x == 0 || y == 0 then MulByZero(x, y); 0 else
      TablesMultiply(x, y);
      expTable[(logTable[x] + logTable[y]) % 255]
    }
  }

  /** The first loop of the constructor. */
  method PowerTable(p: Primitive) returns (exps: seq<Elem>)
    ensures |exps| == 256 && forall i :: 0 <= i < 256 ==> exps[i] == Power(p, i)
  {
    hide Power, NextPower;
    var o := new Elem[256](_ => 0);
    var f: Elem := 1;
    Zeroth(p);
    for u := 0 to 256
      invariant f == Power(p, u)
      invariant forall i :: 0 <= i < u ==> o[i] == Power(p, i)
    {
      o[u] := f;
      PowerStep(p, u);
      f := NextPower(p, f);
    }
    exps := o[..];
  }

  /** The second loop of the constructor; it leaves the entry for zero alone. */
  method LogarithmTable(p: Primitive, exps: seq<Elem>) returns (logs: seq<nat>)
    requires Generates(p)
    requires |exps| == 256 && forall i :: 0 <= i < 256 ==> exps[i] == Power(p, i)
    ensures |logs| == 256 && forall x: Elem :: x != 0 ==> logs[x] == Log(p, x)
  {
    hide Power, Generates;
    var s := new nat[256](_ => 0);
    for u := 0 to 255
      invariant forall i: nat :: i < u ==> s[Power(p, i)] == i
    {
      forall i: nat | i < u ensures Power(p, i) != exps[u] {
        if Power(p, i) == Power(p, u) {
          PowerInjective(p, i, u);
        }
      }
      s[exps[u]] := u;
    }
    logs := s[..];
    forall x: Elem | x != 0 ensures logs[x] == Log(p, x) {
      LogFound(p, x);
    }
  }

  lemma TableFieldParts(p: Primitive)
    requires Generates(p)
    ensures var F := TableField(p);
            && (forall x: Elem, y: Elem :: F.add(x, y) == Xor(x, y))
            && (forall i: nat :: F.exp(i) == Power(p, i))
            && (forall x: Elem :: F.log(x) == Log(p, x))
            && (forall x: Elem :: x != 0 ==> F.inv(x) == F.exp(255 - F.log(x)))
  {
    hide Power, Generates, Xor;
  }

  lemma PowerStep(p: Primitive, u: nat)
    ensures Power(p, u + 1) == NextPower(p, Power(p, u))
  {
  }

  /** A product by its logarithms. */
  lemma ProductIs(F: Field, x: Elem, y: Elem)
    requires IsField(F)
    ensures x == 0 || y == 0 ==> F.mul(x, y) == 0
    ensures x != 0 && y != 0 ==> F.log(x) < 255 && F.log(y) < 255 && F.mul(x, y) == F.exp((F.log(x) + F.log(y)) % 255)
  {
    if x != 0 && y != 0 {
      ExpModulo(F, F.log(x), F.log(y));
    }
  }

  lemma ExpModulo(F: Field, i: nat, j: nat)
    requires IsField(F) && i < 255 && j < 255
    ensures F.mul(F.exp(i), F.exp(j)) == F.exp((i + j) % 255)
  {
    ExpAdd(F, i, j);
    if i + j >= 255 {
      ExpAdd(F, i + j - 255, 255);
      assert (i + j) % 255 == i + j - 255;
    } else {
      assert (i + j) % 255 == i + j;
    }
  }
}
