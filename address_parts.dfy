/** The four part classes of an Address: Block, Street, Unit and PostalCode. Each wraps one
    immutable string; `equals` compares references first, so the classes are modelled as Dafny
    classes, whose objects have an identity, with `const` fields. Java's `instanceof` is Dafny's
    `is` on `object?`, which is false for null. The string hash is a parameter, as in
    PersonAddress. */
module AddressParts {

  /** How a call of `equals` can end: with an answer, or with the ClassCastException of casting a
      Block to another part class. */
  datatype EqualsOutcome = Returned(result: bool) | ThrewClassCast

  class Block {
    const block: string

    constructor (block: string)
      ensures this.block == block
    {
      this.block := block;
    }

    /** `toString`: the text the Block was built from. */
    function ToString(): string {
      block
    }

    /** `equals`: the same object, or another Block with the same text. The reference short circuit
        never changes the answer, since an object is a Block with its own text. */
    predicate Equals(other: object?)
      ensures Equals(other) <==> other is Block && (other as Block).block == block
    {
      other == this || (other is Block && block == (other as Block).block)
    }

    function HashCode(stringHash: string -> int): int {
      stringHash(block)
    }
  }

  /** Block's `equals` is reflexive, symmetric and transitive, and false for null and for every
      object of another class. */
  lemma BlockEqualsIsEquivalence(a: Block, b: Block, c: Block, other: object?)
    ensures a.Equals(a)
    ensures a.Equals(b) ==> b.Equals(a)
    ensures a.Equals(b) && b.Equals(c) ==> a.Equals(c)
    ensures !(other is Block) ==> !a.Equals(other)
  {
  }

  /** Equal Blocks have equal hash codes, whatever the string hash. */
  lemma BlockEqualsImpliesEqualHash(a: Block, b: Block, stringHash: string -> int)
    requires a.Equals(b)
    ensures a.HashCode(stringHash) == b.HashCode(stringHash)
  {
  }

  class Street {
    const value: string

    constructor (street: string)
      ensures value == street
    {
      value := street;
    }

    function ToString(): string {
      value
    }

    /** `equals` as written: after the reference check it tests `instanceof Block`, then casts the
        argument to Street. A Block argument makes the cast throw, and any other object, a
        distinct Street included, is unequal. */
    function Equals(other: object?): (r: EqualsOutcome)
      ensures r == Returned(true) <==> other == this
      ensures r == ThrewClassCast <==> other is Block
      ensures r == Returned(false) <==> other != this && !(other is Block)
    {
      if other == this then Returned(true)
      else if other is Block then ThrewClassCast
      else Returned(false)
    }

    /** `equals` as `Block.equals` does it: another Street with the same text. */
    predicate EqualsIntended(other: object?)
      ensures EqualsIntended(other) <==> other is Street && (other as Street).value == value
    {
      other == this || (other is Street && value == (other as Street).value)
    }

    function HashCode(stringHash: string -> int): int {
      stringHash(value)
    }
  }

  /** As written, two distinct Streets with the same text are unequal, though the intended
      `equals` (and `hashCode`, which is equal for them) treats them as equal. */
  lemma StreetEqualsMissesEqualText(s: Street, t: Street, stringHash: string -> int)
    requires s != t && s.value == t.value
    ensures s.Equals(t) == Returned(false)
    ensures s.EqualsIntended(t) && s.HashCode(stringHash) == t.HashCode(stringHash)
  {
  }

  /** As written, comparing a Street with a Block throws instead of answering false. */
  lemma StreetEqualsBlockThrows(s: Street, b: Block)
    ensures s.Equals(b) == ThrewClassCast
    ensures !s.EqualsIntended(b)
  {
  }

  /** Where `equals` as written answers true, the intended one does too: the defect only loses
      equalities and adds the exception. */
  lemma StreetEqualsSoundForTrue(s: Street, other: object?)
    requires s.Equals(other) == Returned(true)
    ensures s.EqualsIntended(other)
  {
  }

  /** The intended `equals` is an equivalence on Streets, false for objects of other classes, and
      consistent with `hashCode`. */
  lemma StreetEqualsIntendedIsEquivalence(a: Street, b: Street, c: Street, other: object?, stringHash: string -> int)
    ensures a.EqualsIntended(a)
    ensures a.EqualsIntended(b) ==> b.EqualsIntended(a) && a.HashCode(stringHash) == b.HashCode(stringHash)
    ensures a.EqualsIntended(b) && b.EqualsIntended(c) ==> a.EqualsIntended(c)
    ensures !(other is Street) ==> !a.EqualsIntended(other)
  {
  }

  class Unit {
    const value: string

    constructor (unit: string)
      ensures value == unit
    {
      value := unit;
    }

    function ToString(): string {
      value
    }

    /** `equals` as written, with the same `instanceof Block` test and cast to Unit as Street's. */
    function Equals(other: object?): (r: EqualsOutcome)
      ensures r == Returned(true) <==> other == this
      ensures r == ThrewClassCast <==> other is Block
      ensures r == Returned(false) <==> other != this && !(other is Block)
    {
      if other == this then Returned(true)
      else if other is Block then ThrewClassCast
      else Returned(false)
    }

    /** `equals` as intended: another Unit with the same text. */
    predicate EqualsIntended(other: object?)
      ensures EqualsIntended(other) <==> other is Unit && (other as Unit).value == value
    {
      other == this || (other is Unit && value == (other as Unit).value)
    }

    function HashCode(stringHash: string -> int): int {
      stringHash(value)
    }
  }

  lemma UnitEqualsMissesEqualText(u: Unit, v: Unit, stringHash: string -> int)
    requires u != v && u.value == v.value
    ensures u.Equals(v) == Returned(false)
    ensures u.EqualsIntended(v) && u.HashCode(stringHash) == v.HashCode(stringHash)
  {
  }

  lemma UnitEqualsBlockThrows(u: Unit, b: Block)
    ensures u.Equals(b) == ThrewClassCast
    ensures !u.EqualsIntended(b)
  {
  }

  lemma UnitEqualsSoundForTrue(u: Unit, other: object?)
    requires u.Equals(other) == Returned(true)
    ensures u.EqualsIntended(other)
  {
  }

  lemma UnitEqualsIntendedIsEquivalence(a: Unit, b: Unit, c: Unit, other: object?, stringHash: string -> int)
    ensures a.EqualsIntended(a)
    ensures a.EqualsIntended(b) ==> b.EqualsIntended(a) && a.HashCode(stringHash) == b.HashCode(stringHash)
    ensures a.EqualsIntended(b) && b.EqualsIntended(c) ==> a.EqualsIntended(c)
    ensures !(other is Unit) ==> !a.EqualsIntended(other)
  {
  }

  class PostalCode {
    const value: string

    constructor (postalCode: string)
      ensures value == postalCode
    {
      value := postalCode;
    }

    function ToString(): string {
      value
    }

    /** `equals` as written, with the same `instanceof Block` test and cast to PostalCode as
        Street's. */
    function Equals(other: object?): (r: EqualsOutcome)
      ensures r == Returned(true) <==> other == this
      ensures r == ThrewClassCast <==> other is Block
      ensures r == Returned(false) <==> other != this && !(other is Block)
    {
      if other == this then Returned(true)
      else if other is Block then ThrewClassCast
      else Returned(false)
    }

    /** `equals` as intended: another PostalCode with the same text. */
    predicate EqualsIntended(other: object?)
      ensures EqualsIntended(other) <==> other is PostalCode && (other as PostalCode).value == value
    {
      other == this || (other is PostalCode && value == (other as PostalCode).value)
    }

    function HashCode(stringHash: string -> int): int {
      stringHash(value)
    }
  }

  lemma PostalCodeEqualsMissesEqualText(p: PostalCode, q: PostalCode, stringHash: string -> int)
    requires p != q && p.value == q.value
    ensures p.Equals(q) == Returned(false)
    ensures p.EqualsIntended(q) && p.HashCode(stringHash) == q.HashCode(stringHash)
  {
  }

  lemma PostalCodeEqualsBlockThrows(p: PostalCode, b: Block)
    ensures p.Equals(b) == ThrewClassCast
    ensures !p.EqualsIntended(b)
  {
  }

  lemma PostalCodeEqualsSoundForTrue(p: PostalCode, other: object?)
    requires p.Equals(other) == Returned(true)
    ensures p.EqualsIntended(other)
  {
  }

  lemma PostalCodeEqualsIntendedIsEquivalence(a: PostalCode, b: PostalCode, c: PostalCode, other: object?, stringHash: string -> int)
    ensures a.EqualsIntended(a)
    ensures a.EqualsIntended(b) ==> b.EqualsIntended(a) && a.HashCode(stringHash) == b.HashCode(stringHash)
    ensures a.EqualsIntended(b) && b.EqualsIntended(c) ==> a.EqualsIntended(c)
    ensures !(other is PostalCode) ==> !a.EqualsIntended(other)
  {
  }
}
