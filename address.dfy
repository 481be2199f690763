/** The `Address` value object: construction from a raw string, the string form that `toString`
    builds, `equals` and `hashCode` defined through it, and the privacy flag. The four part objects
    (Block, Street, Unit, PostalCode) enter an Address's behaviour only through their text, so an
    Address holds the four texts; the part classes themselves are modelled in AddressParts. */
module PersonAddress {
  import opened JavaText
  import opened AddressValidation
  import opened AddressSplit

  const EXAMPLE: string := "123, Bishan Ave 5, #15-12, 460123"
  const MESSAGE_ADDRESS_CONSTRAINTS: string := "Person addresses can be in BLOCK, STREET, UNIT, POSTAL_CODE format"

  const BLOCK_INDEX: nat := 0
  const STREET_INDEX: nat := 1
  const UNIT_INDEX: nat := 2
  const POSTAL_CODE_INDEX: nat := 3

  /** The exceptions construction can end in: the declared IllegalValueException with its message,
      and the undeclared ArrayIndexOutOfBoundsException of indexing the split result. */
  datatype Exception =
    | IllegalValue(message: string)
    | ArrayIndexOutOfBounds(index: nat, length: nat)

  /** The result of running the constructor. */
  datatype Outcome = Constructed(address: Address) | Threw(error: Exception)

  /** An Address: the trimmed input, the texts of its four parts and the privacy flag. */
  datatype Address = Address(value: string, block: string, street: string, unit: string, postalCode: string, isPrivate: bool)

  /** What `equals` may be handed: another Address, or null or an object of another class. */
  datatype Other = AnAddress(address: Address) | NotAnAddress

  /** `new Address(address, isPrivate)`. Since `split` keeps every piece of a non-empty trimmed
      string (SplitKeepsAllPieces), the contract speaks of the pieces of the trimmed input. */
  function Construct(address: string, isPrivate: bool): (r: Outcome)
    ensures r.Constructed? <==> IsValidAddress(Trim(address)) && |Pieces(Trim(address))| >= 4
    ensures r.Threw? && r.error.IllegalValue? <==> !IsValidAddress(Trim(address))
    ensures r.Threw? && r.error.IllegalValue? ==> r.error.message == MESSAGE_ADDRESS_CONSTRAINTS
    ensures r.Threw? && r.error.ArrayIndexOutOfBounds? ==>
              r.error.index == r.error.length == |Pieces(Trim(address))| && BLOCK_INDEX < r.error.index <= POSTAL_CODE_INDEX
    ensures r.Constructed? ==>
              && r.address.value == Trim(address) && r.address.isPrivate == isPrivate
              && [r.address.block, r.address.street, r.address.unit, r.address.postalCode] == Pieces(Trim(address))[..4]
  {
    ConstructTrimmed(Trim(address), isPrivate)
  }

  /** The constructor from the point where its input is trimmed: split on SPLIT_TOKEN, validate,
      then read the parts at indices 0 to 3 of the split, in that order. */
  function ConstructTrimmed(trimmed: string, isPrivate: bool): (r: Outcome)
    requires IsTrimmed(trimmed)
    ensures r.Constructed? <==> IsValidAddress(trimmed) && |Pieces(trimmed)| >= 4
    ensures r.Threw? && r.error.IllegalValue? <==> !IsValidAddress(trimmed)
    ensures r.Threw? && r.error.IllegalValue? ==> r.error.message == MESSAGE_ADDRESS_CONSTRAINTS
    ensures r.Threw? && r.error.ArrayIndexOutOfBounds? ==>
              r.error.index == r.error.length == |Pieces(trimmed)| && BLOCK_INDEX < r.error.index <= POSTAL_CODE_INDEX
    ensures r.Constructed? ==>
              && r.address.value == trimmed && r.address.isPrivate == isPrivate
              && [r.address.block, r.address.street, r.address.unit, r.address.postalCode] == Pieces(trimmed)[..4]
  {
    var split := Split(trimmed);
    if !IsValidAddress(trimmed) then Threw(IllegalValue(MESSAGE_ADDRESS_CONSTRAINTS))
    else
      SplitKeepsAllPieces(trimmed);
      // The parts are read at indices 0, 1, 2, 3 in turn, so the first index out of range is the
      // length of the split.
      if |split| <= POSTAL_CODE_INDEX then Threw(ArrayIndexOutOfBounds(|split|, |split|))
      else
        assert split[..4] == [split[BLOCK_INDEX], split[STREET_INDEX], split[UNIT_INDEX], split[POSTAL_CODE_INDEX]];
        Constructed(Address(trimmed, split[BLOCK_INDEX], split[STREET_INDEX], split[UNIT_INDEX],
                            split[POSTAL_CODE_INDEX], isPrivate))
  }

  /** `toString` as written: every part followed by SPLIT_TOKEN, the postal code included, which
      is the intended form with one SPLIT_TOKEN too many. */
  function ToString(a: Address): (r: string)
    ensures r == CanonicalString(a) + SPLIT_TOKEN
  {
    JoinFour(a.block, a.street, a.unit, a.postalCode);
    a.block + SPLIT_TOKEN + a.street + SPLIT_TOKEN + a.unit + SPLIT_TOKEN + a.postalCode + SPLIT_TOKEN
  }

  /** The form the string was meant to have: the four parts joined by SPLIT_TOKEN. When no part
      holds the token, splitting it gives back exactly the four parts. */
  function CanonicalString(a: Address): (r: string)
    ensures PartsTokenFree(a) ==> Pieces(r) == [a.block, a.street, a.unit, a.postalCode]
  {
    var parts := [a.block, a.street, a.unit, a.postalCode];
    if PartsTokenFree(a) then
      JoinPieces(parts);
      Join(parts)
    else Join(parts)
  }

  /** `equals`. Its short circuit `other == this` never changes the answer: an Address's string
      form equals itself. For Addresses whose parts hold no SPLIT_TOKEN, as constructed ones
      never do, it holds exactly when the four parts are equal; the value beyond the fourth part
      and the privacy flag play no part. */
  predicate Equals(a: Address, other: Other)
    ensures !other.AnAddress? ==> !Equals(a, other)
    ensures other.AnAddress? && PartsTokenFree(a) && PartsTokenFree(other.address) ==>
      (Equals(a, other) <==>
        a.block == other.address.block && a.street == other.address.street
        && a.unit == other.address.unit && a.postalCode == other.address.postalCode)
  {
    other.AnAddress? && (StringFormDeterminesParts(a, other.address); ToString(a) == ToString(other.address))
  }

  /** Two Addresses with token-free parts have the same `toString` exactly when their parts agree. */
  lemma StringFormDeterminesParts(a: Address, b: Address)
    ensures PartsTokenFree(a) && PartsTokenFree(b) ==>
      (ToString(a) == ToString(b) <==>
        a.block == b.block && a.street == b.street && a.unit == b.unit && a.postalCode == b.postalCode)
  {
    if PartsTokenFree(a) && PartsTokenFree(b) && ToString(a) == ToString(b) {
      var ta := ToString(a);
      assert CanonicalString(a) == ta[..|ta| - 2] == CanonicalString(b);
      assert [a.block, a.street, a.unit, a.postalCode] == [b.block, b.street, b.unit, b.postalCode];
    }
  }

  /** `hashCode`: the string hash of `toString`. The hash function on strings is a parameter. The
      hash is taken of the intended form plus the separator, so it depends on the four parts only. */
  function HashCode(a: Address, stringHash: string -> int): (r: int)
    ensures r == stringHash(CanonicalString(a) + SPLIT_TOKEN)
  {
    stringHash(ToString(a))
  }

  /** `isPrivate()`: the flag that, with the value, makes the constructor rebuild this Address. */
  function IsPrivate(a: Address): (r: bool)
    ensures Valid(a) ==> Construct(a.value, r) == Constructed(a)
  {
    if Valid(a) then
      ValidIsConstructed(a);
      a.isPrivate
    else a.isPrivate
  }

  /** None of the four parts holds SPLIT_TOKEN. */
  predicate PartsTokenFree(a: Address) {
    !HasToken(a.block) && !HasToken(a.street) && !HasToken(a.unit) && !HasToken(a.postalCode)
  }

  /** What every constructed Address satisfies: its value is trimmed and valid, its parts hold no
      SPLIT_TOKEN, and the value is the four parts joined, possibly followed by a token and more. */
  predicate Valid(a: Address) {
    && IsValidAddress(a.value)
    && IsTrimmed(a.value)
    && PartsTokenFree(a)
    && (a.value == CanonicalString(a) || ToString(a) <= a.value)
  }

  /** The scan cuts after every part of a token-free list followed by the token. */
  lemma {:induction false} PiecesAfterJoin(parts: seq<string>, rest: string)
    requires |parts| > 0
    requires forall i | 0 <= i < |parts| :: !HasToken(parts[i])
    ensures Pieces(Join(parts) + SPLIT_TOKEN + rest) == parts + Pieces(rest)
    decreases |parts|
  {
    if |parts| == 1 {
      PiecesAfterPart(parts[0], rest);
    } else {
      var tail := parts[1..];
      PiecesAfterJoin(tail, rest);
      assert Join(parts) + SPLIT_TOKEN + rest == parts[0] + SPLIT_TOKEN + (Join(tail) + SPLIT_TOKEN + rest);
      PiecesAfterPart(parts[0], Join(tail) + SPLIT_TOKEN + rest);
      assert parts == [parts[0]] + tail;
    }
  }

  /** Every Address the constructor returns is Valid; its parts are the first four pieces of the
      trimmed input, which rejoin to the whole value exactly when there are four. */
  lemma ConstructedIsValid(address: string, isPrivate: bool)
    requires Construct(address, isPrivate).Constructed?
    ensures var a := Construct(address, isPrivate).address;
      && Valid(a)
      && [a.block, a.street, a.unit, a.postalCode] == Pieces(a.value)[..4]
      && (a.value == CanonicalString(a) <==> |Pieces(a.value)| == 4)
  {
    var a := Construct(address, isPrivate).address;
    var t := a.value;
    PiecesJoin(t);
    var ps := Pieces(t);
    assert [a.block, a.street, a.unit, a.postalCode] == ps[..4];
    assert PartsTokenFree(a) by {
      assert ps[0] == a.block && ps[1] == a.street && ps[2] == a.unit && ps[3] == a.postalCode;
    }
    JoinFirstPieces(t, 4);
  }

  /** Conversely, the constructor rebuilds every Valid Address from its value and flag: Valid is
      exactly the set of Addresses construction can produce. */
  lemma ValidIsConstructed(a: Address)
    requires Valid(a)
    ensures Construct(a.value, a.isPrivate) == Constructed(a)
  {
    TrimFixpoint(a.value);
    ValidIsConstructedTrimmed(a);
  }

  lemma ValidIsConstructedTrimmed(a: Address)
    requires Valid(a)
    ensures ConstructTrimmed(a.value, a.isPrivate) == Constructed(a)
  {
    ValidPiecesAreParts(a);
  }

  /** The first four pieces of a Valid Address's value are its parts. */
  lemma ValidPiecesAreParts(a: Address)
    requires Valid(a)
    ensures |Pieces(a.value)| >= 4 && Pieces(a.value)[..4] == [a.block, a.street, a.unit, a.postalCode]
  {
    var v := a.value;
    if v != CanonicalString(a) {
      var t := ToString(a);
      var rest := v[|t|..];
      assert v == t + rest;
      PiecesAfterJoin([a.block, a.street, a.unit, a.postalCode], rest);
    }
  }

  /** Adding a comma at the end of a token-free string cannot create a token. */
  lemma AppendCommaKeepsTokenFree(s: string)
    requires !HasToken(s)
    ensures !HasToken(s + ",")
  {
    forall j | 0 <= j < |s + ","| ensures !TokenAt(s + ",", j) {
      if j + 1 < |s| {
        assert !TokenAt(s, j);
        assert (s + ",")[j] == s[j] && (s + ",")[j + 1] == s[j + 1];
      } else if j + 1 == |s| {
        assert (s + ",")[j + 1] == ',';
      }
    }
  }

  /** `toString` does not round-trip: rebuilding from its output either fails or yields the same
      block, street and unit with a comma appended to the postal code, never the same Address. */
  lemma ToStringDoesNotRoundTrip(a: Address)
    requires Valid(a)
    ensures var r := Construct(ToString(a), a.isPrivate);
      && r != Constructed(a)
      && (r.Constructed? ==>
            r.address.block == a.block && r.address.street == a.street && r.address.unit == a.unit
            && r.address.postalCode == a.postalCode + ",")
  {
    var c := CanonicalString(a);
    var t := ToString(a);
    JoinFour(a.block, a.street, a.unit, a.postalCode);
    assert c <= a.value by {
      if a.value != c {
        assert c <= t;
      }
    }
    assert |c| >= 6 && c[0] == a.value[0];
    var c' := c + ",";
    assert t == c' + " ";
    assert BlankAround(t, 0, c');
    TrimUnique(t, 0, c');
    RebuiltFromTrimmedToString(a, c');
  }

  /** The trimmed `toString` output is the intended form with a comma after the postal code, and
      construction reads that comma into the postal code. */
  lemma RebuiltFromTrimmedToString(a: Address, c': string)
    requires PartsTokenFree(a) && c' == CanonicalString(a) + ","
    requires IsTrimmed(c')
    ensures var r := ConstructTrimmed(c', a.isPrivate);
      r.Constructed? ==>
        r.address.block == a.block && r.address.street == a.street && r.address.unit == a.unit
        && r.address.postalCode == a.postalCode + ","
  {
    var (b, s, u, p) := (a.block, a.street, a.unit, a.postalCode);
    var parts := [b, s, u, p + ","];
    JoinFour(b, s, u, p);
    JoinFour(b, s, u, p + ",");
    assert Join(parts) == c';
    AppendCommaKeepsTokenFree(p);
    JoinPieces(parts);
    assert Pieces(c')[..4] == parts;
  }

  /** The intended string form round-trips: an Address whose value is exactly its four parts
      joined is rebuilt unchanged from CanonicalString. */
  lemma CanonicalRoundTrip(a: Address)
    requires Valid(a) && a.value == CanonicalString(a)
    ensures Construct(CanonicalString(a), a.isPrivate) == Constructed(a)
  {
    ValidIsConstructed(a);
  }

  /** Comparing the as-written string forms is comparing the intended ones: the trailing token
      does not change which Addresses are equal. */
  lemma EqualsAgreesWithCanonical(a: Address, b: Address)
    ensures Equals(a, AnAddress(b)) <==> CanonicalString(a) == CanonicalString(b)
  {
    if ToString(a) == ToString(b) {
      var ta := ToString(a);
      assert CanonicalString(a) == ta[..|ta| - 2] == CanonicalString(b);
    }
  }

  /** `equals` is an equivalence relation, and an Address is never equal to a non-Address. */
  lemma EqualsIsEquivalence(a: Address, b: Address, c: Address)
    ensures Equals(a, AnAddress(a))
    ensures Equals(a, AnAddress(b)) ==> Equals(b, AnAddress(a))
    ensures Equals(a, AnAddress(b)) && Equals(b, AnAddress(c)) ==> Equals(a, AnAddress(c))
    ensures !Equals(a, NotAnAddress)
  {
  }

  /** Equal Addresses have equal hash codes, whatever the string hash. */
  lemma EqualsImpliesEqualHash(a: Address, b: Address, stringHash: string -> int)
    requires Equals(a, AnAddress(b))
    ensures HashCode(a, stringHash) == HashCode(b, stringHash)
  {
  }

  /** `isPrivate()` returns the flag given to the constructor whatever the text; the flag neither
      decides whether construction succeeds nor takes part in equality. */
  lemma PrivacyFlagIsIndependent(address: string, isPrivate: bool)
    requires Construct(address, isPrivate).Constructed?
    ensures IsPrivate(Construct(address, isPrivate).address) == isPrivate
    ensures Construct(address, !isPrivate).Constructed?
    ensures Equals(Construct(address, isPrivate).address, AnAddress(Construct(address, !isPrivate).address))
  {
  }

  /** Inputs that trim to the same string build equal Addresses with equal hash codes, whatever
      their flags. */
  lemma SameTrimSameAddress(x: string, y: string, p: bool, q: bool, stringHash: string -> int)
    requires Trim(x) == Trim(y) && Construct(x, p).Constructed?
    ensures Construct(y, q).Constructed?
    ensures Equals(Construct(x, p).address, AnAddress(Construct(y, q).address))
    ensures HashCode(Construct(x, p).address, stringHash) == HashCode(Construct(y, q).address, stringHash)
  {
  }

  /** The constructor with the validation the message describes: an input whose split has fewer
      than four parts is rejected with the constraint message instead of failing on an index. */
  function ConstructChecked(address: string, isPrivate: bool): (r: Outcome)
    ensures !(r.Threw? && r.error.ArrayIndexOutOfBounds?)
    ensures r.Threw? ==> r.error == IllegalValue(MESSAGE_ADDRESS_CONSTRAINTS)
    ensures r.Constructed? <==> Construct(address, isPrivate).Constructed?
    ensures r.Constructed? ==> r == Construct(address, isPrivate)
  {
    var trimmed := Trim(address);
    if !IsValidAddress(trimmed) || |Split(trimmed)| < 4 then Threw(IllegalValue(MESSAGE_ADDRESS_CONSTRAINTS))
    else ConstructTrimmed(trimmed, isPrivate)
  }

  /** As written, an input that passes validation but holds no SPLIT_TOKEN (commas without the
      space) fails on index 1 of a one-element split, not with the constraint message. */
  lemma ValidWithoutTokenFailsOnIndex(address: string, isPrivate: bool)
    requires IsValidAddress(Trim(address)) && !HasToken(Trim(address))
    ensures Construct(address, isPrivate) == Threw(ArrayIndexOutOfBounds(STREET_INDEX, 1))
    ensures ConstructChecked(address, isPrivate) == Threw(IllegalValue(MESSAGE_ADDRESS_CONSTRAINTS))
  {
  }
}
