/** Worked instances of the Address model: the class's own EXAMPLE, surrounding blanks, commas
    without the space after them, and the string `toString` produces. */
module AddressExamples {
  import opened JavaText
  import opened AddressValidation
  import opened AddressSplit
  import opened PersonAddress

  /** The Address that EXAMPLE describes. */
  function ExampleAddress(isPrivate: bool): Address {
    Address(EXAMPLE, "123", "Bishan Ave 5", "#15-12", "460123", isPrivate)
  }

  /** A string without a comma holds no SPLIT_TOKEN. */
  lemma NoCommaNoToken(s: string)
    requires forall i | 0 <= i < |s| :: s[i] != ','
    ensures !HasToken(s)
  {
  }

  /** A string without a space holds no SPLIT_TOKEN. */
  lemma NoSpaceNoToken(s: string)
    requires forall i | 0 <= i < |s| :: s[i] != ' '
    ensures !HasToken(s)
  {
  }

  lemma ExamplePartsTokenFree(isPrivate: bool)
    ensures PartsTokenFree(ExampleAddress(isPrivate))
  {
    NoCommaNoToken("123");
    NoCommaNoToken("Bishan Ave 5");
    NoCommaNoToken("#15-12");
    NoCommaNoToken("460123");
  }

  /** EXAMPLE is four parts joined by SPLIT_TOKEN, none of which holds the token. */
  lemma ExampleIsCanonical(isPrivate: bool)
    ensures PartsTokenFree(ExampleAddress(isPrivate))
    ensures EXAMPLE == CanonicalString(ExampleAddress(isPrivate))
  {
    ExamplePartsTokenFree(isPrivate);
    JoinFour("123", "Bishan Ave 5", "#15-12", "460123");
    ExampleSpelledOut();
  }

  lemma ExampleSpelledOut()
    ensures EXAMPLE == "123" + SPLIT_TOKEN + "Bishan Ave 5" + SPLIT_TOKEN + "#15-12" + SPLIT_TOKEN + "460123"
  {
    assert "123" + SPLIT_TOKEN == "123, ";
    assert "123, " + "Bishan Ave 5" == "123, Bishan Ave 5";
    assert "123, Bishan Ave 5" + SPLIT_TOKEN == "123, Bishan Ave 5, ";
    assert "123, Bishan Ave 5, " + "#15-12" == "123, Bishan Ave 5, #15-12";
    assert "123, Bishan Ave 5, #15-12" + SPLIT_TOKEN == "123, Bishan Ave 5, #15-12, ";
  }

  /** EXAMPLE passes validation: commas at 3, 17 and 25 of its 33 characters. */
  lemma ExampleIsValid()
    ensures IsValidAddress(EXAMPLE)
  {
    ExampleHasNoLineTerminator();
    assert EXAMPLE[3] == ',' && EXAMPLE[17] == ',' && EXAMPLE[25] == ',';
    CommasMakeValid(EXAMPLE, 3, 17, 25);
  }

  lemma ExampleHasNoLineTerminator()
    ensures NoLineTerminator(EXAMPLE)
  {
    ExampleSpelledOut();
    NoLineTerminatorAppend("123", SPLIT_TOKEN);
    NoLineTerminatorAppend("123" + SPLIT_TOKEN, "Bishan Ave 5");
    NoLineTerminatorAppend("123" + SPLIT_TOKEN + "Bishan Ave 5", SPLIT_TOKEN);
    NoLineTerminatorAppend("123" + SPLIT_TOKEN + "Bishan Ave 5" + SPLIT_TOKEN, "#15-12");
    NoLineTerminatorAppend("123" + SPLIT_TOKEN + "Bishan Ave 5" + SPLIT_TOKEN + "#15-12", SPLIT_TOKEN);
    NoLineTerminatorAppend("123" + SPLIT_TOKEN + "Bishan Ave 5" + SPLIT_TOKEN + "#15-12" + SPLIT_TOKEN, "460123");
  }

  lemma NoLineTerminatorAppend(x: string, y: string)
    requires NoLineTerminator(x) && NoLineTerminator(y)
    ensures NoLineTerminator(x + y)
  {
    forall i | 0 <= i < |x + y| ensures !IsLineTerminator((x + y)[i]) {
      if i >= |x| { assert (x + y)[i] == y[i - |x|]; }
    }
  }

  /** `new Address(EXAMPLE, isPrivate)` succeeds with the four parts of EXAMPLE. */
  lemma ExampleConstructs(isPrivate: bool)
    ensures Construct(EXAMPLE, isPrivate) == Constructed(ExampleAddress(isPrivate))
  {
    ExampleIsCanonical(isPrivate);
    ExampleIsValid();
    ValidIsConstructed(ExampleAddress(isPrivate));
  }

  /** Blanks around the input are trimmed away before anything else happens. */
  lemma SurroundingBlanksAreTrimmed(isPrivate: bool)
    ensures Construct(" \t" + EXAMPLE + "\n", isPrivate) == Constructed(ExampleAddress(isPrivate))
  {
    var s := " \t" + EXAMPLE + "\n";
    assert s[2..2 + |EXAMPLE|] == EXAMPLE;
    assert BlankAround(s, 2, EXAMPLE);
    TrimUnique(s, 2, EXAMPLE);
    ExampleConstructs(isPrivate);
  }

  /** Commas without a following space pass validation but leave a one-element split, so
      construction fails on index 1 rather than with the constraint message. */
  lemma CommasWithoutSpaceFailOnIndex(isPrivate: bool)
    ensures Construct("1,2,3,4", isPrivate) == Threw(ArrayIndexOutOfBounds(STREET_INDEX, 1))
    ensures ConstructChecked("1,2,3,4", isPrivate) == Threw(IllegalValue(MESSAGE_ADDRESS_CONSTRAINTS))
  {
    var s := "1,2,3,4";
    TrimFixpoint(s);
    assert s[1] == ',' && s[3] == ',' && s[5] == ',';
    NoSpaceNoToken(s);
    ValidWithoutTokenFailsOnIndex(s, isPrivate);
  }

  /** A string with fewer than three commas is rejected with the constraint message. */
  lemma TooFewCommasRejected(isPrivate: bool)
    ensures Construct("1, 2, 3", isPrivate) == Threw(IllegalValue(MESSAGE_ADDRESS_CONSTRAINTS))
  {
    var s := "1, 2, 3";
    TrimFixpoint(s);
    assert !HasSeparatingCommas(s);
  }

  /** A piece may be empty: two separators in a row give an empty unit. */
  lemma EmptyUnitKept(isPrivate: bool)
    ensures Construct("a, b, , d", isPrivate) == Constructed(Address("a, b, , d", "a", "b", "", "d", isPrivate))
  {
    EmptyUnitValid(isPrivate);
    ValidIsConstructed(Address("a, b, , d", "a", "b", "", "d", isPrivate));
  }

  lemma EmptyUnitValid(isPrivate: bool)
    ensures Valid(Address("a, b, , d", "a", "b", "", "d", isPrivate))
  {
    var a := Address("a, b, , d", "a", "b", "", "d", isPrivate);
    NoCommaNoToken("a");
    NoCommaNoToken("b");
    NoCommaNoToken("");
    NoCommaNoToken("d");
    JoinFour("a", "b", "", "d");
    assert a.value == CanonicalString(a);
    EmptyUnitValueIsValid();
  }

  lemma EmptyUnitValueIsValid()
    ensures IsValidAddress("a, b, , d")
  {
    var v := "a, b, , d";
    assert v[1] == ',' && v[4] == ',' && v[6] == ',';
    CommasMakeValid(v, 1, 4, 6);
  }

  /** Pieces after the fourth are dropped: the value keeps them, the parts do not. */
  lemma FifthPartDropped(isPrivate: bool)
    ensures Construct("a, b, c, d, e", isPrivate) == Constructed(Address("a, b, c, d, e", "a", "b", "c", "d", isPrivate))
  {
    FifthPartValid(isPrivate);
    ValidIsConstructed(Address("a, b, c, d, e", "a", "b", "c", "d", isPrivate));
  }

  lemma FifthPartValid(isPrivate: bool)
    ensures Valid(Address("a, b, c, d, e", "a", "b", "c", "d", isPrivate))
  {
    var a := Address("a, b, c, d, e", "a", "b", "c", "d", isPrivate);
    NoCommaNoToken("a");
    NoCommaNoToken("b");
    NoCommaNoToken("c");
    NoCommaNoToken("d");
    assert ToString(a) == "a, b, c, d, ";
    assert ToString(a) <= a.value;
    assert a.value[1] == ',' && a.value[4] == ',' && a.value[7] == ',';
  }

  /** `toString` of the example ends with a separator, and rebuilding from it appends a comma to
      the postal code. */
  lemma ExampleToStringRebuildsWrongPostalCode(isPrivate: bool)
    ensures ToString(ExampleAddress(isPrivate)) == EXAMPLE + SPLIT_TOKEN
    ensures Construct(ToString(ExampleAddress(isPrivate)), isPrivate) == Constructed(RebuiltExample(isPrivate))
  {
    ExampleIsCanonical(isPrivate);
    ExampleToStringTrims();
    RebuiltExampleIsValid(isPrivate);
    ValidIsConstructed(RebuiltExample(isPrivate));
    TrimFixpoint(EXAMPLE + ",");
  }

  /** What the constructor builds from the example's `toString`. */
  function RebuiltExample(isPrivate: bool): Address {
    Address(EXAMPLE + ",", "123", "Bishan Ave 5", "#15-12", "460123,", isPrivate)
  }

  lemma ExampleToStringTrims()
    ensures Trim(EXAMPLE + SPLIT_TOKEN) == EXAMPLE + ","
  {
    var t := EXAMPLE + SPLIT_TOKEN;
    assert t[0..|EXAMPLE| + 1] == EXAMPLE + ",";
    assert BlankAround(t, 0, EXAMPLE + ",");
    TrimUnique(t, 0, EXAMPLE + ",");
  }

  lemma RebuiltExampleIsValid(isPrivate: bool)
    ensures Valid(RebuiltExample(isPrivate))
  {
    RebuiltExampleIsCanonical(isPrivate);
    RebuiltValueIsValid();
  }

  lemma RebuiltExampleIsCanonical(isPrivate: bool)
    ensures PartsTokenFree(RebuiltExample(isPrivate))
    ensures RebuiltExample(isPrivate).value == CanonicalString(RebuiltExample(isPrivate))
  {
    ExamplePartsTokenFree(isPrivate);
    AppendCommaKeepsTokenFree("460123");
    JoinFour("123", "Bishan Ave 5", "#15-12", "460123,");
    ExampleSpelledOut();
    Assoc("123" + SPLIT_TOKEN + "Bishan Ave 5" + SPLIT_TOKEN + "#15-12" + SPLIT_TOKEN, "460123", ",");
  }

  lemma RebuiltValueIsValid()
    ensures IsValidAddress(EXAMPLE + ",")
  {
    ExampleHasNoLineTerminator();
    NoLineTerminatorAppend(EXAMPLE, ",");
    var v := EXAMPLE + ",";
    assert v[3] == ',' && v[17] == ',' && v[25] == ',';
    CommasMakeValid(v, 3, 17, 25);
  }

  /** Three separating commas in a terminator-free string make it a valid address. */
  lemma CommasMakeValid(s: string, p1: int, p2: int, p3: int)
    requires NoLineTerminator(s)
    requires 0 < p1 && p1 + 1 < p2 && p2 + 1 < p3 && p3 + 1 < |s|
    requires s[p1] == ',' && s[p2] == ',' && s[p3] == ','
    ensures IsValidAddress(s)
  {
  }
}
