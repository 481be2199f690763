# Address value model

A Dafny model of the `Address` class of the address book and of its four part classes `Block`,
`Street`, `Unit` and `PostalCode`. Construction goes through these steps:

1. Trim the raw string.
2. Check the trimmed string against the pattern `.+,.+,.+,.+`.
3. Split it on the token `", "`.
4. Read the parts at indices 0 to 3.

`toString` rebuilds a string from the four parts. `equals` and `hashCode` go through that string.
The privacy flag is carried along unchanged.

Modules:

- `JavaText` (`java_text.dfy`): Java's `String.trim`. It removes every character up to U+0020 from both ends.
- `AddressSplit` (`address_split.dfy`): `String.split(", ")` with the default limit 0.
  - `Pieces` cuts the string at every leftmost occurrence of the token.
  - `Split` drops trailing empty pieces and returns the input alone when the token is absent.
  - `Join` is the inverse, proved as such.
- `AddressValidation` (`address_validation.dfy`): `isValidAddress`.
  - Read directly, the pattern means: no line terminator, and three commas that separate four non-empty stretches.
  - `MatchesGroups` reads the pattern group by group.
  - The two readings are proved equal.
- `PersonAddress` (`address.dfy`): the Address itself.
  - It is a datatype holding the trimmed value, the texts of the four parts and the flag.
  - An Address uses its part objects only through their text.
  - Construction returns `Constructed(address)` or `Threw(exception)`.
  - `Valid` characterises exactly the Addresses construction can produce (proved in both directions).
- `AddressParts` (`address_parts.dfy`): the four part classes.
  - They are Dafny classes with a `const` field, because their `equals` compares object identity first.
  - Java's `instanceof` is Dafny's `is` on `object?`.
- `AddressExamples` (`address_examples.dfy`): worked instances, including the class's own `EXAMPLE`.

`String.hashCode` is a parameter `stringHash: string -> int` wherever a hash is taken.

`Block.equals` (Address.java:96-99) compares the texts of two Blocks. `Street`, `Unit` and
`PostalCode` test `instanceof Block` instead. `Address.toString` (Address.java:56-64) puts the
separator after the postal code as well. Both behaviours are listed under Findings.

## Model

| member | source | states |
|---|---|---|
| JavaText.Trim | src/seedu/addressbook/data/person/Address.java:35 | the trimmed string occurs in the input with only characters up to U+0020 around it, and is empty or starts and ends with a character above U+0020 |
| JavaText.TrimUnique | src/seedu/addressbook/data/person/Address.java:35 | those two properties determine the result of `trim` |
| JavaText.TrimFixpoint | src/seedu/addressbook/data/person/Address.java:35 | `trim` returns its argument unchanged exactly when the argument has nothing to remove |
| JavaText.TrimIdempotent | src/seedu/addressbook/data/person/Address.java:35 | trimming twice is trimming once |
| AddressSplit.PiecesJoin | src/seedu/addressbook/data/person/Address.java:37 | the `Pieces` of a string, trailing empty ones included, rejoin with `", "` to the original string, and no piece holds `", "` |
| AddressSplit.JoinPieces | src/seedu/addressbook/data/person/Address.java:37 | the `Pieces` of the join of a non-empty list of token-free parts are that list (`Split` may drop trailing empty parts of it) |
| AddressSplit.PiecesAfterPart | src/seedu/addressbook/data/person/Address.java:37 | the split cuts at the first token after a token-free part |
| AddressSplit.DropTrailingEmpty | src/seedu/addressbook/data/person/Address.java:37 | the result is a prefix of the pieces that ends in a non-empty piece, and only empty pieces are dropped |
| AddressSplit.Split | src/seedu/addressbook/data/person/Address.java:37 | `split` returns the input alone when it holds no token; otherwise it returns a prefix of the pieces that leaves off only empty pieces and ends in a non-empty one; no element holds the token |
| AddressSplit.SplitKeepsAllPieces | src/seedu/addressbook/data/person/Address.java:35-37 | on a non-empty string not ending in a space, which includes every non-empty trimmed string, `split` drops nothing |
| AddressSplit.JoinFirstPieces | src/seedu/addressbook/data/person/Address.java:37 | the first n pieces rejoin to the whole string when they are all the pieces, and otherwise to a prefix of the string followed by the token |
| AddressValidation.IsValidAddress | src/seedu/addressbook/data/person/Address.java:51-53 | `isValidAddress` holds exactly when the string matches `.+` followed by three repetitions of `,.+` (both directions) |
| AddressValidation.GroupsHaveNoLineTerminator | src/seedu/addressbook/data/person/Address.java:13 | a string matching the pattern holds none of the line terminators that `.` does not match |
| AddressValidation.MatchFromCommas | src/seedu/addressbook/data/person/Address.java:13 | three commas that separate four non-empty, terminator-free stretches give a match of the pattern |
| PersonAddress.Construct | src/seedu/addressbook/data/person/Address.java:34-46 | the constructor throws IllegalValueException with the constraint message exactly when the trimmed input fails validation; otherwise it throws ArrayIndexOutOfBoundsException at index = length = number of pieces (1 to 3) when there are fewer than four pieces; otherwise it succeeds with value = trimmed input, the flag kept, and the parts = the first four pieces |
| PersonAddress.ConstructTrimmed | src/seedu/addressbook/data/person/Address.java:37-45 | the same outcomes, stated for an input that is already trimmed |
| PersonAddress.ConstructedIsValid | src/seedu/addressbook/data/person/Address.java:34-46 | every constructed Address is Valid; its parts are the first four pieces of its value, and the value is exactly the parts joined if and only if there are four pieces |
| PersonAddress.ValidIsConstructed | src/seedu/addressbook/data/person/Address.java:34-46 | every Valid Address is what the constructor builds from its own value and flag |
| PersonAddress.SameTrimSameAddress | src/seedu/addressbook/data/person/Address.java:34-46 | inputs with the same trimmed form build Addresses that are equal and have equal hash codes, whatever the flags |
| PersonAddress.ToString | src/seedu/addressbook/data/person/Address.java:56-64 | `toString` is the four parts joined by `", "`, followed by one more `", "` |
| PersonAddress.CanonicalString | src/seedu/addressbook/data/person/Address.java:56-64 | the intended string form: when no part holds `", "`, splitting it gives back exactly the four parts |
| PersonAddress.ToStringDoesNotRoundTrip | src/seedu/addressbook/data/person/Address.java:56-64 | rebuilding from `toString` never gives back the same Address; if it succeeds, block, street and unit are kept and the postal code gains a trailing comma |
| PersonAddress.CanonicalRoundTrip | src/seedu/addressbook/data/person/Address.java:56-64 | the parts joined without the trailing separator rebuild the same Address when its value has exactly four parts |
| PersonAddress.EqualsAgreesWithCanonical | src/seedu/addressbook/data/person/Address.java:66-71 | comparing the `toString` strings is comparing the parts joined without the trailing separator |
| PersonAddress.Equals | src/seedu/addressbook/data/person/Address.java:66-71 | `equals` is false for a non-Address; two Addresses whose parts hold no token are equal exactly when their four parts are equal, whatever their values beyond the fourth part and their flags |
| PersonAddress.EqualsIsEquivalence | src/seedu/addressbook/data/person/Address.java:66-71 | `equals` is reflexive, symmetric and transitive, and false for a non-Address |
| PersonAddress.HashCode | src/seedu/addressbook/data/person/Address.java:73-76 | `hashCode` is the string hash of the intended form followed by `", "`, so it depends on the four parts only |
| PersonAddress.EqualsImpliesEqualHash | src/seedu/addressbook/data/person/Address.java:73-76 | equal Addresses have equal hash codes for any string hash |
| PersonAddress.IsPrivate | src/seedu/addressbook/data/person/Address.java:78-80 | `isPrivate()` returns the flag that, together with the value, makes the constructor rebuild this Address |
| PersonAddress.PrivacyFlagIsIndependent | src/seedu/addressbook/data/person/Address.java:78-80 | `isPrivate()` returns the flag given; the flag decides neither success nor equality |
| PersonAddress.ValidWithoutTokenFailsOnIndex | src/seedu/addressbook/data/person/Address.java:37-43 | an input that passes validation but holds no `", "` fails on index 1 of a one-element split instead of with the constraint message |
| PersonAddress.ConstructChecked | src/seedu/addressbook/data/person/Address.java:39-45 | the corrected constructor never fails on an index, fails only with the constraint message, and succeeds on the same inputs as the original, with the same Address |
| AddressParts.Block.constructor | src/seedu/addressbook/data/person/Address.java:86-88 | the Block holds the given text |
| AddressParts.Block.Equals | src/seedu/addressbook/data/person/Address.java:96-100 | `equals` holds exactly for a Block with the same text |
| AddressParts.BlockEqualsIsEquivalence | src/seedu/addressbook/data/person/Address.java:96-100 | Block's `equals` is an equivalence, and false for null and other classes |
| AddressParts.BlockEqualsImpliesEqualHash | src/seedu/addressbook/data/person/Address.java:103-105 | equal Blocks have equal hash codes |
| AddressParts.Street.constructor | src/seedu/addressbook/data/person/Address.java:111-113 | the Street holds the given text |
| AddressParts.Street.Equals | src/seedu/addressbook/data/person/Address.java:121-125 | as written: true only for the same object, ClassCastException for a Block, false otherwise |
| AddressParts.Street.EqualsIntended | src/seedu/addressbook/data/person/Address.java:121-125 | corrected: holds exactly for a Street with the same text |
| AddressParts.StreetEqualsMissesEqualText | src/seedu/addressbook/data/person/Address.java:121-125 | two distinct Streets with the same text are unequal as written, but equal as intended and equal in hash |
| AddressParts.StreetEqualsBlockThrows | src/seedu/addressbook/data/person/Address.java:123-124 | comparing a Street with a Block throws ClassCastException |
| AddressParts.StreetEqualsSoundForTrue | src/seedu/addressbook/data/person/Address.java:121-125 | where the written `equals` answers true, the intended one does too |
| AddressParts.StreetEqualsIntendedIsEquivalence | src/seedu/addressbook/data/person/Address.java:121-130 | the intended `equals` is an equivalence, false for other classes, and consistent with `hashCode` |
| AddressParts.Unit.constructor | src/seedu/addressbook/data/person/Address.java:136-138 | the Unit holds the given text |
| AddressParts.Unit.Equals | src/seedu/addressbook/data/person/Address.java:146-150 | as written: true only for the same object, ClassCastException for a Block, false otherwise |
| AddressParts.Unit.EqualsIntended | src/seedu/addressbook/data/person/Address.java:146-150 | corrected: holds exactly for a Unit with the same text |
| AddressParts.UnitEqualsMissesEqualText | src/seedu/addressbook/data/person/Address.java:146-150 | two distinct Units with the same text are unequal as written, but equal as intended and equal in hash |
| AddressParts.UnitEqualsBlockThrows | src/seedu/addressbook/data/person/Address.java:148-149 | comparing a Unit with a Block throws ClassCastException |
| AddressParts.UnitEqualsSoundForTrue | src/seedu/addressbook/data/person/Address.java:146-150 | where the written `equals` answers true, the intended one does too |
| AddressParts.UnitEqualsIntendedIsEquivalence | src/seedu/addressbook/data/person/Address.java:146-155 | the intended `equals` is an equivalence, false for other classes, and consistent with `hashCode` |
| AddressParts.PostalCode.constructor | src/seedu/addressbook/data/person/Address.java:161-163 | the PostalCode holds the given text |
| AddressParts.PostalCode.Equals | src/seedu/addressbook/data/person/Address.java:171-175 | as written: true only for the same object, ClassCastException for a Block, false otherwise |
| AddressParts.PostalCode.EqualsIntended | src/seedu/addressbook/data/person/Address.java:171-175 | corrected: holds exactly for a PostalCode with the same text |
| AddressParts.PostalCodeEqualsMissesEqualText | src/seedu/addressbook/data/person/Address.java:171-175 | two distinct PostalCodes with the same text are unequal as written, but equal as intended and equal in hash |
| AddressParts.PostalCodeEqualsBlockThrows | src/seedu/addressbook/data/person/Address.java:173-174 | comparing a PostalCode with a Block throws ClassCastException |
| AddressParts.PostalCodeEqualsSoundForTrue | src/seedu/addressbook/data/person/Address.java:171-175 | where the written `equals` answers true, the intended one does too |
| AddressParts.PostalCodeEqualsIntendedIsEquivalence | src/seedu/addressbook/data/person/Address.java:171-180 | the intended `equals` is an equivalence, false for other classes, and consistent with `hashCode` |
| AddressExamples.ExampleIsValid | src/seedu/addressbook/data/person/Address.java:11-13 | `EXAMPLE` passes validation |
| AddressExamples.ExampleConstructs | src/seedu/addressbook/data/person/Address.java:11 | `EXAMPLE` builds the Address with parts "123", "Bishan Ave 5", "#15-12", "460123" |
| AddressExamples.SurroundingBlanksAreTrimmed | src/seedu/addressbook/data/person/Address.java:35-36 | blanks around `EXAMPLE` are removed before validation and storage |
| AddressExamples.CommasWithoutSpaceFailOnIndex | src/seedu/addressbook/data/person/Address.java:37-43 | "1,2,3,4" passes validation and then fails on index 1, where the corrected constructor reports the constraint message |
| AddressExamples.TooFewCommasRejected | src/seedu/addressbook/data/person/Address.java:39-41 | "1, 2, 3" is rejected with the constraint message |
| AddressExamples.EmptyUnitKept | src/seedu/addressbook/data/person/Address.java:42-45 | "a, b, , d" builds an Address whose unit is the empty string |
| AddressExamples.FifthPartDropped | src/seedu/addressbook/data/person/Address.java:42-45 | for "a, b, c, d, e" the value keeps all five pieces and the parts are the first four |
| AddressExamples.ExampleToStringRebuildsWrongPostalCode | src/seedu/addressbook/data/person/Address.java:56-64 | `toString` of `EXAMPLE` ends in ", ", and rebuilding from it gives the postal code "460123," |

## Left out

- `Contact.java` is not part of this model. It has no logic to state: a getter, a `toString` returning a field its constructor never sets, and a hash of that field. `Address` does not use it.
- `String.hashCode`'s concrete arithmetic (31-based, 32-bit wrap-around) is not modelled. Every hash is taken through a parameter `stringHash`, so the hash lemmas hold for any string hash.
- Java strings are UTF-16. The model's strings are sequences of Unicode scalar values, so supplementary characters are one character here, not two.
- The regular-expression engine is not modelled in general. Only the one pattern `.+,.+,.+,.+` is read off directly, under Java's default flags, where `.` excludes `\n`, `\r`, U+0085, U+2028 and U+2029.
- The `BLOCK_INDEX` to `POSTAL_CODE_INDEX` fields are instance fields in the source. Here they are module constants with the same values.
- The source file does not compile as written. The Address fields are declared with types `BLOCK`, `STREET` and `UNIT`. The constructor of `Block` is named `block` (line 86), and the constructors of `Street`, `Unit` and `PostalCode` are all named `street` (lines 111, 136 and 161). `@override` is written in lower case. The model follows the evident intent: the types `Block`, `Street`, `Unit` and `PostalCode`, each with its own constructor.
- A null argument is not modelled. The model's strings cannot be null, so the NullPointerException that `address.trim()` (line 35) or `test.matches` (line 52) would throw is not represented.
- An `Address` holds the texts of its parts rather than part objects. Address's `toString`, `equals` and `hashCode` read the parts only through their `toString`, which returns the text.
- `PersonAddress.Equals` does not model Address's reference short circuit `other == this`. The short circuit cannot change the answer, because an Address's string equals itself.
- The part classes' `ToString` and `HashCode` carry no contract of their own. They return the text and its string hash. The hash lemmas and the Address model state what they are used for.
- `PersonAddress.CanonicalRoundTrip` is stated only for values with exactly four pieces. With more pieces the postal code can end in a blank, for example "a, b, c, d , e" gives the postal code "d ". Trimming the rejoined string then changes that part.
- The constructor assigns the private flag before validating. This has no observable effect, because the object is never returned when validation fails.

## Findings

| source | as written | input that shows it | evidently intended | confidence | as-written member | corrected member |
|---|---|---|---|---|---|---|
| src/seedu/addressbook/data/person/Address.java:37-45 | validation accepts any comma as a separator, but the parts are read from a split on `", "`, so a valid input without `", "` ends in ArrayIndexOutOfBoundsException | "1,2,3,4" | reject such input with IllegalValueException and the constraint message | high; not executed | PersonAddress.ValidWithoutTokenFailsOnIndex | PersonAddress.ConstructChecked |
| src/seedu/addressbook/data/person/Address.java:56-64 | `toString` appends `", "` after the postal code as well, so its output does not rebuild the same Address | `EXAMPLE` gives "123, Bishan Ave 5, #15-12, 460123, ", which rebuilds with the postal code "460123," | the four parts joined by `", "` | high; not executed | PersonAddress.ToStringDoesNotRoundTrip | PersonAddress.CanonicalRoundTrip |
| src/seedu/addressbook/data/person/Address.java:121-125 | `Street.equals` tests `instanceof Block` and then casts to Street | two distinct Streets with text "Bishan Ave 5" are unequal; a Block argument throws ClassCastException | `instanceof Street`, comparing the texts | high; not executed | AddressParts.StreetEqualsMissesEqualText | AddressParts.StreetEqualsIntendedIsEquivalence |
| src/seedu/addressbook/data/person/Address.java:146-150 | `Unit.equals` tests `instanceof Block` and then casts to Unit | two distinct Units with text "#15-12" are unequal; a Block argument throws ClassCastException | `instanceof Unit`, comparing the texts | high; not executed | AddressParts.UnitEqualsMissesEqualText | AddressParts.UnitEqualsIntendedIsEquivalence |
| src/seedu/addressbook/data/person/Address.java:171-175 | `PostalCode.equals` tests `instanceof Block` and then casts to PostalCode | two distinct PostalCodes with text "460123" are unequal; a Block argument throws ClassCastException | `instanceof PostalCode`, comparing the texts | high; not executed | AddressParts.PostalCodeEqualsMissesEqualText | AddressParts.PostalCodeEqualsIntendedIsEquivalence |
