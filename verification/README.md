# e164-phones-countries in Dafny

A verified model of the Rust library `e164-phones-countries`, which maps
E.164 international phone numbers (digits, no leading `+`) to ISO 3166-1
alpha-2 country codes, and ISO 3166-1 alpha-2 codes back to E.164 country
calling codes. All of its logic sits in `src/lib.rs`:

- `e164_number_to_iso3166(phone)` rejects numbers shorter than 10 bytes.
  A number starting with `'1'` (the North American Numbering Plan, NANP)
  is looked up under its first four digits. Any other number is looked up
  under the longest of its first 6, 5, 4, 3, 2, 1 characters whose numeric
  value is a key of the prefix table. These candidates are cut from a
  7-character window and tried longest first. When no candidate matches,
  the key stays 0. The key is then looked up in the prefix table.
- `iso3166_to_e164_country_code(code)` is an exact lookup in the country
  table.

The two static tables of the library (`PHONE_PREFIX`, `ISO_3166`) live in
its `data` module, which is not part of this model. They are parameters
of every operation: `prefixes: map<nat, string>` and
`iso: map<string, nat>`.

Files:

- `utf8.dfy` (module `Utf8`): the byte length Rust's `str::len` reports.
- `digits.dfy` (module `Digits`): the numeric value of a run of ASCII
  digits, which is what `parse::<u32>()` yields on such a run. Also the
  canonical decimal spelling of a number, with round trips both ways.
- `phones.dfy` (module `PhonesCountries`): the two operations.
  `E164NumberToIso3166` is a method with the source's `while !done` loop.
  It is proved equal to the reference function `Resolve` (through
  `LookupKey` and the recursive search `MatchLength`).
  `Iso3166ToE164CountryCode` is a function.
- `properties.dfy` (module `PhonesCountriesProperties`): the promised
  properties, stated as lemmas over `Resolve`. They cover the length
  guard, the NANP key, longest match, the fallback to 0, the documented
  examples and calling-code round trips.

Modelling decisions:

- The length guard compares the UTF-8 byte length with 10, as Rust's
  `str::len` does. For ASCII input this is the character count
  (`ShortAsciiNumberNotFound`). With multi-byte characters, far shorter
  numbers pass the guard. A NANP number needs only four ASCII digits, so
  six characters suffice: "1206€€" is ten bytes long and resolves under
  1206 (`SixCharactersCanPassGuard`). Any other number needs seven one-byte
  characters, so eight characters suffice; `NineCharactersCanPassGuard`
  gives a nine-character example. The guard never enforces the doc
  comment's "at least 10 digits": for ASCII input it enforces 10
  characters, of which only the first four (NANP) or six must be digits.
  "1206abcdef" resolves under 1206 (`TenCharactersFewDigitsNanp`), and
  "441234abcd" is found when 44 is a key (`TenCharactersFewDigits`).
- The source panics when `parse::<u32>().unwrap()` meets a non-digit, and
  when byte slicing splits a multi-byte character. Both are excluded by the
  precondition `LeadIsNumeric`. A NANP number needs four leading ASCII
  digits. Any other number needs six leading ASCII digits followed by a
  one-byte character. The seventh character of the window is sliced but
  never parsed (`SeventhCharacterIgnored`). A hardened rewrite would return
  an error for malformed input instead of panicking; this model follows
  the code as written.
- Keys are numeric values, so leading zeros vanish (`LeadingZeroVanishes`).
  A number starting `044...` can therefore match the key 44.
- When nothing matches, the code looks up the key 0; it does not return
  "not found" directly. The model does the same, and
  `NoMatchFallsBackToZero` gives "not found" only when 0 is not a key.

## Model

| member | source | states |
|---|---|---|
| `Utf8.CharWidth` | src/lib.rs:52 | UTF-8 uses 1 to 4 bytes for a character, and exactly 1 byte for an ASCII character |
| `Utf8.ByteLength` | src/lib.rs:52 | the byte length `phone.len()` of a string is at least its character count and at most four times it |
| `Utf8.AsciiByteLength` | src/lib.rs:52 | on ASCII text the byte length equals the character count |
| `Utf8.ByteLengthAppend` | src/lib.rs:52 | byte lengths add up under concatenation |
| `Utf8.NonAsciiByteLength` | src/lib.rs:52 | one non-ASCII character makes the byte length exceed the character count |
| `Digits.DigitValue` | src/lib.rs:69 | an ASCII digit has a value below 10 |
| `Digits.DigitChar` | src/lib.rs:69 | every value below 10 has a digit character, and DigitValue maps that character back to it |
| `Digits.DigitsValue` | src/lib.rs:69 | the value parsed from k digits is below 10^k, so six digits never overflow `u32` |
| `Digits.DigitsValueDependsOnLeading` | src/lib.rs:59 | the value of the first k characters depends on those characters only |
| `Digits.LeadingZeroVanishes` | src/lib.rs:69 | a leading '0' does not change the parsed value ("044" parses to 44) |
| `Digits.DigitsValueLowerBound` | src/lib.rs:69 | a run of k digits that does not start with '0' has a value of at least 10^(k-1) |
| `Digits.DecimalDigits` | src/lib.rs:69 | the decimal spelling of n is a non-empty digit run without a leading zero, and n is below 10 to the power of its length |
| `Digits.DigitsValueOfDecimal` | src/lib.rs:69 | parsing the decimal spelling of n gives back n |
| `Digits.DecimalOfDigitsValue` | src/lib.rs:69 | spelling the parsed value of a digit run without a leading zero gives back that run |
| `PhonesCountries.Get` | src/lib.rs:82 | `HashMap::get(..).copied()`: `Some(v)` exactly when the key is present with value `v`, otherwise `None` |
| `PhonesCountries.LeadIsNumeric` | src/lib.rs:58-69 | the condition under which no byte slice and no `unwrap()` of lines 58-69 panics; it guarantees that `phone[0..1]` and `phone[0..4]` are in range and start with a digit, and that the 7-byte window of a non-NANP number is ASCII |
| `PhonesCountries.MatchLength` | src/lib.rs:64-79 | the search from length k down to 1 returns the longest length whose value is a table key, or 0 when no length matches; no longer length is a key |
| `PhonesCountries.LongestMatchUnique` | src/lib.rs:64-79 | at most one length satisfies the longest-match condition, so the search result is determined |
| `PhonesCountries.LookupKey` | src/lib.rs:56-80 | a NANP key is below 10^4; any other key is below 10^6, and is either a table key or the fallback 0; a non-zero key is the value of one of the first six leading runs |
| `PhonesCountries.Resolve` | src/lib.rs:51-83 | reference definition of the whole function: `None` below 10 bytes; any country returned is stored in the table; a `Some` result means the chosen key is a table key |
| `PhonesCountries.E164NumberToIso3166` | src/lib.rs:51-83 | the guard, the NANP branch, the descending `while !done` loop and the final lookup return exactly `Resolve(prefixes, phone)`: `None` below 10 bytes, and only countries stored in the table; the loop tries the lengths 6, 5, 4, ... in that order, at most six of them, stopping at the first key |
| `PhonesCountries.Iso3166ToE164CountryCode` | src/lib.rs:99-101 | returns `Some(p)` exactly when `code` is a key of the country table with value `p`, and `None` otherwise |
| `PhonesCountriesProperties.ShortNumberNotFound` | src/lib.rs:52-54 | a number shorter than 10 bytes is never found, whatever the table holds |
| `PhonesCountriesProperties.ShortAsciiNumberNotFound` | src/lib.rs:52-54 | an ASCII number shorter than 10 characters is shorter than 10 bytes, so it is never found |
| `PhonesCountriesProperties.NineCharactersCanPassGuard` | src/lib.rs:52-54 | a 9-character number ending in two 'é' is 11 bytes long, passes the guard, and is found when 44 is a key |
| `PhonesCountriesProperties.SixCharactersCanPassGuard` | src/lib.rs:52-59 | "1206€€" has 6 characters and 10 bytes, passes the guard and resolves to the country stored under 1206 |
| `PhonesCountriesProperties.TenCharactersFewDigitsNanp` | src/lib.rs:52-59 | "1206abcdef" has ten ASCII characters but only four digits, passes the guard and resolves to the country stored under 1206 |
| `PhonesCountriesProperties.TenCharactersFewDigits` | src/lib.rs:52-82 | "441234abcd" has only six digits, passes the guard and is found when 44 is a key |
| `PhonesCountriesProperties.AsciiNumberFound` | src/lib.rs:52-82 | an ASCII number of ten or more characters outside NANP passes the guard and is found when any of its first six leading runs is a key |
| `PhonesCountriesProperties.NanpKeyIsFirstFourDigits` | src/lib.rs:58-59 | a NANP number's key is the value of its first four digits; neither the rest of the number nor the table changes it |
| `PhonesCountriesProperties.NanpNumberResolves` | src/lib.rs:58-59 | an ASCII NANP number of at least 10 characters resolves to the table entry under its first four digits |
| `PhonesCountriesProperties.MatchLengthDependsOnLeading` | src/lib.rs:61-69 | the search down from length k reads only the first k characters of the window |
| `PhonesCountriesProperties.SeventhCharacterIgnored` | src/lib.rs:61-69 | two non-NANP numbers that agree on their first six characters get the same key, so the window's seventh character never matters |
| `PhonesCountriesProperties.LongestMatchResolves` | src/lib.rs:64-82 | when m is the longest of the lengths 6..1 whose value is a key, the number resolves to the country stored under the value of its first m digits |
| `PhonesCountriesProperties.LongerPrefixWins` | src/lib.rs:64-79 | once the first `long` digits form a key, the number is looked up under the value of a run of at least `long` digits, whatever shorter runs are also keys |
| `PhonesCountriesProperties.SomeKeyMatchesThenFound` | src/lib.rs:64-82 | outside NANP, a number is found whenever any of its first six leading runs is a key |
| `PhonesCountriesProperties.NoMatchFallsBackToZero` | src/lib.rs:56-82 | when no length from 6 down to 1 matches, the key stays 0 and the result is the lookup of 0, which is `None` unless 0 is a key |
| `PhonesCountriesProperties.FoundCountryIsStored` | src/lib.rs:82 | any country returned is the one stored in the table under the key the number was looked up under |
| `PhonesCountriesProperties.DocExampleUnitedStates` | src/lib.rs:46 | when 1206 maps to "US", "12069359290" resolves to `Some("US")` |
| `PhonesCountriesProperties.DocExampleUnassignedAreaCode` | src/lib.rs:47 | when 1222 is not a key, "12229359290" resolves to `None` |
| `PhonesCountriesProperties.DocExampleCountryCodes` | src/lib.rs:96-97 | when "US" maps to 1 and "ZZ" is absent, the reverse lookup gives `Some(1)` for "US" and `None` for "ZZ" |
| `PhonesCountriesProperties.CountryCodeIsExact` | src/lib.rs:99-101 | no case folding: "us" finds nothing when only "US" is stored |
| `PhonesCountriesProperties.CallingCodeNumber` | src/lib.rs:52 | the number built from a calling code and trailing zeros has 10 ASCII digits |
| `PhonesCountriesProperties.CallingCodeNumberShape` | src/lib.rs:52-69 | that number is 10 bytes long and its leading digits parse back to the calling code |
| `PhonesCountriesProperties.CallingCodeRoundTrip` | src/lib.rs:51-101 | when a country's calling code (outside NANP, at most six digits) is itself a prefix-table key, that code followed by zeros resolves to some country |
| `PhonesCountriesProperties.NanpKeyRoundTrip` | src/lib.rs:58-82 | a four-digit NANP key followed by six zeros resolves to exactly the country stored under that key |

## Left out

- The contents of the `PHONE_PREFIX` and `ISO_3166` tables. The `data` module is not part of this model, so every property holds for any table. For the same reason, the documented results for "99893592902" (UZ) and "26226992902" (YT) are not stated: they depend only on table contents.
- Panics. `parse::<u32>().unwrap()` on a non-digit and byte slicing inside a multi-byte character are excluded by the precondition `LeadIsNumeric`; they are not modelled as outcomes.
- PhonesCountries.E164NumberToIso3166: the precondition also excludes a number starting with '+'. Rust's `parse::<u32>` accepts a leading '+', so such a number resolves without panicking when a candidate of 2 to 6 characters matches before the 1-character candidate "+" is parsed.
- `u32` arithmetic. At most six digits are parsed, and `Digits.DigitsValue` bounds the value below 10^6, so values are unbounded naturals here. The descending index `x` never goes below 1, so its `usize` subtraction cannot underflow; the loop invariant `2 <= x` before each decrement shows this.
- Lifetimes, `&'static str` and `copied()`: no behavioural content. The `HashMap` lookups become `Get` on a Dafny `map`.
- PhonesCountriesProperties.CallingCodeRoundTrip: holds only when the calling code is itself a key of the prefix table and does not start with '1'. Numbers starting with '1' are looked up under four-digit keys, so calling code 1 round-trips only through those keys (`NanpKeyRoundTrip`).
