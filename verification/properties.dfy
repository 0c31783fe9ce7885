/**
 * Properties of the phone-number resolution of src/lib.rs, stated over the
 * reference definition `Resolve` that `E164NumberToIso3166` is proved equal
 * to, and of the country-code lookup.
 */
module PhonesCountriesProperties {
  import opened Utf8
  import opened Digits
  import opened PhonesCountries

  /** Fewer than ten bytes: never resolved, whatever the table holds. */
  lemma ShortNumberNotFound(prefixes: map<nat, string>, phone: string)
    requires ByteLength(phone) < MinLength
    ensures Resolve(prefixes, phone) == None
  {
  }

  /** For the ASCII numbers the library is meant for, fewer than ten characters is fewer than ten bytes. */
  lemma ShortAsciiNumberNotFound(prefixes: map<nat, string>, phone: string)
    requires AllAscii(phone) && |phone| < MinLength
    ensures ByteLength(phone) < MinLength
    ensures Resolve(prefixes, phone) == None
  {
    AsciiByteLength(phone);
  }

  /**
   * Outside NANP, a number is found as soon as any of its first six runs of
   * digits is a key (the search may still pick a longer one).
   */
  lemma SomeKeyMatchesThenFound(prefixes: map<nat, string>, phone: string, j: nat)
    requires ByteLength(phone) >= MinLength && LeadIsNumeric(phone) && phone[0] != '1'
    requires 1 <= j <= 6 && DigitsValue(phone, j) in prefixes
    ensures Resolve(prefixes, phone).Some?
  {
    var s := phone[..WindowLength];
    DigitsValueDependsOnLeading(phone, s, j);
    assert MatchLength(prefixes, s, 6) >= j;
  }

  /**
   * A number with a multi-byte character can pass the length guard with
   * fewer than ten characters: the guard counts bytes. The two parts of the
   * number are parameters fixed by the precondition, which keeps the
   * verifier from unfolding `ByteLength` over one long literal.
   */
  lemma NineCharactersCanPassGuard(prefixes: map<nat, string>, digits: string, accents: string)
    requires digits == "4412345" && accents == "éé"
    requires 44 in prefixes
    ensures |digits + accents| == 9 && ByteLength(digits + accents) == 11
    ensures LeadIsNumeric(digits + accents)
    ensures Resolve(prefixes, digits + accents).Some?
  {
    var phone := digits + accents;
    assert AllAscii(digits);
    AsciiByteLength(digits);
    assert ByteLength(accents) == 4;
    ByteLengthAppend(digits, accents);
    assert LeadingDigits(phone, 2) && DigitsValue(phone, 2) == 44;
    SomeKeyMatchesThenFound(prefixes, phone, 2);
  }

  /**
   * A NANP number needs only four ASCII digits before the guard, so six
   * characters suffice to pass it: "1206€€" is ten bytes long. As above, the
   * parts are parameters fixed by the precondition to keep the proof cheap.
   */
  lemma SixCharactersCanPassGuard(prefixes: map<nat, string>, digits: string, euros: string)
    requires digits == "1206" && euros == "€€"
    requires 1206 in prefixes
    ensures |digits + euros| == 6 && ByteLength(digits + euros) == MinLength
    ensures LeadIsNumeric(digits + euros)
    ensures Resolve(prefixes, digits + euros) == Some(prefixes[1206])
  {
    var phone := digits + euros;
    assert phone == "1206€€";
    assert AllAscii(digits);
    AsciiByteLength(digits);
    assert ByteLength(euros) == 6;
    ByteLengthAppend(digits, euros);
    assert LeadingDigits(digits, 4);
    assert DigitsValue(digits, 2) == 12 && DigitsValue(digits, 4) == 1206;
    DigitsValueDependsOnLeading(digits, phone, NanpKeyLength);
  }

  /**
   * For ASCII input the guard counts characters, not digits: "1206abcdef"
   * has ten characters but only four digits, and resolves under 1206.
   */
  lemma TenCharactersFewDigitsNanp(prefixes: map<nat, string>)
    requires 1206 in prefixes
    ensures LeadIsNumeric("1206abcdef")
    ensures Resolve(prefixes, "1206abcdef") == Some(prefixes[1206])
  {
    var phone := "1206abcdef";
    assert AllAscii(phone) && LeadingDigits(phone, NanpKeyLength);
    assert DigitsValue(phone, NanpKeyLength) == 1206;
    NanpNumberResolves(prefixes, phone);
  }

  /**
   * The same outside NANP: "441234abcd" has six digits and four letters,
   * passes the guard and is found when 44 is a key.
   */
  lemma TenCharactersFewDigits(prefixes: map<nat, string>)
    requires 44 in prefixes
    ensures LeadIsNumeric("441234abcd")
    ensures Resolve(prefixes, "441234abcd").Some?
  {
    var phone := "441234abcd";
    assert AllAscii(phone) && LeadingDigits(phone, 6);
    assert DigitsValue(phone, 2) == 44;
    AsciiNumberFound(prefixes, phone, 2);
  }

  /** An ASCII number of ten or more characters outside NANP is found once one of its leading runs is a key. */
  lemma AsciiNumberFound(prefixes: map<nat, string>, phone: string, j: nat)
    requires AllAscii(phone) && |phone| >= MinLength
    requires phone[0] != '1' && LeadingDigits(phone, 6)
    requires 1 <= j <= 6 && DigitsValue(phone, j) in prefixes
    ensures ByteLength(phone) >= MinLength && LeadIsNumeric(phone)
    ensures Resolve(prefixes, phone).Some?
  {
    AsciiByteLength(phone);
    SomeKeyMatchesThenFound(prefixes, phone, j);
  }

  /**
   * A NANP number is looked up under exactly its first four digits: neither
   * the rest of the number nor the table's other keys change the key.
   */
  lemma NanpKeyIsFirstFourDigits(prefixes1: map<nat, string>, prefixes2: map<nat, string>, phone1: string, phone2: string)
    requires LeadIsNumeric(phone1) && phone1[0] == '1'
    requires |phone2| >= NanpKeyLength && phone1[..NanpKeyLength] == phone2[..NanpKeyLength]
    ensures LeadIsNumeric(phone2) && phone2[0] == '1'
    ensures LookupKey(prefixes1, phone1) == DigitsValue(phone1, NanpKeyLength)
    ensures LookupKey(prefixes1, phone1) == LookupKey(prefixes2, phone2)
  {
    assert forall i | 0 <= i < NanpKeyLength :: phone1[i] == phone1[..NanpKeyLength][i];
    assert forall i | 0 <= i < NanpKeyLength :: phone2[i] == phone2[..NanpKeyLength][i];
    DigitsValueDependsOnLeading(phone1, phone2, NanpKeyLength);
  }

  /** The search over the window reads only its first `k` characters. */
  lemma {:induction false} MatchLengthDependsOnLeading(prefixes: map<nat, string>, s: string, t: string, k: nat)
    requires LeadingDigits(s, k) && k <= |t|
    requires forall i | 0 <= i < k :: s[i] == t[i]
    ensures LeadingDigits(t, k)
    ensures MatchLength(prefixes, s, k) == MatchLength(prefixes, t, k)
  {
    DigitsValueDependsOnLeading(s, t, k);
    if k > 0 {
      MatchLengthDependsOnLeading(prefixes, s, t, k - 1);
    }
  }

  /** The seventh character of the window is sliced but never parsed: it cannot change the key. */
  lemma SeventhCharacterIgnored(prefixes: map<nat, string>, phone1: string, phone2: string)
    requires LeadIsNumeric(phone1) && phone1[0] != '1'
    requires |phone2| >= 6 && phone1[..6] == phone2[..6] && LeadIsNumeric(phone2)
    ensures LookupKey(prefixes, phone1) == LookupKey(prefixes, phone2)
  {
    var s1, s2 := phone1[..WindowLength], phone2[..WindowLength];
    assert forall i | 0 <= i < 6 :: s1[i] == phone1[..6][i] == phone2[..6][i] == s2[i];
    MatchLengthDependsOnLeading(prefixes, s1, s2, 6);
    var m := MatchLength(prefixes, s1, 6);
    if m > 0 {
      DigitsValueDependsOnLeading(s1, s2, m);
    }
  }

  /**
   * Longest match: when `m` is the longest of the lengths 6..1 whose leading
   * digits form a key, the number resolves to the country stored under that
   * key, and no shorter key is consulted.
   */
  lemma LongestMatchResolves(prefixes: map<nat, string>, phone: string, m: nat)
    requires ByteLength(phone) >= MinLength && LeadIsNumeric(phone) && phone[0] != '1'
    requires 1 <= m && LongestMatch(prefixes, phone, 6, m)
    ensures DigitsValue(phone, m) in prefixes
    ensures Resolve(prefixes, phone) == Some(prefixes[DigitsValue(phone, m)])
  {
    var s := phone[..WindowLength];
    assert forall i | 0 <= i < 6 :: s[i] == phone[i];
    forall j | 1 <= j <= 6
      ensures DigitsValue(s, j) == DigitsValue(phone, j)
    {
      DigitsValueDependsOnLeading(s, phone, j);
    }
    LongestMatchUnique(prefixes, s, 6, m, MatchLength(prefixes, s, 6));
  }

  /**
   * A longer matching prefix always wins: once the first `long` digits form
   * a key, the number is looked up under the value of a run at least that
   * long, whatever shorter runs are keys too.
   */
  lemma LongerPrefixWins(prefixes: map<nat, string>, phone: string, long: nat)
    requires LeadIsNumeric(phone) && phone[0] != '1'
    requires 1 <= long <= 6 && DigitsValue(phone, long) in prefixes
    ensures var m := MatchLength(prefixes, phone[..WindowLength], 6);
      long <= m && LookupKey(prefixes, phone) == DigitsValue(phone, m)
  {
    var s := phone[..WindowLength];
    DigitsValueDependsOnLeading(phone, s, long);
    var m := MatchLength(prefixes, s, 6);
    DigitsValueDependsOnLeading(phone, s, m);
  }

  /**
   * No length from 6 down to 1 matches: the key stays 0, and the number is
   * not found unless the table happens to hold 0.
   */
  lemma NoMatchFallsBackToZero(prefixes: map<nat, string>, phone: string)
    requires ByteLength(phone) >= MinLength && LeadIsNumeric(phone) && phone[0] != '1'
    requires forall j | 1 <= j <= 6 :: DigitsValue(phone, j) !in prefixes
    ensures LookupKey(prefixes, phone) == 0
    ensures Resolve(prefixes, phone) == Get(prefixes, 0)
    ensures 0 !in prefixes ==> Resolve(prefixes, phone) == None
  {
    var s := phone[..WindowLength];
    forall j | 1 <= j <= 6
      ensures DigitsValue(s, j) !in prefixes
    {
      DigitsValueDependsOnLeading(phone, s, j);
    }
  }

  /** Whatever is found is the country stored under the key the number was looked up under. */
  lemma FoundCountryIsStored(prefixes: map<nat, string>, phone: string, country: string)
    requires ByteLength(phone) >= MinLength ==> LeadIsNumeric(phone)
    requires Resolve(prefixes, phone) == Some(country)
    ensures ByteLength(phone) >= MinLength
    ensures LookupKey(prefixes, phone) in prefixes && prefixes[LookupKey(prefixes, phone)] == country
  {
  }

  /** An ASCII NANP number of ten or more characters resolves under its first four digits. */
  lemma NanpNumberResolves(prefixes: map<nat, string>, phone: string)
    requires AllAscii(phone) && |phone| >= MinLength
    requires phone[0] == '1' && LeadingDigits(phone, NanpKeyLength)
    ensures ByteLength(phone) >= MinLength && LeadIsNumeric(phone)
    ensures Resolve(prefixes, phone) == Get(prefixes, DigitsValue(phone, NanpKeyLength))
  {
    AsciiByteLength(phone);
  }

  /** The documented example: "12069359290" is in the United States. */
  lemma DocExampleUnitedStates(prefixes: map<nat, string>)
    requires 1206 in prefixes && prefixes[1206] == "US"
    ensures LeadIsNumeric("12069359290")
    ensures Resolve(prefixes, "12069359290") == Some("US")
  {
    var phone := "12069359290";
    assert AllAscii(phone) && LeadingDigits(phone, NanpKeyLength);
    assert DigitsValue(phone, NanpKeyLength) == 1206;
    NanpNumberResolves(prefixes, phone);
  }

  /** The documented example: "12229359290" is not found, 1222 being no key. */
  lemma DocExampleUnassignedAreaCode(prefixes: map<nat, string>)
    requires 1222 !in prefixes
    ensures LeadIsNumeric("12229359290")
    ensures Resolve(prefixes, "12229359290") == None
  {
    var phone := "12229359290";
    assert AllAscii(phone) && LeadingDigits(phone, NanpKeyLength);
    assert DigitsValue(phone, NanpKeyLength) == 1222;
    NanpNumberResolves(prefixes, phone);
  }

  /** The documented examples of the reverse lookup: "US" gives 1, "ZZ" nothing. */
  lemma DocExampleCountryCodes(iso: map<string, nat>)
    requires "US" in iso && iso["US"] == 1
    requires "ZZ" !in iso
    ensures Iso3166ToE164CountryCode(iso, "US") == Some(1)
    ensures Iso3166ToE164CountryCode(iso, "ZZ") == None
  {
  }

  /** No case folding: a lower-case code finds nothing unless stored in lower case. */
  lemma CountryCodeIsExact(iso: map<string, nat>)
    requires "US" in iso && "us" !in iso
    ensures Iso3166ToE164CountryCode(iso, "us") == None
  {
  }

  /** The ten-digit number made of the digits of `code` followed by zeros. */
  function CallingCodeNumber(code: nat): (phone: string)
    requires |DecimalDigits(code)| <= MinLength
    ensures |phone| == MinLength && LeadingDigits(phone, MinLength)
  {
    var d := DecimalDigits(code);
    d + seq(MinLength - |d|, _ => '0')
  }

  /** The number built from `code` is ASCII and its leading digits spell `code`. */
  lemma CallingCodeNumberShape(code: nat)
    requires |DecimalDigits(code)| <= MinLength
    ensures ByteLength(CallingCodeNumber(code)) == MinLength
    ensures DigitsValue(CallingCodeNumber(code), |DecimalDigits(code)|) == code
    ensures CallingCodeNumber(code)[0] == DecimalDigits(code)[0]
  {
    var d := DecimalDigits(code);
    var phone := CallingCodeNumber(code);
    assert AllAscii(phone) by {
      forall i | 0 <= i < |phone| ensures IsAscii(phone[i]) {
        assert IsAsciiDigit(phone[i]);
      }
    }
    AsciiByteLength(phone);
    DigitsValueOfDecimal(code);
    DigitsValueDependsOnLeading(d, phone, |d|);
  }

  /**
   * Round trip for calling codes outside NANP: when the calling code of
   * `country` is itself a key of the prefix table and has at most six
   * digits, the number made of that code followed by zeros resolves to some
   * country (not necessarily `country`, since codes are shared and a longer
   * key may match first). The reverse lookup only names the code; what
   * makes the number resolve is that the code is a key of the prefix table.
   */
  lemma CallingCodeRoundTrip(prefixes: map<nat, string>, iso: map<string, nat>, country: string, code: nat)
    requires Iso3166ToE164CountryCode(iso, country) == Some(code)
    requires code in prefixes
    requires |DecimalDigits(code)| <= 6 && DecimalDigits(code)[0] != '1'
    ensures LeadIsNumeric(CallingCodeNumber(code))
    ensures Resolve(prefixes, CallingCodeNumber(code)).Some?
  {
    CallingCodeNumberShape(code);
    SomeKeyMatchesThenFound(prefixes, CallingCodeNumber(code), |DecimalDigits(code)|);
  }

  /**
   * Round trip for NANP keys: a four-digit key starting with '1', followed by
   * six zeros, resolves to exactly the country stored under it.
   */
  lemma NanpKeyRoundTrip(prefixes: map<nat, string>, key: nat)
    requires key in prefixes
    requires |DecimalDigits(key)| == NanpKeyLength && DecimalDigits(key)[0] == '1'
    ensures LeadIsNumeric(CallingCodeNumber(key))
    ensures Resolve(prefixes, CallingCodeNumber(key)) == Some(prefixes[key])
  {
    CallingCodeNumberShape(key);
  }
}
