/**
 * The lookups of the e164-phones-countries library (src/lib.rs).
 *
 * `E164NumberToIso3166` resolves an E.164 phone number (digits, no leading
 * '+') to the ISO 3166-1 alpha-2 code of its country; `Iso3166ToE164CountryCode`
 * maps a country code back to its calling code. The two static tables of the
 * library (`PHONE_PREFIX` and `ISO_3166`) are parameters here:
 * `prefixes: map<nat, string>` and `iso: map<string, nat>`.
 */
module PhonesCountries {
  import opened Utf8
  import opened Digits

  datatype Option<T> = None | Some(value: T)

  /** `HashMap::get` followed by `copied()`. */
  function Get<K, V>(m: map<K, V>, k: K): (r: Option<V>)
    ensures r.Some? <==> k in m
    ensures r.Some? ==> r.value == m[k]
  {
    if k in m then Some(m[k]) else None
  }

  /** Numbers shorter than this many bytes are never resolved. */
  const MinLength: nat := 10
  /** Numbers starting with '1' (the North American Numbering Plan) are keyed by this many digits. */
  const NanpKeyLength: nat := 4
  /** Width of the window the longest-prefix search slices off the number. */
  const WindowLength: nat := 7

  /** The lengths the longest-prefix search tries, in the order it tries them. */
  const CandidateLengths: seq<nat> := [6, 5, 4, 3, 2, 1]

  /**
   * What the source needs of a number that passes the length guard so that
   * neither byte slicing nor `parse::<u32>().unwrap()` panics: a NANP number
   * has four leading digits; any other number has six leading digits
   * followed by a one-byte character (the seventh character is sliced into
   * the window but never parsed).
   */
  predicate LeadIsNumeric(phone: string)
    ensures LeadIsNumeric(phone) ==> |phone| >= NanpKeyLength && IsAsciiDigit(phone[0])
    ensures LeadIsNumeric(phone) && phone[0] != '1' ==> |phone| >= WindowLength && AllAscii(phone[..WindowLength])
  {
    |phone| >= 1 &&
    if phone[0] == '1' then
      LeadingDigits(phone, NanpKeyLength)
    else
      |phone| >= WindowLength && LeadingDigits(phone, 6) && IsAscii(phone[6])
  }

  /**
   * `m` is the longest length in 1..k whose leading digits form a key of
   * `prefixes`, or 0 when no such length exists.
   */
  predicate LongestMatch(prefixes: map<nat, string>, s: string, k: nat, m: nat)
    requires LeadingDigits(s, k)
  {
    && m <= k
    && (m > 0 ==> DigitsValue(s, m) in prefixes)
    && forall j | m < j <= k :: DigitsValue(s, j) !in prefixes
  }

  /** A longest match is unique. */
  lemma LongestMatchUnique(prefixes: map<nat, string>, s: string, k: nat, m1: nat, m2: nat)
    requires LeadingDigits(s, k)
    requires LongestMatch(prefixes, s, k, m1) && LongestMatch(prefixes, s, k, m2)
    ensures m1 == m2
  {
  }

  /** The search from length `k` down to 1, stopping at the first key: its result is the longest match. */
  function MatchLength(prefixes: map<nat, string>, s: string, k: nat): (m: nat)
    requires LeadingDigits(s, k)
    ensures LongestMatch(prefixes, s, k, m)
  {
    if k == 0 then 0
    else if DigitsValue(s, k) in prefixes then k
    else MatchLength(prefixes, s, k - 1)
  }

  /**
   * The integer the number is looked up under: the first four digits of a
   * NANP number; otherwise the value of the longest matching run among the
   * first 6..1 characters of the 7-character window, or 0 when none matches.
   */
  function LookupKey(prefixes: map<nat, string>, phone: string): (key: nat)
    requires LeadIsNumeric(phone)
    ensures phone[0] == '1' ==> key < Pow10(NanpKeyLength)
    ensures phone[0] != '1' ==> key < Pow10(6) && (key in prefixes || key == 0)
    ensures phone[0] != '1' && key != 0 ==> exists m | 1 <= m <= 6 :: key == DigitsValue(phone, m)
  {
    if phone[0] == '1' then
      DigitsValue(phone, NanpKeyLength)
    else
      var s := phone[..WindowLength];
      var m := MatchLength(prefixes, s, 6);
      if m == 0 then 0
      else
        DigitsValueDependsOnLeading(s, phone, m);
        DigitsValue(s, m)
  }

  /** Reference definition of what `e164_number_to_iso3166` returns. */
  function Resolve(prefixes: map<nat, string>, phone: string): (r: Option<string>)
    requires ByteLength(phone) >= MinLength ==> LeadIsNumeric(phone)
    ensures ByteLength(phone) < MinLength ==> r == None
    ensures r.Some? ==> r.value in prefixes.Values
    ensures r.Some? ==> LookupKey(prefixes, phone) in prefixes
  {
    if ByteLength(phone) < MinLength then None
    else Get(prefixes, LookupKey(prefixes, phone))
  }

  /** The lengths the search tries before it stops. */
  function TriedLengths(prefixes: map<nat, string>, phone: string): seq<nat>
    requires ByteLength(phone) >= MinLength ==> LeadIsNumeric(phone)
  {
    if ByteLength(phone) < MinLength || phone[0] == '1' then []
    else
      var m := MatchLength(prefixes, phone[..WindowLength], 6);
      CandidateLengths[..if m == 0 then 6 else 7 - m]
  }

  /**
   * `e164_number_to_iso3166`: the length guard, the NANP branch, the
   * descending search over the 7-character window, and the final lookup.
   * The ghost result `tried` records the lengths whose values were looked
   * up, in order.
   */
  method E164NumberToIso3166(prefixes: map<nat, string>, phone: string)
    returns (country: Option<string>, ghost tried: seq<nat>)
    requires ByteLength(phone) >= MinLength ==> LeadIsNumeric(phone)
    ensures country == Resolve(prefixes, phone)
    ensures ByteLength(phone) < MinLength ==> country == None
    ensures country.Some? ==> country.value in prefixes.Values
    ensures tried == TriedLengths(prefixes, phone)
    ensures |tried| <= |CandidateLengths| && tried == CandidateLengths[..|tried|]
  {
    tried := [];
    if ByteLength(phone) < MinLength {
      return None, tried;
    }

    var prefix: nat := 0;

    if phone[0] == '1' {
      prefix := DigitsValue(phone, NanpKeyLength);
    } else {
      var s := phone[..WindowLength];
      ghost var m := MatchLength(prefixes, s, 6);

      var done := false;
      var x := |s|;
      while !done
        invariant 1 <= x <= WindowLength
        invariant x == WindowLength ==> !done
        invariant tried == CandidateLengths[..WindowLength - x]
        invariant !done ==> 2 <= x && prefix == 0 && m == MatchLength(prefixes, s, x - 1)
        invariant done ==> prefix == (if m == 0 then 0 else DigitsValue(s, m))
        invariant done ==> x == (if m == 0 then 1 else m)
        decreases x
      {
        x := x - 1;
        tried := tried + [x];

        var ns := DigitsValue(s, x);

        if ns in prefixes {
          prefix := ns;
          done := true;
        }

        if x == 1 {
          done := true;
        }
      }
    }

    country := Get(prefixes, prefix);
  }

  /**
   * `iso3166_to_e164_country_code`: an exact-match lookup; `code` is not
   * normalised in any way.
   */
  function Iso3166ToE164CountryCode(iso: map<string, nat>, code: string): (r: Option<nat>)
    ensures r.Some? <==> code in iso
    ensures r.Some? ==> r.value == iso[code]
  {
    Get(iso, code)
  }
}
