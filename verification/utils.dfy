/** The small helpers of utils.ts besides the CSV reader: the WhatsApp link with its phone-number
    clean-up, and the four-day expiry. The clock is a parameter (`now`, in milliseconds), and
    `encodeURIComponent` is a function parameter. */
module Utils {
  import opened Types
  import opened Text

  // ---------------------------------------------------------------------------
  // Phone numbers

  /** Leading `'0'` characters removed (`replace(/^0+/, '')`). */
  function DropLeadingZeros(s: string): (r: string)
    ensures |r| <= |s| && r == s[|s| - |r|..]
    ensures |r| == 0 || r[0] != '0'
    ensures forall i :: 0 <= i < |s| - |r| ==> s[i] == '0'
  {
    if |s| > 0 && s[0] == '0' then
      var r := DropLeadingZeros(s[1..]);
      assert forall i :: 1 <= i < |s| - |r| ==> s[i] == s[1..][i - 1];
      r
    else s
  }

  /** The digits of a phone number, without leading zeros. */
  function PhoneDigits(phone: string): (r: string)
    ensures AllDigits(r) && (|r| == 0 || r[0] != '0')
  {
    var kept := Keep(phone, IsDigit);
    var r := DropLeadingZeros(kept);
    assert forall i :: 0 <= i < |r| ==> r[i] == kept[|kept| - |r| + i];
    r
  }

  /** A Spanish number written without its country code: nine digits starting with 6, 7, 8 or 9. */
  predicate IsLocalSpanish(s: string) {
    |s| == 9 && ('6' <= s[0] <= '9')
  }

  /** The phone as WhatsApp receives it: every non-digit dropped, then leading zeros dropped, then
      `34` put in front of a nine-digit number starting with 6, 7, 8 or 9. */
  function NormalisePhone(phone: string): (r: string)
    ensures AllDigits(r) && (|r| == 0 || r[0] != '0')
  {
    var digits := PhoneDigits(phone);
    if IsLocalSpanish(digits) then "34" + digits else digits
  }

  /** The normalised phone is the phone's digits without leading zeros, with `34` in front exactly
      when those digits form a local Spanish number. */
  lemma NormalisePhoneShape(phone: string)
    ensures var digits := PhoneDigits(phone);
      && (IsLocalSpanish(digits) ==> NormalisePhone(phone) == "34" + digits && |NormalisePhone(phone)| == 11)
      && (!IsLocalSpanish(digits) ==> NormalisePhone(phone) == digits)
  {
  }

  /** A character that is not a digit, wherever it stands, does not change the phone. */
  lemma NonDigitIgnored(a: string, c: char, b: string)
    requires !IsDigit(c)
    ensures NormalisePhone(a + [c] + b) == NormalisePhone(a + b)
  {
    NonDigitNotKept(a, c, b);
    assert PhoneDigits(a + [c] + b) == PhoneDigits(a + b);
  }

  lemma NonDigitNotKept(a: string, c: char, b: string)
    requires !IsDigit(c)
    ensures Keep(a + [c] + b, IsDigit) == Keep(a + b, IsDigit)
  {
    KeepAppend(a + [c], b, IsDigit);
    KeepAppend(a, [c], IsDigit);
    KeepAppend(a, b, IsDigit);
    assert Keep([c], IsDigit) == "" by {
      assert [c][1..] == "";
    }
    assert Keep(a, IsDigit) + "" == Keep(a, IsDigit);
  }

  lemma DropNoLeadingZero(s: string)
    requires |s| == 0 || s[0] != '0'
    ensures DropLeadingZeros(s) == s
  {
  }

  /** Digits with no leading zero are their own phone digits. */
  lemma PhoneDigitsOfDigits(s: string)
    requires AllDigits(s) && (|s| == 0 || s[0] != '0')
    ensures PhoneDigits(s) == s
  {
    KeepAll(s, IsDigit);
    DropNoLeadingZero(s);
  }

  /** A phone already normalised is left as it is: cleaning a cleaned number changes nothing. */
  lemma NormalisePhoneIdempotent(phone: string)
    ensures NormalisePhone(NormalisePhone(phone)) == NormalisePhone(phone)
  {
    var r := NormalisePhone(phone);
    PhoneDigitsOfDigits(r);
    NormalisePhoneShape(phone);
    assert !IsLocalSpanish(r);
  }

  /** A number typed with the `+34` or `0034` prefix and one typed without it reach WhatsApp alike. */
  lemma NormalisePhonePrefixes(local: string)
    requires IsLocalSpanish(local) && AllDigits(local)
    ensures NormalisePhone(local) == "34" + local
    ensures NormalisePhone("+34" + local) == "34" + local
    ensures NormalisePhone("0034" + local) == "34" + local
  {
    PhoneDigitsOfDigits(local);
    var full := "34" + local;
    assert !IsLocalSpanish(full);
    assert "+34" + local == "+" + full;
    assert "0034" + local == "00" + full;
    PlusPrefix(full);
    ZerosPrefix(full);
  }

  /** A leading `+` is not a digit and is dropped. */
  lemma PlusPrefix(s: string)
    requires AllDigits(s) && |s| > 0 && s[0] != '0'
    ensures PhoneDigits("+" + s) == s
  {
    assert ("+" + s)[1..] == s;
    assert Keep("+" + s, IsDigit) == Keep(s, IsDigit);
    PhoneDigitsOfDigits(s);
  }

  /** Leading zeros are dropped. */
  lemma ZerosPrefix(s: string)
    requires AllDigits(s) && |s| > 0 && s[0] != '0'
    ensures PhoneDigits("00" + s) == s
  {
    var z := "00" + s;
    assert AllDigits(z);
    KeepAll(z, IsDigit);
    assert z[1..] == "0" + s;
    assert z[1..][1..] == s;
    DropNoLeadingZero(s);
  }

  // ---------------------------------------------------------------------------
  // The WhatsApp link

  const WHATSAPP_PREFIX: string := "https://api.whatsapp.com/send?phone="

  /** `generateWhatsAppLink(phone, text)`. */
  function WhatsAppLink(phone: string, text: string, encode: string -> string): string {
    WHATSAPP_PREFIX + NormalisePhone(phone) + "&text=" + encode(text)
  }

  /** Reading the link back: after the fixed prefix, the text up to the first `&` is the normalised
      phone, and what follows `&text=` is the encoded message. */
  lemma WhatsAppLinkParts(phone: string, text: string, encode: string -> string)
    ensures var link := WhatsAppLink(phone, text, encode);
      var rest := link[|WHATSAPP_PREFIX|..];
      && WHATSAPP_PREFIX <= link
      && rest[..Span(rest, {'&'})] == NormalisePhone(phone)
      && rest[Span(rest, {'&'})..] == "&text=" + encode(text)
  {
    var p := NormalisePhone(phone);
    DigitsAvoidAmpersand(p);
    ReadBackAfter(WHATSAPP_PREFIX, p, "&text=", encode(text));
  }

  lemma DigitsAvoidAmpersand(p: string)
    requires AllDigits(p)
    ensures Avoids(p, {'&'})
  {
  }

  /** In `pre + p + mark + e`, with `p` free of `&` and `mark` starting with one, the text after
      `pre` splits at its first `&` into `p` and `mark + e`. */
  lemma ReadBackAfter(pre: string, p: string, mark: string, e: string)
    requires Avoids(p, {'&'}) && |mark| > 0 && mark[0] == '&'
    ensures var link := pre + p + mark + e;
      var rest := link[|pre|..];
      && pre <= link
      && rest[..Span(rest, {'&'})] == p
      && rest[Span(rest, {'&'})..] == mark + e
  {
    var link := pre + p + mark + e;
    var tail := mark + e;
    assert link == pre + (p + tail);
    var rest := link[|pre|..];
    assert rest == p + tail;
    SpanUpTo(p, tail, {'&'});
    assert rest[..|p|] == p;
    assert rest[|p|..] == tail;
  }

  // ---------------------------------------------------------------------------
  // Expiry

  /** Four days in milliseconds: 4 * 24 * 60 * 60 * 1000. */
  const EXPIRY_MS: int := 345600000

  /** `getExpirationDate()` at time `now`. */
  function ExpirationDate(now: int): (r: int)
    ensures r - now == 4 * 24 * 60 * 60 * 1000
  {
    now + EXPIRY_MS
  }

  /** `isExpired(timestamp)` at time `now`; `None` is `NaN`, which no comparison holds for. */
  function IsExpired(now: int, timestamp: Option<int>): (b: bool)
    ensures timestamp.None? ==> !b
    ensures timestamp.Some? ==> (b <==> timestamp.value < now)
  {
    match timestamp
    case None => false
    case Some(ts) => now > ts
  }

  /** A date handed out at `issued` is expired at `now` exactly when more than four days have
      passed, and once expired it stays expired. */
  lemma ExpiryWindow(issued: int, now: int, later: int)
    requires now <= later
    ensures IsExpired(now, Some(ExpirationDate(issued))) <==> now - issued > EXPIRY_MS
    ensures IsExpired(now, Some(ExpirationDate(issued))) ==> IsExpired(later, Some(ExpirationDate(issued)))
  {
  }
}
