/**
 * The JSON Web Token codec the service calls (`jwt.encode` / `jwt.decode`), kept
 * abstract: a token is an injective string encoding of its claims, `Parse` accepts
 * exactly the strings `Encode` produces, and `Decode` additionally rejects a token
 * whose `exp` claim lies in the past (the library's expiry check, no leeway).
 * Signing with the secret key is not modelled: a string that is not an encoding
 * stands for every forged or damaged token.
 */
module Jwt {
  import opened Wrappers

  /** The claims the service reads: `sub` (an email) and `exp` (seconds since the epoch). */
  datatype Claims = Claims(sub: Option<string>, exp: Option<int>)

  /** Both are `JWTError`s in the library; the service never tells them apart. */
  datatype JwtError = Malformed | Expired

  /** The library rejects a token when `now > exp`; a token without `exp` never expires. */
  predicate NotExpired(c: Claims, now: int)
  {
    c.exp.None? || now <= c.exp.value
  }

  // ---------------------------------------------------------------------------
  // Decimal text of integers, canonical (no leading zeros, no "-0")

  predicate IsDigit(c: char)
  {
    '0' <= c <= '9'
  }

  function DigitChar(d: nat): (c: char)
    requires d < 10
    ensures IsDigit(c) && c as int - '0' as int == d
  {
    ('0' as int + d) as char
  }

  function DigitValue(c: char): (d: nat)
    requires IsDigit(c)
    ensures d < 10 && DigitChar(d) == c
  {
    c as int - '0' as int
  }

  predicate AllDigits(s: string)
  {
    forall i | 0 <= i < |s| :: IsDigit(s[i])
  }

  /** Decimal digits of `n`, most significant first. */
  function NatText(n: nat): string
    decreases n
  {
    if n < 10 then [DigitChar(n)] else NatText(n / 10) + [DigitChar(n % 10)]
  }

  /** The number a string of digits denotes. */
  function DigitsValue(s: string): nat
    requires AllDigits(s)
  {
    if s == [] then 0 else DigitsValue(s[..|s| - 1]) * 10 + DigitValue(s[|s| - 1])
  }

  /** A non-empty digit string without a leading zero (other than "0" itself). */
  predicate IsCanonical(s: string)
  {
    |s| > 0 && AllDigits(s) && (s[0] == '0' ==> |s| == 1)
  }

  lemma {:induction false} NatTextCanonical(n: nat)
    ensures IsCanonical(NatText(n)) && DigitsValue(NatText(n)) == n
    ensures n > 0 ==> NatText(n)[0] != '0'
    decreases n
  {
    if n >= 10 {
      var p := NatText(n / 10);
      NatTextCanonical(n / 10);
      var s := NatText(n);
      assert s == p + [DigitChar(n % 10)];
      assert s[..|s| - 1] == p;
      assert s[0] == p[0];
    }
  }

  lemma {:induction false} LeadingNonZeroPositive(s: string)
    requires |s| > 0 && AllDigits(s) && s[0] != '0'
    ensures DigitsValue(s) >= 1
  {
    if |s| > 1 {
      var p := s[..|s| - 1];
      assert p[0] == s[0];
      LeadingNonZeroPositive(p);
    }
  }

  lemma {:induction false} CanonicalNatText(s: string)
    requires IsCanonical(s)
    ensures NatText(DigitsValue(s)) == s
  {
    if |s| > 1 {
      var p := s[..|s| - 1];
      assert p[0] == s[0];
      LeadingNonZeroPositive(p);
      CanonicalNatText(p);
      var last := DigitValue(s[|s| - 1]);
      var v := DigitsValue(s);
      assert v == DigitsValue(p) * 10 + last;
      assert v / 10 == DigitsValue(p) && v % 10 == last;
      assert s == p + [s[|s| - 1]];
    }
  }

  /** `str(i)` for an integer. */
  function IntText(i: int): string
  {
    if i < 0 then "-" + NatText(-i) else NatText(i)
  }

  function ParseInt(s: string): Option<int>
  {
    if |s| > 1 && s[0] == '-' && IsCanonical(s[1..]) && s[1] != '0' then Some(-(DigitsValue(s[1..]) as int))
    else if IsCanonical(s) then Some(DigitsValue(s))
    else None
  }

  lemma IntTextRoundTrip(i: int)
    ensures ParseInt(IntText(i)) == Some(i)
  {
    if i < 0 {
      var d := NatText(-i);
      NatTextCanonical(-i);
      var s := "-" + d;
      assert s == IntText(i);
      assert |s| > 1 && s[0] == '-' && s[1..] == d && s[1] == d[0];
    } else {
      NatTextCanonical(i);
    }
  }

  lemma ParseIntCanonical(s: string, i: int)
    requires ParseInt(s) == Some(i)
    ensures IntText(i) == s
  {
    if |s| > 1 && s[0] == '-' && IsCanonical(s[1..]) && s[1] != '0' {
      LeadingNonZeroPositive(s[1..]);
      CanonicalNatText(s[1..]);
      assert s == "-" + s[1..];
    } else {
      CanonicalNatText(s);
    }
  }

  lemma IntTextHasNoDot(i: int)
    ensures '.' !in IntText(i)
    ensures IntText(i) != "n"
  {
    var d := if i < 0 then NatText(-i) else NatText(i);
    NatTextCanonical(if i < 0 then -i else i);
    assert '.' !in d;
    assert IsDigit(d[0]);
    if i < 0 {
      var s := "-" + d;
      assert s == IntText(i);
      assert '.' !in s;
    }
  }

  // ---------------------------------------------------------------------------
  // The token: "<exp field>.<sub field>"

  function ExpField(exp: Option<int>): string
  {
    match exp
    case None => "n"
    case Some(i) => IntText(i)
  }

  function ParseExpField(f: string): Option<Option<int>>
  {
    if f == "n" then Some(None)
    else match ParseInt(f)
      case None => None
      case Some(i) => Some(Some(i))
  }

  function SubField(sub: Option<string>): string
  {
    match sub
    case None => "n"
    case Some(s) => "s" + s
  }

  function ParseSubField(f: string): Option<Option<string>>
  {
    if f == "n" then Some(None)
    else if |f| > 0 && f[0] == 's' then Some(Some(f[1..]))
    else None
  }

  /** Position of the first `c` in `s`. */
  function IndexOf(s: string, c: char): (r: Option<nat>)
    ensures r.Some? ==> r.value < |s| && s[r.value] == c && c !in s[..r.value]
    ensures r.None? ==> c !in s
  {
    if s == [] then None
    else if s[0] == c then Some(0)
    else match IndexOf(s[1..], c)
      case None => None
      case Some(k) => assert s[..k + 1] == [s[0]] + s[1..][..k]; Some(k + 1)
  }

  /** `jwt.encode(claims, ...)`. */
  function Encode(c: Claims): string
  {
    ExpField(c.exp) + "." + SubField(c.sub)
  }

  /** The signature and format check of `jwt.decode`, without the expiry check. */
  function Parse(t: string): Option<Claims>
  {
    match IndexOf(t, '.')
    case None => None
    case Some(k) =>
      match (ParseExpField(t[..k]), ParseSubField(t[k + 1..]))
      case (Some(exp), Some(sub)) => Some(Claims(sub, exp))
      case _ => None
  }

  /** `jwt.decode(token, ...)`: the claims of a well-formed token that has not expired. */
  function Decode(t: string, now: int): (r: Result<Claims, JwtError>)
    ensures r.Success? ==> Encode(r.value) == t && NotExpired(r.value, now)
  {
    match Parse(t)
    case None => Failure(Malformed)
    case Some(c) =>
      ParseEncodes(t);
      if NotExpired(c, now) then Success(c) else Failure(Expired)
  }

  lemma ExpFieldRoundTrip(exp: Option<int>)
    ensures '.' !in ExpField(exp)
    ensures ParseExpField(ExpField(exp)) == Some(exp)
  {
    if exp.Some? {
      IntTextHasNoDot(exp.value);
      IntTextRoundTrip(exp.value);
    }
  }

  /** Parsing inverts encoding. */
  lemma EncodeParses(c: Claims)
    ensures Parse(Encode(c)) == Some(c)
  {
    var e := ExpField(c.exp);
    var t := Encode(c);
    ExpFieldRoundTrip(c.exp);
    assert t == e + "." + SubField(c.sub);
    assert t[|e|] == '.' && t[..|e|] == e;
    assert IndexOf(t, '.') == Some(|e|);
    assert t[|e| + 1..] == SubField(c.sub);
    if c.sub.Some? {
      assert SubField(c.sub)[1..] == c.sub.value;
    }
  }

  /** Parsing accepts nothing but encodings: a token is the encoding of its claims. */
  lemma ParseEncodes(t: string)
    requires Parse(t).Some?
    ensures Encode(Parse(t).value) == t
  {
    var k := IndexOf(t, '.').value;
    var c := Parse(t).value;
    var left, right := t[..k], t[k + 1..];
    assert t == left + "." + right;
    if left != "n" {
      ParseIntCanonical(left, c.exp.value);
    }
    assert ExpField(c.exp) == left;
    if right != "n" {
      assert right == "s" + right[1..];
    }
    assert SubField(c.sub) == right;
  }

  /** Decoding succeeds exactly on the encodings of claims that have not expired. */
  lemma DecodeExactly(t: string, c: Claims, now: int)
    ensures Decode(t, now) == Success(c) <==> t == Encode(c) && NotExpired(c, now)
  {
    if t == Encode(c) {
      EncodeParses(c);
    }
  }

  /** Encoding is injective: two tokens are equal only when their claims are. */
  lemma EncodeInjective(c: Claims, d: Claims)
    ensures Encode(c) == Encode(d) <==> c == d
  {
    EncodeParses(c);
    EncodeParses(d);
  }
}
