/**
 * The bearer-token gate of application/utils/util.py: the claims `encode_token` builds and the
 * checks `token_required` makes before it calls the wrapped route. The HS256 signature itself
 * (RFC 7518 section 3.2) is not modelled: signing and verifying are function parameters.
 */
module Tokens {
  import opened Basics
  import opened Numerals

  /** The scheme prefix of section 2.1 of RFC 6750, matched case-sensitively. */
  const BearerPrefix := "Bearer "
  const MalformedHeader := "Authorization header missing or malformed."
  const TokenExpired := "Token has expired."
  const TokenInvalid := "Invalid token."
  /** `timedelta(hours=1)`, in seconds. */
  const TokenLifetime := 3600

  /** The claims of a token (RFC 7519 sections 4.1.2, 4.1.4, 4.1.6); `sub` may be missing. */
  datatype Claims = Claims(exp: int, iat: int, sub: Option<string>)

  /** What `jwt.decode` does with a token: the claims, ExpiredSignatureError, or another JWTError. */
  datatype Decoded = Verified(claims: Claims) | ExpiredSignature | Rejected

  /**
   * What the gate decides: call the route with a customer id, answer 401 with a message,
   * or fail with an exception the wrapper does not catch (KeyError, ValueError).
   */
  datatype Gate = Admit(customerId: int) | Refuse(message: string) | Fault

  /**
   * `encode_token`: the payload before signing. `expClock` and `iatClock` are the two separate
   * `datetime.now()` readings, in whole seconds.
   */
  function EncodeToken(customerId: int, expClock: int, iatClock: int): (c: Claims)
    ensures c.exp == expClock + TokenLifetime && c.iat == iatClock
    ensures c.sub.Some? && ParseInt(c.sub.value) == Some(customerId)
  {
    ParseShow(customerId);
    Claims(expClock + TokenLifetime, iatClock, Some(ShowInt(customerId)))
  }

  /** `s.split(" ")`: the fields between single spaces, empty fields kept. */
  function Split(s: string): (fields: seq<string>)
    ensures |fields| >= 1
    ensures forall i :: 0 <= i < |fields| ==> ' ' !in fields[i]
  {
    if s == [] then [[]]
    else
      var rest := Split(s[1..]);
      if s[0] == ' ' then [[]] + rest
      else [[s[0]] + rest[0]] + rest[1..]
  }

  /** `" ".join(fields)`, the inverse of Split. */
  function Join(fields: seq<string>): string
  {
    if fields == [] then []
    else if |fields| == 1 then fields[0]
    else fields[0] + " " + Join(fields[1..])
  }

  /** The characters of `s` before its first space. */
  function FirstField(s: string): string
  {
    if s == [] || s[0] == ' ' then [] else [s[0]] + FirstField(s[1..])
  }

  lemma {:induction false} JoinSplit(s: string)
    ensures Join(Split(s)) == s
  {
    if s != [] {
      var rest := Split(s[1..]);
      JoinSplit(s[1..]);
      if s[0] == ' ' {
        assert ([[]] + rest)[1..] == rest;
      } else if |rest| > 1 {
        var fields := [[s[0]] + rest[0]] + rest[1..];
        assert fields[1..] == rest[1..];
        assert Join(rest) == rest[0] + " " + Join(rest[1..]);
      }
    }
  }

  lemma {:induction false} SplitHead(s: string)
    ensures Split(s)[0] == FirstField(s)
  {
    if s != [] && s[0] != ' ' {
      SplitHead(s[1..]);
    }
  }

  /** Splitting after a word that holds no space puts that word in front. */
  lemma {:induction false} SplitAfterWord(w: string, rest: string)
    requires ' ' !in w
    ensures Split(w + " " + rest) == [w] + Split(rest)
  {
    var s := w + " " + rest;
    if w == [] {
      assert s[0] == ' ' && s[1..] == rest;
    } else {
      assert s[0] == w[0] && s[1..] == w[1..] + " " + rest;
      SplitAfterWord(w[1..], rest);
      assert [w[0]] + w[1..] == w;
    }
  }

  lemma {:induction false} FirstFieldOfWord(w: string)
    requires ' ' !in w
    ensures FirstField(w) == w
  {
    if w != [] {
      FirstFieldOfWord(w[1..]);
      assert [w[0]] + w[1..] == w;
    }
  }

  /**
   * `not auth_header or not auth_header.startswith("Bearer ")`, negated. The non-empty conjunct
   * stands for `not auth_header`; the prefix test alone already implies it.
   */
  predicate HasBearerPrefix(header: Option<string>)
  {
    header.Some? && header.value != [] && BearerPrefix <= header.value
  }

  /** `auth_header.split(" ")[1]`: what follows the prefix, up to the next space. */
  function BearerToken(header: string): (token: string)
    requires BearerPrefix <= header
    ensures token == FirstField(header[|BearerPrefix|..])
  {
    var rest := header[|BearerPrefix|..];
    assert header == "Bearer" + " " + rest;
    SplitAfterWord("Bearer", rest);
    SplitHead(rest);
    Split(header)[1]
  }

  /** The wrapper of `token_required`, up to the call of the route. */
  function Guard(header: Option<string>, decode: string -> Decoded): Gate
  {
    if !HasBearerPrefix(header) then Refuse(MalformedHeader)
    else
      match decode(BearerToken(header.value))
      case ExpiredSignature => Refuse(TokenExpired)
      case Rejected => Refuse(TokenInvalid)
      case Verified(claims) =>
        if claims.sub.None? then Fault
        else
          match ParseInt(claims.sub.value)
          case None => Fault
          case Some(id) => Admit(id)
  }

  /** A missing or non-Bearer header is refused without consulting the decoder at all. */
  lemma GuardRejectsMalformed(header: Option<string>, d1: string -> Decoded, d2: string -> Decoded)
    requires !HasBearerPrefix(header)
    ensures Guard(header, d1) == Guard(header, d2) == Refuse(MalformedHeader)
  {
  }

  /** How each decode outcome is classified, for a header that passed the prefix check. */
  lemma GuardClassifies(header: Option<string>, decode: string -> Decoded)
    requires HasBearerPrefix(header)
    ensures var outcome := decode(BearerToken(header.value));
      && (Guard(header, decode) == Refuse(TokenExpired) <==> outcome.ExpiredSignature?)
      && (Guard(header, decode) == Refuse(TokenInvalid) <==> outcome.Rejected?)
      && (Guard(header, decode).Admit? <==>
            outcome.Verified? && outcome.claims.sub.Some? && ParseInt(outcome.claims.sub.value).Some?)
      && (Guard(header, decode).Admit? ==>
            Guard(header, decode).customerId == ParseInt(outcome.claims.sub.value).value)
  {
  }

  /** "Bearer " alone yields the empty token, which then goes to the decoder. */
  lemma EmptyBearerToken()
    ensures BearerToken(BearerPrefix) == []
  {
  }

  /**
   * A token issued by `encode_token` for a customer, presented as `Bearer <token>` and accepted
   * by the decoder, admits exactly that customer id. A compact JWT holds no space.
   */
  lemma {:induction false} IssuedTokenAdmitted(token: string, decode: string -> Decoded,
                                               customerId: int, expClock: int, iatClock: int)
    requires ' ' !in token
    requires decode(token) == Verified(EncodeToken(customerId, expClock, iatClock))
    ensures Guard(Some(BearerPrefix + token), decode) == Admit(customerId)
  {
    var header := BearerPrefix + token;
    assert header[|BearerPrefix|..] == token;
    FirstFieldOfWord(token);
  }
}
