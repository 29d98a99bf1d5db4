/**
 * Safe::hexEmailEncode: an e-mail address written with its letters, digits
 * and underscores as %-escapes (which a browser reads back but a simple
 * harvester does not), its at-signs replaced by a caller-chosen text, and a
 * memo cache that lives as long as the script.
 */
module Safe {
  import opened Php

  /** A byte of a PHP string. */
  newtype byte = x: int | 0 <= x < 256

  const At: byte := 64
  const Percent: byte := 37

  /**
   * What preg_match('!\w!u', $email[$x]) accepts: an ASCII letter, digit or
   * underscore. A lone byte of 0x80 or above is not valid UTF-8, so the
   * match fails and the byte is copied.
   */
  predicate IsWordByte(b: byte)
  {
    48 <= b <= 57 || 65 <= b <= 90 || 97 <= b <= 122 || b == 95
  }

  /** A digit as bin2hex writes it: 0-9 and lowercase a-f. */
  predicate IsHexDigit(c: byte)
  {
    48 <= c <= 57 || 97 <= c <= 102
  }

  /** The value of a hexadecimal digit. */
  function HexValue(c: byte): (d: int)
    requires IsHexDigit(c)
    ensures 0 <= d < 16
  {
    if c <= 57 then c as int - 48 else c as int - 87
  }

  /** The hexadecimal digit of a value below 16; HexValue reads it back. */
  function HexDigit(d: int): (c: byte)
    requires 0 <= d < 16
    ensures IsHexDigit(c) && HexValue(c) == d
  {
    if d < 10 then (48 + d) as byte else (87 + d) as byte
  }

  /** Lines 74-78 for one byte: '%' and bin2hex of a word byte, any other byte itself. */
  function EncodeByte(b: byte): (r: seq<byte>)
    ensures |r| == if IsWordByte(b) then 3 else 1
    ensures At in r <==> b == At
    ensures !IsHexDigit(r[0])
  {
    if IsWordByte(b) then [Percent, HexDigit(b as int / 16), HexDigit(b as int % 16)] else [b]
  }

  /** The encoded e-mail, byte by byte in order. */
  function HexEncode(s: seq<byte>): (r: seq<byte>)
    ensures |r| == |s| + 2 * WordCount(s)
    ensures s != [] ==> r != [] && !IsHexDigit(r[0])
  {
    if s == [] then [] else EncodeByte(s[0]) + HexEncode(s[1..])
  }

  /** The number of word bytes in s. */
  function WordCount(s: seq<byte>): nat
  {
    if s == [] then 0 else (if IsWordByte(s[0]) then 1 else 0) + WordCount(s[1..])
  }

  lemma {:induction false} HexEncodeAppend(a: seq<byte>, b: seq<byte>)
    ensures HexEncode(a + b) == HexEncode(a) + HexEncode(b)
  {
    if a == [] {
      assert a + b == b;
    } else {
      assert (a + b)[0] == a[0] && (a + b)[1..] == a[1..] + b;
      HexEncodeAppend(a[1..], b);
    }
  }

  /**
   * The encoding loop of lines 72-79: every byte of the e-mail in turn,
   * appended to the result either escaped or as it is.
   */
  method Encode(email: seq<byte>) returns (encoded: seq<byte>)
    ensures encoded == HexEncode(email)
  {
    encoded := [];
    var x := 0;
    while x < |email|
      invariant 0 <= x <= |email|
      invariant encoded == HexEncode(email[..x])
    {
      var b := email[x];
      EncodeStep(email, x);
      if IsWordByte(b) {
        encoded := encoded + [Percent, HexDigit(b as int / 16), HexDigit(b as int % 16)];
      } else {
        encoded := encoded + [b];
      }
      x := x + 1;
    }
    assert email[..x] == email;
  }

  /** One more byte encoded: the encoding of the longer prefix is that of the shorter one and the byte's. */
  lemma EncodeStep(email: seq<byte>, x: nat)
    requires x < |email|
    ensures HexEncode(email[..x + 1]) == HexEncode(email[..x]) + EncodeByte(email[x])
  {
    assert email[..x + 1] == email[..x] + [email[x]];
    HexEncodeAppend(email[..x], [email[x]]);
    assert HexEncode([email[x]]) == EncodeByte(email[x]) + [];
  }

  /** What the browser reads back: a '%' and two hexadecimal digits stand for one byte. */
  function PercentDecode(s: seq<byte>): seq<byte>
  {
    if s == [] then []
    else if |s| >= 3 && s[0] == Percent && IsHexDigit(s[1]) && IsHexDigit(s[2]) then
      [(HexValue(s[1]) * 16 + HexValue(s[2])) as byte] + PercentDecode(s[3..])
    else [s[0]] + PercentDecode(s[1..])
  }

  /**
   * Decoding the encoded e-mail gives the e-mail back: an escape is never
   * confused with a '%' of the e-mail itself, because no encoded byte
   * follows that '%' with a hexadecimal digit.
   */
  lemma {:induction false} DecodeEncode(s: seq<byte>)
    ensures PercentDecode(HexEncode(s)) == s
  {
    if s != [] {
      var b := s[0];
      var rest := HexEncode(s[1..]);
      DecodeEncode(s[1..]);
      assert HexEncode(s) == EncodeByte(b) + rest;
      if IsWordByte(b) {
        var e := EncodeByte(b) + rest;
        assert e[3..] == rest;
        assert (HexValue(e[1]) * 16 + HexValue(e[2])) as byte == b;
      } else {
        var e := [b] + rest;
        assert e[1..] == rest;
        if rest != [] {
          assert e[1] == rest[0];
        }
      }
    }
  }

  /**
   * Lines 72-82 without the cache: the encoded e-mail with every '@'
   * replaced by replaceAtSign.
   */
  function Obfuscate(email: seq<byte>, replaceAtSign: seq<byte>): (r: seq<byte>)
    ensures At !in replaceAtSign ==> At !in r
  {
    ReplaceAll(HexEncode(email), At, replaceAtSign)
  }

  /** Each byte of the e-mail in turn: its at-signs become the replacement, every other byte is encoded. */
  function ObfuscateEach(email: seq<byte>, replaceAtSign: seq<byte>): seq<byte>
  {
    if email == [] then []
    else (if email[0] == At then replaceAtSign else EncodeByte(email[0])) + ObfuscateEach(email[1..], replaceAtSign)
  }

  /** The at-sign replacement touches only the e-mail's own at-signs: no escape holds an '@'. */
  lemma {:induction false} ObfuscateBytewise(email: seq<byte>, replaceAtSign: seq<byte>)
    ensures Obfuscate(email, replaceAtSign) == ObfuscateEach(email, replaceAtSign)
  {
    if email != [] {
      var b := email[0];
      ObfuscateBytewise(email[1..], replaceAtSign);
      assert HexEncode(email) == EncodeByte(b) + HexEncode(email[1..]);
      ReplaceAllAppend(EncodeByte(b), HexEncode(email[1..]), At, replaceAtSign);
      if b == At {
        assert EncodeByte(b) == [At];
        assert ReplaceAll(EncodeByte(b), At, replaceAtSign) == replaceAtSign + [];
      } else {
        ReplaceAllAbsent(EncodeByte(b), At, replaceAtSign);
      }
    }
  }

  /** With the default '@' the replacement changes nothing. */
  lemma DefaultAtSign(email: seq<byte>)
    ensures Obfuscate(email, [At]) == HexEncode(email)
  {
    ReplaceAllIdentity(HexEncode(email), At);
  }

  /** An e-mail without an at-sign is only encoded, whatever the replacement. */
  lemma {:induction false} NoAtSign(email: seq<byte>, replaceAtSign: seq<byte>)
    requires At !in email
    ensures Obfuscate(email, replaceAtSign) == HexEncode(email)
  {
    AtOnlyFromEmail(email);
    ReplaceAllAbsent(HexEncode(email), At, replaceAtSign);
  }

  /** The encoded e-mail holds an '@' exactly when the e-mail does. */
  lemma {:induction false} AtOnlyFromEmail(email: seq<byte>)
    ensures At in HexEncode(email) <==> At in email
  {
    if email != [] {
      AtOnlyFromEmail(email[1..]);
      assert HexEncode(email) == EncodeByte(email[0]) + HexEncode(email[1..]);
      assert email == [email[0]] + email[1..];
    }
  }

  // ------------------------------------------------------------------ the cache

  /**
   * The static $cache of hexEmailEncode, keyed as line 67 keys it: by the
   * e-mail and the replacement written one after the other. The ghost map
   * records, for each key, the pair of arguments whose result is stored.
   */
  class HexEmailEncoder {
    var cache: map<seq<byte>, seq<byte>>
    ghost var origin: map<seq<byte>, (seq<byte>, seq<byte>)>

    ghost predicate Valid()
      reads this
    {
      cache.Keys == origin.Keys &&
      forall k :: k in cache ==> origin[k].0 + origin[k].1 == k && cache[k] == Obfuscate(origin[k].0, origin[k].1)
    }

    constructor()
      ensures Valid() && cache == map[]
    {
      cache := map[];
      origin := map[];
    }

    /**
     * Safe::hexEmailEncode: a key already cached returns the stored text
     * unchanged; otherwise the e-mail is encoded, the at-signs replaced and
     * the result stored. Either way the result belongs to some pair of
     * arguments with the same concatenation, not necessarily this one.
     */
    method HexEmailEncode(email: seq<byte>, replaceAtSign: seq<byte>) returns (result: seq<byte>)
      requires Valid()
      modifies this
      ensures Valid()
      ensures email + replaceAtSign in old(cache) ==> result == old(cache)[email + replaceAtSign] && cache == old(cache)
      ensures email + replaceAtSign !in old(cache) ==>
        result == Obfuscate(email, replaceAtSign) && cache == old(cache)[email + replaceAtSign := result]
      ensures var (e, r) := origin[email + replaceAtSign]; e + r == email + replaceAtSign && result == Obfuscate(e, r)
    {
      var cacheKey := email + replaceAtSign;
      if cacheKey in cache {
        return cache[cacheKey];
      }
      var encoded := Encode(email);
      result := ReplaceAll(encoded, At, replaceAtSign);
      cache := cache[cacheKey := result];
      origin := origin[cacheKey := (email, replaceAtSign)];
    }
  }

  /** ("a@", "b") and ("a", "@b") have the same cache key but different results. */
  lemma CollidingKeys()
    ensures var a: seq<byte>, b: seq<byte> := [97, 64], [64, 98]; a + [98] == [97] + b
    ensures Obfuscate([97, 64], [98]) == [37, 54, 49, 98]
    ensures Obfuscate([97], [64, 98]) == [37, 54, 49]
  {
    ObfuscateBytewise([97, 64], [98]);
    ObfuscateBytewise([97], [64, 98]);
  }

  /**
   * The two calls of CollidingKeys on one cache: the second returns the
   * first call's result, which is not the encoding of its own arguments.
   */
  method CacheCollision() returns (first: seq<byte>, second: seq<byte>)
    ensures first == [37, 54, 49, 98] && second == first
    ensures second != Obfuscate([97], [64, 98])
  {
    CollidingKeys();
    var encoder := new HexEmailEncoder();
    first := encoder.HexEmailEncode([97, 64], [98]);
    second := encoder.HexEmailEncode([97], [64, 98]);
  }

  /**
   * The cache keyed by the pair of arguments, so that a stored result is
   * always the result of the arguments looked up.
   */
  class PairKeyedEncoder {
    var cache: map<(seq<byte>, seq<byte>), seq<byte>>

    ghost predicate Valid()
      reads this
    {
      forall k :: k in cache ==> cache[k] == Obfuscate(k.0, k.1)
    }

    constructor()
      ensures Valid() && cache == map[]
    {
      cache := map[];
    }

    /** hexEmailEncode with the pair as the key: the result is always the obfuscated e-mail. */
    method HexEmailEncode(email: seq<byte>, replaceAtSign: seq<byte>) returns (result: seq<byte>)
      requires Valid()
      modifies this
      ensures Valid()
      ensures result == Obfuscate(email, replaceAtSign)
      ensures cache == old(cache)[(email, replaceAtSign) := result]
    {
      var cacheKey := (email, replaceAtSign);
      if cacheKey in cache {
        return cache[cacheKey];
      }
      var encoded := Encode(email);
      result := ReplaceAll(encoded, At, replaceAtSign);
      cache := cache[cacheKey := result];
    }
  }

  /** The two calls of CacheCollision on the pair-keyed cache: each gets its own result. */
  method NoCollision() returns (first: seq<byte>, second: seq<byte>)
    ensures first == [37, 54, 49, 98] && second == [37, 54, 49]
  {
    CollidingKeys();
    var encoder := new PairKeyedEncoder();
    first := encoder.HexEmailEncode([97, 64], [98]);
    second := encoder.HexEmailEncode([97], [64, 98]);
  }
}
