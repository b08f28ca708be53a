/**
  The base64url printer and parser of the token service
  (src/service/auth-token-service.ts; sections 4 and 5 of RFC 4648).
 */
module Base64Url {
  import opened Prelude

  type Byte = b: int | 0 <= b < 256

  type Sextet = v: int | 0 <= v < 64

  // Base64 as the platform prints and parses it.

  function CharOf(v: Sextet): char {
    if v < 26 then ('A' as int + v) as char
    else if v < 52 then ('a' as int + v - 26) as char
    else if v < 62 then ('0' as int + v - 52) as char
    else if v == 62 then '+' else '/'
  }

  function ValueOf(c: char): Option<Sextet> {
    if 'A' <= c <= 'Z' then Some(c as int - 'A' as int)
    else if 'a' <= c <= 'z' then Some(c as int - 'a' as int + 26)
    else if '0' <= c <= '9' then Some(c as int - '0' as int + 52)
    else if c == '+' then Some(62)
    else if c == '/' then Some(63)
    else None
  }

  function ToSextets(bytes: seq<Byte>): seq<Sextet> {
    if |bytes| == 0 then []
    else if |bytes| == 1 then [bytes[0] / 4, bytes[0] % 4 * 16]
    else if |bytes| == 2 then [bytes[0] / 4, bytes[0] % 4 * 16 + bytes[1] / 16, bytes[1] % 16 * 4]
    else
      [bytes[0] / 4, bytes[0] % 4 * 16 + bytes[1] / 16, bytes[1] % 16 * 4 + bytes[2] / 64, bytes[2] % 64]
      + ToSextets(bytes[3..])
  }

  function FromSextets(values: seq<Sextet>): seq<Byte> {
    if |values| <= 1 then []
    else
      var first: Byte := values[0] as int * 4 + values[1] / 16;
      if |values| == 2 then [first]
      else
        var second: Byte := values[1] as int % 16 * 16 + values[2] / 4;
        if |values| == 3 then [first, second]
        else
          var third: Byte := values[2] as int % 4 * 64 + values[3];
          [first, second, third] + FromSextets(values[4..])
  }

  function Chars(values: seq<Sextet>): string {
    if values == [] then "" else [CharOf(values[0])] + Chars(values[1..])
  }

  function Repeat(c: char, count: nat): string {
    if count == 0 then "" else [c] + Repeat(c, count - 1)
  }

  function PadLength(length: nat): nat {
    (4 - length % 4) % 4
  }

  function EncodeBase64(bytes: seq<Byte>): string {
    var text := Chars(ToSextets(bytes));
    text + Repeat('=', PadLength(|text|))
  }

  /** The values of the base64 characters; padding and anything else is skipped. */
  function Values(text: string): seq<Sextet> {
    if text == "" then []
    else (if ValueOf(text[0]).Some? then [ValueOf(text[0]).value] else []) + Values(text[1..])
  }

  function DecodeBase64(text: string): seq<Byte> {
    FromSextets(Values(text))
  }

  // The service's two functions.

  function ReplaceAll(text: string, from: char, to: char): (replaced: string)
    ensures |replaced| == |text|
  {
    if text == "" then "" else [if text[0] == from then to else text[0]] + ReplaceAll(text[1..], from, to)
  }

  /** `replace(/=+$/g, '')` */
  function StripPadding(text: string): string {
    if text != "" && text[|text| - 1] == '=' then StripPadding(text[..|text| - 1]) else text
  }

  function ToBase64Url(bytes: seq<Byte>): string {
    StripPadding(ReplaceAll(ReplaceAll(EncodeBase64(bytes), '+', '-'), '/', '_'))
  }

  function FromBase64Url(value: string): seq<Byte> {
    var padded := ReplaceAll(ReplaceAll(value, '-', '+'), '_', '/');
    DecodeBase64(padded + Repeat('=', PadLength(|padded|)))
  }

  predicate IsUrlSafe(c: char) {
    'A' <= c <= 'Z' || 'a' <= c <= 'z' || '0' <= c <= '9' || c == '-' || c == '_'
  }

  // Proofs.

  lemma {:induction false} SextetsRoundTrip(bytes: seq<Byte>)
    ensures FromSextets(ToSextets(bytes)) == bytes
  {
    if |bytes| >= 3 {
      var values := ToSextets(bytes);
      SextetsRoundTrip(bytes[3..]);
      assert values[4..] == ToSextets(bytes[3..]);
      assert bytes == [bytes[0], bytes[1], bytes[2]] + bytes[3..];
    }
  }

  lemma {:induction false} ValuesOfChars(values: seq<Sextet>, padding: nat)
    ensures Values(Chars(values) + Repeat('=', padding)) == values
  {
    var text := Chars(values) + Repeat('=', padding);
    if values == [] {
      assert text == Repeat('=', padding);
      PaddingHasNoValues(padding);
    } else {
      assert text[1..] == Chars(values[1..]) + Repeat('=', padding);
      ValuesOfChars(values[1..], padding);
    }
  }

  lemma {:induction false} PaddingHasNoValues(padding: nat)
    ensures Values(Repeat('=', padding)) == []
  {
    if padding > 0 {
      assert Repeat('=', padding)[1..] == Repeat('=', padding - 1);
      PaddingHasNoValues(padding - 1);
    }
  }

  lemma {:induction false} ReplaceAllAppends(left: string, right: string, from: char, to: char)
    ensures ReplaceAll(left + right, from, to) == ReplaceAll(left, from, to) + ReplaceAll(right, from, to)
  {
    if left == "" {
      assert left + right == right;
    } else {
      assert (left + right)[1..] == left[1..] + right;
      ReplaceAllAppends(left[1..], right, from, to);
    }
  }

  lemma {:induction false} PaddingIsNotReplaced(padding: nat, from: char, to: char)
    requires from != '='
    ensures ReplaceAll(Repeat('=', padding), from, to) == Repeat('=', padding)
  {
    if padding > 0 {
      PaddingIsNotReplaced(padding - 1, from, to);
    }
  }

  /** The characters between the standard and the URL-safe alphabet. */
  function UrlChars(values: seq<Sextet>): string {
    ReplaceAll(ReplaceAll(Chars(values), '+', '-'), '/', '_')
  }

  lemma {:induction false} UrlCharsAreSafeAndReversible(values: seq<Sextet>)
    ensures forall c :: c in UrlChars(values) ==> IsUrlSafe(c)
    ensures ReplaceAll(ReplaceAll(UrlChars(values), '-', '+'), '_', '/') == Chars(values)
    ensures |UrlChars(values)| == |Chars(values)| == |values|
  {
    if values != [] {
      UrlCharsAreSafeAndReversible(values[1..]);
      assert UrlChars(values) == [UrlChars(values)[0]] + UrlChars(values[1..]);
    }
  }

  lemma {:induction false} PaddingIsStripped(text: string, padding: nat)
    requires '=' !in text
    ensures StripPadding(text + Repeat('=', padding)) == text
  {
    if padding == 0 {
      assert text + Repeat('=', 0) == text;
      assert text != "" ==> text[|text| - 1] in text;
    } else {
      RepeatFromTheEnd(padding);
      assert text + Repeat('=', padding) == (text + Repeat('=', padding - 1)) + "=";
      assert (text + Repeat('=', padding))[..|text| + padding - 1] == text + Repeat('=', padding - 1);
      PaddingIsStripped(text, padding - 1);
    }
  }

  lemma {:induction false} RepeatFromTheEnd(padding: nat)
    requires padding > 0
    ensures Repeat('=', padding) == Repeat('=', padding - 1) + "=" && |Repeat('=', padding)| == padding
  {
    if padding > 1 {
      RepeatFromTheEnd(padding - 1);
    }
  }

  lemma {:induction false} ToBase64UrlIsUrlChars(bytes: seq<Byte>)
    ensures ToBase64Url(bytes) == UrlChars(ToSextets(bytes))
  {
    var values := ToSextets(bytes);
    var text := Chars(values);
    var padding := PadLength(|text|);
    ReplaceAllAppends(text, Repeat('=', padding), '+', '-');
    PaddingIsNotReplaced(padding, '+', '-');
    ReplaceAllAppends(ReplaceAll(text, '+', '-'), Repeat('=', padding), '/', '_');
    PaddingIsNotReplaced(padding, '/', '_');
    UrlCharsAreSafeAndReversible(values);
    PaddingIsStripped(UrlChars(values), padding);
  }

  /** For all byte strings the parser undoes the printer, which writes URL-safe characters only. */
  lemma Base64UrlRoundTrip(bytes: seq<Byte>)
    ensures FromBase64Url(ToBase64Url(bytes)) == bytes
    ensures forall c :: c in ToBase64Url(bytes) ==> IsUrlSafe(c)
    ensures bytes != [] ==> ToBase64Url(bytes) != ""
  {
    var values := ToSextets(bytes);
    ToBase64UrlIsUrlChars(bytes);
    UrlCharsAreSafeAndReversible(values);
    ValuesOfChars(values, PadLength(|Chars(values)|));
    SextetsRoundTrip(bytes);
  }

  /** Putting the padding back restores the platform's own base64 text. */
  lemma PaddingIsRestored(bytes: seq<Byte>)
    ensures
      var standard := ReplaceAll(ReplaceAll(ToBase64Url(bytes), '-', '+'), '_', '/');
      standard + Repeat('=', PadLength(|standard|)) == EncodeBase64(bytes)
  {
    ToBase64UrlIsUrlChars(bytes);
    UrlCharsAreSafeAndReversible(ToSextets(bytes));
  }

  // The printed text, character by character.

  const CAPITALS := "ABCDEFGHIJKLMNOPQRSTUVWXYZ"
  const LETTERS := "abcdefghijklmnopqrstuvwxyz"

  /** Table 2 of RFC 4648, section 5. */
  const ALPHABET := CAPITALS + LETTERS + "0123456789-_"

  lemma CapitalAt(v: nat)
    requires v < 26
    ensures CAPITALS[v] as int == 'A' as int + v
  {
  }

  lemma LetterAt(v: nat)
    requires v < 26
    ensures LETTERS[v] as int == 'a' as int + v
  {
  }

  lemma UrlCharOf(v: Sextet)
    ensures |ALPHABET| == 64
    ensures (if CharOf(v) == '+' then '-' else if CharOf(v) == '/' then '_' else CharOf(v)) == ALPHABET[v]
  {
    if v < 26 {
      CapitalAt(v);
    } else if v < 52 {
      LetterAt(v - 26);
    } else {
      assert ALPHABET[v] == "0123456789-_"[v - 52];
    }
  }

  lemma {:induction false} UrlCharsOfValues(values: seq<Sextet>)
    ensures |UrlChars(values)| == |values| && |ALPHABET| == 64
    ensures forall i :: 0 <= i < |values| ==> UrlChars(values)[i] == ALPHABET[values[i]]
  {
    UrlCharOf(0);
    if values != [] {
      UrlCharsOfValues(values[1..]);
      UrlCharOf(values[0]);
      assert UrlChars(values) == [ALPHABET[values[0]]] + UrlChars(values[1..]);
    }
  }

  /**
    Four values spell three bytes as one number, and a shorter last group ends in zero bits (RFC 4648, section 4).
   */
  predicate SpellsGroup(values: seq<int>, bytes: seq<int>, k: nat)
    requires 3 * k < |bytes|
  {
    var rest := |bytes| - 3 * k;
    if rest == 1 then
      |values| == 4 * k + 2 && 64 * values[4 * k] + values[4 * k + 1] == 16 * bytes[3 * k]
    else if rest == 2 then
      && |values| == 4 * k + 3
      && 4096 * values[4 * k] + 64 * values[4 * k + 1] + values[4 * k + 2] == 4 * (256 * bytes[3 * k] + bytes[3 * k + 1])
    else
      && |values| >= 4 * k + 4
      && 262_144 * values[4 * k] + 4096 * values[4 * k + 1] + 64 * values[4 * k + 2] + values[4 * k + 3]
        == 65_536 * bytes[3 * k] + 256 * bytes[3 * k + 1] + bytes[3 * k + 2]
  }

  lemma {:induction false} GroupsOfSextets(bytes: seq<Byte>, k: nat)
    requires 3 * k < |bytes|
    ensures SpellsGroup(ToSextets(bytes), bytes, k)
  {
    if |bytes| > 3 {
      var values := ToSextets(bytes);
      assert values[4..] == ToSextets(bytes[3..]);
      if k > 0 {
        GroupsOfSextets(bytes[3..], k - 1);
        GroupShifts(values, bytes, k);
      }
    }
  }

  lemma GroupShifts(values: seq<int>, bytes: seq<int>, k: nat)
    requires k > 0 && 3 * k < |bytes| && |values| >= 4
    ensures SpellsGroup(values[4..], bytes[3..], k - 1) <==> SpellsGroup(values, bytes, k)
  {
    assert forall i :: 4 <= i < |values| ==> values[i] == values[4..][i - 4];
    assert forall i :: 3 <= i < |bytes| ==> bytes[i] == bytes[3..][i - 3];
  }

  /** The text is the alphabet's spelling of values that make up the bytes group by group, and nothing else. */
  lemma {:induction false} SpellsTheBytes(bytes: seq<Byte>)
    ensures exists values: seq<Sextet> ::
      && |values| == |ToBase64Url(bytes)|
      && (forall i :: 0 <= i < |values| ==> values[i] < |ALPHABET| && ToBase64Url(bytes)[i] == ALPHABET[values[i]])
      && (bytes == [] ==> values == [])
      && forall k: nat :: 3 * k < |bytes| ==> SpellsGroup(values, bytes, k)
  {
    var values := ToSextets(bytes);
    ToBase64UrlIsUrlChars(bytes);
    UrlCharsOfValues(values);
    forall k: nat | 3 * k < |bytes| ensures SpellsGroup(values, bytes, k) {
      GroupsOfSextets(bytes, k);
    }
  }

  lemma {:induction false} SextetCount(bytes: seq<Byte>)
    ensures |ToSextets(bytes)| == (8 * |bytes| + 5) / 6
  {
    if |bytes| > 3 {
      SextetCount(bytes[3..]);
    }
  }

  lemma {:induction false} RepeatLength(c: char, count: nat)
    ensures |Repeat(c, count)| == count
  {
    if count > 0 {
      RepeatLength(c, count - 1);
    }
  }

  lemma WholeGroups(count: nat)
    ensures
      var sextets := (8 * count + 5) / 6;
      sextets + PadLength(sextets) == (count + 2) / 3 * 4
  {
    var k, rest := count / 3, count % 3;
    FirstGroups(k, rest);
    LengthsInGroups(k, (8 * rest + 5) / 6);
  }

  lemma FirstGroups(k: nat, rest: nat)
    requires rest < 3
    ensures (8 * (3 * k + rest) + 5) / 6 == 4 * k + (8 * rest + 5) / 6
  {
  }

  lemma LengthsInGroups(k: nat, length: nat)
    requires length == 0 || length == 2 || length == 3
    ensures PadLength(4 * k + length) == if length == 0 then 0 else 4 - length
  {
    assert (4 * k + length) % 4 == length;
  }

  /** The platform's own text is padded to whole groups of four characters (RFC 4648, section 4). */
  lemma PaddedToGroups(bytes: seq<Byte>)
    ensures |EncodeBase64(bytes)| == (|bytes| + 2) / 3 * 4
    ensures |ToBase64Url(bytes)| == (8 * |bytes| + 5) / 6
  {
    SextetCount(bytes);
    ToBase64UrlIsUrlChars(bytes);
    UrlCharsAreSafeAndReversible(ToSextets(bytes));
    RepeatLength('=', PadLength(|ToSextets(bytes)|));
    WholeGroups(|bytes|);
    hide ToSextets, Chars, UrlChars, ToBase64Url, PadLength, Repeat;
  }
}
