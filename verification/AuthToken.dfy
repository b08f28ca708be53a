/**
  Session tokens in the compact form (src/service/auth-token-service.ts; section
  7.1 of RFC 7515). The keyed hash is a function; JSON printing and parsing is a
  pair of functions that undo each other on the two objects the service prints.
 */
module AuthToken {
  import opened Prelude
  import opened Base64Url

  datatype Codec = Codec(stringify: Json -> seq<Byte>, parse: seq<Byte> -> Option<Json>)

  const LIFETIME_SECONDS := 60 * 60 * 24 * 7

  const HEADER := Object(map["alg" := Text("HS256"), "typ" := Text("JWT")])

  function PayloadOf(userId: string, now: int): Json {
    Object(map[
      "sub" := Text(userId), "iat" := Number(now as real), "exp" := Number((now + LIFETIME_SECONDS) as real)])
  }

  /** What the service relies on: its own objects survive printing and parsing, nothing parses from no bytes. */
  ghost predicate Faithful(codec: Codec) {
    && codec.parse([]).None?
    && codec.parse(codec.stringify(HEADER)) == Some(HEADER)
    && forall userId, now :: codec.parse(codec.stringify(PayloadOf(userId, now))) == Some(PayloadOf(userId, now))
  }

  function SignTokenPart(mac: (string, string) -> seq<Byte>, secret: string, header: string, payload: string): string {
    ToBase64Url(mac(secret, header + "." + payload))
  }

  function Seconds(nowMs: int): int {
    nowMs / 1000
  }

  function CreateAuthToken(
      codec: Codec, mac: (string, string) -> seq<Byte>, secret: string, userId: string, nowMs: int): string
  {
    var header := ToBase64Url(codec.stringify(HEADER));
    var payload := ToBase64Url(codec.stringify(PayloadOf(userId, Seconds(nowMs))));
    header + "." + payload + "." + SignTokenPart(mac, secret, header, payload)
  }

  function Lower(c: char): char {
    if 'A' <= c <= 'Z' then (c as int + 32) as char else c
  }

  predicate IsLineTerminator(c: char) {
    c == '\n' || c == '\r' || c == '\U{2028}' || c == '\U{2029}'
  }

  predicate StartsWithBearer(text: string) {
    && |text| >= 6
    && Lower(text[0]) == 'b' && Lower(text[1]) == 'e' && Lower(text[2]) == 'a'
    && Lower(text[3]) == 'r' && Lower(text[4]) == 'e' && Lower(text[5]) == 'r'
  }

  /** `authorization.match(/^Bearer\s+(.+)$/i)?.[1]` */
  function BearerToken(authorization: string): Option<string> {
    if !StartsWithBearer(authorization) then None
    else
      var rest := authorization[6..];
      var token := TrimStart(rest);
      var spaces := |rest| - |token|;
      if spaces == 0 then None
      else if token != "" then
        if exists c :: c in token && IsLineTerminator(c) then None else Some(token)
      else if spaces >= 2 && !IsLineTerminator(rest[spaces - 1]) then Some([rest[spaces - 1]])
      else None
  }

  function Split(text: string, separator: char): (parts: seq<string>)
    ensures |parts| >= 1
  {
    if text == "" then [""]
    else
      var rest := Split(text[1..], separator);
      if text[0] == separator then [""] + rest else [[text[0]] + rest[0]] + rest[1..]
  }

  function Field(json: Json, name: string): Option<Json> {
    if json.Object? && name in json.fields then Some(json.fields[name]) else None
  }

  /** The user id a token speaks for, if its signature, header and expiry are in order. */
  function SubjectOf(
      codec: Codec, mac: (string, string) -> seq<Byte>, secret: string, token: string, nowMs: int): Option<string>
  {
    var parts := Split(token, '.');
    if |parts| < 3 || parts[0] == "" || parts[1] == "" || parts[2] == "" then None
    else if parts[2] != SignTokenPart(mac, secret, parts[0], parts[1]) then None
    else
      var header, payload := codec.parse(FromBase64Url(parts[0])), codec.parse(FromBase64Url(parts[1]));
      if header.None? || payload.None? then None
      else if Field(header.value, "alg") != Some(Text("HS256")) || Field(header.value, "typ") != Some(Text("JWT")) then None
      else
        var sub, exp := Field(payload.value, "sub"), Field(payload.value, "exp");
        if sub.None? || !sub.value.Text? || sub.value.text == "" then None
        else if exp.None? || !exp.value.Number? || exp.value.number <= Seconds(nowMs) as real then None
        else Some(sub.value.text)
  }

  function GetUserFromBearerToken<User>(
      codec: Codec, mac: (string, string) -> seq<Byte>, secret: string, users: map<string, User>,
      authorization: Option<string>, nowMs: int): Option<User>
  {
    if authorization.None? then None
    else
      var token := BearerToken(authorization.value);
      if token.None? then None
      else
        var subject := SubjectOf(codec, mac, secret, token.value, nowMs);
        if subject.Some? && subject.value in users then Some(users[subject.value]) else None
  }

  lemma {:induction false} SplitAtFirst(head: string, tail: string, separator: char)
    requires separator !in head
    ensures Split(head + [separator] + tail, separator) == [head] + Split(tail, separator)
  {
    var text := head + [separator] + tail;
    if head == "" {
      assert text[1..] == tail;
    } else {
      assert text[0] == head[0] && head[0] in head;
      assert text[1..] == head[1..] + [separator] + tail;
      SplitAtFirst(head[1..], tail, separator);
      var rest := Split(text[1..], separator);
      assert [text[0]] + rest[0] == head && rest[1..] == Split(tail, separator);
    }
  }

  lemma {:induction false} SplitWithoutSeparator(text: string, separator: char)
    requires separator !in text
    ensures Split(text, separator) == [text]
  {
    if text != "" {
      assert text[0] in text;
      SplitWithoutSeparator(text[1..], separator);
      assert [text[0]] + text[1..] == text;
    }
  }

  lemma ThreeParts(a: string, b: string, c: string)
    requires '.' !in a && '.' !in b && '.' !in c
    ensures Split(a + "." + b + "." + c, '.') == [a, b, c]
  {
    assert a + "." + b + "." + c == a + ['.'] + (b + ['.'] + c);
    SplitAtFirst(a, b + ['.'] + c, '.');
    SplitAtFirst(b, c, '.');
    SplitWithoutSeparator(c, '.');
  }

  predicate IsTokenChar(c: char) {
    IsUrlSafe(c) || c == '.'
  }

  lemma TokenCharsAreVisible(c: char)
    requires IsTokenChar(c)
    ensures !IsSpace(c) && !IsLineTerminator(c)
  {
  }

  lemma BearerPrefix(rest: string)
    ensures StartsWithBearer("Bearer" + rest) && ("Bearer" + rest)[6..] == rest
  {
  }

  lemma OneSpaceIsTrimmed(token: string)
    requires token != "" && !IsSpace(token[0])
    ensures TrimStart(" " + token) == token
  {
    assert (" " + token)[1..] == token;
    assert TrimStart(token) == token;
  }

  lemma BearerCarriesToken(token: string)
    requires token != "" && forall c :: c in token ==> IsTokenChar(c)
    ensures BearerToken("Bearer" + (" " + token)) == Some(token)
  {
    BearerPrefix(" " + token);
    forall c | c in token ensures !IsSpace(c) && !IsLineTerminator(c) { TokenCharsAreVisible(c); }
    assert token[0] in token;
    OneSpaceIsTrimmed(token);
  }

  /** A token of the service splits back into the parts it was made of. */
  lemma TokenParts(codec: Codec, mac: (string, string) -> seq<Byte>, secret: string, userId: string, nowMs: int)
    ensures
      var header := ToBase64Url(codec.stringify(HEADER));
      var payload := ToBase64Url(codec.stringify(PayloadOf(userId, Seconds(nowMs))));
      var token := CreateAuthToken(codec, mac, secret, userId, nowMs);
      && Split(token, '.') == [header, payload, SignTokenPart(mac, secret, header, payload)]
      && token != ""
      && forall c :: c in token ==> IsTokenChar(c)
  {
    hide Split, ToBase64Url, FromBase64Url;
    var header := ToBase64Url(codec.stringify(HEADER));
    var payload := ToBase64Url(codec.stringify(PayloadOf(userId, Seconds(nowMs))));
    var signature := SignTokenPart(mac, secret, header, payload);
    Base64UrlRoundTrip(codec.stringify(HEADER));
    Base64UrlRoundTrip(codec.stringify(PayloadOf(userId, Seconds(nowMs))));
    Base64UrlRoundTrip(mac(secret, header + "." + payload));
    ThreeParts(header, payload, signature);
  }

  /** A printed object is recovered from its token part, which is never empty. */
  lemma PartParses(codec: Codec, json: Json)
    requires codec.parse([]).None? && codec.parse(codec.stringify(json)) == Some(json)
    ensures ToBase64Url(codec.stringify(json)) != ""
    ensures codec.parse(FromBase64Url(ToBase64Url(codec.stringify(json)))) == Some(json)
  {
    Base64UrlRoundTrip(codec.stringify(json));
  }

  lemma OwnFields(userId: string, now: int)
    ensures Field(HEADER, "alg") == Some(Text("HS256")) && Field(HEADER, "typ") == Some(Text("JWT"))
    ensures Field(PayloadOf(userId, now), "sub") == Some(Text(userId))
    ensures Field(PayloadOf(userId, now), "exp") == Some(Number((now + LIFETIME_SECONDS) as real))
  {
  }

  /** What anybody can read in a token: the algorithm, the user, the time of issue and seven days later, and nothing else. */
  lemma TokenClaims(codec: Codec, mac: (string, string) -> seq<Byte>, secret: string, userId: string, nowMs: int)
    requires Faithful(codec)
    ensures
      var parts := Split(CreateAuthToken(codec, mac, secret, userId, nowMs), '.');
      && |parts| == 3
      && codec.parse(FromBase64Url(parts[0])) == Some(Object(map["alg" := Text("HS256"), "typ" := Text("JWT")]))
      && codec.parse(FromBase64Url(parts[1])) == Some(Object(map[
           "sub" := Text(userId), "iat" := Number((nowMs / 1000) as real),
           "exp" := Number((nowMs / 1000 + 604_800) as real)]))
      && parts[2] == ToBase64Url(mac(secret, parts[0] + "." + parts[1]))
  {
    hide Split, ToBase64Url, FromBase64Url;
    TokenParts(codec, mac, secret, userId, nowMs);
    PartParses(codec, HEADER);
    PartParses(codec, PayloadOf(userId, Seconds(nowMs)));
  }

  /** A token made for a user speaks for that user, unless the id is empty, until its seven days are over. */
  lemma TokenSpeaksForSevenDays(
      codec: Codec, mac: (string, string) -> seq<Byte>, secret: string, userId: string, issuedMs: int, nowMs: int)
    requires Faithful(codec) && forall message :: mac(secret, message) != []
    ensures
      SubjectOf(codec, mac, secret, CreateAuthToken(codec, mac, secret, userId, issuedMs), nowMs)
      == if userId != "" && nowMs / 1000 < issuedMs / 1000 + 604_800 then Some(userId) else None
  {
    hide Split, ToBase64Url, FromBase64Url;
    var body := PayloadOf(userId, Seconds(issuedMs));
    var header, payload := ToBase64Url(codec.stringify(HEADER)), ToBase64Url(codec.stringify(body));
    TokenParts(codec, mac, secret, userId, issuedMs);
    PartParses(codec, HEADER);
    PartParses(codec, body);
    Base64UrlRoundTrip(mac(secret, header + "." + payload));
    assert SignTokenPart(mac, secret, header, payload) != "";
    OwnFields(userId, Seconds(issuedMs));
  }

  /**
    A token made for a user is accepted under the same secret, for that user, exactly while the
    clock is below its issue time plus seven days and the user with that non-empty id exists.
   */
  lemma TokenAcceptedExactlyForSevenDays<User>(
      codec: Codec, mac: (string, string) -> seq<Byte>, secret: string, users: map<string, User>,
      userId: string, issuedMs: int, nowMs: int)
    requires Faithful(codec) && forall message :: mac(secret, message) != []
    ensures
      var token := CreateAuthToken(codec, mac, secret, userId, issuedMs);
      GetUserFromBearerToken(codec, mac, secret, users, Some("Bearer " + token), nowMs)
      == if userId != "" && userId in users && nowMs / 1000 < issuedMs / 1000 + 604_800
         then Some(users[userId]) else None
  {
    hide CreateAuthToken, SubjectOf, BearerToken, Split;
    TokenParts(codec, mac, secret, userId, issuedMs);
    TokenSpeaksForSevenDays(codec, mac, secret, userId, issuedMs, nowMs);
    var token := CreateAuthToken(codec, mac, secret, userId, issuedMs);
    assert "Bearer " + token == "Bearer" + (" " + token);
    BearerCarriesToken(token);
  }

  // Any token, whoever made it.

  lemma {:induction false} TrimStartStops(front: string, back: string)
    requires back != "" && !IsSpace(back[0])
    ensures TrimStart(front + back) == TrimStart(front) + back
  {
    hide IsSpace;
    if front == "" {
      assert front + back == back;
    } else {
      assert (front + back)[0] == front[0] && (front + back)[1..] == front[1..] + back;
      TrimStartStops(front[1..], back);
    }
  }

  lemma {:induction false} TrimStartKeepsOut(text: string, c: char)
    requires c !in text
    ensures c !in TrimStart(text)
  {
    if text != "" {
      TrimStartKeepsOut(text[1..], c);
    }
  }

  function Compact(header: string, payload: string, signature: string): string {
    header + "." + payload + "." + signature
  }

  lemma BearerTokenOf(rest: string, token: string)
    requires TrimStart(rest) == token && token != "" && |token| < |rest|
    ensures BearerToken("Bearer" + rest) == if exists c :: c in token && IsLineTerminator(c) then None else Some(token)
  {
    hide TrimStart, IsLineTerminator;
    BearerPrefix(rest);
  }

  lemma CompactText(header: string, payload: string, signature: string)
    ensures
      var back := "." + (payload + ("." + signature));
      && Compact(header, payload, signature) == header + back
      && "Bearer " + Compact(header, payload, signature) == "Bearer" + ((" " + header) + back)
  {
  }

  /** The bearer pattern takes the white space before a token away, and refuses a line break in it. */
  lemma BearerOfParts(header: string, payload: string, signature: string)
    ensures
      var token := Compact(TrimStart(header), payload, signature);
      BearerToken("Bearer " + Compact(header, payload, signature))
      == if exists c :: c in token && IsLineTerminator(c) then None else Some(token)
  {
    hide TrimStart, IsLineTerminator, BearerToken, Compact;
    var back := "." + (payload + ("." + signature));
    OneSpaceMore(header);
    assert !IsSpace(back[0]);
    TrimStartStops(" " + header, back);
    CompactText(header, payload, signature);
    CompactText(TrimStart(header), payload, signature);
    BearerTokenOf((" " + header) + back, Compact(TrimStart(header), payload, signature));
  }

  lemma OneSpaceMore(text: string)
    ensures TrimStart(" " + text) == TrimStart(text)
  {
    assert (" " + text)[1..] == text;
  }

  /** What a token says about its user, its kind and its expiry, the signature left aside. */
  predicate Claims(header: Option<Json>, payload: Option<Json>, userId: string, nowMs: int) {
    && header.Some? && header.value.Object? && payload.Some? && payload.value.Object?
    && "alg" in header.value.fields && header.value.fields["alg"] == Text("HS256")
    && "typ" in header.value.fields && header.value.fields["typ"] == Text("JWT")
    && userId != "" && "sub" in payload.value.fields && payload.value.fields["sub"] == Text(userId)
    && "exp" in payload.value.fields && payload.value.fields["exp"].Number?
    && payload.value.fields["exp"].number > (nowMs / 1000) as real
  }

  lemma SubjectExactly(
      codec: Codec, mac: (string, string) -> seq<Byte>, secret: string,
      header: string, payload: string, signature: string, nowMs: int, userId: string)
    requires '.' !in header && '.' !in payload && '.' !in signature
    ensures SubjectOf(codec, mac, secret, Compact(header, payload, signature), nowMs) == Some(userId) <==>
      && header != "" && payload != "" && signature != ""
      && signature == ToBase64Url(mac(secret, header + "." + payload))
      && Claims(codec.parse(FromBase64Url(header)), codec.parse(FromBase64Url(payload)), userId, nowMs)
  {
    ThreeParts(header, payload, signature);
    hide ToBase64Url, FromBase64Url, Split;
  }

  /**
    The exact condition under which a bearer token with any three parts is accepted, and for whom: the third
    part is the keyed hash of the first two, and these name the algorithm, an existing user and a time to come.
   */
  lemma {:induction false} AcceptedExactly<User(!new)>(
      codec: Codec, mac: (string, string) -> seq<Byte>, secret: string, users: map<string, User>,
      header: string, payload: string, signature: string, nowMs: int, user: User)
    requires '.' !in header && '.' !in payload && '.' !in signature
    ensures
      var first := TrimStart(header);
      GetUserFromBearerToken(codec, mac, secret, users, Some("Bearer " + Compact(header, payload, signature)), nowMs)
        == Some(user)
      <==>
        && first != "" && payload != "" && signature != ""
        && (forall c :: c in Compact(first, payload, signature) ==> !IsLineTerminator(c))
        && signature == ToBase64Url(mac(secret, first + "." + payload))
        && exists userId :: userId in users && users[userId] == user
             && Claims(codec.parse(FromBase64Url(first)), codec.parse(FromBase64Url(payload)), userId, nowMs)
  {
    hide IsLineTerminator, ToBase64Url, FromBase64Url, BearerToken, TrimStart, SubjectOf, Claims, Compact;
    var first := TrimStart(header);
    BearerOfParts(header, payload, signature);
    TrimStartKeepsOut(header, '.');
    forall userId: string
      ensures SubjectOf(codec, mac, secret, Compact(first, payload, signature), nowMs) == Some(userId) <==>
        && first != "" && payload != "" && signature != ""
        && signature == ToBase64Url(mac(secret, first + "." + payload))
        && Claims(codec.parse(FromBase64Url(first)), codec.parse(FromBase64Url(payload)), userId, nowMs)
    {
      SubjectExactly(codec, mac, secret, first, payload, signature, nowMs, userId);
    }
  }

  /** A token whose signature is not the keyed hash of its first two parts is refused. */
  lemma ForgedIsRefused<User(!new)>(
      codec: Codec, mac: (string, string) -> seq<Byte>, secret: string, users: map<string, User>,
      header: string, payload: string, signature: string, nowMs: int)
    requires '.' !in header && '.' !in payload && '.' !in signature
    requires signature != ToBase64Url(mac(secret, TrimStart(header) + "." + payload))
    ensures GetUserFromBearerToken(
      codec, mac, secret, users, Some("Bearer " + Compact(header, payload, signature)), nowMs).None?
  {
    hide ToBase64Url, GetUserFromBearerToken, TrimStart, Compact;
    var result := GetUserFromBearerToken(
      codec, mac, secret, users, Some("Bearer " + Compact(header, payload, signature)), nowMs);
    if result.Some? {
      AcceptedExactly(codec, mac, secret, users, header, payload, signature, nowMs, result.value);
    }
  }

  /** A token for another algorithm or kind, without a user id, or whose time is over is refused whoever signed it. */
  lemma BadClaimsAreRefused<User(!new)>(
      codec: Codec, mac: (string, string) -> seq<Byte>, secret: string, users: map<string, User>,
      header: string, payload: string, signature: string, nowMs: int)
    requires '.' !in header && '.' !in payload && '.' !in signature
    requires
      var head, body := codec.parse(FromBase64Url(TrimStart(header))), codec.parse(FromBase64Url(payload));
      || head.None? || body.None?
      || Field(head.value, "alg") != Some(Text("HS256")) || Field(head.value, "typ") != Some(Text("JWT"))
      || Field(body.value, "sub") in [None, Some(Text("")), Some(Null)]
      || Field(body.value, "exp").None? || !Field(body.value, "exp").value.Number?
      || Field(body.value, "exp").value.number <= (nowMs / 1000) as real
    ensures GetUserFromBearerToken(
      codec, mac, secret, users, Some("Bearer " + Compact(header, payload, signature)), nowMs).None?
  {
    hide ToBase64Url, FromBase64Url, GetUserFromBearerToken, TrimStart, Compact;
    var result := GetUserFromBearerToken(
      codec, mac, secret, users, Some("Bearer " + Compact(header, payload, signature)), nowMs);
    if result.Some? {
      AcceptedExactly(codec, mac, secret, users, header, payload, signature, nowMs, result.value);
    }
  }

  // The bearer pattern.

  /** The word at the front, in any case. */
  predicate SaysBearer(text: string) {
    |text| >= 6 && forall i :: 0 <= i < 6 ==> text[i] == "bearer"[i] || text[i] == "BEARER"[i]
  }

  lemma BearerInAnyCase(text: string)
    ensures StartsWithBearer(text) <==> SaysBearer(text)
  {
  }

  lemma LineTerminators(c: char)
    ensures IsLineTerminator(c) <==> c in {'\U{000A}', '\U{000D}', '\U{2028}', '\U{2029}'}
  {
  }

  /** The pattern matches with that much white space after the word: the rest is something on one line. */
  predicate Matches(rest: string, spaces: nat) {
    && 1 <= spaces < |rest|
    && (forall i :: 0 <= i < spaces ==> IsSpace(rest[i]))
    && forall i :: spaces <= i < |rest| ==> !IsLineTerminator(rest[i])
  }

  lemma TrimStartTakesSpaces(text: string)
    ensures
      var spaces := |text| - |TrimStart(text)|;
      (forall i :: 0 <= i < spaces ==> IsSpace(text[i])) && (spaces < |text| ==> !IsSpace(text[spaces]))
  {
    hide IsSpace;
    var front := StartSplits(text);
    var rest := TrimStart(text);
    hide TrimStart;
    assert |front| == |text| - |rest| && forall i :: 0 <= i < |front| ==> text[i] == front[i];
    assert rest != "" ==> text[|front|] == rest[0];
  }

  /** The most white space the pattern could match with: all of it, but one character must remain. */
  function Most(rest: string): int {
    var spaces := |rest| - |TrimStart(rest)|;
    if spaces < |rest| then spaces else spaces - 1
  }

  lemma MatchesThereOrNowhere(rest: string, spaces: nat)
    requires Matches(rest, spaces)
    ensures spaces <= Most(rest) && Matches(rest, Most(rest))
  {
    hide IsSpace, IsLineTerminator;
    TrimStartTakesSpaces(rest);
  }

  lemma MatchesThere(rest: string)
    ensures Most(rest) >= 0 && Matches(rest, Most(rest)) <==>
      Most(rest) >= 1 && forall c :: c in rest[Most(rest)..] ==> !IsLineTerminator(c)
  {
    hide IsSpace, IsLineTerminator;
    TrimStartTakesSpaces(rest);
    if Most(rest) >= 1 {
      var token := rest[Most(rest)..];
      assert forall i :: Most(rest) <= i < |rest| ==> rest[i] == token[i - Most(rest)] && rest[i] in token;
    }
  }

  /** What remains after the most white space. */
  lemma TextThere(rest: string)
    ensures
      var token := TrimStart(rest);
      && (token != "" ==> Most(rest) == |rest| - |token| && rest[Most(rest)..] == token)
      && (token == "" ==> Most(rest) == |rest| - 1)
      && (token == "" && rest != "" ==> rest[Most(rest)..] == [rest[|rest| - 1]])
  {
    TrimStartIsSuffix(rest);
    hide TrimStart;
  }

  lemma BearerTokenThere(text: string)
    requires SaysBearer(text)
    ensures
      var rest := text[6..];
      BearerToken(text) == if Most(rest) >= 0 && Matches(rest, Most(rest)) then Some(rest[Most(rest)..]) else None
  {
    var rest := text[6..];
    BearerInAnyCase(text);
    MatchesThere(rest);
    TextThere(rest);
    hide SaysBearer, StartsWithBearer, IsSpace, IsLineTerminator, TrimStart, Matches, Most;
  }

  /** What the pattern captures: the rest after as much white space as it can match with. */
  lemma BearerTokenExactly(text: string, token: string)
    ensures BearerToken(text) == Some(token) <==>
      && SaysBearer(text)
      && exists spaces: nat ::
           && Matches(text[6..], spaces) && token == text[6..][spaces..]
           && !exists more: nat :: more > spaces && Matches(text[6..], more)
  {
    BearerInAnyCase(text);
    if SaysBearer(text) {
      var rest := text[6..];
      BearerTokenThere(text);
      hide BearerToken, Matches, Most;
      forall spaces: nat | Matches(rest, spaces) ensures spaces <= Most(rest) && Matches(rest, Most(rest)) {
        MatchesThereOrNowhere(rest, spaces);
      }
    }
  }
}
