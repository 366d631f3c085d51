/** The `basicAuth` middleware of index.js: the Authorization header's second
    space-separated word is base64-decoded and split on ':' into user and
    password, which are compared with ADMIN_USER and ADMIN_PASS. */
module BasicAuth {
  import opened Optional
  import opened Text

  datatype AuthOutcome =
    | Challenge     // 401 asking for credentials: no header
    | Granted       // next(): the admin pages are served
    | Rejected      // 401: wrong credentials
    | ServerError   // 500: Buffer.from(undefined) throws for a header without a space

  /** The credential rule on the decoded text. A missing second segment is
      `undefined`, as is an unset environment variable, so the two compare equal. */
  function Decide(decoded: string, adminUser: Option<string>, adminPass: Option<string>): (r: AuthOutcome)
    ensures r == Granted || r == Rejected
    ensures r == Granted ==> adminUser.Some? && ':' !in adminUser.value && adminUser.value <= decoded
  {
    var parts := Split(decoded, ':');
    var user := parts[0];
    var pass := if |parts| >= 2 then Some(parts[1]) else None;
    if Some(user) == adminUser && pass == adminPass then Granted else Rejected
  }

  /** The whole middleware. `decode` stands for base64 decoding, which is not
      modelled; the scheme word is never looked at. */
  function Authorize(header: Option<string>, decode: string -> string,
                     adminUser: Option<string>, adminPass: Option<string>): (r: AuthOutcome)
    ensures r == Challenge <==> header.None? || header.value == ""
    ensures r == ServerError <==> header.Some? && header.value != "" && ' ' !in header.value
    ensures r == Granted ==> adminUser.Some?
  {
    if header.None? || header.value == "" then Challenge
    else
      SplitsIffSeparator(header.value, ' ');
      var words := Split(header.value, ' ');
      if |words| < 2 then ServerError
      else Decide(decode(words[1]), adminUser, adminPass)
  }

  /** No header (or an empty one) is answered with a challenge, never granted. */
  lemma NoHeaderIsChallenged(header: Option<string>, decode: string -> string,
                             adminUser: Option<string>, adminPass: Option<string>)
    requires header.None? || header.value == ""
    ensures Authorize(header, decode, adminUser, adminPass) == Challenge
  {
  }

  /** A non-empty header without a space makes the middleware throw. */
  lemma HeaderWithoutSpaceFails(h: string, decode: string -> string,
                                adminUser: Option<string>, adminPass: Option<string>)
    requires h != "" && ' ' !in h
    ensures Authorize(Some(h), decode, adminUser, adminPass) == ServerError
  {
    SplitWithoutSeparator(h, ' ');
  }

  /** What is decoded is the word after the first space, up to the next space,
      whatever the first word says. */
  lemma SecondWordIsDecoded(scheme: string, token: string, tail: string, decode: string -> string,
                            adminUser: Option<string>, adminPass: Option<string>)
    requires ' ' !in scheme && ' ' !in token
    requires tail == [] || tail[0] == ' '
    ensures Authorize(Some(scheme + " " + token + tail), decode, adminUser, adminPass)
            == Decide(decode(token), adminUser, adminPass)
  {
    var h := scheme + " " + token + tail;
    assert h == scheme + [' '] + (token + tail);
    SplitAtFirst(scheme, ' ', token + tail);
    if tail == [] {
      assert token + tail == token;
      SplitWithoutSeparator(token, ' ');
    } else {
      assert token + tail == token + [' '] + tail[1..];
      SplitAtFirst(token, ' ', tail[1..]);
    }
  }

  /** With both variables set, access is granted exactly when the decoded text
      is the user, ':', the password, and then nothing or another ':' followed
      by anything. */
  lemma GrantedIff(decoded: string, u: string, p: string)
    ensures Decide(decoded, Some(u), Some(p)) == Granted <==>
      && ':' !in u && ':' !in p
      && exists rest :: (rest == [] || rest[0] == ':') && decoded == u + ":" + p + rest
  {
    var parts := Split(decoded, ':');
    if Decide(decoded, Some(u), Some(p)) == Granted {
      assert |parts| >= 2 && parts[0] == u && parts[1] == p;
      var rest := if |parts| == 2 then [] else [':'] + Join(parts[2..], ':');
      assert decoded == u + [':'] + Join(parts[1..], ':');
      var tail := parts[1..];
      assert tail[0] == p;
      if |parts| == 2 {
        assert Join(tail, ':') == p;
      } else {
        assert tail[1..] == parts[2..];
        assert Join(tail, ':') == p + [':'] + Join(parts[2..], ':');
      }
      assert decoded == u + ":" + p + rest;
    }
    if ':' !in u && ':' !in p &&
       exists rest :: (rest == [] || rest[0] == ':') && decoded == u + ":" + p + rest {
      var rest :| (rest == [] || rest[0] == ':') && decoded == u + ":" + p + rest;
      CredentialsSplit(u, p, rest);
    }
  }

  lemma CredentialsSplit(u: string, p: string, rest: string)
    requires ':' !in u && ':' !in p
    requires rest == [] || rest[0] == ':'
    ensures var parts := Split(u + ":" + p + rest, ':');
      |parts| >= 2 && parts[0] == u && parts[1] == p
  {
    assert u + ":" + p + rest == u + [':'] + (p + rest);
    SplitAtFirst(u, ':', p + rest);
    if rest == [] {
      assert p + rest == p;
      SplitWithoutSeparator(p, ':');
    } else {
      assert p + rest == p + [':'] + rest[1..];
      SplitAtFirst(p, ':', rest[1..]);
    }
  }

  /** Anything after a second ':' is ignored. */
  lemma ExtraSegmentsIgnored(u: string, p: string, extra: string)
    requires ':' !in u && ':' !in p
    ensures Decide(u + ":" + p + ":" + extra, Some(u), Some(p)) == Granted
  {
    assert u + ":" + p + ":" + extra == u + ":" + p + ([':'] + extra);
    CredentialsSplit(u, p, [':'] + extra);
  }

  /** With ADMIN_USER unset nobody is let in: the user segment is always a string. */
  lemma UnsetUserRejectsAll(decoded: string, adminPass: Option<string>)
    ensures Decide(decoded, None, adminPass) == Rejected
  {
  }

  /** With ADMIN_PASS unset, the bare user name without any ':' is let in,
      because the missing password and the unset variable are both undefined. */
  lemma UnsetPasswordAdmitsBareUser(u: string)
    requires ':' !in u
    ensures Decide(u, Some(u), None) == Granted
  {
    SplitWithoutSeparator(u, ':');
  }
}
