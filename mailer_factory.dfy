/** MailerFactory: the SMTP DSN built from the `mail.default.transport`
    settings. `urlencode` is a library function and is a parameter here; the
    Symfony transport and the wrapper that saves and restores the coroutine
    hook flags around `send` are not part of this model. */
module MailerFactory {
  import opened Common

  /** The `transport` settings as configured; `None` stands for a key that is
      missing or set to null. */
  datatype Transport = Transport(
    scheme: Option<string>,
    host: Option<string>,
    port: Option<int>,
    username: Option<string>,
    password: Option<string>)

  /** The settings after the `??` defaults are applied. */
  datatype Settings = Settings(scheme: string, host: string, port: int, username: string, password: string)

  function OrElse<T>(o: Option<T>, default: T): T {
    if o.Some? then o.value else default
  }

  /** `$mailConfig['transport'] ?? []` followed by one `??` per setting;
      `transport` is `None` when the whole section is missing. */
  function Resolve(transport: Option<Transport>): (s: Settings)
    ensures transport.None? ==> s == Settings("smtp", "localhost", 25, "", "")
    ensures transport.Some? ==>
              && (transport.value.scheme.Some? ==> s.scheme == transport.value.scheme.value)
              && (transport.value.scheme.None? ==> s.scheme == "smtp")
              && (transport.value.host.Some? ==> s.host == transport.value.host.value)
              && (transport.value.host.None? ==> s.host == "localhost")
              && (transport.value.port.Some? ==> s.port == transport.value.port.value)
              && (transport.value.port.None? ==> s.port == 25)
              && (transport.value.username.Some? ==> s.username == transport.value.username.value)
              && (transport.value.username.None? ==> s.username == "")
              && (transport.value.password.Some? ==> s.password == transport.value.password.value)
              && (transport.value.password.None? ==> s.password == "")
  {
    var t := OrElse(transport, Transport(None, None, None, None, None));
    Settings(OrElse(t.scheme, "smtp"), OrElse(t.host, "localhost"), OrElse(t.port, 25),
             OrElse(t.username, ""), OrElse(t.password, ""))
  }

  /** `$username ? urlencode($username) : ''`. */
  function UserPart(s: Settings, urlencode: string -> string): string {
    if Falsy(s.username) then "" else urlencode(s.username)
  }

  /** `$password ? ':' . urlencode($password) . '@' : ($username ? '@' : '')`. */
  function PassPart(s: Settings, urlencode: string -> string): string {
    if !Falsy(s.password) then ":" + urlencode(s.password) + "@"
    else if !Falsy(s.username) then "@"
    else ""
  }

  /** `sprintf('%s://%s%s%s:%d', ...)`. */
  function Dsn(transport: Option<Transport>, urlencode: string -> string): (dsn: string)
    ensures var s := Resolve(transport);
            && (Falsy(s.username) && Falsy(s.password) ==>
                  dsn == s.scheme + "://" + s.host + ":" + IntToString(s.port))
            && (!Falsy(s.username) && Falsy(s.password) ==>
                  dsn == s.scheme + "://" + urlencode(s.username) + "@" + s.host + ":" + IntToString(s.port))
            && (Falsy(s.username) && !Falsy(s.password) ==>
                  dsn == s.scheme + "://:" + urlencode(s.password) + "@" + s.host + ":" + IntToString(s.port))
            && (!Falsy(s.username) && !Falsy(s.password) ==>
                  dsn == s.scheme + "://" + urlencode(s.username) + ":" + urlencode(s.password) + "@"
                         + s.host + ":" + IntToString(s.port))
  {
    var s := Resolve(transport);
    s.scheme + "://" + UserPart(s, urlencode) + PassPart(s, urlencode) + s.host + ":" + IntToString(s.port)
  }

  /** Without any transport settings the mailer talks plain SMTP to port 25
      of the local host. */
  lemma DefaultDsn(urlencode: string -> string)
    ensures Dsn(None, urlencode) == "smtp://localhost:25"
    ensures Dsn(Some(Transport(None, None, None, None, None)), urlencode) == "smtp://localhost:25"
  {
    var defaults := Settings("smtp", "localhost", 25, "", "");
    assert Resolve(None) == defaults;
    assert Resolve(Some(Transport(None, None, None, None, None))) == defaults;
    DefaultSettingsDsn(defaults, urlencode);
  }

  /** The DSN text of the default settings. */
  lemma DefaultSettingsDsn(s: Settings, urlencode: string -> string)
    requires s == Settings("smtp", "localhost", 25, "", "")
    ensures s.scheme + "://" + UserPart(s, urlencode) + PassPart(s, urlencode) + s.host + ":" + IntToString(s.port)
            == "smtp://localhost:25"
  {
    assert UserPart(s, urlencode) == [] && PassPart(s, urlencode) == [];
    assert IntToString(25) == "25" by {
      assert NatToString(25) == NatToString(2) + [DigitChar(5)];
    }
    assert "smtp" + "://" + [] + [] + "localhost" + ":" + "25" == "smtp://localhost:25";
  }

  /** A printed port never holds a `@`. */
  lemma NoAtInPort(n: int)
    ensures '@' !in IntToString(n)
  {
    if n < 0 {
      assert IntToString(n) == "-" + NatToString(-n);
    }
  }

  /** The password part is where the `@` of the credentials comes from. */
  lemma AtComesFromPassPart(s: Settings, urlencode: string -> string)
    requires forall x :: '@' !in urlencode(x)
    ensures '@' !in UserPart(s, urlencode)
    ensures '@' in PassPart(s, urlencode) <==> !Falsy(s.username) || !Falsy(s.password)
  {
    if !Falsy(s.password) {
      var pass := ":" + urlencode(s.password) + "@";
      assert pass[|pass| - 1] == '@';
    } else if !Falsy(s.username) {
      assert "@"[0] == '@';
    }
  }

  /** The DSN's credentials: a `@` appears exactly when a user name or a
      password is set, provided that neither the scheme, the host nor any
      encoded text contains one. */
  lemma CredentialsIff(transport: Option<Transport>, urlencode: string -> string)
    requires forall x :: '@' !in urlencode(x)
    requires '@' !in Resolve(transport).scheme && '@' !in Resolve(transport).host
    ensures var s := Resolve(transport);
            '@' in Dsn(transport, urlencode) <==> !Falsy(s.username) || !Falsy(s.password)
  {
    var s := Resolve(transport);
    NoAtInPort(s.port);
    AtComesFromPassPart(s, urlencode);
    assert '@' !in "://" && '@' !in ":";
  }

  /** The port is printed in decimal at the very end, after a `:`, and reads
      back as the configured port. */
  lemma PortAtTheEnd(transport: Option<Transport>, urlencode: string -> string)
    requires Resolve(transport).port >= 0
    ensures var dsn, p := Dsn(transport, urlencode), NatToString(Resolve(transport).port);
            && |p| < |dsn| && dsn[|dsn| - |p|..] == p && dsn[|dsn| - |p| - 1] == ':'
            && DigitsValue(dsn[|dsn| - |p|..]) == Resolve(transport).port
  {
    var s := Resolve(transport);
    var p := NatToString(s.port);
    var head := s.scheme + "://" + UserPart(s, urlencode) + PassPart(s, urlencode) + s.host;
    var dsn := Dsn(transport, urlencode);
    assert dsn == head + ":" + p;
    assert dsn[|dsn| - |p|..] == p;
    NatToStringRoundTrip(s.port);
  }
}
