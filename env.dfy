/** The environment parsed at start-up (`envSchema.parse(process.env)`): an enum,
    two coerced numbers, a coerced boolean, three optional paths and the required
    strings, some of which must be e-mail addresses or URLs. Parsing is all or
    nothing: any failing key makes the whole parse throw. */
module Env {
  import opened Common
  import opened Strings

  datatype NodeEnv = Development | Production

  /** The keys read as plain `zod.string()`. */
  const PlainKeys: set<string> := {
    "JWT_SECRET", "JWT_EXPIRY", "NODEMAILER_HOST", "NODEMAILER_PASSWORD", "APP_NAME",
    "AWS_ACCESS_KEY_ID", "AWS_SECRET_ACCESS_KEY", "AWS_BUCKET", "AWS_REGION",
    "STRIPE_SECRET_KEY", "STRIPE_WEBHOOK_SECRET_KEY", "STRIPE_PRO_PRICE_ID", "STRIPE_PREMIUM_PRICE_ID",
    "STRIPE_SUCCESS_ENDPOINT", "STRIPE_CANCEL_ENDPOINT", "STRIPE_RETURN_ENDPOINT"}

  /** The keys read as `zod.string().email()`. */
  const EmailKeys: set<string> := {"NODEMAILER_EMAIL", "APP_SUPPORT_EMAIL", "APP_ADMIN_EMAIL"}

  /** The keys read as `zod.string().url()`. */
  const UrlKeys: set<string> := {"DATABASE_URL", "CLIENT_BASE_URL"}

  /** The keys read as `zod.string().optional()`. */
  const OptionalKeys: set<string> := {"SSL_KEY_PATH", "SSL_CERT_PATH", "SSL_CA_PATH"}

  const NumberAndFlagKeys: set<string> := {"NODE_ENV", "PORT", "NODEMAILER_PORT", "NODEMAILER_SECURE"}

  function RequiredStringKeys(): set<string>
  {
    PlainKeys + EmailKeys + UrlKeys
  }

  function SchemaKeys(): set<string>
  {
    RequiredStringKeys() + OptionalKeys + NumberAndFlagKeys
  }

  /** The parsed environment. `strings` holds the required string keys, `optional`
      the optional paths that are set. */
  datatype Config = Config(
    nodeEnv: NodeEnv,
    port: int,
    nodemailerPort: int,
    nodemailerSecure: bool,
    optional: map<string, string>,
    strings: map<string, string>)

  /** `process.env[key]`: `undefined` when the variable is not set. */
  function Lookup(env: map<string, string>, key: string): Option<string>
  {
    if key in env then Some(env[key]) else None
  }

  /** `zod.enum(["development", "production"])`. */
  function NodeEnvOf(s: Option<string>): Option<NodeEnv>
  {
    if s == Some("development") then Some(Development)
    else if s == Some("production") then Some(Production)
    else None
  }

  predicate IsDigit(c: char)
  {
    '0' <= c <= '9'
  }

  predicate AllDigits(s: string)
  {
    forall i :: 0 <= i < |s| ==> IsDigit(s[i])
  }

  function DigitsValue(s: string): nat
    requires AllDigits(s)
    decreases |s|
  {
    if s == [] then 0 else DigitsValue(s[..|s| - 1]) * 10 + (s[|s| - 1] - '0') as nat
  }

  /** The canonical decimal rendering of a natural number. */
  function ShowDecimal(n: nat): string
    decreases n
  {
    if n < 10 then [(n + '0' as int) as char] else ShowDecimal(n / 10) + [(n % 10 + '0' as int) as char]
  }

  /** `Number(s)` as `zod.coerce.number()` applies it, for the inputs this model
      covers: `undefined` is NaN (rejected), a blank string is 0, a string of
      decimal digits between white space is its value; anything else counts as
      NaN here. */
  function JsNumber(s: Option<string>): (r: Option<int>)
    ensures r.Some? ==> r.value >= 0
    ensures s.Some? && AllSpace(s.value) ==> r == Some(0)
  {
    if s.Some? then TrimEmptyIff(s.value); JsNumberOfText(s.value) else None
  }

  function JsNumberOfText(text: string): Option<int>
  {
    var t := Trim(text);
    if t == "" then Some(0)
    else if AllDigits(t) then Some(DigitsValue(t))
    else None
  }

  /** `zod.coerce.boolean()`: `Boolean(s)`, false only for `undefined` and "". */
  function CoerceBoolean(s: Option<string>): (b: bool)
    ensures b <==> s.Some? && s.value != ""
  {
    s.Some? && s.value != ""
  }

  /** `PORT: zod.coerce.number().min(1000).max(9999)`. */
  function PortOf(s: Option<string>): (r: Option<int>)
    ensures r.Some? ==> 1000 <= r.value <= 9999 && r == JsNumber(s)
    ensures r.None? <==> JsNumber(s).None? || JsNumber(s).value < 1000 || JsNumber(s).value > 9999
  {
    var n := JsNumber(s);
    if n.Some? && 1000 <= n.value <= 9999 then n else None
  }

  /** The variables of `env` named in `keys`. */
  function Restrict(env: map<string, string>, keys: set<string>): (r: map<string, string>)
    ensures r.Keys == keys * env.Keys
    ensures forall k :: k in r ==> r[k] == env[k]
  {
    map k | k in keys && k in env :: env[k]
  }

  /** Every key of `keys` is set in `env` and its value passes `test`. */
  predicate AllSetAnd(env: map<string, string>, keys: set<string>, test: string -> bool)
  {
    forall k :: k in keys ==> k in env && test(env[k])
  }

  lemma RestrictAllSet(env: map<string, string>, keys: set<string>, test: string -> bool)
    requires AllSetAnd(env, keys, test)
    ensures Restrict(env, keys).Keys == keys
  {
  }

  /** Every required string is set, and the e-mail and URL keys pass their
      format checks (`isEmail`, `isUrl` stand for zod's own tests). */
  predicate StringsPresent(env: map<string, string>, isEmail: string -> bool, isUrl: string -> bool)
  {
    && AllSetAnd(env, RequiredStringKeys(), _ => true)
    && AllSetAnd(env, EmailKeys, isEmail)
    && AllSetAnd(env, UrlKeys, isUrl)
  }

  /** `envSchema.parse(process.env)`; `None` when it throws. The result keeps
      only the schema's keys. */
  function ParseEnv(env: map<string, string>, isEmail: string -> bool, isUrl: string -> bool): (r: Option<Config>)
    ensures r.Some? ==> 1000 <= r.value.port <= 9999 && r.value.nodemailerPort >= 0
    ensures r.Some? ==> r.value.optional.Keys <= OptionalKeys && r.value.strings.Keys <= RequiredStringKeys()
  {
    var nodeEnv := NodeEnvOf(Lookup(env, "NODE_ENV"));
    var port := PortOf(Lookup(env, "PORT"));
    var mailPort := JsNumber(Lookup(env, "NODEMAILER_PORT"));
    if nodeEnv.None? || port.None? || mailPort.None? || !StringsPresent(env, isEmail, isUrl) then None
    else
      Some(Config(
        nodeEnv.value, port.value, mailPort.value, CoerceBoolean(Lookup(env, "NODEMAILER_SECURE")),
        Restrict(env, OptionalKeys),
        Restrict(env, RequiredStringKeys())))
  }

  /** The parse fails exactly when `NODE_ENV` is unset or not one of the two
      names, `PORT` is unset, unreadable or out of range, `NODEMAILER_PORT` is
      unset or unreadable, a required string is unset, or an e-mail or URL key
      fails its format check. `NODEMAILER_SECURE` and the optional paths never
      make it fail. */
  lemma ParseEnvFails(env: map<string, string>, isEmail: string -> bool, isUrl: string -> bool)
    ensures ParseEnv(env, isEmail, isUrl).None? <==>
              || !("NODE_ENV" in env && (env["NODE_ENV"] == "development" || env["NODE_ENV"] == "production"))
              || !("PORT" in env && JsNumber(Some(env["PORT"])).Some?
                   && 1000 <= JsNumber(Some(env["PORT"])).value <= 9999)
              || !("NODEMAILER_PORT" in env && JsNumber(Some(env["NODEMAILER_PORT"])).Some?)
              || (exists k :: k in RequiredStringKeys() && k !in env)
              || (exists k :: k in EmailKeys && k in env && !isEmail(env[k]))
              || (exists k :: k in UrlKeys && k in env && !isUrl(env[k]))
  {
    NodeEnvSetIff(env);
    PortSetIff(env);
    MailPortSetIff(env);
    StringsPresentIff(env, isEmail, isUrl);
  }

  lemma NodeEnvSetIff(env: map<string, string>)
    ensures NodeEnvOf(Lookup(env, "NODE_ENV")).Some? <==>
              "NODE_ENV" in env && (env["NODE_ENV"] == "development" || env["NODE_ENV"] == "production")
  {
  }

  lemma PortSetIff(env: map<string, string>)
    ensures PortOf(Lookup(env, "PORT")).Some? <==>
              "PORT" in env && JsNumber(Some(env["PORT"])).Some? && 1000 <= JsNumber(Some(env["PORT"])).value <= 9999
  {
  }

  lemma MailPortSetIff(env: map<string, string>)
    ensures JsNumber(Lookup(env, "NODEMAILER_PORT")).Some? <==>
              "NODEMAILER_PORT" in env && JsNumber(Some(env["NODEMAILER_PORT"])).Some?
  {
  }

  lemma StringsPresentIff(env: map<string, string>, isEmail: string -> bool, isUrl: string -> bool)
    ensures StringsPresent(env, isEmail, isUrl) <==>
              && !(exists k :: k in RequiredStringKeys() && k !in env)
              && !(exists k :: k in EmailKeys && k in env && !isEmail(env[k]))
              && !(exists k :: k in UrlKeys && k in env && !isUrl(env[k]))
  {
    assert EmailKeys <= RequiredStringKeys() && UrlKeys <= RequiredStringKeys();
  }

  /** A successful parse holds the coerced values and exactly the schema's strings,
      each as set and passing its format check. */
  lemma ParseEnvFields(env: map<string, string>, isEmail: string -> bool, isUrl: string -> bool)
    requires ParseEnv(env, isEmail, isUrl).Some?
    ensures var c := ParseEnv(env, isEmail, isUrl).value;
              && Some(c.nodeEnv) == NodeEnvOf(Lookup(env, "NODE_ENV"))
              && 1000 <= c.port <= 9999 && Some(c.port) == JsNumber(Lookup(env, "PORT"))
              && Some(c.nodemailerPort) == JsNumber(Lookup(env, "NODEMAILER_PORT"))
              && c.nodemailerSecure == ("NODEMAILER_SECURE" in env && env["NODEMAILER_SECURE"] != "")
    ensures var c := ParseEnv(env, isEmail, isUrl).value;
              && c.strings.Keys == RequiredStringKeys()
              && (forall k :: k in c.strings ==> k in env && c.strings[k] == env[k])
              && (forall k :: k in EmailKeys ==> isEmail(c.strings[k]))
              && (forall k :: k in UrlKeys ==> isUrl(c.strings[k]))
    ensures var c := ParseEnv(env, isEmail, isUrl).value;
              && (forall k :: k in OptionalKeys ==> Lookup(c.optional, k) == Lookup(env, k))
              && c.optional.Keys <= OptionalKeys
  {
    RestrictAllSet(env, RequiredStringKeys(), _ => true);
    assert EmailKeys <= RequiredStringKeys() && UrlKeys <= RequiredStringKeys();
  }

  /** Every number is read back from its decimal rendering. */
  lemma {:induction false} ShowDecimalDigits(n: nat)
    ensures AllDigits(ShowDecimal(n)) && ShowDecimal(n) != []
    ensures DigitsValue(ShowDecimal(n)) == n
    decreases n
  {
    var s := ShowDecimal(n);
    if n >= 10 {
      ShowDecimalDigits(n / 10);
      assert s[..|s| - 1] == ShowDecimal(n / 10);
    }
  }

  lemma DigitStringTrimmed(s: string)
    requires AllDigits(s)
    ensures Trim(s) == s
  {
    TrimPadded("", s, "");
    assert "" + s + "" == s;
  }

  /** `Number(String(n))` is `n` for every natural number. */
  lemma NumberOfDecimal(n: nat)
    ensures JsNumber(Some(ShowDecimal(n))) == Some(n)
  {
    ShowDecimalDigits(n);
    DigitStringTrimmed(ShowDecimal(n));
  }

  /** White space around the digits is ignored. */
  lemma NumberIgnoresPadding(lead: string, n: nat, trail: string)
    requires AllSpace(lead) && AllSpace(trail)
    ensures JsNumber(Some(lead + ShowDecimal(n) + trail)) == Some(n)
  {
    ShowDecimalDigits(n);
    TrimPadded(lead, ShowDecimal(n), trail);
  }

  /** A port written in decimal is accepted exactly in the range 1000 to 9999. */
  lemma PortRange(n: nat)
    ensures PortOf(Some(ShowDecimal(n))).Some? <==> 1000 <= n <= 9999
    ensures PortOf(Some(ShowDecimal(n))).Some? ==> PortOf(Some(ShowDecimal(n))).value == n
  {
    NumberOfDecimal(n);
  }

  /** An unset `PORT` or `NODEMAILER_PORT` is NaN and rejected, whatever else is
      set; a blank value of either reads as 0. */
  lemma BlankNumbers(env: map<string, string>, blank: string)
    ensures PortOf(Lookup(env - {"PORT"}, "PORT")).None?
    ensures JsNumber(Lookup(env - {"NODEMAILER_PORT"}, "NODEMAILER_PORT")).None?
    ensures AllSpace(blank) ==> JsNumber(Some(blank)) == Some(0)
  {
  }

  /** `NODEMAILER_SECURE` never makes the parse fail, and any non-empty value of
      it, "false" and "0" included, switches the flag on. */
  lemma SecureIsTruthiness(env: map<string, string>, isEmail: string -> bool, isUrl: string -> bool, v: string)
    ensures ParseEnv(env["NODEMAILER_SECURE" := v], isEmail, isUrl).Some? == ParseEnv(env, isEmail, isUrl).Some?
    ensures ParseEnv(env["NODEMAILER_SECURE" := v], isEmail, isUrl).Some? ==>
              ParseEnv(env["NODEMAILER_SECURE" := v], isEmail, isUrl).value.nodemailerSecure == (v != "")
  {
    var env' := env["NODEMAILER_SECURE" := v];
    SecureUpdateAgrees(env, isEmail, isUrl, v);
    assert Lookup(env', "NODE_ENV") == Lookup(env, "NODE_ENV");
    assert Lookup(env', "PORT") == Lookup(env, "PORT");
    assert Lookup(env', "NODEMAILER_PORT") == Lookup(env, "NODEMAILER_PORT");
  }

  /** Setting `NODEMAILER_SECURE` leaves the string keys and their checks alone. */
  lemma SecureUpdateAgrees(env: map<string, string>, isEmail: string -> bool, isUrl: string -> bool, v: string)
    ensures StringsPresent(env["NODEMAILER_SECURE" := v], isEmail, isUrl) == StringsPresent(env, isEmail, isUrl)
    ensures Restrict(env["NODEMAILER_SECURE" := v], RequiredStringKeys()) == Restrict(env, RequiredStringKeys())
    ensures Restrict(env["NODEMAILER_SECURE" := v], OptionalKeys) == Restrict(env, OptionalKeys)
  {
    var env' := env["NODEMAILER_SECURE" := v];
    SecureNotAStringKey();
    OtherKeysKept(env, "NODEMAILER_SECURE", v, RequiredStringKeys());
    OtherKeysKept(env, "NODEMAILER_SECURE", v, OptionalKeys);
    AgreeOnKeys(env, env', RequiredStringKeys(), _ => true);
    AgreeOnKeys(env, env', EmailKeys, isEmail);
    AgreeOnKeys(env, env', UrlKeys, isUrl);
    AgreeOnKeys(env, env', OptionalKeys, _ => true);
  }

  lemma SecureNotAStringKey()
    ensures "NODEMAILER_SECURE" !in RequiredStringKeys() && "NODEMAILER_SECURE" !in OptionalKeys
  {
  }

  /** Setting one variable leaves the lookups of all others as they were. */
  lemma OtherKeysKept(env: map<string, string>, k: string, v: string, keys: set<string>)
    requires k !in keys
    ensures forall key :: key in keys ==> Lookup(env[k := v], key) == Lookup(env, key)
  {
  }

  /** An unset required string makes the whole parse fail. */
  lemma MissingRequiredRejected(env: map<string, string>, isEmail: string -> bool, isUrl: string -> bool, k: string)
    requires k in RequiredStringKeys() && k !in env
    ensures ParseEnv(env, isEmail, isUrl).None?
  {
  }

  /** Two environments that agree on the schema's keys. */
  predicate AgreeOnSchema(env: map<string, string>, env': map<string, string>)
  {
    forall key :: key in SchemaKeys() ==> Lookup(env', key) == Lookup(env, key)
  }

  /** Environments that agree on `keys` restrict to the same map and pass the same checks on them. */
  lemma AgreeOnKeys(env: map<string, string>, env': map<string, string>, keys: set<string>, test: string -> bool)
    requires forall key :: key in keys ==> Lookup(env', key) == Lookup(env, key)
    ensures Restrict(env', keys) == Restrict(env, keys)
    ensures AllSetAnd(env', keys, test) == AllSetAnd(env, keys, test)
  {
    assert forall key :: key in keys ==> (key in env' <==> key in env);
  }

  lemma AgreeOnSubset(env: map<string, string>, env': map<string, string>, keys: set<string>)
    requires AgreeOnSchema(env, env') && keys <= SchemaKeys()
    ensures forall key :: key in keys ==> Lookup(env', key) == Lookup(env, key)
  {
  }

  lemma AgreeOnStrings(env: map<string, string>, env': map<string, string>, isEmail: string -> bool,
                       isUrl: string -> bool)
    requires AgreeOnSchema(env, env')
    ensures StringsPresent(env', isEmail, isUrl) == StringsPresent(env, isEmail, isUrl)
    ensures Restrict(env', RequiredStringKeys()) == Restrict(env, RequiredStringKeys())
    ensures Restrict(env', OptionalKeys) == Restrict(env, OptionalKeys)
  {
    AgreeOnSubset(env, env', RequiredStringKeys());
    AgreeOnSubset(env, env', EmailKeys);
    AgreeOnSubset(env, env', UrlKeys);
    AgreeOnSubset(env, env', OptionalKeys);
    AgreeOnKeys(env, env', RequiredStringKeys(), _ => true);
    AgreeOnKeys(env, env', EmailKeys, isEmail);
    AgreeOnKeys(env, env', UrlKeys, isUrl);
    AgreeOnKeys(env, env', OptionalKeys, _ => true);
  }

  /** The parse reads the schema's keys and no others. */
  lemma ParseReadsSchemaKeys(env: map<string, string>, env': map<string, string>, isEmail: string -> bool,
                             isUrl: string -> bool)
    requires AgreeOnSchema(env, env')
    ensures ParseEnv(env', isEmail, isUrl) == ParseEnv(env, isEmail, isUrl)
  {
    AgreeOnStrings(env, env', isEmail, isUrl);
    AgreeOnNumbers(env, env');
  }

  lemma AgreeOnNumbers(env: map<string, string>, env': map<string, string>)
    requires AgreeOnSchema(env, env')
    ensures Lookup(env', "NODE_ENV") == Lookup(env, "NODE_ENV")
    ensures Lookup(env', "PORT") == Lookup(env, "PORT")
    ensures Lookup(env', "NODEMAILER_PORT") == Lookup(env, "NODEMAILER_PORT")
    ensures Lookup(env', "NODEMAILER_SECURE") == Lookup(env, "NODEMAILER_SECURE")
  {
    AgreeOnSubset(env, env', NumberAndFlagKeys);
  }

  /** Variables the schema does not name change nothing. */
  lemma UnknownKeysIgnored(env: map<string, string>, isEmail: string -> bool, isUrl: string -> bool, k: string, v: string)
    requires k !in SchemaKeys()
    ensures ParseEnv(env[k := v], isEmail, isUrl) == ParseEnv(env, isEmail, isUrl)
  {
    assert AgreeOnSchema(env, env[k := v]);
    ParseReadsSchemaKeys(env, env[k := v], isEmail, isUrl);
  }
}
