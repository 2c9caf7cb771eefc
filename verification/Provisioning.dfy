/**
 * The provisioning URL of an OTP account (`otpauth://TYPE/LABEL?...`): the
 * query parameters an `AuthURL` carries.
 */
module Provisioning {
  import opened Decimal

  /** Go's `url.Values`: every parameter name maps to the list of its values, in the order they were added. */
  type Values = map<string, seq<string>>

  /** `url.Values.Add`: appends `value` to the values under `name`. */
  function Add(v: Values, name: string, value: string): (w: Values)
    ensures w.Keys == v.Keys + {name}
    ensures w[name] == (if name in v then v[name] else []) + [value]
    ensures forall k :: k in v && k != name ==> w[k] == v[k]
  {
    v[name := (if name in v then v[name] else []) + [value]]
  }

  /** The values under `name`; an absent name has none, as `url.Values` lookups give. */
  function Lookup(v: Values, name: string): seq<string> {
    if name in v then v[name] else []
  }

  /** The parameter names a provisioning URL can carry. */
  const ParamNames: set<string> := {"secret", "issuer", "algorithm", "counter", "digits", "period"}

  /** An optional parameter: present with the one value `text` exactly when `present`. */
  predicate Optional(v: Values, name: string, present: bool, text: string) {
    if present then name in v && v[name] == [text] else name !in v
  }

  datatype Option<T> = None | Some(value: T)

  /** The fields of an `otpauth` URL: the OTP type, the account label and the query parameters. */
  datatype AuthUrl = AuthUrl(
    typ: string,
    accountLabel: string,
    secret: string,
    issuer: string,
    algorithm: string,
    counter: int,
    digits: int,
    period: int)
  {
    /**
     * `v` is the query this URL carries: `secret` always, the text fields
     * when not empty, the integer fields in decimal when not zero, and no
     * other parameter.
     */
    predicate Carries(v: Values) {
      && v.Keys <= ParamNames
      && Optional(v, "secret", true, secret)
      && Optional(v, "issuer", issuer != "", issuer)
      && Optional(v, "algorithm", algorithm != "", algorithm)
      && Optional(v, "counter", counter != 0, FormatInt(counter))
      && Optional(v, "digits", digits != 0, FormatInt(digits))
      && Optional(v, "period", period != 0, FormatInt(period))
    }

    /**
     * `values`: starts from an empty `url.Values` and adds `secret`, then
     * each optional parameter that is set, in the order of the fields.
     */
    method Values() returns (v: Values)
      ensures Carries(v)
    {
      v := map[];
      v := Add(v, "secret", secret);
      if issuer != "" {
        v := Add(v, "issuer", issuer);
      }
      if algorithm != "" {
        v := Add(v, "algorithm", algorithm);
      }
      if counter != 0 {
        v := Add(v, "counter", FormatInt(counter));
      }
      if digits != 0 {
        v := Add(v, "digits", FormatInt(digits));
      }
      if period != 0 {
        v := Add(v, "period", FormatInt(period));
      }
    }
  }

  /** One integer parameter read back: absent is 0, a single integer text is its value. */
  function ParseIntParam(v: Values, name: string): Option<int> {
    var vs := Lookup(v, name);
    if vs == [] then Some(0)
    else if |vs| == 1 && IsIntText(vs[0]) then Some(ParseInt(vs[0]))
    else None
  }

  /** One text parameter read back: absent is "", otherwise its single value. */
  function ParseTextParam(v: Values, name: string): Option<string> {
    var vs := Lookup(v, name);
    if vs == [] then Some("") else if |vs| == 1 then Some(vs[0]) else None
  }

  /**
   * Reads the fields of an `AuthUrl` back from its type, label and query;
   * `None` when `secret` is missing or a parameter is malformed.
   */
  function ParseQuery(typ: string, accountLabel: string, v: Values): (u: Option<AuthUrl>)
    ensures u.Some? ==> u.value.typ == typ && u.value.accountLabel == accountLabel
  {
    var secrets := Lookup(v, "secret");
    var issuer := ParseTextParam(v, "issuer");
    var algorithm := ParseTextParam(v, "algorithm");
    var counter := ParseIntParam(v, "counter");
    var digits := ParseIntParam(v, "digits");
    var period := ParseIntParam(v, "period");
    if |secrets| == 1 && issuer.Some? && algorithm.Some? && counter.Some? && digits.Some? && period.Some? then
      Some(AuthUrl(typ, accountLabel, secrets[0], issuer.value, algorithm.value,
                   counter.value, digits.value, period.value))
    else None
  }

  /**
   * The query loses nothing: leaving out an empty text or a zero integer
   * is undone by reading an absent parameter as "" or 0.
   */
  lemma QueryRoundTrip(o: AuthUrl, v: Values)
    requires o.Carries(v)
    ensures ParseQuery(o.typ, o.accountLabel, v) == Some(o)
  {
    ParseFormatInt(o.counter);
    ParseFormatInt(o.digits);
    ParseFormatInt(o.period);
  }

  /** A query determines the parameters it carries: two URLs carrying the same query agree on them. */
  lemma CarriesDetermines(o: AuthUrl, u: AuthUrl, v: Values)
    requires o.Carries(v) && u.Carries(v)
    ensures o.secret == u.secret && o.issuer == u.issuer && o.algorithm == u.algorithm
    ensures o.counter == u.counter && o.digits == u.digits && o.period == u.period
  {
    QueryRoundTrip(o, v);
    QueryRoundTrip(u, v);
  }

  /** `Carries` pins the query down completely: one URL carries exactly one query. */
  lemma CarriesUnique(o: AuthUrl, v: Values, w: Values)
    requires o.Carries(v) && o.Carries(w)
    ensures v == w
  {
  }
}
