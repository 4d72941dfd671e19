/** Redaction of error contexts in src/infra/result.py. */
module ErrorContext {
  import opened Wrappers
  import opened Text

  datatype Value = Atom(s: string) | Listing(items: seq<Value>) | Dict(fields: map<string, Value>)

  const SENSITIVE_KEYS: seq<string> :=
    ["password", "passwd", "secret", "token", "api_key", "apikey", "authorization", "auth"]

  const REDACTED: Value := Atom("***redacted***")

  predicate Sensitive(key: string) {
    exists k :: k in SENSITIVE_KEYS && Contains(Lower(key), k)
  }

  /** Dictionaries are searched at every depth, other values are left alone. */
  function Sanitize(v: Value): Value {
    if !v.Dict? then v
    else Dict(map k | k in v.fields :: if Sensitive(k) then REDACTED else Sanitize(v.fields[k]))
  }

  method SanitizeValue(v: Value) returns (r: Value)
    ensures r == Sanitize(v)
    decreases v
  {
    if !v.Dict? {
      return v;
    }
    var inner: map<string, Value> := map[];
    var left := v.fields.Keys;
    while left != {}
      invariant left <= v.fields.Keys && inner.Keys == v.fields.Keys - left
      invariant forall k :: k in inner ==> inner[k] == Sanitize(v).fields[k]
      decreases |left|
    {
      var k :| k in left;
      left := left - {k};
      if Sensitive(k) {
        inner := inner[k := REDACTED];
      } else {
        var s := SanitizeValue(v.fields[k]);
        inner := inner[k := s];
      }
    }
    r := Dict(inner);
  }

  /** _sanitize_context: a missing context reads as an empty one. */
  method SanitizeContext(context: Option<map<string, Value>>) returns (sanitized: map<string, Value>)
    ensures Dict(sanitized) == Sanitize(Dict(if context.Some? then context.value else map[]))
  {
    if context.None? || context.value == map[] {
      return map[];
    }
    var r := SanitizeValue(Dict(context.value));
    sanitized := r.fields;
  }

  // ---------------------------------------------------------------- what is kept and what is hidden

  /** The value reached by following keys through nested dictionaries. */
  function At(v: Value, path: seq<string>): Option<Value>
    decreases |path|
  {
    if path == [] then Some(v)
    else if v.Dict? && path[0] in v.fields then At(v.fields[path[0]], path[1..])
    else None
  }

  predicate Clean(path: seq<string>) {
    forall i :: 0 <= i < |path| ==> !Sensitive(path[i])
  }

  /** Off the sensitive keys every path leads where it led, to the sanitized value. */
  lemma {:induction false} CleanPathIsKept(v: Value, path: seq<string>)
    requires Clean(path)
    ensures At(v, path).None? ==> At(Sanitize(v), path).None?
    ensures At(v, path).Some? ==> At(Sanitize(v), path) == Some(Sanitize(At(v, path).value))
    decreases |path|
  {
    if path != [] && v.Dict? && path[0] in v.fields {
      CleanPathIsKept(v.fields[path[0]], path[1..]);
    }
  }

  /** At the first sensitive key of a path stands the marker if anything stood there, and below it nothing. */
  lemma {:induction false} SecretPathIsRedacted(v: Value, path: seq<string>, i: nat)
    requires i < |path| && Sensitive(path[i]) && Clean(path[..i])
    ensures i == |path| - 1 && At(v, path).Some? ==> At(Sanitize(v), path) == Some(Atom("***redacted***"))
    ensures !(i == |path| - 1 && At(v, path).Some?) ==> At(Sanitize(v), path) == None
    decreases |path|
  {
    if v.Dict? && path[0] in v.fields {
      var rest := path[1..];
      if i == 0 {
        assert Sanitize(v).fields[path[0]] == REDACTED;
        assert |path| == 1 ==> rest == [] && At(v.fields[path[0]], rest).Some?;
        assert At(REDACTED, rest) == if rest == [] then Some(REDACTED) else None;
      } else {
        assert path[..i][0] == path[0];
        assert rest[..i - 1] == path[..i][1..];
        SecretPathIsRedacted(v.fields[path[0]], rest, i - 1);
      }
    }
  }

  /** Sanitizing twice is sanitizing once. */
  lemma {:induction false} SanitizeIsIdempotent(v: Value)
    ensures Sanitize(Sanitize(v)) == Sanitize(v)
  {
    if v.Dict? {
      var s := Sanitize(v);
      forall k | k in v.fields && !Sensitive(k)
        ensures Sanitize(s.fields[k]) == s.fields[k]
      {
        SanitizeIsIdempotent(v.fields[k]);
      }
      assert Sanitize(s).fields == s.fields;
    }
  }

  /** The values differ in nothing but what stands under sensitive keys. */
  predicate SameButSecrets(v: Value, w: Value) {
    if v.Dict? && w.Dict? then
      v.fields.Keys == w.fields.Keys
      && forall k :: k in v.fields ==> Sensitive(k) || SameButSecrets(v.fields[k], w.fields[k])
    else v == w
  }

  /** The output tells two contexts apart exactly when they differ outside their sensitive keys. */
  lemma {:induction false} OutputHidesExactlySecrets(v: Value, w: Value)
    ensures Sanitize(v) == Sanitize(w) <==> SameButSecrets(v, w)
  {
    if v.Dict? && w.Dict? {
      var a, b := Sanitize(v), Sanitize(w);
      forall k | k in v.fields && k in w.fields && !Sensitive(k)
        ensures a.fields[k] == b.fields[k] <==> SameButSecrets(v.fields[k], w.fields[k])
      {
        OutputHidesExactlySecrets(v.fields[k], w.fields[k]);
      }
      assert a.fields.Keys == v.fields.Keys && b.fields.Keys == w.fields.Keys;
      if SameButSecrets(v, w) {
        assert a.fields == b.fields;
      }
    }
  }

  /**
    A key is sensitive exactly if one of seven words stands in it in any case; the eighth,
    "authorization", is one with "auth" in it.
   */
  lemma SensitiveExactly(key: string)
    ensures Sensitive(key) <==>
            var k := Lower(key);
            Contains(k, "password") || Contains(k, "passwd") || Contains(k, "secret") || Contains(k, "token")
            || Contains(k, "api_key") || Contains(k, "apikey") || Contains(k, "auth")
  {
    var k := Lower(key);
    assert SENSITIVE_KEYS[0] == "password" && SENSITIVE_KEYS[1] == "passwd" && SENSITIVE_KEYS[2] == "secret";
    assert SENSITIVE_KEYS[3] == "token" && SENSITIVE_KEYS[4] == "api_key" && SENSITIVE_KEYS[5] == "apikey";
    assert SENSITIVE_KEYS[7] == "auth";
    if Contains(k, "authorization") {
      LongerWord(k, "authorization", "auth");
    }
  }

  lemma LongerWord(k: string, word: string, front: string)
    requires Contains(k, word) && front <= word
    ensures Contains(k, front)
  {
    var i :| 0 <= i <= |k| && word <= k[i..];
    assert front <= k[i..];
  }
}
