/**
  JSON values and the redaction every run, memory and event view goes through
  (`redact` in security.py).  An object keeps its keys in insertion order, as a
  Python dict does; numbers are unbounded integers.
  */
module Json {
  datatype Value =
    | Null
    | Bool(flag: bool)
    | Number(number: int)
    | Text(text: string)
    | List(items: seq<Value>)
    | Object(fields: seq<(string, Value)>)

  const SENSITIVE_KEYS := {"authorization", "api_key", "apikey", "password", "secret", "token"}
  const REDACTED := Text("[REDACTED]")

  /** `str.lower` on one character, as far as the ASCII words above can tell:
      besides A-Z only the Kelvin sign lowers to an ASCII letter. */
  function LowerChar(c: char): char {
    if 'A' <= c <= 'Z' then c - 'A' + 'a'
    else if c == '\U{212A}' then 'k'
    else c
  }

  function Lower(s: string): string {
    seq(|s|, i requires 0 <= i < |s| => LowerChar(s[i]))
  }

  predicate Sensitive(key: string) {
    Lower(key) in SENSITIVE_KEYS
  }

  /** `key` spells `word` in letters of either case. */
  predicate Spells(key: string, word: string) {
    |key| == |word| && forall i | 0 <= i < |key| :: SameLetter(key[i], word[i])
  }

  predicate SameLetter(c: char, lower: char) {
    || (c == lower && !('A' <= c <= 'Z') && c != '\U{212A}')
    || ('a' <= lower <= 'z' && c == lower - 'a' + 'A')
    || (lower == 'k' && c == '\U{212A}')
  }

  /** A key is sensitive exactly if it is one of six words, in whatever case. */
  lemma SensitiveExactly(key: string)
    ensures Sensitive(key) <==>
      || Spells(key, "authorization") || Spells(key, "api_key") || Spells(key, "apikey")
      || Spells(key, "password") || Spells(key, "secret") || Spells(key, "token")
  {
    forall word
      ensures Lower(key) == word <==> Spells(key, word)
    { SpellsExactly(key, word); }
  }

  lemma SpellsExactly(key: string, word: string)
    ensures Lower(key) == word <==> Spells(key, word)
  {
    forall c: char, lower: char
      ensures LowerChar(c) == lower <==> SameLetter(c, lower)
    { LettersExactly(c, lower); }
    if Lower(key) == word {
      forall i | 0 <= i < |key|
        ensures SameLetter(key[i], word[i])
      { assert LowerChar(key[i]) == Lower(key)[i] == word[i]; }
    }
    if Spells(key, word) {
      forall i | 0 <= i < |key|
        ensures Lower(key)[i] == word[i]
      { assert SameLetter(key[i], word[i]); }
    }
  }

  lemma LettersExactly(c: char, lower: char)
    ensures LowerChar(c) == lower <==> SameLetter(c, lower)
  {
  }

  function Redact(v: Value): Value {
    match v
    case List(items) =>
      List(seq(|items|, i requires 0 <= i < |items| => Redact(items[i])))
    case Object(fields) =>
      Object(seq(|fields|, i requires 0 <= i < |fields| => (fields[i].0, RedactField(fields[i]))))
    case _ => v
  }

  function RedactField(field: (string, Value)): Value {
    if Sensitive(field.0) then REDACTED else Redact(field.1)
  }

  /** No sensitive key, at any depth, holds anything but the placeholder. */
  predicate Clean(v: Value) {
    match v
    case List(items) => forall i | 0 <= i < |items| :: Clean(items[i])
    case Object(fields) => forall i | 0 <= i < |fields| :: CleanField(fields[i])
    case _ => true
  }

  predicate CleanField(field: (string, Value)) {
    if Sensitive(field.0) then field.1 == Text("[REDACTED]") else Clean(field.1)
  }

  /** Two values a viewer may not tell apart: equal except below sensitive keys. */
  predicate SameModuloSecrets(a: Value, b: Value) {
    match (a, b)
    case (List(xs), List(ys)) =>
      |xs| == |ys| && forall i | 0 <= i < |xs| :: SameModuloSecrets(xs[i], ys[i])
    case (Object(xs), Object(ys)) =>
      |xs| == |ys| && forall i | 0 <= i < |xs| :: SameField(xs[i], ys[i])
    case _ => a == b
  }

  predicate SameField(x: (string, Value), y: (string, Value)) {
    x.0 == y.0 && (Sensitive(x.0) || SameModuloSecrets(x.1, y.1))
  }

  /** Redaction removes every secret, and changes a value only when it has one to remove. */
  lemma {:induction false} RedactFixesExactlyCleanValues(v: Value)
    ensures Clean(Redact(v))
    ensures Redact(v) == v <==> Clean(v)
  {
    match v
    case List(items) =>
      forall i | 0 <= i < |items|
        ensures Clean(Redact(items[i])) && (Redact(items[i]) == items[i] <==> Clean(items[i]))
      { RedactFixesExactlyCleanValues(items[i]); }
      assert Redact(v).items == items <==> forall i | 0 <= i < |items| :: Redact(items[i]) == items[i] by {
        assert forall i | 0 <= i < |items| :: Redact(v).items[i] == Redact(items[i]);
      }
    case Object(fields) =>
      forall i | 0 <= i < |fields|
        ensures CleanField((fields[i].0, RedactField(fields[i])))
        ensures RedactField(fields[i]) == fields[i].1 <==> CleanField(fields[i])
      { RedactFixesExactlyCleanValues(fields[i].1); }
      assert Redact(v).fields == fields <==> forall i | 0 <= i < |fields| :: RedactField(fields[i]) == fields[i].1 by {
        assert forall i | 0 <= i < |fields| :: Redact(v).fields[i] == (fields[i].0, RedactField(fields[i]));
        assert forall i | 0 <= i < |fields| :: fields[i] == (fields[i].0, fields[i].1);
      }
    case _ =>
  }

  lemma {:induction false} RedactIdempotent(v: Value)
    ensures Redact(Redact(v)) == Redact(v)
  {
    RedactFixesExactlyCleanValues(v);
    RedactFixesExactlyCleanValues(Redact(v));
  }

  /** Non-interference: the redacted view depends on nothing but the non-secret
      part of the value, and keeps all of that part. */
  lemma {:induction false} RedactionHidesExactlySecrets(a: Value, b: Value)
    ensures Redact(a) == Redact(b) <==> SameModuloSecrets(a, b)
  {
    match (a, b)
    case (List(xs), List(ys)) =>
      if |xs| == |ys| {
        forall i | 0 <= i < |xs|
          ensures Redact(xs[i]) == Redact(ys[i]) <==> SameModuloSecrets(xs[i], ys[i])
        { RedactionHidesExactlySecrets(xs[i], ys[i]); }
        assert forall i | 0 <= i < |xs| :: Redact(a).items[i] == Redact(xs[i]);
        assert forall i | 0 <= i < |xs| :: Redact(b).items[i] == Redact(ys[i]);
      } else {
        assert |Redact(a).items| != |Redact(b).items|;
      }
    case (Object(xs), Object(ys)) =>
      if |xs| == |ys| {
        forall i | 0 <= i < |xs|
          ensures (xs[i].0, RedactField(xs[i])) == (ys[i].0, RedactField(ys[i])) <==> SameField(xs[i], ys[i])
        { RedactionHidesExactlySecrets(xs[i].1, ys[i].1); }
        assert forall i | 0 <= i < |xs| :: Redact(a).fields[i] == (xs[i].0, RedactField(xs[i]));
        assert forall i | 0 <= i < |xs| :: Redact(b).fields[i] == (ys[i].0, RedactField(ys[i]));
      } else {
        assert |Redact(a).fields| != |Redact(b).fields|;
      }
    case _ =>
  }
}
