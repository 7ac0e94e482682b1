/** Case conversion of keys. The engine calls a third-party inflector for
    `camelize` (used when merging nested keys) and `underscore` (used to
    snake-case every key); the model takes both as parameters, bundled in an
    `Inflector`, and supplies an ASCII instance that covers the keys of the
    repository's own examples. `Lower` is Python's `str.lower` on ASCII. */
module Inflection {

  datatype Inflector = Inflector(camelize: string -> string, underscore: string -> string)

  predicate IsUpper(c: char) {
    'A' <= c <= 'Z'
  }

  predicate IsLower(c: char) {
    'a' <= c <= 'z'
  }

  predicate IsDigit(c: char) {
    '0' <= c <= '9'
  }

  function ToUpper(c: char): char {
    if IsLower(c) then (c as int - 32) as char else c
  }

  function ToLower(c: char): char {
    if IsUpper(c) then (c as int + 32) as char else c
  }

  /** `s.lower()` */
  function Lower(s: string): (r: string)
    ensures |r| == |s|
    ensures forall i :: 0 <= i < |s| ==> r[i] == ToLower(s[i])
  {
    seq(|s|, i requires 0 <= i < |s| => ToLower(s[i]))
  }

  lemma LowerConcat(a: string, b: string)
    ensures Lower(a + b) == Lower(a) + Lower(b)
  {
    var l, la, lb := Lower(a + b), Lower(a), Lower(b);
    forall i | 0 <= i < |l| ensures l[i] == (la + lb)[i] {
      if i < |a| {
        assert (a + b)[i] == a[i];
      } else {
        assert (a + b)[i] == b[i - |a|];
      }
    }
    assert l == la + lb;
  }

  /** A string without capitals is its own lower-case form. */
  lemma LowerFixed(s: string)
    requires forall i :: 0 <= i < |s| ==> !IsUpper(s[i])
    ensures Lower(s) == s
  {
  }

  /** ASCII camelize: every word of an underscore-separated key starts with
      a capital and the underscores go (`in_reply_to` becomes `InReplyTo`). */
  function Camelize(s: string): (r: string)
    ensures '_' !in r
    ensures |r| <= |s|
  {
    CamelizeFrom(s, true)
  }

  function CamelizeFrom(s: string, capital: bool): (r: string)
    ensures '_' !in r
    ensures |r| <= |s|
  {
    if |s| == 0 then []
    else if s[0] == '_' then CamelizeFrom(s[1..], true)
    else [if capital then ToUpper(s[0]) else s[0]] + CamelizeFrom(s[1..], false)
  }

  /** Position `i` of `s` starts a new word: an upper-case letter after a
      lower-case letter or digit, or the last capital of an acronym that is
      followed by a lower-case letter (`HTTPServer` splits before `S`). */
  predicate WordStart(s: string, i: nat)
    requires i < |s|
  {
    && 0 < i
    && IsUpper(s[i])
    && (IsLower(s[i - 1]) || IsDigit(s[i - 1]) ||
        (IsUpper(s[i - 1]) && i + 1 < |s| && IsLower(s[i + 1])))
  }

  /** ASCII underscore: words are split at `WordStart` positions, hyphens
      become underscores and everything is lower-cased
      (`lastModifiedOn` becomes `last_modified_on`). */
  function Underscore(s: string): (r: string)
    ensures forall i :: 0 <= i < |r| ==> !IsUpper(r[i])
    ensures |s| <= |r|
  {
    UnderscoreFrom(s, 0)
  }

  function UnderscoreFrom(s: string, i: nat): (r: string)
    requires i <= |s|
    ensures forall j :: 0 <= j < |r| ==> !IsUpper(r[j])
    ensures |s| - i <= |r|
    decreases |s| - i
  {
    if i == |s| then []
    else
      (if WordStart(s, i) then "_" else "") +
      [if s[i] == '-' then '_' else ToLower(s[i])] +
      UnderscoreFrom(s, i + 1)
  }

  /** The inflector the examples use. */
  function Ascii(): Inflector {
    Inflector(Camelize, Underscore)
  }
}
