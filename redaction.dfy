/** The redaction engine behind `filter_datum`.

    The source builds the regular expression `(f1|f2|...|fn)=.+?SEP` from the
    field names and the separator, and `re.sub` replaces every match with the
    part of the match before its first `=`, followed by `=`, the redaction text
    and the separator. This module states the same behaviour as an explicit
    left-to-right scanner over strings. Field names and the separator are taken
    as literal text (the source does not escape them).
 */
module Redaction {

  datatype Option<T> = None | Some(value: T)

  /** A match found at the start of the remaining text: the alternative of the
      group that matched and the length of the lazily matched value. */
  datatype Match = Match(field: string, valueLen: nat)

  /** Number of characters a match covers: `field`, `=`, the value, the separator. */
  function MatchLength(m: Match, sep: string): nat
  {
    |m.field| + 1 + m.valueLen + |sep|
  }

  /** The alternatives of the group `(f1|...|fn)`. Joining an empty list gives
      the empty pattern `()`, whose one alternative is the empty string. */
  function Alternatives(fields: seq<string>): seq<string>
  {
    if fields == [] then [""] else fields
  }

  /** `t[..k]` can be the value matched by `.+?` when it is followed by `sep`:
      at least one character, none of them a newline (`.` does not match `\n`). */
  predicate ValueOk(t: string, sep: string, k: nat)
  {
    1 <= k <= |t| && '\n' !in t[..k] && sep <= t[k..]
  }

  /** The lazy scan of `.+?SEP`, trying the value lengths k, k + 1, ... in turn. */
  function ValueLenFrom(t: string, sep: string, k: nat): (r: Option<nat>)
    requires 1 <= k <= |t| + 1
    requires '\n' !in t[..k - 1]
    requires forall i :: 1 <= i < k ==> !ValueOk(t, sep, i)
    ensures r.Some? ==> k <= r.value && ValueOk(t, sep, r.value)
    ensures r.Some? ==> forall i :: 1 <= i < r.value ==> !ValueOk(t, sep, i)
    ensures r.None? ==> forall i :: !ValueOk(t, sep, i)
    decreases |t| + 1 - k
  {
    if k > |t| then None
    else if t[k - 1] == '\n' then
      assert forall i :: k <= i <= |t| ==> t[..i][k - 1] == '\n';
      None
    else if sep <= t[k..] then Some(k)
    else
      assert t[..k] == t[..k - 1] + [t[k - 1]];
      ValueLenFrom(t, sep, k + 1)
  }

  /** Length of the shortest value at the start of `t`, or None when no
      separator can be reached without crossing a newline. */
  function ValueLen(t: string, sep: string): (r: Option<nat>)
    ensures r.Some? ==> ValueOk(t, sep, r.value)
    ensures r.Some? ==> forall i :: 1 <= i < r.value ==> !ValueOk(t, sep, i)
    ensures r.None? <==> forall i :: !ValueOk(t, sep, i)
  {
    ValueLenFrom(t, sep, 1)
  }

  /** The regex matches at the start of `t` through the alternative `f`. */
  predicate MatchesAt(f: string, t: string, sep: string)
  {
    f + "=" <= t && ValueLen(t[|f| + 1..], sep).Some?
  }

  /** The regex engine at one position: the alternatives are tried in order and
      the first one for which a value can be found wins. */
  function FirstMatch(alts: seq<string>, t: string, sep: string): (r: Option<Match>)
    ensures r.Some? ==> r.value.field in alts && MatchesAt(r.value.field, t, sep)
    ensures r.Some? ==> ValueLen(t[|r.value.field| + 1..], sep) == Some(r.value.valueLen)
    ensures r.None? <==> forall f :: f in alts ==> !MatchesAt(f, t, sep)
  {
    if alts == [] then None
    else if MatchesAt(alts[0], t, sep) then
      Some(Match(alts[0], ValueLen(t[|alts[0]| + 1..], sep).value))
    else
      FirstMatch(alts[1..], t, sep)
  }

  /** `s.split('=')[0]`: the part of `s` before its first `=`. */
  function KeyOf(s: string): (k: string)
    ensures k <= s && '=' !in k
    ensures k == s || s[|k|] == '='
  {
    if s == [] || s[0] == '=' then [] else [s[0]] + KeyOf(s[1..])
  }

  /** `re.sub` of the pattern over the whole text: at each position either a
      match is rewritten to `key=redaction sep` and the scan resumes after it,
      or one character is copied and the scan advances by one. */
  function Redact(alts: seq<string>, redaction: string, t: string, sep: string): string
    decreases |t|
  {
    if t == [] then []
    else
      match FirstMatch(alts, t, sep)
      case None => [t[0]] + Redact(alts, redaction, t[1..], sep)
      case Some(m) =>
        var n := MatchLength(m, sep);
        KeyOf(t[..n]) + "=" + redaction + sep + Redact(alts, redaction, t[n..], sep)
  }

  /** `filter_datum(fields, redaction, message, separator)`. */
  function FilterDatum(fields: seq<string>, redaction: string, message: string, separator: string): string
  {
    Redact(Alternatives(fields), redaction, message, separator)
  }
}
