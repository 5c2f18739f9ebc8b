/** What `filter_datum` does to a message: which spans it rewrites, what it puts
    in their place, and that everything else is copied in order. */
module RedactionProperties {
  import opened Text
  import opened Redaction

  /** No alternative of the group contains `=` (true of every real field list). */
  predicate NoEquals(alts: seq<string>)
  {
    forall f :: f in alts ==> '=' !in f
  }

  /** A match of the pattern starts at position `p` of `t`. */
  predicate MatchStartsAt(alts: seq<string>, t: string, sep: string, p: nat)
    requires p <= |t|
  {
    FirstMatch(alts, t[p..], sep).Some?
  }

  /** No match of the pattern starts at any of the positions `0 .. n - 1` of `t`. */
  predicate UnmatchedBefore(alts: seq<string>, t: string, sep: string, n: nat)
    requires n <= |t|
  {
    forall p :: 0 <= p < n ==> !MatchStartsAt(alts, t, sep, p)
  }

  /** The key written back for a match is the field that matched. */
  lemma {:induction false} KeyOfField(f: string, s: string)
    requires '=' !in f && f + "=" <= s
    ensures KeyOf(s) == f
    decreases |f|
  {
    if f != [] {
      assert s[0] == f[0] && f[0] in f;
      assert f[1..] + "=" <= s[1..];
      KeyOfField(f[1..], s[1..]);
    }
  }

  /** Two keys followed by `=` at the same place are the same key. */
  lemma KeyPrefixUnique(f: string, g: string, s: string)
    requires '=' !in f && '=' !in g
    requires f + "=" <= s && g + "=" <= s
    ensures f == g
  {
    KeyOfField(f, s);
    KeyOfField(g, s);
  }

  /** When field names contain no `=`, at most one alternative can match at a
      position, so its place in the list does not matter. */
  lemma FirstMatchIs(alts: seq<string>, t: string, sep: string, f: string)
    requires NoEquals(alts) && f in alts && MatchesAt(f, t, sep)
    ensures FirstMatch(alts, t, sep) == Some(Match(f, ValueLen(t[|f| + 1..], sep).value))
  {
    var m := FirstMatch(alts, t, sep).value;
    KeyPrefixUnique(m.field, f, t);
  }

  /** The regex engine tries the alternatives of the group in list order: the
      first alternative that can match at a position is the one used there.
      Together with `FirstMatch`'s own contract (None exactly when no
      alternative matches) this fixes the result for every input, including
      field names that hold `=`. */
  lemma {:induction false} FirstMatchEarliest(alts: seq<string>, t: string, sep: string, j: nat)
    requires j < |alts| && MatchesAt(alts[j], t, sep)
    requires forall i :: 0 <= i < j ==> !MatchesAt(alts[i], t, sep)
    ensures FirstMatch(alts, t, sep) == Some(Match(alts[j], ValueLen(t[|alts[j]| + 1..], sep).value))
    decreases j
  {
    if j > 0 {
      assert !MatchesAt(alts[0], t, sep);
      assert alts[1..][j - 1] == alts[j];
      forall i | 0 <= i < j - 1 ensures !MatchesAt(alts[1..][i], t, sep) {
        assert alts[1..][i] == alts[i + 1];
      }
      FirstMatchEarliest(alts[1..], t, sep, j - 1);
    }
  }

  /** Text before the first match is copied unchanged and in order. */
  lemma {:induction false} CopiesUnmatchedPrefix(alts: seq<string>, r: string, t: string, sep: string, n: nat)
    requires n <= |t| && UnmatchedBefore(alts, t, sep, n)
    ensures Redact(alts, r, t, sep) == t[..n] + Redact(alts, r, t[n..], sep)
    decreases n
  {
    if n > 0 {
      assert !MatchStartsAt(alts, t, sep, 0) && t[0..] == t;
      CopiesFirstCharacter(alts, r, t, sep);
      assert UnmatchedBefore(alts, t[1..], sep, n - 1) by {
        forall p | 0 <= p < n - 1 ensures !MatchStartsAt(alts, t[1..], sep, p) {
          assert t[1..][p..] == t[p + 1..];
          assert !MatchStartsAt(alts, t, sep, p + 1);
        }
      }
      CopiesUnmatchedPrefix(alts, r, t[1..], sep, n - 1);
      PrefixRegroup(t, n, Redact(alts, r, t[1..][n - 1..], sep));
    }
  }

  /** Where no match starts at `t`, the scan copies its first character. */
  lemma CopiesFirstCharacter(alts: seq<string>, r: string, t: string, sep: string)
    requires t != [] && FirstMatch(alts, t, sep).None?
    ensures Redact(alts, r, t, sep) == [t[0]] + Redact(alts, r, t[1..], sep)
  {
  }

  /** The first character and the next `n - 1` are the first `n`. */
  lemma PrefixRegroup(t: string, n: nat, y: string)
    requires 1 <= n <= |t|
    ensures t[1..][n - 1..] == t[n..]
    ensures [t[0]] + (t[1..][..n - 1] + y) == t[..n] + y
  {
    assert [t[0]] + t[1..][..n - 1] == t[..n];
  }

  /** A message in which the pattern matches nowhere comes back unchanged. */
  lemma UnchangedWithoutMatch(alts: seq<string>, r: string, t: string, sep: string)
    requires UnmatchedBefore(alts, t, sep, |t|)
    ensures Redact(alts, r, t, sep) == t
  {
    CopiesUnmatchedPrefix(alts, r, t, sep, |t|);
    assert t[|t|..] == [];
  }

  /** The shortest admissible value length is the one the lazy scan finds. */
  lemma ValueLenIs(u: string, sep: string, k: nat)
    requires ValueOk(u, sep, k)
    requires forall i :: 1 <= i < k ==> !ValueOk(u, sep, i)
    ensures ValueLen(u, sep) == Some(k)
  {
    var j := ValueLen(u, sep).value;
    assert !(j < k) && !(k < j);
  }

  /** One step of the scan where the pattern matches: the match `f=v<sep>` is
      rewritten to `f=<redaction><sep>` and the scan resumes right after it. */
  lemma RedactsAtMatch(alts: seq<string>, r: string, t: string, sep: string, m: Match)
    requires NoEquals(alts) && FirstMatch(alts, t, sep) == Some(m)
    ensures MatchLength(m, sep) <= |t|
    ensures Redact(alts, r, t, sep) == m.field + "=" + r + sep + Redact(alts, r, t[MatchLength(m, sep)..], sep)
  {
    var n := MatchLength(m, sep);
    assert n <= |t| by {
      assert sep <= t[|m.field| + 1..][m.valueLen..];
    }
    assert m.field + "=" <= t[..n];
    KeyOfField(m.field, t[..n]);
  }

  /** A matched span `f=v<sep>` becomes `f=<redaction><sep>`: the key and the
      separator stay, only the value changes, and the scan resumes after the
      separator. `v` is the shortest value: at least one character, no newline,
      and no separator starting inside it before its end. */
  lemma RedactsMatchedSpan(alts: seq<string>, r: string, f: string, v: string, sep: string, post: string)
    requires NoEquals(alts) && f in alts
    requires |v| >= 1 && '\n' !in v
    requires forall i :: 1 <= i < |v| ==> !(sep <= v[i..] + sep + post)
    ensures Redact(alts, r, f + "=" + v + sep + post, sep) == f + "=" + r + sep + Redact(alts, r, post, sep)
  {
    var t := f + "=" + v + sep + post;
    var u := v + sep + post;
    assert t[|f| + 1..] == u;
    assert ValueLen(u, sep) == Some(|v|) by {
      assert u[..|v|] == v && u[|v|..] == sep + post;
      forall i | 1 <= i < |v| ensures !ValueOk(u, sep, i) {
        assert u[i..] == v[i..] + sep + post;
      }
      ValueLenIs(u, sep, |v|);
    }
    FirstMatchIs(alts, t, sep, f);
    RedactsAtMatch(alts, r, t, sep, Match(f, |v|));
    assert t[MatchLength(Match(f, |v|), sep)..] == post;
  }

  /** The same with a one-character separator `c`: the value is everything up to
      the first `c` after its first character. */
  lemma RedactsField(alts: seq<string>, r: string, f: string, v: string, c: char, post: string)
    requires NoEquals(alts) && f in alts
    requires |v| >= 1 && '\n' !in v && c !in v[1..]
    ensures Redact(alts, r, f + "=" + v + [c] + post, [c]) == f + "=" + r + [c] + Redact(alts, r, post, [c])
  {
    forall i | 1 <= i < |v| ensures !([c] <= v[i..] + [c] + post) {
      assert v[1..][i - 1] == v[i] == (v[i..] + [c] + post)[0];
    }
    RedactsMatchedSpan(alts, r, f, v, [c], post);
  }

  /** A stretch `w` in which no key `f=` occurs, followed by a character `c`
      that no key contains, is copied unchanged. */
  lemma CopiesPlainText(alts: seq<string>, r: string, w: string, c: char, rest: string, sep: string)
    requires forall f :: f in alts ==> !OccursIn(f + "=", w) && c !in f
    requires c != '='
    ensures Redact(alts, r, w + [c] + rest, sep) == w + [c] + Redact(alts, r, rest, sep)
  {
    var t := w + [c] + rest;
    forall p | 0 <= p < |w| + 1 ensures !MatchStartsAt(alts, t, sep, p) {
      forall f | f in alts ensures !(f + "=" <= t[p..]) {
        if p + |f| < |w| {
          assert t[p..p + |f| + 1] == w[p..p + |f| + 1];
          assert w[p..][..|f| + 1] == w[p..p + |f| + 1];
        } else if p + |f| == |w| {
          assert t[p..][|f|] == c;
        } else {
          assert t[p..][|w| - p] == c && f[|w| - p] in f;
        }
      }
    }
    CopiesUnmatchedPrefix(alts, r, t, sep, |w| + 1);
    assert t[..|w| + 1] == w + [c];
    assert t[|w| + 1..] == rest;
  }

  /** If no key `f=` occurs in the message, `filter_datum` returns it unchanged. */
  lemma UnchangedWithoutKey(fields: seq<string>, r: string, m: string, sep: string)
    requires forall f :: f in Alternatives(fields) ==> !OccursIn(f + "=", m)
    ensures FilterDatum(fields, r, m, sep) == m
  {
    var alts := Alternatives(fields);
    forall p | 0 <= p < |m| ensures !MatchStartsAt(alts, m, sep, p) {
      forall f | f in alts ensures !(f + "=" <= m[p..]) {
        assert !OccursIn(f + "=", m);
      }
    }
    UnchangedWithoutMatch(alts, r, m, sep);
  }
}
