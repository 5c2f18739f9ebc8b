/** Filtering an already filtered message changes nothing, when the separator
    is one character, the redaction text is non-empty and holds neither the
    separator nor a newline, and no field name contains `=`. */
module Idempotence {
  import opened Text
  import opened Redaction
  import opened RedactionProperties

  /** Whether a value can be found after a non-empty stretch `s` depends only on
      `s` when what follows `s` reaches the separator `c` without a newline. */
  lemma ValueSurvivesTail(s: string, x: string, y: string, c: char, ny: nat)
    requires |s| >= 1
    requires ny < |y| && y[ny] == c && '\n' !in y[..ny]
    requires ValueLen(s + x, [c]).Some?
    ensures ValueLen(s + y, [c]).Some?
  {
    var k := ValueLen(s + x, [c]).value;
    assert (s + x)[k..][0] == c;
    if k < |s| {
      assert (s + y)[..k] == (s + x)[..k];
      assert (s + y)[k..][0] == c;
      assert ValueOk(s + y, [c], k);
    } else {
      assert (s + x)[..k][..|s|] == s;
      assert '\n' !in s;
      var k' := |s| + ny;
      assert (s + y)[..k'] == s + y[..ny];
      assert (s + y)[k'..][0] == y[ny];
      assert ValueOk(s + y, [c], k');
    }
  }

  /** Rewriting the value of a later match (`v` becomes `r`) creates no match at
      the start of the text: a match there already existed before. */
  lemma MatchAtStartComesFromOriginal(
    f: string, pre: string, x: string, y: string,
    g: string, v: string, c: char, rest: string, r: string, orest: string)
    requires '=' !in f && '=' !in g && |pre| >= 1
    requires x == g + "=" + v + [c] + rest && y == g + "=" + r + [c] + orest
    requires ValueLen(v + [c] + rest, [c]) == Some(|v|)
    requires '\n' !in r
    ensures MatchesAt(f, pre + y, [c]) ==> MatchesAt(f, pre + x, [c])
  {
    if MatchesAt(f, pre + y, [c]) {
      if |f| < |pre| {
        ShortKeyKeepsMatch(f, pre, x, y, g, v, c, rest, r, orest);
      } else {
        LongKeyKeepsMatch(f, pre, x, y, g, v, c, rest, r, orest);
      }
    }
  }

  /** The key ends inside `pre`: the value scan starts in the common prefix. */
  lemma ShortKeyKeepsMatch(
    f: string, pre: string, x: string, y: string,
    g: string, v: string, c: char, rest: string, r: string, orest: string)
    requires |f| < |pre|
    requires x == g + "=" + v + [c] + rest && y == g + "=" + r + [c] + orest
    requires ValueLen(v + [c] + rest, [c]) == Some(|v|)
    requires '\n' !in r
    requires MatchesAt(f, pre + y, [c])
    ensures MatchesAt(f, pre + x, [c])
  {
    var n := |f|;
    SplitAfterKey(pre, y, g, r, c, orest, n);
    SplitAfterKey(pre, x, g, v, c, rest, n);
    assert (v + [c] + rest)[..|v|] == v;
    ValueSurvivesTail(pre[n + 1..] + g + "=", r + [c] + orest, v + [c] + rest, c, |v|);
  }

  /** Cutting `pre + g=v<c>rest` after a key of length `n` that ends inside `pre`. */
  lemma SplitAfterKey(pre: string, x: string, g: string, v: string, c: char, rest: string, n: nat)
    requires n < |pre| && x == g + "=" + v + [c] + rest
    ensures (pre + x)[..n + 1] == pre[..n + 1]
    ensures (pre + x)[n + 1..] == (pre[n + 1..] + g + "=") + (v + [c] + rest)
  {
    assert (pre + x)[n + 1..] == pre[n + 1..] + x;
  }

  /** The key reaches past `pre`: it must end where `g` ends, so in the original
      text it is followed by the value of the match at `pre`'s end. */
  lemma LongKeyKeepsMatch(
    f: string, pre: string, x: string, y: string,
    g: string, v: string, c: char, rest: string, r: string, orest: string)
    requires '=' !in f && '=' !in g && |pre| <= |f|
    requires x == g + "=" + v + [c] + rest && y == g + "=" + r + [c] + orest
    requires ValueLen(v + [c] + rest, [c]) == Some(|v|)
    requires MatchesAt(f, pre + y, [c])
    ensures MatchesAt(f, pre + x, [c])
  {
    var o := pre + y;
    assert o[|pre|..] == y;
    assert '=' !in f[|pre|..] by {
      forall j | 0 <= j < |f| - |pre| ensures f[|pre|..][j] != '=' {
        assert f[|pre|..][j] == f[|pre| + j] && f[|pre| + j] in f;
      }
    }
    assert f[|pre|..] + "=" <= y;
    KeyPrefixUnique(f[|pre|..], g, y);
    assert f[..|pre|] == o[..|pre|] == pre;
    assert f == f[..|pre|] + f[|pre|..] == pre + g;
    assert (pre + x)[..|f| + 1] == f + "=";
    assert (pre + x)[|f| + 1..] == v + [c] + rest;
  }

  /** A text `f=...` whose value has length `k` splits into the key, the value,
      the separator `c` and the rest, and the value is still the shortest one
      when only what follows the key is looked at. */
  lemma SplitValue(u: string, f: string, k: nat, c: char) returns (v: string, rest: string)
    requires f + "=" <= u && ValueLen(u[|f| + 1..], [c]) == Some(k)
    ensures u == f + "=" + v + [c] + rest
    ensures rest == u[|f| + 1 + k + 1..]
    ensures ValueLen(v + [c] + rest, [c]) == Some(|v|)
  {
    var i := |f| + 1;
    assert ValueOk(u[i..], [c], k);
    SplitAt(u, i, k, [c]);
    PrefixIsTake(f + "=", u);
    v := u[i..i + k];
    rest := u[i + k + 1..];
  }

  /** The parts of a text that starts with a match, before and after the
      match is rewritten. */
  lemma MatchParts(alts: seq<string>, r: string, u: string, c: char) returns (g: string, v: string, rest: string)
    requires NoEquals(alts) && FirstMatch(alts, u, [c]).Some?
    ensures '=' !in g
    ensures u == g + "=" + v + [c] + rest
    ensures ValueLen(v + [c] + rest, [c]) == Some(|v|)
    ensures Redact(alts, r, u, [c]) == g + "=" + r + [c] + Redact(alts, r, rest, [c])
  {
    var m := FirstMatch(alts, u, [c]).value;
    RedactsAtMatch(alts, r, u, [c], m);
    g := m.field;
    v, rest := SplitValue(u, g, m.valueLen, c);
  }

  /** A match at the start of `u`, once rewritten, creates no match at the
      start of `pre + u` where there was none. */
  lemma RewrittenMatchAddsNoEarlierMatch(alts: seq<string>, r: string, pre: string, u: string, c: char)
    requires NoEquals(alts) && '\n' !in r && |pre| >= 1
    requires FirstMatch(alts, u, [c]).Some?
    requires forall f :: f in alts ==> !MatchesAt(f, pre + u, [c])
    ensures forall f :: f in alts ==> !MatchesAt(f, pre + Redact(alts, r, u, [c]), [c])
  {
    var g, v, rest := MatchParts(alts, r, u, c);
    var y := Redact(alts, r, u, [c]);
    var orest := Redact(alts, r, rest, [c]);
    forall f | f in alts ensures !MatchesAt(f, pre + y, [c]) {
      MatchAtStartComesFromOriginal(f, pre, u, y, g, v, c, rest, r, orest);
    }
  }

  /** Where no match starts at the first character of `pre + t`, none starts
      there after `t` has been filtered either. */
  lemma {:induction false} UnmatchedStartStaysUnmatched(alts: seq<string>, r: string, pre: string, t: string, c: char)
    requires NoEquals(alts) && '\n' !in r && |pre| >= 1
    requires forall f :: f in alts ==> !MatchesAt(f, pre + t, [c])
    ensures forall f :: f in alts ==> !MatchesAt(f, pre + Redact(alts, r, t, [c]), [c])
    decreases |t|
  {
    if t == [] {
      assert pre + Redact(alts, r, t, [c]) == pre + t;
    } else {
      match FirstMatch(alts, t, [c])
      case Some(_) =>
        RewrittenMatchAddsNoEarlierMatch(alts, r, pre, t, c);
      case None =>
        CopiedCharacterJoinsPrefix(alts, r, pre, t, c);
        UnmatchedStartStaysUnmatched(alts, r, pre + [t[0]], t[1..], c);
    }
  }

  /** Where no match starts at `t`, its first character is copied: it can be
      moved from `t` to the text before it. */
  lemma CopiedCharacterJoinsPrefix(alts: seq<string>, r: string, pre: string, t: string, c: char)
    requires t != [] && FirstMatch(alts, t, [c]).None?
    ensures pre + Redact(alts, r, t, [c]) == (pre + [t[0]]) + Redact(alts, r, t[1..], [c])
    ensures (pre + [t[0]]) + t[1..] == pre + t
  {
    CopiesFirstCharacter(alts, r, t, [c]);
    MoveFirst(pre, t, Redact(alts, r, t[1..], [c]));
  }

  lemma MoveFirst(pre: string, t: string, y: string)
    requires t != []
    ensures pre + ([t[0]] + y) == (pre + [t[0]]) + y
    ensures (pre + [t[0]]) + t[1..] == pre + t
  {
    assert t == [t[0]] + t[1..];
  }

  /** Redacting twice is redacting once. */
  lemma {:induction false} RedactIdempotent(alts: seq<string>, r: string, t: string, c: char)
    requires NoEquals(alts)
    requires |r| >= 1 && c !in r && '\n' !in r
    ensures Redact(alts, r, Redact(alts, r, t, [c]), [c]) == Redact(alts, r, t, [c])
    decreases |t|
  {
    if t != [] {
      match FirstMatch(alts, t, [c])
      case None =>
        var o := Redact(alts, r, t, [c]);
        assert o == [t[0]] + Redact(alts, r, t[1..], [c]);
        assert [t[0]] + t[1..] == t;
        UnmatchedStartStaysUnmatched(alts, r, [t[0]], t[1..], c);
        assert o[1..] == Redact(alts, r, t[1..], [c]);
        RedactIdempotent(alts, r, t[1..], c);
      case Some(m) =>
        RedactsAtMatch(alts, r, t, [c], m);
        var n := MatchLength(m, [c]);
        var tail := Redact(alts, r, t[n..], [c]);
        assert c !in r[1..] by {
          forall j | 0 <= j < |r| - 1 ensures r[1..][j] != c {
            assert r[1..][j] == r[j + 1] && r[j + 1] in r;
          }
        }
        RedactsField(alts, r, m.field, r, c, tail);
        RedactIdempotent(alts, r, t[n..], c);
    }
  }

  /** `filter_datum` is idempotent for a one-character separator. */
  lemma FilterDatumIdempotent(fields: seq<string>, r: string, m: string, c: char)
    requires forall f :: f in fields ==> '=' !in f
    requires |r| >= 1 && c !in r && '\n' !in r
    ensures FilterDatum(fields, r, FilterDatum(fields, r, m, [c]), [c]) == FilterDatum(fields, r, m, [c])
  {
    RedactIdempotent(Alternatives(fields), r, m, c);
  }

  /** With a separator of two characters the same assumptions are not enough.
      The redaction `*;` does not hold the separator `;;`, yet once it is
      followed by `;;` the text holds `;;` one character sooner: filtering
      `f=x;;` gives `f=*;;;`, and filtering that again gives `f=*;;;;`. */
  lemma TwoCharSeparatorNotIdempotent(f: string, x: char, star: char, d: char)
    requires '=' !in f && d != '=' && star != d
    requires x != '\n' && star != '\n'
    ensures FilterDatum([f], [star, d], f + "=" + [x] + [d, d], [d, d]) == f + "=" + [star] + [d, d] + [d]
    ensures FilterDatum([f], [star, d], f + "=" + [star] + [d, d] + [d], [d, d]) == f + "=" + [star] + [d, d] + [d, d]
  {
    var r, sep := [star, d], [d, d];
    assert Alternatives([f]) == [f] && NoEquals([f]);
    Regroup(f, x, star, d);
    RedactsMatchedSpan([f], r, f, [x], sep, []);
    assert Redact([f], r, [], sep) == [];
    RedactsMatchedSpan([f], r, f, [star], sep, [d]);
    assert UnmatchedBefore([f], [d], sep, 1) by {
      assert [d][0..] == [d];
      assert !(f + "=" <= [d]) by {
        if |f| == 0 { assert (f + "=")[0] == '='; }
      }
    }
    UnchangedWithoutMatch([f], r, [d], sep);
  }

  /** The regroupings of the texts above. */
  lemma Regroup(f: string, x: char, star: char, d: char)
    ensures f + "=" + [x] + [d, d] == f + "=" + [x] + [d, d] + []
    ensures f + "=" + [star, d] + [d, d] + [] == f + "=" + [star] + [d, d] + [d]
    ensures f + "=" + [star, d] + [d, d] + [d] == f + "=" + [star] + [d, d] + [d, d]
  {
  }
}
